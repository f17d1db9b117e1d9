/**
  Many threads on one table. `Update` settles on a bucket under the table lock, lets the
  lock go, and only then inserts; by that time the bucket may have been split away. Each
  locked section, each bucket insertion and each removal is one atomic step, and any step
  of any thread may come next.
 */
module Concurrency {
  import opened NodeIds
  import opened KClosest
  import opened Contacts
  import opened Tables
  import opened Reference
  import opened Histories

  /** A bucket already chosen, with the insertion still to come. */
  datatype Pending = Pending(bucket: nat, c: Contact)

  /**
    All bucket objects ever made, in order of creation; which of them are live, by depth;
    and what each thread has chosen. `ranges` records the prefix range each object was made
    for: no step reads it.
   */
  datatype World = World(
    local: Contact,
    k: nat,
    heap: seq<Bucket>,
    live: seq<nat>,
    pending: map<nat, Pending>,
    ranges: seq<Range>)

  datatype Step =
    | Lock(thread: nat, c: Contact)
    | Deliver(thread: nat)
    | Drop(id: NodeID)

  predicate Linked(w: World) {
    && w.live != []
    && |w.ranges| == |w.heap|
    && (forall i :: 0 <= i < |w.live| ==> w.live[i] < |w.heap|)
    && (forall n :: n in w.pending ==> w.pending[n].bucket < |w.heap|)
  }

  /** The table the live buckets make up. */
  function View(w: World): Table
    requires Linked(w)
  {
    Table(w.local, w.k, seq(|w.live|, i requires 0 <= i < |w.live| => w.heap[w.live[i]]))
  }

  function Start(local: Contact, k: nat): (w: World)
    ensures Linked(w)
  {
    World(local, k, New(local, k).buckets, [0], map[], [AtLeast(0)])
  }

  function SplitWorld(w: World): (w': World)
    requires Linked(w)
    ensures Linked(w') && w'.local == w.local && w'.k == w.k
  {
    var b, n, h := Deepest(View(w)), |w.live|, |w.heap|;
    w.(heap := w.heap + [SplitLeft(b, w.local, w.k), SplitRight(b, w.local, w.k)],
       live := w.live[..n - 1] + [h, h + 1],
       ranges := w.ranges + [Exactly(b.depth), AtLeast(b.depth + 1)])
  }

  function Next(w: World, s: Step): (w': World)
    requires Linked(w)
    ensures Linked(w') && w'.local == w.local && w'.k == w.k
  {
    match s
    case Lock(thread, c) =>
      if thread in w.pending then w
      else (
        match Decide(View(w), c)
        case Ignore => w
        case CannotSplit => w
        case Split => SplitWorld(w)
        case Insert(i) => w.(pending := w.pending[thread := Pending(w.live[i], c)])
      )
    case Deliver(thread) =>
      if thread !in w.pending then w
      else
        var p := w.pending[thread];
        w.(heap := w.heap[p.bucket := InsertInto(w.heap[p.bucket], p.c, w.local, w.k)],
           pending := w.pending - {thread})
    case Drop(id) =>
      var o := w.live[RemoveSlot(View(w), id)];
      w.(heap := w.heap[o := RemoveFrom(w.heap[o], id, w.k)])
  }

  function Interleave(w: World, steps: seq<Step>): (w': World)
    requires Linked(w)
    ensures Linked(w')
    decreases |steps|
  {
    if steps == [] then w else Interleave(Next(w, steps[0]), steps[1..])
  }

  /**
    Every bucket object, live or discarded, stays in form within the range it was made for;
    the live ones line up by depth; the local node heads the deepest; and every pending
    insertion fits the range of the object it is bound for.
   */
  predicate WorldInv(w: World) {
    && BucketsInv(w)
    && (forall n :: n in w.pending ==>
          w.pending[n].c.id != w.local.id && Fits(w.ranges[w.pending[n].bucket], w.local, w.pending[n].c.id))
  }

  predicate BucketsInv(w: World) {
    && Linked(w)
    && w.k > 0
    && |w.live| <= KEY_BITS
    && (forall o :: 0 <= o < |w.heap| ==> BucketInv(w.heap[o], w.ranges[o], w.local, w.k))
    && (forall i :: 0 <= i < |w.live| ==> w.ranges[w.live[i]] == RangeOf(i, |w.live|))
    && LeadsWith(w.heap[w.live[|w.live| - 1]].peers, w.local)
  }

  lemma {:induction false} ViewInv(w: World)
    requires WorldInv(w)
    ensures TableInv(View(w))
    ensures forall i, j :: 0 <= i < j < |w.live| ==> w.live[i] != w.live[j]
  {
    forall i, j | 0 <= i < j < |w.live|
      ensures w.live[i] != w.live[j]
    {
      assert w.ranges[w.live[i]] == RangeOf(i, |w.live|) && w.ranges[w.live[j]] == RangeOf(j, |w.live|);
    }
  }

  lemma {:induction false} StartInv(local: Contact, k: nat)
    requires k > 0
    ensures WorldInv(Start(local, k)) && View(Start(local, k)) == New(local, k)
  {
    NewInv(local, k);
    assert View(Start(local, k)).buckets == New(local, k).buckets;
  }

  lemma {:induction false} SplitWorldBuckets(w: World)
    requires WorldInv(w) && |w.live| < KEY_BITS
    ensures
      var w' := SplitWorld(w);
      && (forall o :: 0 <= o < |w'.heap| ==> BucketInv(w'.heap[o], w'.ranges[o], w.local, w.k))
      && LeadsWith(w'.heap[|w.heap| + 1].peers, w.local)
      && Deepest(View(w)).depth == |w.live| - 1
  {
    var b, n, h, w' := Deepest(View(w)), |w.live|, |w.heap|, SplitWorld(w);
    assert w.ranges[w.live[n - 1]] == RangeOf(n - 1, n) && b == w.heap[w.live[n - 1]];
    SplitKeepsBucketInv(b, w.local, w.k);
    forall o | 0 <= o < |w'.heap|
      ensures BucketInv(w'.heap[o], w'.ranges[o], w.local, w.k)
    {
      if o < h {
        assert w'.heap[o] == w.heap[o] && w'.ranges[o] == w.ranges[o];
      }
    }
  }

  lemma {:induction false} SplitWorldRanges(w: World)
    requires WorldInv(w) && Deepest(View(w)).depth == |w.live| - 1
    ensures
      var w' := SplitWorld(w);
      && (forall i :: 0 <= i < |w'.live| ==> w'.ranges[w'.live[i]] == RangeOf(i, |w'.live|))
      && (forall n :: n in w'.pending ==> w'.ranges[w'.pending[n].bucket] == w.ranges[w.pending[n].bucket])
  {
    var n, w' := |w.live|, SplitWorld(w);
    forall i | 0 <= i < |w'.live|
      ensures w'.ranges[w'.live[i]] == RangeOf(i, n + 1)
    {
      if i < n - 1 {
        assert w'.live[i] == w.live[i] && w.ranges[w.live[i]] == RangeOf(i, n);
      }
    }
  }

  lemma {:induction false} SplitWorldInv(w: World)
    requires WorldInv(w) && |w.live| < KEY_BITS
    ensures WorldInv(SplitWorld(w)) && View(SplitWorld(w)) == Grown(View(w))
  {
    SplitWorldBuckets(w);
    SplitWorldRanges(w);
    assert View(SplitWorld(w)).buckets == Grown(View(w)).buckets;
  }

  /** The bucket chosen for a contact was made for a range that admits it. */
  lemma {:induction false} ChosenFits(w: World, c: Contact, i: nat)
    requires WorldInv(w) && Decide(View(w), c) == Insert(i)
    ensures i < |w.live| && c.id != w.local.id && Fits(w.ranges[w.live[i]], w.local, c.id)
  {
    SlotFits(View(w), c.id);
    assert w.ranges[w.live[i]] == RangeOf(i, |w.live|);
  }

  lemma {:induction false} ChosenKeepsBuckets(w: World, thread: nat, p: Pending)
    requires BucketsInv(w) && p.bucket < |w.heap|
    ensures BucketsInv(w.(pending := w.pending[thread := p]))
  {
    var w' := w.(pending := w.pending[thread := p]);
    assert forall n :: n in w'.pending ==> n == thread || w'.pending[n] == w.pending[n];
  }

  lemma {:induction false} ChosenInv(w: World, thread: nat, c: Contact, i: nat)
    requires WorldInv(w) && i < |w.live|
    requires c.id != w.local.id && Fits(w.ranges[w.live[i]], w.local, c.id)
    ensures WorldInv(w.(pending := w.pending[thread := Pending(w.live[i], c)]))
  {
    var p := Pending(w.live[i], c);
    ChosenKeepsBuckets(w, thread, p);
    var pending := w.pending[thread := p];
    forall n | n in pending
      ensures pending[n].c.id != w.local.id && Fits(w.ranges[pending[n].bucket], w.local, pending[n].c.id)
    {
      assert n == thread || pending[n] == w.pending[n];
    }
  }

  lemma {:induction false} SplitIsPossible(w: World, c: Contact)
    requires WorldInv(w)
    ensures !Decide(View(w), c).CannotSplit?
    ensures Decide(View(w), c).Split? ==> |w.live| < KEY_BITS
  {
    ViewInv(w);
    var t := View(w);
    assert t.buckets[|t.buckets| - 1].depth == |t.buckets| - 1;
    assert Deepest(t).peers[0].id == w.local.id;
  }

  lemma {:induction false} LockInv(w: World, thread: nat, c: Contact)
    requires WorldInv(w)
    ensures WorldInv(Next(w, Lock(thread, c)))
    ensures !Decide(View(w), c).CannotSplit?
  {
    SplitIsPossible(w, c);
    if thread !in w.pending {
      match Decide(View(w), c) {
        case Split => SplitWorldInv(w);
        case Insert(i) =>
          ChosenFits(w, c, i);
          ChosenInv(w, thread, c, i);
        case _ =>
      }
    }
  }

  /** One bucket object replaced by another in form, with the local node in front if it is the deepest. */
  lemma {:induction false} BucketReplaced(w: World, o: nat, b: Bucket)
    requires WorldInv(w) && o < |w.heap| && BucketInv(b, w.ranges[o], w.local, w.k)
    requires o == w.live[|w.live| - 1] ==> LeadsWith(b.peers, w.local)
    ensures WorldInv(w.(heap := w.heap[o := b]))
  {
  }

  lemma {:induction false} LessPending(w: World, thread: nat)
    requires WorldInv(w)
    ensures WorldInv(w.(pending := w.pending - {thread}))
  {
  }

  lemma {:induction false} DeliverInv(w: World, thread: nat)
    requires WorldInv(w)
    ensures WorldInv(Next(w, Deliver(thread)))
  {
    if thread in w.pending {
      var p := w.pending[thread];
      var b := InsertInto(w.heap[p.bucket], p.c, w.local, w.k);
      InsertKeepsBucketInv(w.heap[p.bucket], w.ranges[p.bucket], p.c, w.local, w.k);
      if p.bucket == w.live[|w.live| - 1] {
        InsertKeepsLead(w.heap[p.bucket].peers, p.c, w.local, w.k);
      }
      BucketReplaced(w, p.bucket, b);
      LessPending(w.(heap := w.heap[p.bucket := b]), thread);
    }
  }

  lemma {:induction false} DropInv(w: World, id: NodeID)
    requires WorldInv(w) && id != w.local.id
    ensures WorldInv(Next(w, Drop(id)))
  {
    var o := w.live[RemoveSlot(View(w), id)];
    RemoveKeepsBucketInv(w.heap[o], w.ranges[o], id, w.local, w.k);
    BucketReplaced(w, o, RemoveFrom(w.heap[o], id, w.k));
  }

  predicate DropsOthers(local: Contact, steps: seq<Step>) {
    forall i :: 0 <= i < |steps| ==> steps[i] != Drop(local.id)
  }

  lemma {:induction false} NextInv(w: World, s: Step)
    requires WorldInv(w) && s != Drop(w.local.id)
    ensures WorldInv(Next(w, s)) && Next(w, s).local == w.local && Next(w, s).k == w.k
  {
    match s {
      case Lock(n, c) => LockInv(w, n, c);
      case Deliver(n) => DeliverInv(w, n);
      case Drop(id) => DropInv(w, id);
    }
  }

  lemma {:induction false} StepsInv(w: World, steps: seq<Step>)
    requires WorldInv(w) && DropsOthers(w.local, steps)
    ensures WorldInv(Interleave(w, steps))
    ensures Interleave(w, steps).local == w.local && Interleave(w, steps).k == w.k
    decreases |steps|
  {
    if steps != [] {
      assert steps[0] != Drop(w.local.id);
      NextInv(w, steps[0]);
      assert forall i :: 0 <= i < |steps[1..]| ==> steps[1..][i] == steps[i + 1];
      StepsInv(Next(w, steps[0]), steps[1..]);
    }
  }

  /**
    Every interleaving of any number of threads keeps the live table in form, and no locked
    section ever finds a bucket it cannot split.
   */
  lemma {:induction false} InterleaveInv(local: Contact, k: nat, steps: seq<Step>, c: Contact)
    requires k > 0 && DropsOthers(local, steps)
    ensures
      var w := Interleave(Start(local, k), steps);
      w.local == local && w.k == k && WorldInv(w) && TableInv(View(w)) && !Decide(View(w), c).CannotSplit?
  {
    StartInv(local, k);
    StepsInv(Start(local, k), steps);
    var w := Interleave(Start(local, k), steps);
    ViewInv(w);
    LockInv(w, 0, c);
  }

  // ---------------------------------------------------------------- sequential calls

  lemma {:induction false} DeliverLive(w: World, thread: nat, i: nat)
    requires WorldInv(w) && thread in w.pending && i < |w.live| && w.pending[thread].bucket == w.live[i]
    ensures View(Next(w, Deliver(thread))) ==
            Put(View(w), i, InsertInto(View(w).buckets[i], w.pending[thread].c, w.local, w.k))
  {
    ViewInv(w);
    assert View(Next(w, Deliver(thread))).buckets ==
           Put(View(w), i, InsertInto(View(w).buckets[i], w.pending[thread].c, w.local, w.k)).buckets;
  }

  lemma {:induction false} SameView(w: World, w': World)
    requires Linked(w) && Linked(w') && w'.local == w.local && w'.k == w.k
    requires w'.heap == w.heap && w'.live == w.live
    ensures View(w') == View(w)
  {
  }

  lemma {:induction false} LockChooses(w: World, thread: nat, c: Contact, i: nat)
    requires WorldInv(w) && thread !in w.pending && Decide(View(w), c) == Insert(i)
    ensures
      var w' := w.(pending := w.pending[thread := Pending(w.live[i], c)]);
      Next(w, Lock(thread, c)) == w' && WorldInv(w') && View(w') == View(w) && w'.pending - {thread} == w.pending
  {
    var w' := w.(pending := w.pending[thread := Pending(w.live[i], c)]);
    ChosenFits(w, c, i);
    ChosenInv(w, thread, c, i);
    SameView(w, w');
    assert w'.pending - {thread} == w.pending;
  }

  lemma {:induction false} InsertUndisturbed(w: World, thread: nat, c: Contact, i: nat)
    requires WorldInv(w) && thread !in w.pending && Decide(View(w), c) == Insert(i)
    ensures
      var w' := Next(Next(w, Lock(thread, c)), Deliver(thread));
      && WorldInv(w') && w'.pending == w.pending
      && View(w') == Put(View(w), i, InsertInto(View(w).buckets[i], c, w.local, w.k))
  {
    LockChooses(w, thread, c, i);
    var w' := Next(w, Lock(thread, c));
    DeliverLive(w', thread, i);
    DeliverInv(w', thread);
  }

  lemma {:induction false} SplitUndisturbed(w: World, thread: nat, c: Contact)
    requires WorldInv(w) && thread !in w.pending && Decide(View(w), c).Split?
    ensures Next(w, Lock(thread, c)) == SplitWorld(w)
    ensures WorldInv(SplitWorld(w)) && |SplitWorld(w).live| == |w.live| + 1 <= KEY_BITS
    ensures Shape(View(w)) && Shape(View(SplitWorld(w)))
    ensures Update(View(SplitWorld(w)), c) == Update(View(w), c)
  {
    ViewInv(w);
    var t := View(w);
    assert t.buckets[|t.buckets| - 1].depth == |t.buckets| - 1;
    SplitWorldInv(w);
  }

  lemma {:induction false} TwoSteps(w: World, a: Step, b: Step)
    requires Linked(w)
    ensures Interleave(w, [a, b]) == Next(Next(w, a), b)
  {
    assert [a, b][1..] == [b] && [b][1..] == [];
    assert Interleave(Next(w, a), [b]) == Interleave(Next(Next(w, a), b), []);
  }

  lemma {:induction false} FirstStep(w: World, s: Step, rest: seq<Step>)
    requires Linked(w)
    ensures Interleave(w, [s] + rest) == Interleave(Next(w, s), rest)
  {
    assert ([s] + rest)[1..] == rest;
  }

  /** The steps of a thread, run back to back, amount to the sequential `Update`. */
  predicate Amounts(w: World, steps: seq<Step>, c: Contact)
    requires Linked(w)
  {
    && Shape(View(w))
    && WorldInv(Interleave(w, steps))
    && Interleave(w, steps).pending == w.pending
    && View(Interleave(w, steps)) == Update(View(w), c).0
  }

  lemma {:induction false} IgnoreAmounts(w: World, c: Contact)
    requires WorldInv(w) && Decide(View(w), c).Ignore?
    ensures Amounts(w, [], c)
  {
    ViewInv(w);
  }

  lemma {:induction false} InsertAmounts(w: World, thread: nat, c: Contact)
    requires WorldInv(w) && thread !in w.pending && Decide(View(w), c).Insert?
    ensures Amounts(w, [Lock(thread, c), Deliver(thread)], c)
  {
    ViewInv(w);
    InsertUndisturbed(w, thread, c, Decide(View(w), c).index);
    TwoSteps(w, Lock(thread, c), Deliver(thread));
  }

  lemma {:induction false} SplitAmounts(w: World, thread: nat, c: Contact, rest: seq<Step>)
    requires WorldInv(w) && thread !in w.pending && Decide(View(w), c).Split?
    requires Amounts(SplitWorld(w), rest, c)
    ensures Amounts(w, [Lock(thread, c)] + rest, c)
  {
    SplitUndisturbed(w, thread, c);
    FirstStep(w, Lock(thread, c), rest);
  }

  /** One thread running alone does what the sequential `Update` does. */
  lemma {:induction false} UndisturbedUpdate(w: World, thread: nat, c: Contact) returns (steps: seq<Step>)
    requires WorldInv(w) && thread !in w.pending
    ensures Amounts(w, steps, c)
    ensures forall s :: s in steps ==> s == Lock(thread, c) || s == Deliver(thread)
    decreases KEY_BITS - |w.live|
  {
    ViewInv(w);
    LockInv(w, thread, c);
    match Decide(View(w), c) {
      case Ignore =>
        IgnoreAmounts(w, c);
        steps := [];
      case CannotSplit => assert false;
      case Split =>
        SplitUndisturbed(w, thread, c);
        var rest := UndisturbedUpdate(SplitWorld(w), thread, c);
        SplitAmounts(w, thread, c, rest);
        steps := [Lock(thread, c)] + rest;
      case Insert(i) =>
        InsertAmounts(w, thread, c);
        steps := [Lock(thread, c), Deliver(thread)];
    }
  }

  // ---------------------------------------------------------------- what interleaving can lose

  /** An insertion bound for a bucket that has been split away changes nothing anyone can see. */
  lemma {:induction false} StaleInsertIsLost(w: World, thread: nat)
    requires Linked(w) && thread in w.pending && w.pending[thread].bucket !in w.live
    ensures View(Next(w, Deliver(thread))) == View(w)
  {
    assert View(Next(w, Deliver(thread))).buckets == View(w).buckets;
  }

  /**
    Three calls, all completed: thread 1 offers x, threads 2 and 3 offer y. Thread 1 chooses
    the only bucket; the bucket fills and is split before thread 1 inserts.
   */
  function LosingSchedule(x: Contact, y: Contact): (steps: seq<Step>) {
    [Lock(1, x), Lock(2, y), Deliver(2), Lock(3, y), Deliver(1), Lock(3, y), Deliver(3)]
  }

  predicate TwoStrangers(local: Contact, x: Contact, y: Contact) {
    x.id != y.id && x.id != local.id && y.id != local.id && Depth(local, y.id) == 0
  }

  /** Both threads have chosen the first bucket. */
  function BothChosen(local: Contact, x: Contact, y: Contact): World {
    Start(local, 2).(pending := map[1 := Pending(0, x), 2 := Pending(0, y)])
  }

  lemma {:induction false} FirstChoice(local: Contact, c: Contact)
    requires c.id != local.id
    ensures New(local, 2).buckets == [Bucket(0, false, [local])]
    ensures Decide(New(local, 2), c) == Insert(0)
  {
    assert Without([], local.id) + [local] == [local];
    assert Sorted([local], local.id) == [local];
  }

  lemma {:induction false} ChoosingTogether(local: Contact, x: Contact, y: Contact)
    requires TwoStrangers(local, x, y)
    ensures Next(Next(Start(local, 2), Lock(1, x)), Lock(2, y)) == BothChosen(local, x, y)
    ensures WorldInv(BothChosen(local, x, y)) && View(BothChosen(local, x, y)) == New(local, 2)
  {
    var w := Start(local, 2);
    StartInv(local, 2);
    FirstChoice(local, x);
    FirstChoice(local, y);
    var w' := w.(pending := map[1 := Pending(0, x)]);
    assert Next(w, Lock(1, x)) == w';
    assert View(w') == View(w) && View(BothChosen(local, x, y)) == View(w);
    assert Next(w', Lock(2, y)) == BothChosen(local, x, y);
    LockInv(w, 1, x);
    LockInv(w', 2, y);
  }

  lemma {:induction false} PairBucket(local: Contact, y: Contact)
    requires y.id != local.id
    ensures Elems(Inserted([local], y, 2, local.id)) == {local, y}
    ensures |Inserted([local], y, 2, local.id)| == 2
  {
    var s := Inserted([local], y, 2, local.id);
    InsertedSpec([local], y, 2, local.id);
    RoomyInsert([local], y, local, 2);
    assert Replace(Elems([local]), y) == {local, y};
    StrictIdCount(s, local.id);
    assert Ids({local, y}) == {local.id, y.id};
  }

  /** Once y has joined the local node the one bucket is full, so the next offer of y splits it. */
  lemma {:induction false} PairTable(local: Contact, y: Contact)
    requires y.id != local.id && Depth(local, y.id) == 0
    ensures
      var t := Table(local, 2, [InsertInto(Bucket(0, false, [local]), y, local, 2)]);
      Stored(t) == {local, y} && Decide(t, y).Split?
  {
    PairBucket(local, y);
    var b := InsertInto(Bucket(0, false, [local]), y, local, 2);
    var t := Table(local, 2, [b]);
    assert forall c :: c in Stored(t) <==> c in t.buckets[0].peers;
    assert Stored(t) == Elems(b.peers);
    assert local in Elems(b.peers);
    assert ContainsId(b.peers, local.id);
  }

  lemma {:induction false} FillsUp(local: Contact, x: Contact, y: Contact)
    requires TwoStrangers(local, x, y)
    ensures
      var w := Next(BothChosen(local, x, y), Deliver(2));
      && WorldInv(w) && w.local == local && w.k == 2 && w.live == [0] && w.pending == map[1 := Pending(0, x)]
      && Stored(View(w)) == {local, y} && Decide(View(w), y).Split?
  {
    var w0 := BothChosen(local, x, y);
    ChoosingTogether(local, x, y);
    FirstChoice(local, y);
    DeliverInv(w0, 2);
    PairTable(local, y);
    var w := Next(w0, Deliver(2));
    assert View(w).buckets == [InsertInto(Bucket(0, false, [local]), y, local, 2)];
    assert w.pending == map[1 := Pending(0, x)];
  }

  lemma {:induction false} SplitKeepsPending(w: World)
    requires WorldInv(w) && |w.live| < KEY_BITS
    ensures
      var s := SplitWorld(w);
      && WorldInv(s) && Stored(View(s)) == Stored(View(w)) && s.pending == w.pending && |s.live| == |w.live| + 1
      && w.live[|w.live| - 1] !in s.live
  {
    SplitWorldInv(w);
    ViewInv(w);
    GrownInv(View(w));
  }

  /** After the split, thread 1 inserts into a bucket nobody can reach. */
  lemma {:induction false} LosesOne(local: Contact, x: Contact, y: Contact, w: World)
    requires TwoStrangers(local, x, y)
    requires WorldInv(w) && w.local == local && w.live == [0] && w.pending == map[1 := Pending(0, x)]
    requires Stored(View(w)) == {local, y} && Decide(View(w), y).Split?
    ensures
      var w' := Next(Next(w, Lock(3, y)), Deliver(1));
      && WorldInv(w') && w'.local == local && w'.k == w.k && w'.pending == map[] && |w'.live| == 2
      && Stored(View(w')) == {local, y}
  {
    SplitUndisturbed(w, 3, y);
    SplitKeepsPending(w);
    StaleInsertIsLost(SplitWorld(w), 1);
    DeliverInv(SplitWorld(w), 1);
  }

  /** Thread 3 finds room for y again and adds nothing new. */
  lemma {:induction false} SettlesDown(local: Contact, y: Contact, w: World)
    requires y.id != local.id && Depth(local, y.id) == 0
    requires WorldInv(w) && w.local == local && w.k == 2 && w.pending == map[] && |w.live| == 2
    requires Stored(View(w)) == {local, y}
    ensures
      var w' := Next(Next(w, Lock(3, y)), Deliver(3));
      w'.pending == map[] && Stored(View(w')) == {local, y}
  {
    ViewInv(w);
    assert Decide(View(w), y) == Insert(0);
    InsertUndisturbed(w, 3, y, 0);
    InsertRefines(View(w), y);
    OfferAgain(local, y);
  }

  /**
    Contents are a function of the offers only while calls do not overlap. Here every call
    has completed, yet x is gone, though either order of the two offers alone would keep it.
   */
  lemma {:induction false} OverlappingUpdateLosesContact(local: Contact, x: Contact, y: Contact)
    requires TwoStrangers(local, x, y)
    ensures
      var w := Interleave(Start(local, 2), LosingSchedule(x, y));
      w.pending == map[] && Stored(View(w)) == {local, y}
    ensures x in Stored(Run(local, 2, Offers([x, y]))) && x in Stored(Run(local, 2, Offers([y, x])))
  {
    Unroll(Start(local, 2), x, y);
    LosesX(local, x, y);
    BothKept(local, [x, y], x, y);
    BothKept(local, [y, x], x, y);
  }

  lemma {:induction false} LosesX(local: Contact, x: Contact, y: Contact)
    requires TwoStrangers(local, x, y)
    ensures
      var w := Next(Next(Next(Next(Next(Next(Next(Start(local, 2), Lock(1, x)), Lock(2, y)), Deliver(2)), Lock(3, y)), Deliver(1)), Lock(3, y)), Deliver(3));
      w.pending == map[] && Stored(View(w)) == {local, y}
  {
    ChoosingTogether(local, x, y);
    FillsUp(local, x, y);
    var w := Next(BothChosen(local, x, y), Deliver(2));
    LosesOne(local, x, y, w);
    SettlesDown(local, y, Next(Next(w, Lock(3, y)), Deliver(1)));
  }

  lemma {:induction false} OfferAgain(local: Contact, y: Contact)
    requires y.id != local.id && Depth(local, y.id) == 0
    ensures Offer({local, y}, y, local, 2) == {local, y}
  {
    NoneCloserThanSelf(local, local.id);
    assert Replace({local, y}, y) == {local, y};
    assert Cell({local, y}, local, 0) == {y};
    assert Ids({y}) == {y.id};
    FewAreAllClosest({y.id}, 2, local.id);
  }

  lemma {:induction false} Unroll(w: World, x: Contact, y: Contact)
    requires Linked(w)
    ensures Interleave(w, LosingSchedule(x, y)) ==
      Next(Next(Next(Next(Next(Next(Next(w, Lock(1, x)), Lock(2, y)), Deliver(2)), Lock(3, y)), Deliver(1)), Lock(3, y)), Deliver(3))
  {
    FirstStep(w, Lock(1, x), [Lock(2, y), Deliver(2), Lock(3, y), Deliver(1), Lock(3, y), Deliver(3)]);
    var w1 := Next(w, Lock(1, x));
    FirstStep(w1, Lock(2, y), [Deliver(2), Lock(3, y), Deliver(1), Lock(3, y), Deliver(3)]);
    var w2 := Next(w1, Lock(2, y));
    FirstStep(w2, Deliver(2), [Lock(3, y), Deliver(1), Lock(3, y), Deliver(3)]);
    var w3 := Next(w2, Deliver(2));
    FirstStep(w3, Lock(3, y), [Deliver(1), Lock(3, y), Deliver(3)]);
    var w4 := Next(w3, Lock(3, y));
    FirstStep(w4, Deliver(1), [Lock(3, y), Deliver(3)]);
    TwoSteps(Next(w4, Deliver(1)), Lock(3, y), Deliver(3));
  }

  lemma {:induction false} BothKnown(local: Contact, offers: seq<Contact>, x: Contact, y: Contact)
    requires x.id != y.id && x.id != local.id && y.id != local.id
    requires offers == [x, y] || offers == [y, x]
    ensures Ids(Known(local, offers)) == {local.id, x.id, y.id} && x in Known(local, offers)
  {
    KnownIsLatest(local, offers, x);
    KnownIds(local, offers);
    assert offers[0] == x || offers[1] == x;
    assert Elems(offers) == {x, y};
    assert Ids({x, y}) == {x.id, y.id};
  }

  lemma {:induction false} BothKept(local: Contact, offers: seq<Contact>, x: Contact, y: Contact)
    requires x.id != y.id && x.id != local.id && y.id != local.id
    requires offers == [x, y] || offers == [y, x]
    ensures x in Stored(Run(local, 2, Offers(offers)))
  {
    StoredIsKOfEach(local, 2, offers);
    BothKnown(local, offers, x, y);
    var A := Known(local, offers);
    var C := Ids(Cell(A, local, Depth(local, x.id)));
    NoneCloserThanSelf(local, x.id);
    assert C <= {x.id, y.id} by {
      forall id | id in C ensures id in {x.id, y.id} { assert id in Ids(A); }
    }
    SubsetSize(C, {x.id, y.id});
    FewAreAllClosest(C, 2, local.id);
    assert x in Cell(A, local, Depth(local, x.id));
    assert x in KOfEach(A, local, 2);
  }
}
