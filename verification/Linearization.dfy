/**
  When overlapping calls are as good as calls made one after another. `Update` chooses a
  bucket under the lock and inserts after releasing it, so an insertion may come late. It is
  effective if it does what an offer made at that moment would do. The contents of the table
  are at every moment those of calls made one after another, in the order in which they
  insert and remove, exactly when every insertion is. In another order a run that fails this
  may still have an explanation.
 */
module Linearization {
  import opened NodeIds
  import opened KClosest
  import opened Contacts
  import opened Tables
  import opened Reference
  import opened Histories
  import opened Concurrency
  import opened Limits

  // ---------------------------------------------------------------- effects

  /** What one step adds to a run's effects. */
  function Effect(w: World, s: Step): seq<Event>
    requires Linked(w)
  {
    match s
    case Deliver(n) => if n in w.pending then [Offered(w.pending[n].c)] else []
    case Drop(id) => [Removed(id)]
    case Lock(_, _) => []
  }

  /** What a run does to the stored contacts, in the order in which it does it. */
  function Effects(w: World, steps: seq<Step>): seq<Event>
    requires Linked(w)
    decreases |steps|
  {
    if steps == [] then [] else Effect(w, steps[0]) + Effects(Next(w, steps[0]), steps[1..])
  }

  function Apply(A: set<Contact>, e: Event, local: Contact, k: nat): set<Contact>
    requires k > 0
  {
    match e
    case Offered(c) => Offer(A, c, local, k)
    case Removed(id) => Forget(A, id)
  }

  function ApplyAll(A: set<Contact>, events: seq<Event>, local: Contact, k: nat): set<Contact>
    requires k > 0
    decreases |events|
  {
    if events == [] then A else ApplyAll(Apply(A, events[0], local, k), events[1..], local, k)
  }

  lemma {:induction false} ApplyOne(A: set<Contact>, e: Event, local: Contact, k: nat)
    requires k > 0
    ensures ApplyAll(A, [e], local, k) == Apply(A, e, local, k)
  {
    assert [e][1..] == [];
  }

  lemma {:induction false} ApplyAllConcat(A: set<Contact>, a: seq<Event>, b: seq<Event>, local: Contact, k: nat)
    requires k > 0
    ensures ApplyAll(A, a + b, local, k) == ApplyAll(ApplyAll(A, a, local, k), b, local, k)
    decreases |a|
  {
    if a == [] {
      assert a + b == b;
    } else {
      ApplyAllConcat(Apply(A, a[0], local, k), a[1..], b, local, k);
      assert (a + b)[1..] == a[1..] + b;
    }
  }

  lemma {:induction false} ApplyAllSnoc(A: set<Contact>, events: seq<Event>, local: Contact, k: nat)
    requires k > 0 && events != []
    ensures ApplyAll(A, events, local, k) ==
            Apply(ApplyAll(A, events[..|events| - 1], local, k), events[|events| - 1], local, k)
    decreases |events|
  {
    if |events| > 1 {
      ApplyAllSnoc(Apply(A, events[0], local, k), events[1..], local, k);
      assert events[1..][..|events| - 2] == events[..|events| - 1][1..];
    } else {
      assert events[..0] == [] && events[1..] == [];
    }
  }

  lemma {:induction false} ReferenceAppliesAll(local: Contact, k: nat, events: seq<Event>)
    requires k > 0
    ensures RunReference(local, k, events) == ApplyAll({local}, events, local, k)
    decreases |events|
  {
    if events != [] {
      ReferenceAppliesAll(local, k, events[..|events| - 1]);
      ApplyAllSnoc({local}, events, local, k);
    }
  }

  // ---------------------------------------------------------------- one insertion

  /**
    A pending insertion does what an offer made now would do. Into a live bucket: unless
    `Update` would now split it, and the node is neither in it nor without a place in any
    case. Into a bucket split away: only if the offer would change nothing.
   */
  predicate Effective(w: World, n: nat)
    requires Linked(w) && n in w.pending && w.k > 0
  {
    var p := w.pending[n];
    if p.bucket in w.live then
      Decide(View(w), p.c).Split? ==> HarmlessWhenFull(w.heap[p.bucket].peers, p.c, w.local, w.k)
    else
      p.c in Stored(View(w)) || Outranked(Stored(View(w)), p.c, w.local, w.k)
  }

  lemma {:induction false} LiveIsSlot(w: World, n: nat, i: nat)
    requires WorldInv(w) && n in w.pending && i < |w.live| && w.live[i] == w.pending[n].bucket
    ensures Slot(View(w), w.pending[n].c.id) == i
    ensures Decide(View(w), w.pending[n].c).Split? || Decide(View(w), w.pending[n].c) == Insert(i)
  {
    var c := w.pending[n].c;
    assert w.ranges[w.live[i]] == RangeOf(i, |w.live|);
    assert Fits(RangeOf(i, |w.live|), w.local, c.id);
    NoneCloserThanSelf(w.local, c.id);
    SplitIsPossible(w, c);
  }

  lemma {:induction false} LiveEffective(w: World, n: nat, i: nat)
    requires WorldInv(w) && n in w.pending && i < |w.live| && w.live[i] == w.pending[n].bucket
    ensures (Stored(View(Next(w, Deliver(n)))) == Offer(Stored(View(w)), w.pending[n].c, w.local, w.k)) <==> Effective(w, n)
  {
    ViewInv(w);
    LiveIsSlot(w, n, i);
    DeliverLive(w, n, i);
    if Decide(View(w), w.pending[n].c).Split? {
      InsertForSplit(View(w), w.pending[n].c);
    } else {
      InsertRefines(View(w), w.pending[n].c);
    }
  }

  lemma {:induction false} StaleEffective(w: World, n: nat)
    requires WorldInv(w) && n in w.pending && w.pending[n].bucket !in w.live
    ensures (Stored(View(Next(w, Deliver(n)))) == Offer(Stored(View(w)), w.pending[n].c, w.local, w.k)) <==> Effective(w, n)
  {
    ViewInv(w);
    StaleInsertIsLost(w, n);
    OfferUnchanged(View(w), w.pending[n].c);
  }

  /** An insertion, early or late, does what an offer does exactly when it is effective. */
  lemma {:induction false} DeliverIsOffer(w: World, n: nat)
    requires WorldInv(w) && n in w.pending
    ensures (Stored(View(Next(w, Deliver(n)))) == Offer(Stored(View(w)), w.pending[n].c, w.local, w.k)) <==> Effective(w, n)
  {
    if w.pending[n].bucket in w.live {
      var i :| 0 <= i < |w.live| && w.live[i] == w.pending[n].bucket;
      LiveEffective(w, n, i);
    } else {
      StaleEffective(w, n);
    }
  }

  predicate EffectiveStep(w: World, s: Step)
    requires Linked(w) && w.k > 0
  {
    s.Deliver? && s.thread in w.pending ==> Effective(w, s.thread)
  }

  lemma {:induction false} LockKeepsStored(w: World, n: nat, c: Contact)
    requires WorldInv(w)
    ensures Stored(View(Next(w, Lock(n, c)))) == Stored(View(w))
  {
    ViewInv(w);
    if n !in w.pending {
      LockInv(w, n, c);
      if Decide(View(w), c).Split? {
        SplitUndisturbed(w, n, c);
        SplitWorldInv(w);
        GrownInv(View(w));
      } else {
        assert View(Next(w, Lock(n, c))) == View(w);
      }
    }
  }

  lemma {:induction false} DropForgets(w: World, id: NodeID)
    requires WorldInv(w) && id != w.local.id
    ensures Stored(View(Next(w, Drop(id)))) == Forget(Stored(View(w)), id)
  {
    ViewInv(w);
    RemoveRefines(View(w), id);
    assert View(Next(w, Drop(id))).buckets == Remove(View(w), id).buckets;
  }

  /** One step does to the contents what its effect does, exactly when it is effective. */
  lemma {:induction false} StepIsEffect(w: World, s: Step)
    requires WorldInv(w) && s != Drop(w.local.id)
    ensures (Stored(View(Next(w, s))) == ApplyAll(Stored(View(w)), Effect(w, s), w.local, w.k)) <==> EffectiveStep(w, s)
  {
    var A := Stored(View(w));
    match s {
      case Lock(n, c) =>
        LockKeepsStored(w, n, c);
      case Deliver(n) =>
        if n in w.pending {
          ApplyOne(A, Offered(w.pending[n].c), w.local, w.k);
          DeliverIsOffer(w, n);
        }
      case Drop(id) =>
        ApplyOne(A, Removed(id), w.local, w.k);
        DropForgets(w, id);
    }
  }

  // ---------------------------------------------------------------- whole runs

  predicate AllEffective(w: World, steps: seq<Step>)
    requires Linked(w) && w.k > 0
    decreases |steps|
  {
    steps != [] ==> EffectiveStep(w, steps[0]) && AllEffective(Next(w, steps[0]), steps[1..])
  }

  /** After m steps the contents are what the effects of those steps, one after another, would leave. */
  predicate SequentialAfter(w: World, steps: seq<Step>, m: nat)
    requires Linked(w) && w.k > 0 && m <= |steps|
  {
    Stored(View(Interleave(w, steps[..m]))) == ApplyAll(Stored(View(w)), Effects(w, steps[..m]), w.local, w.k)
  }

  predicate SequentialThroughout(w: World, steps: seq<Step>)
    requires Linked(w) && w.k > 0
  {
    forall m :: 0 <= m <= |steps| ==> SequentialAfter(w, steps, m)
  }

  /** A run seen from after its first step. */
  lemma {:induction false} AfterFirst(w: World, steps: seq<Step>, m: nat)
    requires Linked(w) && w.k > 0 && m < |steps|
    requires Stored(View(Next(w, steps[0]))) == ApplyAll(Stored(View(w)), Effect(w, steps[0]), w.local, w.k)
    ensures SequentialAfter(w, steps, m + 1) <==> SequentialAfter(Next(w, steps[0]), steps[1..], m)
  {
    var w' := Next(w, steps[0]);
    assert steps[..m + 1][1..] == steps[1..][..m];
    ApplyAllConcat(Stored(View(w)), Effect(w, steps[0]), Effects(w', steps[1..][..m]), w.local, w.k);
  }

  lemma {:induction false} AfterNone(w: World, steps: seq<Step>)
    requires Linked(w) && w.k > 0
    ensures SequentialAfter(w, steps, 0)
  {
    assert steps[..0] == [];
  }

  lemma {:induction false} AfterOne(w: World, steps: seq<Step>)
    requires Linked(w) && w.k > 0 && steps != []
    ensures SequentialAfter(w, steps, 1) <==>
      (Stored(View(Next(w, steps[0]))) == ApplyAll(Stored(View(w)), Effect(w, steps[0]), w.local, w.k))
  {
    var w' := Next(w, steps[0]);
    assert steps[..1][0] == steps[0] && steps[..1][1..] == [];
    assert Effects(w, steps[..1]) == Effect(w, steps[0]) + Effects(w', []);
    assert Effect(w, steps[0]) + [] == Effect(w, steps[0]);
    assert Interleave(w, steps[..1]) == Interleave(w', []) == w';
  }

  /** At every moment of a run the contents are sequential exactly when every insertion is effective. */
  lemma {:induction false} EffectiveRuns(w: World, steps: seq<Step>)
    requires WorldInv(w) && DropsOthers(w.local, steps)
    ensures SequentialThroughout(w, steps) <==> AllEffective(w, steps)
    decreases |steps|
  {
    AfterNone(w, steps);
    if steps != [] {
      var s, rest, w' := steps[0], steps[1..], Next(w, steps[0]);
      assert s != Drop(w.local.id);
      NextInv(w, s);
      StepIsEffect(w, s);
      AfterOne(w, steps);
      if EffectiveStep(w, s) {
        assert forall i :: 0 <= i < |rest| ==> rest[i] == steps[i + 1];
        EffectiveRuns(w', rest);
        RestOfRun(w, steps);
      }
    }
  }

  lemma {:induction false} RestOfRun(w: World, steps: seq<Step>)
    requires Linked(w) && w.k > 0 && steps != []
    requires Stored(View(Next(w, steps[0]))) == ApplyAll(Stored(View(w)), Effect(w, steps[0]), w.local, w.k)
    ensures SequentialThroughout(w, steps) <==> SequentialThroughout(Next(w, steps[0]), steps[1..])
  {
    AfterNone(w, steps);
    forall m | 0 <= m < |steps|
      ensures SequentialAfter(w, steps, m + 1) <==> SequentialAfter(Next(w, steps[0]), steps[1..], m)
    {
      AfterFirst(w, steps, m);
    }
    if SequentialThroughout(Next(w, steps[0]), steps[1..]) {
      forall m | 0 <= m <= |steps|
        ensures SequentialAfter(w, steps, m)
      {
        if m > 0 {
          assert SequentialAfter(Next(w, steps[0]), steps[1..], m - 1);
        }
      }
    }
    if SequentialThroughout(w, steps) {
      forall m | 0 <= m <= |steps[1..]|
        ensures SequentialAfter(Next(w, steps[0]), steps[1..], m)
      {
        assert SequentialAfter(w, steps, m + 1);
      }
    }
  }

  lemma {:induction false} EffectsKeepLocal(w: World, steps: seq<Step>)
    requires WorldInv(w) && DropsOthers(w.local, steps)
    ensures KeepsLocal(w.local, Effects(w, steps))
    decreases |steps|
  {
    if steps != [] {
      assert steps[0] != Drop(w.local.id);
      NextInv(w, steps[0]);
      assert forall i :: 0 <= i < |steps[1..]| ==> steps[1..][i] == steps[i + 1];
      EffectsKeepLocal(Next(w, steps[0]), steps[1..]);
    }
  }

  /** The table stores what the sequential calls would have stored, made in the order of their effects. */
  predicate LinearizedAfter(local: Contact, k: nat, steps: seq<Step>, m: nat)
    requires m <= |steps|
  {
    Stored(View(Interleave(Start(local, k), steps[..m]))) ==
    Stored(Run(local, k, Effects(Start(local, k), steps[..m])))
  }

  lemma {:induction false} LinearizedIsSequential(local: Contact, k: nat, steps: seq<Step>, m: nat)
    requires k > 0 && DropsOthers(local, steps) && m <= |steps|
    ensures LinearizedAfter(local, k, steps, m) <==> SequentialAfter(Start(local, k), steps, m)
  {
    var w := Start(local, k);
    StartInv(local, k);
    NewInv(local, k);
    assert DropsOthers(local, steps[..m]);
    EffectsKeepLocal(w, steps[..m]);
    ReferenceAppliesAll(local, k, Effects(w, steps[..m]));
    RunRefinesReference(local, k, Effects(w, steps[..m]));
  }

  /**
    Overlapping calls leave at every moment what calls made one after another would have
    left, in the order in which they insert and remove, exactly when every insertion is
    effective.
   */
  lemma {:induction false} RunsLinearize(local: Contact, k: nat, steps: seq<Step>)
    requires k > 0 && DropsOthers(local, steps)
    ensures (forall m :: 0 <= m <= |steps| ==> LinearizedAfter(local, k, steps, m))
      <==> AllEffective(Start(local, k), steps)
  {
    StartInv(local, k);
    EffectiveRuns(Start(local, k), steps);
    forall m | 0 <= m <= |steps|
      ensures LinearizedAfter(local, k, steps, m) <==> SequentialAfter(Start(local, k), steps, m)
    {
      LinearizedIsSequential(local, k, steps, m);
    }
  }

  lemma {:induction false} AllEffectiveStep(w: World, s: Step, rest: seq<Step>)
    requires Linked(w) && w.k > 0
    ensures AllEffective(w, [s] + rest) <==> EffectiveStep(w, s) && AllEffective(Next(w, s), rest)
  {
    assert ([s] + rest)[1..] == rest;
  }

  /** Into a bucket split away, with no more than the local node and one other stored, nothing is effective. */
  lemma {:induction false} LateIsIneffective(local: Contact, x: Contact, y: Contact, w: World)
    requires TwoStrangers(local, x, y)
    requires WorldInv(w) && w.local == local && w.k == 2 && 1 in w.pending && w.pending[1].c == x
    requires w.pending[1].bucket !in w.live && Stored(View(w)) == {local, y}
    ensures !EffectiveStep(w, Deliver(1))
  {
    var A, i := Stored(View(w)), Depth(local, x.id);
    var C := Ids(Cell(A, local, i));
    NoneCloserThanSelf(local, local.id);
    NoneCloserThanSelf(local, x.id);
    var one: set<NodeID> := if i == 0 then {y.id} else {};
    SubsetSize(Closer(C, x.id, local.id), one);
  }

  lemma {:induction false} UnrollEffective(w: World, x: Contact, y: Contact)
    requires Linked(w) && w.k > 0 && AllEffective(w, LosingSchedule(x, y))
    ensures EffectiveStep(Next(Next(Next(Next(w, Lock(1, x)), Lock(2, y)), Deliver(2)), Lock(3, y)), Deliver(1))
  {
    AllEffectiveStep(w, Lock(1, x), [Lock(2, y), Deliver(2), Lock(3, y), Deliver(1), Lock(3, y), Deliver(3)]);
    var w1 := Next(w, Lock(1, x));
    AllEffectiveStep(w1, Lock(2, y), [Deliver(2), Lock(3, y), Deliver(1), Lock(3, y), Deliver(3)]);
    var w2 := Next(w1, Lock(2, y));
    AllEffectiveStep(w2, Deliver(2), [Lock(3, y), Deliver(1), Lock(3, y), Deliver(3)]);
    var w3 := Next(w2, Deliver(2));
    AllEffectiveStep(w3, Lock(3, y), [Deliver(1), Lock(3, y), Deliver(3)]);
    AllEffectiveStep(Next(w3, Lock(3, y)), Deliver(1), [Lock(3, y), Deliver(3)]);
  }

  /** The schedule that loses a contact fails the condition, at the insertion that comes late. */
  lemma {:induction false} LosingScheduleIsLate(local: Contact, x: Contact, y: Contact)
    requires TwoStrangers(local, x, y)
    ensures !AllEffective(Start(local, 2), LosingSchedule(x, y))
  {
    ChoosingTogether(local, x, y);
    FillsUp(local, x, y);
    var w := Next(BothChosen(local, x, y), Deliver(2));
    SplitUndisturbed(w, 3, y);
    SplitKeepsPending(w);
    LateIsIneffective(local, x, y, SplitWorld(w));
    if AllEffective(Start(local, 2), LosingSchedule(x, y)) {
      UnrollEffective(Start(local, 2), x, y);
      assert false;
    }
  }

  // ---------------------------------------------------------------- another order

  /** The losing schedule, with x removed while it is still being offered. */
  function RemovingSchedule(x: Contact, y: Contact): (steps: seq<Step>) {
    [Lock(1, x), Drop(x.id)] + LosingSchedule(x, y)[1..]
  }

  lemma {:induction false} StoredAt(t: Table, i: nat, c: Contact)
    requires i < |t.buckets| && c in t.buckets[i].peers
    ensures c.id in Ids(Stored(t))
  {
    assert c in Stored(t);
  }

  lemma {:induction false} DropOfStranger(w: World, id: NodeID)
    requires WorldInv(w) && id != w.local.id && id !in Ids(Stored(View(w)))
    ensures Next(w, Drop(id)) == w
  {
    var i := RemoveSlot(View(w), id);
    var b := View(w).buckets[i];
    forall h | 0 <= h < |b.peers|
      ensures b.peers[h].id != id
    {
      assert b.peers[h] in View(w).buckets[i].peers;
      StoredAt(View(w), i, b.peers[h]);
    }
    assert w.heap[w.live[i] := w.heap[w.live[i]]] == w.heap;
  }

  lemma {:induction false} OfferFirst(local: Contact, c: Contact)
    requires c.id != local.id
    ensures Offer({local}, c, local, 2) == {local, c}
  {
    var i := Depth(local, c.id);
    NoneCloserThanSelf(local, c.id);
    assert Replace({local}, c) == {local, c};
    assert Cell({local, c}, local, i) == {c};
    assert Ids({c}) == {c.id};
    FewAreAllClosest({c.id}, Capacity(i, 2), local.id);
  }

  lemma {:induction false} ComeAndGone(local: Contact, x: Contact, y: Contact)
    requires TwoStrangers(local, x, y)
    ensures Stored(Run(local, 2, [Offered(x), Removed(x.id), Offered(y), Offered(y)])) == {local, y}
  {
    var events := [Offered(x), Removed(x.id), Offered(y), Offered(y)];
    RunRefinesReference(local, 2, events);
    ReferenceAppliesAll(local, 2, events);
    OfferFirst(local, x);
    OfferFirst(local, y);
    OfferAgain(local, y);
    assert Forget({local, x}, x.id) == {local};
    assert events == [Offered(x)] + ([Removed(x.id)] + ([Offered(y)] + [Offered(y)]));
    ApplyAllConcat({local}, [Offered(x)], [Removed(x.id)] + ([Offered(y)] + [Offered(y)]), local, 2);
    ApplyAllConcat({local, x}, [Removed(x.id)], [Offered(y)] + [Offered(y)], local, 2);
    ApplyAllConcat({local}, [Offered(y)], [Offered(y)], local, 2);
    ApplyOne({local}, Offered(x), local, 2);
    ApplyOne({local, x}, Removed(x.id), local, 2);
    ApplyOne({local}, Offered(y), local, 2);
    ApplyOne({local, y}, Offered(y), local, 2);
  }

  /** A step that changes nothing can be left out. */
  lemma {:induction false} IdleStep(w: World, s: Step, idle: Step, rest: seq<Step>)
    requires Linked(w) && w.k > 0
    requires Next(Next(w, s), idle) == Next(w, s) && EffectiveStep(Next(w, s), idle)
    ensures Interleave(w, [s] + ([idle] + rest)) == Interleave(w, [s] + rest)
    ensures AllEffective(w, [s] + ([idle] + rest)) <==> AllEffective(w, [s] + rest)
  {
    FirstStep(w, s, rest);
    FirstStep(w, s, [idle] + rest);
    FirstStep(Next(w, s), idle, rest);
    AllEffectiveStep(w, s, rest);
    AllEffectiveStep(w, s, [idle] + rest);
    AllEffectiveStep(Next(w, s), idle, rest);
  }

  lemma {:induction false} RemovedTooEarly(local: Contact, x: Contact)
    requires x.id != local.id
    ensures
      var w := Next(Start(local, 2), Lock(1, x));
      Next(w, Drop(x.id)) == w
  {
    var w := Start(local, 2);
    StartInv(local, 2);
    NewInv(local, 2);
    NextInv(w, Lock(1, x));
    LockKeepsStored(w, 1, x);
    assert Ids({local}) == {local.id};
    DropOfStranger(Next(w, Lock(1, x)), x.id);
  }

  lemma {:induction false} RemovingIsLosing(local: Contact, x: Contact, y: Contact)
    requires TwoStrangers(local, x, y)
    ensures
      var w := Start(local, 2);
      && Interleave(w, RemovingSchedule(x, y)) == Interleave(w, LosingSchedule(x, y))
      && (AllEffective(w, RemovingSchedule(x, y)) <==> AllEffective(w, LosingSchedule(x, y)))
  {
    var rest := LosingSchedule(x, y)[1..];
    RemovedTooEarly(local, x);
    IdleStep(Start(local, 2), Lock(1, x), Drop(x.id), rest);
    assert LosingSchedule(x, y) == [Lock(1, x)] + rest;
    assert RemovingSchedule(x, y) == [Lock(1, x)] + ([Drop(x.id)] + rest);
  }

  /**
    The order of the effects is not the only legal one. Here the removal of x falls inside the
    call that offers it: in the order in which the calls insert and remove, x should be there
    at the end, and it is not; had x been offered first, removed, and then y offered twice,
    the end would be the same.
   */
  lemma {:induction false} AnotherOrderExplains(local: Contact, x: Contact, y: Contact)
    requires TwoStrangers(local, x, y)
    ensures !AllEffective(Start(local, 2), RemovingSchedule(x, y))
    ensures Stored(View(Interleave(Start(local, 2), RemovingSchedule(x, y)))) ==
            Stored(Run(local, 2, [Offered(x), Removed(x.id), Offered(y), Offered(y)]))
  {
    RemovingIsLosing(local, x, y);
    LosingScheduleIsLate(local, x, y);
    OverlappingUpdateLosesContact(local, x, y);
    ComeAndGone(local, x, y);
  }

  // ---------------------------------------------------------------- timely insertions

  /** An insertion is timely if its thread, asked again, would choose the same bucket. */
  predicate TimelyStep(w: World, s: Step)
    requires Linked(w)
  {
    s.Deliver? && s.thread in w.pending ==>
      var p := w.pending[s.thread];
      var d := Decide(View(w), p.c);
      d.Insert? && w.live[d.index] == p.bucket
  }

  predicate Timely(w: World, steps: seq<Step>)
    requires Linked(w)
    decreases |steps|
  {
    steps != [] ==> TimelyStep(w, steps[0]) && Timely(Next(w, steps[0]), steps[1..])
  }

  lemma {:induction false} TimelyIsEffective(w: World, steps: seq<Step>)
    requires WorldInv(w) && DropsOthers(w.local, steps) && Timely(w, steps)
    ensures AllEffective(w, steps)
    decreases |steps|
  {
    if steps != [] {
      assert steps[0] != Drop(w.local.id);
      NextInv(w, steps[0]);
      assert forall i :: 0 <= i < |steps[1..]| ==> steps[1..][i] == steps[i + 1];
      TimelyIsEffective(Next(w, steps[0]), steps[1..]);
    }
  }

  /** In particular if every insertion goes where its thread would still send it. */
  lemma {:induction false} TimelyRunsLinearize(local: Contact, k: nat, steps: seq<Step>)
    requires k > 0 && DropsOthers(local, steps) && Timely(Start(local, k), steps)
    ensures
      Stored(View(Interleave(Start(local, k), steps))) ==
      Stored(Run(local, k, Effects(Start(local, k), steps)))
  {
    StartInv(local, k);
    TimelyIsEffective(Start(local, k), steps);
    RunsLinearize(local, k, steps);
    assert LinearizedAfter(local, k, steps, |steps|);
    assert steps[..|steps|] == steps;
  }
}
