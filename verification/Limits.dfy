/** Where the table's promises stop: removing the local node, and counting buckets. */
module Limits {
  import opened NodeIds
  import opened KClosest
  import opened Contacts
  import opened Tables
  import opened Reference
  import opened Histories

  // ---------------------------------------------------------------- removing the local node

  predicate AllOrdered(t: Table) {
    forall i :: 0 <= i < |t.buckets| ==> StrictlyOrdered(t.buckets[i].peers, t.local.id)
  }

  /** A table whose deepest bucket has lost the local node. */
  predicate Headless(t: Table) {
    Shape(t) && AllOrdered(t) && !ContainsId(Deepest(t).peers, t.local.id)
  }

  lemma {:induction false} AbsentAfterWithout(s: seq<Contact>, id: NodeID, t: NodeID)
    requires StrictlyOrdered(s, t)
    ensures StrictlyOrdered(Without(s, id), t) && !ContainsId(Without(s, id), id)
  {
    WithoutSpec(s, id, t);
    var r := Without(s, id);
    assert forall i :: 0 <= i < |r| ==> r[i] in Elems(r);
  }

  lemma {:induction false} WithoutIntroducesNone(s: seq<Contact>, id: NodeID, x: NodeID, t: NodeID)
    requires StrictlyOrdered(s, t) && !ContainsId(s, x)
    ensures StrictlyOrdered(Without(s, id), t) && !ContainsId(Without(s, id), x)
  {
    WithoutSpec(s, id, t);
    var r := Without(s, id);
    forall i | 0 <= i < |r|
      ensures r[i] in s
    {
      assert r[i] in Elems(r);
    }
  }

  /** `Remove` really takes the local node out. */
  lemma {:induction false} RemoveLocalBeheads(t: Table)
    requires TableInv(t)
    ensures Shape(t) && Headless(Remove(t, t.local.id))
  {
    var i := |t.buckets| - 1;
    RemoveSlotOfLocal(t);
    assert BucketInv(t.buckets[i], RangeOf(i, |t.buckets|), t.local, t.k);
    AbsentAfterWithout(t.buckets[i].peers, t.local.id, t.local.id);
  }

  function After(t: Table, e: Event): Table
    requires Shape(t)
  {
    match e
    case Offered(c) => Update(t, c).0
    case Removed(id) => Remove(t, id)
  }

  /** From then on no offer splits a bucket: if the deepest one is full, the offer fails. */
  lemma {:induction false} HeadlessStep(t: Table, e: Event)
    requires Headless(t)
    ensures Headless(After(t, e)) && |After(t, e).buckets| == |t.buckets| && After(t, e).local == t.local
    ensures e.Offered? ==>
      (Update(t, e.c).1 == NoSplitError <==>
       e.c.id != t.local.id && Slot(t, e.c.id) == |t.buckets| - 1 && |t.buckets| < KEY_BITS && Deepest(t).isFull)
  {
    match e {
      case Removed(id) => HeadlessRemove(t, id);
      case Offered(c) => HeadlessOffer(t, c);
    }
  }

  lemma {:induction false} HeadlessRemove(t: Table, id: NodeID)
    requires Headless(t)
    ensures Headless(Remove(t, id))
  {
    var i := RemoveSlot(t, id);
    WithoutSpec(t.buckets[i].peers, id, t.local.id);
    if i == |t.buckets| - 1 {
      WithoutIntroducesNone(t.buckets[i].peers, id, t.local.id, t.local.id);
    }
  }

  lemma {:induction false} InsertIntroducesNone(s: seq<Contact>, c: Contact, k: nat, x: NodeID, t: NodeID)
    requires StrictlyOrdered(s, t) && !ContainsId(s, x) && c.id != x
    ensures StrictlyOrdered(Inserted(s, c, k, t), t) && !ContainsId(Inserted(s, c, k, t), x)
  {
    InsertedSpec(s, c, k, t);
    var r := Inserted(s, c, k, t);
    forall j | 0 <= j < |r|
      ensures r[j].id != x
    {
      assert r[j] in Elems(r);
    }
  }

  lemma {:induction false} HeadlessOffer(t: Table, c: Contact)
    requires Headless(t)
    ensures Headless(Update(t, c).0) && |Update(t, c).0.buckets| == |t.buckets|
    ensures Update(t, c).1 == NoSplitError <==>
      c.id != t.local.id && Slot(t, c.id) == |t.buckets| - 1 && |t.buckets| < KEY_BITS && Deepest(t).isFull
  {
    assert Deepest(t).depth == |t.buckets| - 1;
    HeadlessDecides(t, c);
    if c.id != t.local.id {
      HeadlessInsert(t, c);
    }
  }

  lemma {:induction false} HeadlessDecides(t: Table, c: Contact)
    requires Headless(t)
    ensures !Decide(t, c).Split?
    ensures Decide(t, c).CannotSplit? <==>
      c.id != t.local.id && Slot(t, c.id) == |t.buckets| - 1 && |t.buckets| < KEY_BITS && Deepest(t).isFull
  {
    assert Deepest(t).depth == |t.buckets| - 1;
  }

  lemma {:induction false} HeadlessInsert(t: Table, c: Contact)
    requires Headless(t) && c.id != t.local.id
    ensures Headless(Put(t, Slot(t, c.id), InsertInto(t.buckets[Slot(t, c.id)], c, t.local, t.k)))
  {
    var i := Slot(t, c.id);
    var s := t.buckets[i].peers;
    InsertedSpec(s, c, t.k, t.local.id);
    if i == |t.buckets| - 1 {
      InsertIntroducesNone(s, c, t.k, t.local.id, t.local.id);
    }
  }

  lemma {:induction false} RunSnoc(local: Contact, k: nat, events: seq<Event>, e: Event)
    ensures Run(local, k, events + [e]) == After(Run(local, k, events), e)
  {
    assert (events + [e])[..|events|] == events;
  }

  /**
    Once the local node has been removed, the table keeps its bucket count for good,
    whatever is offered or removed afterwards, the local node included.
   */
  lemma {:induction false} RemovingLocalFreezesTable(local: Contact, k: nat, before: seq<Event>, after: seq<Event>)
    requires k > 0 && KeepsLocal(local, before)
    ensures Headless(Run(local, k, before + [Removed(local.id)] + after))
    ensures |Run(local, k, before + [Removed(local.id)] + after).buckets| == |Run(local, k, before).buckets|
    decreases |after|
  {
    if after == [] {
      RunRefinesReference(local, k, before);
      RemoveLocalBeheads(Run(local, k, before));
      RunSnoc(local, k, before, Removed(local.id));
      assert before + [Removed(local.id)] + after == before + [Removed(local.id)];
    } else {
      var a, e := after[..|after| - 1], after[|after| - 1];
      RemovingLocalFreezesTable(local, k, before, a);
      var events := before + [Removed(local.id)] + a;
      HeadlessStep(Run(local, k, events), e);
      RunSnoc(local, k, events, e);
      assert before + [Removed(local.id)] + after == events + [e];
    }
  }

  /** With k = 1, two nodes offered after the local one is gone are enough for an `Update` to fail. */
  lemma {:induction false} OfferAfterRemovalFails(local: Contact, y: Contact, z: Contact)
    requires y.id != local.id && z.id != local.id
    ensures Update(Run(local, 1, [Removed(local.id), Offered(y)]), z).1 == NoSplitError
  {
    var t := Remove(New(local, 1), local.id);
    OnlyLocal(local);
    RemoveSlotOfLocal(New(local, 1));
    assert ContainsId([local], local.id) by { assert [local][0].id == local.id; }
    assert Without([local], local.id) == [];
    assert t == Table(local, 1, [Bucket(0, false, [])]);
    OnlyOne(local, y);
    assert Update(t, y).0 == Table(local, 1, [Bucket(0, true, [y])]);
    RunOfTwo(local, Removed(local.id), Offered(y));
    assert Decide(Update(t, y).0, z).CannotSplit?;
  }

  /** A lone contact inserted into an empty bucket with k = 1. */
  lemma {:induction false} OnlyOne(local: Contact, c: Contact)
    ensures Inserted([], c, 1, local.id) == [c]
  {
    assert Sorted([], local.id) == [] && [c][1..] == [];
    assert Sorted([c], local.id) == Place(c, [], local.id) == [c];
    assert Without([], c.id) + [c] == [c];
  }

  lemma {:induction false} OnlyLocal(local: Contact)
    ensures New(local, 1) == Table(local, 1, [Bucket(0, true, [local])])
  {
    OnlyOne(local, local);
  }

  lemma {:induction false} RunOfTwo(local: Contact, a: Event, b: Event)
    ensures Run(local, 1, [a, b]) == After(After(New(local, 1), a), b)
  {
    assert [a, b] == [] + [a] + [b];
    RunSnoc(local, 1, [], a);
    RunSnoc(local, 1, [] + [a], b);
  }

  // ---------------------------------------------------------------- what an offer changes

  lemma {:induction false} SlotCellBound(t: Table, i: nat)
    requires TableInv(t) && i < KEY_BITS
    ensures |Ids(Cell(Stored(t), t.local, i))| <= Capacity(i, t.k)
  {
    var n := |t.buckets|;
    var j := if i >= n then n - 1 else i;
    var s := t.buckets[j].peers;
    BucketHoldsItsSlot(t, j);
    IdCount(s);
    var C := Ids(Cell(Stored(t), t.local, i));
    forall id | id in C
      ensures id in Ids(Elems(s)) && id != t.local.id
    {
      var c :| c in Cell(Stored(t), t.local, i) && c.id == id;
      assert c in Elems(s);
      NoneCloserThanSelf(t.local, id);
    }
    SubsetSize(C, Ids(Elems(s)));
    if j == n - 1 {
      assert t.local in Elems(s) by { assert s[0] == t.local; }
      assert t.local.id in Ids(Elems(s));
      SubsetSize(C, Ids(Elems(s)) - {t.local.id});
    }
  }

  lemma {:induction false} ReofferKeepsStored(t: Table, c: Contact)
    requires TableInv(t) && c in Stored(t) && c.id != t.local.id
    ensures Offer(Stored(t), c, t.local, t.k) == Stored(t)
  {
    var A, i := Stored(t), Depth(t.local, c.id);
    NoneCloserThanSelf(t.local, c.id);
    StoredUnique(t);
    assert Replace(A, c) == A;
    SlotCellBound(t, i);
    var C := Cell(A, t.local, i);
    FewAreAllClosest(Ids(C), Capacity(i, t.k), t.local.id);
    forall x | x in A && Depth(t.local, x.id) == i
      ensures x.id in Ids(C)
    {
      assert x in C;
    }
  }

  /** The offered node is stored nowhere, and enough of its cell is closer to the local node. */
  predicate Outranked(A: set<Contact>, c: Contact, local: Contact, k: nat)
    requires k > 0
  {
    var i := Depth(local, c.id);
    c.id !in Ids(A) && |Closer(Ids(Cell(A, local, i)), c.id, local.id)| >= Capacity(i, k)
  }

  lemma {:induction false} FreshCell(A: set<Contact>, c: Contact, local: Contact)
    requires c.id !in Ids(A)
    ensures
      var i := Depth(local, c.id);
      var C := Ids(Cell(A, local, i));
      && Replace(A, c) == A + {c}
      && Ids(Cell(Replace(A, c), local, i)) == C + {c.id} && c.id !in C
      && Closer(C + {c.id}, c.id, local.id) == Closer(C, c.id, local.id)
  {
    var i := Depth(local, c.id);
    assert forall x :: x in A ==> x.id in Ids(A);
    assert Replace(A, c) == A + {c};
    assert Cell(A + {c}, local, i) == Cell(A, local, i) + {c};
  }

  /** Where enough members are closer, all of a cell that is not overfull outrank the newcomer. */
  lemma {:induction false} OutrankedCell(C: set<NodeID>, id: NodeID, cap: nat, t: NodeID)
    requires id !in C && |C| <= cap <= |Closer(C, id, t)|
    ensures Closest(C + {id}, cap, t) == C
  {
    var D := C + {id};
    AllCloser(C, id, t);
    assert Closer(D, id, t) == Closer(C, id, t);
    forall x | x in C
      ensures |Closer(D, x, t)| < cap
    {
      assert Closer(D, x, t) <= C - {x};
      SubsetSize(Closer(D, x, t), C - {x});
      SubsetSize(Closer(C, id, t), C);
    }
  }

  lemma {:induction false} OutrankedIsTurnedAway(t: Table, c: Contact)
    requires TableInv(t) && c.id != t.local.id && Outranked(Stored(t), c, t.local, t.k)
    ensures Offer(Stored(t), c, t.local, t.k) == Stored(t)
  {
    var A, i := Stored(t), Depth(t.local, c.id);
    var C := Ids(Cell(A, t.local, i));
    NoneCloserThanSelf(t.local, c.id);
    FreshCell(A, c, t.local);
    SlotCellBound(t, i);
    OutrankedCell(C, c.id, Capacity(i, t.k), t.local.id);
    forall x | x in A && Depth(t.local, x.id) == i
      ensures x.id in C
    {
      assert x in Cell(A, t.local, i);
    }
  }

  lemma {:induction false} OthersAreTakenIn(A: set<Contact>, c: Contact, local: Contact, k: nat)
    requires k > 0 && c.id != local.id && c.id !in Ids(A) && !Outranked(A, c, local, k)
    ensures c in Offer(A, c, local, k) && c !in A
  {
    var i := Depth(local, c.id);
    FreshCell(A, c, local);
    assert c.id in Closest(Ids(Cell(A, local, i)) + {c.id}, Capacity(i, k), local.id);
  }

  lemma {:induction false} AllCloser(C: set<NodeID>, x: NodeID, t: NodeID)
    requires |Closer(C, x, t)| >= |C|
    ensures forall y :: y in C ==> Distance(y, t) < Distance(x, t)
  {
    forall y | y in C
      ensures y in Closer(C, x, t)
    {
      if y !in Closer(C, x, t) {
        SubsetSize(Closer(C, x, t), C - {y});
      }
    }
  }

  /** Exactly when offering a contact makes no difference. */
  lemma {:induction false} OfferUnchanged(t: Table, c: Contact)
    requires TableInv(t) && c.id != t.local.id
    ensures Offer(Stored(t), c, t.local, t.k) == Stored(t)
      <==> c in Stored(t) || Outranked(Stored(t), c, t.local, t.k)
  {
    if c in Stored(t) {
      ReofferKeepsStored(t, c);
    } else if c.id in Ids(Stored(t)) {
      var x :| x in Stored(t) && x.id == c.id;
      assert x !in Offer(Stored(t), c, t.local, t.k);
    } else if Outranked(Stored(t), c, t.local, t.k) {
      OutrankedIsTurnedAway(t, c);
    } else {
      OthersAreTakenIn(Stored(t), c, t.local, t.k);
    }
  }

  // ---------------------------------------------------------------- counting buckets

  /**
    Offering a stored contact again changes nothing that is stored. Yet if its bucket is
    the deepest, full, and can be split, the call splits it: the bucket count, unlike the
    contents, depends on repeats.
   */
  lemma {:induction false} ReofferSplitsButStores(t: Table, c: Contact)
    requires TableInv(t) && c in Stored(t) && c.id != t.local.id
    ensures Shape(t) && Stored(Update(t, c).0) == Stored(t)
    ensures |Update(t, c).0.buckets| > |t.buckets|
      <==> Slot(t, c.id) == |t.buckets| - 1 && |t.buckets| < KEY_BITS && Deepest(t).isFull
  {
    UpdateRefines(t, c);
    ReofferKeepsStored(t, c);
    UpdateGrows(t, c);
    SplitCondition(t, c);
  }

  /** The nodes stored that share at least d leading bits with the local one, itself included. */
  function DeepIds(t: Table, d: nat): set<NodeID> {
    set x | x in Stored(t) && Depth(t.local, x.id) >= d :: x.id
  }

  lemma {:induction false} DeepestHolds(t: Table)
    requires TableInv(t)
    ensures |DeepIds(t, |t.buckets| - 1)| == |Deepest(t).peers|
    ensures Deepest(t).isFull <==> |Deepest(t).peers| >= t.k
  {
    var n := |t.buckets|;
    assert BucketInv(t.buckets[n - 1], RangeOf(n - 1, n), t.local, t.k);
    BucketHoldsItsSlot(t, n - 1);
    StrictIdCount(Deepest(t).peers, t.local.id);
    assert DeepIds(t, n - 1) == Ids(Elems(Deepest(t).peers)) by {
      forall id
        ensures id in DeepIds(t, n - 1) <==> id in Ids(Elems(Deepest(t).peers))
      {
        if id in DeepIds(t, n - 1) {
          var x :| x in Stored(t) && Depth(t.local, x.id) >= n - 1 && x.id == id;
          assert x in Elems(t.buckets[n - 1].peers);
        }
      }
    }
  }

  /** With m buckets, the deepest is where c belongs and holds k nodes. */
  predicate Crowded(t: Table, c: Contact, m: nat)
    requires m > 0
  {
    Depth(t.local, c.id) >= m - 1 && |DeepIds(t, m - 1)| >= t.k
  }

  lemma {:induction false} CrowdedSplits(t: Table, c: Contact)
    requires TableInv(t) && c.id != t.local.id
    ensures Decide(t, c).Split? <==> |t.buckets| < 160 && Crowded(t, c, |t.buckets|)
  {
    DeepestHolds(t);
    SplitCondition(t, c);
  }

  lemma {:induction false} GrownCrowds(t: Table, c: Contact, m: nat)
    requires TableInv(t) && |t.buckets| < 160 && m > 0
    ensures Crowded(Grown(t), c, m) <==> Crowded(t, c, m)
  {
    GrownInv(t);
    assert DeepIds(Grown(t), m - 1) == DeepIds(t, m - 1);
  }

  /** n is the least number of buckets, from the present one on, at which c is not crowded out or there are 160. */
  predicate LeastUncrowded(t: Table, c: Contact, n: nat) {
    && 0 < |t.buckets| <= n <= 160
    && (forall m :: |t.buckets| <= m < n ==> Crowded(t, c, m))
    && (n == 160 || !Crowded(t, c, n))
  }

  lemma {:induction false} LeastFromNext(t: Table, g: Table, c: Contact, n: nat)
    requires 0 < |t.buckets| < 160 && |g.buckets| == |t.buckets| + 1 && Crowded(t, c, |t.buckets|)
    requires forall m :: m > 0 ==> (Crowded(g, c, m) <==> Crowded(t, c, m))
    requires LeastUncrowded(g, c, n)
    ensures LeastUncrowded(t, c, n)
  {
    forall m | |t.buckets| <= m < n
      ensures Crowded(t, c, m)
    {
      if m > |t.buckets| {
        assert Crowded(g, c, m);
      }
    }
    assert n == 160 || !Crowded(t, c, n);
  }

  /**
    How many buckets an `Update` leaves: it goes on splitting exactly as long as the deepest
    bucket is where the node belongs, holds k nodes, and is not the 160th.
   */
  lemma {:induction false} BucketCount(t: Table, c: Contact)
    requires TableInv(t) && c.id != t.local.id
    ensures Shape(t) && LeastUncrowded(t, c, |Update(t, c).0.buckets|)
    decreases KEY_BITS - |t.buckets|
  {
    CrowdedSplits(t, c);
    UpdateGrows(t, c);
    if Decide(t, c).Split? {
      GrownInv(t);
      BucketCount(Grown(t), c);
      forall m | m > 0
        ensures Crowded(Grown(t), c, m) <==> Crowded(t, c, m)
      {
        GrownCrowds(t, c, m);
      }
      LeastFromNext(t, Grown(t), c, |Update(Grown(t), c).0.buckets|);
    }
  }

  lemma {:induction false} SplitCondition(t: Table, c: Contact)
    requires TableInv(t) && c.id != t.local.id
    ensures Decide(t, c).Split?
      <==> Slot(t, c.id) == |t.buckets| - 1 && |t.buckets| < KEY_BITS && Deepest(t).isFull
  {
    assert Deepest(t).depth == |t.buckets| - 1;
    assert Deepest(t).peers[0].id == t.local.id;
  }

  lemma {:induction false} UpdateGrows(t: Table, c: Contact)
    requires TableInv(t)
    ensures Shape(t) && |Update(t, c).0.buckets| >= |t.buckets|
    ensures |Update(t, c).0.buckets| > |t.buckets| <==> Decide(t, c).Split?
    ensures !Decide(t, c).CannotSplit?
    decreases KEY_BITS - |t.buckets|
  {
    UpdateInv(t, c);
    assert Deepest(t).depth == |t.buckets| - 1;
    assert Deepest(t).peers[0].id == t.local.id;
    if Decide(t, c).Split? {
      GrownInv(t);
      UpdateGrows(Grown(t), c);
    }
  }
}
