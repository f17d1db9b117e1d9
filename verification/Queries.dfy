/**
  `ClosestK` (network/routing/routing_table.go): gather every stored contact but the local
  one, sort globally by distance to the target, cut at k.
 */
module Queries {
  import opened NodeIds
  import opened KClosest
  import opened Contacts
  import opened Tables
  import opened Reference
  import opened Histories

  function Flatten(bs: seq<Bucket>): seq<Contact> {
    if bs == [] then [] else bs[0].peers + Flatten(bs[1..])
  }

  /** The contacts of a list, skipping the local node and identifiers already seen. */
  function Gather(s: seq<Contact>, local: NodeID, seen: set<NodeID>): seq<Contact> {
    if s == [] then []
    else if s[0].id == local || s[0].id in seen then Gather(s[1..], local, seen)
    else [s[0]] + Gather(s[1..], local, seen + {s[0].id})
  }

  /** The other nodes in some buckets, nearest to the target first. */
  function Nearest(bs: seq<Bucket>, local: Contact, target: NodeID): seq<Contact> {
    Sorted(Gather(Flatten(bs), local.id, {}), target)
  }

  function ClosestK(t: Table, target: NodeID): seq<Contact> {
    Truncate(Nearest(t.buckets, t.local, target), t.k)
  }

  /** Every stored contact but the local one. */
  function Others(t: Table): set<Contact> {
    set c | c in Stored(t) && c.id != t.local.id
  }

  // ---------------------------------------------------------------- what is gathered

  /** Those of them in some of the slots. */
  function OthersIn(t: Table, lo: nat, hi: nat): set<Contact>
    requires t.buckets != []
  {
    set c | c in Others(t) && lo <= Slot(t, c.id) < hi
  }

  lemma {:induction false} GatherDistinct(s: seq<Contact>, local: NodeID, seen: set<NodeID>)
    ensures forall c :: c in Gather(s, local, seen) ==> c in s && c.id != local && c.id !in seen
    ensures forall i, j :: 0 <= i < j < |Gather(s, local, seen)| ==> Gather(s, local, seen)[i].id != Gather(s, local, seen)[j].id
  {
    if s != [] {
      assert s == [s[0]] + s[1..];
      if s[0].id == local || s[0].id in seen {
        GatherDistinct(s[1..], local, seen);
      } else {
        GatherDistinct(s[1..], local, seen + {s[0].id});
        var r := Gather(s[1..], local, seen + {s[0].id});
        assert forall j :: 0 <= j < |r| ==> r[j] in r;
      }
    }
  }

  lemma {:induction false} GatherMembers(s: seq<Contact>, local: NodeID, seen: set<NodeID>)
    requires UniqueIds(Elems(s))
    ensures forall c :: c in s && c.id != local && c.id !in seen ==> c in Gather(s, local, seen)
  {
    if s != [] {
      assert s == [s[0]] + s[1..];
      assert forall c :: c in s[1..] ==> c in Elems(s);
      assert s[0] in Elems(s);
      if s[0].id == local || s[0].id in seen {
        GatherMembers(s[1..], local, seen);
      } else {
        GatherMembers(s[1..], local, seen + {s[0].id});
      }
    }
  }

  lemma {:induction false} FlattenMembers(bs: seq<Bucket>, c: Contact)
    ensures c in Flatten(bs) <==> exists i :: 0 <= i < |bs| && c in bs[i].peers
  {
    if bs != [] {
      FlattenMembers(bs[1..], c);
    }
  }

  lemma {:induction false} FlattenSlots(t: Table, lo: nat, hi: nat, c: Contact)
    requires TableInv(t) && lo <= hi <= |t.buckets|
    ensures c in Flatten(t.buckets[lo..hi]) <==> c in Stored(t) && lo <= Slot(t, c.id) < hi
  {
    FlattenMembers(t.buckets[lo..hi], c);
    InRange(t.buckets, lo, hi, c);
    if i :| lo <= i < hi && c in t.buckets[i].peers {
      StoredAt(t, i, c);
    }
    if c in Stored(t) {
      var i := SlotOfStored(t, c);
    }
  }

  lemma {:induction false} InRange(bs: seq<Bucket>, lo: nat, hi: nat, c: Contact)
    requires lo <= hi <= |bs|
    ensures (exists i :: 0 <= i < |bs[lo..hi]| && c in bs[lo..hi][i].peers) <==> exists i :: lo <= i < hi && c in bs[i].peers
  {
    if i :| 0 <= i < |bs[lo..hi]| && c in bs[lo..hi][i].peers {
      assert c in bs[lo + i].peers;
    }
    if i :| lo <= i < hi && c in bs[i].peers {
      assert c in bs[lo..hi][i - lo].peers;
    }
  }

  lemma {:induction false} StoredAt(t: Table, i: nat, c: Contact)
    requires TableInv(t) && i < |t.buckets| && c in t.buckets[i].peers
    ensures c in Stored(t) && Slot(t, c.id) == i
  {
    StoredInSlot(t, i, c);
  }

  lemma {:induction false} SlotOfStored(t: Table, c: Contact) returns (i: nat)
    requires TableInv(t) && c in Stored(t)
    ensures i < |t.buckets| && i == Slot(t, c.id) && c in t.buckets[i].peers
  {
    i :| 0 <= i < |t.buckets| && c in t.buckets[i].peers;
    StoredInSlot(t, i, c);
  }

  lemma {:induction false} GatherSpec(s: seq<Contact>, local: NodeID)
    requires UniqueIds(Elems(s))
    ensures Elems(Gather(s, local, {})) == set c | c in s && c.id != local
  {
    GatherDistinct(s, local, {});
    GatherMembers(s, local, {});
  }

  /** Sorting what buckets lo..hi hold lists their other nodes, without ties. */
  lemma {:induction false} NearestSpec(t: Table, lo: nat, hi: nat, target: NodeID)
    requires TableInv(t) && lo <= hi <= |t.buckets|
    ensures StrictlyOrdered(Nearest(t.buckets[lo..hi], t.local, target), target)
    ensures Elems(Nearest(t.buckets[lo..hi], t.local, target)) == OthersIn(t, lo, hi)
  {
    var f := Flatten(t.buckets[lo..hi]);
    forall c
      ensures c in f <==> c in Stored(t) && lo <= Slot(t, c.id) < hi
    {
      FlattenSlots(t, lo, hi, c);
    }
    StoredUnique(t);
    GatherSpec(f, t.local.id);
    GatherDistinct(f, t.local.id, {});
    SortedStrict(Gather(f, t.local.id, {}), target);
  }

  /** A query returns, in order, the k closest of the stored others, or all of them if fewer. */
  lemma {:induction false} ClosestKSpec(t: Table, target: NodeID)
    requires TableInv(t)
    ensures StrictlyOrdered(ClosestK(t, target), target)
    ensures Elems(ClosestK(t, target)) == Kept(Others(t), t.k, target)
    ensures |ClosestK(t, target)| == if |Ids(Others(t))| <= t.k then |Ids(Others(t))| else t.k
  {
    assert t.buckets[0..|t.buckets|] == t.buckets;
    NearestSpec(t, 0, |t.buckets|, target);
    var s := Nearest(t.buckets, t.local, target);
    assert Elems(s) == Others(t);
    TruncateKeepsClosest(s, t.k, target);
    StrictIdCount(s, target);
  }

  // ---------------------------------------------------------------- the bucket walk

  function ShallowWalk(t: Table, i: nat, target: NodeID): seq<Contact>
    requires i <= |t.buckets|
  {
    if i == 0 then []
    else Nearest(t.buckets[i - 1..i], t.local, target) + ShallowWalk(t, i - 1, target)
  }

  function DeepWalk(t: Table, i: nat, target: NodeID): seq<Contact>
    requires i < |t.buckets|
  {
    Nearest(t.buckets[i..i + 1], t.local, target) + Nearest(t.buckets[i + 1..], t.local, target)
  }

  /** The target's own bucket, then everything deeper, then the shallower buckets one by one. */
  function Walk(t: Table, target: NodeID): seq<Contact>
    requires t.buckets != []
  {
    var i := Slot(t, target);
    DeepWalk(t, i, target) + ShallowWalk(t, i, target)
  }

  /** How much of the target's prefix a stored node shares, by where it is stored. */
  lemma {:induction false} SharedWithTarget(t: Table, target: NodeID, c: Contact)
    requires TableInv(t) && c in Others(t)
    ensures
      var i, s, p := Slot(t, target), Slot(t, c.id), PrefixLength(target, c.id);
      && (s < i ==> p == s)
      && (s > i ==> p == i)
      && (s == i ==> p >= i)
      && (s == i < |t.buckets| - 1 ==> p > i)
  {
    PrefixUltrametric(t.local.id, target, c.id);
    NoneCloserThanSelf(t.local, c.id);
  }

  lemma {:induction false} NearerSlot(t: Table, target: NodeID, x: Contact, y: Contact)
    requires TableInv(t) && x in Others(t) && y in Others(t)
    requires
      var i, a, b := Slot(t, target), Slot(t, x.id), Slot(t, y.id);
      (a == i && b > i) || (a >= i && b < i) || (b < a < i)
    ensures Distance(x.id, target) < Distance(y.id, target)
  {
    SharedWithTarget(t, target, x);
    SharedWithTarget(t, target, y);
    LongerPrefixIsCloser(target, x.id, y.id);
  }

  lemma {:induction false} ConcatStrict(a: seq<Contact>, b: seq<Contact>, t: NodeID)
    requires StrictlyOrdered(a, t) && StrictlyOrdered(b, t)
    requires forall x, y :: x in Elems(a) && y in Elems(b) ==> Distance(x.id, t) < Distance(y.id, t)
    ensures StrictlyOrdered(a + b, t)
    ensures Elems(a + b) == Elems(a) + Elems(b)
  {
    var c := a + b;
    forall i, j | 0 <= i < j < |c|
      ensures Distance(c[i].id, t) < Distance(c[j].id, t)
    {
      if i < |a| <= j {
        assert a[i] in Elems(a) && b[j - |a|] in Elems(b);
      }
    }
  }

  lemma {:induction false} ShallowWalkInOrder(t: Table, a: seq<Contact>, b: seq<Contact>, i: nat, target: NodeID)
    requires TableInv(t) && i < Slot(t, target)
    requires StrictlyOrdered(a, target) && Elems(a) == OthersIn(t, i, i + 1)
    requires StrictlyOrdered(b, target) && Elems(b) == OthersIn(t, 0, i)
    ensures StrictlyOrdered(a + b, target)
    ensures Elems(a + b) == OthersIn(t, 0, i + 1)
  {
    forall x, y | x in Elems(a) && y in Elems(b)
      ensures Distance(x.id, target) < Distance(y.id, target)
    {
      NearerSlot(t, target, x, y);
    }
    ConcatStrict(a, b, target);
  }

  lemma {:induction false} ShallowWalkSpec(t: Table, i: nat, target: NodeID)
    requires TableInv(t) && i <= Slot(t, target)
    ensures StrictlyOrdered(ShallowWalk(t, i, target), target)
    ensures Elems(ShallowWalk(t, i, target)) == OthersIn(t, 0, i)
  {
    if i > 0 {
      ShallowWalkSpec(t, i - 1, target);
      NearestSpec(t, i - 1, i, target);
      ShallowWalkInOrder(t, Nearest(t.buckets[i - 1..i], t.local, target), ShallowWalk(t, i - 1, target), i - 1, target);
    }
  }

  lemma {:induction false} DeepWalkInOrder(t: Table, a: seq<Contact>, b: seq<Contact>, i: nat, target: NodeID)
    requires TableInv(t) && i == Slot(t, target)
    requires StrictlyOrdered(a, target) && Elems(a) == OthersIn(t, i, i + 1)
    requires StrictlyOrdered(b, target) && Elems(b) == OthersIn(t, i + 1, |t.buckets|)
    ensures StrictlyOrdered(a + b, target)
    ensures Elems(a + b) == OthersIn(t, i, |t.buckets|)
  {
    forall x, y | x in Elems(a) && y in Elems(b)
      ensures Distance(x.id, target) < Distance(y.id, target)
    {
      NearerSlot(t, target, x, y);
    }
    ConcatStrict(a, b, target);
  }

  lemma {:induction false} DeepWalkSpec(t: Table, i: nat, target: NodeID)
    requires TableInv(t) && i == Slot(t, target)
    ensures StrictlyOrdered(DeepWalk(t, i, target), target)
    ensures Elems(DeepWalk(t, i, target)) == OthersIn(t, i, |t.buckets|)
  {
    var n := |t.buckets|;
    NearestSpec(t, i, i + 1, target);
    NearestSpec(t, i + 1, n, target);
    assert t.buckets[i + 1..n] == t.buckets[i + 1..];
    DeepWalkInOrder(t, Nearest(t.buckets[i..i + 1], t.local, target), Nearest(t.buckets[i + 1..], t.local, target), i, target);
  }

  lemma {:induction false} WalkInOrder(t: Table, a: seq<Contact>, b: seq<Contact>, i: nat, target: NodeID)
    requires TableInv(t) && i == Slot(t, target)
    requires StrictlyOrdered(a, target) && Elems(a) == OthersIn(t, i, |t.buckets|)
    requires StrictlyOrdered(b, target) && Elems(b) == OthersIn(t, 0, i)
    ensures StrictlyOrdered(a + b, target)
    ensures Elems(a + b) == Others(t)
  {
    forall x, y | x in Elems(a) && y in Elems(b)
      ensures Distance(x.id, target) < Distance(y.id, target)
    {
      NearerSlot(t, target, x, y);
    }
    ConcatStrict(a, b, target);
  }

  lemma {:induction false} WalkSpec(t: Table, target: NodeID)
    requires TableInv(t)
    ensures StrictlyOrdered(Walk(t, target), target)
    ensures Elems(Walk(t, target)) == Others(t)
  {
    var i := Slot(t, target);
    DeepWalkSpec(t, i, target);
    ShallowWalkSpec(t, i, target);
    WalkInOrder(t, DeepWalk(t, i, target), ShallowWalk(t, i, target), i, target);
  }

  /** For every target, the global sort of `ClosestK` is a walk over the buckets. */
  lemma {:induction false} ClosestKIsWalk(t: Table, target: NodeID)
    requires TableInv(t)
    ensures ClosestK(t, target) == Truncate(Walk(t, target), t.k)
  {
    assert t.buckets[0..|t.buckets|] == t.buckets;
    NearestSpec(t, 0, |t.buckets|, target);
    WalkSpec(t, target);
    SameElemsSameList(Nearest(t.buckets, t.local, target), Walk(t, target), target);
  }

  // ---------------------------------------------------------------- the whole table in order

  function DeepestFirst(bs: seq<Bucket>): seq<Contact> {
    if bs == [] then [] else bs[|bs| - 1].peers + DeepestFirst(bs[..|bs| - 1])
  }

  lemma {:induction false} DeepestFirstSpec(t: Table, n: nat)
    requires TableInv(t) && n <= |t.buckets|
    ensures StrictlyOrdered(DeepestFirst(t.buckets[..n]), t.local.id)
    ensures Elems(DeepestFirst(t.buckets[..n])) == set c | c in Stored(t) && Slot(t, c.id) < n
  {
    if n > 0 {
      DeepestFirstSpec(t, n - 1);
      BucketHoldsItsSlot(t, n - 1);
      assert t.buckets[..n][..n - 1] == t.buckets[..n - 1];
      var a, b := t.buckets[n - 1].peers, DeepestFirst(t.buckets[..n - 1]);
      forall x, y | x in Elems(a) && y in Elems(b)
        ensures Distance(x.id, t.local.id) < Distance(y.id, t.local.id)
      {
        LongerPrefixIsCloser(t.local.id, x.id, y.id);
      }
      ConcatStrict(a, b, t.local.id);
    }
  }

  /** Read deepest bucket first, the table is one list sorted by distance, the local node in front. */
  lemma {:induction false} TableIsSorted(t: Table)
    requires TableInv(t)
    ensures StrictlyOrdered(DeepestFirst(t.buckets), t.local.id)
    ensures Elems(DeepestFirst(t.buckets)) == Stored(t)
    ensures LeadsWith(DeepestFirst(t.buckets), t.local)
  {
    assert t.buckets[..|t.buckets|] == t.buckets;
    DeepestFirstSpec(t, |t.buckets|);
  }

  // ---------------------------------------------------------------- looking up the local node

  /** Every contact ever offered, but the local one, in its last record. */
  function Offered(local: Contact, offers: seq<Contact>): set<Contact> {
    set c | c in Known(local, offers) && c.id != local.id
  }

  lemma {:induction false} IdsWithoutLocal(A: set<Contact>, local: Contact)
    ensures Ids(set c | c in A && c.id != local.id) == Ids(A) - {local.id}
  {
    forall id | id in Ids(A) - {local.id}
      ensures id in Ids(set c | c in A && c.id != local.id)
    {
      var c :| c in A && c.id == id;
      assert c in set c | c in A && c.id != local.id;
    }
  }

  /** Whoever is among the k closest of all is among the k closest of its prefix length. */
  lemma {:induction false} ClosestSurviveTrimming(A: set<Contact>, local: Contact, k: nat, c: Contact)
    requires c in A && c.id != local.id
    requires c.id in Closest(Ids(A) - {local.id}, k, local.id)
    ensures c in KOfEach(A, local, k)
  {
    var i := Depth(local, c.id);
    NoneCloserThanSelf(local, c.id);
    NoneCloserThanSelf(local, local.id);
    var C := Ids(Cell(A, local, i));
    assert c in Cell(A, local, i);
    assert C <= Ids(A) - {local.id};
    ClosestRestricts(Ids(A) - {local.id}, C, k, local.id);
  }

  /** The sibling, once known, is nearest of all to the local node. */
  lemma {:induction false} SiblingIsNearest(A: set<Contact>, local: Contact, x: Contact)
    requires x in A && Depth(local, x.id) == KEY_BITS - 1
    ensures x.id in Closest(Ids(A) - {local.id}, 1, local.id)
  {
    NoneCloserThanSelf(local, local.id);
    assert x.id in Ids(A) - {local.id};
    forall id | id in Ids(A) - {local.id}
      ensures Distance(id, local.id) >= Distance(x.id, local.id)
    {
      NoneCloserThanSelf(local, id);
      if Depth(local, id) < KEY_BITS - 1 {
        LongerPrefixIsCloser(local.id, x.id, id);
      } else {
        DeepestSiblingUnique(local.id, x.id, id);
      }
    }
    assert Closer(Ids(A) - {local.id}, x.id, local.id) == {};
  }

  lemma {:induction false} StoredClosestAreClosest(local: Contact, k: nat, offers: seq<Contact>)
    requires k > 0
    requires k > 1 || !OffersSibling(local, offers)
    ensures Kept(Others(Run(local, k, Offers(offers))), k, local.id) == Kept(Offered(local, offers), k, local.id)
  {
    var t := Run(local, k, Offers(offers));
    StoredIsTrimmed(local, k, offers);
    StoredIsKOfEach(local, k, offers);
    var A := Known(local, offers);
    IdsWithoutLocal(A, local);
    IdsWithoutLocal(Stored(t), local);
    var S, T := Ids(A) - {local.id}, Ids(Stored(t)) - {local.id};
    forall c | c in A && c.id in Closest(S, k, local.id)
      ensures c in Stored(t)
    {
      ClosestSurviveTrimming(A, local, k, c);
    }
    forall id | id in Closest(S, k, local.id)
      ensures id in T
    {
      var c :| c in A && c.id == id;
      assert c in Stored(t);
    }
    Squeeze(S, T, k, local.id);
  }

  lemma {:induction false} SiblingIsDropped(local: Contact, offers: seq<Contact>)
    requires OffersSibling(local, offers)
    ensures Kept(Others(Run(local, 1, Offers(offers))), 1, local.id) != Kept(Offered(local, offers), 1, local.id)
  {
    StoredIsTrimmed(local, 1, offers);
    SiblingKnown(local, offers);
    var A := Known(local, offers);
    var x :| x in A && Depth(local, x.id) == KEY_BITS - 1;
    NoneCloserThanSelf(local, local.id);
    SiblingCell(A, local, x);
    ClosestCount({x.id}, 0, local.id);
    assert x !in Trimmed(A, local, 1);
    SiblingIsNearest(A, local, x);
    IdsWithoutLocal(A, local);
    assert x in Kept(Offered(local, offers), 1, local.id);
  }

  /**
    Eviction never hurts a self-lookup: the answer is, in order, the k closest to the local
    node of everything ever offered. The one exception is k = 1 with the sibling on offer.
   */
  lemma {:induction false} SelfLookupExact(local: Contact, k: nat, offers: seq<Contact>)
    requires k > 0
    ensures StrictlyOrdered(ClosestK(Run(local, k, Offers(offers)), local.id), local.id)
    ensures
      Elems(ClosestK(Run(local, k, Offers(offers)), local.id)) == Kept(Offered(local, offers), k, local.id)
      <==> k > 1 || !OffersSibling(local, offers)
  {
    StoredIsTrimmed(local, k, offers);
    ClosestKSpec(Run(local, k, Offers(offers)), local.id);
    if k > 1 || !OffersSibling(local, offers) {
      StoredClosestAreClosest(local, k, offers);
    } else {
      SiblingIsDropped(local, offers);
    }
  }

  /** With k = 1 the sibling, offered once, is lost to the table and to every self-lookup. */
  lemma {:induction false} SiblingIsLost(local: Contact, x: Contact)
    requires x.id == Sibling(local.id)
    ensures Stored(Run(local, 1, Offers([x]))) != KOfEach(Known(local, [x]), local, 1)
    ensures Elems(ClosestK(Run(local, 1, Offers([x])), local.id)) != Kept(Offered(local, [x]), 1, local.id)
  {
    SiblingPrefix(local.id);
    assert Depth(local, [x][0].id) == KEY_BITS - 1;
    StoredIsKOfEach(local, 1, [x]);
    SelfLookupExact(local, 1, [x]);
  }
}
