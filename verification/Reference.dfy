/**
  A table without splitting: one cell per prefix length, each trimmed to the contacts
  closest to the local node. The splitting table stores exactly what this one stores.
 */
module Reference {
  import opened NodeIds
  import opened KClosest
  import opened Contacts
  import opened Tables

  /**
    The room in a cell. The local node takes a place in the deepest bucket, which matters
    only at prefix length 159, where the bucket can no longer be split to make room.
   */
  function Capacity(i: nat, k: nat): nat
    requires k > 0
  {
    if i == KEY_BITS - 1 then k - 1 else k
  }

  function Cell(A: set<Contact>, local: Contact, i: nat): set<Contact> {
    set c | c in A && Depth(local, c.id) == i
  }

  /** Offering a contact replaces its record and trims its cell. */
  function Offer(A: set<Contact>, c: Contact, local: Contact, k: nat): set<Contact>
    requires k > 0
  {
    if c.id == local.id then A
    else
      var i := Depth(local, c.id);
      var A' := Replace(A, c);
      var keep := Closest(Ids(Cell(A', local, i)), Capacity(i, k), local.id);
      set x | x in A' && (Depth(local, x.id) == i ==> x.id in keep)
  }

  function Forget(A: set<Contact>, id: NodeID): set<Contact> {
    set x | x in A && x.id != id
  }

  // ---------------------------------------------------------------- what a bucket holds

  lemma {:induction false} BucketHoldsItsSlot(t: Table, i: nat)
    requires TableInv(t) && i < |t.buckets|
    ensures Elems(t.buckets[i].peers) == set c | c in Stored(t) && Slot(t, c.id) == i
  {
    forall c
      ensures c in t.buckets[i].peers <==> c in Stored(t) && Slot(t, c.id) == i
    {
      if c in t.buckets[i].peers {
        StoredInSlot(t, i, c);
      }
      if c in Stored(t) && Slot(t, c.id) == i {
        var j :| 0 <= j < |t.buckets| && c in t.buckets[j].peers;
        StoredInSlot(t, j, c);
      }
    }
  }

  lemma {:induction false} PutStored(t: Table, i: nat, b: Bucket)
    requires TableInv(t) && i < |t.buckets|
    ensures Stored(Put(t, i, b)) == (set c | c in Stored(t) && Slot(t, c.id) != i) + Elems(b.peers)
  {
    var r := Put(t, i, b);
    forall c
      ensures c in Stored(r) <==> (c in Stored(t) && Slot(t, c.id) != i) || c in b.peers
    {
      if c in Stored(r) {
        var j :| 0 <= j < |r.buckets| && c in r.buckets[j].peers;
        if j != i {
          assert c in t.buckets[j].peers;
          StoredInSlot(t, j, c);
        }
      }
      if c in Stored(t) && Slot(t, c.id) != i {
        var j :| 0 <= j < |t.buckets| && c in t.buckets[j].peers;
        StoredInSlot(t, j, c);
        assert c in r.buckets[j].peers;
      }
      if c in b.peers {
        assert c in r.buckets[i].peers;
      }
    }
  }

  /** The members of a slot that survive the trimming of the offered contact's cell. */
  function CellKept(R: set<Contact>, c: Contact, local: Contact, k: nat): set<Contact>
    requires k > 0
  {
    var i := Depth(local, c.id);
    var keep := Closest(Ids(Cell(R, local, i)), Capacity(i, k), local.id);
    set x | x in R && (Depth(local, x.id) == i ==> x.id in keep)
  }

  /** The contacts stored in other slots. */
  function ElsewhereStored(t: Table, id: NodeID): set<Contact>
    requires t.buckets != []
  {
    set x | x in Stored(t) && Slot(t, x.id) != Slot(t, id)
  }

  /** What the reference keeps, split at the offered contact's slot. */
  lemma {:induction false} OfferBySlot(t: Table, c: Contact, E: set<Contact>)
    requires TableInv(t) && c.id != t.local.id
    requires E == set x | x in Stored(t) && Slot(t, x.id) == Slot(t, c.id)
    ensures
      Offer(Stored(t), c, t.local, t.k) ==
      ElsewhereStored(t, c.id) + CellKept(Replace(E, c), c, t.local, t.k)
  {
    var i := Depth(t.local, c.id);
    var A := Stored(t);
    assert Cell(Replace(A, c), t.local, i) == Cell(Replace(E, c), t.local, i);
  }

  /** What a bucket insertion leaves, split likewise. */
  lemma {:induction false} InsertBySlot(t: Table, c: Contact, E: set<Contact>)
    requires TableInv(t) && E == set x | x in Stored(t) && Slot(t, x.id) == Slot(t, c.id)
    ensures
      var i := Slot(t, c.id);
      && E == Elems(t.buckets[i].peers)
      && Stored(Put(t, i, InsertInto(t.buckets[i], c, t.local, t.k))) ==
         ElsewhereStored(t, c.id) + Kept(Replace(E, c), t.k, t.local.id)
  {
    var i := Slot(t, c.id);
    BucketHoldsItsSlot(t, i);
    PutStored(t, i, InsertInto(t.buckets[i], c, t.local, t.k));
    InsertedSpec(t.buckets[i].peers, c, t.k, t.local.id);
  }

  // ---------------------------------------------------------------- one insertion

  /** A bucket of one prefix length trims exactly as its cell does. */
  lemma {:induction false} ShallowInsert(t: Table, c: Contact, E: set<Contact>)
    requires TableInv(t) && c.id != t.local.id && Depth(t.local, c.id) < |t.buckets| - 1
    requires E == set x | x in Stored(t) && Slot(t, x.id) == Slot(t, c.id)
    ensures Kept(Replace(E, c), t.k, t.local.id) == CellKept(Replace(E, c), c, t.local, t.k)
  {
    var i := Depth(t.local, c.id);
    assert Cell(Replace(E, c), t.local, i) == Replace(E, c);
  }

  lemma {:induction false} IdsOfReplace(s: seq<Contact>, c: Contact)
    ensures |Ids(Replace(Elems(s), c))| <= |s| + 1
  {
    IdCount(s);
    assert Ids(Replace(Elems(s), c)) <= Ids(Elems(s)) + {c.id};
    SubsetSize(Ids(Replace(Elems(s), c)), Ids(Elems(s)) + {c.id});
  }

  lemma {:induction false} IdCount(s: seq<Contact>)
    ensures |Ids(Elems(s))| <= |s|
  {
    if s == [] {
      assert Ids(Elems(s)) == {};
    } else {
      IdCount(s[1..]);
      assert Elems(s) == {s[0]} + Elems(s[1..]);
      assert Ids(Elems(s)) == {s[0].id} + Ids(Elems(s[1..]));
    }
  }

  /** The deepest bucket, when not full, keeps everything, and so does every cell inside it. */
  lemma {:induction false} RoomyInsert(s: seq<Contact>, c: Contact, local: Contact, k: nat)
    requires |s| < k && LeadsWith(s, local) && c.id != local.id
    ensures Kept(Replace(Elems(s), c), k, local.id) == Replace(Elems(s), c)
    ensures Ids(Cell(Replace(Elems(s), c), local, Depth(local, c.id))) ==
            Closest(Ids(Cell(Replace(Elems(s), c), local, Depth(local, c.id))), Capacity(Depth(local, c.id), k), local.id)
  {
    var R := Replace(Elems(s), c);
    var C := Cell(R, local, Depth(local, c.id));
    IdsOfReplace(s, c);
    FewAreAllClosest(Ids(R), k, local.id);
    NoneCloserThanSelf(local, c.id);
    assert local in R by { assert s[0] in Elems(s); }
    assert local.id in Ids(R);
    assert Ids(C) <= Ids(R) - {local.id};
    SubsetSize(Ids(C), Ids(R) - {local.id});
    FewAreAllClosest(Ids(C), Capacity(Depth(local, c.id), k), local.id);
  }

  /** At depth 159 only the local node and its one sibling can meet. */
  lemma {:induction false} DeepestPair(s: seq<Contact>, c: Contact, local: Contact)
    requires StrictlyOrdered(s, local.id) && LeadsWith(s, local)
    requires forall i :: 0 <= i < |s| ==> Depth(local, s[i].id) >= KEY_BITS - 1
    requires Depth(local, c.id) == KEY_BITS - 1
    ensures Replace(Elems(s), c) == {local, c}
  {
    NoneCloserThanSelf(local, c.id);
    assert local in Elems(s) by { assert s[0] in Elems(s); }
    forall x | x in Replace(Elems(s), c)
      ensures x in {local, c}
    {
      if x != c {
        var i :| 0 <= i < |s| && s[i] == x;
        NoneCloserThanSelf(local, x.id);
        if x.id == local.id {
          StrictUniqueIds(s, local.id);
        } else {
          DeepestSiblingUnique(local.id, x.id, c.id);
        }
      }
    }
  }

  /** There, with k = 1, the sibling is dropped; with more room both stay. */
  lemma {:induction false} PairInsert(c: Contact, local: Contact, k: nat)
    requires k > 0 && Depth(local, c.id) == KEY_BITS - 1
    ensures Kept({local, c}, k, local.id) == if k == 1 then {local} else {local, c}
    ensures Cell({local, c}, local, KEY_BITS - 1) == {c}
    ensures Closest({c.id}, k - 1, local.id) == if k == 1 then {} else {c.id}
  {
    NoneCloserThanSelf(local, c.id);
    var I := {local.id, c.id};
    assert Ids({local, c}) == I;
    assert Closer(I, local.id, local.id) == {};
    assert Closer(I, c.id, local.id) == {local.id};
    assert Closer({c.id}, c.id, local.id) == {};
    assert Closest(I, k, local.id) == if k == 1 then {local.id} else I;
  }

  lemma {:induction false} DeepInsert(t: Table, c: Contact, E: set<Contact>)
    requires TableInv(t) && c.id != t.local.id && Depth(t.local, c.id) >= |t.buckets| - 1
    requires Decide(t, c).Insert?
    requires E == Elems(Deepest(t).peers)
    ensures Kept(Replace(E, c), t.k, t.local.id) == CellKept(Replace(E, c), c, t.local, t.k)
  {
    var s, i := Deepest(t).peers, Depth(t.local, c.id);
    var R := Replace(E, c);
    var C := Cell(R, t.local, i);
    assert t.buckets[|t.buckets| - 1].depth == |t.buckets| - 1;
    if !Deepest(t).isFull {
      RoomyInsert(s, c, t.local, t.k);
      forall x | x in R && Depth(t.local, x.id) == i
        ensures x.id in Closest(Ids(C), Capacity(i, t.k), t.local.id)
      {
        assert x in C;
      }
    } else {
      NoneCloserThanSelf(t.local, c.id);
      DeepestPair(s, c, t.local);
      PairInsert(c, t.local, t.k);
      assert Ids({c}) == {c.id};
      NoneCloserThanSelf(t.local, t.local.id);
    }
  }

  /**
    The deepest bucket has room for everyone it is given, unless k is 1: an insert into it
    drops nobody exactly when k leaves a place beside the local node.
   */
  lemma {:induction false} DeepestNeverEvicts(t: Table, c: Contact)
    requires TableInv(t) && c.id != t.local.id
    requires Decide(t, c) == Insert(|t.buckets| - 1)
    ensures Elems(InsertInto(Deepest(t), c, t.local, t.k).peers) == Replace(Elems(Deepest(t).peers), c) <==> t.k > 1
  {
    var s := Deepest(t).peers;
    InsertedSpec(s, c, t.k, t.local.id);
    assert t.buckets[|t.buckets| - 1].depth == |t.buckets| - 1;
    if !Deepest(t).isFull {
      RoomyInsert(s, c, t.local, t.k);
    } else {
      NoneCloserThanSelf(t.local, c.id);
      DeepestPair(s, c, t.local);
      PairInsert(c, t.local, t.k);
    }
  }

  /** One call of `Update` stores what the reference stores, however often it splits on the way. */
  lemma {:induction false} UpdateRefines(t: Table, c: Contact)
    requires TableInv(t)
    ensures Shape(t) && Stored(Update(t, c).0) == Offer(Stored(t), c, t.local, t.k)
    decreases KEY_BITS - |t.buckets|
  {
    UpdateInv(t, c);
    match Decide(t, c) {
      case Ignore =>
      case CannotSplit => assert false;
      case Split =>
        assert t.buckets[|t.buckets| - 1].depth == |t.buckets| - 1;
        GrownInv(t);
        UpdateRefines(Grown(t), c);
      case Insert(i) =>
        InsertRefines(t, c);
    }
  }

  lemma {:induction false} InsertRefines(t: Table, c: Contact)
    requires TableInv(t) && Decide(t, c).Insert?
    ensures
      var i := Slot(t, c.id);
      Stored(Put(t, i, InsertInto(t.buckets[i], c, t.local, t.k))) == Offer(Stored(t), c, t.local, t.k)
  {
    var i := Slot(t, c.id);
    var E := set x | x in Stored(t) && Slot(t, x.id) == i;
    InsertBySlot(t, c, E);
    if i < |t.buckets| - 1 {
      ShallowInsert(t, c, E);
    } else {
      DeepInsert(t, c, E);
    }
    OfferBySlot(t, c, E);
  }

  // ---------------------------------------------------------------- an insertion that should have split

  /** A full bucket that takes in one more identifier drops one. */
  lemma {:induction false} FullBucketDrops(s: seq<Contact>, c: Contact, local: Contact)
    requires StrictlyOrdered(s, local.id) && c.id !in Ids(Elems(s))
    ensures Kept(Replace(Elems(s), c), |s|, local.id) != Replace(Elems(s), c)
    ensures |Ids(Replace(Elems(s), c))| == |s| + 1
  {
    var R := Replace(Elems(s), c);
    StrictIdCount(s, local.id);
    assert Ids(R) == Ids(Elems(s)) + {c.id} by {
      ElemsOfFresh(s, c);
    }
    ClosestCount(Ids(R), |s|, local.id);
    if Kept(R, |s|, local.id) == R {
      forall id | id in Ids(R)
        ensures id in Closest(Ids(R), |s|, local.id)
      {
        var x :| x in R && x.id == id;
        assert x in Kept(R, |s|, local.id);
      }
      SubsetSize(Ids(R), Closest(Ids(R), |s|, local.id));
    }
  }

  lemma {:induction false} ElemsOfFresh(s: seq<Contact>, c: Contact)
    requires c.id !in Ids(Elems(s))
    ensures Replace(Elems(s), c) == Elems(s) + {c}
    ensures Ids(Replace(Elems(s), c)) == Ids(Elems(s)) + {c.id}
  {
    assert forall x :: x in Elems(s) ==> x.id in Ids(Elems(s));
    assert Replace(Elems(s), c) == Elems(s) + {c};
  }

  /** A bucket with at most one member more than k, the local node among them, overfills no cell but the last. */
  lemma {:induction false} CellHasRoom(R: set<Contact>, c: Contact, local: Contact, k: nat)
    requires k > 0 && c in R && c.id != local.id && local in R
    requires |Ids(R)| <= k + 1
    requires Depth(local, c.id) == KEY_BITS - 1 ==> k > 1
    ensures CellKept(R, c, local, k) == R
  {
    var i := Depth(local, c.id);
    var C := Ids(Cell(R, local, i));
    NoneCloserThanSelf(local, c.id);
    if i == KEY_BITS - 1 {
      forall id | id in C
        ensures id in {c.id}
      {
        DeepestSiblingUnique(local.id, id, c.id);
      }
      SubsetSize(C, {c.id});
    } else {
      assert local.id in Ids(R);
      assert C <= Ids(R) - {local.id};
      SubsetSize(C, Ids(R) - {local.id});
    }
    FewAreAllClosest(C, Capacity(i, k), local.id);
    forall x | x in R && Depth(local, x.id) == i
      ensures x.id in C
    {
      assert x in Cell(R, local, i);
    }
  }

  /** Whether inserting into a full bucket, where `Update` would split it, still does what an offer does. */
  predicate HarmlessWhenFull(s: seq<Contact>, c: Contact, local: Contact, k: nat) {
    ContainsId(s, c.id) || (k == 1 && Depth(local, c.id) == KEY_BITS - 1)
  }

  lemma {:induction false} FullBucketReplaces(s: seq<Contact>, c: Contact, local: Contact, k: nat)
    requires StrictlyOrdered(s, local.id) && LeadsWith(s, local) && c.id != local.id
    requires |s| == k && c.id in Ids(Elems(s))
    ensures Kept(Replace(Elems(s), c), k, local.id) == Replace(Elems(s), c)
    ensures CellKept(Replace(Elems(s), c), c, local, k) == Replace(Elems(s), c)
  {
    var R := Replace(Elems(s), c);
    ElemsIds(s, c.id);
    assert local in Elems(s) by { assert s[0] in Elems(s); }
    StrictIdCount(s, local.id);
    assert Ids(R) <= Ids(Elems(s));
    SubsetSize(Ids(R), Ids(Elems(s)));
    FewAreAllClosest(Ids(R), k, local.id);
    CellHasRoom(R, c, local, k);
  }

  lemma {:induction false} OnlyLocalLeft(s: seq<Contact>, c: Contact, local: Contact)
    requires LeadsWith(s, local) && |s| == 1
    requires c.id != local.id && Depth(local, c.id) == KEY_BITS - 1
    ensures Kept(Replace(Elems(s), c), 1, local.id) == CellKept(Replace(Elems(s), c), c, local, 1)
  {
    assert Elems(s) == {local};
    assert Replace(Elems(s), c) == {local, c};
    PairInsert(c, local, 1);
    assert Ids({c}) == {c.id};
    NoneCloserThanSelf(local, c.id);
  }

  lemma {:induction false} FullInsertKeeps(s: seq<Contact>, c: Contact, local: Contact, k: nat)
    requires StrictlyOrdered(s, local.id) && LeadsWith(s, local) && c.id != local.id
    requires |s| == k
    ensures Kept(Replace(Elems(s), c), k, local.id) == CellKept(Replace(Elems(s), c), c, local, k)
      <==> HarmlessWhenFull(s, c, local, k)
  {
    ElemsIds(s, c.id);
    if c.id in Ids(Elems(s)) {
      FullBucketReplaces(s, c, local, k);
    } else if k == 1 && Depth(local, c.id) == KEY_BITS - 1 {
      OnlyLocalLeft(s, c, local);
    } else {
      FullBucketDrops(s, c, local);
      assert local in Elems(s) by { assert s[0] in Elems(s); }
      CellHasRoom(Replace(Elems(s), c), c, local, k);
    }
  }

  /**
    Where `Update` would split, inserting at once does what an offer does exactly when the
    node is in the bucket already, or has no place to keep anyway.
   */
  lemma {:induction false} InsertForSplit(t: Table, c: Contact)
    requires TableInv(t) && Decide(t, c).Split?
    ensures
      var i := Slot(t, c.id);
      (Stored(Put(t, i, InsertInto(t.buckets[i], c, t.local, t.k))) == Offer(Stored(t), c, t.local, t.k))
      <==> HarmlessWhenFull(t.buckets[i].peers, c, t.local, t.k)
  {
    var i := Slot(t, c.id);
    var E := set x | x in Stored(t) && Slot(t, x.id) == i;
    var R := Replace(E, c);
    InsertBySlot(t, c, E);
    OfferBySlot(t, c, E);
    FullDeepest(t, c);
    FullInsertKeeps(t.buckets[i].peers, c, t.local, t.k);
    SlotApart(t, c, E);
    SumsAgree(ElsewhereStored(t, c.id), Kept(R, t.k, t.local.id), CellKept(R, c, t.local, t.k));
  }

  lemma {:induction false} SlotApart(t: Table, c: Contact, E: set<Contact>)
    requires TableInv(t) && E == set x | x in Stored(t) && Slot(t, x.id) == Slot(t, c.id)
    ensures
      && ElsewhereStored(t, c.id) !! Kept(Replace(E, c), t.k, t.local.id)
      && ElsewhereStored(t, c.id) !! CellKept(Replace(E, c), c, t.local, t.k)
  {
    assert forall x :: x in Replace(E, c) ==> Slot(t, x.id) == Slot(t, c.id);
  }

  lemma {:induction false} FullDeepest(t: Table, c: Contact)
    requires TableInv(t) && Decide(t, c).Split?
    ensures Slot(t, c.id) == |t.buckets| - 1 && c.id != t.local.id
    ensures
      var s := Deepest(t).peers;
      StrictlyOrdered(s, t.local.id) && LeadsWith(s, t.local) && |s| == t.k
  {
    var n := |t.buckets|;
    assert BucketInv(t.buckets[n - 1], RangeOf(n - 1, n), t.local, t.k);
  }

  lemma {:induction false} SumsAgree(a: set<Contact>, b: set<Contact>, c: set<Contact>)
    requires a !! b && a !! c
    ensures a + b == a + c <==> b == c
  {
    assert b == (a + b) - a && c == (a + c) - a;
  }

  /** Removing another node forgets exactly its identifier. */
  lemma {:induction false} RemoveRefines(t: Table, id: NodeID)
    requires TableInv(t) && id != t.local.id
    ensures Shape(t) && Stored(Remove(t, id)) == Forget(Stored(t), id)
  {
    RemoveSpec(t, id);
  }
}
