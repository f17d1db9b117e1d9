/**
  The routing table as a value: what one locked step of `Update`, a bucket insertion, a
  removal and a split do to it (network/routing/routing_table.go, buckets.go), and the
  shape that every one of these steps keeps.
 */
module Tables {
  import opened NodeIds
  import opened KClosest
  import opened Contacts

  datatype Bucket = Bucket(depth: nat, isFull: bool, peers: seq<Contact>)
  datatype Table = Table(local: Contact, k: nat, buckets: seq<Bucket>)

  function Depth(local: Contact, id: NodeID): nat {
    PrefixLength(local.id, id)
  }

  // ---------------------------------------------------------------- buckets

  function MakeBucket(depth: nat, peers: seq<Contact>, k: nat): Bucket {
    Bucket(depth, |peers| >= k, peers)
  }

  function InsertInto(b: Bucket, c: Contact, local: Contact, k: nat): Bucket {
    MakeBucket(b.depth, Inserted(b.peers, c, k, local.id), k)
  }

  predicate ContainsId(s: seq<Contact>, id: NodeID) {
    exists i :: 0 <= i < |s| && s[i].id == id
  }

  function RemoveFrom(b: Bucket, id: NodeID, k: nat): Bucket {
    if ContainsId(b.peers, id) then MakeBucket(b.depth, Without(b.peers, id), k) else b
  }

  /** The peers that share exactly d bits with the local node, or the others, in order. */
  function Select(s: seq<Contact>, local: Contact, d: nat, exactly: bool): seq<Contact> {
    if s == [] then []
    else (if (Depth(local, s[0].id) == d) == exactly then [s[0]] else []) + Select(s[1..], local, d, exactly)
  }

  function SplitLeft(b: Bucket, local: Contact, k: nat): Bucket {
    MakeBucket(b.depth, Select(b.peers, local, b.depth, true), k)
  }

  function SplitRight(b: Bucket, local: Contact, k: nat): Bucket {
    MakeBucket(b.depth + 1, Select(b.peers, local, b.depth, false), k)
  }

  // ---------------------------------------------------------------- prefix ranges

  /** The identifiers a bucket may ever hold, fixed when the bucket is made. */
  datatype Range = Exactly(d: nat) | AtLeast(d: nat)

  predicate Fits(r: Range, local: Contact, id: NodeID) {
    match r
    case Exactly(d) => Depth(local, id) == d
    case AtLeast(d) => Depth(local, id) >= d
  }

  /** Bucket i of n: every bucket but the last holds one prefix length. */
  function RangeOf(i: nat, n: nat): Range {
    if i + 1 < n then Exactly(i) else AtLeast(i)
  }

  predicate BucketInv(b: Bucket, r: Range, local: Contact, k: nat) {
    && b.depth == r.d
    && b.isFull == (|b.peers| >= k)
    && |b.peers| <= k
    && StrictlyOrdered(b.peers, local.id)
    && forall i :: 0 <= i < |b.peers| ==> Fits(r, local, b.peers[i].id)
  }

  predicate LeadsWith(s: seq<Contact>, local: Contact) {
    s != [] && s[0] == local
  }

  lemma {:induction false} NoneCloserThanSelf(local: Contact, id: NodeID)
    ensures Distance(local.id, local.id) == 0
    ensures id != local.id ==> Distance(id, local.id) > 0 && Depth(local, id) < KEY_BITS
    ensures Depth(local, local.id) == KEY_BITS
  {
    FullPrefixIsEquality(local.id, local.id);
    FullPrefixIsEquality(id, local.id);
    FullPrefixIsEquality(local.id, id);
  }

  lemma {:induction false} HeadIsClosest(s: seq<Contact>, t: NodeID, i: nat)
    requires StrictlyOrdered(s, t) && i < |s|
    ensures i > 0 ==> Distance(s[0].id, t) < Distance(s[i].id, t)
  {
  }

  /** The local node, once in front, survives every insertion of another node. */
  lemma {:induction false} InsertKeepsLead(s: seq<Contact>, c: Contact, local: Contact, k: nat)
    requires StrictlyOrdered(s, local.id) && LeadsWith(s, local)
    requires c.id != local.id && k > 0
    ensures LeadsWith(Inserted(s, c, k, local.id), local)
  {
    var r := Inserted(s, c, k, local.id);
    InsertedSpec(s, c, k, local.id);
    NoneCloserThanSelf(local, local.id);
    assert s[0] in Elems(s);
    var A := Replace(Elems(s), c);
    assert local in A;
    assert Closer(Ids(A), local.id, local.id) == {};
    assert local.id in Closest(Ids(A), k, local.id);
    assert local in Elems(r);
    var i :| 0 <= i < |r| && r[i] == local;
    HeadIsClosest(r, local.id, i);
  }

  lemma {:induction false} InsertKeepsBucketInv(b: Bucket, r: Range, c: Contact, local: Contact, k: nat)
    requires BucketInv(b, r, local, k) && Fits(r, local, c.id)
    ensures BucketInv(InsertInto(b, c, local, k), r, local, k)
  {
    InsertedSpec(b.peers, c, k, local.id);
    var s := Inserted(b.peers, c, k, local.id);
    forall i | 0 <= i < |s|
      ensures Fits(r, local, s[i].id)
    {
      assert s[i] in Elems(s);
      assert s[i] == c || s[i] in Elems(b.peers);
    }
  }

  lemma {:induction false} RemoveKeepsBucketInv(b: Bucket, r: Range, id: NodeID, local: Contact, k: nat)
    requires BucketInv(b, r, local, k)
    ensures BucketInv(RemoveFrom(b, id, k), r, local, k)
    ensures Elems(RemoveFrom(b, id, k).peers) == set c | c in b.peers && c.id != id
    ensures LeadsWith(b.peers, local) && id != local.id ==> LeadsWith(RemoveFrom(b, id, k).peers, local)
  {
    WithoutSpec(b.peers, id, local.id);
    ElemsIds(b.peers, id);
    var s := Without(b.peers, id);
    forall i | 0 <= i < |s|
      ensures Fits(r, local, s[i].id)
    {
      assert s[i] in Elems(s);
    }
    if !ContainsId(b.peers, id) {
      assert forall c :: c in b.peers ==> c.id != id;
    }
  }

  // ---------------------------------------------------------------- splitting

  lemma {:induction false} SelectMembers(s: seq<Contact>, local: Contact, d: nat, exactly: bool)
    ensures forall c :: c in Select(s, local, d, exactly) <==> c in s && (Depth(local, c.id) == d) == exactly
    ensures |Select(s, local, d, true)| + |Select(s, local, d, false)| == |s|
  {
    if s != [] {
      SelectMembers(s[1..], local, d, exactly);
      assert s == [s[0]] + s[1..];
    }
  }

  lemma {:induction false} SelectAll(s: seq<Contact>, local: Contact, d: nat, exactly: bool)
    requires forall i :: 0 <= i < |s| ==> (Depth(local, s[i].id) == d) == exactly
    ensures Select(s, local, d, exactly) == s
    ensures Select(s, local, d, !exactly) == []
  {
    if s != [] {
      SelectAll(s[1..], local, d, exactly);
    }
  }

  /** Behind a peer of the bucket's own depth come only others of that depth. */
  lemma {:induction false} OwnDepthLast(s: seq<Contact>, local: Contact, d: nat)
    requires s != [] && StrictlyOrdered(s, local.id) && Depth(local, s[0].id) == d
    requires forall i :: 0 <= i < |s| ==> Depth(local, s[i].id) >= d
    ensures forall i :: 0 <= i < |s| ==> Depth(local, s[i].id) == d
  {
    forall i | 0 <= i < |s|
      ensures Depth(local, s[i].id) == d
    {
      HeadIsClosest(s, local.id, i);
      if Depth(local, s[i].id) > d {
        LongerPrefixIsCloser(local.id, s[i].id, s[0].id);
      }
    }
  }

  /**
    A split cuts the sorted bucket at a single point: the right half is the front of the
    list, the left half its tail, and neither is reordered.
   */
  lemma {:induction false} SplitCutsOnce(s: seq<Contact>, local: Contact, d: nat)
    requires StrictlyOrdered(s, local.id)
    requires forall i :: 0 <= i < |s| ==> Depth(local, s[i].id) >= d
    ensures s == Select(s, local, d, false) + Select(s, local, d, true)
  {
    if s != [] {
      if Depth(local, s[0].id) == d {
        OwnDepthLast(s, local, d);
        SelectAll(s, local, d, true);
      } else {
        SubrangeStrict(s, 1, |s|, local.id);
        assert s[1..|s|] == s[1..];
        SplitCutsOnce(s[1..], local, d);
        assert s == [s[0]] + s[1..];
      }
    }
  }

  lemma {:induction false} SubrangeStrict(s: seq<Contact>, lo: nat, hi: nat, t: NodeID)
    requires StrictlyOrdered(s, t) && lo <= hi <= |s|
    ensures StrictlyOrdered(s[lo..hi], t)
  {
  }

  lemma {:induction false} SplitHalves(b: Bucket, local: Contact, k: nat)
    requires StrictlyOrdered(b.peers, local.id)
    requires forall i :: 0 <= i < |b.peers| ==> Depth(local, b.peers[i].id) >= b.depth
    ensures b.peers == SplitRight(b, local, k).peers + SplitLeft(b, local, k).peers
    ensures StrictlyOrdered(SplitLeft(b, local, k).peers, local.id)
    ensures StrictlyOrdered(SplitRight(b, local, k).peers, local.id)
  {
    var l, r := SplitLeft(b, local, k).peers, SplitRight(b, local, k).peers;
    SplitCutsOnce(b.peers, local, b.depth);
    SubrangeStrict(b.peers, 0, |r|, local.id);
    SubrangeStrict(b.peers, |r|, |b.peers|, local.id);
    assert r == b.peers[0..|r|] && l == b.peers[|r|..|b.peers|];
  }

  lemma {:induction false} SelectDepths(s: seq<Contact>, local: Contact, d: nat, exactly: bool)
    requires forall i :: 0 <= i < |s| ==> Depth(local, s[i].id) >= d
    ensures |Select(s, local, d, exactly)| <= |s|
    ensures forall i :: 0 <= i < |Select(s, local, d, exactly)| ==>
      Fits(if exactly then Exactly(d) else AtLeast(d + 1), local, Select(s, local, d, exactly)[i].id)
  {
    var r := Select(s, local, d, exactly);
    SelectMembers(s, local, d, exactly);
    forall i | 0 <= i < |r|
      ensures Depth(local, r[i].id) >= d && (Depth(local, r[i].id) == d) == exactly
    {
      assert r[i] in r;
      var j :| 0 <= j < |s| && s[j] == r[i];
    }
  }

  lemma {:induction false} SplitKeepsLead(b: Bucket, local: Contact, k: nat)
    requires LeadsWith(b.peers, local) && b.depth < KEY_BITS
    requires b.peers == SplitRight(b, local, k).peers + SplitLeft(b, local, k).peers
    ensures LeadsWith(SplitRight(b, local, k).peers, local)
  {
    NoneCloserThanSelf(local, local.id);
    SelectMembers(b.peers, local, b.depth, false);
    assert local in b.peers;
    assert local in SplitRight(b, local, k).peers;
  }

  /** Splitting the deepest bucket conserves its contacts and leaves both halves in order. */
  lemma {:induction false} SplitKeepsBucketInv(b: Bucket, local: Contact, k: nat)
    requires BucketInv(b, AtLeast(b.depth), local, k) && b.depth < KEY_BITS
    ensures BucketInv(SplitLeft(b, local, k), Exactly(b.depth), local, k)
    ensures BucketInv(SplitRight(b, local, k), AtLeast(b.depth + 1), local, k)
    ensures b.peers == SplitRight(b, local, k).peers + SplitLeft(b, local, k).peers
    ensures LeadsWith(b.peers, local) ==> LeadsWith(SplitRight(b, local, k).peers, local)
  {
    SplitHalves(b, local, k);
    SelectDepths(b.peers, local, b.depth, true);
    SelectDepths(b.peers, local, b.depth, false);
    if LeadsWith(b.peers, local) {
      SplitKeepsLead(b, local, k);
    }
  }

  // ---------------------------------------------------------------- the table

  /** The form of a table that the code never loses, whatever is inserted or removed. */
  predicate Shape(t: Table) {
    && 1 <= |t.buckets| <= KEY_BITS
    && forall i :: 0 <= i < |t.buckets| ==> t.buckets[i].depth == i
  }

  /**
    Bucket i has depth i; every bucket before the last holds one prefix length and the last
    holds the rest; all are sorted, duplicate-free, at most k long, with an exact full flag;
    and the local node heads the deepest.
   */
  predicate TableInv(t: Table) {
    && t.k > 0
    && 1 <= |t.buckets| <= KEY_BITS
    && (forall i :: 0 <= i < |t.buckets| ==> BucketInv(t.buckets[i], RangeOf(i, |t.buckets|), t.local, t.k))
    && LeadsWith(Deepest(t).peers, t.local)
  }

  function Deepest(t: Table): Bucket
    requires t.buckets != []
  {
    t.buckets[|t.buckets| - 1]
  }

  /** Every stored contact. */
  function Stored(t: Table): set<Contact> {
    set i, c | 0 <= i < |t.buckets| && c in t.buckets[i].peers :: c
  }

  function New(local: Contact, k: nat): Table {
    Table(local, k, [InsertInto(Bucket(0, false, []), local, local, k)])
  }

  /** The bucket `Update` chooses: the prefix length, clamped to the deepest bucket. */
  function Slot(t: Table, id: NodeID): (i: nat)
    requires t.buckets != []
    ensures i < |t.buckets|
  {
    var p := Depth(t.local, id);
    if p >= |t.buckets| then |t.buckets| - 1 else p
  }

  /** The bucket `Remove` chooses, by the other index function. */
  function RemoveSlot(t: Table, id: NodeID): (i: nat)
    requires t.buckets != []
    ensures i < |t.buckets|
  {
    var p := if t.local.id == id then KEY_BITS - 1 else Depth(t.local, id);
    if p >= |t.buckets| then |t.buckets| - 1 else p
  }

  /** What the locked section of `Update` decides for a contact. */
  datatype Decision = Ignore | Split | CannotSplit | Insert(index: nat)

  function Decide(t: Table, c: Contact): (d: Decision)
    requires t.buckets != []
    ensures d.Insert? ==> d.index < |t.buckets|
  {
    if c.id == t.local.id then Ignore
    else
      var i := Slot(t, c.id);
      var b := t.buckets[i];
      if i == |t.buckets| - 1 && b.depth < KEY_BITS - 1 && b.isFull then
        if ContainsId(b.peers, t.local.id) then Split else CannotSplit
      else Insert(i)
  }

  function Grown(t: Table): Table
    requires t.buckets != []
  {
    var b := Deepest(t);
    t.(buckets := t.buckets[..|t.buckets| - 1] + [SplitLeft(b, t.local, t.k), SplitRight(b, t.local, t.k)])
  }

  function Put(t: Table, i: nat, b: Bucket): Table
    requires i < |t.buckets|
  {
    t.(buckets := t.buckets[i := b])
  }

  datatype Outcome = Updated | NoSplitError

  /** The whole retry loop of `Update`. */
  function Update(t: Table, c: Contact): (r: (Table, Outcome))
    requires Shape(t)
    ensures Shape(r.0) && r.0.local == t.local && r.0.k == t.k
    decreases KEY_BITS - |t.buckets|
  {
    match Decide(t, c)
    case Ignore => (t, Updated)
    case CannotSplit => (t, NoSplitError)
    case Insert(i) => (Put(t, i, InsertInto(t.buckets[i], c, t.local, t.k)), Updated)
    case Split => Update(Grown(t), c)
  }

  function Remove(t: Table, id: NodeID): (r: Table)
    requires Shape(t)
    ensures Shape(r) && r.local == t.local && r.k == t.k
  {
    var i := RemoveSlot(t, id);
    Put(t, i, RemoveFrom(t.buckets[i], id, t.k))
  }

  // ---------------------------------------------------------------- preservation

  lemma {:induction false} NewInv(local: Contact, k: nat)
    requires k > 0
    ensures TableInv(New(local, k)) && Stored(New(local, k)) == {local}
  {
    var p := Inserted([], local, k, local.id);
    assert Without([], local.id) + [local] == [local];
    assert Sorted([local], local.id) == [local];
    assert p == [local];
    var t := New(local, k);
    assert t.buckets[0].peers == [local];
    assert BucketInv(t.buckets[0], RangeOf(0, 1), local, k);
    assert local in t.buckets[0].peers;
  }

  lemma {:induction false} PutInv(t: Table, i: nat, b: Bucket)
    requires TableInv(t) && i < |t.buckets|
    requires BucketInv(b, RangeOf(i, |t.buckets|), t.local, t.k)
    requires i == |t.buckets| - 1 ==> LeadsWith(b.peers, t.local)
    ensures TableInv(Put(t, i, b))
  {
  }

  lemma {:induction false} GrownInv(t: Table)
    requires TableInv(t) && |t.buckets| < KEY_BITS
    ensures TableInv(Grown(t)) && |Grown(t).buckets| == |t.buckets| + 1
    ensures Stored(Grown(t)) == Stored(t)
  {
    var b, g, n := Deepest(t), Grown(t), |t.buckets|;
    SplitKeepsBucketInv(b, t.local, t.k);
    forall i | 0 <= i <= n
      ensures BucketInv(g.buckets[i], RangeOf(i, n + 1), t.local, t.k)
    {
      if i < n - 1 {
        assert g.buckets[i] == t.buckets[i] && RangeOf(i, n) == RangeOf(i, n + 1);
      }
    }
    GrownStored(t, b.peers, SplitLeft(b, t.local, t.k).peers, SplitRight(b, t.local, t.k).peers);
  }

  lemma {:induction false} GrownStored(t: Table, s: seq<Contact>, l: seq<Contact>, r: seq<Contact>)
    requires t.buckets != [] && s == Deepest(t).peers == r + l
    requires l == SplitLeft(Deepest(t), t.local, t.k).peers && r == SplitRight(Deepest(t), t.local, t.k).peers
    ensures Stored(Grown(t)) == Stored(t)
  {
    var g, n := Grown(t), |t.buckets|;
    assert g.buckets[n - 1].peers == l && g.buckets[n].peers == r && t.buckets[n - 1].peers == s;
    assert forall i :: 0 <= i < n - 1 ==> g.buckets[i] == t.buckets[i];
    forall c | c in Stored(g)
      ensures c in Stored(t)
    {
      var i :| 0 <= i <= n && c in g.buckets[i].peers;
      assert c in t.buckets[if i < n then i else n - 1].peers;
    }
    forall c | c in Stored(t)
      ensures c in Stored(g)
    {
      var i :| 0 <= i < n && c in t.buckets[i].peers;
      assert c in g.buckets[i].peers || c in g.buckets[n].peers;
    }
  }

  /** An identifier fits the bucket `Update` picks for it; `Remove` picks the same one. */
  lemma {:induction false} SlotFits(t: Table, id: NodeID)
    requires t.buckets != []
    ensures Fits(RangeOf(Slot(t, id), |t.buckets|), t.local, id)
    ensures |t.buckets| <= KEY_BITS && id != t.local.id ==> RemoveSlot(t, id) == Slot(t, id)
  {
  }

  lemma {:induction false} RemoveSlotOfLocal(t: Table)
    requires 1 <= |t.buckets| <= KEY_BITS
    ensures RemoveSlot(t, t.local.id) == |t.buckets| - 1
  {
  }

  /** A stored contact is in its own slot. */
  lemma {:induction false} StoredInSlot(t: Table, i: nat, c: Contact)
    requires TableInv(t) && i < |t.buckets| && c in t.buckets[i].peers
    ensures i == Slot(t, c.id)
  {
    var j :| 0 <= j < |t.buckets[i].peers| && t.buckets[i].peers[j] == c;
    assert Fits(RangeOf(i, |t.buckets|), t.local, c.id);
  }

  lemma {:induction false} StoredUnique(t: Table)
    requires TableInv(t)
    ensures UniqueIds(Stored(t))
  {
    forall x, y | x in Stored(t) && y in Stored(t) && x.id == y.id
      ensures x == y
    {
      var i :| 0 <= i < |t.buckets| && x in t.buckets[i].peers;
      var j :| 0 <= j < |t.buckets| && y in t.buckets[j].peers;
      StoredInSlot(t, i, x);
      StoredInSlot(t, j, y);
      StrictUniqueIds(t.buckets[i].peers, t.local.id);
      assert x in Elems(t.buckets[i].peers) && y in Elems(t.buckets[i].peers);
    }
  }

  lemma {:induction false} InsertInv(t: Table, c: Contact)
    requires TableInv(t) && c.id != t.local.id
    ensures TableInv(Put(t, Slot(t, c.id), InsertInto(t.buckets[Slot(t, c.id)], c, t.local, t.k)))
  {
    var i := Slot(t, c.id);
    SlotFits(t, c.id);
    var b := t.buckets[i];
    InsertKeepsBucketInv(b, RangeOf(i, |t.buckets|), c, t.local, t.k);
    if i == |t.buckets| - 1 {
      InsertKeepsLead(b.peers, c, t.local, t.k);
    }
    PutInv(t, i, InsertInto(b, c, t.local, t.k));
  }

  /** A well-formed table stays well-formed, and `Update` never reports that it cannot split. */
  lemma {:induction false} UpdateInv(t: Table, c: Contact)
    requires TableInv(t)
    ensures Shape(t) && TableInv(Update(t, c).0)
    ensures Update(t, c).1 == Updated
    decreases KEY_BITS - |t.buckets|
  {
    assert ContainsId(Deepest(t).peers, t.local.id) by {
      assert Deepest(t).peers[0].id == t.local.id;
    }
    match Decide(t, c) {
      case Ignore =>
      case CannotSplit => assert false;
      case Insert(i) => InsertInv(t, c);
      case Split =>
        assert t.buckets[|t.buckets| - 1].depth == |t.buckets| - 1;
        GrownInv(t);
        UpdateInv(Grown(t), c);
    }
  }

  /**
    Removing another node empties its identifier out of the table and touches no other
    contact, although it locates the bucket by a different index function than `Update`.
   */
  lemma {:induction false} RemoveSpec(t: Table, id: NodeID)
    requires TableInv(t) && id != t.local.id
    ensures Shape(t) && TableInv(Remove(t, id))
    ensures Stored(Remove(t, id)) == set c | c in Stored(t) && c.id != id
  {
    var i := RemoveSlot(t, id);
    var b := t.buckets[i];
    RemoveKeepsBucketInv(b, RangeOf(i, |t.buckets|), id, t.local, t.k);
    PutInv(t, i, RemoveFrom(b, id, t.k));
    SlotFits(t, id);
    RemoveStored(t, i, RemoveFrom(b, id, t.k), id);
  }

  lemma {:induction false} RemoveStored(t: Table, i: nat, b: Bucket, id: NodeID)
    requires TableInv(t) && i < |t.buckets| && i == Slot(t, id)
    requires Elems(b.peers) == set c | c in t.buckets[i].peers && c.id != id
    ensures Stored(Put(t, i, b)) == set c | c in Stored(t) && c.id != id
  {
    var r := Put(t, i, b);
    assert forall c :: c in b.peers <==> c in Elems(b.peers);
    forall c | c in Stored(r)
      ensures c in Stored(t) && c.id != id
    {
      var j :| 0 <= j < |r.buckets| && c in r.buckets[j].peers;
      assert c in t.buckets[j].peers;
      StoredInSlot(t, j, c);
    }
    forall c | c in Stored(t) && c.id != id
      ensures c in Stored(r)
    {
      var j :| 0 <= j < |t.buckets| && c in t.buckets[j].peers;
      assert c in r.buckets[j].peers;
    }
  }
}
