/** Contact records, lists of them ordered by distance, and what sorting and truncation keep. */
module Contacts {
  import opened NodeIds
  import opened KClosest

  datatype Contact = Contact(
    id: NodeID,
    username: string,
    address: string,
    tcpPort: string,
    udpPort: string,
    lastSeen: int)
  {
    function UDPAddress(): string {
      address + ":" + udpPort
    }
  }

  function Elems(s: seq<Contact>): set<Contact> {
    set c | c in s
  }

  function Ids(A: set<Contact>): set<NodeID> {
    set c | c in A :: c.id
  }

  predicate UniqueIds(A: set<Contact>) {
    forall x, y :: x in A && y in A && x.id == y.id ==> x == y
  }

  predicate Ordered(s: seq<Contact>, t: NodeID) {
    forall i, j :: 0 <= i < j < |s| ==> Distance(s[i].id, t) <= Distance(s[j].id, t)
  }

  /** Ordered by distance to t with no identifier twice. */
  predicate StrictlyOrdered(s: seq<Contact>, t: NodeID) {
    forall i, j :: 0 <= i < j < |s| ==> Distance(s[i].id, t) < Distance(s[j].id, t)
  }

  /** The members of A whose identifiers are among the k closest to t. */
  function Kept(A: set<Contact>, k: nat, t: NodeID): set<Contact> {
    var keep := Closest(Ids(A), k, t);
    set c | c in A && c.id in keep
  }

  /** A with the record for c's identifier, if any, replaced by c. */
  function Replace(A: set<Contact>, c: Contact): set<Contact> {
    (set x | x in A && x.id != c.id) + {c}
  }

  // ---------------------------------------------------------------- sorting

  /** The slot of c in an ordered list. */
  function Place(c: Contact, s: seq<Contact>, t: NodeID): seq<Contact> {
    if s == [] || Distance(c.id, t) <= Distance(s[0].id, t) then [c] + s
    else [s[0]] + Place(c, s[1..], t)
  }

  /** The list in order of distance to t. */
  function Sorted(s: seq<Contact>, t: NodeID): seq<Contact> {
    if s == [] then [] else Place(s[0], Sorted(s[1..], t), t)
  }

  lemma {:induction false} PlaceMultiset(c: Contact, s: seq<Contact>, t: NodeID)
    ensures multiset(Place(c, s, t)) == multiset(s) + multiset{c}
  {
    if s == [] || Distance(c.id, t) <= Distance(s[0].id, t) {
    } else {
      PlaceMultiset(c, s[1..], t);
      assert s == [s[0]] + s[1..];
    }
  }

  lemma {:induction false} PlaceMembers(c: Contact, s: seq<Contact>, t: NodeID)
    ensures forall i :: 0 <= i < |Place(c, s, t)| ==> Place(c, s, t)[i] == c || Place(c, s, t)[i] in s
  {
    PlaceMultiset(c, s, t);
    assert forall i :: 0 <= i < |Place(c, s, t)| ==> Place(c, s, t)[i] in multiset(Place(c, s, t));
  }

  lemma {:induction false} FrontOrdered(x: Contact, s: seq<Contact>, t: NodeID)
    requires Ordered(s, t) && forall i :: 0 <= i < |s| ==> Distance(x.id, t) <= Distance(s[i].id, t)
    ensures Ordered([x] + s, t)
  {
  }

  lemma {:induction false} FrontStrict(x: Contact, s: seq<Contact>, t: NodeID)
    requires StrictlyOrdered(s, t) && forall i :: 0 <= i < |s| ==> Distance(x.id, t) < Distance(s[i].id, t)
    ensures StrictlyOrdered([x] + s, t)
  {
  }

  lemma {:induction false} PlaceOrdered(c: Contact, s: seq<Contact>, t: NodeID)
    requires Ordered(s, t)
    ensures Ordered(Place(c, s, t), t)
  {
    if s == [] || Distance(c.id, t) <= Distance(s[0].id, t) {
      FrontOrdered(c, s, t);
    } else {
      PlaceOrdered(c, s[1..], t);
      PlaceMembers(c, s[1..], t);
      FrontOrdered(s[0], Place(c, s[1..], t), t);
    }
  }

  lemma {:induction false} PlaceSpec(c: Contact, s: seq<Contact>, t: NodeID)
    requires Ordered(s, t)
    ensures Ordered(Place(c, s, t), t)
    ensures multiset(Place(c, s, t)) == multiset(s) + multiset{c}
  {
    PlaceOrdered(c, s, t);
    PlaceMultiset(c, s, t);
  }

  lemma {:induction false} SortedSpec(s: seq<Contact>, t: NodeID)
    ensures Ordered(Sorted(s, t), t)
    ensures multiset(Sorted(s, t)) == multiset(s)
  {
    if s != [] {
      SortedSpec(s[1..], t);
      PlaceSpec(s[0], Sorted(s[1..], t), t);
      assert s == [s[0]] + s[1..];
    }
  }

  lemma {:induction false} MultisetElems(r: seq<Contact>, s: seq<Contact>)
    requires multiset(r) == multiset(s)
    ensures Elems(r) == Elems(s)
    ensures |r| == |s|
  {
    forall c
      ensures c in r <==> c in s
    {
      assert c in r <==> c in multiset(r);
      assert c in s <==> c in multiset(s);
    }
    assert |multiset(r)| == |r| && |multiset(s)| == |s|;
  }

  lemma {:induction false} HeadsAgree(r: seq<Contact>, s: seq<Contact>, t: NodeID)
    requires StrictlyOrdered(r, t) && Ordered(s, t)
    requires r != [] && s != [] && r[0] in s && s[0] in r
    ensures r[0] == s[0]
  {
    var i :| 0 <= i < |r| && r[i] == s[0];
    var j :| 0 <= j < |s| && s[j] == r[0];
  }

  lemma {:induction false} TailMultiset(s: seq<Contact>)
    requires s != []
    ensures multiset(s[1..]) == multiset(s) - multiset{s[0]}
  {
    assert s == [s[0]] + s[1..];
  }

  /** A strictly ordered list is the only ordered arrangement of its members. */
  lemma {:induction false} StrictOrderUnique(r: seq<Contact>, s: seq<Contact>, t: NodeID)
    requires StrictlyOrdered(r, t) && Ordered(s, t)
    requires multiset(r) == multiset(s)
    ensures r == s
  {
    MultisetElems(r, s);
    if r != [] {
      assert r[0] in Elems(r) && s[0] in Elems(s);
      HeadsAgree(r, s, t);
      TailMultiset(r);
      TailMultiset(s);
      StrictOrderUnique(r[1..], s[1..], t);
      assert r == [r[0]] + r[1..] && s == [s[0]] + s[1..];
    }
  }

  /** Two strictly ordered lists with the same members are the same list. */
  lemma {:induction false} SameElemsSameList(r: seq<Contact>, s: seq<Contact>, t: NodeID)
    requires StrictlyOrdered(r, t) && StrictlyOrdered(s, t)
    requires Elems(r) == Elems(s)
    ensures r == s
  {
    assert r != [] ==> r[0] in Elems(r);
    assert s != [] ==> s[0] in Elems(s);
    if r != [] {
      HeadsAgree(r, s, t);
      assert Elems(r[1..]) == Elems(r) - {r[0]};
      assert Elems(s[1..]) == Elems(s) - {s[0]};
      SameElemsSameList(r[1..], s[1..], t);
      assert r == [r[0]] + r[1..] && s == [s[0]] + s[1..];
    }
  }

  /** Ordering a list without repeated identifiers leaves no ties. */
  lemma {:induction false} SortedStrict(s: seq<Contact>, t: NodeID)
    requires forall i, j :: 0 <= i < j < |s| ==> s[i].id != s[j].id
    ensures StrictlyOrdered(Sorted(s, t), t)
    ensures Elems(Sorted(s, t)) == Elems(s)
  {
    SortedSpec(s, t);
    MultisetElems(Sorted(s, t), s);
    if s != [] {
      SortedStrict(s[1..], t);
      SortedSpec(s[1..], t);
      var r := Sorted(s[1..], t);
      forall i | 0 <= i < |r|
        ensures Distance(r[i].id, t) != Distance(s[0].id, t)
      {
        assert r[i] in Elems(r);
        if Distance(r[i].id, t) == Distance(s[0].id, t) {
          DistanceInjective(r[i].id, s[0].id, t);
        }
      }
      PlaceStrict(s[0], r, t);
    }
  }

  lemma {:induction false} PlaceStrict(c: Contact, s: seq<Contact>, t: NodeID)
    requires StrictlyOrdered(s, t)
    requires forall i :: 0 <= i < |s| ==> Distance(s[i].id, t) != Distance(c.id, t)
    ensures StrictlyOrdered(Place(c, s, t), t)
  {
    if s == [] || Distance(c.id, t) <= Distance(s[0].id, t) {
      FrontStrict(c, s, t);
    } else {
      PlaceStrict(c, s[1..], t);
      PlaceMembers(c, s[1..], t);
      FrontStrict(s[0], Place(c, s[1..], t), t);
    }
  }

  /**
    Sorts a slice by distance. Callers see only what a library sort promises: an ordered
    rearrangement, with no say in how ties come out.
   */
  method SortSlice(s: seq<Contact>, t: NodeID) returns (r: seq<Contact>)
    ensures Ordered(r, t)
    ensures multiset(r) == multiset(s)
  {
    r := [];
    for i := 0 to |s|
      invariant Ordered(r, t)
      invariant multiset(r) == multiset(s[..i])
    {
      var j := FindPlace(r, s[i], t);
      InsertedOrdered(r, s[i], j, t);
      InsertedMultiset(r, s[i], j);
      r := r[..j] + [s[i]] + r[j..];
      assert s[..i + 1] == s[..i] + [s[i]];
    }
    assert s[..|s|] == s;
  }

  method FindPlace(r: seq<Contact>, c: Contact, t: NodeID) returns (j: nat)
    ensures j <= |r|
    ensures forall h :: j <= h < |r| ==> Distance(c.id, t) <= Distance(r[h].id, t)
    ensures j > 0 ==> Distance(r[j - 1].id, t) <= Distance(c.id, t)
  {
    j := |r|;
    while j > 0
      invariant j <= |r|
      invariant forall h :: j <= h < |r| ==> Distance(c.id, t) <= Distance(r[h].id, t)
    {
      var closer := CompareXorDistance(c.id, r[j - 1].id, t);
      if !closer {
        return;
      }
      j := j - 1;
    }
  }

  lemma {:induction false} InsertedOrdered(s: seq<Contact>, c: Contact, j: nat, t: NodeID)
    requires Ordered(s, t) && j <= |s|
    requires forall h :: j <= h < |s| ==> Distance(c.id, t) <= Distance(s[h].id, t)
    requires j > 0 ==> Distance(s[j - 1].id, t) <= Distance(c.id, t)
    ensures Ordered(s[..j] + [c] + s[j..], t)
  {
  }

  lemma {:induction false} InsertedMultiset(s: seq<Contact>, c: Contact, j: nat)
    requires j <= |s|
    ensures multiset(s[..j] + [c] + s[j..]) == multiset(s) + multiset{c}
  {
    assert s == s[..j] + s[j..];
  }

  // ---------------------------------------------------------------- truncation

  function Truncate<T>(s: seq<T>, k: nat): seq<T> {
    if |s| > k then s[..k] else s
  }

  lemma {:induction false} ElemsIds(s: seq<Contact>, id: NodeID)
    ensures id in Ids(Elems(s)) <==> exists i :: 0 <= i < |s| && s[i].id == id
  {
    if id in Ids(Elems(s)) {
      var c :| c in Elems(s) && c.id == id;
    }
    if i :| 0 <= i < |s| && s[i].id == id {
      assert s[i] in Elems(s);
    }
  }

  lemma {:induction false} StrictUniqueIds(s: seq<Contact>, t: NodeID)
    requires StrictlyOrdered(s, t)
    ensures UniqueIds(Elems(s))
  {
    forall x, y | x in s && y in s && x.id == y.id
      ensures x == y
    {
      var i :| 0 <= i < |s| && s[i] == x;
      var j :| 0 <= j < |s| && s[j] == y;
      assert i == j;
    }
  }

  lemma {:induction false} IdsSnoc(p: seq<Contact>, c: Contact)
    ensures Ids(Elems(p + [c])) == Ids(Elems(p)) + {c.id}
  {
    assert Elems(p + [c]) == Elems(p) + {c};
  }

  lemma {:induction false} DistinctIdCount(s: seq<Contact>)
    requires forall i, j :: 0 <= i < j < |s| ==> s[i].id != s[j].id
    ensures |Ids(Elems(s))| == |s|
    decreases |s|
  {
    if s == [] {
      assert Ids(Elems(s)) == {};
    } else {
      var p, c := s[..|s| - 1], s[|s| - 1];
      assert s == p + [c];
      DistinctIdCount(p);
      IdsSnoc(p, c);
      assert c.id !in Ids(Elems(p)) by {
        ElemsIds(p, c.id);
      }
    }
  }

  lemma {:induction false} StrictIdCount(s: seq<Contact>, t: NodeID)
    requires StrictlyOrdered(s, t)
    ensures |Ids(Elems(s))| == |s|
  {
    DistinctIdCount(s);
  }

  /** In a strictly ordered list, the closer ones are exactly those in front. */
  lemma {:induction false} StrictRank(s: seq<Contact>, t: NodeID, i: nat)
    requires StrictlyOrdered(s, t) && i < |s|
    ensures |Closer(Ids(Elems(s)), s[i].id, t)| == i
  {
    var C := Closer(Ids(Elems(s)), s[i].id, t);
    forall id
      ensures id in C <==> id in Ids(Elems(s[..i]))
    {
      ElemsIds(s, id);
      ElemsIds(s[..i], id);
      if id in C {
        var j :| 0 <= j < |s| && s[j].id == id;
        assert j < i && s[..i][j] == s[j];
      }
      if id in Ids(Elems(s[..i])) {
        var j :| 0 <= j < |s[..i]| && s[..i][j].id == id;
        assert s[j].id == id;
      }
    }
    assert C == Ids(Elems(s[..i]));
    StrictIdCount(s[..i], t);
  }

  /** Cutting a strictly ordered list at k keeps its k closest members. */
  lemma {:induction false} TruncateKeepsClosest(s: seq<Contact>, k: nat, t: NodeID)
    requires StrictlyOrdered(s, t)
    ensures Elems(Truncate(s, k)) == Kept(Elems(s), k, t)
  {
    forall c
      ensures c in Truncate(s, k) <==> c in Kept(Elems(s), k, t)
    {
      if c in s {
        var i :| 0 <= i < |s| && s[i] == c;
        assert s[i] in Elems(s);
        StrictRank(s, t, i);
        if c in Truncate(s, k) {
          var j :| 0 <= j < |Truncate(s, k)| && s[j] == c;
          assert j == i;
        }
        if i < k {
          assert Truncate(s, k)[i] == c;
        }
      }
    }
  }

  // ---------------------------------------------------------------- one insertion

  /** The list without its first entry for an identifier. */
  function Without(s: seq<Contact>, id: NodeID): seq<Contact> {
    if s == [] then [] else if s[0].id == id then s[1..] else [s[0]] + Without(s[1..], id)
  }

  lemma {:induction false} WithoutMembers(s: seq<Contact>, id: NodeID)
    requires forall i, j :: 0 <= i < j < |s| ==> s[i].id != s[j].id
    ensures forall c :: c in Without(s, id) <==> c in s && c.id != id
  {
    if s != [] {
      assert s == [s[0]] + s[1..];
      if s[0].id != id {
        WithoutMembers(s[1..], id);
      } else {
        assert forall c :: c in s[1..] ==> exists i :: 0 < i < |s| && s[i] == c;
      }
    }
  }

  lemma {:induction false} WithoutOrdered(s: seq<Contact>, id: NodeID, t: NodeID)
    requires StrictlyOrdered(s, t)
    ensures StrictlyOrdered(Without(s, id), t)
  {
    WithoutMembers(s, id);
    if s != [] && s[0].id != id {
      WithoutOrdered(s[1..], id, t);
      WithoutMembers(s[1..], id);
      var r := Without(s[1..], id);
      forall j | 0 <= j < |r|
        ensures Distance(s[0].id, t) < Distance(r[j].id, t)
      {
        assert r[j] in s[1..];
      }
    }
  }

  lemma {:induction false} WithoutSpec(s: seq<Contact>, id: NodeID, t: NodeID)
    requires StrictlyOrdered(s, t)
    ensures StrictlyOrdered(Without(s, id), t)
    ensures Elems(Without(s, id)) == set c | c in s && c.id != id
    ensures |Without(s, id)| == if id in Ids(Elems(s)) then |s| - 1 else |s|
  {
    WithoutOrdered(s, id, t);
    WithoutMembers(s, id);
    WithoutLength(s, id);
  }

  lemma {:induction false} WithoutLength(s: seq<Contact>, id: NodeID)
    ensures |Without(s, id)| == if id in Ids(Elems(s)) then |s| - 1 else |s|
  {
    if s != [] {
      WithoutLength(s[1..], id);
      assert Elems(s) == {s[0]} + Elems(s[1..]);
      assert Ids(Elems(s)) == {s[0].id} + Ids(Elems(s[1..]));
    }
  }

  /** Drop any old entry, add the new one, sort, cut at k. */
  function Inserted(s: seq<Contact>, c: Contact, k: nat, t: NodeID): seq<Contact> {
    Truncate(Sorted(Without(s, c.id) + [c], t), k)
  }

  /** What an insertion leaves: the k closest once the record for the identifier is replaced. */
  lemma {:induction false} InsertedSpec(s: seq<Contact>, c: Contact, k: nat, t: NodeID)
    requires StrictlyOrdered(s, t)
    ensures StrictlyOrdered(Inserted(s, c, k, t), t)
    ensures |Inserted(s, c, k, t)| <= k
    ensures |Inserted(s, c, k, t)| >= |s| || |Inserted(s, c, k, t)| == k
    ensures Elems(Inserted(s, c, k, t)) == Kept(Replace(Elems(s), c), k, t)
  {
    WithoutSpec(s, c.id, t);
    var w := Without(s, c.id) + [c];
    forall i | 0 <= i < |Without(s, c.id)|
      ensures Without(s, c.id)[i].id != c.id
    {
      assert Without(s, c.id)[i] in Elems(Without(s, c.id));
    }
    SortedStrict(w, t);
    SortedSpec(w, t);
    MultisetElems(Sorted(w, t), w);
    assert Elems(w) == Elems(Without(s, c.id)) + {c} == Replace(Elems(s), c);
    TruncateKeepsClosest(Sorted(w, t), k, t);
  }
}
