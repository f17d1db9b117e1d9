/** The k smallest of a stream of numbers: what a shortlist's distances are. */
module Rankings {
  import opened NodeIds
  import opened Contacts

  predicate Ascending(s: seq<nat>) {
    forall i, j :: 0 <= i < j < |s| ==> s[i] <= s[j]
  }

  function PlaceNat(x: nat, s: seq<nat>): seq<nat> {
    if s == [] || x <= s[0] then [x] + s else [s[0]] + PlaceNat(x, s[1..])
  }

  function SortNat(s: seq<nat>): seq<nat> {
    if s == [] then [] else PlaceNat(s[|s| - 1], SortNat(s[..|s| - 1]))
  }

  /** The k smallest numbers of a list, in order, repeats and all. */
  function Best(k: nat, s: seq<nat>): seq<nat> {
    Truncate(SortNat(s), k)
  }

  function Distances(s: seq<Contact>, t: NodeID): (d: seq<nat>)
    ensures |d| == |s|
  {
    seq(|s|, i requires 0 <= i < |s| => Distance(s[i].id, t))
  }

  lemma {:induction false} PlaceNatMultiset(x: nat, s: seq<nat>)
    ensures multiset(PlaceNat(x, s)) == multiset(s) + multiset{x}
    ensures |PlaceNat(x, s)| == |s| + 1
  {
    if s == [] || x <= s[0] {
    } else {
      PlaceNatMultiset(x, s[1..]);
      assert s == [s[0]] + s[1..];
    }
  }

  lemma {:induction false} PlaceNatAscending(x: nat, s: seq<nat>)
    requires Ascending(s)
    ensures Ascending(PlaceNat(x, s))
  {
    if s == [] || x <= s[0] {
    } else {
      PlaceNatAscending(x, s[1..]);
      PlaceNatMultiset(x, s[1..]);
      var r := PlaceNat(x, s[1..]);
      forall j | 0 <= j < |r|
        ensures s[0] <= r[j]
      {
        assert r[j] in multiset(r);
        assert r[j] == x || r[j] in s[1..];
      }
    }
  }

  lemma {:induction false} PlaceNatSpec(x: nat, s: seq<nat>)
    requires Ascending(s)
    ensures Ascending(PlaceNat(x, s))
    ensures multiset(PlaceNat(x, s)) == multiset(s) + multiset{x}
    ensures |PlaceNat(x, s)| == |s| + 1
  {
    PlaceNatAscending(x, s);
    PlaceNatMultiset(x, s);
  }

  lemma {:induction false} SortNatSpec(s: seq<nat>)
    ensures Ascending(SortNat(s))
    ensures multiset(SortNat(s)) == multiset(s)
    ensures |SortNat(s)| == |s|
  {
    if s != [] {
      var p, x := s[..|s| - 1], s[|s| - 1];
      SortNatSpec(p);
      PlaceNatSpec(x, SortNat(p));
      assert s == p + [x];
    }
  }

  lemma {:induction false} TailOfMultiset(s: seq<nat>)
    requires s != []
    ensures multiset(s[1..]) == multiset(s) - multiset{s[0]}
    ensures s[0] in multiset(s)
  {
    assert s == [s[0]] + s[1..];
  }

  lemma {:induction false} LeastFirst(a: seq<nat>, x: nat)
    requires Ascending(a) && x in a
    ensures a[0] <= x
  {
  }

  lemma {:induction false} AscendingTail(a: seq<nat>)
    requires Ascending(a) && a != []
    ensures Ascending(a[1..])
  {
  }

  lemma {:induction false} AscendingUnique(a: seq<nat>, b: seq<nat>)
    requires Ascending(a) && Ascending(b)
    requires multiset(a) == multiset(b)
    ensures a == b
  {
    assert |multiset(a)| == |a| && |multiset(b)| == |b|;
    if a != [] {
      TailOfMultiset(a);
      TailOfMultiset(b);
      assert a[0] == b[0] by {
        assert a[0] in multiset(b) && b[0] in multiset(a);
        LeastFirst(a, b[0]);
        LeastFirst(b, a[0]);
      }
      AscendingTail(a);
      AscendingTail(b);
      AscendingUnique(a[1..], b[1..]);
      assert a == [a[0]] + a[1..] && b == [b[0]] + b[1..];
    }
  }

  lemma {:induction false} PlaceInPrefix(x: nat, s: seq<nat>, k: nat)
    requires Ascending(s)
    ensures Truncate(PlaceNat(x, Truncate(s, k)), k) == Truncate(PlaceNat(x, s), k)
  {
    if s == [] || x <= s[0] || k == 0 {
      PlaceNatSpec(x, s);
      PlaceNatSpec(x, Truncate(s, k));
    } else {
      PlaceInPrefix(x, s[1..], k - 1);
      assert Truncate(s, k) == [s[0]] + Truncate(s[1..], k - 1);
      assert Truncate(s, k)[1..] == Truncate(s[1..], k - 1);
      var l, r := PlaceNat(x, Truncate(s[1..], k - 1)), PlaceNat(x, s[1..]);
      assert PlaceNat(x, Truncate(s, k)) == [s[0]] + l;
      TruncateCons(s[0], l, k);
      TruncateCons(s[0], r, k);
    }
  }

  lemma {:induction false} TruncateCons(x: nat, s: seq<nat>, k: nat)
    requires k > 0
    ensures Truncate([x] + s, k) == [x] + Truncate(s, k - 1)
  {
  }

  lemma {:induction false} BestSnoc(k: nat, s: seq<nat>, x: nat)
    ensures Best(k, s + [x]) == Truncate(PlaceNat(x, Best(k, s)), k)
  {
    assert (s + [x])[..|s|] == s;
    SortNatSpec(s);
    PlaceInPrefix(x, SortNat(s), k);
  }

  lemma {:induction false} BestIdempotent(k: nat, s: seq<nat>)
    ensures Best(k, Best(k, s)) == Best(k, s)
    ensures |Best(k, s)| == if |s| < k then |s| else k
    ensures Ascending(Best(k, s))
  {
    SortNatSpec(s);
    AscendingIsSorted(Best(k, s));
  }

  /** The k smallest in plain terms: in order, and everything left over is at least as large. */
  lemma {:induction false} BestAreSmallest(k: nat, s: seq<nat>) returns (rest: seq<nat>)
    ensures multiset(Best(k, s)) + multiset(rest) == multiset(s)
    ensures |Best(k, s)| == if |s| < k then |s| else k
    ensures Ascending(Best(k, s))
    ensures forall x, y :: x in Best(k, s) && y in rest ==> x <= y
  {
    SortNatSpec(s);
    var sorted := SortNat(s);
    if |s| <= k {
      rest := [];
    } else {
      rest := sorted[k..];
      assert sorted == sorted[..k] + sorted[k..];
      forall x, y | x in sorted[..k] && y in rest
        ensures x <= y
      {
        var i :| 0 <= i < k && sorted[i] == x;
        var j :| 0 <= j < |rest| && rest[j] == y;
        assert sorted[k + j] == y;
      }
    }
  }

  lemma {:induction false} AscendingIsSorted(s: seq<nat>)
    requires Ascending(s)
    ensures SortNat(s) == s
  {
    SortNatSpec(s);
    AscendingUnique(s, SortNat(s));
  }

  /** Keeping only the k smallest so far loses nothing of the k smallest in the end. */
  lemma {:induction false} BestStreams(k: nat, a: seq<nat>, b: seq<nat>)
    ensures Best(k, Best(k, a) + b) == Best(k, a + b)
    decreases |b|
  {
    if b == [] {
      BestIdempotent(k, a);
      assert Best(k, a) + b == Best(k, a) && a + b == a;
    } else {
      var p, x := b[..|b| - 1], b[|b| - 1];
      BestStreams(k, a, p);
      BestSnoc(k, Best(k, a) + p, x);
      BestSnoc(k, a + p, x);
      assert Best(k, a) + b == (Best(k, a) + p) + [x];
      assert a + b == (a + p) + [x];
    }
  }

  lemma {:induction false} PlaceLowers(x: nat, s: seq<nat>)
    requires Ascending(s)
    ensures |PlaceNat(x, s)| == |s| + 1
    ensures forall i :: 0 <= i < |s| ==> PlaceNat(x, s)[i] <= s[i]
  {
    if s == [] || x <= s[0] {
      assert forall i :: 0 < i < |s| ==> ([x] + s)[i] == s[i - 1];
    } else {
      PlaceLowers(x, s[1..]);
    }
  }

  /** More candidates never make any place of the ranking worse. */
  lemma {:induction false} BestImproves(k: nat, a: seq<nat>, b: seq<nat>)
    ensures |Best(k, a)| <= |Best(k, a + b)|
    ensures forall i :: 0 <= i < |Best(k, a)| ==> Best(k, a + b)[i] <= Best(k, a)[i]
    decreases |b|
  {
    if b == [] {
      assert a + b == a;
    } else {
      var p, x := b[..|b| - 1], b[|b| - 1];
      BestImproves(k, a, p);
      OneMoreImproves(k, a + p, x);
      assert a + b == (a + p) + [x];
    }
  }

  lemma {:induction false} OneMoreImproves(k: nat, a: seq<nat>, x: nat)
    ensures |Best(k, a)| <= |Best(k, a + [x])|
    ensures forall i :: 0 <= i < |Best(k, a)| ==> Best(k, a + [x])[i] <= Best(k, a)[i]
  {
    BestSnoc(k, a, x);
    BestIdempotent(k, a);
    PlaceLowers(x, Best(k, a));
  }

  // ---------------------------------------------------------------- distances of contacts

  lemma {:induction false} LastIsMost(s: seq<nat>, x: nat)
    requires Ascending(s) && x in s
    ensures x <= s[|s| - 1]
  {
    var i :| 0 <= i < |s| && s[i] == x;
  }

  lemma {:induction false} SortedMembers(s: seq<nat>, x: nat)
    ensures x in SortNat(s) <==> x in s
  {
    SortNatSpec(s);
    assert x in SortNat(s) <==> x in multiset(SortNat(s));
    assert x in s <==> x in multiset(s);
  }

  /** As long as nothing has to be cut, more candidates only move the far end away. */
  lemma {:induction false} BestRecedes(k: nat, a: seq<nat>, b: seq<nat>)
    requires a != [] && |a + b| < k
    ensures |Best(k, a)| > 0 && |Best(k, a + b)| > 0
    ensures Best(k, a)[|Best(k, a)| - 1] <= Best(k, a + b)[|Best(k, a + b)| - 1]
  {
    SortNatSpec(a);
    SortNatSpec(a + b);
    var last := SortNat(a)[|a| - 1];
    SortedMembers(a, last);
    SortedMembers(a + b, last);
    LastIsMost(SortNat(a + b), last);
  }

  lemma {:induction false} MultisetWithoutAt(s: seq<Contact>, i: nat)
    requires i < |s|
    ensures multiset(s[..i] + s[i + 1..]) == multiset(s) - multiset{s[i]}
  {
    assert s == s[..i] + ([s[i]] + s[i + 1..]);
    assert multiset(s) == multiset(s[..i]) + (multiset{s[i]} + multiset(s[i + 1..]));
  }

  lemma {:induction false} DistancesWithoutAt(s: seq<Contact>, i: nat, t: NodeID)
    requires i < |s|
    ensures multiset(Distances(s, t)) == multiset(Distances(s[..i] + s[i + 1..], t)) + multiset{Distance(s[i].id, t)}
  {
    var x := Distance(s[i].id, t);
    assert Distances(s, t) == Distances(s[..i], t) + ([x] + Distances(s[i + 1..], t));
    assert Distances(s[..i] + s[i + 1..], t) == Distances(s[..i], t) + Distances(s[i + 1..], t);
  }

  function Dropped(s: seq<Contact>, i: nat): seq<Contact>
    requires i < |s|
  {
    s[..i] + s[i + 1..]
  }

  lemma {:induction false} DroppedHead(s: seq<Contact>)
    requires s != []
    ensures |Dropped(s, 0)| == |s| - 1
    ensures multiset(Dropped(s, 0)) == multiset(s) - multiset{s[0]}
  {
    MultisetWithoutAt(s, 0);
  }

  lemma {:induction false} DistancesOfMultiset(r: seq<Contact>, s: seq<Contact>, t: NodeID)
    requires multiset(r) == multiset(s)
    ensures multiset(Distances(r, t)) == multiset(Distances(s, t))
    decreases |r|
  {
    MultisetElems(r, s);
    if r == [] {
      assert Distances(r, t) == [] && Distances(s, t) == [];
    } else {
      assert r[0] in Elems(s);
      var i :| 0 <= i < |s| && s[i] == r[0];
      MultisetWithoutAt(s, i);
      DroppedHead(r);
      DistancesOfMultiset(Dropped(r, 0), Dropped(s, i), t);
      DistancesWithoutAt(s, i, t);
      DistancesWithoutAt(r, 0, t);
    }
  }

  lemma {:induction false} DistancesConcat(a: seq<Contact>, b: seq<Contact>, t: NodeID)
    ensures Distances(a + b, t) == Distances(a, t) + Distances(b, t)
  {
  }

  /** Sorting contacts sorts their distances. */
  lemma {:induction false} OrderedDistances(r: seq<Contact>, s: seq<Contact>, t: NodeID)
    requires Ordered(r, t) && multiset(r) == multiset(s)
    ensures Distances(r, t) == SortNat(Distances(s, t))
  {
    DistancesOfMultiset(r, s, t);
    SortNatSpec(Distances(s, t));
    AscendingUnique(Distances(r, t), SortNat(Distances(s, t)));
  }
}
