/**
  The k identifiers closest to a target, as a set, by counting who is closer.
  This is the yardstick for what a bucket keeps and for what a query returns.
 */
module KClosest {
  import opened NodeIds

  function Closer(S: set<NodeID>, x: NodeID, t: NodeID): set<NodeID> {
    set y | y in S && Distance(y, t) < Distance(x, t)
  }

  /** The members with fewer than k members closer to the target. */
  function Closest(S: set<NodeID>, k: nat, t: NodeID): (r: set<NodeID>)
    ensures r <= S
  {
    set x | x in S && |Closer(S, x, t)| < k
  }

  lemma {:induction false} SubsetSize<T>(A: set<T>, B: set<T>)
    requires A <= B
    ensures |A| <= |B|
  {
    if A != {} {
      var a :| a in A;
      SubsetSize(A - {a}, B - {a});
    }
  }

  lemma {:induction false} RankMonotone(A: set<NodeID>, B: set<NodeID>, x: NodeID, t: NodeID)
    requires A <= B
    ensures |Closer(A, x, t)| <= |Closer(B, x, t)|
  {
    SubsetSize(Closer(A, x, t), Closer(B, x, t));
  }

  lemma {:induction false} Farthest(S: set<NodeID>, t: NodeID) returns (m: NodeID)
    requires S != {}
    ensures m in S && forall y :: y in S ==> Distance(y, t) <= Distance(m, t)
  {
    m :| m in S;
    if S != {m} {
      var n := Farthest(S - {m}, t);
      if Distance(m, t) < Distance(n, t) {
        m := n;
      }
    }
  }

  /** All but the farthest member of a set are closer than it. */
  lemma {:induction false} CloserThanFarthest(S: set<NodeID>, m: NodeID, t: NodeID)
    requires m in S && forall y :: y in S ==> Distance(y, t) <= Distance(m, t)
    ensures Closer(S, m, t) == S - {m}
    ensures |Closer(S, m, t)| == |S| - 1
  {
    forall y | y in S - {m}
      ensures y in Closer(S, m, t)
    {
      if Distance(y, t) == Distance(m, t) {
        DistanceInjective(y, m, t);
      }
    }
    assert Closer(S, m, t) == S - {m};
  }

  /** Whoever has k members closer has k of the k closest closer. */
  lemma {:induction false} OutrankedByClosest(S: set<NodeID>, x: NodeID, k: nat, t: NodeID)
    requires |Closer(S, x, t)| >= k
    ensures |Closer(Closest(S, k, t), x, t)| >= k
    decreases |Closer(S, x, t)|
  {
    var B := Closer(S, x, t);
    var C := Closer(Closest(S, k, t), x, t);
    if k > 0 {
      var y := Farthest(B, t);
      CloserThanFarthest(B, y, t);
      assert Closer(S, y, t) == Closer(B, y, t);
      if |B| > k {
        OutrankedByClosest(S, y, k, t);
        SubsetSize(Closer(Closest(S, k, t), y, t), C);
      } else {
        forall z | z in B
          ensures z in C
        {
          SubsetSize(Closer(S, z, t), Closer(S, y, t));
        }
        SubsetSize(B, C);
      }
    }
  }

  /** Discarding members that are not among the k closest does not change who the k closest are. */
  lemma {:induction false} Squeeze(S: set<NodeID>, T: set<NodeID>, k: nat, t: NodeID)
    requires Closest(S, k, t) <= T <= S
    ensures Closest(T, k, t) == Closest(S, k, t)
  {
    forall x | x in T
      ensures x in Closest(T, k, t) <==> x in Closest(S, k, t)
    {
      RankMonotone(T, S, x, t);
      if x !in Closest(S, k, t) {
        OutrankedByClosest(S, x, k, t);
        RankMonotone(Closest(S, k, t), T, x, t);
      }
    }
  }

  /** The k closest of a subset include every member of it that is among the k closest overall. */
  lemma {:induction false} ClosestRestricts(S: set<NodeID>, T: set<NodeID>, k: nat, t: NodeID)
    requires T <= S
    ensures Closest(S, k, t) * T <= Closest(T, k, t)
  {
    forall x | x in Closest(S, k, t) * T
      ensures x in Closest(T, k, t)
    {
      RankMonotone(T, S, x, t);
    }
  }

  /** A stream needs only its k closest so far to know the k closest after one more arrival. */
  lemma {:induction false} ClosestStreams(S: set<NodeID>, x: NodeID, k: nat, t: NodeID)
    ensures Closest(Closest(S, k, t) + {x}, k, t) == Closest(S + {x}, k, t)
  {
    ClosestRestricts(S + {x}, S, k, t);
    Squeeze(S + {x}, Closest(S, k, t) + {x}, k, t);
  }

  lemma {:induction false} FewAreAllClosest(S: set<NodeID>, k: nat, t: NodeID)
    requires |S| <= k
    ensures Closest(S, k, t) == S
  {
    forall x | x in S
      ensures x in Closest(S, k, t)
    {
      SubsetSize(Closer(S, x, t), S - {x});
    }
  }

  /** There are exactly min(k, |S|) of them. */
  lemma {:induction false} ClosestCount(S: set<NodeID>, k: nat, t: NodeID)
    ensures |Closest(S, k, t)| == if |S| <= k then |S| else k
  {
    var C := Closest(S, k, t);
    if |S| <= k {
      FewAreAllClosest(S, k, t);
    } else {
      var m := Farthest(S, t);
      CloserThanFarthest(S, m, t);
      OutrankedByClosest(S, m, k, t);
      SubsetSize(Closer(C, m, t), C);
      if |C| > k {
        var f := Farthest(C, t);
        CloserThanFarthest(C, f, t);
        RankMonotone(C, S, f, t);
      }
    }
  }
}
