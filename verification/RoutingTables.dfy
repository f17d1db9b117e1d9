/**
  The routing table and its buckets as the objects of network/routing: slices that are
  appended to, sorted and cut in place, and a bucket list that grows by splitting. Every
  method is proved to compute the corresponding operation of module Tables on the value
  the object stands for, in every state the object can be in.
 */
module RoutingTables {
  import opened NodeIds
  import opened Contacts
  import T = Tables
  import Q = Queries

  // ---------------------------------------------------------------- list facts

  lemma {:induction false} WithoutAt(s: seq<Contact>, id: NodeID, i: nat)
    requires i < |s| && s[i].id == id
    requires forall j :: 0 <= j < i ==> s[j].id != id
    ensures Without(s, id) == s[..i] + s[i + 1..]
  {
    if i > 0 {
      WithoutAt(s[1..], id, i - 1);
      assert s[..i] + s[i + 1..] == [s[0]] + (s[1..][..i - 1] + s[1..][i..]);
    }
  }

  lemma {:induction false} WithoutAbsent(s: seq<Contact>, id: NodeID)
    requires forall j :: 0 <= j < |s| ==> s[j].id != id
    ensures Without(s, id) == s
  {
    if s != [] {
      WithoutAbsent(s[1..], id);
    }
  }

  lemma {:induction false} SelectSnoc(s: seq<Contact>, c: Contact, local: Contact, d: nat, exactly: bool)
    ensures T.Select(s + [c], local, d, exactly) ==
            T.Select(s, local, d, exactly) + if (T.Depth(local, c.id) == d) == exactly then [c] else []
  {
    if s == [] {
      assert s + [c] == [c];
      assert [c][1..] == [];
    } else {
      var first := if (T.Depth(local, s[0].id) == d) == exactly then [s[0]] else [];
      var last := if (T.Depth(local, c.id) == d) == exactly then [c] else [];
      var middle := T.Select(s[1..], local, d, exactly);
      SelectSnoc(s[1..], c, local, d, exactly);
      var r := s + [c];
      assert r[1..] == s[1..] + [c] && r[0] == s[0];
      assert T.Select(r, local, d, exactly) == first + (middle + last);
      assert first + (middle + last) == (first + middle) + last;
    }
  }

  lemma {:induction false} SelectNext(s: seq<Contact>, i: nat, local: Contact, d: nat)
    requires i < |s|
    ensures T.Select(s[..i + 1], local, d, true) == T.Select(s[..i], local, d, true) + if T.Depth(local, s[i].id) == d then [s[i]] else []
    ensures T.Select(s[..i + 1], local, d, false) == T.Select(s[..i], local, d, false) + if T.Depth(local, s[i].id) == d then [] else [s[i]]
  {
    assert s[..i + 1] == s[..i] + [s[i]];
    SelectSnoc(s[..i], s[i], local, d, true);
    SelectSnoc(s[..i], s[i], local, d, false);
  }

  lemma {:induction false} SelectStrict(s: seq<Contact>, local: Contact, d: nat, exactly: bool)
    requires StrictlyOrdered(s, local.id)
    ensures StrictlyOrdered(T.Select(s, local, d, exactly), local.id)
  {
    if s != [] {
      T.SubrangeStrict(s, 1, |s|, local.id);
      assert s[1..|s|] == s[1..];
      SelectStrict(s[1..], local, d, exactly);
      T.SelectMembers(s[1..], local, d, exactly);
      var r := T.Select(s[1..], local, d, exactly);
      forall j | 0 <= j < |r|
        ensures Distance(s[0].id, local.id) < Distance(r[j].id, local.id)
      {
        assert r[j] in s[1..];
        var h :| 0 <= h < |s[1..]| && s[1..][h] == r[j];
        T.HeadIsClosest(s, local.id, h + 1);
      }
      FrontStrict(s[0], r, local.id);
    }
  }

  lemma {:induction false} FlattenSnoc(bs: seq<T.Bucket>, b: T.Bucket)
    ensures Q.Flatten(bs + [b]) == Q.Flatten(bs) + b.peers
  {
    if bs == [] {
      assert bs + [b] == [b];
      assert Q.Flatten([b]) == b.peers + Q.Flatten([]);
    } else {
      FlattenSnoc(bs[1..], b);
      assert (bs + [b])[1..] == bs[1..] + [b];
    }
  }

  lemma {:induction false} GatherSnoc(s: seq<Contact>, c: Contact, local: NodeID, seen: set<NodeID>)
    ensures Q.Gather(s + [c], local, seen) ==
            Q.Gather(s, local, seen) +
            if c.id == local || c.id in seen || T.ContainsId(Q.Gather(s, local, seen), c.id) then [] else [c]
  {
    if s == [] {
      assert s + [c] == [c];
      assert [c][1..] == [];
    } else {
      assert (s + [c])[1..] == s[1..] + [c];
      if s[0].id == local || s[0].id in seen {
        GatherSnoc(s[1..], c, local, seen);
      } else {
        GatherSnoc(s[1..], c, local, seen + {s[0].id});
        var r := Q.Gather(s[1..], local, seen + {s[0].id});
        assert T.ContainsId([s[0]] + r, c.id) <==> s[0].id == c.id || T.ContainsId(r, c.id) by {
          if i :| 0 <= i < |r| && r[i].id == c.id {
            assert ([s[0]] + r)[i + 1].id == c.id;
          }
          assert ([s[0]] + r)[0].id == s[0].id;
        }
      }
    }
  }

  // ---------------------------------------------------------------- buckets

  class KBucket {
    const router: RoutingTable
    const depth: nat
    var isFull: bool
    var peers: seq<Contact>

    constructor (router: RoutingTable, depth: nat)
      ensures this.router == router
      ensures View() == T.Bucket(depth, false, [])
    {
      this.router := router;
      this.depth := depth;
      isFull := false;
      peers := [];
    }

    function View(): T.Bucket
      reads this
    {
      T.Bucket(depth, isFull, peers)
    }

    /** No identifier twice, nearest to the local node first. */
    ghost predicate Valid()
      reads this
    {
      StrictlyOrdered(peers, router.local.id)
    }

    method UpdateFull()
      modifies this`isFull
      ensures View() == T.MakeBucket(depth, peers, router.k)
      ensures isFull <==> |peers| >= router.k
    {
      if |peers| < router.k {
        isFull := false;
      } else {
        isFull := true;
      }
    }

    method ContainsContact(c: Contact) returns (found: bool)
      ensures found <==> T.ContainsId(peers, c.id)
    {
      for i := 0 to |peers|
        invariant forall j :: 0 <= j < i ==> peers[j].id != c.id
      {
        if peers[i].id == c.id {
          return true;
        }
      }
      return false;
    }

    method Insert(c: Contact) returns (stored: bool)
      requires Valid()
      modifies this
      ensures View() == T.InsertInto(old(View()), c, router.local, router.k)
      ensures Valid()
      ensures stored <==> T.ContainsId(peers, c.id)
    {
      ghost var was := peers;
      peers := DropFirst(peers, c.id);
      peers := peers + [c];
      ghost var unsorted := peers;
      peers := SortSlice(peers, router.local.id);
      InsertionSorts(was, unsorted, peers, c);
      if |peers| > router.k {
        peers := peers[..router.k];
      }
      UpdateFull();
      InsertedSpec(was, c, router.k, router.local.id);
      stored := ContainsContact(c);
    }

    /** The list without its first entry for an identifier, if it has one. */
    static method DropFirst(s: seq<Contact>, id: NodeID) returns (r: seq<Contact>)
      ensures r == Without(s, id)
    {
      for i := 0 to |s|
        invariant forall j :: 0 <= j < i ==> s[j].id != id
      {
        if s[i].id == id {
          WithoutAt(s, id, i);
          return s[..i] + s[i + 1..];
        }
      }
      WithoutAbsent(s, id);
      return s;
    }

    /** The library's arrangement of the list is the only one: identifiers differ, so nothing ties. */
    lemma {:induction false} InsertionSorts(was: seq<Contact>, unsorted: seq<Contact>, r: seq<Contact>, c: Contact)
      requires StrictlyOrdered(was, router.local.id)
      requires unsorted == Without(was, c.id) + [c]
      requires Ordered(r, router.local.id) && multiset(r) == multiset(unsorted)
      ensures r == Sorted(unsorted, router.local.id)
    {
      var t := router.local.id;
      WithoutSpec(was, c.id, t);
      forall i | 0 <= i < |Without(was, c.id)|
        ensures Without(was, c.id)[i].id != c.id
      {
        assert Without(was, c.id)[i] in Elems(Without(was, c.id));
      }
      SortedStrict(unsorted, t);
      SortedSpec(unsorted, t);
      StrictOrderUnique(Sorted(unsorted, t), r, t);
    }

    method Remove(c: Contact) returns (removed: bool)
      requires Valid()
      modifies this
      ensures View() == T.RemoveFrom(old(View()), c.id, router.k)
      ensures Valid()
      ensures removed <==> old(T.ContainsId(peers, c.id))
    {
      for i := 0 to |peers|
        invariant forall j :: 0 <= j < i ==> peers[j].id != c.id
        invariant peers == old(peers) && isFull == old(isFull)
      {
        if peers[i].id == c.id {
          WithoutAt(peers, c.id, i);
          WithoutSpec(peers, c.id, router.local.id);
          peers := peers[..i] + peers[i + 1..];
          UpdateFull();
          return true;
        }
      }
      return false;
    }

    /** Halves a bucket that holds the local node; any other bucket is handed back whole. */
    method Split() returns (left: KBucket, right: KBucket?)
      requires Valid()
      ensures right == null <==> !T.ContainsId(peers, router.local.id)
      ensures right == null ==> left == this
      ensures right != null ==>
        && fresh(left) && fresh(right) && left != right
        && left.router == router && right.router == router
        && left.Valid() && right.Valid()
        && left.View() == T.SplitLeft(View(), router.local, router.k)
        && right.View() == T.SplitRight(View(), router.local, router.k)
    {
      var found := ContainsContact(router.local);
      if !found {
        return this, null;
      }
      var l := new KBucket(router, depth);
      var r := new KBucket(router, depth + 1);
      var all := peers;
      for i := 0 to |all|
        invariant l.peers == T.Select(all[..i], router.local, depth, true)
        invariant r.peers == T.Select(all[..i], router.local, depth, false)
      {
        var c := all[i];
        SelectNext(all, i, router.local, depth);
        var d := SharedPrefixLength(router.local.id, c.id);
        if d == depth {
          l.peers := l.peers + [c];
        } else {
          r.peers := r.peers + [c];
        }
      }
      assert all[..|all|] == all;
      SelectStrict(all, router.local, depth, true);
      SelectStrict(all, router.local, depth, false);
      l.UpdateFull();
      r.UpdateFull();
      return l, r;
    }
  }

  // ---------------------------------------------------------------- the table

  class RoutingTable {
    const local: Contact
    const k: nat
    const alpha: nat
    var buckets: seq<KBucket>

    function View(): T.Table
      reads this, buckets
    {
      T.Table(local, k, seq(|buckets|, i requires 0 <= i < |buckets| reads this, buckets => buckets[i].View()))
    }

    ghost predicate Owned()
      reads this, buckets
    {
      && (forall i :: 0 <= i < |buckets| ==> buckets[i].router == this && buckets[i].Valid())
      && (forall i, j :: 0 <= i < j < |buckets| ==> buckets[i] != buckets[j])
    }

    ghost predicate Valid()
      reads this, buckets
    {
      Owned() && T.Shape(View())
    }

    constructor (localNode: Contact, k: nat, alpha: nat)
      ensures local == localNode && this.k == k && this.alpha == alpha
      ensures Valid() && fresh(buckets)
      ensures View() == T.New(localNode, k)
    {
      local := localNode;
      this.k := k;
      this.alpha := alpha;
      buckets := [];
      new;
      var outcome := Update(localNode);
    }

    /** The split arm of `Update`: the deepest bucket gives way to its two halves. */
    method SplitDeepest() returns (split: bool)
      requires Valid() && |buckets| < KEY_BITS
      modifies this`buckets
      ensures Valid()
      ensures split <==> T.ContainsId(old(T.Deepest(View())).peers, local.id)
      ensures !split ==> buckets == old(buckets) && View() == old(View())
      ensures split ==> View() == T.Grown(old(View()))
      ensures forall b :: b in buckets ==> b in old(buckets) || fresh(b)
    {
      ghost var was := View();
      var bucketIndex := |buckets| - 1;
      assert T.Deepest(was) == buckets[bucketIndex].View();
      var left, right := buckets[bucketIndex].Split();
      if right == null {
        return false;
      }
      assert buckets[bucketIndex].depth == bucketIndex;
      buckets := buckets[..bucketIndex] + [left, right];
      assert View().buckets == T.Grown(was).buckets;
      return true;
    }

    /** The insert arm of `Update`: only the chosen bucket changes. */
    method InsertAt(i: nat, c: Contact)
      requires Valid() && i < |buckets|
      modifies buckets[i]
      ensures Valid()
      ensures View() == T.Put(old(View()), i, T.InsertInto(old(View()).buckets[i], c, local, k))
    {
      ghost var was := View();
      var stored := buckets[i].Insert(c);
      assert forall j :: 0 <= j < |buckets| && j != i ==> buckets[j].View() == was.buckets[j];
      assert View().buckets == T.Put(was, i, T.InsertInto(was.buckets[i], c, local, k)).buckets;
    }

    method InsertFirst(c: Contact)
      requires buckets == [] && c == local
      modifies this`buckets
      ensures Valid() && |buckets| == 1 && fresh(buckets[0])
      ensures View() == T.New(local, k)
    {
      var bucket := new KBucket(this, 0);
      var stored := bucket.Insert(c);
      buckets := buckets + [bucket];
      assert View().buckets == T.New(local, k).buckets;
    }

    /**
      What `Update` does while it holds the table lock, on a table that has buckets: settle
      what is to become of the contact, and split the deepest bucket if it is in the way.
     */
    method LockedStep(c: Contact) returns (decision: T.Decision)
      requires Valid()
      modifies this`buckets
      ensures Valid()
      ensures decision == T.Decide(old(View()), c)
      ensures decision.Split? ==> View() == T.Grown(old(View()))
      ensures !decision.Split? ==> buckets == old(buckets) && View() == old(View())
      ensures forall b :: b in buckets ==> b in old(buckets) || fresh(b)
    {
      if local.id == c.id {
        return T.Ignore;
      }
      var bucketIndex := SharedPrefixLength(local.id, c.id);
      var size := |buckets|;
      if bucketIndex >= size {
        bucketIndex := if size - 1 > 0 then size - 1 else 0;
      }
      var bucket := buckets[bucketIndex];
      assert View().buckets[bucketIndex] == bucket.View();
      if bucketIndex == size - 1 && bucket.depth < KEY_BITS - 1 && bucket.isFull {
        var split := SplitDeepest();
        return if split then T.Split else T.CannotSplit;
      }
      return T.Insert(bucketIndex);
    }

    method Update(c: Contact) returns (outcome: T.Outcome)
      requires Valid() || (buckets == [] && c == local)
      modifies this`buckets, buckets
      ensures Valid()
      ensures forall b :: b in buckets ==> b in old(buckets) || fresh(b)
      ensures old(buckets) == [] ==> View() == T.New(local, k)
      ensures old(buckets) != [] ==> (View(), outcome) == T.Update(old(View()), c)
    {
      if |buckets| == 0 && c.id == local.id {
        InsertFirst(c);
        return T.Updated;
      }
      while true
        invariant Valid()
        invariant forall b :: b in buckets ==> b in old(buckets) || fresh(b)
        invariant T.Update(View(), c) == T.Update(old(View()), c)
        decreases KEY_BITS - |buckets|
      {
        ghost var t := View();
        var decision := LockedStep(c);
        match decision {
          case Ignore => return T.Updated;
          case CannotSplit => return T.NoSplitError;
          case Split => assert |View().buckets| == |t.buckets| + 1;
          case Insert(i) =>
            assert buckets[i] in buckets;
            InsertAt(i, c);
            return T.Updated;
        }
      }
    }

    method Remove(c: Contact)
      requires Valid()
      modifies buckets
      ensures Valid() && buckets == old(buckets)
      ensures View() == T.Remove(old(View()), c.id)
    {
      ghost var was := View();
      var bucketIndex := KBucketIndex(local.id, c.id);
      var n := |buckets|;
      if bucketIndex < 0 {
        bucketIndex := 0;
      } else if bucketIndex >= n {
        bucketIndex := n - 1;
      }
      var removed := buckets[bucketIndex].Remove(c);
      assert forall j :: 0 <= j < n && j != bucketIndex ==> buckets[j].View() == was.buckets[j];
      assert View().buckets == T.Remove(was, c.id).buckets;
    }

    method ClosestK(target: NodeID) returns (all: seq<Contact>)
      requires Valid()
      ensures all == Q.ClosestK(View(), target)
    {
      all := CollectOthers(target);
      Q.GatherDistinct(Q.Flatten(View().buckets), local.id, {});
      SortedStrict(all, target);
      SortedSpec(all, target);
      var sorted := SortSlice(all, target);
      StrictOrderUnique(Sorted(all, target), sorted, target);
      all := sorted;
      if |all| > k {
        all := all[..k];
      }
    }

    /** Every peer of every bucket, but neither the local node nor an identifier seen before. */
    method CollectOthers(target: NodeID) returns (all: seq<Contact>)
      requires Valid()
      ensures all == Q.Gather(Q.Flatten(View().buckets), local.id, {})
    {
      all := [];
      var distances: map<NodeID, NodeID> := map[];
      ghost var bs := View().buckets;
      for i := 0 to |buckets|
        invariant all == Q.Gather(Q.Flatten(bs[..i]), local.id, {})
        invariant distances.Keys == Ids(Elems(all))
      {
        all, distances := CollectBucket(buckets[i].peers, target, all, distances, Q.Flatten(bs[..i]));
        FlattenSnoc(bs[..i], bs[i]);
        assert bs[..i + 1] == bs[..i] + [bs[i]];
      }
      assert bs[..|bs|] == bs;
    }

    method CollectBucket(peers: seq<Contact>, target: NodeID, before: seq<Contact>, distancesBefore: map<NodeID, NodeID>, ghost done: seq<Contact>)
      returns (all: seq<Contact>, distances: map<NodeID, NodeID>)
      requires before == Q.Gather(done, local.id, {}) && distancesBefore.Keys == Ids(Elems(before))
      ensures all == Q.Gather(done + peers, local.id, {}) && distances.Keys == Ids(Elems(all))
    {
      all, distances := before, distancesBefore;
      assert done + peers[..0] == done;
      for j := 0 to |peers|
        invariant all == Q.Gather(done + peers[..j], local.id, {})
        invariant distances.Keys == Ids(Elems(all))
      {
        var c := peers[j];
        GatherSnoc(done + peers[..j], c, local.id, {});
        ElemsIds(all, c.id);
        assert done + peers[..j + 1] == (done + peers[..j]) + [c];
        if local.id != c.id && c.id !in distances {
          IdsSnoc(all, c);
          all := all + [c];
          var d := XorDistance(c.id, target);
          distances := distances[c.id := d];
        }
      }
      assert peers[..|peers|] == peers;
    }
  }
}
