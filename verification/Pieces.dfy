/** Cutting a file at multiples of the chunk size, and putting the pieces back. */
module Pieces {
  import opened ChunkSizes

  function Min(a: nat, b: nat): nat {
    if a < b then a else b
  }

  /** Bytes i * c up to (i + 1) * c, as far as there are any. */
  function Piece(data: Bytes, c: nat, i: nat): Bytes {
    data[Min(i * c, |data|)..Min(i * c + c, |data|)]
  }

  function Concat(pieces: seq<Bytes>): Bytes {
    if pieces == [] then [] else Concat(pieces[..|pieces| - 1]) + pieces[|pieces| - 1]
  }

  function Cut(data: Bytes, c: nat, n: nat): seq<Bytes> {
    seq(n, i requires 0 <= i < n => Piece(data, c, i))
  }

  lemma {:induction false} StepProduct(i: nat, c: nat)
    ensures (i + 1) * c == i * c + c
  {
  }

  lemma {:induction false} IndexBelow(i: nat, n: nat, c: nat)
    requires i < n
    ensures i * c + c <= n * c
  {
    ProductMonotone(i + 1, n, c);
    StepProduct(i, c);
  }

  /**
    The pieces tile the file: all are full but the last, and the last is not empty. Their
    number is the rounded-up quotient.
   */
  lemma {:induction false} PieceLength(data: Bytes, c: nat, n: nat, i: nat)
    requires c > 0 && n == CeilDiv(|data|, c) && i < n
    ensures i * c < |data|
    ensures |Piece(data, c, i)| == if i < n - 1 then c else |data| - (n - 1) * c
    ensures 0 < |Piece(data, c, i)| <= c
  {
    CeilDivBounds(|data|, c);
    StepProduct(n - 1, c);
    if i < n - 1 {
      IndexBelow(i, n - 1, c);
    }
  }

  lemma {:induction false} FrontConcat(data: Bytes, c: nat, m: nat)
    requires c > 0
    ensures Concat(Cut(data, c, m)) == data[..Min(m * c, |data|)]
    decreases m
  {
    if m > 0 {
      FrontConcat(data, c, m - 1);
      assert Cut(data, c, m)[..m - 1] == Cut(data, c, m - 1);
      StepProduct(m - 1, c);
    }
  }

  /** Joined again, they are the file. */
  lemma {:induction false} PiecesTile(data: Bytes, c: nat)
    requires c > 0
    ensures Concat(Cut(data, c, CeilDiv(|data|, c))) == data
  {
    var n := CeilDiv(|data|, c);
    CeilDivBounds(|data|, c);
    FrontConcat(data, c, n);
    assert data[..|data|] == data;
  }

  // ---------------------------------------------------------------- writing into a buffer

  /** Go's copy(buf[start:], d): as much of d as there is room for. */
  function CopyAt(buf: Bytes, start: nat, d: Bytes): (r: Bytes)
    requires start <= |buf|
    ensures |r| == |buf|
  {
    var m := Min(|d|, |buf| - start);
    buf[..start] + d[..m] + buf[start + m..]
  }

  function Total(s: seq<Bytes>): nat {
    if s == [] then 0 else Total(s[..|s| - 1]) + |s[|s| - 1]|
  }

  /** A buffer with each piece copied in at its place, one multiple of c after another. */
  function Lay(size: nat, c: nat, s: seq<Bytes>): (r: Bytes)
    ensures |r| == size
  {
    if s == [] then seq(size, _ => 0)
    else CopyAt(Lay(size, c, s[..|s| - 1]), Min((|s| - 1) * c, size), s[|s| - 1])
  }

  lemma {:induction false} LaySnoc(size: nat, c: nat, s: seq<Bytes>, d: Bytes)
    requires |s| * c <= size
    ensures Lay(size, c, s + [d]) == CopyAt(Lay(size, c, s), |s| * c, d)
    ensures Total(s + [d]) == Total(s) + |d|
  {
    assert (s + [d])[..|s|] == s;
  }

  lemma {:induction false} ConcatLength(s: seq<Bytes>)
    ensures |Concat(s)| == Total(s)
  {
    if s != [] {
      ConcatLength(s[..|s| - 1]);
    }
  }

  lemma {:induction false} TotalOfCut(data: Bytes, c: nat, m: nat)
    requires c > 0
    ensures Total(Cut(data, c, m)) == Min(m * c, |data|)
  {
    FrontConcat(data, c, m);
    ConcatLength(Cut(data, c, m));
  }

  predicate SameLengths(a: seq<Bytes>, b: seq<Bytes>) {
    |a| == |b| && forall i :: 0 <= i < |a| ==> |a[i]| == |b[i]|
  }

  /** A piece replaced by a shorter one shows in the byte count. */
  lemma {:induction false} TotalShows(a: seq<Bytes>, b: seq<Bytes>)
    requires |a| == |b| && forall i :: 0 <= i < |a| ==> |a[i]| <= |b[i]|
    ensures Total(a) <= Total(b)
    ensures Total(a) == Total(b) <==> SameLengths(a, b)
    decreases |a|
  {
    if a != [] {
      var p, q, n := a[..|a| - 1], b[..|b| - 1], |a| - 1;
      TotalShows(p, q);
      assert forall i :: 0 <= i < n ==> p[i] == a[i] && q[i] == b[i];
      if SameLengths(p, q) && |a[n]| == |b[n]| {
        assert forall i :: 0 <= i < n ==> |a[i]| == |p[i]|;
      }
      if SameLengths(a, b) {
        assert forall i :: 0 <= i < n ==> |p[i]| == |a[i]|;
      }
    }
  }

  lemma {:induction false} CopyExtends(buf: Bytes, s: nat, d: Bytes)
    requires s + |d| <= |buf|
    ensures CopyAt(buf, s, d)[..s + |d|] == buf[..s] + d
  {
  }

  lemma {:induction false} SameLengthsBefore(data: Bytes, c: nat, a: seq<Bytes>)
    requires a != [] && SameLengths(a, Cut(data, c, |a|))
    ensures SameLengths(a[..|a| - 1], Cut(data, c, |a| - 1)) && |a[|a| - 1]| == |Piece(data, c, |a| - 1)|
  {
    var m := |a|;
    assert forall i :: 0 <= i < m - 1 ==> Cut(data, c, m)[i] == Cut(data, c, m - 1)[i] && |a[..m - 1][i]| == |a[i]|;
    assert Cut(data, c, m)[m - 1] == Piece(data, c, m - 1);
  }

  /** Pieces of the right lengths laid at multiples of c join up. */
  lemma {:induction false} LayJoins(data: Bytes, c: nat, a: seq<Bytes>)
    requires c > 0 && |a| <= CeilDiv(|data|, c) && SameLengths(a, Cut(data, c, |a|))
    ensures Total(a) <= |data| && Lay(|data|, c, a)[..Total(a)] == Concat(a)
    decreases |a|
  {
    var m := |a|;
    TotalOfCut(data, c, m);
    TotalShows(a, Cut(data, c, m));
    if m > 0 {
      var p := a[..m - 1];
      SameLengthsBefore(data, c, a);
      LayJoins(data, c, p);
      TotalOfCut(data, c, m - 1);
      TotalShows(p, Cut(data, c, m - 1));
      CopyExtends(Lay(|data|, c, p), Total(p), a[m - 1]);
    }
  }

  lemma {:induction false} ConcatInjective(a: seq<Bytes>, b: seq<Bytes>)
    requires SameLengths(a, b) && Concat(a) == Concat(b)
    ensures a == b
    decreases |a|
  {
    if a != [] {
      var p, q := a[..|a| - 1], b[..|b| - 1];
      var x, y := a[|a| - 1], b[|b| - 1];
      assert |x| == |y|;
      var n := |Concat(a)| - |x|;
      assert Concat(p) == Concat(a)[..n] == Concat(b)[..n] == Concat(q);
      assert x == Concat(a)[n..] == Concat(b)[n..] == y;
      assert forall i :: 0 <= i < |p| ==> p[i] == a[i] && q[i] == b[i];
      ConcatInjective(p, q);
      assert a == p + [x] && b == q + [y];
    }
  }

  lemma {:induction false} CutIs(data: Bytes, c: nat, a: seq<Bytes>)
    ensures (forall i :: 0 <= i < |a| ==> a[i] == Piece(data, c, i)) <==> a == Cut(data, c, |a|)
  {
    var b := Cut(data, c, |a|);
    assert forall i :: 0 <= i < |a| ==> b[i] == Piece(data, c, i);
  }

  /** A whole buffer laid from pieces of the right lengths is the file exactly when they are its own. */
  lemma {:induction false} LaidWhole(data: Bytes, c: nat, a: seq<Bytes>)
    requires c > 0 && |a| == CeilDiv(|data|, c) && SameLengths(a, Cut(data, c, |a|))
    requires Total(a) == |data|
    ensures Lay(|data|, c, a) == data <==> a == Cut(data, c, |a|)
  {
    LayJoins(data, c, a);
    PiecesTile(data, c);
    assert Lay(|data|, c, a)[..|data|] == Lay(|data|, c, a);
    if Lay(|data|, c, a) == data {
      ConcatInjective(a, Cut(data, c, |a|));
    }
  }

  /**
    A buffer laid from pieces no longer than the file's own is complete, and equal to the
    file, exactly when the pieces are the file's own.
   */
  lemma {:induction false} LaidIsFile(data: Bytes, c: nat, a: seq<Bytes>)
    requires c > 0 && |a| == CeilDiv(|data|, c)
    requires forall i :: 0 <= i < |a| ==> |a[i]| <= |Piece(data, c, i)|
    ensures Total(a) == |data| && Lay(|data|, c, a) == data <==> forall i :: 0 <= i < |a| ==> a[i] == Piece(data, c, i)
  {
    CutIs(data, c, a);
    TotalShows(a, Cut(data, c, |a|));
    TotalOfCut(data, c, |a|);
    CeilDivBounds(|data|, c);
    if SameLengths(a, Cut(data, c, |a|)) {
      LaidWhole(data, c, a);
    }
  }
}
