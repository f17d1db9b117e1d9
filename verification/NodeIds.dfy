/**
  160-bit node identifiers and the XOR metric (api/kdht_utils.go).

  An identifier is its 20 bytes, most significant first. `Distance` is the 160-bit number
  that the XOR of two identifiers denotes: the order every bucket, query and lookup sorts
  by. `PrefixLength` counts leading common bits. The methods are the scanning loops of the
  source; the lemmas are the facts about the metric that the routing table depends on.
 */
module NodeIds {
  import opened Bytes

  const KEY_BYTES: nat := 20
  const KEY_BITS: nat := 160

  type NodeID = s: seq<bv8> | |s| == KEY_BYTES witness seq(KEY_BYTES, _ => 0)

  /** Bit i of an identifier, counted from the most significant bit. */
  predicate Bit(a: NodeID, i: nat)
    requires i < KEY_BITS
  {
    TestBit(a[i / 8], i % 8)
  }

  function Bits(a: NodeID): (s: seq<bool>)
    ensures |s| == KEY_BITS
  {
    seq(KEY_BITS, i requires 0 <= i < KEY_BITS => Bit(a, i))
  }

  /** Where two identifiers differ. */
  function DiffBits(a: NodeID, b: NodeID): (s: seq<bool>)
    ensures |s| == KEY_BITS
  {
    seq(KEY_BITS, i requires 0 <= i < KEY_BITS => Bit(a, i) != Bit(b, i))
  }

  // ---------------------------------------------------------------- binary numbers

  function Pow2(n: nat): (p: nat)
    ensures p > 0
  {
    if n == 0 then 1 else 2 * Pow2(n - 1)
  }

  lemma {:induction false} Pow2Monotone(m: nat, n: nat)
    requires m <= n
    ensures Pow2(m) <= Pow2(n)
    decreases n
  {
    if m < n {
      Pow2Monotone(m, n - 1);
    }
  }

  /** The number a bit string denotes, most significant bit first. */
  function Num(s: seq<bool>): nat {
    if s == [] then 0 else (if s[0] then Pow2(|s| - 1) else 0) + Num(s[1..])
  }

  /** How many leading bits of a bit string are clear. */
  function LeadingZeros(s: seq<bool>): (n: nat)
    ensures n <= |s|
    ensures forall i :: 0 <= i < n ==> !s[i]
    ensures n < |s| ==> s[n]
  {
    if s == [] || s[0] then 0 else 1 + LeadingZeros(s[1..])
  }

  /** A number whose first set bit is bit z of w lies in [2^(w-1-z), 2^(w-z)). */
  lemma {:induction false} LeadingZerosInterval(s: seq<bool>)
    ensures Num(s) < Pow2(|s| - LeadingZeros(s))
    ensures LeadingZeros(s) < |s| ==> Pow2(|s| - 1 - LeadingZeros(s)) <= Num(s)
  {
    if s != [] {
      LeadingZerosInterval(s[1..]);
      Pow2Monotone(|s[1..]| - LeadingZeros(s[1..]), |s| - 1);
    }
  }

  /** Bit strings that agree before position i and differ at i are ordered by that bit. */
  lemma {:induction false} FirstDifferenceDecides(a: seq<bool>, b: seq<bool>, i: nat)
    requires |a| == |b| && i < |a|
    requires forall h :: 0 <= h < i ==> a[h] == b[h]
    requires !a[i] && b[i]
    ensures Num(a) < Num(b)
  {
    if i == 0 {
      LeadingZerosInterval(a[1..]);
      Pow2Monotone(|a[1..]| - LeadingZeros(a[1..]), |a| - 1);
    } else {
      assert a[1..][i - 1] == a[i] && b[1..][i - 1] == b[i];
      FirstDifferenceDecides(a[1..], b[1..], i - 1);
    }
  }

  lemma {:induction false} NumInjective(a: seq<bool>, b: seq<bool>)
    requires |a| == |b| && Num(a) == Num(b)
    ensures a == b
  {
    if a != b {
      var i :| 0 <= i < |a| && a[i] != b[i] && forall h :: 0 <= h < i ==> a[h] == b[h] by {
        LeastDifference(a, b);
      }
      if a[i] {
        FirstDifferenceDecides(b, a, i);
      } else {
        FirstDifferenceDecides(a, b, i);
      }
    }
  }

  lemma {:induction false} LeastDifference(a: seq<bool>, b: seq<bool>)
    requires |a| == |b| && a != b
    ensures exists i :: 0 <= i < |a| && a[i] != b[i] && forall h :: 0 <= h < i ==> a[h] == b[h]
  {
    var i := 0;
    while i < |a| && a[i] == b[i]
      invariant i <= |a|
      invariant forall h :: 0 <= h < i ==> a[h] == b[h]
    {
      i := i + 1;
    }
  }

  // ---------------------------------------------------------------- XOR and distance

  /** The XOR distance of two identifiers, as a number. */
  function Distance(a: NodeID, b: NodeID): nat {
    Num(DiffBits(a, b))
  }

  method XorDistance(local: NodeID, other: NodeID) returns (dist: NodeID)
    ensures Bits(dist) == DiffBits(local, other)
    ensures Num(Bits(dist)) == Distance(local, other)
  {
    dist := seq(KEY_BYTES, _ => 0);
    for i := 0 to KEY_BYTES
      invariant forall h :: 0 <= h < i ==> BitsDiffer(local[h], other[h], dist[h])
    {
      var x := local[i] ^ other[i];
      XorBits(local[i], other[i], x);
      dist := dist[i := x];
    }
    assert Bits(dist) == DiffBits(local, other);
  }

  /** The byte-wise scan decides the order of the two 160-bit numbers. */
  method LessDistance(a: NodeID, b: NodeID) returns (less: bool)
    ensures less <==> Num(Bits(a)) < Num(Bits(b))
  {
    for i := 0 to KEY_BYTES
      invariant forall h :: 0 <= h < i ==> a[h] == b[h]
    {
      if a[i] < b[i] {
        FirstByteDecides(a, b, i);
        return true;
      } else if a[i] > b[i] {
        FirstByteDecides(b, a, i);
        return false;
      }
    }
    assert a == b;
    return false;
  }

  lemma {:induction false} FirstByteDecides(a: NodeID, b: NodeID, i: nat)
    requires i < KEY_BYTES && a[i] < b[i]
    requires forall h :: 0 <= h < i ==> a[h] == b[h]
    ensures Num(Bits(a)) < Num(Bits(b))
  {
    var j := FirstDifferentBit(a[i], b[i]);
    forall h | 0 <= h < 8 * i + j
      ensures Bit(a, h) == Bit(b, h)
    {
      if h >= 8 * i {
        assert h / 8 == i && h % 8 < j;
      }
    }
    assert (8 * i + j) / 8 == i && (8 * i + j) % 8 == j;
    FirstDifferenceDecides(Bits(a), Bits(b), 8 * i + j);
  }

  method CompareXorDistance(a: NodeID, b: NodeID, target: NodeID) returns (closer: bool)
    ensures closer <==> Distance(a, target) < Distance(b, target)
  {
    var da := XorDistance(a, target);
    var db := XorDistance(b, target);
    closer := LessDistance(da, db);
  }

  lemma {:induction false} BitsDetermineID(a: NodeID, b: NodeID)
    requires forall i :: 0 <= i < KEY_BITS ==> Bit(a, i) == Bit(b, i)
    ensures a == b
  {
    forall i | 0 <= i < KEY_BYTES
      ensures a[i] == b[i]
    {
      forall j | 0 <= j < 8
        ensures TestBit(a[i], j) == TestBit(b[i], j)
      {
        assert Bit(a, 8 * i + j) == Bit(b, 8 * i + j);
        assert (8 * i + j) / 8 == i && (8 * i + j) % 8 == j;
      }
      BitsDetermineByte(a[i], b[i]);
    }
  }

  /** For a fixed target, distance tells identifiers apart: distinct identifiers never tie. */
  lemma {:induction false} DistanceInjective(a: NodeID, b: NodeID, target: NodeID)
    requires Distance(a, target) == Distance(b, target)
    ensures a == b
  {
    NumInjective(DiffBits(a, target), DiffBits(b, target));
    forall i | 0 <= i < KEY_BITS
      ensures Bit(a, i) == Bit(b, i)
    {
      assert DiffBits(a, target)[i] == DiffBits(b, target)[i];
    }
    BitsDetermineID(a, b);
  }

  lemma {:induction false} DistanceSymmetric(a: NodeID, b: NodeID)
    ensures Distance(a, b) == Distance(b, a)
  {
    assert DiffBits(a, b) == DiffBits(b, a);
  }

  // ---------------------------------------------------------------- prefix length

  /** How many leading bits two identifiers share; 160 for equal ones. */
  function PrefixLength(a: NodeID, b: NodeID): (n: nat)
    ensures n <= KEY_BITS
    ensures forall i :: 0 <= i < n ==> Bit(a, i) == Bit(b, i)
    ensures n < KEY_BITS ==> Bit(a, n) != Bit(b, n)
  {
    var d := DiffBits(a, b);
    var n := LeadingZeros(d);
    assert forall i :: 0 <= i < n ==> !d[i] && d[i] == (Bit(a, i) != Bit(b, i));
    n
  }

  lemma {:induction false} PrefixLengthAt(a: NodeID, b: NodeID, n: nat)
    requires n <= KEY_BITS
    requires forall i :: 0 <= i < n ==> Bit(a, i) == Bit(b, i)
    requires n < KEY_BITS ==> Bit(a, n) != Bit(b, n)
    ensures PrefixLength(a, b) == n
  {
    var m := PrefixLength(a, b);
    if m != n {
      assert false;
    }
  }

  lemma {:induction false} EqualBytesShareBits(a: NodeID, b: NodeID, i: nat, j: nat)
    requires i < KEY_BYTES && j <= 8
    requires forall h :: 0 <= h < i ==> a[h] == b[h]
    requires forall h :: 0 <= h < j ==> TestBit(a[i], h) == TestBit(b[i], h)
    ensures forall h :: 0 <= h < 8 * i + j ==> Bit(a, h) == Bit(b, h)
    ensures j < 8 && TestBit(a[i], j) != TestBit(b[i], j) ==> PrefixLength(a, b) == 8 * i + j
  {
    forall h | 0 <= h < 8 * i + j
      ensures Bit(a, h) == Bit(b, h)
    {
      if h >= 8 * i {
        assert h / 8 == i && h % 8 < j;
      }
    }
    if j < 8 && TestBit(a[i], j) != TestBit(b[i], j) {
      assert (8 * i + j) / 8 == i && (8 * i + j) % 8 == j;
      PrefixLengthAt(a, b, 8 * i + j);
    }
  }

  /** The byte loop, shared by `SharedPrefixLength` and `KBucketIndex`: the first differing bit, if any. */
  method FirstSetBit(local: NodeID, other: NodeID, i: nat) returns (j: nat)
    requires i < KEY_BYTES && local[i] != other[i]
    requires forall h :: 0 <= h < i ==> local[h] == other[h]
    ensures j < 8 && PrefixLength(local, other) == i * 8 + j
  {
    var x := local[i] ^ other[i];
    XorBits(local[i], other[i], x);
    for n := 0 to 8
      invariant forall h :: 0 <= h < n ==> TestBit(local[i], h) == TestBit(other[i], h)
    {
      ShiftedMaskTestsBit(x, n);
      if x & ((0x80 as bv8) >> n) != 0 {
        EqualBytesShareBits(local, other, i, n);
        return n;
      }
    }
    BitsDetermineByte(local[i], other[i]);
    assert false;
  }

  method SharedPrefixLength(local: NodeID, other: NodeID) returns (n: nat)
    ensures n == PrefixLength(local, other) <= 160
    ensures n == 160 <==> local == other
  {
    for i := 0 to KEY_BYTES
      invariant forall h :: 0 <= h < i ==> local[h] == other[h]
    {
      XorOfEqualBytes(local[i], other[i]);
      if local[i] ^ other[i] != 0 {
        var j := FirstSetBit(local, other, i);
        return i * 8 + j;
      }
    }
    assert local == other;
    PrefixLengthAt(local, other, KEY_BITS);
    return KEY_BITS;
  }

  /** The natural bucket index: the same scan, but equal identifiers answer 159. */
  method KBucketIndex(local: NodeID, other: NodeID) returns (n: nat)
    ensures n == if local == other then 159 else PrefixLength(local, other)
    ensures n < 160
  {
    for i := 0 to KEY_BYTES
      invariant forall h :: 0 <= h < i ==> local[h] == other[h]
    {
      XorOfEqualBytes(local[i], other[i]);
      if local[i] ^ other[i] != 0 {
        var j := FirstSetBit(local, other, i);
        return i * 8 + j;
      }
    }
    assert local == other;
    return KEY_BITS - 1;
  }

  lemma {:induction false} XorOfEqualBytes(x: bv8, y: bv8)
    ensures x ^ y == 0 <==> x == y
  {
  }

  // ---------------------------------------------------------------- prefix length and distance

  /** Sharing exactly i < 160 leading bits means a distance in [2^(159-i), 2^(160-i)). */
  lemma {:induction false} PrefixLengthIsDistanceScale(a: NodeID, b: NodeID, i: nat)
    requires i < 160
    ensures PrefixLength(a, b) == i <==> Pow2(159 - i) <= Distance(a, b) < Pow2(160 - i)
  {
    LeadingZerosInterval(DiffBits(a, b));
    var n := PrefixLength(a, b);
    if n < i {
      Pow2Monotone(KEY_BITS - i, KEY_BITS - 1 - n);
    } else if i < n {
      Pow2Monotone(KEY_BITS - n, KEY_BITS - 1 - i);
    }
  }

  /** The whole prefix is shared exactly by equal identifiers, the only ones at distance zero. */
  lemma {:induction false} FullPrefixIsEquality(a: NodeID, b: NodeID)
    ensures PrefixLength(a, b) == KEY_BITS <==> a == b
    ensures Distance(a, b) == 0 <==> a == b
  {
    LeadingZerosInterval(DiffBits(a, b));
    if PrefixLength(a, b) == KEY_BITS {
      BitsDetermineID(a, b);
    }
  }

  /** The longer common prefix is the smaller distance. */
  lemma {:induction false} LongerPrefixIsCloser(t: NodeID, a: NodeID, b: NodeID)
    requires PrefixLength(t, a) > PrefixLength(t, b)
    ensures Distance(a, t) < Distance(b, t)
  {
    LeadingZerosInterval(DiffBits(t, a));
    LeadingZerosInterval(DiffBits(t, b));
    DistanceSymmetric(a, t);
    DistanceSymmetric(b, t);
    Pow2Monotone(KEY_BITS - PrefixLength(t, a), KEY_BITS - 1 - PrefixLength(t, b));
  }

  /**
    The ultrametric law. Of three identifiers, two that part from the first at different
    depths part from each other at the shallower one; two that part from it at the same
    bit agree on that bit.
   */
  lemma {:induction false} PrefixUltrametric(a: NodeID, b: NodeID, c: NodeID)
    ensures PrefixLength(a, b) != PrefixLength(a, c) ==>
              PrefixLength(b, c) == if PrefixLength(a, b) < PrefixLength(a, c) then PrefixLength(a, b) else PrefixLength(a, c)
    ensures PrefixLength(a, b) == PrefixLength(a, c) < KEY_BITS ==> PrefixLength(b, c) > PrefixLength(a, b)
  {
    var m, n := PrefixLength(a, b), PrefixLength(a, c);
    if m != n {
      PrefixLengthAt(b, c, if m < n then m else n);
    } else if m < KEY_BITS {
      var p := PrefixLength(b, c);
      if p < m {
        assert false;
      }
    }
  }

  lemma {:induction false} PrefixSymmetric(a: NodeID, b: NodeID)
    ensures PrefixLength(a, b) == PrefixLength(b, a)
  {
    PrefixLengthAt(b, a, PrefixLength(a, b));
  }

  /** Only one identifier shares exactly the first 159 bits with a given one. */
  lemma {:induction false} DeepestSiblingUnique(local: NodeID, a: NodeID, b: NodeID)
    requires PrefixLength(local, a) == PrefixLength(local, b) == KEY_BITS - 1
    ensures a == b
  {
    PrefixUltrametric(local, a, b);
    FullPrefixIsEquality(a, b);
  }

  /** The identifier that differs in the last bit alone. */
  function Sibling(a: NodeID): NodeID {
    a[KEY_BYTES - 1 := a[KEY_BYTES - 1] ^ 1]
  }

  lemma {:induction false} SiblingPrefix(a: NodeID)
    ensures PrefixLength(a, Sibling(a)) == KEY_BITS - 1
  {
    var last := a[KEY_BYTES - 1];
    forall j | 0 <= j < 8
      ensures TestBit(last ^ 1, j) == (TestBit(last, j) != (j == 7))
    {
      LastBitFlipped(last, last ^ 1, j);
    }
    EqualBytesShareBits(a, Sibling(a), KEY_BYTES - 1, 7);
  }

  // ---------------------------------------------------------------- identifiers as numbers

  /** The number some bytes denote, most significant byte first. */
  function BigEndian(s: seq<bv8>): nat {
    if s == [] then 0 else BigEndian(s[..|s| - 1]) * 256 + s[|s| - 1] as nat
  }

  function ByteBits(x: bv8): (s: seq<bool>)
    ensures |s| == 8
  {
    seq(8, j requires 0 <= j < 8 => TestBit(x, j))
  }

  lemma {:induction false} NumSnoc(s: seq<bool>, b: bool)
    ensures Num(s + [b]) == 2 * Num(s) + if b then 1 else 0
  {
    if s == [] {
      assert [] + [b] == [b] && [b][1..] == [];
    } else {
      NumSnoc(s[1..], b);
      assert (s + [b])[1..] == s[1..] + [b];
    }
  }

  lemma {:induction false} NumConcat(a: seq<bool>, b: seq<bool>)
    ensures Num(a + b) == Num(a) * Pow2(|b|) + Num(b)
    decreases |b|
  {
    if b == [] {
      assert a + b == a;
    } else {
      var c, x := b[..|b| - 1], b[|b| - 1];
      NumConcat(a, c);
      assert a + b == (a + c) + [x] && b == c + [x];
      NumSnoc(a + c, x);
      NumSnoc(c, x);
      assert Num(a) * (2 * Pow2(|c|)) == 2 * (Num(a) * Pow2(|c|));
    }
  }

  lemma {:induction false} NumOfByte(x: bv8)
    ensures Num(ByteBits(x)) == x as nat
  {
    var s := ByteBits(x);
    NumOfEight(s);
    ByteAsSum(x);
  }

  lemma {:induction false} NumUpTo(s: seq<bool>, i: nat)
    requires i < |s|
    ensures Num(s[..i + 1]) == 2 * Num(s[..i]) + if s[i] then 1 else 0
  {
    assert s[..i + 1] == s[..i] + [s[i]];
    NumSnoc(s[..i], s[i]);
  }

  lemma {:induction false} NumOfFour(s: seq<bool>, i: nat)
    requires i + 4 <= |s|
    ensures Num(s[..i + 4]) == 16 * Num(s[..i]) +
      (if s[i] then 8 else 0) + (if s[i + 1] then 4 else 0) + (if s[i + 2] then 2 else 0) + (if s[i + 3] then 1 else 0)
  {
    NumUpTo(s, i);
    NumUpTo(s, i + 1);
    NumUpTo(s, i + 2);
    NumUpTo(s, i + 3);
  }

  lemma {:induction false} NumOfEight(s: seq<bool>)
    requires |s| == 8
    ensures Num(s) ==
      (if s[0] then 128 else 0) + (if s[1] then 64 else 0) + (if s[2] then 32 else 0) + (if s[3] then 16 else 0) +
      (if s[4] then 8 else 0) + (if s[5] then 4 else 0) + (if s[6] then 2 else 0) + (if s[7] then 1 else 0)
  {
    NumOfFour(s, 0);
    NumOfFour(s, 4);
    assert s[..0] == [] && s[..8] == s;
  }

  /** The bytes of an identifier, each as its bits, are its bits. */
  function BitsOfBytes(s: seq<bv8>): (r: seq<bool>)
    ensures |r| == 8 * |s|
  {
    if s == [] then [] else BitsOfBytes(s[..|s| - 1]) + ByteBits(s[|s| - 1])
  }

  lemma {:induction false} NumOfBytes(s: seq<bv8>)
    ensures Num(BitsOfBytes(s)) == BigEndian(s)
    decreases |s|
  {
    if s != [] {
      NumOfBytes(s[..|s| - 1]);
      NumConcat(BitsOfBytes(s[..|s| - 1]), ByteBits(s[|s| - 1]));
      assert Pow2(8) == 256;
      NumOfByte(s[|s| - 1]);
    }
  }

  lemma {:induction false} BitsOfBytesAt(s: seq<bv8>, i: nat)
    requires i < 8 * |s|
    ensures BitsOfBytes(s)[i] == TestBit(s[i / 8], i % 8)
    decreases |s|
  {
    if i < 8 * (|s| - 1) {
      BitsOfBytesAt(s[..|s| - 1], i);
    }
  }

  /**
    Byte by byte: an identifier's number is that of its 20 bytes, most significant first, and
    the distance of two is that of the bytes' exclusive or.
   */
  lemma {:induction false} DistanceOfBytes(a: NodeID, b: NodeID, x: NodeID)
    requires forall i :: 0 <= i < 20 ==> x[i] == a[i] ^ b[i]
    ensures Num(Bits(a)) == BigEndian(a)
    ensures Distance(a, b) == BigEndian(x)
  {
    BitsAreOfBytes(a);
    BitsAreOfBytes(x);
    NumOfBytes(a);
    NumOfBytes(x);
    forall i | 0 <= i < KEY_BITS
      ensures DiffBits(a, b)[i] == Bits(x)[i]
    {
      XorBit(a[i / 8], b[i / 8], x[i / 8], i % 8);
    }
    assert DiffBits(a, b) == Bits(x);
  }

  lemma {:induction false} BitsAreOfBytes(a: NodeID)
    ensures Bits(a) == BitsOfBytes(a)
  {
    forall i | 0 <= i < KEY_BITS
      ensures Bits(a)[i] == BitsOfBytes(a)[i]
    {
      BitsOfBytesAt(a, i);
    }
  }

  // ---------------------------------------------------------------- random identifiers

  /**
    The bytes from the one holding bit k on are drawn at random, the high bits of that byte
    are restored, and bit k is flipped. What is flipped is the drawn bit, not the local one,
    so the result differs from the local identifier in bit k exactly when the draw did not.
   */
  method RandomIDInBucket(local: NodeID, k: int, drawn: NodeID, drawFails: bool) returns (ok: bool, out: NodeID)
    ensures ok <==> 0 <= k < KEY_BITS && !drawFails
    ensures !ok ==> out == seq(KEY_BYTES, _ => 0)
    ensures ok ==> forall i :: 0 <= i < k ==> Bit(out, i) == Bit(local, i)
    ensures ok ==> Bit(out, k) == !Bit(drawn, k)
    ensures ok ==> forall i :: k < i < KEY_BITS ==> Bit(out, i) == Bit(drawn, i)
    ensures ok ==> PrefixLength(local, out) >= k
    ensures ok ==> (PrefixLength(local, out) == k <==> Bit(drawn, k) == Bit(local, k))
  {
    out := seq(KEY_BYTES, _ => 0);
    if k < 0 || k >= KEY_BITS || drawFails {
      return false, out;
    }
    var byteIdx, bit := k / 8, 7 - k % 8;
    out := local[..byteIdx] + drawn[byteIdx..];
    var mixed := MixByte(local[byteIdx], drawn[byteIdx], bit);
    out := out[byteIdx := mixed];
    forall i | 0 <= i < KEY_BITS
      ensures Bit(out, i) == if i < k then Bit(local, i) else Bit(drawn, i) != (i == k)
    {
      if i / 8 == byteIdx {
        assert TestBit(out[byteIdx], i % 8) == TestBit(mixed, i % 8);
      }
    }
    var p := PrefixLength(local, out);
    if p < k {
      assert false;
    }
    if Bit(drawn, k) == Bit(local, k) {
      PrefixLengthAt(local, out, k);
    }
    return true, out;
  }
}
