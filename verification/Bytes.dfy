/** Bytes as eight bits, most significant first: the bit-vector facts everything else rests on. */
module Bytes {

  /** Bit j of a byte, counted from the most significant one. */
  predicate TestBit(x: bv8, j: nat)
    requires j < 8
  {
    match j
    case 0 => x & 0x80 != 0
    case 1 => x & 0x40 != 0
    case 2 => x & 0x20 != 0
    case 3 => x & 0x10 != 0
    case 4 => x & 0x08 != 0
    case 5 => x & 0x04 != 0
    case 6 => x & 0x02 != 0
    case _ => x & 0x01 != 0
  }

  lemma {:induction false} ShiftedMaskTestsBit(x: bv8, j: nat)
    requires j < 8
    ensures x & ((0x80 as bv8) >> j) != 0 <==> TestBit(x, j)
  {
  }

  /** A byte is the sum of its bits' weights. */
  lemma {:induction false} ByteAsSum(x: bv8)
    ensures x as nat ==
      (if TestBit(x, 0) then 128 else 0) + (if TestBit(x, 1) then 64 else 0) + (if TestBit(x, 2) then 32 else 0) +
      (if TestBit(x, 3) then 16 else 0) + (if TestBit(x, 4) then 8 else 0) + (if TestBit(x, 5) then 4 else 0) +
      (if TestBit(x, 6) then 2 else 0) + (if TestBit(x, 7) then 1 else 0)
  {
  }

  lemma {:induction false} XorBit(x: bv8, y: bv8, z: bv8, j: nat)
    requires j < 8 && z == x ^ y
    ensures TestBit(z, j) <==> TestBit(x, j) != TestBit(y, j)
  {
    match j {
      case 0 => case 1 => case 2 => case 3 => case 4 => case 5 => case 6 => case _ =>
    }
  }

  /** Byte z has exactly the bits in which x and y differ. */
  predicate BitsDiffer(x: bv8, y: bv8, z: bv8) {
    forall j :: 0 <= j < 8 ==> (TestBit(z, j) <==> TestBit(x, j) != TestBit(y, j))
  }

  lemma {:induction false} XorBits(x: bv8, y: bv8, z: bv8)
    requires z == x ^ y
    ensures BitsDiffer(x, y, z)
  {
    forall j | 0 <= j < 8
      ensures TestBit(z, j) <==> TestBit(x, j) != TestBit(y, j)
    {
      XorBit(x, y, z, j);
    }
  }

  lemma {:induction false} BitsDetermineByte(x: bv8, y: bv8)
    requires forall j :: 0 <= j < 8 ==> TestBit(x, j) == TestBit(y, j)
    ensures x == y
  {
    assert TestBit(x, 0) == TestBit(y, 0) && TestBit(x, 1) == TestBit(y, 1);
    assert TestBit(x, 2) == TestBit(y, 2) && TestBit(x, 3) == TestBit(y, 3);
    assert TestBit(x, 4) == TestBit(y, 4) && TestBit(x, 5) == TestBit(y, 5);
    assert TestBit(x, 6) == TestBit(y, 6) && TestBit(x, 7) == TestBit(y, 7);
  }

  lemma {:induction false} ZeroByteHasNoBits(x: bv8)
    ensures x == 0 <==> forall j :: 0 <= j < 8 ==> !TestBit(x, j)
  {
    if forall j :: 0 <= j < 8 ==> !TestBit(x, j) {
      BitsDetermineByte(x, 0);
    }
  }

  /** Two bytes are ordered by the first bit they differ in. */
  lemma {:induction false} FirstDifferentBit(x: bv8, y: bv8) returns (j: nat)
    requires x < y
    ensures j < 8 && !TestBit(x, j) && TestBit(y, j)
    ensures forall h :: 0 <= h < j ==> TestBit(x, h) == TestBit(y, h)
  {
    j := 0;
    while j < 8 && TestBit(x, j) == TestBit(y, j)
      invariant j <= 8
      invariant forall h :: 0 <= h < j ==> TestBit(x, h) == TestBit(y, h)
    {
      j := j + 1;
    }
    if j == 8 {
      BitsDetermineByte(x, y);
    } else {
      HigherBitsDecide(x, y, j);
    }
  }

  lemma {:induction false} HigherBitsDecide(x: bv8, y: bv8, j: nat)
    requires x < y && j < 8 && TestBit(x, j) != TestBit(y, j)
    requires forall h :: 0 <= h < j ==> TestBit(x, h) == TestBit(y, h)
    ensures TestBit(y, j)
  {
    assert j > 0 ==> TestBit(x, 0) == TestBit(y, 0);
    assert j > 1 ==> TestBit(x, 1) == TestBit(y, 1);
    assert j > 2 ==> TestBit(x, 2) == TestBit(y, 2);
    assert j > 3 ==> TestBit(x, 3) == TestBit(y, 3);
    assert j > 4 ==> TestBit(x, 4) == TestBit(y, 4);
    assert j > 5 ==> TestBit(x, 5) == TestBit(y, 5);
    assert j > 6 ==> TestBit(x, 6) == TestBit(y, 6);
  }

  lemma {:induction false} AndBit(x: bv8, y: bv8, z: bv8, j: nat)
    requires j < 8 && z == x & y
    ensures TestBit(z, j) <==> TestBit(x, j) && TestBit(y, j)
  {
    match j {
      case 0 => case 1 => case 2 => case 3 => case 4 => case 5 => case 6 => case _ =>
    }
  }

  lemma {:induction false} OrBit(x: bv8, y: bv8, z: bv8, j: nat)
    requires j < 8 && z == x | y
    ensures TestBit(z, j) <==> TestBit(x, j) || TestBit(y, j)
  {
    match j {
      case 0 => case 1 => case 2 => case 3 => case 4 => case 5 => case 6 => case _ =>
    }
  }

  lemma {:induction false} NotBit(x: bv8, z: bv8, j: nat)
    requires j < 8 && z == !x
    ensures TestBit(z, j) <==> !TestBit(x, j)
  {
    match j {
      case 0 => case 1 => case 2 => case 3 => case 4 => case 5 => case 6 => case _ =>
    }
  }

  /** The mask of the k highest bits, and the mask of bit k alone. */
  lemma {:induction false} MaskBits(k: nat, high: bv8, one: bv8, j: nat)
    requires k < 8 && j < 8 && high == (0xFF as bv8) << (8 - k) && one == (1 as bv8) << (7 - k)
    ensures TestBit(high, j) <==> j < k
    ensures TestBit(one, j) <==> j == k
  {
    match k {
      case 0 => case 1 => case 2 => case 3 => case 4 => case 5 => case 6 => case _ =>
    }
  }

  lemma {:induction false} LastBitFlipped(x: bv8, y: bv8, j: nat)
    requires j < 8 && y == x ^ 1
    ensures TestBit(y, j) <==> TestBit(x, j) != (j == 7)
  {
    MaskBits(7, 0xFE, 1, j);
    XorBit(x, 1, y, j);
  }

  lemma {:induction false} MixedBit(local: bv8, drawn: bv8, highMask: bv8, one: bv8, mixed: bv8, k: nat, j: nat)
    requires k < 8 && j < 8 && highMask == (0xFF as bv8) << (8 - k) && one == (1 as bv8) << (7 - k)
    requires mixed == ((drawn & !highMask) | (local & highMask)) ^ one
    ensures TestBit(mixed, j) <==> if j < k then TestBit(local, j) else TestBit(drawn, j) != (j == k)
  {
    var low, high := drawn & !highMask, local & highMask;
    MaskBits(k, highMask, one, j);
    NotBit(highMask, !highMask, j);
    AndBit(drawn, !highMask, low, j);
    AndBit(local, highMask, high, j);
    OrBit(low, high, low | high, j);
    XorBit(low | high, one, mixed, j);
  }

  lemma {:induction false} MixedBits(local: bv8, drawn: bv8, highMask: bv8, one: bv8, mixed: bv8, bit: nat)
    requires bit < 8 && highMask == (0xFF as bv8) << (bit + 1) && one == (1 as bv8) << bit
    requires mixed == ((drawn & !highMask) | (local & highMask)) ^ one
    ensures forall j :: 0 <= j < 8 ==>
      (TestBit(mixed, j) <==> if j < 7 - bit then TestBit(local, j) else TestBit(drawn, j) != (j == 7 - bit))
  {
    var k := 7 - bit;
    assert 8 - k == bit + 1 && 7 - k == bit;
    forall j | 0 <= j < 8
      ensures TestBit(mixed, j) <==> if j < k then TestBit(local, j) else TestBit(drawn, j) != (j == k)
    {
      MixedBit(local, drawn, highMask, one, mixed, k, j);
    }
  }

  /** The drawn byte with the bits above `bit` restored to the local ones and bit `bit` flipped. */
  method MixByte(local: bv8, drawn: bv8, bit: nat) returns (mixed: bv8)
    requires bit < 8
    ensures forall j :: 0 <= j < 8 ==>
      (TestBit(mixed, j) <==> if j < 7 - bit then TestBit(local, j) else TestBit(drawn, j) != (j == 7 - bit))
  {
    var highMask: bv8 := (0xFF as bv8) << (bit + 1);
    var one: bv8 := (1 as bv8) << bit;
    mixed := (drawn & !highMask) | (local & highMask);
    mixed := mixed ^ one;
    MixedBits(local, drawn, highMask, one, mixed, bit);
  }
}
