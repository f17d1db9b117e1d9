/** How a file is cut: the chunk size, the chunk count, and the pieces (storage/key_store/config.go, cache_write.go). */
module ChunkSizes {

  newtype byte = x: int | 0 <= x < 256
  type Bytes = seq<byte>

  const U32: nat := 0x1_0000_0000
  const U64: nat := 0x1_0000_0000_0000_0000
  const MIN_CHUNK_SIZE: nat := 0x1_0000
  const MAX_CHUNK_SIZE: nat := 0x40_0000
  const TARGET_CHUNKS: nat := 1000

  /** Go's slice lengths and file sizes are signed 64-bit integers. */
  const MAX_LENGTH: nat := 0x8000_0000_0000_0000

  /**
    The power of two nearest to n on a logarithmic scale, searched upwards from c: the
    first power c with log2(n) < log2(c) + 1/2, that is n * n < 2 * c * c. The square root
    of two being irrational, no n lies halfway.
   */
  function NearestPower(n: nat, c: nat): (p: nat)
    requires c > 0
    ensures p > 0
    decreases if n > c then n - c else 0
  {
    if n * n < 2 * c * c then c
    else
      RootAbove(n, c);
      NearestPower(n, 2 * c)
  }

  lemma {:induction false} SquareMonotone(a: nat, b: nat)
    requires a <= b
    ensures a * a <= b * b
  {
    assert a * a <= a * b <= b * b;
  }

  lemma {:induction false} RootAbove(n: nat, c: nat)
    requires c > 0 && n * n >= 2 * c * c
    ensures n > c && (2 * c) * (2 * c) <= 2 * n * n
  {
    if n <= c {
      SquareMonotone(n, c);
    }
    assert (2 * c) * (2 * c) == 2 * (2 * c * c);
  }

  function CalculateChunkSize(fileSize: nat): nat {
    if fileSize < MIN_CHUNK_SIZE then fileSize
    else
      var c := NearestPower(fileSize / TARGET_CHUNKS, 1);
      if c < MIN_CHUNK_SIZE then MIN_CHUNK_SIZE
      else if c > MAX_CHUNK_SIZE then MAX_CHUNK_SIZE
      else c
  }

  function CeilDiv(a: nat, b: nat): nat
    requires b > 0
  {
    (a + b - 1) / b
  }

  /** The count as computed: a 64-bit sum, a division, and a cast to 32 bits. */
  function TotalChunks(size: nat, chunkSize: nat): nat
    requires chunkSize > 0
  {
    (((size + chunkSize - 1) % U64) / chunkSize) % U32
  }

  // ---------------------------------------------------------------- chunk sizes

  predicate PowerOfTwo(c: nat) {
    c == 1 || (c > 1 && c % 2 == 0 && PowerOfTwo(c / 2))
  }

  lemma {:induction false} NearestPowerSpec(n: nat, c: nat)
    requires PowerOfTwo(c) && c > 0
    ensures PowerOfTwo(NearestPower(n, c))
    ensures n * n < 2 * NearestPower(n, c) * NearestPower(n, c)
    ensures NearestPower(n, c) == c || NearestPower(n, c) * NearestPower(n, c) <= 2 * n * n
    decreases if n > c then n - c else 0
  {
    if n * n >= 2 * c * c {
      RootAbove(n, c);
      assert (2 * c) / 2 == c && (2 * c) % 2 == 0;
      NearestPowerSpec(n, 2 * c);
    }
  }

  /**
    From 64 KiB on, the chunk size is the power of two nearest to a thousandth of the file,
    on a logarithmic scale, held between 64 KiB and 4 MiB.
   */
  lemma {:induction false} ChunkSizeIsNearestPower(size: nat)
    requires size >= 65536
    ensures
      var c, n := CalculateChunkSize(size), size / 1000;
      && PowerOfTwo(c) && 65536 <= c <= 4194304
      && (c == 4194304 || n * n < 2 * c * c)
      && (c == 65536 || c * c <= 2 * n * n)
  {
    var n := size / TARGET_CHUNKS;
    assert PowerOfTwo(1);
    NearestPowerSpec(n, 1);
    ClampsArePowers();
    var p := NearestPower(n, 1);
    if p > MAX_CHUNK_SIZE {
      SquareMonotone(MAX_CHUNK_SIZE, p);
    }
    if p < MIN_CHUNK_SIZE {
      SquareMonotone(p, MIN_CHUNK_SIZE);
    }
  }

  lemma {:induction false} ClampsArePowers()
    ensures PowerOfTwo(MIN_CHUNK_SIZE) && PowerOfTwo(MAX_CHUNK_SIZE)
  {
    assert PowerOfTwo(16) by { assert PowerOfTwo(4) by { assert PowerOfTwo(2); } assert PowerOfTwo(8); }
    assert PowerOfTwo(256) by { assert PowerOfTwo(64) by { assert PowerOfTwo(32); } assert PowerOfTwo(128); }
    assert PowerOfTwo(4096) by { assert PowerOfTwo(1024) by { assert PowerOfTwo(512); } assert PowerOfTwo(2048); }
    assert PowerOfTwo(65536) by { assert PowerOfTwo(16384) by { assert PowerOfTwo(8192); } assert PowerOfTwo(32768); }
    assert PowerOfTwo(1048576) by { assert PowerOfTwo(262144) by { assert PowerOfTwo(131072); } assert PowerOfTwo(524288); }
    assert PowerOfTwo(4194304) by { assert PowerOfTwo(2097152); }
  }

  // ---------------------------------------------------------------- chunk counts

  lemma {:induction false} CeilDivBounds(a: nat, b: nat)
    requires b > 0
    ensures a <= CeilDiv(a, b) * b < a + b
  {
    var q, r := (a + b - 1) / b, (a + b - 1) % b;
    assert a + b - 1 == q * b + r;
  }

  lemma {:induction false} ProductMonotone(a: nat, b: nat, m: nat)
    requires a <= b
    ensures a * m <= b * m
  {
  }

  lemma {:induction false} CeilDivLeast(a: nat, b: nat, m: nat)
    requires b > 0
    ensures a <= m * b ==> CeilDiv(a, b) <= m
    ensures a > m * b ==> CeilDiv(a, b) > m
  {
    CeilDivBounds(a, b);
    var q := CeilDiv(a, b);
    if q > m {
      ProductMonotone(m + 1, q, b);
      assert (m + 1) * b == m * b + b;
    } else {
      ProductMonotone(q, m, b);
    }
  }

  /** Whether the number of chunks of a file fits the 32 bits it is kept in. */
  predicate CountFits(size: nat) {
    size <= 18014398505287680
  }

  lemma {:induction false} PowerSandwich(c: nat, lo: nat)
    requires PowerOfTwo(c) && PowerOfTwo(lo) && 0 < lo <= c < 2 * lo
    ensures c == lo
  {
    if lo > 1 {
      PowerSandwich(c / 2, lo / 2);
    }
  }

  lemma {:induction false} ChunkSizeBounds(size: nat)
    requires size > 0
    ensures 0 < CalculateChunkSize(size) <= 4194304
    ensures size < 65536 ==> CalculateChunkSize(size) == size
    ensures size >= 5931642000 ==> CalculateChunkSize(size) == 4194304
  {
    if size >= MIN_CHUNK_SIZE {
      ChunkSizeIsNearestPower(size);
      var c, n := CalculateChunkSize(size), size / TARGET_CHUNKS;
      if n >= 5931642 && c < MAX_CHUNK_SIZE {
        ClampsArePowers();
        assert PowerOfTwo(MAX_CHUNK_SIZE / 2);
        if c > MAX_CHUNK_SIZE / 2 {
          PowerSandwich(c, MAX_CHUNK_SIZE / 2);
        }
        assert false by {
          SquareMonotone(c, 2097152);
          SquareMonotone(5931642, n);
        }
      }
    }
  }

  /** Which power of two it is, told from a thousandth of the file. */
  lemma {:induction false} ChunkSizeIs(size: nat, p: nat)
    requires size >= 65536 && PowerOfTwo(p) && 65536 <= p <= 4194304
    requires var n := size / 1000; (p == 65536 || p * p <= 2 * n * n) && (p == 4194304 || n * n < 2 * p * p)
    ensures CalculateChunkSize(size) == p
  {
    ChunkSizeIsNearestPower(size);
    var c, n := CalculateChunkSize(size), size / 1000;
    if c >= 2 * p {
      SquareMonotone(2 * p, c);
      assert false;
    }
    if p >= 2 * c {
      SquareMonotone(2 * c, p);
      assert false;
    }
    if c >= p {
      PowerSandwich(c, p);
    } else {
      PowerSandwich(p, c);
    }
  }

  lemma {:induction false} PowersOfTwo()
    ensures PowerOfTwo(65536) && PowerOfTwo(131072) && PowerOfTwo(262144) && PowerOfTwo(524288)
    ensures PowerOfTwo(1048576) && PowerOfTwo(2097152) && PowerOfTwo(4194304)
  {
    ClampsArePowers();
    assert PowerOfTwo(131072);
    assert PowerOfTwo(262144);
    assert PowerOfTwo(524288);
    assert PowerOfTwo(1048576);
    assert PowerOfTwo(2097152);
  }

  /** The chunk size of every file, in numbers. */
  lemma {:induction false} ChunkSizeTable(size: nat)
    ensures CalculateChunkSize(size) ==
      if size < 65536 then size
      else if size < 92682000 then 65536
      else if size < 185364000 then 131072
      else if size < 370728000 then 262144
      else if size < 741456000 then 524288
      else if size < 1482911000 then 1048576
      else if size < 2965821000 then 2097152
      else 4194304
  {
    if size >= 65536 {
      var n := size / 1000;
      PowersOfTwo();
      if size < 92682000 { SquareMonotone(n, 92681); ChunkSizeIs(size, 65536); }
      else if size < 185364000 { SquareMonotone(92682, n); SquareMonotone(n, 185363); ChunkSizeIs(size, 131072); }
      else if size < 370728000 { SquareMonotone(185364, n); SquareMonotone(n, 370727); ChunkSizeIs(size, 262144); }
      else if size < 741456000 { SquareMonotone(370728, n); SquareMonotone(n, 741455); ChunkSizeIs(size, 524288); }
      else if size < 1482911000 { SquareMonotone(741456, n); SquareMonotone(n, 1482910); ChunkSizeIs(size, 1048576); }
      else if size < 2965821000 { SquareMonotone(1482911, n); SquareMonotone(n, 2965820); ChunkSizeIs(size, 2097152); }
      else { SquareMonotone(2965821, n); ChunkSizeIs(size, 4194304); }
    }
  }

  lemma {:induction false} ScaledSquare(a: nat, n: nat, b: nat, c: nat)
    requires a * n >= b * c
    ensures (a * a) * (n * n) >= (b * b) * (c * c)
  {
    assert (a * n) * (a * n) >= (a * n) * (b * c) >= (b * c) * (b * c);
    assert (a * n) * (a * n) == (a * a) * (n * n);
    assert (b * c) * (b * c) == (b * b) * (c * c);
  }

  /** Below the size at which 4 MiB chunks become too small, a file has at most 1415 chunks. */
  lemma {:induction false} AtMost1415Chunks(size: nat)
    requires 0 < size < 5931642000
    ensures CalculateChunkSize(size) > 0 && CeilDiv(size, CalculateChunkSize(size)) <= 1415
  {
    ChunkSizeBounds(size);
    var c, n := CalculateChunkSize(size), size / TARGET_CHUNKS;
    SquareMonotone(n, 5931641);
    if size >= MIN_CHUNK_SIZE && size > 1415 * c {
      TooFewForSquare(size, n, c);
      ChunkSizeIsNearestPower(size);
    }
    CeilDivLeast(size, c, 1415);
  }

  lemma {:induction false} TooFewForSquare(size: nat, n: nat, c: nat)
    requires n == size / TARGET_CHUNKS && c >= MIN_CHUNK_SIZE && size > 1415 * c
    ensures n * n >= 2 * c * c
  {
    assert 1000 * n + 999 >= size;
    assert 100000 * n >= 141498 * c;
    ScaledSquare(100000, n, 141498, c);
    assert 2 * c * c == 2 * (c * c);
  }

  /** When neither clamp applies, it has at least 708. */
  lemma {:induction false} AtLeast708Chunks(size: nat)
    requires size >= MIN_CHUNK_SIZE
    requires MIN_CHUNK_SIZE <= NearestPower(size / TARGET_CHUNKS, 1) <= MAX_CHUNK_SIZE
    ensures CeilDiv(size, CalculateChunkSize(size)) >= 708
  {
    var c, n := CalculateChunkSize(size), size / TARGET_CHUNKS;
    assert PowerOfTwo(1);
    NearestPowerSpec(n, 1);
    assert 2 * n * n == 2 * (n * n);
    SquareMonotone(1, c);
    if 707 * c >= 1000 * n {
      ScaledSquare(707, c, 1000, n);
      assert false;
    }
    CeilDivLeast(size, c, 707);
  }

  /** A file has at most 256 chunks exactly up to 16 MiB. */
  lemma {:induction false} AtMost256Chunks(size: nat)
    requires size > 0
    ensures CalculateChunkSize(size) > 0
    ensures CeilDiv(size, CalculateChunkSize(size)) <= 256 <==> size <= 16777216
  {
    ChunkSizeBounds(size);
    var c, n := CalculateChunkSize(size), size / TARGET_CHUNKS;
    CeilDivLeast(size, c, 256);
    if size >= MIN_CHUNK_SIZE {
      ChunkSizeIsNearestPower(size);
      if size > 256 * MIN_CHUNK_SIZE && size <= 256 * c {
        SquareMonotone(1, c);
        ScaledSquare(256, c, 1000, n);
      }
    }
  }

  lemma {:induction false} CountBelowCast(size: nat)
    requires size > 0
    ensures CalculateChunkSize(size) > 0
    ensures CeilDiv(size, CalculateChunkSize(size)) < U32 <==> CountFits(size)
  {
    ChunkSizeBounds(size);
    if size < 5931642000 {
      AtMost1415Chunks(size);
    } else {
      CeilDivLeast(size, MAX_CHUNK_SIZE, U32 - 1);
    }
  }

  /**
    The chunk count is exact precisely for files whose count fits; past that the cast drops
    a multiple of 2^32.
   */
  lemma {:induction false} CountExact(size: nat)
    requires 0 < size < MAX_LENGTH
    ensures CalculateChunkSize(size) > 0
    ensures TotalChunks(size, CalculateChunkSize(size)) == CeilDiv(size, CalculateChunkSize(size)) % 4294967296
    ensures TotalChunks(size, CalculateChunkSize(size)) == CeilDiv(size, CalculateChunkSize(size)) <==> CountFits(size)
    ensures CountFits(size) <==> size <= 4294967295 * 4194304
  {
    CountBelowCast(size);
    ChunkSizeBounds(size);
    var c := CalculateChunkSize(size);
    CountCast(CeilDiv(size, c));
    assert (size + c - 1) % U64 == size + c - 1;
  }

  lemma {:induction false} CountCast(n: nat)
    ensures n % U32 == n <==> n < U32
  {
  }
}
