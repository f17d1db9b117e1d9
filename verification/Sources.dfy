/**
  A file on disk as `LoadAndStoreFile` meets it (storage/key_store/disk_read.go): measured,
  then hashed, then read a buffer at a time. It may change or shrink between these, and any
  read may fail.
 */
module Sources {
  import opened ChunkSizes
  import opened Pieces
  import opened Stores

  /**
    Whether the file could be opened, measured, hashed and rewound; the size it was said to
    have; the bytes that were hashed; the bytes there were when it came to reading chunks;
    and the chunks at which a read fails outright.
   */
  datatype Source = Source(opens: bool, size: nat, hashed: Bytes, bytes: Bytes, fails: nat -> bool)

  /** The bytes the n reads ask for: n - 1 full buffers, then what remains, cast to 32 bits. */
  function Asked(size: nat, c: nat, n: nat): nat {
    if n == 0 then 0 else (n - 1) * c + (size - (n - 1) * c) % U32
  }

  /** What there is to store of a source. */
  function JobFrom(hashes: Hashes, name: string, s: Source): Job
    requires s.size > 0
  {
    ChunkSizeBounds(s.size);
    var c := CalculateChunkSize(s.size);
    var n := TotalChunks(s.size, c);
    Job(hashes, ByIndex, name, hashes.sha256(s.hashed), s.size, c, n, s.bytes[..Min(|s.bytes|, Asked(s.size, c, n))])
  }

  /** Chunk i can be read, at least in part. */
  predicate Readable(s: Source, c: nat, i: nat) {
    !s.fails(i) && i * c < |s.bytes|
  }

  lemma {:induction false} CastOfProduct(m: nat, c: nat, r: nat)
    requires r < U32
    ensures (m * U32 * c + r) % U32 == r
  {
    assert m * U32 * c == (m * c) * U32;
  }

  /** Short of a multiple of 2^32 chunks, what remains for the last read is the last piece. */
  lemma {:induction false} AskedBytes(size: nat, c: nat, n: nat)
    requires size > 0 && 0 < c < U32 && n == CeilDiv(size, c) % U32
    ensures n == 0 || (n - 1) * c < size
    ensures Asked(size, c, n) <= size
    ensures n > 0 ==> 0 < (size - (n - 1) * c) % U32 <= c
    ensures n == CeilDiv(size, c) ==> Asked(size, c, n) == size
  {
    var N := CeilDiv(size, c);
    CeilDivBounds(size, c);
    if n > 0 {
      var m := N / U32;
      assert N == m * U32 + n;
      var last := size - (N - 1) * c;
      assert (N - 1) * c == m * U32 * c + (n - 1) * c;
      assert N * c == (N - 1) * c + c;
      assert 0 < last <= c;
      assert size - (n - 1) * c == m * U32 * c + last;
      CastOfProduct(m, c, last);
    }
  }

  /** Everything is there to be stored exactly when the count fits and the file has not shrunk. */
  lemma {:induction false} JobFromFits(hashes: Hashes, name: string, s: Source)
    requires 0 < s.size < MAX_LENGTH
    ensures
      var j := JobFrom(hashes, name, s);
      && Storable(j)
      && (Complete(j) <==> CountFits(s.size) && s.size <= |s.bytes|)
  {
    CountExact(s.size);
    ChunkSizeBounds(s.size);
    var c := CalculateChunkSize(s.size);
    AskedBytes(s.size, c, TotalChunks(s.size, c));
  }

  lemma {:induction false} CompleteSource(hashes: Hashes, name: string, s: Source)
    requires 0 < s.size < MAX_LENGTH && Complete(JobFrom(hashes, name, s))
    ensures s.size <= |s.bytes| && JobFrom(hashes, name, s).data == s.bytes[..s.size]
  {
    JobFromFits(hashes, name, s);
  }

  /** A source that stays as it was measured is stored as the file it is. */
  lemma {:induction false} SteadySource(hashes: Hashes, name: string, s: Source)
    requires 0 < s.size < MAX_LENGTH && CountFits(s.size)
    requires s.hashed == s.bytes && |s.bytes| == s.size
    ensures JobFrom(hashes, name, s) == JobFor(hashes, ByIndex, name, s.bytes)
  {
    CountExact(s.size);
    ChunkSizeBounds(s.size);
    AskedBytes(s.size, CalculateChunkSize(s.size), TotalChunks(s.size, CalculateChunkSize(s.size)));
    assert s.bytes[..s.size] == s.bytes;
  }

  /** The number of bytes the i-th read asks for, `total` bytes into the file. */
  function ReadSize(j: Job, i: nat, total: nat): nat {
    if i == j.count - 1 then (j.size - total) % U32 else j.chunkSize
  }

  /**
    A buffer at a time and then the rest is the same as slicing. A read finds nothing exactly
    when the file has shrunk to its start or below, and only then can it ask for more than
    the buffer holds.
   */
  lemma {:induction false} StreamedPiece(hashes: Hashes, name: string, s: Source, i: nat)
    requires 0 < s.size < MAX_LENGTH && i < JobFrom(hashes, name, s).count
    ensures
      var j := JobFrom(hashes, name, s);
      var total := Min(i * j.chunkSize, |j.data|);
      var n := ReadSize(j, i, total);
      && total <= |s.bytes| && total <= s.size
      && (n <= j.chunkSize ==> s.bytes[total..Min(total + n, |s.bytes|)] == PieceAt(j, i))
      && (n > j.chunkSize ==> |s.bytes| < i * j.chunkSize)
      && (PieceAt(j, i) != [] <==> i * j.chunkSize < |s.bytes|)
      && i * j.chunkSize < s.size
  {
    JobFromFits(hashes, name, s);
    var j := JobFrom(hashes, name, s);
    var c, n := j.chunkSize, j.count;
    AskedBytes(s.size, c, n);
    if i < n - 1 {
      IndexBelow(i, n - 1, c);
    }
    ProductMonotone(i, n - 1, c);
    StreamedBytes(s.bytes, s.size, c, n, i);
  }

  lemma {:induction false} StreamedBytes(bytes: Bytes, size: nat, c: nat, n: nat, i: nat)
    requires c > 0 && i < n
    requires var rest := (size - (n - 1) * c) % U32; 0 < rest <= c
    requires i < n - 1 ==> i * c + c <= (n - 1) * c
    requires i * c <= (n - 1) * c < size
    ensures
      var data := bytes[..Min(|bytes|, Asked(size, c, n))];
      var total := Min(i * c, |data|);
      var want := if i == n - 1 then (size - total) % U32 else c;
      && total <= |bytes|
      && (want <= c ==> bytes[total..Min(total + want, |bytes|)] == Piece(data, c, i))
      && (want > c ==> |bytes| < i * c)
      && (Piece(data, c, i) != [] <==> i * c < |bytes|)
  {
  }

  /** A source that opens, has not shrunk, and can be read throughout, with a count that fits. */
  predicate Steady(s: Source, count: nat) {
    && s.opens && CountFits(s.size) && s.size <= |s.bytes|
    && forall i :: 0 <= i < count ==> !s.fails(i)
  }

  predicate AllReadable(s: Source, c: nat, i: nat) {
    forall h :: 0 <= h < i ==> Readable(s, c, h)
  }

  /** Chunk i is the first that cannot be read. */
  predicate FirstUnreadable(s: Source, c: nat, i: nat) {
    AllReadable(s, c, i) && !Readable(s, c, i)
  }

  lemma {:induction false} SteadyIsReadable(hashes: Hashes, name: string, s: Source)
    requires 0 < s.size < MAX_LENGTH
    ensures
      var j := JobFrom(hashes, name, s);
      Steady(s, j.count) <==> s.opens && Complete(j) && AllReadable(s, j.chunkSize, j.count)
  {
    var j := JobFrom(hashes, name, s);
    JobFromFits(hashes, name, s);
    forall i | 0 <= i < j.count
      ensures i * j.chunkSize < s.size
    {
      StreamedPiece(hashes, name, s, i);
    }
    if Steady(s, j.count) {
      forall i | 0 <= i < j.count
        ensures Readable(s, j.chunkSize, i)
      {
        assert i * j.chunkSize < s.size;
      }
    } else if s.opens && Complete(j) {
      var i :| 0 <= i < j.count && s.fails(i);
      assert !Readable(s, j.chunkSize, i);
    }
  }
}
