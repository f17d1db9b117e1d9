/** Storing a file and reading it back: when the bytes return, and why they stay. */
module RoundTrips {
  import opened Wrappers
  import opened ChunkSizes
  import opened Pieces
  import opened Stores

  /** No two of these inputs share a hash. */
  predicate CollisionFree<T(==)>(h: Bytes -> T, inputs: set<Bytes>) {
    forall a, b :: a in inputs && b in inputs && h(a) == h(b) ==> a == b
  }

  function KeyInputs(j: Job): set<Bytes> {
    set i | 0 <= i < j.count :: KeyInput(j.scheme, j.fileHash, i)
  }

  // ---------------------------------------------------------------- the pieces on disk

  lemma {:induction false} PieceAtLength(j: Job, i: nat)
    requires Complete(j) && i < j.count
    ensures i * j.chunkSize < |j.data|
    ensures |PieceAt(j, i)| == if i < j.count - 1 then j.chunkSize else |j.data| - (j.count - 1) * j.chunkSize
    ensures 0 < |PieceAt(j, i)| <= j.chunkSize < U32
  {
    PieceLength(j.data, j.chunkSize, j.count, i);
  }

  /** What reading chunk i returns: the last piece written under its key. */
  function Latest(j: Job, i: nat): Bytes
    requires i < j.count
  {
    PieceAt(j, LastUse(j, j.count, i))
  }

  /** Chunk i is referenced, registered and on disk as its key's last use left it. */
  predicate HoldsChunk(v: View, j: Job, i: nat)
    requires i < j.count
  {
    && j.fileHash in v.references
    && |v.references[j.fileHash].chunks| == j.count
    && v.references[j.fileHash].chunks[i] == Some(ChunkAt(j, LastUse(j, j.count, i)))
    && KeyAt(j, i) in v.registry && v.registry[KeyAt(j, i)] == ChunkAt(j, LastUse(j, j.count, i))
    && ChunkFile(KeyAt(j, i)) in v.files && v.files[ChunkFile(KeyAt(j, i))] == Latest(j, i)
  }

  /** The view holds what storing the job left, as far as the job's own keys and hash go. */
  predicate Holds(v: View, j: Job) {
    && j.fileHash in v.references
    && v.references[j.fileHash].meta == Meta(j)
    && |v.references[j.fileHash].chunks| == j.count
    && forall i :: 0 <= i < j.count ==> HoldsChunk(v, j, i)
  }

  lemma {:induction false} StoredHolds(v: View, j: Job)
    ensures Holds(Stored(v, j), j)
  {
    forall i | 0 <= i < j.count
      ensures HoldsChunk(Stored(v, j), j, i)
    {
      StoredChunk(v, j, i);
    }
  }

  lemma {:induction false} StoredChunk(v: View, j: Job, i: nat)
    requires i < j.count
    ensures HoldsChunk(Stored(v, j), j, i)
    ensures j.fileHash in Stored(v, j).references
    ensures Stored(v, j).references[j.fileHash].meta == Meta(j)
  {
    WithChunksKeys(v, j, j.count);
    WithChunksLast(v, j, j.count, i);
  }

  lemma {:induction false} DataOfHeld(v: View, j: Job, i: nat)
    requires Holds(v, j) && i < j.count
    ensures DataOf(v, j.hashes, KeyAt(j, i)) == Ok(Latest(j, i))
  {
    assert HoldsChunk(v, j, i);
  }

  // ---------------------------------------------------------------- the round trip

  function Latests(j: Job, m: nat): seq<Bytes>
    requires m <= j.count
  {
    seq(m, i requires 0 <= i < m => Latest(j, i))
  }

  lemma {:induction false} SmallMod(n: nat)
    requires n < U32
    ensures n % U32 == n
  {
  }

  lemma {:induction false} PieceOfHeld(v: View, j: Job, i: nat)
    requires Complete(j) && Holds(v, j) && i < j.count
    ensures PieceOf(v, j.hashes, v.references[j.fileHash], i) == Ok(Latest(j, i))
  {
    var l := LastUse(j, j.count, i);
    DataOfHeld(v, j, i);
    PieceAtLength(j, l);
    assert HoldsChunk(v, j, i);
    SmallMod(|Latest(j, i)|);
  }

  lemma {:induction false} AssembledStep(v: View, hashes: Hashes, file: FileReference, m: nat, buf: Bytes, total: nat)
    requires 0 < m <= |file.chunks| && Assembled(v, hashes, file, m - 1) == Ok((buf, total))
    ensures Assembled(v, hashes, file, m) == AssembleOne(v, hashes, file, m - 1, buf, total)
  {
  }

  lemma {:induction false} ErrorsStay(v: View, hashes: Hashes, file: FileReference, i: nat, m: nat)
    requires i <= m <= |file.chunks|
    ensures Assembled(v, hashes, file, i).Err? ==> Assembled(v, hashes, file, m) == Assembled(v, hashes, file, i)
    decreases m
  {
    if i < m {
      ErrorsStay(v, hashes, file, i, m - 1);
    }
  }

  lemma {:induction false} LatestsSnoc(j: Job, m: nat)
    requires 0 < m <= j.count
    ensures Latests(j, m) == Latests(j, m - 1) + [Latest(j, m - 1)]
  {
  }

  lemma {:induction false} AssembledSnoc(v: View, hashes: Hashes, file: FileReference, size: nat, s: seq<Bytes>, d: Bytes)
    requires |s| < |file.chunks| && |s| * file.meta.chunkSize <= size
    requires Assembled(v, hashes, file, |s|) == Ok((Lay(size, file.meta.chunkSize, s), Total(s)))
    requires PieceOf(v, hashes, file, |s|) == Ok(d)
    ensures Assembled(v, hashes, file, |s| + 1) == Ok((Lay(size, file.meta.chunkSize, s + [d]), Total(s + [d])))
  {
    LaySnoc(size, file.meta.chunkSize, s, d);
  }

  /** Reading back lays the latest pieces end to end. */
  lemma {:induction false} AssembledHeld(v: View, j: Job, m: nat)
    requires Complete(j) && Holds(v, j) && m <= j.count
    ensures Assembled(v, j.hashes, v.references[j.fileHash], m) ==
            Ok((Lay(|j.data|, j.chunkSize, Latests(j, m)), Total(Latests(j, m))))
    decreases m
  {
    var file := v.references[j.fileHash];
    if m == 0 {
      assert Assembled(v, j.hashes, file, 0) == Ok((seq(|j.data|, _ => 0), 0));
    } else {
      AssembledHeld(v, j, m - 1);
      PieceAtLength(j, m - 1);
      PieceOfHeld(v, j, m - 1);
      LatestsSnoc(j, m);
      AssembledSnoc(v, j.hashes, file, |j.data|, Latests(j, m - 1), Latest(j, m - 1));
    }
  }

  /** Every chunk still reads as itself. */
  predicate NothingOverwritten(j: Job)
  {
    forall i :: 0 <= i < j.count ==> Latest(j, i) == PieceAt(j, i)
  }

  /** Later pieces are never longer. */
  lemma {:induction false} LatestNoLonger(j: Job, i: nat)
    requires Complete(j) && i < j.count
    ensures |Latest(j, i)| <= |PieceAt(j, i)|
  {
    PieceAtLength(j, i);
    PieceAtLength(j, LastUse(j, j.count, i));
  }

  lemma {:induction false} LatestsAreFile(j: Job)
    requires Complete(j)
    ensures
      var a := Latests(j, j.count);
      Total(a) == |j.data| && Lay(|j.data|, j.chunkSize, a) == j.data <==> NothingOverwritten(j)
  {
    var a, c := Latests(j, j.count), j.chunkSize;
    forall i | 0 <= i < |a|
      ensures |a[i]| <= |Piece(j.data, c, i)|
    {
      LatestNoLonger(j, i);
    }
    LaidIsFile(j.data, c, a);
    assert forall i :: 0 <= i < |a| ==> a[i] == Latest(j, i);
    assert NothingOverwritten(j) <==> forall i :: 0 <= i < |a| ==> a[i] == Piece(j.data, c, i);
  }

  /**
    Reading a stored file back returns its bytes exactly when they are the bytes that were
    hashed and no chunk was overwritten by a later chunk of the same file.
   */
  lemma {:induction false} RoundTrip(v: View, j: Job)
    requires Complete(j) && Holds(v, j)
    ensures Reassembled(v, j.hashes, j.fileHash) == Ok(j.data)
      <==> NothingOverwritten(j) && j.fileHash == j.hashes.sha256(j.data)
  {
    AssembledHeld(v, j, j.count);
    LatestsAreFile(j);
  }

  /** And if a chunk was overwritten, the answer is an error, not other bytes. */
  lemma {:induction false} OverwrittenIsReported(v: View, j: Job)
    requires Fitting(j) && Holds(v, j) && !NothingOverwritten(j)
    requires CollisionFree(j.hashes.sha256, {j.data, Lay(j.size, j.chunkSize, Latests(j, j.count))})
    ensures Reassembled(v, j.hashes, j.fileHash).Err?
  {
    AssembledHeld(v, j, j.count);
    LatestsAreFile(j);
  }

  /** A file that changed between being hashed and being cut does not read back as anything. */
  lemma {:induction false} ChangedIsReported(v: View, j: Job, hashed: Bytes)
    requires Complete(j) && Holds(v, j) && NothingOverwritten(j)
    requires j.fileHash == j.hashes.sha256(hashed) && hashed != j.data
    requires CollisionFree(j.hashes.sha256, {hashed, j.data})
    ensures Reassembled(v, j.hashes, j.fileHash) == Err(WrongFileHash)
  {
    AssembledHeld(v, j, j.count);
    LatestsAreFile(j);
  }

  // ---------------------------------------------------------------- what is read, in plain terms

  /** These bytes are on disk where chunk i of the file is registered, and are what registry and file say. */
  predicate PieceRead(v: View, hashes: Hashes, file: FileReference, i: nat, d: Bytes)
    requires i < |file.chunks|
  {
    && file.chunks[i].Some?
    && var chunk := file.chunks[i].value;
    && chunk.key in v.registry && v.registry[chunk.key].location.Some?
    && v.registry[chunk.key].location.value in v.files && v.files[v.registry[chunk.key].location.value] == d
    && hashes.sha256(d) == v.registry[chunk.key].dataHash && hashes.sha256(d) == chunk.dataHash
    && |d| % 4294967296 == chunk.size
  }

  /**
    The pieces read are all there and as recorded, each has its place within the file's size,
    they come to that size, and laid out they are the data, which has the file's hash.
   */
  ghost predicate ReadsAs(v: View, hashes: Hashes, file: FileReference, data: Bytes) {
    exists pieces: seq<Bytes> :: PiecesRead(v, hashes, file, pieces)
      && |pieces| == |file.chunks| && Total(pieces) == file.meta.totalSize
      && data == Lay(file.meta.totalSize, file.meta.chunkSize, pieces) && hashes.sha256(data) == file.meta.fileHash
  }

  predicate PiecesRead(v: View, hashes: Hashes, file: FileReference, pieces: seq<Bytes>) {
    && |pieces| <= |file.chunks|
    && forall i :: 0 <= i < |pieces| ==>
      PieceRead(v, hashes, file, i, pieces[i]) && i * file.meta.chunkSize <= file.meta.totalSize
  }

  lemma {:induction false} PieceOfExactly(v: View, hashes: Hashes, file: FileReference, i: nat, d: Bytes)
    requires i < |file.chunks|
    ensures PieceOf(v, hashes, file, i) == Ok(d) <==> PieceRead(v, hashes, file, i, d)
  {
  }

  lemma {:induction false} AssembledFromPieces(v: View, hashes: Hashes, file: FileReference, pieces: seq<Bytes>)
    requires PiecesRead(v, hashes, file, pieces)
    ensures Assembled(v, hashes, file, |pieces|) ==
            Ok((Lay(file.meta.totalSize, file.meta.chunkSize, pieces), Total(pieces)))
    decreases |pieces|
  {
    if pieces != [] {
      var s, m := pieces[..|pieces| - 1], |pieces| - 1;
      assert forall i :: 0 <= i < m ==> PieceRead(v, hashes, file, i, pieces[i]);
      AssembledFromPieces(v, hashes, file, s);
      PieceOfExactly(v, hashes, file, m, pieces[m]);
      AssembledSnoc(v, hashes, file, file.meta.totalSize, s, pieces[m]);
      assert pieces == s + [pieces[m]];
    }
  }

  lemma {:induction false} PiecesOfAssembled(v: View, hashes: Hashes, file: FileReference, m: nat) returns (pieces: seq<Bytes>)
    requires m <= |file.chunks| && Assembled(v, hashes, file, m).Ok?
    ensures |pieces| == m && PiecesRead(v, hashes, file, pieces)
    decreases m
  {
    if m == 0 {
      pieces := [];
    } else {
      var before := PiecesOfAssembled(v, hashes, file, m - 1);
      AssembledFromPieces(v, hashes, file, before);
      var d := PieceOf(v, hashes, file, m - 1).value;
      PieceOfExactly(v, hashes, file, m - 1, d);
      pieces := before + [d];
    }
  }

  /** Reading back, in plain terms. */
  lemma {:induction false} ReadsAsExactly(v: View, hashes: Hashes, h: Hash)
    requires h in v.references
    ensures forall data :: Reassembled(v, hashes, h) == Ok(data) <==> ReadsAs(v, hashes, v.references[h], data)
  {
    var file := v.references[h];
    if Assembled(v, hashes, file, |file.chunks|).Ok? {
      var pieces := PiecesOfAssembled(v, hashes, file, |file.chunks|);
      AssembledFromPieces(v, hashes, file, pieces);
    }
    forall data | ReadsAs(v, hashes, file, data)
      ensures Reassembled(v, hashes, h) == Ok(data)
    {
      var pieces :| PiecesRead(v, hashes, file, pieces)
        && |pieces| == |file.chunks| && Total(pieces) == file.meta.totalSize
        && data == Lay(file.meta.totalSize, file.meta.chunkSize, pieces) && hashes.sha256(data) == file.meta.fileHash;
      AssembledFromPieces(v, hashes, file, pieces);
    }
  }

  // ---------------------------------------------------------------- eight-byte keys

  lemma {:induction false} LittleEndianInjective(a: nat, b: nat, n: nat)
    requires a < Pow256(n) && b < Pow256(n) && LittleEndian(a, n) == LittleEndian(b, n)
    ensures a == b
  {
    if n > 0 {
      assert LittleEndian(a, n)[0] == LittleEndian(b, n)[0];
      assert LittleEndian(a, n)[1..] == LittleEndian(a / 256, n - 1);
      assert LittleEndian(b, n)[1..] == LittleEndian(b / 256, n - 1);
      LittleEndianInjective(a / 256, b / 256, n - 1);
    }
  }

  lemma {:induction false} IndexKeysDiffer(hash: Hash, a: nat, b: nat)
    requires a < U32 && b < U32 && KeyInput(ByIndex, hash, a) == KeyInput(ByIndex, hash, b)
    ensures a == b
  {
    assert hash + LittleEndian(a, 8) == hash + LittleEndian(b, 8);
    assert LittleEndian(a, 8) == (hash + LittleEndian(a, 8))[32..] == LittleEndian(b, 8);
    assert Pow256(8) > U32 by {
      assert Pow256(2) == 65536 && Pow256(4) == 4294967296;
      assert Pow256(8) == 256 * (256 * (256 * (256 * Pow256(4))));
    }
    LittleEndianInjective(a, b, 8);
  }

  lemma {:induction false} KeyInputPresent(j: Job, i: nat)
    requires i < j.count
    ensures KeyInput(j.scheme, j.fileHash, i) in KeyInputs(j)
  {
  }

  /** A file stored by `LoadAndStoreFile` always reads back. */
  lemma {:induction false} LoadedRoundTrip(v: View, j: Job)
    requires Fitting(j) && j.scheme == ByIndex
    requires CollisionFree(j.hashes.sha1, KeyInputs(j))
    ensures Reassembled(Stored(v, j), j.hashes, j.fileHash) == Ok(j.data)
  {
    StoredHolds(v, j);
    forall i | 0 <= i < j.count
      ensures Latest(j, i) == PieceAt(j, i)
    {
      var l := LastUse(j, j.count, i);
      KeyInputPresent(j, i);
      KeyInputPresent(j, l);
      IndexKeysDiffer(j.fileHash, i, l);
    }
    RoundTrip(Stored(v, j), j);
  }

  // ---------------------------------------------------------------- one-byte keys

  /** The last chunk below n whose index is congruent to i modulo 256. */
  function LastCongruent(n: nat, i: nat): (l: nat)
    requires i < n
    ensures i <= l < n && l % 256 == i % 256 && n - l <= 256
  {
    n - 1 - (n - 1 - i) % 256
  }

  lemma {:induction false} ByteKeysCongruent(j: Job, a: nat, b: nat)
    requires j.scheme == ByByte && a < j.count && b < j.count
    requires CollisionFree(j.hashes.sha1, KeyInputs(j))
    ensures KeyAt(j, a) == KeyAt(j, b) <==> a % 256 == b % 256
  {
    KeyInputPresent(j, a);
    KeyInputPresent(j, b);
    var x, y := KeyInput(ByByte, j.fileHash, a), KeyInput(ByByte, j.fileHash, b);
    assert x[32] == (a % 256) as byte && y[32] == (b % 256) as byte;
  }

  lemma {:induction false} CongruentApart(a: nat, b: nat)
    requires a < b && a % 256 == b % 256
    ensures b - a >= 256
  {
  }

  lemma {:induction false} FewAreAlone(n: nat, i: nat)
    requires i < n <= 256
    ensures LastCongruent(n, i) == i
  {
  }

  lemma {:induction false} LastUseIsCongruent(j: Job, i: nat)
    requires j.scheme == ByByte && i < j.count
    requires CollisionFree(j.hashes.sha1, KeyInputs(j))
    ensures LastUse(j, j.count, i) == LastCongruent(j.count, i)
  {
    var l, m := LastUse(j, j.count, i), LastCongruent(j.count, i);
    ByteKeysCongruent(j, l, i);
    ByteKeysCongruent(j, m, i);
    if l > m {
      CongruentApart(m, l);
    }
  }

  /** Of each family of chunks 256 apart, all are equal to the last. */
  predicate RepeatsEvery256(j: Job)
  {
    forall i :: 0 <= i < j.count ==> PieceAt(j, i) == PieceAt(j, LastCongruent(j.count, i))
  }

  /**
    `WriteFileToDisk` keys a chunk by the low byte of its index, so every 256th chunk
    overwrites the same entry. The file reads back exactly when that does no harm.
   */
  lemma {:induction false} WrittenRoundTrip(v: View, j: Job)
    requires Fitting(j) && j.scheme == ByByte
    requires CollisionFree(j.hashes.sha1, KeyInputs(j))
    ensures Reassembled(Stored(v, j), j.hashes, j.fileHash) == Ok(j.data) <==> RepeatsEvery256(j)
    ensures j.count <= 256 ==> RepeatsEvery256(j)
  {
    StoredHolds(v, j);
    forall i | 0 <= i < j.count
      ensures Latest(j, i) == PieceAt(j, LastCongruent(j.count, i))
    {
      LastUseIsCongruent(j, i);
    }
    RoundTrip(Stored(v, j), j);
    if j.count <= 256 {
      forall i | 0 <= i < j.count
        ensures LastCongruent(j.count, i) == i
      {
        FewAreAlone(j.count, i);
      }
    }
  }

  /** 257 chunks of 64 KiB, the first all ones, the others all zeros. */
  function TwoTone(): (data: Bytes)
    ensures |data| == 257 * MIN_CHUNK_SIZE
    ensures forall i :: 0 <= i < |data| ==> data[i] == if i < MIN_CHUNK_SIZE then 1 else 0
  {
    seq(257 * MIN_CHUNK_SIZE, i => if i < MIN_CHUNK_SIZE then 1 else 0)
  }

  lemma {:induction false} SmallChunks(hashes: Hashes, name: string)
    ensures
      var j := JobFor(hashes, ByByte, name, TwoTone());
      Fitting(j) && j.chunkSize == MIN_CHUNK_SIZE && j.count == 257
  {
    var size := |TwoTone()|;
    JobForFits(hashes, ByByte, name, TwoTone());
    ChunkSizeIsNearestPower(size);
    var c, n := CalculateChunkSize(size), size / TARGET_CHUNKS;
    SquareMonotone(MIN_CHUNK_SIZE, c);
    SquareMonotone(n, 16842);
  }

  /** A file of just over 16 MiB that `WriteFileToDisk` stores and that does not read back. */
  lemma {:induction false} TwoToneIsLost(v: View, hashes: Hashes, name: string)
    requires CollisionFree(hashes.sha1, KeyInputs(JobFor(hashes, ByByte, name, TwoTone())))
    ensures
      var j := JobFor(hashes, ByByte, name, TwoTone());
      Fitting(j) && !RepeatsEvery256(j) && Reassembled(Stored(v, j), hashes, j.fileHash) != Ok(j.data)
  {
    var j := JobFor(hashes, ByByte, name, TwoTone());
    SmallChunks(hashes, name);
    PieceAtLength(j, 0);
    PieceAtLength(j, 256);
    assert LastCongruent(257, 0) == 256;
    assert PieceAt(j, 0)[0] == 1 && PieceAt(j, 256)[0] == 0;
    WrittenRoundTrip(v, j);
  }

  /** In bytes: up to 16 MiB a file that fits is cut into at most 256 chunks, and beyond into more. */
  lemma {:induction false} SafeUpTo16MiB(hashes: Hashes, name: string, data: Bytes)
    requires 0 < |data| < MAX_LENGTH && CountFits(|data|)
    ensures JobFor(hashes, ByByte, name, data).count <= 256 <==> |data| <= 16777216
  {
    JobForFits(hashes, ByByte, name, data);
    AtMost256Chunks(|data|);
  }

  // ---------------------------------------------------------------- other files

  /** Two views agree on everything but some keys and one file's record. */
  ghost predicate AgreeExcept(v: View, w: View, keys: set<Key>, hash: Hash) {
    && (forall k :: k !in keys ==> (k in v.registry <==> k in w.registry) && (k in v.registry ==> v.registry[k] == w.registry[k]))
    && (forall k :: k !in keys ==>
          && (ChunkFile(k) in v.files <==> ChunkFile(k) in w.files)
          && (ChunkFile(k) in v.files ==> v.files[ChunkFile(k)] == w.files[ChunkFile(k)]))
    && (forall h :: h != hash ==> (h in v.references <==> h in w.references) && (h in v.references ==> v.references[h] == w.references[h]))
  }

  lemma {:induction false} StoredAgrees(v: View, j: Job)
    ensures AgreeExcept(v, Stored(v, j), KeysBelow(j, j.count), j.fileHash)
  {
    var n := j.count;
    WithChunksKeys(v, j, n);
    forall k | k !in KeysBelow(j, n)
      ensures k in v.registry <==> k in WithChunks(v, j, n).registry
      ensures k in v.registry ==> v.registry[k] == WithChunks(v, j, n).registry[k]
      ensures ChunkFile(k) in v.files <==> ChunkFile(k) in WithChunks(v, j, n).files
      ensures ChunkFile(k) in v.files ==> v.files[ChunkFile(k)] == WithChunks(v, j, n).files[ChunkFile(k)]
    {
      WithChunksElsewhere(v, j, n, k);
    }
  }

  /** Changes to other keys and other records leave a held file held. */
  lemma {:induction false} HoldsElsewhere(v: View, w: View, j: Job, keys: set<Key>, hash: Hash)
    requires Holds(v, j) && AgreeExcept(v, w, keys, hash)
    requires KeysBelow(j, j.count) !! keys && hash != j.fileHash
    ensures Holds(w, j)
  {
    forall i | 0 <= i < j.count
      ensures HoldsChunk(w, j, i)
    {
      assert HoldsChunk(v, j, i);
      assert KeyAt(j, i) in KeysBelow(j, j.count);
    }
  }

  lemma {:induction false} KeyInputsOfOtherFiles(a: Scheme, h: Hash, i: nat, b: Scheme, g: Hash, k: nat)
    requires h != g
    ensures KeyInput(a, h, i) != KeyInput(b, g, k)
  {
    assert KeyInput(a, h, i)[..32] == h && KeyInput(b, g, k)[..32] == g;
  }

  lemma {:induction false} KeysDisjoint(j: Job, o: Job)
    requires j.hashes == o.hashes && j.fileHash != o.fileHash
    requires CollisionFree(j.hashes.sha1, KeyInputs(j) + KeyInputs(o))
    ensures KeysBelow(j, j.count) !! KeysBelow(o, o.count)
  {
    forall k | k in KeysBelow(j, j.count) && k in KeysBelow(o, o.count)
      ensures false
    {
      var a :| 0 <= a < j.count && KeyAt(j, a) == k;
      var b :| 0 <= b < o.count && KeyAt(o, b) == k;
      KeyInputPresent(j, a);
      KeyInputPresent(o, b);
      KeyInputsOfOtherFiles(j.scheme, j.fileHash, a, o.scheme, o.fileHash, b);
    }
  }

  function StoredAll(v: View, jobs: seq<Job>): View
    decreases |jobs|
  {
    if jobs == [] then v else StoredAll(Stored(v, jobs[0]), jobs[1..])
  }

  /**
    A file that reads back goes on reading back after any number of other files have been
    stored, by either route.
   */
  lemma {:induction false} StaysReadable(v: View, j: Job, others: seq<Job>)
    requires Fitting(j) && Holds(v, j)
    requires forall i :: 0 <= i < |others| ==>
      && others[i].hashes == j.hashes && others[i].fileHash != j.fileHash
      && CollisionFree(j.hashes.sha1, KeyInputs(j) + KeyInputs(others[i]))
    ensures Holds(StoredAll(v, others), j)
    ensures Reassembled(StoredAll(v, others), j.hashes, j.fileHash) == Ok(j.data) <==> NothingOverwritten(j)
    decreases |others|
  {
    if others == [] {
      RoundTrip(v, j);
    } else {
      var o := others[0];
      KeysDisjoint(j, o);
      StoredAgrees(v, o);
      HoldsElsewhere(v, Stored(v, o), j, KeysBelow(o, o.count), o.fileHash);
      StaysReadable(Stored(v, o), j, others[1..]);
    }
  }
}
