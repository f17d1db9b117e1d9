/**
  The record a successful store returns, in plain terms: what it says of the file, and of each
  chunk where its bytes begin, how many there are, what they hash to, and how its key came
  about (storage/key_store/disk_write.go, key_store.go).
 */
module StoreRecords {
  import opened Wrappers
  import opened ChunkSizes
  import opened Pieces
  import opened Stores
  import opened StoreOutcomes

  /** The size, the name, the cut, and as many chunks as it takes. */
  predicate MetaSays(file: FileReference, hash: Hash, size: nat, name: string) {
    var n, c := |file.chunks|, file.meta.chunkSize;
    && file.meta.fileHash == hash && file.meta.totalSize == size && file.meta.fileName == name
    && file.meta.totalChunks == n && c == CalculateChunkSize(size)
    && (n - 1) * c < size <= n * c
  }

  /** A chunk record describes the slice of the bytes at its own index. */
  predicate ChunkSays(chunk: FileChunk, hashes: Hashes, name: string, bytes: Bytes, c: nat) {
    var start := chunk.fileIndex * c;
    var end := if start + c < |bytes| then start + c else |bytes|;
    && start < end <= |bytes|
    && chunk.size == end - start && chunk.dataHash == hashes.sha256(bytes[start..end])
    && chunk.fileName == name && chunk.protocol == "file" && chunk.location == Some(ChunkFile(chunk.key))
  }

  /** The key is SHA-1 of the file hash and the low byte of the index. */
  predicate ByteKey(hashes: Hashes, hash: Hash, i: nat, key: Key) {
    key == hashes.sha1(hash + [(i % 256) as byte])
  }

  /** The key is SHA-1 of 40 bytes: the file hash, then the index, least significant byte first. */
  ghost predicate IndexKey(hashes: Hashes, hash: Hash, i: nat, key: Key) {
    exists input: Bytes ::
      && |input| == 40 && input[..32] == hash && key == hashes.sha1(input)
      && forall h :: 0 <= h < 8 ==> input[32 + h] as nat == (i / Pow256(h)) % 256
  }

  /**
    The record `WriteFileToDisk` returns. Where later chunks have the same key, the chunk
    recorded is the last of them.
   */
  ghost predicate SlicedRecord(file: FileReference, hashes: Hashes, name: string, data: Bytes) {
    && MetaSays(file, hashes.sha256(data), |data|, name)
    && forall i :: 0 <= i < |file.chunks| ==>
      && file.chunks[i].Some?
      && var chunk := file.chunks[i].value;
      && ChunkSays(chunk, hashes, name, data, file.meta.chunkSize) && i <= chunk.fileIndex < |file.chunks|
      && ByteKey(hashes, hashes.sha256(data), i, chunk.key) && ByteKey(hashes, hashes.sha256(data), chunk.fileIndex, chunk.key)
      && forall m :: chunk.fileIndex < m < |file.chunks| ==> !ByteKey(hashes, hashes.sha256(data), m, chunk.key)
  }

  /** The record `LoadAndStoreFile` returns for a file of a hash and a size, and the bytes that were read. */
  ghost predicate StreamedRecord(file: FileReference, hashes: Hashes, name: string, hash: Hash, size: nat, bytes: Bytes) {
    && size <= |bytes| && MetaSays(file, hash, size, name)
    && forall i :: 0 <= i < |file.chunks| ==>
      && file.chunks[i].Some?
      && var chunk := file.chunks[i].value;
      && ChunkSays(chunk, hashes, name, bytes[..size], file.meta.chunkSize) && i <= chunk.fileIndex < |file.chunks|
      && IndexKey(hashes, hash, i, chunk.key) && IndexKey(hashes, hash, chunk.fileIndex, chunk.key)
  }

  /** The record is in memory and on disk, and every chunk it lists is registered and on disk with its length and hash. */
  ghost predicate InPlace(w: View, hashes: Hashes, file: FileReference) {
    && file.meta.fileHash in w.references && w.references[file.meta.fileHash] == file
    && MetaFile(file.meta.fileHash) in w.records && w.records[MetaFile(file.meta.fileHash)] == file
    && forall i :: 0 <= i < |file.chunks| ==>
      && file.chunks[i].Some?
      && var chunk := file.chunks[i].value;
      && chunk.key in w.registry && w.registry[chunk.key] == chunk
      && ChunkFile(chunk.key) in w.files
      && |w.files[ChunkFile(chunk.key)]| == chunk.size && hashes.sha256(w.files[ChunkFile(chunk.key)]) == chunk.dataHash
  }

  // ---------------------------------------------------------------- proofs

  lemma {:induction false} KeyIsIndexKey(j: Job, i: nat)
    requires j.scheme == ByIndex
    ensures IndexKey(j.hashes, j.fileHash, i, KeyAt(j, i))
  {
    var input := KeyInput(ByIndex, j.fileHash, i);
    forall h | 0 <= h < 8
      ensures input[32 + h] as nat == (i / Pow256(h)) % 256
    {
      LittleEndianByte(i, 8, h);
    }
    assert input[..32] == j.fileHash;
  }

  /** The record of a complete job, entry by entry. */
  lemma {:induction false} EntryOf(v: View, j: Job, i: nat)
    requires i < j.count
    ensures |FinalRecord(v, j).chunks| == j.count
    ensures FinalRecord(v, j).chunks[i] == Some(ChunkAt(j, LastUse(j, j.count, i)))
  {
    WithChunksKeys(v, j, j.count);
    WithChunksLast(v, j, j.count, i);
  }

  lemma {:induction false} ChunkOfJobSays(j: Job, l: nat)
    requires Complete(j) && l < j.count
    ensures ChunkSays(ChunkAt(j, l), j.hashes, j.name, j.data, j.chunkSize)
  {
    PieceLength(j.data, j.chunkSize, j.count, l);
  }

  lemma {:induction false} MetaOfJobSays(v: View, j: Job)
    requires Complete(j) && j.chunkSize == CalculateChunkSize(j.size)
    ensures MetaSays(FinalRecord(v, j), j.fileHash, j.size, j.name)
  {
    WithChunksKeys(v, j, j.count);
    CeilDivBounds(j.size, j.chunkSize);
  }

  lemma {:induction false} ByteKeyIs(j: Job, i: nat, key: Key)
    requires j.scheme == ByByte
    ensures ByteKey(j.hashes, j.fileHash, i, key) <==> key == KeyAt(j, i)
  {
  }

  lemma {:induction false} SlicedEntry(v: View, j: Job, i: nat)
    requires Complete(j) && j.scheme == ByByte && i < j.count
    ensures
      var l := LastUse(j, j.count, i);
      var chunk := ChunkAt(j, l);
      && |FinalRecord(v, j).chunks| == j.count
      && FinalRecord(v, j).chunks[i] == Some(chunk)
      && ChunkSays(chunk, j.hashes, j.name, j.data, j.chunkSize) && i <= chunk.fileIndex < j.count
      && ByteKey(j.hashes, j.fileHash, i, chunk.key) && ByteKey(j.hashes, j.fileHash, chunk.fileIndex, chunk.key)
      && forall m :: chunk.fileIndex < m < j.count ==> !ByteKey(j.hashes, j.fileHash, m, chunk.key)
  {
    var l := LastUse(j, j.count, i);
    EntryOf(v, j, i);
    ChunkOfJobSays(j, l);
    ByteKeyIs(j, i, KeyAt(j, l));
    ByteKeyIs(j, l, KeyAt(j, l));
    forall m | l < m < j.count
      ensures !ByteKey(j.hashes, j.fileHash, m, KeyAt(j, l))
    {
      ByteKeyIs(j, m, KeyAt(j, l));
    }
  }

  lemma {:induction false} SlicedRecordOf(v: View, j: Job)
    requires Complete(j) && j.scheme == ByByte && j.chunkSize == CalculateChunkSize(j.size)
    requires j.fileHash == j.hashes.sha256(j.data)
    ensures SlicedRecord(FinalRecord(v, j), j.hashes, j.name, j.data)
  {
    var file := FinalRecord(v, j);
    MetaOfJobSays(v, j);
    forall i | 0 <= i < |file.chunks|
      ensures file.chunks[i].Some?
      ensures
        var chunk := file.chunks[i].value;
        && ChunkSays(chunk, j.hashes, j.name, j.data, file.meta.chunkSize) && i <= chunk.fileIndex < |file.chunks|
        && ByteKey(j.hashes, j.fileHash, i, chunk.key) && ByteKey(j.hashes, j.fileHash, chunk.fileIndex, chunk.key)
        && forall m :: chunk.fileIndex < m < |file.chunks| ==> !ByteKey(j.hashes, j.fileHash, m, chunk.key)
    {
      SlicedEntry(v, j, i);
    }
  }

  lemma {:induction false} StreamedRecordOf(v: View, j: Job, hash: Hash, bytes: Bytes)
    requires Complete(j) && j.scheme == ByIndex && j.chunkSize == CalculateChunkSize(j.size)
    requires j.fileHash == hash && j.size <= |bytes| && j.data == bytes[..j.size]
    ensures StreamedRecord(FinalRecord(v, j), j.hashes, j.name, hash, j.size, bytes)
  {
    var file := FinalRecord(v, j);
    MetaOfJobSays(v, j);
    forall i | 0 <= i < |file.chunks|
      ensures file.chunks[i] == Some(ChunkAt(j, LastUse(j, j.count, i)))
      ensures ChunkSays(ChunkAt(j, LastUse(j, j.count, i)), j.hashes, j.name, bytes[..j.size], j.chunkSize)
      ensures IndexKey(j.hashes, hash, i, KeyAt(j, i)) && IndexKey(j.hashes, hash, LastUse(j, j.count, i), KeyAt(j, i))
    {
      EntryOf(v, j, i);
      ChunkOfJobSays(j, LastUse(j, j.count, i));
      KeyIsIndexKey(j, i);
      KeyIsIndexKey(j, LastUse(j, j.count, i));
    }
  }

  lemma {:induction false} ReportedInPlace(v: View, w: View, j: Job, file: FileReference, removesWork: bool)
    requires StoreOutcome(v, w, j, Ok(file), removesWork)
    ensures InPlace(w, j.hashes, file)
  {
    forall i | 0 <= i < |file.chunks|
      ensures file.chunks[i] == Some(ChunkAt(j, LastUse(j, j.count, i)))
      ensures KeyAt(j, i) in w.registry && w.registry[KeyAt(j, i)] == ChunkAt(j, LastUse(j, j.count, i))
      ensures Verified(w, j.hashes, KeyAt(j, i))
    {
      EntryOf(v, j, i);
      WithChunksLast(v, j, j.count, i);
      assert KeyAt(j, i) in KeysBelow(j, j.count);
    }
  }
}
