/**
  The key store as the object of storage/key_store: chunks are written, read back and
  checked one by one, registered in memory, and taken out again when a store fails.
 */
module KeyStores {
  import opened Wrappers
  import opened ChunkSizes
  import opened Pieces
  import opened Stores
  import opened Sources
  import opened StoreOutcomes
  import opened Disks
  import opened StoreFates
  import opened StoreRecords
  import RT = RoundTrips

  /** A chunk record keyed by its content, until `UpdateKey` keys it by file and index. */
  function NewFileChunk(hashes: Hashes, data: Bytes, protocol: string): FileChunk {
    FileChunk(hashes.sha1(data), "", |data| % U32, 0, None, protocol, hashes.sha256(data))
  }

  function UpdateKey(hashes: Hashes, chunk: FileChunk, fileHash: Hash, fileName: string, fileIndex: nat): FileChunk {
    chunk.(key := hashes.sha1(fileHash + LittleEndian(fileIndex, 8)), fileName := fileName, fileIndex := fileIndex)
  }

  /** Written and registered, the chunk record will be the one the job calls for. */
  predicate MadeFor(chunk: FileChunk, j: Job, i: nat) {
    && chunk.size == |PieceAt(j, i)| < U32
    && chunk.key == KeyAt(j, i) && chunk.fileName == j.name && chunk.fileIndex == i
  }

  lemma {:induction false} RegisteredChunk(chunk: FileChunk, j: Job, i: nat)
    requires MadeFor(chunk, j, i)
    ensures chunk.(dataHash := j.hashes.sha256(PieceAt(j, i)), protocol := "file", location := Some(ChunkFile(chunk.key))) == ChunkAt(j, i)
  {
  }

  /** So is a record made from the bytes and then keyed by file and index. */
  lemma {:induction false} KeyedChunk(hashes: Hashes, j: Job, i: nat)
    requires j.hashes == hashes && j.scheme == ByIndex && |PieceAt(j, i)| < U32
    ensures MadeFor(UpdateKey(hashes, NewFileChunk(hashes, PieceAt(j, i), "file"), j.fileHash, j.name, i), j, i)
  {
  }

  /** How far into the bytes the i-th piece begins, and that it is no longer than 32 bits allow. */
  lemma {:induction false} BytesBefore(j: Job, i: nat)
    requires Storable(j) && i < j.count
    ensures i * j.chunkSize <= j.size && |PieceAt(j, i)| < U32
    ensures Total(Cut(j.data, j.chunkSize, i)) == Min(i * j.chunkSize, |j.data|)
  {
    TotalOfCut(j.data, j.chunkSize, i);
    CeilDivLeast(j.size, j.chunkSize, i);
  }

  /** The pieces come to the size of the file exactly when the file is complete. */
  lemma {:induction false} BytesProcessed(j: Job)
    requires Storable(j)
    ensures Total(Cut(j.data, j.chunkSize, j.count)) == j.size <==> Complete(j)
  {
    TotalOfCut(j.data, j.chunkSize, j.count);
    CeilDivLeast(j.size, j.chunkSize, j.count);
  }

  /** The record `WriteFileToDisk` makes for its i-th slice. */
  function SliceChunk(hashes: Hashes, meta: MetaData, data: Bytes, i: nat): FileChunk {
    FileChunk(hashes.sha1(meta.fileHash + [(i % 256) as byte]), meta.fileName, |data| % U32, i, None, "file", hashes.sha256(data))
  }

  lemma {:induction false} SlicedChunk(hashes: Hashes, j: Job, i: nat)
    requires j.hashes == hashes && j.scheme == ByByte && |PieceAt(j, i)| < U32
    ensures MadeFor(SliceChunk(hashes, Meta(j), PieceAt(j, i), i), j, i)
  {
  }

  /** Slicing a file that is all there gives the pieces. */
  lemma {:induction false} SlicedPiece(j: Job, i: nat)
    requires Storable(j) && i < j.count && |j.data| == j.size
    ensures
      var start := i * j.chunkSize;
      && start <= j.size && |PieceAt(j, i)| < U32
      && j.data[start..Min(start + j.chunkSize, j.size)] == PieceAt(j, i)
  {
    BytesBefore(j, i);
  }

  lemma {:induction false} NextPiece(hashes: Hashes, name: string, s: Source, i: nat)
    requires 0 < s.size < MAX_LENGTH && i < JobFrom(hashes, name, s).count
    ensures
      var j := JobFrom(hashes, name, s);
      && Storable(j) && |PieceAt(j, i)| < U32
      && Total(Cut(j.data, j.chunkSize, i)) == Min(i * j.chunkSize, |j.data|)
  {
    JobFromFits(hashes, name, s);
    BytesBefore(JobFrom(hashes, name, s), i);
  }

  lemma {:induction false} CutSnoc(data: Bytes, c: nat, i: nat)
    ensures Total(Cut(data, c, i + 1)) == Total(Cut(data, c, i)) + |Piece(data, c, i)|
  {
    assert Cut(data, c, i + 1)[..i] == Cut(data, c, i);
  }

  class KeyStore {
    const hashes: Hashes
    const disk: Disk
    var references: map<Hash, FileReference>
    var registry: map<Key, FileChunk>

    constructor (hashes: Hashes, disk: Disk)
      ensures this.hashes == hashes && this.disk == disk
      ensures references == map[] && registry == map[]
    {
      this.hashes, this.disk := hashes, disk;
      references, registry := map[], map[];
    }

    function View(): View
      reads this, disk
    {
      Stores.View(references, registry, disk.files, disk.records)
    }

    // -------------------------------------------------------------- one chunk

    /**
      Writes a chunk, reads it back to compare size and hash, and only then registers it.
      On success the disk holds bytes of the chunk's own size and hash.
     */
    method WriteChunkToDisk(ref: FileChunk, data: Bytes) returns (stored: Option<FileChunk>)
      modifies this`registry, disk
      ensures disk.records == old(disk.records)
      ensures FilesExcept(old(disk.files), disk.files, {ref.key})
      ensures ChunkFile(ref.key) in old(disk.files) ==> ChunkFile(ref.key) in disk.files
      ensures stored.Some? ==>
        && stored.value == ref.(dataHash := hashes.sha256(data), protocol := "file", location := Some(ChunkFile(ref.key)))
        && registry == old(registry)[ref.key := stored.value]
        && |data| % U32 == ref.size
        && ChunkFile(ref.key) in disk.files
        && |disk.files[ChunkFile(ref.key)]| == |data|
        && hashes.sha256(disk.files[ChunkFile(ref.key)]) == hashes.sha256(data)
      ensures stored.None? ==> registry == old(registry)
      ensures |data| % U32 == ref.size ==> (stored.Some? <==> Sticks(disk.faults, old(disk.clock), hashes, data))
      ensures stored.Some? ==> disk.clock == old(disk.clock) + 2
      ensures stored.Some? && WritesWork(disk.faults) ==> disk.files == old(disk.files)[ChunkFile(ref.key) := data]
    {
      if |data| % U32 != ref.size {
        return None;
      }
      var hash := hashes.sha256(data);
      var path := ChunkFile(ref.key);
      var written := disk.WriteFile(path, data);
      OnlyOneFile(old(disk.files), disk.files, ref.key);
      if !written {
        return None;
      }
      var back := disk.ReadFile(path);
      if back.None? || |back.value| != |data| || hashes.sha256(back.value) != hash {
        return None;
      }
      var chunk := ref.(dataHash := hash, protocol := "file", location := Some(path));
      registry := registry[ref.key := chunk];
      return Some(chunk);
    }

    /** Takes a chunk off the disk and out of the registry, or does nothing. */
    method DeleteDataFromDisk(key: Key) returns (ok: bool)
      modifies this`registry, disk
      ensures disk.records == old(disk.records)
      ensures ok ==> key in old(registry) && old(registry)[key].location.Some?
      ensures registry == if ok then old(registry) - {key} else old(registry)
      ensures disk.files == if ok then old(disk.files) - {old(registry)[key].location.value} else old(disk.files)
      ensures ok <== RemovesWork(disk.faults) && key in old(registry)
        && old(registry)[key].location.Some? && old(registry)[key].location.value in old(disk.files)
    {
      if key !in registry || registry[key].location.None? {
        return false;
      }
      ok := disk.Remove(registry[key].location.value);
      if ok {
        registry := registry - {key};
      }
    }

    /** `GetDataFromDisk`: bytes that come back have the hash the chunk was registered with. */
    method GetDataFromDisk(key: Key) returns (r: Result<Bytes, ReadError>)
      modifies disk`clock
      ensures r.Ok? ==> r == DataOf(View(), hashes, key)
      ensures NoFaults(disk.faults) ==> r == DataOf(View(), hashes, key)
      ensures r.Ok? ==>
        && key in registry && registry[key].location.Some? && registry[key].location.value in disk.files
        && r.value == disk.files[registry[key].location.value]
        && hashes.sha256(r.value) == registry[key].dataHash
      ensures NoFaults(disk.faults) ==>
        (r.Ok? <==> key in registry && registry[key].location.Some? && registry[key].location.value in disk.files
                    && hashes.sha256(disk.files[registry[key].location.value]) == registry[key].dataHash)
    {
      if key !in registry {
        return Err(UnknownChunk);
      }
      var chunk := registry[key];
      if chunk.location.None? {
        return Err(Unreadable);
      }
      var data := disk.ReadFile(chunk.location.value);
      if data.None? {
        return Err(Unreadable);
      }
      if hashes.sha256(data.value) != chunk.dataHash {
        return Err(Corrupted);
      }
      return Ok(data.value);
    }

    /** The checks `ReassembleFileFromDisk` makes on one chunk before copying it. */
    method ReadPiece(file: FileReference, i: nat) returns (r: Result<Bytes, ReadError>)
      requires i < |file.chunks|
      modifies disk`clock
      ensures r.Ok? || NoFaults(disk.faults) ==> r == PieceOf(View(), hashes, file, i)
      ensures r.Ok? ==>
        && file.chunks[i].Some? && |r.value| % U32 == file.chunks[i].value.size
        && hashes.sha256(r.value) == file.chunks[i].value.dataHash
    {
      if file.chunks[i].None? {
        return Err(MissingReference(i));
      }
      var ref := file.chunks[i].value;
      var chunkData := GetDataFromDisk(ref.key);
      if chunkData.Err? {
        return Err(chunkData.error);
      }
      var d := chunkData.value;
      if |d| % U32 != ref.size {
        return Err(WrongChunkSize(i));
      }
      if hashes.sha256(d) != ref.dataHash {
        return Err(Corrupted);
      }
      return Ok(d);
    }

    /** One more chunk read, checked and copied to its place in the buffer. */
    method CopyPiece(file: FileReference, i: nat, fileData: Bytes, bytesWritten: nat)
      returns (r: Result<(Bytes, nat), ReadError>)
      requires i < |file.chunks|
      modifies disk`clock
      ensures r.Ok? || NoFaults(disk.faults) ==> r == AssembleOne(View(), hashes, file, i, fileData, bytesWritten)
    {
      var d := ReadPiece(file, i);
      if d.Err? {
        return Err(d.error);
      }
      var startIdx := i * file.meta.chunkSize;
      if startIdx > |fileData| {
        return Err(OutOfRange);
      }
      return Ok((CopyAt(fileData, startIdx, d.value), bytesWritten + |d.value|));
    }

    /** All the chunks of a file in one buffer, and how many bytes they came to. */
    method AssembleFile(file: FileReference) returns (r: Result<(Bytes, nat), ReadError>)
      modifies disk`clock
      ensures r.Ok? || NoFaults(disk.faults) ==> r == Assembled(View(), hashes, file, |file.chunks|)
    {
      var fileData: Bytes := seq(file.meta.totalSize, _ => 0);
      var bytesWritten := 0;
      ghost var v := View();
      for i := 0 to |file.chunks|
        invariant Assembled(v, hashes, file, i) == Ok((fileData, bytesWritten))
      {
        RT.AssembledStep(v, hashes, file, i + 1, fileData, bytesWritten);
        var next := CopyPiece(file, i, fileData, bytesWritten);
        assert View() == v;
        if next.Err? {
          RT.ErrorsStay(v, hashes, file, i + 1, |file.chunks|);
          return Err(next.error);
        }
        fileData, bytesWritten := next.value.0, next.value.1;
      }
      return Ok((fileData, bytesWritten));
    }

    /**
      Reads a file back chunk by chunk. Whatever the disk does, an answer that is not an
      error is the answer a perfect disk would have given, and has the file's hash.
     */
    method ReassembleFileFromDisk(key: Hash) returns (r: Result<Bytes, ReadError>)
      modifies disk`clock
      ensures r.Ok? ==> r == Reassembled(View(), hashes, key)
      ensures r.Ok? ==> key in references && hashes.sha256(r.value) == references[key].meta.fileHash
      ensures r.Ok? ==> RT.ReadsAs(View(), hashes, references[key], r.value)
      ensures NoFaults(disk.faults) ==> (r.Ok? <==> key in references && exists data :: RT.ReadsAs(View(), hashes, references[key], data))
      ensures NoFaults(disk.faults) ==> r == Reassembled(View(), hashes, key)
    {
      if key !in references {
        return Err(UnknownFile);
      }
      RT.ReadsAsExactly(View(), hashes, key);
      var file := references[key];
      var assembled := AssembleFile(file);
      if assembled.Err? {
        return Err(assembled.error);
      }
      var fileData, bytesWritten := assembled.value.0, assembled.value.1;
      if bytesWritten != file.meta.totalSize {
        return Err(WrongTotalSize);
      }
      if hashes.sha256(fileData) != file.meta.fileHash {
        return Err(WrongFileHash);
      }
      return Ok(fileData);
    }

    // -------------------------------------------------------------- whole files

    /** Gives up the chunks listed so far, as every failing store does. */
    method DiscardChunks(chunks: seq<Option<FileChunk>>, ghost j: Job, ghost i: nat)
      requires i <= |chunks| && chunks == Listed(j, |chunks|, i)
      requires j.hashes == hashes
      requires forall k :: k in KeysBelow(j, i) ==>
        k in registry && registry[k].location == Some(ChunkFile(k)) && ChunkFile(k) in disk.files
      modifies this`registry, disk
      ensures disk.records == old(disk.records)
      ensures FilesExcept(old(disk.files), disk.files, KeysBelow(j, i))
      ensures registry - KeysBelow(j, i) == old(registry) - KeysBelow(j, i)
      ensures RemovesWork(disk.faults) ==>
        && registry == old(registry) - KeysBelow(j, i)
        && forall k :: k in KeysBelow(j, i) ==> ChunkFile(k) !in disk.files
    {
      for h := 0 to |chunks|
        invariant disk.records == old(disk.records)
        invariant FilesExcept(old(disk.files), disk.files, KeysBelow(j, i))
        invariant registry - KeysBelow(j, i) == old(registry) - KeysBelow(j, i)
        invariant forall k :: k in registry ==> k in old(registry) && registry[k] == old(registry)[k]
        invariant RemovesWork(disk.faults) ==> forall k :: k in KeysBelow(j, i) ==>
          if k in KeysBelow(j, h) then k !in registry && ChunkFile(k) !in disk.files
          else k in registry && ChunkFile(k) in disk.files
      {
        KeysBelowStep(j, h);
        if chunks[h].Some? {
          var key := chunks[h].value.key;
          assert key == KeyAt(j, h) && key in KeysBelow(j, i);
          ghost var before := disk.files;
          var ok := DeleteDataFromDisk(key);
          if ok {
            OnlyOneFile(before, disk.files, key);
          }
        }
      }
      KeysBelowAll(j, i, |chunks|);
      if RemovesWork(disk.faults) {
        assert forall k :: k in KeysBelow(j, i) ==> k !in registry;
      }
    }

    /** Completes a file's record from the registry, keeps it in memory, then writes it out. */
    method UpdateReference(file: FileReference) returns (r: Result<FileReference, StoreError>)
      modifies this`references, disk
      ensures disk.files == old(disk.files)
      ensures
        if forall i :: 0 <= i < |file.chunks| && file.chunks[i].Some? ==> file.chunks[i].value.key in registry then
          var done := Completed(file, registry);
          && references == old(references)[file.meta.fileHash := done]
          && (r == Err(RecordFailed) || r == Ok(done))
          && (r.Ok? ==> disk.records == old(disk.records)[MetaFile(file.meta.fileHash) := done])
          && disk.records in {old(disk.records), old(disk.records)[MetaFile(file.meta.fileHash) := done],
                              old(disk.records) - {MetaFile(file.meta.fileHash)}}
          && (r.Ok? <==> !disk.faults.record(old(disk.clock)))
        else
          r == Err(MissingChunk) && references == old(references) && disk.records == old(disk.records)
    {
      var chunks := file.chunks;
      for i := 0 to |chunks|
        invariant |chunks| == |file.chunks|
        invariant forall h :: 0 <= h < i && file.chunks[h].Some? ==> file.chunks[h].value.key in registry
        invariant forall h :: 0 <= h < i ==> chunks[h] == CompletedChunk(file.chunks[h], registry)
        invariant forall h :: i <= h < |chunks| ==> chunks[h] == file.chunks[h]
      {
        if chunks[i].Some? {
          var ref := chunks[i].value;
          if ref.key !in registry {
            return Err(MissingChunk);
          }
          var stored := registry[ref.key];
          chunks := chunks[i := Some(stored.(key := ref.key))];
        }
      }
      var done := file.(chunks := chunks);
      assert chunks == Completed(file, registry).chunks;
      references := references[file.meta.fileHash := done];
      var ok := disk.WriteRecord(MetaFile(file.meta.fileHash), done);
      return if ok then Ok(done) else Err(RecordFailed);
    }

    /** Takes the first i chunks of a failing store back, with the write of one more perhaps half done. */
    method Abandon(chunks: seq<Option<FileChunk>>, ghost v: View, ghost w: View, ghost j: Job, ghost i: nat, ghost touched: set<Key>)
      requires j.hashes == hashes && i <= j.count && chunks == Listed(j, j.count, i)
      requires Progress(v, w, j, i) && touched <= KeysBelow(j, j.count)
      requires registry == w.registry && FilesExcept(w.files, disk.files, touched)
      requires forall k :: k in KeysBelow(j, i) ==> ChunkFile(k) in disk.files
      requires forall h :: h != j.fileHash ==>
        (h in v.references <==> h in references) && (h in v.references ==> v.references[h] == references[h])
      modifies this`registry, disk
      ensures disk.records == old(disk.records)
      ensures RT.AgreeExcept(v, View(), KeysBelow(j, j.count), j.fileHash)
      ensures RemovesWork(disk.faults) ==> RolledBack(v, View(), j, i, touched)
    {
      ghost var w' := View();
      Registered(v, j, i);
      DiscardChunks(chunks, j, i);
      GivenUp(v, w, w', View(), j, i, touched, RemovesWork(disk.faults));
    }

    /** Registers a file whose chunks are all down, or gives them up if its record cannot be written. */
    method RegisterFile(meta: MetaData, chunks: seq<Option<FileChunk>>, ghost v: View, ghost j: Job)
      returns (r: Result<FileReference, StoreError>)
      requires Complete(j) && j.hashes == hashes && meta == Meta(j)
      requires chunks == Listed(j, j.count, j.count)
      requires Progress(v, View(), j, j.count)
      modifies this, disk
      ensures StoreOutcome(v, View(), j, r, RemovesWork(disk.faults))
      ensures ErrorOf(r) == if disk.faults.record(old(disk.clock)) then Some(RecordFailed) else None
      ensures r.Ok? ==> disk.files == old(disk.files)
    {
      ghost var w := View();
      CompletedIsReference(v, j);
      AllThere(w, j, j.count);
      r := UpdateReference(FileReference(meta, chunks));
      if r.Err? {
        Abandon(chunks, v, w, j, j.count, {});
      } else {
        RecordedOutcome(v, w, View(), j, RemovesWork(disk.faults));
      }
    }

    /** The end every store comes to once its chunks are down: check the byte count, then register. */
    method FinishStore(meta: MetaData, chunks: seq<Option<FileChunk>>, bytesProcessed: nat, ghost v: View, ghost j: Job)
      returns (r: Result<FileReference, StoreError>)
      requires Storable(j) && j.hashes == hashes && meta == Meta(j)
      requires chunks == Listed(j, j.count, j.count)
      requires bytesProcessed == Total(Cut(j.data, j.chunkSize, j.count))
      requires Progress(v, View(), j, j.count)
      modifies this, disk
      ensures StoreOutcome(v, View(), j, r, RemovesWork(disk.faults))
      ensures ErrorOf(r) == EndFate(disk.faults, old(disk.clock), j)
      ensures r.Ok? ==> disk.files == old(disk.files)
    {
      BytesProcessed(j);
      if bytesProcessed != meta.totalSize {
        Abandon(chunks, v, View(), j, j.count, {});
        return Err(SizeMismatch);
      }
      r := RegisterFile(meta, chunks, v, j);
    }

    /** Gives up on a file whose i-th chunk could not be written. */
    method AbandonAt(chunks: seq<Option<FileChunk>>, ghost v: View, ghost w: View, ghost j: Job, ghost i: nat)
      requires j.hashes == hashes && i < j.count && chunks == Listed(j, j.count, i) && Progress(v, w, j, i)
      requires registry == w.registry && references == w.references && disk.records == w.records
      requires FilesExcept(w.files, disk.files, {KeyAt(j, i)})
      requires ChunkFile(KeyAt(j, i)) in w.files ==> ChunkFile(KeyAt(j, i)) in disk.files
      modifies this`registry, disk
      ensures StoreOutcome(v, View(), j, Err(ChunkFailed(i)), RemovesWork(disk.faults))
    {
      KeysBelowStep(j, i);
      KeysBelowAll(j, i + 1, j.count);
      StillThere(w, View(), j, i, KeyAt(j, i));
      Abandon(chunks, v, w, j, i, {KeyAt(j, i)});
    }

    /** Stores one more chunk of a file, or gives up on the file and takes the earlier ones back. */
    method StoreChunk(chunks: seq<Option<FileChunk>>, chunk: FileChunk, data: Bytes, i: nat, ghost v: View, ghost j: Job, ghost n: nat)
      returns (r: Result<seq<Option<FileChunk>>, StoreError>)
      requires Storable(j) && j.hashes == hashes && i < j.count
      requires Progress(v, View(), j, i) && chunks == Listed(j, j.count, i) && disk.clock == n + 2 * i
      requires data == PieceAt(j, i) && MadeFor(chunk, j, i)
      modifies this`registry, disk
      ensures r.Ok? ==> Progress(v, View(), j, i + 1) && r.value == Listed(j, j.count, i + 1)
      ensures r.Err? ==> r == Err(ChunkFailed(i)) && StoreOutcome(v, View(), j, Err(ChunkFailed(i)), RemovesWork(disk.faults))
      ensures r.Ok? <==> ChunkSticks(disk.faults, n, j, i)
      ensures r.Ok? ==> disk.clock == n + 2 * (i + 1)
      ensures r.Ok? && WritesWork(disk.faults) ==> disk.files == old(disk.files)[ChunkFile(KeyAt(j, i)) := PieceAt(j, i)]
    {
      ghost var w := View();
      RegisteredChunk(chunk, j, i);
      var stored := WriteChunkToDisk(chunk, data);
      if stored.None? {
        AbandonAt(chunks, v, w, j, i);
        return Err(ChunkFailed(i));
      }
      ProgressStep(v, w, View(), j, i);
      return Ok(chunks[i := stored]);
    }

    /** The i-th slice of a file held in memory. */
    static method SliceNext(fileData: Bytes, chunkSize: nat, i: nat, ghost j: Job) returns (data: Bytes)
      requires Storable(j) && i < j.count && |j.data| == j.size
      requires fileData == j.data && chunkSize == j.chunkSize
      ensures data == PieceAt(j, i) && |data| < U32
    {
      SlicedPiece(j, i);
      var startIdx := i * chunkSize;
      var endIdx := Min(startIdx + chunkSize, |fileData|);
      data := fileData[startIdx..endIdx];
    }

    /** Stores the i-th slice of a file held in memory. */
    method StoreSlice(chunks: seq<Option<FileChunk>>, meta: MetaData, data: Bytes, i: nat, ghost v: View, ghost j: Job, ghost n: nat)
      returns (r: Result<seq<Option<FileChunk>>, StoreError>)
      requires Storable(j) && j.hashes == hashes && j.scheme == ByByte && meta == Meta(j) && i < j.count
      requires data == PieceAt(j, i) && |data| < U32
      requires Progress(v, View(), j, i) && chunks == Listed(j, j.count, i) && disk.clock == n + 2 * i
      modifies this`registry, disk
      ensures r.Ok? ==> Progress(v, View(), j, i + 1) && r.value == Listed(j, j.count, i + 1)
      ensures r.Err? ==> r == Err(ChunkFailed(i)) && StoreOutcome(v, View(), j, Err(ChunkFailed(i)), RemovesWork(disk.faults))
      ensures r.Ok? <==> ChunkSticks(disk.faults, n, j, i)
      ensures r.Ok? ==> disk.clock == n + 2 * (i + 1)
      ensures r.Ok? && WritesWork(disk.faults) ==> disk.files == old(disk.files)[ChunkFile(KeyAt(j, i)) := PieceAt(j, i)]
    {
      SlicedChunk(hashes, j, i);
      var chunk := SliceChunk(hashes, meta, data, i);
      r := StoreChunk(chunks, chunk, data, i, v, j, n);
    }

    /** Takes the i-th slice and stores it. */
    method StoreNextSlice(chunks: seq<Option<FileChunk>>, meta: MetaData, fileData: Bytes, bytesProcessed: nat, i: nat,
                          ghost v: View, ghost j: Job, ghost n: nat, ghost source: Option<Source>, ghost fate: Option<StoreError>, ghost exact: bool, ghost tidy: bool)
      returns (r: Result<seq<Option<FileChunk>>, StoreError>, total: nat)
      requires 0 < |fileData| < MAX_LENGTH && j == JobFor(hashes, ByByte, meta.fileName, fileData) && meta == Meta(j) && i < j.count
      requires bytesProcessed == Total(Cut(j.data, j.chunkSize, i))
      requires Progress(v, View(), j, i) && chunks == Listed(j, j.count, i) && disk.clock == n + 2 * i
      requires source.None? && fate == FateFrom(disk.faults, n, j, source, i)
      requires exact == WritesWork(disk.faults) && tidy == RemovesWork(disk.faults)
      requires exact ==> disk.files == WithChunks(v, j, i).files
      modifies this`registry, disk
      ensures r.Ok? ==> Progress(v, View(), j, i + 1) && r.value == Listed(j, j.count, i + 1)
      ensures r.Ok? ==> total == Total(Cut(j.data, j.chunkSize, i + 1)) && disk.clock == n + 2 * (i + 1)
      ensures r.Err? ==> StoreOutcome(v, View(), j, Err(r.error), tidy)
      ensures r.Ok? ==> fate == FateFrom(disk.faults, n, j, source, i + 1)
      ensures r.Err? ==> fate == Some(r.error)
      ensures r.Ok? && exact ==> disk.files == WithChunks(v, j, i + 1).files
    {
      JobForFits(hashes, ByByte, meta.fileName, fileData);
      FateStep(disk.faults, n, j, source, i);
      CutSnoc(j.data, j.chunkSize, i);
      var chunkData := SliceNext(fileData, meta.chunkSize, i, j);
      total := bytesProcessed + |chunkData|;
      r := StoreSlice(chunks, meta, chunkData, i, v, j, n);
    }

    /** The loop of `WriteFileToDisk`: all slices of a file, stored one by one. */
    method StoreAllSlices(meta: MetaData, fileData: Bytes, ghost v: View, ghost j: Job, ghost n: nat, ghost source: Option<Source>, ghost fate: Option<StoreError>, ghost exact: bool, ghost tidy: bool)
      returns (r: Result<seq<Option<FileChunk>>, StoreError>, bytesProcessed: nat)
      requires 0 < |fileData| < MAX_LENGTH && j == JobFor(hashes, ByByte, meta.fileName, fileData) && meta == Meta(j)
      requires v == View() && n == disk.clock
      requires source.None? && fate == FateFrom(disk.faults, n, j, source, 0)
      requires exact == WritesWork(disk.faults) && tidy == RemovesWork(disk.faults)
      modifies this`registry, disk
      ensures r.Ok? ==> Progress(v, View(), j, j.count) && r.value == Listed(j, j.count, j.count)
      ensures r.Ok? ==> bytesProcessed == Total(Cut(j.data, j.chunkSize, j.count)) && disk.clock == n + 2 * j.count
      ensures r.Err? ==> StoreOutcome(v, View(), j, Err(r.error), tidy)
      ensures r.Err? ==> fate == Some(r.error)
      ensures r.Ok? ==> fate == FateFrom(disk.faults, n, j, source, j.count)
      ensures r.Ok? && exact ==> disk.files == WithChunks(v, j, j.count).files
    {
      var chunks: seq<Option<FileChunk>> := seq(meta.totalChunks, _ => None);
      bytesProcessed := 0;
      for i := 0 to meta.totalChunks
        invariant Progress(v, View(), j, i)
        invariant chunks == Listed(j, j.count, i)
        invariant fate == FateFrom(disk.faults, n, j, source, i)
        invariant disk.clock == n + 2 * i
        invariant bytesProcessed == Total(Cut(j.data, j.chunkSize, i))
        invariant exact ==> disk.files == WithChunks(v, j, i).files
      {
        var stored, total := StoreNextSlice(chunks, meta, fileData, bytesProcessed, i, v, j, n, source, fate, exact, tidy);
        if stored.Err? {
          return stored, total;
        }
        chunks, bytesProcessed := stored.value, total;
      }
      r := Ok(chunks);
    }

    /** What `WriteFileToDisk` does with a file once it is measured. */
    method StoreSlices(meta: MetaData, fileData: Bytes, ghost v: View, ghost j: Job, ghost n: nat, ghost fate: Option<StoreError>) returns (r: Result<FileReference, StoreError>)
      requires 0 < |fileData| < MAX_LENGTH && j == JobFor(hashes, ByByte, meta.fileName, fileData) && meta == Meta(j)
      requires v == View() && n == disk.clock
      requires fate == FateFrom(disk.faults, n, j, None, 0)
      modifies this, disk
      ensures StoreOutcome(v, View(), j, r, RemovesWork(disk.faults))
      ensures ErrorOf(r) == fate
      ensures r.Ok? && WritesWork(disk.faults) ==> View() == Stored(v, j)
    {
      var chunks, bytesProcessed := StoreAllSlices(meta, fileData, v, j, n, None, fate, WritesWork(disk.faults), RemovesWork(disk.faults));
      if chunks.Err? {
        return Err(chunks.error);
      }
      JobForFits(hashes, ByByte, meta.fileName, fileData);
      FateAtEnd(disk.faults, n, j, None, disk.clock, fate);
      r := FinishStore(meta, chunks.value, bytesProcessed, v, j);
      if r.Ok? && WritesWork(disk.faults) {
        OutcomeIsStored(v, View(), j, r, RemovesWork(disk.faults));
      }
    }

    /**
      Slices a file held in memory into chunks, stores each, and rolls back if one fails. How
      it ends is told beforehand by the disk's faults and the operation it begins at.
     */
    method WriteFileToDisk(name: string, fileData: Bytes) returns (r: Result<FileReference, StoreError>)
      requires 0 < |fileData| < MAX_LENGTH
      modifies this, disk
      ensures StoreOutcome(old(View()), View(), JobFor(hashes, ByByte, name, fileData), r, RemovesWork(disk.faults))
      ensures ErrorOf(r) == Fate(disk.faults, old(disk.clock), JobFor(hashes, ByByte, name, fileData), None)
      ensures r.Ok? ==> SlicedRecord(r.value, hashes, name, fileData) && InPlace(View(), hashes, r.value)
      ensures NoFaults(disk.faults) ==> (r.Ok? <==> CountFits(|fileData|))
      ensures r.Ok? && WritesWork(disk.faults) ==> View() == Stored(old(View()), JobFor(hashes, ByByte, name, fileData))
    {
      ghost var j := JobFor(hashes, ByByte, name, fileData);
      JobForFits(hashes, ByByte, name, fileData);
      FateAtStart(disk.faults, disk.clock, j, None);
      if NoFaults(disk.faults) {
        WorkingDiskFateInMemory(disk.faults, disk.clock, j);
      }
      var chunkSize := CalculateChunkSize(|fileData|);
      var meta := MetaData(hashes.sha256(fileData), |fileData|, name, chunkSize, TotalChunks(|fileData|, chunkSize));
      ghost var v := View();
      r := StoreSlices(meta, fileData, v, j, disk.clock, Fate(disk.faults, disk.clock, j, None));
      if r.Ok? {
        SlicedRecordOf(v, j);
        ReportedInPlace(v, View(), j, r.value, RemovesWork(disk.faults));
      }
    }

    /**
      A full buffer, or for the last chunk whatever remains. A read that fails or finds
      nothing is an error; asking for more than the buffer holds is a panic.
     */
    static method ReadNext(source: Source, totalBytesRead: nat, chunkSize: nat, i: nat, last: bool, ghost hashes: Hashes, ghost name: string, ghost j: Job)
      returns (r: Result<Bytes, StoreError>)
      requires 0 < source.size < MAX_LENGTH && j == JobFrom(hashes, name, source)
      requires i < j.count && last == (i == j.count - 1) && chunkSize == j.chunkSize
      requires totalBytesRead == Min(i * chunkSize, |j.data|)
      ensures r.Ok? ==> r.value == PieceAt(j, i)
      ensures r.Ok? <==> Obtained(j, Some(source), i)
      ensures r.Err? ==> r.error == StopError(j, Some(source), i)
    {
      StreamedPiece(hashes, name, source, i);
      var bytesToRead := chunkSize;
      if last {
        var remainingBytes := source.size - totalBytesRead;
        bytesToRead := remainingBytes % U32;
      }
      if bytesToRead > chunkSize {
        return Err(SliceOutOfRange(i));
      }
      if source.fails(i) {
        return Err(ReadFailed(i));
      }
      var data := source.bytes[totalBytesRead..Min(totalBytesRead + bytesToRead, |source.bytes|)];
      return if data == [] then Err(ReadFailed(i)) else Ok(data);
    }

    /** Stores the bytes read for the i-th chunk. */
    method StoreRead(chunks: seq<Option<FileChunk>>, meta: MetaData, data: Bytes, i: nat, ghost v: View, ghost j: Job, ghost n: nat)
      returns (r: Result<seq<Option<FileChunk>>, StoreError>)
      requires Storable(j) && j.hashes == hashes && j.scheme == ByIndex && meta == Meta(j) && i < j.count
      requires data == PieceAt(j, i) && |data| < U32
      requires Progress(v, View(), j, i) && chunks == Listed(j, j.count, i) && disk.clock == n + 2 * i
      modifies this`registry, disk
      ensures r.Ok? ==> Progress(v, View(), j, i + 1) && r.value == Listed(j, j.count, i + 1)
      ensures r.Err? ==> r == Err(ChunkFailed(i)) && StoreOutcome(v, View(), j, Err(ChunkFailed(i)), RemovesWork(disk.faults))
      ensures r.Ok? <==> ChunkSticks(disk.faults, n, j, i)
      ensures r.Ok? ==> disk.clock == n + 2 * (i + 1)
      ensures r.Ok? && WritesWork(disk.faults) ==> disk.files == old(disk.files)[ChunkFile(KeyAt(j, i)) := PieceAt(j, i)]
    {
      KeyedChunk(hashes, j, i);
      var chunk := NewFileChunk(hashes, data, "file");
      chunk := UpdateKey(hashes, chunk, meta.fileHash, meta.fileName, i);
      r := StoreChunk(chunks, chunk, data, i, v, j, n);
    }

    /** Reads the i-th chunk of a source and stores it. */
    method StoreNext(chunks: seq<Option<FileChunk>>, meta: MetaData, source: Source, totalBytesRead: nat, i: nat,
                     ghost v: View, ghost j: Job, ghost n: nat, ghost fate: Option<StoreError>, ghost exact: bool, ghost tidy: bool)
      returns (r: Result<seq<Option<FileChunk>>, StoreError>, total: nat)
      requires 0 < source.size < MAX_LENGTH && j == JobFrom(hashes, meta.fileName, source)
      requires meta == Meta(j) && i < j.count && totalBytesRead == Total(Cut(j.data, j.chunkSize, i))
      requires Progress(v, View(), j, i) && chunks == Listed(j, j.count, i) && disk.clock == n + 2 * i
      requires fate == FateFrom(disk.faults, n, j, Some(source), i)
      requires exact == WritesWork(disk.faults) && tidy == RemovesWork(disk.faults)
      requires exact ==> disk.files == WithChunks(v, j, i).files
      modifies this`registry, disk
      ensures r.Ok? ==> Progress(v, View(), j, i + 1) && r.value == Listed(j, j.count, i + 1)
      ensures r.Ok? ==> total == Total(Cut(j.data, j.chunkSize, i + 1)) && disk.clock == n + 2 * (i + 1)
      ensures r.Err? ==> StoreOutcome(v, View(), j, Err(r.error), tidy)
      ensures r.Ok? ==> fate == FateFrom(disk.faults, n, j, Some(source), i + 1)
      ensures r.Err? ==> fate == Some(r.error)
      ensures r.Ok? && exact ==> disk.files == WithChunks(v, j, i + 1).files
    {
      FateStep(disk.faults, n, j, Some(source), i);
      NextPiece(hashes, meta.fileName, source, i);
      var chunkData := ReadNext(source, totalBytesRead, meta.chunkSize, i, i == meta.totalChunks - 1, hashes, meta.fileName, j);
      if chunkData.Err? {
        StoppedOutcome(v, View(), j, i, chunkData.error, tidy);
        return Err(chunkData.error), totalBytesRead;
      }
      CutSnoc(j.data, j.chunkSize, i);
      total := totalBytesRead + |chunkData.value|;
      r := StoreRead(chunks, meta, chunkData.value, i, v, j, n);
    }

    /** The loop of `LoadAndStoreFile`: all chunks of a source, read and stored one by one. */
    method StoreAllChunks(meta: MetaData, source: Source, ghost v: View, ghost j: Job, ghost n: nat, ghost fate: Option<StoreError>, ghost exact: bool, ghost tidy: bool)
      returns (r: Result<seq<Option<FileChunk>>, StoreError>, totalBytesRead: nat)
      requires 0 < source.size < MAX_LENGTH && j == JobFrom(hashes, meta.fileName, source)
      requires meta == Meta(j) && v == View() && n == disk.clock
      requires fate == FateFrom(disk.faults, n, j, Some(source), 0)
      requires exact == WritesWork(disk.faults) && tidy == RemovesWork(disk.faults)
      modifies this`registry, disk
      ensures r.Ok? ==> Progress(v, View(), j, j.count) && r.value == Listed(j, j.count, j.count)
      ensures r.Ok? ==> totalBytesRead == Total(Cut(j.data, j.chunkSize, j.count)) && disk.clock == n + 2 * j.count
      ensures r.Err? ==> StoreOutcome(v, View(), j, Err(r.error), tidy)
      ensures r.Err? ==> fate == Some(r.error)
      ensures r.Ok? ==> fate == FateFrom(disk.faults, n, j, Some(source), j.count)
      ensures r.Ok? && exact ==> disk.files == WithChunks(v, j, j.count).files
    {
      var chunks: seq<Option<FileChunk>> := seq(meta.totalChunks, _ => None);
      totalBytesRead := 0;
      for i := 0 to meta.totalChunks
        invariant Progress(v, View(), j, i)
        invariant chunks == Listed(j, j.count, i)
        invariant totalBytesRead == Total(Cut(j.data, j.chunkSize, i)) && disk.clock == n + 2 * i
        invariant fate == FateFrom(disk.faults, n, j, Some(source), i)
        invariant exact ==> disk.files == WithChunks(v, j, i).files
      {
        var stored, total := StoreNext(chunks, meta, source, totalBytesRead, i, v, j, n, fate, exact, tidy);
        if stored.Err? {
          return stored, total;
        }
        chunks, totalBytesRead := stored.value, total;
      }
      r := Ok(chunks);
    }

    /** What `LoadAndStoreFile` does with a file once it is measured and hashed. */
    method StoreSource(meta: MetaData, source: Source, ghost v: View, ghost j: Job, ghost n: nat, ghost fate: Option<StoreError>) returns (r: Result<FileReference, StoreError>)
      requires 0 < source.size < MAX_LENGTH && j == JobFrom(hashes, meta.fileName, source) && Storable(j)
      requires meta == Meta(j) && v == View() && n == disk.clock
      requires fate == FateFrom(disk.faults, n, j, Some(source), 0)
      modifies this, disk
      ensures StoreOutcome(v, View(), j, r, RemovesWork(disk.faults))
      ensures ErrorOf(r) == fate
      ensures r.Ok? && WritesWork(disk.faults) ==> View() == Stored(v, j)
    {
      var chunks, totalBytesRead := StoreAllChunks(meta, source, v, j, n, fate, WritesWork(disk.faults), RemovesWork(disk.faults));
      if chunks.Err? {
        return Err(chunks.error);
      }
      FateAtEnd(disk.faults, n, j, Some(source), disk.clock, fate);
      r := FinishStore(meta, chunks.value, totalBytesRead, v, j);
      if r.Ok? && WritesWork(disk.faults) {
        OutcomeIsStored(v, View(), j, r, RemovesWork(disk.faults));
      }
    }

    /**
      Streams a file from disk chunk by chunk. How it ends is told beforehand by the source,
      the disk's faults and the operation it begins at; without faults of the disk it
      succeeds exactly when the source opens, has not shrunk, no read of it fails, and the
      chunk count fits.
     */
    method LoadAndStoreFile(name: string, source: Source) returns (r: Result<FileReference, StoreError>)
      requires 0 < source.size < MAX_LENGTH
      modifies this, disk
      ensures StoreOutcome(old(View()), View(), JobFrom(hashes, name, source), r, RemovesWork(disk.faults))
      ensures ErrorOf(r) == Fate(disk.faults, old(disk.clock), JobFrom(hashes, name, source), Some(source))
      ensures r.Ok? ==> StreamedRecord(r.value, hashes, name, hashes.sha256(source.hashed), source.size, source.bytes)
      ensures r.Ok? ==> InPlace(View(), hashes, r.value)
      ensures NoFaults(disk.faults) ==> (r.Ok? <==> Steady(source, JobFrom(hashes, name, source).count))
      ensures r.Ok? && WritesWork(disk.faults) ==> View() == Stored(old(View()), JobFrom(hashes, name, source))
    {
      ghost var j := JobFrom(hashes, name, source);
      JobFromFits(hashes, name, source);
      FateAtStart(disk.faults, disk.clock, j, Some(source));
      if NoFaults(disk.faults) {
        WorkingDiskFate(hashes, name, source, disk.faults, disk.clock, 0);
      }
      if !source.opens {
        return Err(SourceUnreadable);
      }
      var chunkSize := CalculateChunkSize(source.size);
      var meta := MetaData(hashes.sha256(source.hashed), source.size, name, chunkSize, TotalChunks(source.size, chunkSize));
      ghost var v := View();
      r := StoreSource(meta, source, v, j, disk.clock, Fate(disk.faults, disk.clock, j, Some(source)));
      if r.Ok? {
        CompleteSource(hashes, name, source);
        StreamedRecordOf(v, j, hashes.sha256(source.hashed), source.bytes);
        ReportedInPlace(v, View(), j, r.value, RemovesWork(disk.faults));
      }
    }
  }
}
