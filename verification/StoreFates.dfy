/**
  How a store will end, told before it begins: from the faults the disk has in store, the
  file as it will be found, and what is registered already. Every chunk written takes two
  operations of the disk, the write and the read that checks it.
 */
module StoreFates {
  import opened Wrappers
  import opened ChunkSizes
  import opened Pieces
  import opened Stores
  import opened Sources
  import opened StoreOutcomes
  import opened Disks

  /** Chunk i of a store that begins at operation n goes down. */
  predicate ChunkSticks(f: Faults, n: nat, j: Job, i: nat) {
    Sticks(f, n + 2 * i, j.hashes, PieceAt(j, i))
  }

  /** The i-th read asks for more than the buffer holds. */
  predicate Overruns(j: Job, i: nat) {
    ReadSize(j, i, Min(i * j.chunkSize, |j.data|)) > j.chunkSize
  }

  /** Chunk i is there to be had. */
  predicate Obtained(j: Job, source: Option<Source>, i: nat) {
    source.Some? ==> !Overruns(j, i) && Readable(source.value, j.chunkSize, i)
  }

  predicate Passes(f: Faults, n: nat, j: Job, source: Option<Source>, i: nat) {
    Obtained(j, source, i) && ChunkSticks(f, n, j, i)
  }

  /** Why a store stops at chunk i, if it does. */
  function StopError(j: Job, source: Option<Source>, i: nat): StoreError {
    if source.Some? && Overruns(j, i) then SliceOutOfRange(i)
    else if !Obtained(j, source, i) then ReadFailed(i)
    else ChunkFailed(i)
  }

  /** How a store ends that has come to chunk i: None if it succeeds. A file in memory has no source. */
  ghost function FateFrom(f: Faults, n: nat, j: Job, source: Option<Source>, i: nat): Option<StoreError>
    requires i <= j.count
    decreases j.count - i
  {
    if i == j.count then EndFate(f, n + 2 * j.count, j)
    else if Passes(f, n, j, source, i) then FateFrom(f, n, j, source, i + 1)
    else Some(StopError(j, source, i))
  }

  ghost function Fate(f: Faults, n: nat, j: Job, source: Option<Source>): Option<StoreError> {
    if source.Some? && !source.value.opens then Some(SourceUnreadable) else FateFrom(f, n, j, source, 0)
  }

  /** Once the chunks are down, the bytes and the record decide. */
  function EndFate(f: Faults, n: nat, j: Job): Option<StoreError> {
    if !Complete(j) then Some(SizeMismatch)
    else if f.record(n) then Some(RecordFailed)
    else None
  }

  lemma {:induction false} FateStep(f: Faults, n: nat, j: Job, source: Option<Source>, i: nat)
    requires i < j.count
    ensures FateFrom(f, n, j, source, i) ==
      if Passes(f, n, j, source, i) then FateFrom(f, n, j, source, i + 1) else Some(StopError(j, source, i))
  {
  }

  lemma {:induction false} FateAtStart(f: Faults, n: nat, j: Job, source: Option<Source>)
    ensures Fate(f, n, j, source) ==
      if source.Some? && !source.value.opens then Some(SourceUnreadable) else FateFrom(f, n, j, source, 0)
  {
  }

  lemma {:induction false} FateAtEnd(f: Faults, n: nat, j: Job, source: Option<Source>, clock: nat, fate: Option<StoreError>)
    requires clock == n + 2 * j.count && fate == FateFrom(f, n, j, source, j.count)
    ensures fate == EndFate(f, clock, j)
  {
  }

  function ErrorOf<T>(r: Result<T, StoreError>): Option<StoreError> {
    match r
    case Ok(_) => None
    case Err(e) => Some(e)
  }

  // ---------------------------------------------------------------- when each ending comes

  predicate AllPass(f: Faults, n: nat, j: Job, source: Option<Source>, i: nat, m: nat) {
    forall h :: i <= h < m ==> Passes(f, n, j, source, h)
  }

  /** Chunk m is the first, from i on, that does not go down. */
  predicate FirstStop(f: Faults, n: nat, j: Job, source: Option<Source>, i: nat, m: nat) {
    i <= m < j.count && AllPass(f, n, j, source, i, m) && !Passes(f, n, j, source, m)
  }

  lemma {:induction false} FateFromDecides(f: Faults, n: nat, j: Job, source: Option<Source>, i: nat)
    requires i <= j.count
    ensures
      var fate := FateFrom(f, n, j, source, i);
      && fate != Some(SourceUnreadable) && fate != Some(MissingChunk)
      && (AllPass(f, n, j, source, i, j.count) ==>
           fate == EndFate(f, n + 2 * j.count, j))
      && (forall m :: FirstStop(f, n, j, source, i, m) ==>
           fate == Some(StopError(j, source, m)))
    decreases j.count - i
  {
    if i < j.count {
      FateFromDecides(f, n, j, source, i + 1);
      if !Passes(f, n, j, source, i) {
        assert forall m :: FirstStop(f, n, j, source, i, m) ==> m == i;
      } else {
        assert AllPass(f, n, j, source, i, j.count) ==> AllPass(f, n, j, source, i + 1, j.count);
        forall m | FirstStop(f, n, j, source, i, m)
          ensures FirstStop(f, n, j, source, i + 1, m)
        {
        }
      }
    }
  }

  lemma {:induction false} StopsSomewhere(f: Faults, n: nat, j: Job, source: Option<Source>, i: nat) returns (m: nat)
    requires i <= j.count
    ensures AllPass(f, n, j, source, i, j.count) || FirstStop(f, n, j, source, i, m)
    decreases j.count - i
  {
    m := i;
    if i < j.count && Passes(f, n, j, source, i) {
      m := StopsSomewhere(f, n, j, source, i + 1);
    }
  }

  /** Each ending, and exactly when it comes. */
  lemma {:induction false} FateDecided(f: Faults, n: nat, j: Job, source: Option<Source>, m: nat)
    ensures
      var fate, opens := Fate(f, n, j, source), source.Some? ==> source.value.opens;
      var all := opens && AllPass(f, n, j, source, 0, j.count);
      var stop := opens && FirstStop(f, n, j, source, 0, m);
      && (fate == Some(SourceUnreadable) <==> !opens)
      && (fate == Some(SliceOutOfRange(m)) <==> stop && source.Some? && Overruns(j, m))
      && (fate == Some(ReadFailed(m)) <==> stop && source.Some? && !Overruns(j, m) && !Readable(source.value, j.chunkSize, m))
      && (fate == Some(ChunkFailed(m)) <==> stop && Obtained(j, source, m) && !ChunkSticks(f, n, j, m))
      && (fate == Some(SizeMismatch) <==> all && !Complete(j))
      && (fate == Some(RecordFailed) <==> all && Complete(j) && f.record(n + 2 * j.count))
      && (fate == None <==> all && Complete(j) && !f.record(n + 2 * j.count))
  {
    FateFromDecides(f, n, j, source, 0);
    var first := StopsSomewhere(f, n, j, source, 0);
  }

  // ---------------------------------------------------------------- reads that ask for too much

  /**
    The last read, and no other, asks for too much exactly when the file has shrunk below
    the start of its last chunk and more than a buffer of it is missing.
   */
  lemma {:induction false} OverrunsExactly(hashes: Hashes, name: string, s: Source, i: nat)
    requires 0 < s.size < MAX_LENGTH && i < JobFrom(hashes, name, s).count
    requires i > 0 ==> (i - 1) * JobFrom(hashes, name, s).chunkSize < |s.bytes|
    ensures
      var j := JobFrom(hashes, name, s);
      && (Overruns(j, i) ==> !Readable(s, j.chunkSize, i))
      && (Overruns(j, i) <==>
           i == j.count - 1 && |s.bytes| < i * j.chunkSize && |s.bytes| + j.chunkSize < Asked(s.size, j.chunkSize, j.count))
      && (CountFits(s.size) ==> Asked(s.size, j.chunkSize, j.count) == s.size)
  {
    var j := JobFrom(hashes, name, s);
    StreamedPiece(hashes, name, s, i);
    JobFromFits(hashes, name, s);
    CountExact(s.size);
    AskedBytes(s.size, j.chunkSize, j.count);
    if i == j.count - 1 && |s.bytes| < i * j.chunkSize {
      StepProduct(i - 1, j.chunkSize);
      MissingBytes(s.size, i * j.chunkSize, |s.bytes|, j.chunkSize);
    }
  }

  /** What is missing up to a chunk's start adds to what the read would have asked for. */
  lemma {:induction false} MissingBytes(size: nat, start: nat, there: nat, c: nat)
    requires there < start < size && start - there < c <= MAX_CHUNK_SIZE
    requires 0 < (size - start) % U32 <= c
    ensures (size - there) % U32 == (size - start) % U32 + (start - there)
  {
    var rest := (size - start) % U32;
    var q := (size - start) / U32;
    assert size - there == q * U32 + (rest + (start - there));
    CastOfProduct(q, 1, rest + (start - there));
  }

  // ---------------------------------------------------------------- what the end leaves as it was

  /** What is registered after a store, the removals working, is what was registered before, exactly when: */
  predicate KeepsRegistry(v: View, j: Job, fate: Option<StoreError>)
    requires fate.Some? ==> fate.value != MissingChunk
  {
    match fate
    case None => RegisteredBefore(v, j, j.count)
    case Some(SourceUnreadable) => true
    case Some(SliceOutOfRange(i)) => RegisteredBefore(v, j, i)
    case Some(ReadFailed(i)) => RegisteredBefore(v, j, i)
    case Some(ChunkFailed(i)) => KeysBelow(j, i) !! v.registry.Keys
    case Some(SizeMismatch) => KeysBelow(j, j.count) !! v.registry.Keys
    case Some(RecordFailed) => KeysBelow(j, j.count) !! v.registry.Keys
  }

  lemma {:induction false} FateKeepsRegistry(v: View, w: View, f: Faults, n: nat, j: Job, source: Option<Source>, r: Result<FileReference, StoreError>)
    requires StoreOutcome(v, w, j, r, true) && ErrorOf(r) == Fate(f, n, j, source)
    ensures Fate(f, n, j, source) != Some(MissingChunk)
    ensures w.registry == v.registry <==> KeepsRegistry(v, j, Fate(f, n, j, source))
  {
    match r {
      case Ok(_) => RegisteringAgain(v, j, j.count);
      case Err(ChunkFailed(i)) => RollbackRestores(v, w, j, i, {KeyAt(j, i)});
      case Err(SizeMismatch) => RollbackRestores(v, w, j, j.count, {});
      case Err(RecordFailed) => RollbackRestores(v, w, j, j.count, {});
      case Err(ReadFailed(i)) => ReadFailureLeaves(v, w, j, i);
      case Err(SliceOutOfRange(i)) => ReadFailureLeaves(v, w, j, i);
      case Err(_) =>
    }
  }

  /**
    The references change exactly when every chunk goes down and makes up the file, whether
    or not the record can then be written, unless the same record was there before.
   */
  lemma {:induction false} FateKeepsReferences(v: View, w: View, f: Faults, n: nat, j: Job, source: Option<Source>,
                                               r: Result<FileReference, StoreError>, removesWork: bool)
    requires StoreOutcome(v, w, j, r, removesWork) && ErrorOf(r) == Fate(f, n, j, source)
    ensures w.references == v.references <==>
      ((source.Some? ==> source.value.opens) && AllPass(f, n, j, source, 0, j.count) && Complete(j) ==>
        j.fileHash in v.references && v.references[j.fileHash] == FinalRecord(v, j))
  {
    FateDecided(f, n, j, source, 0);
  }

  // ---------------------------------------------------------------- disks whose chunk files work

  lemma {:induction false} WorkingDiskPasses(hashes: Hashes, name: string, s: Source, f: Faults, n: nat, m: nat)
    requires 0 < s.size < MAX_LENGTH && ChunksWork(f)
    ensures
      var j := JobFrom(hashes, name, s);
      && (AllPass(f, n, j, Some(s), 0, j.count) <==> AllReadable(s, j.chunkSize, j.count))
      && (FirstStop(f, n, j, Some(s), 0, m) <==> m < j.count && FirstUnreadable(s, j.chunkSize, m))
      && (m < j.count && Overruns(j, m) ==> !Readable(s, j.chunkSize, m))
  {
    var j := JobFrom(hashes, name, s);
    forall i | 0 <= i < j.count
      ensures Overruns(j, i) ==> !Readable(s, j.chunkSize, i)
      ensures Passes(f, n, j, Some(s), i) <==> Readable(s, j.chunkSize, i)
    {
      StreamedPiece(hashes, name, s, i);
    }
  }

  /** Then what the source gives decides, and the one operation that writes the record. */
  lemma {:induction false} WorkingDiskFate(hashes: Hashes, name: string, s: Source, f: Faults, n: nat, m: nat)
    requires 0 < s.size < MAX_LENGTH && ChunksWork(f)
    ensures
      var j := JobFrom(hashes, name, s);
      var fate := Fate(f, n, j, Some(s));
      var stop := s.opens && m < j.count && FirstUnreadable(s, j.chunkSize, m);
      && (fate == Some(SourceUnreadable) <==> !s.opens)
      && (fate == Some(SliceOutOfRange(m)) <==> stop && Overruns(j, m))
      && (fate == Some(ReadFailed(m)) <==> stop && !Overruns(j, m))
      && fate != Some(ChunkFailed(m))
      && (fate == Some(SizeMismatch) <==> s.opens && AllReadable(s, j.chunkSize, j.count) && !Complete(j))
      && (fate == Some(RecordFailed) <==> Steady(s, j.count) && f.record(n + 2 * j.count))
      && (fate == None <==> Steady(s, j.count) && !f.record(n + 2 * j.count))
  {
    SteadyIsReadable(hashes, name, s);
    WorkingDiskPasses(hashes, name, s, f, n, m);
    FateDecided(f, n, JobFrom(hashes, name, s), Some(s), m);
  }

  lemma {:induction false} WorkingDiskFateInMemory(f: Faults, n: nat, j: Job)
    requires ChunksWork(f)
    ensures Fate(f, n, j, None) == EndFate(f, n + 2 * j.count, j)
  {
    FateFromDecides(f, n, j, None, 0);
  }

  // ---------------------------------------------------------------- files that end badly

  /** A file said to have three chunks of 64 KiB, of which some bytes are left. */
  function Shrunk(left: nat): (s: Source)
    ensures s.opens && s.size == 3 * MIN_CHUNK_SIZE && |s.bytes| == left && forall i :: !s.fails(i)
  {
    Source(true, 3 * MIN_CHUNK_SIZE, [], seq(left, _ => 0), _ => false)
  }

  lemma {:induction false} SmallestChunks(size: nat)
    requires MIN_CHUNK_SIZE <= size <= 3 * MIN_CHUNK_SIZE
    ensures CalculateChunkSize(size) == MIN_CHUNK_SIZE
  {
    ChunkSizeIsNearestPower(size);
    var c, n := CalculateChunkSize(size), size / TARGET_CHUNKS;
    SquareMonotone(n, 197);
    SquareMonotone(MIN_CHUNK_SIZE, c);
  }

  lemma {:induction false} ThreeChunks()
    ensures TotalChunks(3 * MIN_CHUNK_SIZE, MIN_CHUNK_SIZE) == 3
  {
  }

  lemma {:induction false} ShrunkChunks(hashes: Hashes, name: string, left: nat)
    ensures
      var j := JobFrom(hashes, name, Shrunk(left));
      j.chunkSize == MIN_CHUNK_SIZE && j.count == 3 && j.size == 3 * MIN_CHUNK_SIZE
  {
    SmallestChunks(3 * MIN_CHUNK_SIZE);
    ThreeChunks();
  }

  /** One byte more than its first chunk left: the store panics at the last chunk, on the best of disks. */
  lemma {:induction false} ShrunkFilePanics(hashes: Hashes, name: string, f: Faults, n: nat)
    requires ChunksWork(f)
    ensures Fate(f, n, JobFrom(hashes, name, Shrunk(MIN_CHUNK_SIZE + 1)), Some(Shrunk(MIN_CHUNK_SIZE + 1))) == Some(SliceOutOfRange(2))
  {
    var s := Shrunk(MIN_CHUNK_SIZE + 1);
    ShrunkChunks(hashes, name, MIN_CHUNK_SIZE + 1);
    OverrunsExactly(hashes, name, s, 2);
    CountExact(s.size);
    WorkingDiskFate(hashes, name, s, f, n, 2);
  }

  /** Its first chunk left and no more: the store stops at the second, and the first stays. */
  lemma {:induction false} ShrunkFileStops(hashes: Hashes, name: string, f: Faults, n: nat)
    requires ChunksWork(f)
    ensures Fate(f, n, JobFrom(hashes, name, Shrunk(MIN_CHUNK_SIZE)), Some(Shrunk(MIN_CHUNK_SIZE))) == Some(ReadFailed(1))
  {
    ShrunkChunks(hashes, name, MIN_CHUNK_SIZE);
    WorkingDiskFate(hashes, name, Shrunk(MIN_CHUNK_SIZE), f, n, 1);
  }

  /** On an empty store and a disk that cannot write records, any file that fits ends with its record alone in memory. */
  lemma {:induction false} RecordStaysBehind(hashes: Hashes, name: string, data: Bytes, f: Faults, n: nat, w: View,
                                             r: Result<FileReference, StoreError>)
    requires 0 < |data| < MAX_LENGTH && CountFits(|data|) && ChunksWork(f) && forall m :: f.record(m)
    requires ErrorOf(r) == Fate(f, n, JobFor(hashes, ByByte, name, data), None)
    requires StoreOutcome(View(map[], map[], map[], map[]), w, JobFor(hashes, ByByte, name, data), r, true)
    ensures r == Err(RecordFailed) && w.references != map[] && w.registry == map[]
  {
    var j := JobFor(hashes, ByByte, name, data);
    JobForFits(hashes, ByByte, name, data);
    WorkingDiskFateInMemory(f, n, j);
    assert j.fileHash in w.references;
    var none: map<Key, FileChunk> := map[];
    assert none - KeysBelow(j, j.count) == none;
  }
}
