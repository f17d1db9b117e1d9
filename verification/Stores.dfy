/**
  The chunk store as a value (storage/key_store): the two maps held in memory and the
  files on disk, and what storing a file and reading it back mean when no operation on
  disk fails.

  Hashes are arbitrary functions. Where their resistance to collisions matters it is a
  hypothesis about the inputs in play.
 */
module Stores {
  import opened Wrappers
  import opened ChunkSizes
  import opened Pieces

  type Hash = h: Bytes | |h| == 32 witness seq(32, _ => 0)
  type Key = k: Bytes | |k| == 20 witness seq(20, _ => 0)

  datatype Hashes = Hashes(sha256: Bytes -> Hash, sha1: Bytes -> Key)

  /**
    File names are built from hexadecimal keys and hashes, so distinct ones never meet.
    `Elsewhere` is a chunk file's path under another storage directory.
   */
  datatype Path =
    | ChunkFile(key: Key)
    | MetaFile(hash: Hash)
    | OrphanFile(hash: Hash, key: Key)
    | OrphanMeta(hash: Hash)
    | Elsewhere(key: Key)

  datatype FileChunk = FileChunk(
    key: Key,
    fileName: string,
    size: nat,
    fileIndex: nat,
    location: Option<Path>,
    protocol: string,
    dataHash: Hash)

  datatype MetaData = MetaData(fileHash: Hash, totalSize: nat, fileName: string, chunkSize: nat, totalChunks: nat)

  /** A file's record; a chunk it has no reference for is None. */
  datatype FileReference = FileReference(meta: MetaData, chunks: seq<Option<FileChunk>>)

  /** `files` are chunk files, `records` the metadata files, encoding aside. */
  datatype View = View(
    references: map<Hash, FileReference>,
    registry: map<Key, FileChunk>,
    files: map<Path, Bytes>,
    records: map<Path, FileReference>)

  // ---------------------------------------------------------------- storing

  /** `WriteFileToDisk` keys chunks by one byte of the index, `LoadAndStoreFile` by eight. */
  datatype Scheme = ByByte | ByIndex

  /**
    A file to be stored: its hash and size as they were taken first, then the bytes `data`
    that came to be cut into `count` chunks of `chunkSize`.
   */
  datatype Job = Job(
    hashes: Hashes,
    scheme: Scheme,
    name: string,
    fileHash: Hash,
    size: nat,
    chunkSize: nat,
    count: nat,
    data: Bytes)

  /** The cut `prepareMetaData` and `LoadAndStoreFile` choose for a file held in memory. */
  function JobFor(hashes: Hashes, scheme: Scheme, name: string, data: Bytes): Job
    requires |data| > 0
  {
    ChunkSizeBounds(|data|);
    var c := CalculateChunkSize(|data|);
    Job(hashes, scheme, name, hashes.sha256(data), |data|, c, TotalChunks(|data|, c), data)
  }

  /** Chunks of a sensible size, as many of them as the count's 32 bits say. */
  predicate Storable(j: Job) {
    && 0 < j.size
    && 0 < j.chunkSize <= MAX_CHUNK_SIZE
    && j.count == CeilDiv(j.size, j.chunkSize) % U32
    && |j.data| <= j.size
  }

  /** As many chunks as the file needs, and all of its bytes to fill them. */
  predicate Complete(j: Job) {
    Storable(j) && j.count == CeilDiv(j.size, j.chunkSize) && |j.data| == j.size
  }

  /** And the bytes are those that were hashed. */
  predicate Fitting(j: Job) {
    Complete(j) && j.fileHash == j.hashes.sha256(j.data)
  }

  lemma {:induction false} JobForFits(hashes: Hashes, scheme: Scheme, name: string, data: Bytes)
    requires 0 < |data| < MAX_LENGTH
    ensures Storable(JobFor(hashes, scheme, name, data))
    ensures Fitting(JobFor(hashes, scheme, name, data)) <==> CountFits(|data|)
  {
    CountExact(|data|);
    ChunkSizeBounds(|data|);
  }

  function PieceAt(j: Job, i: nat): Bytes {
    Piece(j.data, j.chunkSize, i)
  }

  function LittleEndian(i: nat, n: nat): (r: Bytes)
    ensures |r| == n
  {
    if n == 0 then [] else [(i % 256) as byte] + LittleEndian(i / 256, n - 1)
  }

  function Pow256(n: nat): (p: nat)
    ensures p > 0
  {
    if n == 0 then 1 else 256 * Pow256(n - 1)
  }

  lemma {:induction false} DivideTwice(i: nat, b: nat)
    requires b > 0
    ensures (i / 256) / b == i / (256 * b)
  {
    var q, t := i / 256, i % 256;
    var r, u := q / b, q % b;
    assert q == b * r + u;
    assert (256 * b) * r == 256 * (b * r);
    QuotientIs(i, 256 * b, r, 256 * u + t);
  }

  lemma {:induction false} QuotientIs(i: nat, d: nat, q: nat, r: nat)
    requires d > 0 && i == d * q + r && r < d
    ensures i / d == q
  {
    SameQuotient(d, i / d, i % d, q, r);
  }

  lemma {:induction false} SameQuotient(d: nat, p: nat, s: nat, q: nat, r: nat)
    requires s < d && r < d && d * p + s == d * q + r
    ensures p == q
  {
    if p < q {
      ProductMonotone(p + 1, q, d);
    } else if q < p {
      ProductMonotone(q + 1, p, d);
    }
  }

  /** Byte h of a number laid out least significant byte first. */
  lemma {:induction false} LittleEndianByte(i: nat, n: nat, h: nat)
    requires h < n
    ensures LittleEndian(i, n)[h] as nat == (i / Pow256(h)) % 256
  {
    if h > 0 {
      LittleEndianByte(i / 256, n - 1, h - 1);
      DivideTwice(i, Pow256(h - 1));
    }
  }

  function KeyInput(scheme: Scheme, fileHash: Hash, i: nat): Bytes {
    match scheme
    case ByByte => fileHash + [(i % 256) as byte]
    case ByIndex => fileHash + LittleEndian(i, 8)
  }

  function KeyAt(j: Job, i: nat): Key {
    j.hashes.sha1(KeyInput(j.scheme, j.fileHash, i))
  }

  function ChunkAt(j: Job, i: nat): FileChunk {
    FileChunk(KeyAt(j, i), j.name, |PieceAt(j, i)| % U32, i, Some(ChunkFile(KeyAt(j, i))), "file", j.hashes.sha256(PieceAt(j, i)))
  }

  function Meta(j: Job): MetaData {
    MetaData(j.fileHash, j.size, j.name, j.chunkSize, j.count)
  }

  function KeysBelow(j: Job, i: nat): set<Key> {
    set h | 0 <= h < i :: KeyAt(j, h)
  }

  /** After the first i chunks have been written and registered. */
  function WithChunks(v: View, j: Job, i: nat): View {
    if i == 0 then v
    else
      var w := WithChunks(v, j, i - 1);
      w.(registry := w.registry[KeyAt(j, i - 1) := ChunkAt(j, i - 1)],
         files := w.files[ChunkFile(KeyAt(j, i - 1)) := PieceAt(j, i - 1)])
  }

  /** The record as `updateReference` completes it: each chunk as the registry now has it. */
  function Reference(j: Job, registry: map<Key, FileChunk>): FileReference
    requires KeysBelow(j, j.count) <= registry.Keys
  {
    FileReference(Meta(j), seq(j.count, i requires 0 <= i < j.count => Some(registry[KeyAt(j, i)])))
  }

  function Register(v: View, file: FileReference): View {
    v.(references := v.references[file.meta.fileHash := file],
       records := v.records[MetaFile(file.meta.fileHash) := file])
  }

  /** A file stored without a fault. */
  function Stored(v: View, j: Job): View {
    var w := WithChunks(v, j, j.count);
    WithChunksKeys(v, j, j.count);
    Register(w, Reference(j, w.registry))
  }

  /** The view without the chunks of some keys, in memory and on disk. */
  function WithoutKeys(v: View, keys: set<Key>): View {
    v.(registry := v.registry - keys,
       files := map p | p in v.files && !(p.ChunkFile? && p.key in keys) :: v.files[p])
  }

  lemma {:induction false} WithChunksKeys(v: View, j: Job, i: nat)
    ensures WithChunks(v, j, i).registry.Keys == v.registry.Keys + KeysBelow(j, i)
    ensures WithChunks(v, j, i).references == v.references && WithChunks(v, j, i).records == v.records
  {
    if i > 0 {
      WithChunksKeys(v, j, i - 1);
      assert KeysBelow(j, i) == KeysBelow(j, i - 1) + {KeyAt(j, i - 1)};
    }
  }

  /** The last of the first n chunks that shares chunk i's key. */
  function LastUse(j: Job, n: nat, i: nat): (l: nat)
    requires i < n
    ensures i <= l < n && KeyAt(j, l) == KeyAt(j, i)
    ensures forall m :: l < m < n ==> KeyAt(j, m) != KeyAt(j, i)
    decreases n
  {
    if n - 1 == i || KeyAt(j, n - 1) == KeyAt(j, i) then n - 1 else LastUse(j, n - 1, i)
  }

  /** What is registered and on disk under a key is whatever was written there last. */
  lemma {:induction false} WithChunksLast(v: View, j: Job, n: nat, i: nat)
    requires i < n
    ensures KeyAt(j, i) in WithChunks(v, j, n).registry
    ensures WithChunks(v, j, n).registry[KeyAt(j, i)] == ChunkAt(j, LastUse(j, n, i))
    ensures ChunkFile(KeyAt(j, i)) in WithChunks(v, j, n).files
    ensures WithChunks(v, j, n).files[ChunkFile(KeyAt(j, i))] == PieceAt(j, LastUse(j, n, i))
    decreases n
  {
    if n - 1 != i && KeyAt(j, n - 1) != KeyAt(j, i) {
      WithChunksLast(v, j, n - 1, i);
    }
  }

  lemma {:induction false} WithChunksElsewhere(v: View, j: Job, n: nat, k: Key)
    requires k !in KeysBelow(j, n)
    ensures k in WithChunks(v, j, n).registry <==> k in v.registry
    ensures k in v.registry ==> WithChunks(v, j, n).registry[k] == v.registry[k]
    ensures ChunkFile(k) in WithChunks(v, j, n).files <==> ChunkFile(k) in v.files
    ensures ChunkFile(k) in v.files ==> WithChunks(v, j, n).files[ChunkFile(k)] == v.files[ChunkFile(k)]
  {
    if n > 0 {
      assert KeyAt(j, n - 1) in KeysBelow(j, n);
      assert KeysBelow(j, n - 1) <= KeysBelow(j, n);
      WithChunksElsewhere(v, j, n - 1, k);
    }
  }

  // ---------------------------------------------------------------- reading back

  datatype ReadError =
    | UnknownFile
    | MissingReference(index: nat)
    | UnknownChunk
    | Unreadable
    | Corrupted
    | WrongChunkSize(index: nat)
    | WrongTotalSize
    | WrongFileHash
    | OutOfRange

  /** `GetDataFromDisk` when the disk can be read. */
  function DataOf(v: View, hashes: Hashes, key: Key): Result<Bytes, ReadError> {
    if key !in v.registry then Err(UnknownChunk)
    else
      var chunk := v.registry[key];
      if chunk.location.None? || chunk.location.value !in v.files then Err(Unreadable)
      else
        var d := v.files[chunk.location.value];
        if hashes.sha256(d) != chunk.dataHash then Err(Corrupted) else Ok(d)
  }

  /** The buffer and the byte count after the first i chunks have been copied in. */
  function Assembled(v: View, hashes: Hashes, file: FileReference, i: nat): Result<(Bytes, nat), ReadError>
    requires i <= |file.chunks|
  {
    if i == 0 then Ok((seq(file.meta.totalSize, _ => 0), 0))
    else
      match Assembled(v, hashes, file, i - 1)
      case Err(e) => Err(e)
      case Ok((buf, total)) => AssembleOne(v, hashes, file, i - 1, buf, total)
  }

  /** Chunk i of a file, read and checked against the file's reference to it. */
  function PieceOf(v: View, hashes: Hashes, file: FileReference, i: nat): Result<Bytes, ReadError>
    requires i < |file.chunks|
  {
    match file.chunks[i]
    case None => Err(MissingReference(i))
    case Some(ref) =>
      match DataOf(v, hashes, ref.key)
      case Err(e) => Err(e)
      case Ok(d) =>
        if |d| % U32 != ref.size then Err(WrongChunkSize(i))
        else if hashes.sha256(d) != ref.dataHash then Err(Corrupted)
        else Ok(d)
  }

  function AssembleOne(v: View, hashes: Hashes, file: FileReference, i: nat, buf: Bytes, total: nat): Result<(Bytes, nat), ReadError>
    requires i < |file.chunks|
  {
    match PieceOf(v, hashes, file, i)
    case Err(e) => Err(e)
    case Ok(d) =>
      if i * file.meta.chunkSize > |buf| then Err(OutOfRange)
      else Ok((CopyAt(buf, i * file.meta.chunkSize, d), total + |d|))
  }

  /** `ReassembleFileFromDisk` when the disk can be read. */
  function Reassembled(v: View, hashes: Hashes, hash: Hash): Result<Bytes, ReadError> {
    if hash !in v.references then Err(UnknownFile)
    else
      var file := v.references[hash];
      match Assembled(v, hashes, file, |file.chunks|)
      case Err(e) => Err(e)
      case Ok((buf, total)) =>
        if total != file.meta.totalSize then Err(WrongTotalSize)
        else if hashes.sha256(buf) != file.meta.fileHash then Err(WrongFileHash)
        else Ok(buf)
  }
}
