/** A disk that may fail: every operation consults an arbitrary plan of faults. */
module Disks {
  import opened Wrappers
  import opened ChunkSizes
  import opened Stores

  /**
    A write can fail, leaving the old contents or any bytes at all; or it can claim success
    and yet have put down other bytes.
   */
  datatype WriteFault = Healthy | Broken(left: Option<Bytes>) | Silent(data: Bytes)

  /** What goes wrong at the n-th operation of the disk's life. */
  datatype Faults = Faults(
    write: nat -> WriteFault,
    record: nat -> bool,
    read: nat -> bool,
    remove: nat -> bool,
    rename: nat -> bool)

  ghost predicate NoFaults(f: Faults) {
    && (forall n :: f.write(n).Healthy?)
    && (forall n :: !f.record(n) && !f.read(n) && !f.remove(n) && !f.rename(n))
  }

  ghost predicate RemovesWork(f: Faults) {
    forall n :: !f.remove(n)
  }

  /** Writing and reading chunk files goes well; records, removals and moves may still fail. */
  ghost predicate ChunksWork(f: Faults) {
    forall n :: f.write(n).Healthy? && !f.read(n)
  }

  ghost predicate WritesWork(f: Faults) {
    forall n :: f.write(n).Healthy?
  }

  /** What a write leaves. */
  function AfterWrite(files: map<Path, Bytes>, path: Path, data: Bytes, fault: WriteFault): map<Path, Bytes> {
    match fault
    case Healthy => files[path := data]
    case Broken(None) => files
    case Broken(Some(left)) => files[path := left]
    case Silent(b) => files[path := b]
  }

  /** Data written at the n-th operation and read at the next come back with their length and hash. */
  predicate Sticks(f: Faults, n: nat, hashes: Hashes, data: Bytes) {
    match f.write(n)
    case Healthy => !f.read(n + 1)
    case Broken(_) => false
    case Silent(b) => !f.read(n + 1) && |b| == |data| && hashes.sha256(b) == hashes.sha256(data)
  }

  class Disk {
    const faults: Faults
    var clock: nat
    var files: map<Path, Bytes>
    var records: map<Path, FileReference>

    constructor (faults: Faults, files: map<Path, Bytes>, records: map<Path, FileReference>)
      ensures this.faults == faults && this.files == files && this.records == records
    {
      this.faults, this.files, this.records, clock := faults, files, records, 0;
    }

    /** Creates or overwrites a file. */
    method WriteFile(path: Path, data: Bytes) returns (ok: bool)
      modifies this
      ensures records == old(records)
      ensures files - {path} == old(files) - {path}
      ensures ok || path in old(files) ==> path in files
      ensures ok <==> !faults.write(old(clock)).Broken?
      ensures files == AfterWrite(old(files), path, data, faults.write(old(clock)))
      ensures clock == old(clock) + 1
    {
      var fault := faults.write(clock);
      clock := clock + 1;
      match fault {
        case Healthy =>
          files := files[path := data];
          return true;
        case Broken(left) =>
          if left.Some? {
            files := files[path := left.value];
          }
          return false;
        case Silent(b) =>
          files := files[path := b];
          return true;
      }
    }

    /** What a file holds, if it is there and can be read. */
    method ReadFile(path: Path) returns (data: Option<Bytes>)
      modifies this`clock
      ensures data == if path in files && !faults.read(old(clock)) then Some(files[path]) else None
      ensures clock == old(clock) + 1
    {
      clock := clock + 1;
      if faults.read(clock - 1) || path !in files {
        return None;
      }
      return Some(files[path]);
    }

    method Remove(path: Path) returns (ok: bool)
      modifies this
      ensures records == old(records)
      ensures ok <==> path in old(files) && !faults.remove(old(clock))
      ensures files == if ok then old(files) - {path} else old(files)
    {
      clock := clock + 1;
      ok := path in files && !faults.remove(clock - 1);
      if ok {
        files := files - {path};
      }
    }

    /** Moves a file, over whatever is at the destination. */
    method Rename(src: Path, dst: Path) returns (ok: bool)
      requires src != dst
      modifies this
      ensures records == old(records)
      ensures ok <==> src in old(files) && !faults.rename(old(clock))
      ensures ok ==> files == (old(files) - {src})[dst := old(files)[src]]
      ensures !ok ==> files == old(files)
    {
      clock := clock + 1;
      ok := src in files && !faults.rename(clock - 1);
      if ok {
        files := (files - {src})[dst := files[src]];
      }
    }

    method RenameRecord(src: Path, dst: Path) returns (ok: bool)
      requires src != dst
      modifies this
      ensures files == old(files)
      ensures ok <==> src in old(records) && !faults.rename(old(clock))
      ensures ok ==> records == (old(records) - {src})[dst := old(records)[src]]
      ensures !ok ==> records == old(records)
    {
      clock := clock + 1;
      ok := src in records && !faults.rename(clock - 1);
      if ok {
        records := (records - {src})[dst := records[src]];
      }
    }

    /** Writes a metadata file; a failure may leave the old record or none. */
    method WriteRecord(path: Path, file: FileReference) returns (ok: bool)
      modifies this
      ensures files == old(files)
      ensures records == old(records) || records == old(records)[path := file] || records == old(records) - {path}
      ensures ok ==> records == old(records)[path := file]
      ensures ok <==> !faults.record(old(clock))
    {
      clock := clock + 1;
      ok := !faults.record(clock - 1);
      if ok {
        records := records[path := file];
      } else {
        records := records - {path};
      }
    }
  }
}
