/**
  Starting up on a disk left by an earlier run (storage/key_store/key_store.go): the maps
  are filled from the metadata files, and every file with a chunk missing is put aside.
  Directory entries and map entries come in any order.
 */
module Bootstraps {
  import opened Wrappers
  import opened ChunkSizes
  import opened Stores
  import opened Disks
  import opened KeyStores
  import SO = StoreOutcomes
  import RT = RoundTrips

  function KeysOf(file: FileReference): set<Key> {
    set i | 0 <= i < |file.chunks| && file.chunks[i].Some? :: file.chunks[i].value.key
  }

  /** Every chunk has a reference and a file on disk. */
  predicate Intact(file: FileReference, files: map<Path, Bytes>) {
    forall i :: 0 <= i < |file.chunks| ==>
      file.chunks[i].Some? && ChunkFile(file.chunks[i].value.key) in files
  }

  /** No two files use the same chunk key. */
  ghost predicate KeysApart(references: map<Hash, FileReference>) {
    forall g, h :: g in references && h in references && g != h ==> KeysOf(references[g]) !! KeysOf(references[h])
  }

  /** The files among `done` that have to go. */
  function Broken(v: View, done: set<Hash>): set<Hash> {
    set h | h in done && h in v.references && !Intact(v.references[h], v.files)
  }

  function BrokenKeys(v: View, done: set<Hash>): set<Key> {
    set h, k | h in Broken(v, done) && k in KeysOf(v.references[h]) :: k
  }

  predicate SameFile<T(==)>(a: map<Path, T>, b: map<Path, T>, p: Path) {
    (p in a <==> p in b) && (p in a ==> a[p] == b[p])
  }

  /** A chunk file of a broken file: still in place, or moved whole to the file's own orphan directory. */
  predicate Placed(a: map<Path, Bytes>, b: map<Path, Bytes>, h: Hash, k: Key, moved: bool) {
    if ChunkFile(k) in a && (moved || ChunkFile(k) !in b) then
      ChunkFile(k) !in b && OrphanFile(h, k) in b && b[OrphanFile(h, k)] == a[ChunkFile(k)]
    else SameFile(a, b, ChunkFile(k)) && SameFile(a, b, OrphanFile(h, k))
  }

  /** Where things stand once the files in `done` have been looked at. */
  ghost predicate Sorted(v: View, w: View, done: set<Hash>, moved: bool) {
    && w.references == v.references - Broken(v, done)
    && w.registry == v.registry - BrokenKeys(v, done)
    && (forall h, k :: h in Broken(v, done) && k in KeysOf(v.references[h]) ==> Placed(v.files, w.files, h, k, moved))
    && (forall k :: k !in BrokenKeys(v, done) ==> SameFile(v.files, w.files, ChunkFile(k)))
    && (forall h, k :: !(h in Broken(v, done) && k in KeysOf(v.references[h])) ==> SameFile(v.files, w.files, OrphanFile(h, k)))
  }

  /** A file's record: where it was, or with the orphans if the file was broken. */
  predicate RecordPlaced(a: map<Path, FileReference>, b: map<Path, FileReference>, h: Hash, broken: bool, moved: bool) {
    if broken && MetaFile(h) in a && (moved || MetaFile(h) !in b) then
      MetaFile(h) !in b && OrphanMeta(h) in b && b[OrphanMeta(h)] == a[MetaFile(h)]
    else SameFile(a, b, MetaFile(h)) && SameFile(a, b, OrphanMeta(h))
  }

  ghost predicate RecordsSorted(v: View, w: View, done: set<Hash>, moved: bool) {
    forall h :: RecordPlaced(v.records, w.records, h, h in Broken(v, done), moved)
  }

  // ---------------------------------------------------------------- putting one file aside

  /** After the chunks with these keys, all of one broken file, have been put aside. */
  ghost predicate Moving(a: map<Path, Bytes>, b: map<Path, Bytes>, h: Hash, keys: set<Key>, moved: bool) {
    && (forall k :: k in keys ==> Placed(a, b, h, k, moved))
    && (forall k :: k !in keys ==> SameFile(a, b, ChunkFile(k)))
    && (forall g, k :: !(g == h && k in keys) ==> SameFile(a, b, OrphanFile(g, k)))
  }

  lemma {:induction false} KeysOfStep(file: FileReference, i: nat)
    requires i < |file.chunks|
    ensures
      KeysOf(file.(chunks := file.chunks[..i + 1])) ==
      KeysOf(file.(chunks := file.chunks[..i])) + if file.chunks[i].Some? then {file.chunks[i].value.key} else {}
  {
    var a, b := file.chunks[..i], file.chunks[..i + 1];
    assert forall n :: 0 <= n < i ==> a[n] == b[n];
    assert b[i] == file.chunks[i];
  }

  lemma {:induction false} MovingStep(a: map<Path, Bytes>, b: map<Path, Bytes>, c: map<Path, Bytes>, h: Hash, keys: set<Key>, key: Key, moved: bool)
    requires Moving(a, b, h, keys, moved)
    requires c == b || (ChunkFile(key) in b && c == (b - {ChunkFile(key)})[OrphanFile(h, key) := b[ChunkFile(key)]])
    requires moved && ChunkFile(key) in b ==> c != b
    ensures Moving(a, c, h, keys + {key}, moved)
  {
    assert SameFile(a, b, OrphanFile(h, key)) || key in keys;
  }

  /** One chunk of a broken file: its file moves if it is there, its registration goes in any case. */
  method PutChunkAside(ks: KeyStore, h: Hash, key: Key, ghost a: map<Path, Bytes>, ghost keys: set<Key>)
    requires Moving(a, ks.disk.files, h, keys, NoFaults(ks.disk.faults))
    modifies ks`registry, ks.disk
    ensures Moving(a, ks.disk.files, h, keys + {key}, NoFaults(ks.disk.faults))
    ensures ks.registry == old(ks.registry) - {key}
    ensures ks.disk.records == old(ks.disk.records)
  {
    ghost var b := ks.disk.files;
    if ChunkFile(key) in ks.disk.files {
      var ok := ks.disk.Rename(ChunkFile(key), OrphanFile(h, key));
    }
    MovingStep(a, b, ks.disk.files, h, keys, key, NoFaults(ks.disk.faults));
    ks.registry := ks.registry - {key};
  }

  /** Every chunk of a broken file, then its record, then its place in memory. */
  method PutAside(ks: KeyStore, h: Hash, file: FileReference)
    modifies ks, ks.disk
    ensures ks.references == old(ks.references) - {h}
    ensures ks.registry == old(ks.registry) - KeysOf(file)
    ensures Moving(old(ks.disk.files), ks.disk.files, h, KeysOf(file), NoFaults(ks.disk.faults))
    ensures RecordPlaced(old(ks.disk.records), ks.disk.records, h, true, NoFaults(ks.disk.faults))
    ensures forall g :: g != h ==> RecordPlaced(old(ks.disk.records), ks.disk.records, g, false, NoFaults(ks.disk.faults))
  {
    ghost var keys: set<Key> := {};
    for i := 0 to |file.chunks|
      invariant keys == KeysOf(file.(chunks := file.chunks[..i]))
      invariant Moving(old(ks.disk.files), ks.disk.files, h, keys, NoFaults(ks.disk.faults))
      invariant ks.registry == old(ks.registry) - keys
      invariant ks.disk.records == old(ks.disk.records) && ks.references == old(ks.references)
    {
      KeysOfStep(file, i);
      if file.chunks[i].Some? {
        var key := file.chunks[i].value.key;
        PutChunkAside(ks, h, key, old(ks.disk.files), keys);
        keys := keys + {key};
      }
    }
    assert file.(chunks := file.chunks[..|file.chunks|]) == file;
    var moved := ks.disk.RenameRecord(MetaFile(h), OrphanMeta(h));
    ks.references := ks.references - {h};
  }

  // ---------------------------------------------------------------- every file

  lemma {:induction false} BrokenStep(v: View, done: set<Hash>, h: Hash)
    requires h in v.references
    ensures Intact(v.references[h], v.files) ==> Broken(v, done + {h}) == Broken(v, done) || h in done
    ensures Intact(v.references[h], v.files) ==> BrokenKeys(v, done + {h}) == BrokenKeys(v, done) || h in done
    ensures !Intact(v.references[h], v.files) ==> Broken(v, done + {h}) == Broken(v, done) + {h}
    ensures !Intact(v.references[h], v.files) ==> BrokenKeys(v, done + {h}) == BrokenKeys(v, done) + KeysOf(v.references[h])
  {
    if !Intact(v.references[h], v.files) {
      forall k | k in KeysOf(v.references[h])
        ensures k in BrokenKeys(v, done + {h})
      {
        assert h in Broken(v, done + {h});
      }
      forall k | k in BrokenKeys(v, done)
        ensures k in BrokenKeys(v, done + {h})
      {
        var g :| g in Broken(v, done) && k in KeysOf(v.references[g]);
        assert g in Broken(v, done + {h});
      }
    }
  }

  lemma {:induction false} NotBrokenKey(v: View, done: set<Hash>, h: Hash, k: Key)
    requires KeysApart(v.references) && h in v.references && h !in done && k in KeysOf(v.references[h])
    ensures k !in BrokenKeys(v, done)
  {
  }

  /** Files not yet looked at are as they were. */
  lemma {:induction false} StillAsItWas(v: View, w: View, done: set<Hash>, h: Hash, moved: bool)
    requires KeysApart(v.references) && Sorted(v, w, done, moved)
    requires h in v.references && h !in done
    ensures Intact(v.references[h], w.files) <==> Intact(v.references[h], v.files)
    ensures forall k :: k in KeysOf(v.references[h]) ==> SameFile(v.files, w.files, ChunkFile(k))
  {
    var file := v.references[h];
    forall k | k in KeysOf(file)
      ensures SameFile(v.files, w.files, ChunkFile(k))
    {
      NotBrokenKey(v, done, h, k);
    }
    forall i | 0 <= i < |file.chunks| && file.chunks[i].Some?
      ensures file.chunks[i].value.key in KeysOf(file)
    {
    }
  }

  lemma {:induction false} PlacedStep(v: View, w: View, w': View, done: set<Hash>, h: Hash, g: Hash, k: Key, moved: bool)
    requires KeysApart(v.references) && Sorted(v, w, done, moved)
    requires h in v.references && h !in done && !Intact(v.references[h], v.files)
    requires Moving(w.files, w'.files, h, KeysOf(v.references[h]), moved)
    requires (g in Broken(v, done) || g == h) && k in KeysOf(v.references[g])
    ensures Placed(v.files, w'.files, g, k, moved)
  {
    StillAsItWas(v, w, done, h, moved);
    if g == h {
      assert SameFile(v.files, w.files, OrphanFile(h, k));
    } else {
      assert k !in KeysOf(v.references[h]);
      assert Placed(v.files, w.files, g, k, moved);
    }
  }

  lemma {:induction false} SortedStep(v: View, w: View, w': View, done: set<Hash>, h: Hash, moved: bool)
    requires KeysApart(v.references) && Sorted(v, w, done, moved)
    requires h in v.references && h !in done && !Intact(v.references[h], v.files)
    requires w'.references == w.references - {h}
    requires w'.registry == w.registry - KeysOf(v.references[h])
    requires Moving(w.files, w'.files, h, KeysOf(v.references[h]), moved)
    ensures Sorted(v, w', done + {h}, moved)
  {
    BrokenStep(v, done, h);
    forall g, k | g in Broken(v, done + {h}) && k in KeysOf(v.references[g])
      ensures Placed(v.files, w'.files, g, k, moved)
    {
      PlacedStep(v, w, w', done, h, g, k, moved);
    }
  }

  lemma {:induction false} RecordsStep(v: View, w: View, w': View, done: set<Hash>, h: Hash, moved: bool)
    requires RecordsSorted(v, w, done, moved)
    requires h in v.references && h !in done && !Intact(v.references[h], v.files)
    requires RecordPlaced(w.records, w'.records, h, true, moved)
    requires forall g :: g != h ==> RecordPlaced(w.records, w'.records, g, false, moved)
    ensures RecordsSorted(v, w', done + {h}, moved)
  {
    BrokenStep(v, done, h);
    forall g
      ensures RecordPlaced(v.records, w'.records, g, g in Broken(v, done + {h}), moved)
    {
      assert RecordPlaced(v.records, w.records, g, g in Broken(v, done), moved);
      assert RecordPlaced(w.records, w'.records, g, g == h, moved);
    }
  }

  /** Whether a chunk lacks a reference or a file. */
  method MissingAny(file: FileReference, disk: Disk) returns (missing: bool)
    ensures missing <==> !Intact(file, disk.files)
  {
    for i := 0 to |file.chunks|
      invariant forall n :: 0 <= n < i ==> file.chunks[n].Some? && ChunkFile(file.chunks[n].value.key) in disk.files
    {
      if file.chunks[i].None? || ChunkFile(file.chunks[i].value.key) !in disk.files {
        return true;
      }
    }
    return false;
  }

  ghost predicate SortedOut(v: View, w: View, done: set<Hash>, moved: bool) {
    Sorted(v, w, done, moved) && RecordsSorted(v, w, done, moved)
  }

  /** All that a start-up does to what it loaded. */
  ghost predicate StartedUp(v: View, w: View, moved: bool) {
    SortedOut(v, w, v.references.Keys, moved)
  }

  /** Looking at one more file, and putting it aside if it is broken, sorts it out. */
  lemma {:induction false} SortedOutStep(v: View, w: View, w': View, done: set<Hash>, h: Hash, moved: bool)
    requires KeysApart(v.references) && SortedOut(v, w, done, moved)
    requires h in v.references && h !in done
    requires
      if Intact(v.references[h], w.files) then w' == w
      else
        && w'.references == w.references - {h}
        && w'.registry == w.registry - KeysOf(v.references[h])
        && Moving(w.files, w'.files, h, KeysOf(v.references[h]), moved)
        && RecordPlaced(w.records, w'.records, h, true, moved)
        && forall g :: g != h ==> RecordPlaced(w.records, w'.records, g, false, moved)
    ensures SortedOut(v, w', done + {h}, moved)
  {
    StillAsItWas(v, w, done, h, moved);
    if Intact(v.references[h], w.files) {
      BrokenStep(v, done, h);
    } else {
      SortedStep(v, w, w', done, h, moved);
      RecordsStep(v, w, w', done, h, moved);
    }
  }

  /** Chunk i of a file has a reference, and a file where `chunkPath` looks for it. */
  predicate ChunkThere(file: FileReference, i: nat, files: map<Path, Bytes>)
    requires i < |file.chunks|
  {
    file.chunks[i].Some? && ChunkFile(file.chunks[i].value.key) in files
  }

  /**
    Finding orphans, in plain terms: which files stay and go, which keys are registered still,
    and where chunk files and records have gone.
   */
  ghost predicate OrphansIdentified(v: View, w: View, moved: bool) {
    && (forall h :: h in w.references ==>
          && h in v.references && w.references[h] == v.references[h]
          && forall i :: 0 <= i < |w.references[h].chunks| ==> ChunkThere(w.references[h], i, w.files))
    && (forall h :: h in v.references && h !in w.references ==>
          exists i :: 0 <= i < |v.references[h].chunks| && !ChunkThere(v.references[h], i, v.files))
    && (forall k :: k in w.registry <==> k in v.registry && forall h, i ::
          h in v.references && h !in w.references && 0 <= i < |v.references[h].chunks| && v.references[h].chunks[i].Some? ==>
            v.references[h].chunks[i].value.key != k)
    && (moved ==> forall h, i ::
          h in v.references && h !in w.references && 0 <= i < |v.references[h].chunks| && ChunkThere(v.references[h], i, v.files) ==>
            var k := v.references[h].chunks[i].value.key;
            ChunkFile(k) !in w.files && OrphanFile(h, k) in w.files && w.files[OrphanFile(h, k)] == v.files[ChunkFile(k)])
    && (moved ==> forall h :: h in v.references && h !in w.references && MetaFile(h) in v.records ==>
          MetaFile(h) !in w.records && OrphanMeta(h) in w.records && w.records[OrphanMeta(h)] == v.records[MetaFile(h)])
    && (forall h :: h in w.references && MetaFile(h) in v.records ==>
          MetaFile(h) in w.records && w.records[MetaFile(h)] == v.records[MetaFile(h)])
  }

  lemma {:induction false} BrokenMeans(v: View, w: View, h: Hash, moved: bool)
    requires StartedUp(v, w, moved) && h in v.references
    ensures h !in w.references <==> exists i :: 0 <= i < |v.references[h].chunks| && !ChunkThere(v.references[h], i, v.files)
    ensures h !in w.references <==> h in Broken(v, v.references.Keys)
  {
    if !Intact(v.references[h], v.files) {
      var i :| 0 <= i < |v.references[h].chunks|
        && !(v.references[h].chunks[i].Some? && ChunkFile(v.references[h].chunks[i].value.key) in v.files);
      assert !ChunkThere(v.references[h], i, v.files);
    } else {
      forall i | 0 <= i < |v.references[h].chunks|
        ensures ChunkThere(v.references[h], i, v.files)
      {
      }
    }
  }

  lemma {:induction false} RegistryMeans(v: View, w: View, k: Key, moved: bool)
    requires StartedUp(v, w, moved)
    ensures k in w.registry <==> k in v.registry && forall h, i ::
      h in v.references && h !in w.references && 0 <= i < |v.references[h].chunks| && v.references[h].chunks[i].Some? ==>
        v.references[h].chunks[i].value.key != k
  {
    if k in BrokenKeys(v, v.references.Keys) {
      var h :| h in Broken(v, v.references.Keys) && k in KeysOf(v.references[h]);
      var i :| 0 <= i < |v.references[h].chunks| && v.references[h].chunks[i].Some? && v.references[h].chunks[i].value.key == k;
      assert h !in w.references;
    } else {
      forall h, i | h in v.references && h !in w.references && 0 <= i < |v.references[h].chunks| && v.references[h].chunks[i].Some?
        ensures v.references[h].chunks[i].value.key != k
      {
        BrokenMeans(v, w, h, moved);
        assert v.references[h].chunks[i].value.key in KeysOf(v.references[h]);
      }
    }
  }

  lemma {:induction false} SurvivorMeans(v: View, w: View, h: Hash, moved: bool)
    requires KeysApart(v.references) && StartedUp(v, w, moved) && h in w.references
    ensures h in v.references && w.references[h] == v.references[h]
    ensures forall i :: 0 <= i < |w.references[h].chunks| ==> ChunkThere(w.references[h], i, w.files)
    ensures MetaFile(h) in v.records ==> MetaFile(h) in w.records && w.records[MetaFile(h)] == v.records[MetaFile(h)]
  {
    BrokenMeans(v, w, h, moved);
    SurvivorIntact(v, w, moved, h);
    assert RecordPlaced(v.records, w.records, h, h in Broken(v, v.references.Keys), moved);
  }

  lemma {:induction false} GoneMeans(v: View, w: View, h: Hash)
    requires StartedUp(v, w, true) && h in v.references && h !in w.references
    ensures forall i :: 0 <= i < |v.references[h].chunks| && ChunkThere(v.references[h], i, v.files) ==>
      var k := v.references[h].chunks[i].value.key;
      ChunkFile(k) !in w.files && OrphanFile(h, k) in w.files && w.files[OrphanFile(h, k)] == v.files[ChunkFile(k)]
    ensures MetaFile(h) in v.records ==>
      MetaFile(h) !in w.records && OrphanMeta(h) in w.records && w.records[OrphanMeta(h)] == v.records[MetaFile(h)]
  {
    BrokenMeans(v, w, h, true);
    forall i | 0 <= i < |v.references[h].chunks| && ChunkThere(v.references[h], i, v.files)
      ensures Placed(v.files, w.files, h, v.references[h].chunks[i].value.key, true)
    {
      assert v.references[h].chunks[i].value.key in KeysOf(v.references[h]);
    }
    assert RecordPlaced(v.records, w.records, h, h in Broken(v, v.references.Keys), true);
  }

  lemma {:induction false} StartedUpMeans(v: View, w: View, moved: bool)
    requires KeysApart(v.references) && StartedUp(v, w, moved)
    ensures OrphansIdentified(v, w, moved)
  {
    forall h | h in w.references
      ensures h in v.references && w.references[h] == v.references[h]
      ensures forall i :: 0 <= i < |w.references[h].chunks| ==> ChunkThere(w.references[h], i, w.files)
      ensures MetaFile(h) in v.records ==> MetaFile(h) in w.records && w.records[MetaFile(h)] == v.records[MetaFile(h)]
    {
      SurvivorMeans(v, w, h, moved);
    }
    forall h | h in v.references && h !in w.references
      ensures exists i :: 0 <= i < |v.references[h].chunks| && !ChunkThere(v.references[h], i, v.files)
      ensures moved ==> forall i :: 0 <= i < |v.references[h].chunks| && ChunkThere(v.references[h], i, v.files) ==>
        var k := v.references[h].chunks[i].value.key;
        ChunkFile(k) !in w.files && OrphanFile(h, k) in w.files && w.files[OrphanFile(h, k)] == v.files[ChunkFile(k)]
      ensures moved && MetaFile(h) in v.records ==>
        MetaFile(h) !in w.records && OrphanMeta(h) in w.records && w.records[OrphanMeta(h)] == v.records[MetaFile(h)]
    {
      BrokenMeans(v, w, h, moved);
      if moved {
        GoneMeans(v, w, h);
      }
    }
    forall k
      ensures k in w.registry <==> k in v.registry && forall h, i ::
        h in v.references && h !in w.references && 0 <= i < |v.references[h].chunks| && v.references[h].chunks[i].Some? ==>
          v.references[h].chunks[i].value.key != k
    {
      RegistryMeans(v, w, k, moved);
    }
  }

  /** The chunk is in place, or with the orphans of a file that was put aside. */
  ghost predicate Accounted(v: View, w: View, k: Key)
    requires ChunkFile(k) in v.files
  {
    || (ChunkFile(k) in w.files && w.files[ChunkFile(k)] == v.files[ChunkFile(k)])
    || exists h :: h in v.references && h !in w.references && OrphanFile(h, k) in w.files && w.files[OrphanFile(h, k)] == v.files[ChunkFile(k)]
  }

  /**
    What holds even if files share chunks, when putting one aside may break another: no file
    and no entry appears, every file that was broken is gone, and no chunk is lost.
   */
  ghost predicate Conserved(v: View, w: View, done: set<Hash>) {
    && w.references.Keys <= v.references.Keys && (forall h :: h in w.references ==> w.references[h] == v.references[h])
    && Broken(v, done) !! w.references.Keys && v.references.Keys - done <= w.references.Keys
    && (forall k :: k in w.registry ==> k in v.registry && w.registry[k] == v.registry[k])
    && (forall k :: ChunkFile(k) in w.files ==> ChunkFile(k) in v.files)
    && (forall k :: ChunkFile(k) in v.files ==> Accounted(v, w, k))
  }

  lemma {:induction false} ConservedStep(v: View, w: View, w': View, done: set<Hash>, h: Hash, moved: bool)
    requires Conserved(v, w, done) && h in v.references && h !in done
    requires w'.references == w.references - {h}
    requires w'.registry == w.registry - KeysOf(v.references[h])
    requires Moving(w.files, w'.files, h, KeysOf(v.references[h]), moved)
    ensures Conserved(v, w', done + {h})
  {
    var keys := KeysOf(v.references[h]);
    forall k | ChunkFile(k) in w'.files
      ensures ChunkFile(k) in v.files
    {
      assert k in keys ==> Placed(w.files, w'.files, h, k, moved);
      assert k !in keys ==> SameFile(w.files, w'.files, ChunkFile(k));
    }
    forall k | ChunkFile(k) in v.files
      ensures Accounted(v, w', k)
    {
      StillAccounted(v, w, w', h, k, moved);
    }
  }

  lemma {:induction false} StillAccounted(v: View, w: View, w': View, h: Hash, k: Key, moved: bool)
    requires ChunkFile(k) in v.files && Accounted(v, w, k)
    requires h in v.references && h in w.references && w'.references == w.references - {h}
    requires Moving(w.files, w'.files, h, KeysOf(v.references[h]), moved)
    ensures Accounted(v, w', k)
  {
    if ChunkFile(k) in w.files && w.files[ChunkFile(k)] == v.files[ChunkFile(k)] {
      if k in KeysOf(v.references[h]) {
        assert Placed(w.files, w'.files, h, k, moved);
      } else {
        assert SameFile(w.files, w'.files, ChunkFile(k));
      }
    } else {
      var g :| g in v.references && g !in w.references && OrphanFile(g, k) in w.files && w.files[OrphanFile(g, k)] == v.files[ChunkFile(k)];
      assert SameFile(w.files, w'.files, OrphanFile(g, k));
    }
  }

  lemma {:induction false} ConservedSkip(v: View, w: View, done: set<Hash>, h: Hash)
    requires Conserved(v, w, done) && h in v.references && Intact(v.references[h], w.files)
    ensures Conserved(v, w, done + {h})
  {
    assert Intact(v.references[h], v.files);
    assert Broken(v, done + {h}) == Broken(v, done);
  }

  /**
    Goes through the references in any order and puts aside every file with a chunk
    missing. If no two files share a chunk, what remains is the same whatever the order, and
    whatever moves fail.
   */
  method IdentifyOrphans(ks: KeyStore)
    modifies ks, ks.disk
    ensures Conserved(old(ks.View()), ks.View(), old(ks.references).Keys)
    ensures KeysApart(old(ks.references)) ==> StartedUp(old(ks.View()), ks.View(), NoFaults(ks.disk.faults))
    ensures KeysApart(old(ks.references)) ==> OrphansIdentified(old(ks.View()), ks.View(), NoFaults(ks.disk.faults))
  {
    ghost var v := ks.View();
    var todo := ks.references.Keys;
    ghost var done: set<Hash> := {};
    while todo != {}
      invariant todo + done == v.references.Keys && todo !! done
      invariant Conserved(v, ks.View(), done)
      invariant KeysApart(v.references) ==> SortedOut(v, ks.View(), done, NoFaults(ks.disk.faults))
      decreases todo
    {
      var h :| h in todo;
      var file := ks.references[h];
      var missingAny := MissingAny(file, ks.disk);
      ghost var w := ks.View();
      if !missingAny {
        ConservedSkip(v, w, done, h);
      } else {
        PutAside(ks, h, file);
        ConservedStep(v, w, ks.View(), done, h, NoFaults(ks.disk.faults));
      }
      if KeysApart(v.references) {
        SortedOutStep(v, w, ks.View(), done, h, NoFaults(ks.disk.faults));
      }
      todo := todo - {h};
      done := done + {h};
    }
    if KeysApart(v.references) {
      StartedUpMeans(v, ks.View(), NoFaults(ks.disk.faults));
    }
  }

  // ---------------------------------------------------------------- filling the maps

  function AllKeys(references: map<Hash, FileReference>): set<Key> {
    set h, k | h in references && k in KeysOf(references[h]) :: k
  }

  /** The records of some metadata files, by the hash in the file's name. */
  function ReferencesOf(records: map<Path, FileReference>): map<Hash, FileReference> {
    map p | p in records && p.MetaFile? :: p.hash := records[p]
  }

  predicate Mentions(file: FileReference, chunk: FileChunk) {
    exists i :: 0 <= i < |file.chunks| && file.chunks[i] == Some(chunk)
  }

  /** Exactly the chunks of the references are registered, each as one of its files lists it. */
  predicate Listing(references: map<Hash, FileReference>, registry: map<Key, FileChunk>) {
    && registry.Keys == AllKeys(references)
    && forall k :: k in registry ==> registry[k].key == k && exists h :: h in references && Mentions(references[h], registry[k])
  }

  method RegisterChunks(ks: KeyStore, file: FileReference)
    modifies ks`registry
    ensures ks.registry.Keys == old(ks.registry).Keys + KeysOf(file)
    ensures forall k :: k in ks.registry ==>
      || (k in old(ks.registry) && ks.registry[k] == old(ks.registry)[k])
      || (ks.registry[k].key == k && Mentions(file, ks.registry[k]))
  {
    for i := 0 to |file.chunks|
      invariant ks.registry.Keys == old(ks.registry).Keys + KeysOf(file.(chunks := file.chunks[..i]))
      invariant forall k :: k in ks.registry ==>
        || (k in old(ks.registry) && ks.registry[k] == old(ks.registry)[k])
        || (ks.registry[k].key == k && Mentions(file, ks.registry[k]))
    {
      KeysOfStep(file, i);
      if file.chunks[i].Some? {
        var ref := file.chunks[i].value;
        assert Mentions(file, ref);
        ks.registry := ks.registry[ref.key := ref];
      }
    }
    assert file.(chunks := file.chunks[..|file.chunks|]) == file;
  }

  lemma {:induction false} AllKeysStep(references: map<Hash, FileReference>, h: Hash, file: FileReference)
    requires h !in references
    ensures AllKeys(references[h := file]) == AllKeys(references) + KeysOf(file)
  {
    var r := references[h := file];
    forall k | k in AllKeys(references) + KeysOf(file)
      ensures k in AllKeys(r)
    {
      if k in KeysOf(file) {
        assert h in r && k in KeysOf(r[h]);
      } else {
        var g :| g in references && k in KeysOf(references[g]);
        assert g in r && k in KeysOf(r[g]);
      }
    }
  }

  lemma {:induction false} ListingStep(references: map<Hash, FileReference>, before: map<Key, FileChunk>,
                                       after: map<Key, FileChunk>, h: Hash, file: FileReference)
    requires Listing(references, before) && h !in references
    requires after.Keys == before.Keys + KeysOf(file)
    requires forall k :: k in after ==>
      || (k in before && after[k] == before[k])
      || (after[k].key == k && Mentions(file, after[k]))
    ensures Listing(references[h := file], after)
  {
    AllKeysStep(references, h, file);
    var r := references[h := file];
    forall k | k in after
      ensures after[k].key == k && exists g :: g in r && Mentions(r[g], after[k])
    {
      if k in before && after[k] == before[k] {
        var g :| g in references && Mentions(references[g], before[k]);
        assert g in r && Mentions(r[g], after[k]);
      } else {
        assert h in r && Mentions(r[h], after[k]);
      }
    }
  }

  /** Reads every metadata file, in any order, into both maps. */
  method LoadReferences(ks: KeyStore)
    requires ks.references == map[] && ks.registry == map[]
    modifies ks
    ensures ks.references == ReferencesOf(ks.disk.records)
    ensures Listing(ks.references, ks.registry)
    ensures forall h :: h in ks.references <==> MetaFile(h) in ks.disk.records
    ensures forall h :: h in ks.references ==> ks.references[h] == ks.disk.records[MetaFile(h)]
  {
    var todo := set p | p in ks.disk.records && p.MetaFile?;
    ghost var done: set<Path> := {};
    while todo != {}
      invariant todo + done == (set p | p in ks.disk.records && p.MetaFile?) && todo !! done
      invariant forall h :: h in ks.references <==> MetaFile(h) in done
      invariant forall h :: h in ks.references ==> ks.references[h] == ks.disk.records[MetaFile(h)]
      invariant Listing(ks.references, ks.registry)
      decreases todo
    {
      var p :| p in todo;
      var file := ks.disk.records[p];
      ghost var references, registry := ks.references, ks.registry;
      assert p == MetaFile(p.hash) && p.hash !in references;
      ks.references := ks.references[p.hash := file];
      RegisterChunks(ks, file);
      ListingStep(references, registry, ks.registry, p.hash, file);
      todo := todo - {p};
      done := done + {p};
    }
    LoadedAll(ks.disk.records, ks.references);
  }

  lemma {:induction false} LoadedAll(records: map<Path, FileReference>, references: map<Hash, FileReference>)
    requires forall h :: h in references <==> MetaFile(h) in records
    requires forall h :: h in references ==> references[h] == records[MetaFile(h)]
    ensures references == ReferencesOf(records)
  {
    var r := ReferencesOf(records);
    forall h
      ensures h in r <==> h in references
      ensures h in r ==> r[h] == records[MetaFile(h)]
    {
      if h in r {
        var p :| p in records && p.MetaFile? && p.hash == h;
        assert p == MetaFile(h);
      }
      if h in references {
        var p := MetaFile(h);
        assert p in records && p.MetaFile? && p.hash == h;
      }
    }
  }

  /** A key store on a disk as found. */
  method BootstrapKeyStore(hashes: Hashes, disk: Disk) returns (ks: KeyStore)
    modifies disk
    ensures fresh(ks) && ks.hashes == hashes && ks.disk == disk
    ensures KeysApart(ReferencesOf(old(disk.records))) ==>
      && (forall h :: h in ks.references ==>
            && MetaFile(h) in old(disk.records) && ks.references[h] == old(disk.records)[MetaFile(h)]
            && forall i :: 0 <= i < |ks.references[h].chunks| ==>
              && ChunkThere(ks.references[h], i, disk.files)
              && ks.references[h].chunks[i].value.key in ks.registry)
      && (forall h :: MetaFile(h) in old(disk.records) && h !in ks.references ==>
            exists i :: 0 <= i < |old(disk.records)[MetaFile(h)].chunks| && !ChunkThere(old(disk.records)[MetaFile(h)], i, old(disk.files)))
      && (forall k :: k in ks.registry ==> ChunkFile(k) in disk.files && ks.registry[k].key == k)
    ensures exists registry ::
      var v := View(ReferencesOf(old(disk.records)), registry, old(disk.files), old(disk.records));
      && Listing(v.references, registry) && Conserved(v, ks.View(), v.references.Keys)
      && (KeysApart(v.references) ==> StartedUp(v, ks.View(), NoFaults(disk.faults)))
  {
    ks := new KeyStore(hashes, disk);
    LoadReferences(ks);
    ghost var registry := ks.registry;
    assert ks.View() == View(ReferencesOf(old(disk.records)), registry, old(disk.files), old(disk.records));
    IdentifyOrphans(ks);
    assert Listing(ReferencesOf(old(disk.records)), registry);
    if KeysApart(ReferencesOf(old(disk.records))) {
      StartMeans(View(ReferencesOf(old(disk.records)), registry, old(disk.files), old(disk.records)), ks.View(), NoFaults(disk.faults));
    }
  }

  /** What a start-up leaves in memory, in plain terms: for every key there is a file on disk. */
  lemma {:induction false} StartMeans(v: View, w: View, moved: bool)
    requires v.references == ReferencesOf(v.records) && KeysApart(v.references)
    requires Listing(v.references, v.registry) && StartedUp(v, w, moved)
    ensures forall h :: h in w.references ==>
      && MetaFile(h) in v.records && w.references[h] == v.records[MetaFile(h)]
      && forall i :: 0 <= i < |w.references[h].chunks| ==>
        && ChunkThere(w.references[h], i, w.files)
        && w.references[h].chunks[i].value.key in w.registry
    ensures forall h :: MetaFile(h) in v.records && h !in w.references ==>
      exists i :: 0 <= i < |v.records[MetaFile(h)].chunks| && !ChunkThere(v.records[MetaFile(h)], i, v.files)
    ensures forall k :: k in w.registry ==> ChunkFile(k) in w.files && w.registry[k].key == k
  {
    SurvivorsRegistered(v, w, moved);
    forall h | h in w.references
      ensures MetaFile(h) in v.records && w.references[h] == v.records[MetaFile(h)]
      ensures forall i :: 0 <= i < |w.references[h].chunks| ==>
        ChunkThere(w.references[h], i, w.files) && w.references[h].chunks[i].value.key in w.registry
    {
      SurvivorMeans(v, w, h, moved);
      ReferenceAt(v.records, h);
      forall i | 0 <= i < |w.references[h].chunks|
        ensures w.references[h].chunks[i].value.key in w.registry
      {
        assert ChunkThere(w.references[h], i, w.files);
        assert w.references[h].chunks[i].value.key in KeysOf(w.references[h]);
      }
    }
    forall h | MetaFile(h) in v.records && h !in w.references
      ensures exists i :: 0 <= i < |v.records[MetaFile(h)].chunks| && !ChunkThere(v.records[MetaFile(h)], i, v.files)
    {
      ReferenceAt(v.records, h);
      BrokenMeans(v, w, h, moved);
    }
    forall k | k in w.registry
      ensures ChunkFile(k) in w.files && w.registry[k].key == k
    {
      RegisteredIsThere(v, w, k, moved);
    }
  }

  lemma {:induction false} RegisteredIsThere(v: View, w: View, k: Key, moved: bool)
    requires KeysApart(v.references) && Listing(v.references, v.registry) && StartedUp(v, w, moved)
    requires k in w.registry
    ensures ChunkFile(k) in w.files && w.registry[k].key == k
  {
    SurvivorsRegistered(v, w, moved);
    var h :| h in w.references && k in KeysOf(w.references[h]);
    SurvivorMeans(v, w, h, moved);
    var i :| 0 <= i < |w.references[h].chunks| && w.references[h].chunks[i].Some? && w.references[h].chunks[i].value.key == k;
    assert ChunkThere(w.references[h], i, w.files);
  }

  // ---------------------------------------------------------------- what a start-up guarantees

  lemma {:induction false} SurvivorKeys(v: View, h: Hash)
    requires KeysApart(v.references) && h in v.references && Intact(v.references[h], v.files)
    ensures forall k :: k in KeysOf(v.references[h]) ==> k !in BrokenKeys(v, v.references.Keys)
  {
    forall k | k in BrokenKeys(v, v.references.Keys)
      ensures k !in KeysOf(v.references[h])
    {
      var g :| g in Broken(v, v.references.Keys) && k in KeysOf(v.references[g]);
      assert g != h;
    }
  }

  lemma {:induction false} SurvivorIntact(v: View, w: View, moved: bool, h: Hash)
    requires KeysApart(v.references) && Sorted(v, w, v.references.Keys, moved)
    requires h in v.references && Intact(v.references[h], v.files)
    ensures h in w.references && Intact(v.references[h], w.files)
    ensures forall k :: k in KeysOf(v.references[h]) ==> SameFile(v.files, w.files, ChunkFile(k))
  {
    SurvivorKeys(v, h);
    var file := v.references[h];
    forall i | 0 <= i < |file.chunks|
      ensures ChunkFile(file.chunks[i].value.key) in w.files
    {
      assert file.chunks[i].value.key in KeysOf(file);
      assert SameFile(v.files, w.files, ChunkFile(file.chunks[i].value.key));
    }
  }

  lemma {:induction false} SurvivorsRegistered(v: View, w: View, moved: bool)
    requires KeysApart(v.references) && Listing(v.references, v.registry)
    requires Sorted(v, w, v.references.Keys, moved)
    ensures w.registry.Keys == AllKeys(w.references)
  {
    forall k | k in w.registry
      ensures k in AllKeys(w.references)
    {
      var h :| h in v.references && k in KeysOf(v.references[h]);
      assert h !in Broken(v, v.references.Keys);
      assert h in w.references && k in KeysOf(w.references[h]);
    }
    forall k | k in AllKeys(w.references)
      ensures k in w.registry
    {
      var h :| h in w.references && k in KeysOf(w.references[h]);
      assert h in v.references && k in AllKeys(v.references);
      SurvivorKeys(v, h);
    }
  }

  /** A chunk file on disk before is on disk after, in place or with its file's orphans. */
  predicate ChunkKept(v: View, w: View, h: Hash, k: Key, moved: bool) {
    ChunkFile(k) in v.files ==>
      if ChunkFile(k) in w.files then w.files[ChunkFile(k)] == v.files[ChunkFile(k)] && (moved ==> h in w.references)
      else h !in w.references && OrphanFile(h, k) in w.files && w.files[OrphanFile(h, k)] == v.files[ChunkFile(k)]
  }

  /**
    The survivors are the files that were intact, and they still are; the registry lists
    their chunks and no others; and every chunk file of every known file is in place or,
    if its file was broken, in that file's orphan directory, with its bytes unchanged.
   */
  lemma {:induction false} SurvivorsComplete(v: View, w: View, moved: bool)
    requires KeysApart(v.references) && Listing(v.references, v.registry)
    requires Sorted(v, w, v.references.Keys, moved)
    ensures forall h :: h in w.references <==> h in v.references && Intact(v.references[h], v.files)
    ensures forall h :: h in w.references ==> w.references[h] == v.references[h] && Intact(w.references[h], w.files)
    ensures w.registry.Keys == AllKeys(w.references)
    ensures forall h, k :: h in v.references && k in KeysOf(v.references[h]) ==> ChunkKept(v, w, h, k, moved)
  {
    SurvivorsRegistered(v, w, moved);
    forall h | h in w.references
      ensures w.references[h] == v.references[h] && Intact(w.references[h], w.files)
    {
      SurvivorIntact(v, w, moved, h);
    }
    forall h, k | h in v.references && k in KeysOf(v.references[h])
      ensures ChunkKept(v, w, h, k, moved)
    {
      if h in w.references {
        SurvivorIntact(v, w, moved, h);
      } else {
        assert Placed(v.files, w.files, h, k, moved);
      }
    }
  }

  /** When moves work, the records left in place are those of the survivors. */
  lemma {:induction false} RecordsAreSurvivors(v: View, w: View)
    requires v.references == ReferencesOf(v.records) && StartedUp(v, w, true)
    ensures ReferencesOf(w.records) == w.references
  {
    forall h
      ensures h in w.references <==> MetaFile(h) in w.records
      ensures h in w.references ==> w.references[h] == w.records[MetaFile(h)]
    {
      ReferenceAt(v.records, h);
      assert RecordPlaced(v.records, w.records, h, h in Broken(v, v.references.Keys), true);
    }
    LoadedAll(w.records, w.references);
  }

  lemma {:induction false} ReferenceAt(records: map<Path, FileReference>, h: Hash)
    ensures h in ReferencesOf(records) <==> MetaFile(h) in records
    ensures h in ReferencesOf(records) ==> ReferencesOf(records)[h] == records[MetaFile(h)]
  {
    var p := MetaFile(h);
    assert p.MetaFile? && p.hash == h;
  }

  /** Where no file is broken, a start-up changes nothing. */
  lemma {:induction false} NothingBroken(v: View, w: View, moved: bool)
    requires Listing(v.references, v.registry) && StartedUp(v, w, moved)
    requires forall h :: h in v.references ==> Intact(v.references[h], v.files)
    ensures w.references == v.references && w.registry == v.registry
    ensures SameDisk(v, w)
  {
    assert Broken(v, v.references.Keys) == {};
    assert BrokenKeys(v, v.references.Keys) == {};
    forall h
      ensures SameFile(v.records, w.records, MetaFile(h)) && SameFile(v.records, w.records, OrphanMeta(h))
    {
      assert RecordPlaced(v.records, w.records, h, h in Broken(v, v.references.Keys), moved);
    }
  }

  ghost predicate SameDisk(v: View, w: View) {
    && (forall k :: SameFile(v.files, w.files, ChunkFile(k)))
    && (forall h, k :: SameFile(v.files, w.files, OrphanFile(h, k)))
    && (forall h :: SameFile(v.records, w.records, MetaFile(h)) && SameFile(v.records, w.records, OrphanMeta(h)))
  }

  lemma {:induction false} SameDiskFrom(v: View, w: View, w': View)
    requires w.files == v.files && w.records == v.records && SameDisk(v, w')
    ensures SameDisk(w, w')
  {
  }

  /**
    Starting up settles a disk: after one start whose moves worked, another loads the same
    references and the same keys and leaves every chunk file, orphan and record where it is.
   */
  lemma {:induction false} SecondStartChangesNothing(v: View, w: View, v': View, w': View, moved: bool)
    requires KeysApart(v.references) && v.references == ReferencesOf(v.records)
    requires Listing(v.references, v.registry) && StartedUp(v, w, true)
    requires v'.references == ReferencesOf(w.records) && v'.files == w.files && v'.records == w.records
    requires Listing(v'.references, v'.registry) && StartedUp(v', w', moved)
    ensures w'.references == w.references && w'.registry.Keys == w.registry.Keys
    ensures SameDisk(w, w')
  {
    RecordsAreSurvivors(v, w);
    SurvivorsComplete(v, w, true);
    NothingBroken(v', w', moved);
    SameDiskFrom(v', w, w');
  }

  /** A file whose record places its chunks under another storage directory. */
  predicate PlacedElsewhere(file: FileReference) {
    forall i :: 0 <= i < |file.chunks| ==>
      file.chunks[i].Some? && file.chunks[i].value.location == Some(Elsewhere(file.chunks[i].value.key))
  }

  /**
    A record keeps the paths under which the chunks were written, while a start-up looks for
    them under the present directory. Once the storage directory has moved, a file counts as
    intact and is kept, but it cannot be read.
   */
  lemma {:induction false} MovedDirectoryLosesFile(v: View, w: View, hashes: Hashes, h: Hash, moved: bool)
    requires KeysApart(v.references) && Listing(v.references, v.registry) && StartedUp(v, w, moved)
    requires h in v.references && v.references[h].chunks != []
    requires PlacedElsewhere(v.references[h]) && Intact(v.references[h], v.files)
    requires forall k :: Elsewhere(k) !in w.files
    ensures h in w.references && Intact(w.references[h], w.files)
    ensures Reassembled(w, hashes, h) == Err(Unreadable)
  {
    var k := v.references[h].chunks[0].value.key;
    SurvivorIntact(v, w, moved, h);
    SurvivorKeys(v, h);
    RegisteredElsewhere(v, h, k);
    SO.UnreadableFirst(w, hashes, h);
  }

  lemma {:induction false} RegisteredElsewhere(v: View, h: Hash, k: Key)
    requires KeysApart(v.references) && Listing(v.references, v.registry)
    requires h in v.references && PlacedElsewhere(v.references[h]) && k in KeysOf(v.references[h])
    ensures k in v.registry && v.registry[k].location == Some(Elsewhere(k))
  {
    assert k in AllKeys(v.references);
    var g :| g in v.references && Mentions(v.references[g], v.registry[k]);
    assert k in KeysOf(v.references[g]);
    assert g == h;
  }

  /** A stored file survives a restart: what its record and the disk held, the new store holds. */
  lemma {:induction false} HeldAcrossRestart(u: View, v: View, w: View, j: Job, moved: bool)
    requires Complete(j) && RT.Holds(u, j)
    requires MetaFile(j.fileHash) in u.records && u.records[MetaFile(j.fileHash)] == u.references[j.fileHash]
    requires v.references == ReferencesOf(u.records) && v.files == u.files
    requires KeysApart(v.references) && Listing(v.references, v.registry)
    requires Sorted(v, w, v.references.Keys, moved)
    ensures RT.Holds(w, j)
  {
    var h := j.fileHash;
    var p := MetaFile(h);
    assert p in u.records && p.MetaFile? && p.hash == h;
    var file := v.references[h];
    assert file == u.references[h];
    forall i | 0 <= i < j.count
      ensures file.chunks[i] == Some(ChunkAt(j, LastUse(j, j.count, i)))
      ensures KeyAt(j, i) in KeysOf(file) && ChunkFile(KeyAt(j, i)) in v.files
    {
      assert RT.HoldsChunk(u, j, i);
      assert file.chunks[i].value.key == KeyAt(j, i);
    }
    SurvivorIntact(v, w, moved, h);
    SurvivorKeys(v, h);
    forall i | 0 <= i < j.count
      ensures RT.HoldsChunk(w, j, i)
    {
      assert RT.HoldsChunk(u, j, i);
      ListedAsHeld(v, j, i);
      assert SameFile(v.files, w.files, ChunkFile(KeyAt(j, i)));
    }
  }

  lemma {:induction false} ListedAsHeld(v: View, j: Job, i: nat)
    requires KeysApart(v.references) && Listing(v.references, v.registry)
    requires j.fileHash in v.references && i < j.count
    requires |v.references[j.fileHash].chunks| == j.count
    requires forall n :: 0 <= n < j.count ==> v.references[j.fileHash].chunks[n] == Some(ChunkAt(j, LastUse(j, j.count, n)))
    requires KeyAt(j, i) in KeysOf(v.references[j.fileHash])
    ensures KeyAt(j, i) in v.registry && v.registry[KeyAt(j, i)] == ChunkAt(j, LastUse(j, j.count, i))
  {
    var k, h := KeyAt(j, i), j.fileHash;
    assert k in AllKeys(v.references);
    var g :| g in v.references && Mentions(v.references[g], v.registry[k]);
    var n :| 0 <= n < |v.references[g].chunks| && v.references[g].chunks[n] == Some(v.registry[k]);
    assert k in KeysOf(v.references[g]);
    assert g == h;
    assert KeyAt(j, n) == KeyAt(j, LastUse(j, j.count, n)) == k;
    SameKeySameLast(j, j.count, i, n);
  }

  lemma {:induction false} SameKeySameLast(j: Job, n: nat, a: nat, b: nat)
    requires a < n && b < n && KeyAt(j, a) == KeyAt(j, b)
    ensures LastUse(j, n, a) == LastUse(j, n, b)
  {
  }
}
