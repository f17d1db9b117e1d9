/**
  Whole lives of a key store: any number of files stored one after another, by either route
  and however each store ends, stores cut short, and restarts on the disk they left.
 */
module StoreRuns {
  import opened Wrappers
  import opened ChunkSizes
  import opened Stores
  import opened StoreOutcomes
  import opened Bootstraps
  import RT = RoundTrips

  /**
    One file's store, how it ended, and whether removals worked meanwhile; a store cut short
    by a crash; or a restart, with what it loaded and whether moves worked.
   */
  datatype Event =
    | Attempted(job: Job, result: Result<FileReference, StoreError>, removesWork: bool)
    | Interrupted(job: Job)
    | Restarted(loaded: View, moved: bool)

  /** Any change at all, to a file's own chunks, reference and record; a record there is lists the file's keys. */
  ghost predicate OwnChange(v: View, w: View, j: Job) {
    && RT.AgreeExcept(v, w, KeysBelow(j, j.count), j.fileHash)
    && (forall h :: MetaFile(h) in w.records ==>
          || (MetaFile(h) in v.records && w.records[MetaFile(h)] == v.records[MetaFile(h)])
          || (h == j.fileHash && RecordOf(w.records[MetaFile(h)], j)))
    && (forall h :: h != j.fileHash && MetaFile(h) in v.records ==> MetaFile(h) in w.records)
  }

  /** A record written by storing a job. */
  ghost predicate RecordOf(file: FileReference, job: Job) {
    KeysOf(file) == KeysBelow(job, job.count)
  }

  ghost predicate Happens(v: View, w: View, e: Event) {
    match e
    case Attempted(job, result, removesWork) => StoreOutcome(v, w, job, result, removesWork)
    case Interrupted(job) => OwnChange(v, w, job)
    case Restarted(loaded, moved) =>
      && loaded.references == ReferencesOf(v.records) && loaded.files == v.files && loaded.records == v.records
      && Listing(loaded.references, loaded.registry)
      && (KeysApart(loaded.references) ==> StartedUp(loaded, w, moved))
  }

  /** views[i] is what memory and disk held before the i-th event; jobs are all the files ever stored. */
  ghost predicate Life(jobs: seq<Job>, views: seq<View>, events: seq<Event>) {
    && |views| == |events| + 1
    && (forall i :: 0 <= i < |events| ==> Happens(views[i], views[i + 1], events[i]))
    && (forall i :: 0 <= i < |events| && !events[i].Restarted? ==> events[i].job in jobs)
  }

  function AllKeyInputs(jobs: seq<Job>): set<Bytes> {
    set i, b | 0 <= i < |jobs| && b in RT.KeyInputs(jobs[i]) :: b
  }

  /** One pair of hash functions, whose keys do not collide. */
  ghost predicate SoundHashes(hashes: Hashes, jobs: seq<Job>) {
    && (forall i :: 0 <= i < |jobs| ==> jobs[i].hashes == hashes)
    && RT.CollisionFree(hashes.sha1, AllKeyInputs(jobs))
  }

  lemma {:induction false} SoundPair(hashes: Hashes, jobs: seq<Job>, a: Job, b: Job)
    requires SoundHashes(hashes, jobs) && a in jobs && b in jobs
    ensures a.hashes == b.hashes == hashes
    ensures RT.CollisionFree(hashes.sha1, RT.KeyInputs(a) + RT.KeyInputs(b))
  {
    assert forall x :: x in RT.KeyInputs(a) ==> x in AllKeyInputs(jobs);
    assert forall x :: x in RT.KeyInputs(b) ==> x in AllKeyInputs(jobs);
  }

  // ---------------------------------------------------------------- the records a life leaves

  ghost predicate RecordedFor(file: FileReference, h: Hash, jobs: seq<Job>) {
    exists j :: j in jobs && j.fileHash == h && RecordOf(file, j)
  }

  /** Every record on disk was written for one of the files, under that file's hash. */
  ghost predicate Recorded(w: View, jobs: seq<Job>) {
    forall h :: MetaFile(h) in w.records ==> RecordedFor(w.records[MetaFile(h)], h, jobs)
  }

  lemma {:induction false} FinalRecordKeys(v: View, j: Job)
    ensures RecordOf(FinalRecord(v, j), j)
  {
    WithChunksKeys(v, j, j.count);
    var file := FinalRecord(v, j);
    forall i | 0 <= i < j.count
      ensures file.chunks[i].Some? && file.chunks[i].value.key == KeyAt(j, i)
    {
      WithChunksLast(v, j, j.count, i);
    }
    forall k | k in KeysBelow(j, j.count)
      ensures k in KeysOf(file)
    {
      var i :| 0 <= i < j.count && KeyAt(j, i) == k;
      assert file.chunks[i].value.key == k;
    }
  }

  /** A store touches at most its own file's record. */
  lemma {:induction false} RecordsOutcome(v: View, w: View, j: Job, r: Result<FileReference, StoreError>, removesWork: bool, h: Hash)
    requires StoreOutcome(v, w, j, r, removesWork) && MetaFile(h) in w.records
    ensures
      || (MetaFile(h) in v.records && w.records[MetaFile(h)] == v.records[MetaFile(h)])
      || (h == j.fileHash && RecordOf(w.records[MetaFile(h)], j))
  {
    FinalRecordKeys(v, j);
  }

  lemma {:induction false} RecordedKeysApart(hashes: Hashes, jobs: seq<Job>, w: View)
    requires SoundHashes(hashes, jobs) && Recorded(w, jobs)
    ensures KeysApart(ReferencesOf(w.records))
  {
    var refs := ReferencesOf(w.records);
    forall g, h | g in refs && h in refs && g != h
      ensures KeysOf(refs[g]) !! KeysOf(refs[h])
    {
      ReferenceAt(w.records, g);
      ReferenceAt(w.records, h);
      assert RecordedFor(w.records[MetaFile(g)], g, jobs) && RecordedFor(w.records[MetaFile(h)], h, jobs);
      var a :| a in jobs && a.fileHash == g && RecordOf(w.records[MetaFile(g)], a);
      var b :| b in jobs && b.fileHash == h && RecordOf(w.records[MetaFile(h)], b);
      SoundPair(hashes, jobs, a, b);
      RT.KeysDisjoint(a, b);
    }
  }

  lemma {:induction false} EventKeepsRecorded(hashes: Hashes, jobs: seq<Job>, v: View, w: View, e: Event)
    requires SoundHashes(hashes, jobs) && Recorded(v, jobs) && Happens(v, w, e)
    requires !e.Restarted? ==> e.job in jobs
    ensures Recorded(w, jobs)
  {
    forall h | MetaFile(h) in w.records
      ensures RecordedFor(w.records[MetaFile(h)], h, jobs)
    {
      match e {
        case Attempted(job, result, removesWork) => RecordsOutcome(v, w, job, result, removesWork, h);
        case Interrupted(_) =>
        case Restarted(loaded, moved) =>
          RecordedKeysApart(hashes, jobs, v);
          assert RecordPlaced(loaded.records, w.records, h, h in Broken(loaded, loaded.references.Keys), moved);
      }
      if MetaFile(h) in v.records {
        assert RecordedFor(v.records[MetaFile(h)], h, jobs);
      }
    }
  }

  lemma {:induction false} LifeIsRecorded(hashes: Hashes, jobs: seq<Job>, views: seq<View>, events: seq<Event>, n: nat)
    requires Life(jobs, views, events) && SoundHashes(hashes, jobs) && Recorded(views[0], jobs) && n <= |events|
    ensures Recorded(views[n], jobs)
    decreases n
  {
    if n > 0 {
      var m := n - 1;
      LifeIsRecorded(hashes, jobs, views, events, m);
      assert Happens(views[m], views[m + 1], events[m]);
      EventKeepsRecorded(hashes, jobs, views[m], views[m + 1], events[m]);
    }
  }

  /**
    Whatever files a key store was asked to store in its life, and however each store and
    each restart ended, the records on its disk share no chunk key: the next start-up can
    sort them out. The life may begin on a disk that holds records of an earlier one.
   */
  lemma {:induction false} LifeKeepsKeysApart(hashes: Hashes, jobs: seq<Job>, views: seq<View>, events: seq<Event>, n: nat)
    requires Life(jobs, views, events) && SoundHashes(hashes, jobs) && Recorded(views[0], jobs) && n <= |events|
    ensures KeysApart(ReferencesOf(views[n].records))
  {
    LifeIsRecorded(hashes, jobs, views, events, n);
    RecordedKeysApart(hashes, jobs, views[n]);
  }

  // ---------------------------------------------------------------- the files a life keeps

  /** No later event stores the same file. */
  predicate LastFor(events: seq<Event>, i: nat)
    requires i < |events| && !events[i].Restarted?
  {
    forall m :: i < m < |events| ==> events[m].Restarted? || events[m].job.fileHash != events[i].job.fileHash
  }

  /** The file is held, and its record on disk is the one in memory. */
  ghost predicate Kept(w: View, j: Job) {
    && RT.Holds(w, j)
    && MetaFile(j.fileHash) in w.records && w.records[MetaFile(j.fileHash)] == w.references[j.fileHash]
  }

  lemma {:induction false} KeptThroughStore(v: View, w: View, j: Job, o: Job, r: Result<FileReference, StoreError>, removesWork: bool)
    requires Kept(v, j) && StoreOutcome(v, w, o, r, removesWork)
    requires o.hashes == j.hashes && o.fileHash != j.fileHash
    requires RT.CollisionFree(j.hashes.sha1, RT.KeyInputs(j) + RT.KeyInputs(o))
    ensures Kept(w, j)
  {
    HoldsThroughStore(v, w, j, o, r, removesWork);
  }

  lemma {:induction false} KeptThroughChange(v: View, w: View, j: Job, o: Job)
    requires Kept(v, j) && OwnChange(v, w, o)
    requires o.hashes == j.hashes && o.fileHash != j.fileHash
    requires RT.CollisionFree(j.hashes.sha1, RT.KeyInputs(j) + RT.KeyInputs(o))
    ensures Kept(w, j)
  {
    RT.KeysDisjoint(j, o);
    RT.HoldsElsewhere(v, w, j, KeysBelow(o, o.count), o.fileHash);
  }

  lemma {:induction false} KeptThroughRestart(u: View, v: View, w: View, j: Job, moved: bool)
    requires Kept(u, j) && Complete(j)
    requires v.references == ReferencesOf(u.records) && v.files == u.files && v.records == u.records
    requires KeysApart(v.references) && Listing(v.references, v.registry) && StartedUp(v, w, moved)
    ensures Kept(w, j)
  {
    HeldAcrossRestart(u, v, w, j, moved);
    ReferenceAt(u.records, j.fileHash);
    assert j.fileHash in w.references && j.fileHash !in Broken(v, v.references.Keys);
    assert RecordPlaced(v.records, w.records, j.fileHash, false, moved);
  }

  lemma {:induction false} KeptThroughEvent(hashes: Hashes, jobs: seq<Job>, v: View, w: View, e: Event, j: Job)
    requires SoundHashes(hashes, jobs) && Recorded(v, jobs) && Happens(v, w, e)
    requires j in jobs && Complete(j) && Kept(v, j)
    requires !e.Restarted? ==> e.job in jobs && e.job.fileHash != j.fileHash
    ensures Kept(w, j)
  {
    match e {
      case Attempted(o, result, removesWork) =>
        SoundPair(hashes, jobs, j, o);
        KeptThroughStore(v, w, j, o, result, removesWork);
      case Interrupted(o) =>
        SoundPair(hashes, jobs, j, o);
        KeptThroughChange(v, w, j, o);
      case Restarted(loaded, moved) =>
        RecordedKeysApart(hashes, jobs, v);
        KeptThroughRestart(v, loaded, w, j, moved);
    }
  }

  lemma {:induction false} KeptFrom(hashes: Hashes, jobs: seq<Job>, views: seq<View>, events: seq<Event>, j: Job, m: nat)
    requires Life(jobs, views, events) && SoundHashes(hashes, jobs) && Recorded(views[0], jobs)
    requires m <= |events| && j in jobs && Complete(j) && Kept(views[m], j)
    requires forall h :: m <= h < |events| ==> events[h].Restarted? || events[h].job.fileHash != j.fileHash
    ensures Kept(views[|events|], j)
    decreases |events| - m
  {
    if m < |events| {
      LifeIsRecorded(hashes, jobs, views, events, m);
      assert Happens(views[m], views[m + 1], events[m]);
      KeptThroughEvent(hashes, jobs, views[m], views[m + 1], events[m], j);
      KeptFrom(hashes, jobs, views, events, j, m + 1);
    }
  }

  /**
    A file whose store reported success is held at the end of the life, unless it was itself
    stored again: whatever faults there were, whatever became of the others, and however
    often the key store was restarted.
   */
  lemma {:induction false} LifeKeepsFile(hashes: Hashes, jobs: seq<Job>, views: seq<View>, events: seq<Event>, i: nat)
    requires Life(jobs, views, events) && SoundHashes(hashes, jobs) && Recorded(views[0], jobs)
    requires i < |events| && events[i].Attempted? && events[i].result.Ok? && LastFor(events, i)
    requires RT.CollisionFree(hashes.sha256, Involved(views[i + 1], events[i].job))
    ensures Kept(views[|events|], events[i].job)
  {
    var j := events[i].job;
    assert Happens(views[i], views[i + 1], events[i]);
    SoundPair(hashes, jobs, j, j);
    ReportedIsHeld(views[i], views[i + 1], j, events[i].result.value, events[i].removesWork);
    KeptFrom(hashes, jobs, views, events, j, i + 1);
  }

  /** And it reads back, exactly if no chunk of it overwrote another and it did not change while being stored. */
  lemma {:induction false} LifeReadsBack(hashes: Hashes, jobs: seq<Job>, views: seq<View>, events: seq<Event>, i: nat)
    requires Life(jobs, views, events) && SoundHashes(hashes, jobs) && Recorded(views[0], jobs)
    requires i < |events| && events[i].Attempted? && events[i].result.Ok? && LastFor(events, i)
    requires RT.CollisionFree(hashes.sha256, Involved(views[i + 1], events[i].job))
    ensures Reassembled(views[|events|], hashes, events[i].job.fileHash) == Ok(events[i].job.data)
      <==> RT.NothingOverwritten(events[i].job) && events[i].job.fileHash == hashes.sha256(events[i].job.data)
  {
    assert Happens(views[i], views[i + 1], events[i]);
    LifeKeepsFile(hashes, jobs, views, events, i);
    RT.RoundTrip(views[|events|], events[i].job);
  }
}
