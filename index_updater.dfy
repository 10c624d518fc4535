/** `src/main/java/indexer/handler/IndexUpdater.java`: the events handler
    that applies file-system events to the lazy index. The directory walk of
    an added event is the sequence of files `Files.walkFileTree` visits; the
    functions here say what the walk queues and how it is batched, and the
    class `IndexUpdater` is proved to change the index as they say. */
module IndexUpdaters {
  import opened JavaTypes
  import opened PathUtils
  import opened Files
  import opened LazyIndexSpec
  import opened LazyIndex

  /** `ADD_FILE_CACHE_SIZE`: a cache holding more files than this is
      handed to the adder pool. */
  const AddFileCacheSize := 1000

  /** One step of the walk: a visited file, with whether the encoding
      detector returned a result for it, or an `IOException` from the walk
      or from the detector, which ends the walk. */
  datatype Visit = Visited(file: Path, detected: bool) | VisitFailed

  /** Where the walk stands: the batches handed to the pool so far, the
      files cached since, and whether the walk failed. */
  datatype Walked = Walked(batches: seq<seq<Path>>, cache: seq<Path>, failed: bool)

  /** `AdderFileVisitor.visitFile` over the visits, in order: a detected
      file is cached, and a cache of more than `AddFileCacheSize` files
      becomes a batch and is emptied. */
  function Walk(visits: seq<Visit>): Walked
    decreases |visits|
  {
    if visits == [] then Walked([], [], false)
    else
      var w := Walk(visits[..|visits| - 1]);
      if w.failed then w
      else match visits[|visits| - 1]
        case VisitFailed => w.(failed := true)
        case Visited(file, detected) =>
          if !detected then w
          else
            var cache := w.cache + [file];
            if |cache| > AddFileCacheSize then w.(batches := w.batches + [cache], cache := [])
            else w.(cache := cache)
  }

  /** The files the walk queues, independently of batching: every detected
      file visited before the first failure, in visit order. */
  function Queued(visits: seq<Visit>): seq<Path>
    decreases |visits|
  {
    if visits == [] || visits[0].VisitFailed? then []
    else (if visits[0].detected then [visits[0].file] else []) + Queued(visits[1..])
  }

  /** The batches concatenated. */
  function Flatten(batches: seq<seq<Path>>): seq<Path>
    decreases |batches|
  {
    if batches == [] then [] else batches[0] + Flatten(batches[1..])
  }

  /** `onFilesRemovedEvent(path)`: a contained path is removed as a file,
      any other path as a directory. */
  function Removed(s: State, p: Path): (r: State)
    requires Inv(s)
    ensures Inv(r)
  {
    if Contains(s, p) then
      RemoveFilePreservesInv(s, p);
      RemoveFile(s, p)
    else
      RemoveDirectoryPreservesInv(s, p);
      RemoveDirectory(s, p)
  }

  /** `onFilesModifiedEvent(path)`: the index's `handleFileModification`,
      its inconsistency becoming `NotHandledEventException` and its boolean
      answer dropped. */
  function Modified(s: State, p: Path, read: FileRead): (State, Outcome<()>)
    requires Inv(s)
  {
    var (s', r) := HandleFileModification(s, p, read);
    (s', if r == Throw(InconsistentIndex) then Throw(NotHandledEvent) else Return(()))
  }

  // ================================================================ lemmas

  lemma {:induction false} FlattenSnoc(batches: seq<seq<Path>>, c: seq<Path>)
    ensures Flatten(batches + [c]) == Flatten(batches) + c
    decreases |batches|
  {
    if batches == [] {
      assert [c][1..] == [];
    } else {
      assert (batches + [c])[1..] == batches[1..] + [c];
      FlattenSnoc(batches[1..], c);
    }
  }

  /** Queueing one more visit. */
  lemma {:induction false} QueuedSnoc(visits: seq<Visit>, x: Visit)
    ensures Queued(visits + [x]) ==
              if VisitFailed in visits || x.VisitFailed? || !x.detected then Queued(visits)
              else Queued(visits) + [x.file]
    decreases |visits|
  {
    if visits == [] {
      assert Queued([x]) == (if x.VisitFailed? || !x.detected then [] else [x.file]) + Queued([]);
    } else if !visits[0].VisitFailed? {
      assert (visits + [x])[1..] == visits[1..] + [x];
      QueuedSnoc(visits[1..], x);
      assert VisitFailed in visits <==> VisitFailed in visits[1..];
    }
  }

  /** The walk fails exactly when some visit fails; full batches hold
      exactly `AddFileCacheSize + 1` files, the cache never more than
      `AddFileCacheSize`; and the batches followed by the cache are exactly
      the queued files, each once, in visit order. */
  lemma {:induction false} WalkShape(visits: seq<Visit>)
    ensures var w := Walk(visits);
            && (w.failed <==> VisitFailed in visits)
            && (forall i :: 0 <= i < |w.batches| ==> |w.batches[i]| == AddFileCacheSize + 1)
            && |w.cache| <= AddFileCacheSize
            && Flatten(w.batches) + w.cache == Queued(visits)
    decreases |visits|
  {
    if visits != [] {
      var a, x := visits[..|visits| - 1], visits[|visits| - 1];
      assert visits == a + [x];
      WalkShape(a);
      QueuedSnoc(a, x);
      var w := Walk(a);
      if !w.failed && x.Visited? && x.detected {
        var cache := w.cache + [x.file];
        if |cache| > AddFileCacheSize {
          FlattenSnoc(w.batches, cache);
          assert Flatten(w.batches + [cache]) + [] == Flatten(w.batches) + w.cache + [x.file];
        } else {
          assert Flatten(w.batches) + cache == Flatten(w.batches) + w.cache + [x.file];
        }
      }
    }
  }

  /** Nothing the walk meets after a failure changes it. */
  lemma {:induction false} WalkAfterFailure(visits: seq<Visit>, i: int)
    requires 0 <= i <= |visits| && Walk(visits[..i]).failed
    ensures Walk(visits) == Walk(visits[..i])
    decreases |visits|
  {
    if i < |visits| {
      var a := visits[..|visits| - 1];
      assert a[..i] == visits[..i];
      WalkAfterFailure(a, i);
    } else {
      assert visits[..i] == visits;
    }
  }

  /** Adding two lists of files one after the other is adding their
      concatenation, so the batches can be added separately. */
  lemma {:induction false} AddFilesConcat(s: State, a: seq<Path>, b: seq<Path>, disk: Disk)
    requires Inv(s)
    ensures AddFiles(AddFiles(s, a, disk), b, disk) == AddFiles(s, a + b, disk)
    decreases |b|
  {
    if b == [] {
      assert a + b == a;
    } else {
      var b', x := b[..|b| - 1], b[|b| - 1];
      AddFilesConcat(s, a, b', disk);
      assert (a + b)[..|a + b| - 1] == a + b';
    }
  }

  /** A removed event leaves the path uncontained. A contained path goes
      alone; any other path takes every contained path under it along. The
      posting lists are not touched. */
  lemma RemovedOutcome(s: State, p: Path)
    requires Inv(s)
    ensures !Contains(Removed(s, p), p)
    ensures forall q :: Contains(Removed(s, p), q) <==>
              Contains(s, q) && q != p && (Contains(s, p) || !IsStrictDescendant(p, q))
    ensures Removed(s, p).postings == s.postings
  {
    RemoveFileOutcome(s, p);
    RemoveDirectoryOutcome(s, p);
    forall q
      ensures Contains(Removed(s, p), q) <==>
                Contains(s, q) && q != p && (Contains(s, p) || !IsStrictDescendant(p, q))
    {
      if !Contains(s, p) && q == p {
        assert !Contains(s, q);
      }
    }
  }

  /** Removing the same path twice leaves the index as the first removal
      did, when a contained path (a file) has nothing contained under it. */
  lemma RemovedTwice(s: State, p: Path)
    requires Inv(s)
    requires Contains(s, p) ==> Victims(s, p) == {}
    ensures Removed(Removed(s, p), p) == Removed(s, p)
  {
    var s1 := Removed(s, p);
    RemovedOutcome(s, p);
    assert Victims(s1, p) == {};
    var s2 := RemovePaths(s1, {});
    assert s2.entries == s1.entries;
    assert s2.fileIds == s1.fileIds;
  }

  /** A modified event fails exactly when a contained file can no longer be
      read, and keeps the index invariant. */
  lemma ModifiedOutcome(s: State, p: Path, read: FileRead)
    requires Inv(s)
    ensures Inv(Modified(s, p, read).0)
    ensures Modified(s, p, read).1.Throw? <==> read.ReadFailed? && Contains(s, p)
    ensures Modified(s, p, read).1.Throw? ==> Modified(s, p, read).1 == Throw(NotHandledEvent)
    ensures !Contains(s, p) || read.Unreadable? ==> Modified(s, p, read).0 == s
  {
    HandleFileModificationOutcome(s, p, read);
    HandleFileModificationPreservesInv(s, p, read);
  }

  // ================================================================ class

  class IndexUpdater {
    const fileIndex: HashFileIndex

    constructor (fileIndex: HashFileIndex)
      ensures this.fileIndex == fileIndex
    {
      this.fileIndex := fileIndex;
    }

    /** `onFilesAddedEvent(path)`, `visits` being the walk from `path`: the
        batches go to the index as they fill, the last cache after the walk.
        On a failed walk the batches already handed over are still added and
        the call throws `NotHandledEventException`; on a complete walk the
        index has added every queued file, in visit order. */
    method OnFilesAddedEvent(visits: seq<Visit>, disk: Disk) returns (r: Outcome<()>)
      requires fileIndex.Valid()
      modifies fileIndex
      ensures fileIndex.Valid()
      ensures var w := Walk(visits);
              && r == (if w.failed then Throw(NotHandledEvent) else Return(()))
              && fileIndex.Abs()
                 == AddFiles(old(fileIndex.Abs()), Flatten(w.batches) + (if w.failed then [] else w.cache), disk)
      ensures r.Return? ==> fileIndex.Abs() == AddFiles(old(fileIndex.Abs()), Queued(visits), disk)
    {
      ghost var s0 := fileIndex.Abs();
      var cache: seq<Path> := [];
      ghost var batches: seq<seq<Path>> := [];
      assert Flatten(batches) == [];
      for i := 0 to |visits|
        invariant fileIndex.Valid()
        invariant Walk(visits[..i]) == Walked(batches, cache, false)
        invariant fileIndex.Abs() == AddFiles(s0, Flatten(batches), disk)
      {
        assert visits[..i + 1][..i] == visits[..i];
        match visits[i]
        case VisitFailed =>
          WalkAfterFailure(visits, i + 1);
          assert Flatten(batches) + [] == Flatten(batches);
          return Throw(NotHandledEvent);
        case Visited(file, detected) =>
          if detected {
            cache := cache + [file];
            if |cache| > AddFileCacheSize {
              AddFilesConcat(s0, Flatten(batches), cache, disk);
              FlattenSnoc(batches, cache);
              fileIndex.AddFiles(cache, disk);
              batches := batches + [cache];
              cache := [];
            }
          }
      }
      assert visits[..|visits|] == visits;
      AddFilesConcat(s0, Flatten(batches), cache, disk);
      fileIndex.AddFiles(cache, disk);
      WalkShape(visits);
      r := Return(());
    }

    /** `onFilesRemovedEvent(path)`. */
    method OnFilesRemovedEvent(p: Path)
      requires fileIndex.Valid()
      modifies fileIndex, fileIndex.idFileMap.Values
      ensures fileIndex.Valid()
      ensures fileIndex.Abs() == Removed(old(fileIndex.Abs()), p)
    {
      var contained := fileIndex.ContainsFile(p);
      if contained {
        fileIndex.RemoveFile(p);
      } else {
        fileIndex.RemoveDirectory(p);
      }
    }

    /** `onFilesModifiedEvent(path)`, `read` being what reading the file
        again yields. */
    method OnFilesModifiedEvent(p: Path, read: FileRead) returns (r: Outcome<()>)
      requires fileIndex.Valid()
      modifies fileIndex, fileIndex.idFileMap.Values
      ensures fileIndex.Valid()
      ensures (fileIndex.Abs(), r) == Modified(old(fileIndex.Abs()), p, read)
    {
      var handled := fileIndex.HandleFileModification(p, read);
      r := if handled == Throw(InconsistentIndex) then Throw(NotHandledEvent) else Return(());
    }
  }
}
