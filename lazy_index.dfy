/** `indexer.index.HashFileIndex` (src/main/java): the lazy-deletion index as
    an object. Its three hash maps and the id counter are fields, the file
    entries are shared `FileEntry` objects whose flags and counters the
    methods update in place, and every method is proved to move the
    abstract state exactly as the functions of `LazyIndexSpec` say. */
module LazyIndex {
  import opened JavaTypes
  import opened PathUtils
  import opened FileEntries
  import opened Files
  import opened LazyIndexSpec

  class HashFileIndex {
    var tokenFilesMap: map<Token, seq<int>>
    var idFileMap: map<int, FileEntry>
    var fileIdMap: map<Path, int>
    var lastAddedFileId: int

    /** The values the entry objects hold, kept beside them. */
    ghost var entries: map<int, EntryView>

    /** Each id's entry object holds the value recorded for it. */
    ghost predicate Coupled()
      reads this, idFileMap.Values
    {
      && idFileMap.Keys == entries.Keys
      && forall id :: id in idFileMap ==> idFileMap[id].View() == entries[id]
    }

    /** No two ids share an entry object. */
    ghost predicate Distinct()
      reads this
    {
      forall i, j :: i in idFileMap && j in idFileMap && i != j ==> idFileMap[i] != idFileMap[j]
    }

    ghost function Abs(): State
      reads this
    {
      State(tokenFilesMap, entries, fileIdMap, lastAddedFileId)
    }

    ghost predicate Valid()
      reads this, idFileMap.Values
    {
      Distinct() && Coupled() && Inv(Abs())
    }

    constructor ()
      ensures Valid() && Abs() == Empty()
    {
      tokenFilesMap := map[];
      idFileMap := map[];
      fileIdMap := map[];
      lastAddedFileId := -1;
      entries := map[];
    }

    /** `idFileMap.get(id).setRemoved()`: only that entry object changes. */
    method MarkRemoved(id: int)
      requires Distinct() && Coupled() && id in idFileMap
      modifies this, idFileMap[id]
      ensures Distinct() && Coupled()
      ensures entries == old(entries)[id := old(entries)[id].(removed := true)]
      ensures tokenFilesMap == old(tokenFilesMap) && idFileMap == old(idFileMap)
      ensures fileIdMap == old(fileIdMap) && lastAddedFileId == old(lastAddedFileId)
    {
      idFileMap[id].SetRemoved();
      entries := entries[id := entries[id].(removed := true)];
      assert forall j :: j in idFileMap && j != id ==> idFileMap[j] != idFileMap[id];
    }

    /** `fileEntry.decreaseTokensCounter()` on the entry of `id`; answers
        the counter's new value. */
    method DecreaseCounter(id: int) returns (counter: int)
      requires Distinct() && Coupled() && id in idFileMap
      modifies this, idFileMap[id]
      ensures Distinct() && Coupled()
      ensures entries == old(entries)[id := old(entries)[id].(count := old(entries)[id].count - 1)]
      ensures counter == old(entries)[id].count - 1
      ensures tokenFilesMap == old(tokenFilesMap) && idFileMap == old(idFileMap)
      ensures fileIdMap == old(fileIdMap) && lastAddedFileId == old(lastAddedFileId)
    {
      var fileEntry := idFileMap[id];
      fileEntry.DecreaseTokensCounter();
      entries := entries[id := entries[id].(count := entries[id].count - 1)];
      assert forall j :: j in idFileMap && j != id ==> idFileMap[j] != fileEntry;
      counter := fileEntry.GetTokensCounter();
    }

    /** `containsFile(path)`. */
    method ContainsFile(p: Path) returns (r: bool)
      requires Valid()
      ensures r == Contains(Abs(), p)
    {
      r := p in fileIdMap;
    }

    /** `putInMap(token, newId)`. */
    method PutInMap(token: Token, newId: int) returns (r: bool)
      requires token in tokenFilesMap ==> tokenFilesMap[token] != []
      modifies this
      ensures (tokenFilesMap, r) == LazyIndexSpec.PutInMap(old(tokenFilesMap), token, newId)
      ensures idFileMap == old(idFileMap) && fileIdMap == old(fileIdMap) && entries == old(entries)
      ensures lastAddedFileId == old(lastAddedFileId)
    {
      if token !in tokenFilesMap {
        tokenFilesMap := tokenFilesMap[token := [newId]];
        r := true;
      } else if tokenFilesMap[token][|tokenFilesMap[token]| - 1] != newId {
        tokenFilesMap := tokenFilesMap[token := tokenFilesMap[token] + [newId]];
        r := true;
      } else {
        r := false;
      }
    }

    /** `putTokensToMap(tokens)`: post every token under the current id. */
    method PutTokensToMap(tokens: seq<Token>) returns (putTokens: int)
      requires NonEmptyLists(tokenFilesMap)
      modifies this
      ensures (tokenFilesMap, putTokens) == PutTokens(old(tokenFilesMap), tokens, lastAddedFileId)
      ensures idFileMap == old(idFileMap) && fileIdMap == old(fileIdMap) && entries == old(entries)
      ensures lastAddedFileId == old(lastAddedFileId)
    {
      putTokens := 0;
      for i := 0 to |tokens|
        invariant (tokenFilesMap, putTokens) == PutTokens(old(tokenFilesMap), tokens[..i], lastAddedFileId)
        invariant idFileMap == old(idFileMap) && fileIdMap == old(fileIdMap) && entries == old(entries)
        invariant lastAddedFileId == old(lastAddedFileId)
      {
        assert tokens[..i + 1][..i] == tokens[..i];
        var posted := PutInMap(tokens[i], lastAddedFileId);
        if posted {
          putTokens := putTokens + 1;
        }
      }
      assert tokens[..|tokens|] == tokens;
    }

    /** `addFile(file)`; `read` is what reading the file yields. */
    method AddFile(p: Path, read: FileRead) returns (r: bool)
      requires Valid()
      modifies this
      ensures Valid()
      ensures (Abs(), r) == LazyIndexSpec.AddFile(old(Abs()), p, read)
      ensures fresh(idFileMap.Values - old(idFileMap.Values))
    {
      if read.Unreadable? {
        return false;
      }
      if p !in fileIdMap {
        if read.ReadFailed? {
          return false;
        }
        ghost var s := Abs();
        AddFilePreservesInv(s, p, read);
        lastAddedFileId := lastAddedFileId + 1;
        var putTokens := PutTokensToMap(read.tokens);
        var entry := new FileEntry(p, putTokens);
        Register(lastAddedFileId, entry);
        fileIdMap := fileIdMap[p := lastAddedFileId];
        assert Abs() == LazyIndexSpec.AddFile(s, p, read).0;
      }
      r := true;
    }

    /** `idFileMap.put(id, entry)` for a new id and a new entry object. */
    method Register(id: int, entry: FileEntry)
      requires Distinct() && Coupled() && id !in idFileMap
      requires forall j :: j in idFileMap ==> idFileMap[j] != entry
      modifies this
      ensures Distinct() && Coupled()
      ensures idFileMap == old(idFileMap)[id := entry] && entries == old(entries)[id := entry.View()]
      ensures tokenFilesMap == old(tokenFilesMap) && fileIdMap == old(fileIdMap)
      ensures lastAddedFileId == old(lastAddedFileId)
    {
      idFileMap := idFileMap[id := entry];
      entries := entries[id := entry.View()];
    }

    /** `addFiles(files)`. */
    method AddFiles(paths: seq<Path>, disk: Disk)
      requires Valid()
      modifies this
      ensures Valid()
      ensures Abs() == LazyIndexSpec.AddFiles(old(Abs()), paths, disk)
      ensures fresh(idFileMap.Values - old(idFileMap.Values))
    {
      for i := 0 to |paths|
        invariant Valid()
        invariant Abs() == LazyIndexSpec.AddFiles(old(Abs()), paths[..i], disk)
        invariant fresh(idFileMap.Values - old(idFileMap.Values))
      {
        assert paths[..i + 1][..i] == paths[..i];
        var _ := AddFile(paths[i], ReadOf(disk, paths[i]));
      }
      assert paths[..|paths|] == paths;
    }

    /** `removeFile(path)`: tombstone the entry, unmap the path. */
    method RemoveFile(p: Path)
      requires Valid()
      modifies this, idFileMap.Values
      ensures Valid()
      ensures Abs() == LazyIndexSpec.RemoveFile(old(Abs()), p)
      ensures idFileMap == old(idFileMap)
    {
      if p in fileIdMap {
        ghost var s := Abs();
        RemoveFilePreservesInv(s, p);
        var fileId := fileIdMap[p];
        MarkRemoved(fileId);
        fileIdMap := fileIdMap - {p};
      }
    }

    /** `removeDirectory(dir)`: visit every path mapping once and tombstone
        and unmap the strict descendants of `dir`. */
    method RemoveDirectory(dir: Path)
      requires Valid()
      modifies this, idFileMap.Values
      ensures Valid()
      ensures Abs() == LazyIndexSpec.RemoveDirectory(old(Abs()), dir)
      ensures idFileMap == old(idFileMap)
    {
      RemoveDirectoryPreservesInv(Abs(), dir);
      RemoveDescendants(dir);
    }

    /** The loop of `removeDirectory`, which needs of the invariant only that
        every mapped path has its entry. */
    method RemoveDescendants(dir: Path)
      requires Distinct() && Coupled()
      requires forall q :: q in fileIdMap ==> fileIdMap[q] in entries
      modifies this, idFileMap.Values
      ensures Distinct() && Coupled()
      ensures Abs() == RemovePaths(old(Abs()), Victims(old(Abs()), dir))
      ensures idFileMap == old(idFileMap)
    {
      ghost var s := Abs();
      DirSweepStart(s, dir);
      var unvisited := fileIdMap.Keys;
      ghost var removed: set<Path> := {};
      while unvisited != {}
        invariant Distinct() && Coupled() && idFileMap == old(idFileMap)
        invariant DirSweepAt(s, dir, unvisited, removed, Abs())
        decreases |unvisited|
      {
        var q :| q in unvisited;
        removed := VisitPath(dir, q, s, unvisited, removed);
        unvisited := unvisited - {q};
      }
      DirSweepDone(s, dir, removed, Abs());
    }

    /** One turn of that loop: tombstone and unmap `q` when it lies strictly
        under `dir`. */
    method VisitPath(dir: Path, q: Path, ghost s: State, ghost unvisited: set<Path>, ghost removed: set<Path>)
        returns (ghost removed': set<Path>)
      requires Distinct() && Coupled()
      requires DirSweepAt(s, dir, unvisited, removed, Abs()) && q in unvisited
      modifies this, idFileMap.Values
      ensures Distinct() && Coupled() && idFileMap == old(idFileMap)
      ensures DirSweepAt(s, dir, unvisited - {q}, removed', Abs())
    {
      removed' := removed;
      if IsStrictDescendant(dir, q) {
        RemovePathsStep(s, removed, q);
        MarkRemoved(fileIdMap[q]);
        Unmap(q);
        removed' := removed + {q};
      }
    }

    /** `fileIdMap.remove(path)`, which touches no entry. */
    method Unmap(p: Path)
      requires Distinct() && Coupled()
      modifies this
      ensures Distinct() && Coupled()
      ensures fileIdMap == old(fileIdMap) - {p}
      ensures tokenFilesMap == old(tokenFilesMap) && idFileMap == old(idFileMap)
      ensures entries == old(entries) && lastAddedFileId == old(lastAddedFileId)
    {
      fileIdMap := fileIdMap - {p};
    }

    /** `doPostponedRemoves(list)` on the list of `t`: the list in place
        loses its tombstoned ids, their counters drop by one, and entries
        reaching zero leave `idFileMap` and their PATH leaves `fileIdMap`. */
    method DoPostponedRemoves(t: Token)
      requires Valid() && t in tokenFilesMap
      modifies this, idFileMap.Values
      ensures (InvListFacts(old(Abs()), t);
               var r := Sweep(old(tokenFilesMap[t]), old(entries), old(fileIdMap));
               && tokenFilesMap == old(tokenFilesMap)[t := r.kept]
               && entries == r.entries && fileIdMap == r.fileIds)
      ensures idFileMap.Keys <= old(idFileMap.Keys) && Distinct() && Coupled()
      ensures forall id :: id in idFileMap ==> idFileMap[id] == old(idFileMap[id])
      ensures idFileMap.Values <= old(idFileMap.Values)
      ensures lastAddedFileId == old(lastAddedFileId)
    {
      InvListFacts(Abs(), t);
      var list := tokenFilesMap[t];
      ghost var goal := Sweep(list, entries, fileIdMap);
      SweepAtStart(list, entries, fileIdMap);
      var kept: seq<int> := [];
      var i := 0;
      while i < |list|
        invariant SweepAt(list, i, kept, entries, fileIdMap, goal)
        invariant idFileMap.Keys <= old(idFileMap.Keys) && Distinct() && Coupled()
        invariant forall id :: id in idFileMap ==> idFileMap[id] == old(idFileMap[id])
        invariant idFileMap.Values <= old(idFileMap.Values)
        invariant tokenFilesMap == old(tokenFilesMap) && lastAddedFileId == old(lastAddedFileId)
        decreases |list| - i
      {
        kept := VisitId(list, i, kept, goal);
        i := i + 1;
      }
      SweepAtDone(list, kept, entries, fileIdMap, goal);
      tokenFilesMap := tokenFilesMap[t := kept];
    }

    /** One turn of that loop, on the `i`-th id of the list. */
    method VisitId(list: seq<int>, i: int, kept: seq<int>, ghost goal: SweepResult) returns (kept': seq<int>)
      requires Distinct() && Coupled()
      requires SweepAt(list, i, kept, entries, fileIdMap, goal) && i < |list|
      modifies this, idFileMap.Values
      ensures Distinct() && Coupled()
      ensures SweepAt(list, i + 1, kept', entries, fileIdMap, goal)
      ensures idFileMap.Keys <= old(idFileMap.Keys)
      ensures forall id :: id in idFileMap ==> idFileMap[id] == old(idFileMap[id])
      ensures idFileMap.Values <= old(idFileMap.Values)
      ensures tokenFilesMap == old(tokenFilesMap) && lastAddedFileId == old(lastAddedFileId)
    {
      SweepAtStep(list, i, kept, entries, fileIdMap, goal);
      var fileId := list[i];
      var fileEntry := idFileMap[fileId];
      assert fileEntry.View() == entries[fileId];
      ghost var ent := entries;
      kept' := kept;
      if fileEntry.IsRemoved() {
        var counter := DecreaseCounter(fileId);
        if counter == 0 {
          Evict(fileId, fileEntry.GetFilePath());
          assert entries == ent - {fileId};
        }
      } else {
        kept' := kept + [fileId];
      }
    }

    /** `fileIdMap.remove(path)` and `idFileMap.remove(id)` for an entry whose
        counter reached zero. */
    method Evict(id: int, p: Path)
      requires Distinct() && Coupled() && id in idFileMap
      modifies this
      ensures Distinct() && Coupled()
      ensures idFileMap == old(idFileMap) - {id} && entries == old(entries) - {id}
      ensures idFileMap.Values <= old(idFileMap.Values)
      ensures fileIdMap == old(fileIdMap) - {p}
      ensures tokenFilesMap == old(tokenFilesMap) && lastAddedFileId == old(lastAddedFileId)
    {
      fileIdMap := fileIdMap - {p};
      idFileMap := idFileMap - {id};
      entries := entries - {id};
    }

    /** `getPaths(list)`. */
    method GetPaths(list: seq<int>) returns (paths: seq<Path>)
      requires Coupled() && AllIn(list, entries)
      ensures paths == LazyIndexSpec.GetPaths(list, entries)
    {
      paths := [];
      for i := 0 to |list|
        invariant |paths| == i && Coupled()
        invariant forall k :: 0 <= k < i ==> paths[k] == entries[list[k]].path
      {
        assert forall id :: id in idFileMap ==> idFileMap[id].View() == entries[id];
        assert list[i] in entries;
        paths := paths + [idFileMap[list[i]].GetFilePath()];
      }
    }

    /** `search(token)`. */
    method Search(tokenToFind: Token) returns (r: seq<Path>)
      requires Valid()
      modifies this, idFileMap.Values
      ensures Valid()
      ensures (Abs(), r) == LazyIndexSpec.Search(old(Abs()), tokenToFind)
      ensures idFileMap.Keys <= old(idFileMap.Keys)
    {
      if tokenToFind !in tokenFilesMap {
        return [];
      }
      SearchAnswer(Abs(), tokenToFind);
      var emptied := SweepToken(tokenToFind);
      if emptied {
        r := [];
      } else {
        r := GetPaths(tokenFilesMap[tokenToFind]);
      }
    }

    /** `doPostponedRemoves` on the list of `t`, then `t` dropped when its
        list emptied: the state change `search` and `forceRemoves` share. */
    method SweepToken(t: Token) returns (emptied: bool)
      requires Valid() && t in tokenFilesMap
      modifies this, idFileMap.Values
      ensures Valid() && Abs() == LazyIndexSpec.Search(old(Abs()), t).0
      ensures emptied <==> t !in tokenFilesMap
      ensures idFileMap.Keys <= old(idFileMap.Keys)
      ensures forall id :: id in idFileMap ==> idFileMap[id] == old(idFileMap[id])
      ensures idFileMap.Values <= old(idFileMap.Values)
    {
      ghost var s := Abs();
      SearchPreservesInv(s, t);
      DoPostponedRemoves(t);
      emptied := tokenFilesMap[t] == [];
      if emptied {
        assert tokenFilesMap - {t} == s.postings - {t};
        tokenFilesMap := tokenFilesMap - {t};
      }
    }

    /** `forceRemoves()`: sweep every list, in whatever order the hash map
        yields its tokens, and drop the tokens whose lists empty. */
    method ForceRemoves()
      requires Valid()
      modifies this, idFileMap.Values
      ensures Valid()
      ensures Abs() == ForceRemoved(old(Abs()))
      ensures idFileMap.Keys <= old(idFileMap.Keys)
    {
      ghost var s := Abs();
      var unvisited := tokenFilesMap.Keys;
      ghost var order: seq<Token> := [];
      VisitOrderStart(unvisited);
      while unvisited != {}
        invariant Distinct() && Coupled() && Abs() == SweepAll(s, order)
        invariant VisitOrder(s.postings.Keys, unvisited, order)
        invariant idFileMap.Keys <= old(idFileMap.Keys)
        invariant forall id :: id in idFileMap ==> idFileMap[id] == old(idFileMap[id])
        invariant idFileMap.Values <= old(idFileMap.Values)
        decreases |unvisited|
      {
        var t :| t in unvisited;
        VisitOrderStep(s.postings.Keys, unvisited, order, t);
        SweepAllUnvisited(s, order, t);
        SweepAllStep(s, order, t);
        var _ := SweepToken(t);
        unvisited := unvisited - {t};
        order := order + [t];
      }
      SweepAllIsForceRemoved(s, order);
    }

    /** `handleFileModification(file)`: re-read a contained file under a new id. */
    method HandleFileModification(p: Path, read: FileRead) returns (r: Outcome<bool>)
      requires Valid()
      modifies this, idFileMap.Values
      ensures Valid()
      ensures (Abs(), r) == LazyIndexSpec.HandleFileModification(old(Abs()), p, read)
    {
      if read.Unreadable? {
        return Return(false);
      }
      if p in fileIdMap {
        RemoveFile(p);
        var added := AddFile(p, read);
        if !added {
          return Throw(InconsistentIndex);
        }
      }
      r := Return(true);
    }
  }
}
