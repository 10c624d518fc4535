/** The older eager index `src/indexer/index/HashFileIndex.java` as a class
    over its three maps and its id counter. Every method is proved to leave
    the maps as the matching function of `EagerIndexSpec` says; the
    invariants are proved about those functions. */
module EagerIndex {
  import opened JavaTypes
  import opened PathUtils
  import opened Files
  import opened EagerIndexSpec

  class HashFileIndex {
    var tokenFilesMap: Postings
    var idFileMap: map<FileId, Path>
    var fileIdMap: map<Path, FileId>
    var lastAddedFileId: int

    /** The index's current value. */
    function Abs(): EState
      reads this
    {
      EState(tokenFilesMap, idFileMap, fileIdMap, lastAddedFileId)
    }

    ghost predicate Valid()
      reads this
    {
      Inv(Abs())
    }

    /** A new index is empty, valid and clean. */
    constructor ()
      ensures Abs() == Empty() && Valid() && Clean(Abs())
    {
      tokenFilesMap := map[];
      idFileMap := map[];
      fileIdMap := map[];
      lastAddedFileId := -1;
      EmptyInv();
    }

    /** `containsFile(path)`. */
    function ContainsFile(p: Path): (r: bool)
      reads this
      ensures r <==> Contains(Abs(), p)
    {
      p in fileIdMap
    }

    /** `search(t)`: the path of every id in `t`'s set, walked in some order. */
    method Search(t: Token) returns (r: seq<Option<Path>>, order: seq<FileId>)
      ensures Answers(Abs(), t, order, r)
    {
      r, order := [], [];
      if t in tokenFilesMap {
        var rest := tokenFilesMap[t];
        while rest != {}
          invariant rest <= tokenFilesMap[t]
          invariant forall id :: id in order <==> id in tokenFilesMap[t] && id !in rest
          invariant forall i, j :: 0 <= i < j < |order| ==> order[i] != order[j]
          invariant |r| == |order|
          invariant forall i :: 0 <= i < |r| ==> r[i] == PathOf(idFileMap, order[i])
          decreases rest
        {
          var id :| id in rest;
          r := r + [PathOf(idFileMap, id)];
          order := order + [id];
          rest := rest - {id};
        }
      }
    }

    /** `addFile(path)`. */
    method AddFile(p: Path, read: FileRead) returns (added: bool)
      requires Valid()
      modifies this
      ensures Valid() && (Clean(old(Abs())) ==> Clean(Abs()))
      ensures (Abs(), added) == EagerIndexSpec.AddFile(old(Abs()), p, read)
    {
      ghost var s0 := Abs();
      added := true;
      if !ContainsFile(p) {
        var tokens := TokensOf(read);
        if tokens.None? {
          added := false;
        } else {
          lastAddedFileId := lastAddedFileId + 1;
          idFileMap := idFileMap[FileId(lastAddedFileId) := p];
          fileIdMap := fileIdMap[p := FileId(lastAddedFileId)];
          PutTokensToMaps(tokens.value);
        }
      }
      assert Valid() && (Clean(s0) ==> Clean(Abs())) by {
        assert (Abs(), added) == EagerIndexSpec.AddFile(s0, p, read);
        AddFilePreservesInv(s0, p, read);
      }
    }

    /** `putTokensToMaps(tokens, path)`: the current id joins the set of
        every token, a missing set being created. */
    method PutTokensToMaps(tokens: seq<Token>)
      modifies this
      ensures tokenFilesMap == PutTokens(old(tokenFilesMap), tokens, FileId(lastAddedFileId))
      ensures idFileMap == old(idFileMap) && fileIdMap == old(fileIdMap)
      ensures lastAddedFileId == old(lastAddedFileId)
    {
      var id := FileId(lastAddedFileId);
      for i := 0 to |tokens|
        invariant tokenFilesMap == PutTokens(old(tokenFilesMap), tokens[..i], id)
        invariant idFileMap == old(idFileMap) && fileIdMap == old(fileIdMap)
        invariant lastAddedFileId == old(lastAddedFileId)
      {
        var t := tokens[i];
        assert tokens[..i + 1][..i] == tokens[..i];
        if t in tokenFilesMap {
          tokenFilesMap := tokenFilesMap[t := tokenFilesMap[t] + {id}];
        } else {
          tokenFilesMap := tokenFilesMap[t := {id}];
        }
      }
      assert tokens[..|tokens|] == tokens;
    }

    /** `removeFileIteratingAll(path)`. */
    method RemoveFileIteratingAll(p: Path)
      requires Valid()
      modifies this
      ensures Valid() && (Clean(old(Abs())) ==> Clean(Abs()))
      ensures Abs() == EagerIndexSpec.RemoveIteratingAll(old(Abs()), p)
    {
      RemoveIteratingAllPreservesInv(Abs(), p);
      if ContainsFile(p) {
        var fileId := fileIdMap[p];
        RemoveIteratingAll(fileId);
        idFileMap := idFileMap - {fileId};
        fileIdMap := fileIdMap - {p};
      }
    }

    /** `removeIteratingAll(id)`: walk every token, take `id` out of its set
        and drop the token when its set is left empty. */
    method RemoveIteratingAll(fileId: FileId)
      modifies this
      ensures tokenFilesMap == Prune(old(tokenFilesMap), old(tokenFilesMap).Keys, {fileId})
      ensures idFileMap == old(idFileMap) && fileIdMap == old(fileIdMap)
      ensures lastAddedFileId == old(lastAddedFileId)
    {
      ghost var start := tokenFilesMap;
      PruneNothing(start, {fileId});
      var keys := tokenFilesMap.Keys;
      while keys != {}
        invariant keys <= start.Keys
        invariant tokenFilesMap == Prune(start, start.Keys - keys, {fileId})
        invariant idFileMap == old(idFileMap) && fileIdMap == old(fileIdMap)
        invariant lastAddedFileId == old(lastAddedFileId)
        decreases keys
      {
        var t :| t in keys;
        PruneStep(start, start.Keys - keys, t, {fileId});
        var files := tokenFilesMap[t] - {fileId};
        if files == {} {
          tokenFilesMap := tokenFilesMap - {t};
        } else {
          tokenFilesMap := tokenFilesMap[t := files];
        }
        assert start.Keys - (keys - {t}) == (start.Keys - keys) + {t};
        keys := keys - {t};
      }
    }

    /** `removeFileReadingDisk(path)`. */
    method RemoveFileReadingDisk(p: Path, read: FileRead) returns (ok: bool)
      requires Valid()
      modifies this
      ensures Valid()
      ensures (Abs(), ok) == EagerIndexSpec.RemoveReadingDisk(old(Abs()), p, read)
    {
      RemoveReadingDiskPreservesInv(Abs(), p, read);
      if ContainsFile(p) {
        var fileId := fileIdMap[p];
        var removed := RemoveReadingFromDisk(fileId, read);
        if !removed {
          return false;
        }
        idFileMap := idFileMap - {fileId};
        fileIdMap := fileIdMap - {p};
      }
      return true;
    }

    /** `removeReadingFromDisk(path, id)`: re-read the file and take `id` out
        of the set of each token it holds now. */
    method RemoveReadingFromDisk(fileId: FileId, read: FileRead) returns (ok: bool)
      modifies this
      ensures ok <==> read.Read?
      ensures ok ==> tokenFilesMap == Prune(old(tokenFilesMap), Distinct(read.tokens), {fileId})
      ensures !ok ==> tokenFilesMap == old(tokenFilesMap)
      ensures idFileMap == old(idFileMap) && fileIdMap == old(fileIdMap)
      ensures lastAddedFileId == old(lastAddedFileId)
    {
      var tokens := TokensOf(read);
      if tokens.None? {
        return false;
      }
      var toks := tokens.value;
      ghost var start := tokenFilesMap;
      assert Distinct(toks[..0]) == {};
      PruneNothing(start, {fileId});
      for i := 0 to |toks|
        invariant tokenFilesMap == Prune(start, Distinct(toks[..i]), {fileId})
        invariant idFileMap == old(idFileMap) && fileIdMap == old(fileIdMap)
        invariant lastAddedFileId == old(lastAddedFileId)
      {
        var t := toks[i];
        assert toks[..i + 1] == toks[..i] + [t];
        assert Distinct(toks[..i + 1]) == Distinct(toks[..i]) + {t};
        PruneStep(start, Distinct(toks[..i]), t, {fileId});
        if t in tokenFilesMap {
          var files := tokenFilesMap[t] - {fileId};
          if files == {} {
            tokenFilesMap := tokenFilesMap - {t};
          } else {
            tokenFilesMap := tokenFilesMap[t := files];
          }
        }
      }
      assert toks[..|toks|] == toks;
      return true;
    }

    /** `handleFileModification(path)`. */
    method HandleFileModification(p: Path, read: FileRead) returns (r: Outcome<bool>)
      requires Valid()
      modifies this
      ensures Valid() && (Clean(old(Abs())) ==> Clean(Abs()))
      ensures (Abs(), r) == EagerIndexSpec.HandleFileModification(old(Abs()), p, read)
    {
      HandleFileModificationPreservesInv(Abs(), p, read);
      if !read.Unreadable? {
        if ContainsFile(p) {
          RemoveFileIteratingAll(p);
          var added := AddFile(p, read);
          if !added {
            return Throw(InconsistentIndex);
          }
        }
        return Return(true);
      }
      return Return(false);
    }

    /** `removeDirectory(dir)`. Each id met in a set is looked up in
        `idFileMap`; a stale id would make that lookup `null` and the call
        fail, so the index must be clean. */
    method RemoveDirectory(dir: Path)
      requires Valid() && Clean(Abs())
      modifies this
      ensures Valid() && Clean(Abs())
      ensures Abs() == EagerIndexSpec.RemoveDirectory(old(Abs()), dir)
    {
      ghost var start := tokenFilesMap;
      ghost var gone := Gone(idFileMap, dir);
      PruneNothing(start, gone);
      var keys := tokenFilesMap.Keys;
      while keys != {}
        invariant keys <= start.Keys
        invariant tokenFilesMap == Prune(start, start.Keys - keys, gone)
        invariant Abs().(postings := start) == old(Abs())
        decreases keys
      {
        var t :| t in keys;
        PruneStep(start, start.Keys - keys, t, gone);
        var kept := RemoveChildren(dir, tokenFilesMap[t]);
        if kept == {} {
          tokenFilesMap := tokenFilesMap - {t};
        } else {
          tokenFilesMap := tokenFilesMap[t := kept];
        }
        assert start.Keys - (keys - {t}) == (start.Keys - keys) + {t};
        keys := keys - {t};
      }
      RemoveFromFileIdMaps(dir);
      assert Valid() && Clean(Abs()) by {
        assert Abs() == EagerIndexSpec.RemoveDirectory(old(Abs()), dir);
        RemoveDirectoryPreservesInv(old(Abs()), dir);
      }
    }

    /** `removeChildren(dir, set)`: the set without the ids of files strictly
        below `dir`. */
    method RemoveChildren(dir: Path, files: set<FileId>) returns (kept: set<FileId>)
      requires forall id :: id in files ==> id in idFileMap
      ensures kept == files - Gone(idFileMap, dir)
    {
      kept := files;
      var rest := files;
      while rest != {}
        invariant rest <= files
        invariant kept == set id | id in files && (id !in rest ==> !IsStrictDescendant(dir, idFileMap[id]))
        decreases rest
      {
        var id :| id in rest;
        if IsStrictDescendant(dir, idFileMap[id]) {
          kept := kept - {id};
        }
        rest := rest - {id};
      }
    }

    /** `removeFromFileIdMaps(dir)`: walk `fileIdMap` and drop every file
        strictly below `dir` from both id maps. */
    method RemoveFromFileIdMaps(dir: Path)
      requires Inverse(idFileMap, fileIdMap)
      modifies this
      ensures idFileMap == map id | id in old(idFileMap) && !IsStrictDescendant(dir, old(idFileMap)[id]) :: old(idFileMap)[id]
      ensures fileIdMap == map q | q in old(fileIdMap) && !IsStrictDescendant(dir, q) :: old(fileIdMap)[q]
      ensures tokenFilesMap == old(tokenFilesMap) && lastAddedFileId == old(lastAddedFileId)
    {
      ghost var paths, ids := idFileMap, fileIdMap;
      UnmapStart(paths, ids, dir);
      var keys := fileIdMap.Keys;
      while keys != {}
        invariant keys <= ids.Keys
        invariant fileIdMap == UnmapIds(ids, dir, keys) && idFileMap == UnmapPaths(paths, dir, keys)
        invariant tokenFilesMap == old(tokenFilesMap) && lastAddedFileId == old(lastAddedFileId)
        decreases keys
      {
        var q :| q in keys;
        UnmapStep(paths, ids, dir, keys, q);
        if IsStrictDescendant(dir, q) {
          var id := fileIdMap[q];
          idFileMap := idFileMap - {id};
          fileIdMap := fileIdMap - {q};
        }
        keys := keys - {q};
      }
      UnmapDone(paths, ids, dir);
    }
  }
}
