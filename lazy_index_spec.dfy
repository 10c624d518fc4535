/** The value-level meaning of the lazy-deletion index
    (`src/main/java/indexer/index/HashFileIndex.java`): its three maps and its
    id counter as one `State`, every operation as a function of the state, and
    the representation and reference-count invariant every operation keeps.
    The class `LazyIndex.HashFileIndex` is proved to follow these functions. */
module LazyIndexSpec {
  import opened JavaTypes
  import opened PathUtils
  import opened FileEntries
  import opened Files

  /** `tokenFilesMap`, `idFileMap` (as entry values), `fileIdMap`, `lastAddedFileId`. */
  datatype State = State(
    postings: map<Token, seq<int>>,
    entries: map<int, EntryView>,
    fileIds: map<Path, int>,
    lastId: int)

  /** A freshly constructed index. */
  function Empty(): State {
    State(map[], map[], map[], -1)
  }

  predicate StrictlyIncreasing(s: seq<int>) {
    forall i, j :: 0 <= i < j < |s| ==> s[i] < s[j]
  }

  predicate NonEmptyLists(post: map<Token, seq<int>>) {
    forall t :: t in post ==> post[t] != []
  }

  /** The tokens whose posting list holds `id`. */
  function Occurrences(post: map<Token, seq<int>>, id: int): set<Token> {
    set t | t in post && id in post[t]
  }

  /** The representation and reference-count invariant. */
  predicate Inv(s: State) {
    && s.lastId >= -1
    // every path mapping points to a live entry for that path
    && (forall p :: p in s.fileIds ==>
          s.fileIds[p] in s.entries && !s.entries[s.fileIds[p]].removed
          && s.entries[s.fileIds[p]].path == p)
    // posting lists are non-empty and strictly increasing
    && NonEmptyLists(s.postings)
    && (forall t :: t in s.postings ==> StrictlyIncreasing(s.postings[t]))
    // every posted id has its entry
    && (forall t, k :: t in s.postings && 0 <= k < |s.postings[t]| ==> s.postings[t][k] in s.entries)
    // ids come from the counter, and each counter is the number of lists holding its id
    && (forall id :: id in s.entries ==>
          0 <= id <= s.lastId && s.entries[id].count == |Occurrences(s.postings, id)|)
  }

  /** `containsFile`. */
  predicate Contains(s: State, p: Path) {
    p in s.fileIds
  }

  // ---------------------------------------------------------------- adding

  /** `putInMap(token, newId)`: start a list, or append `newId` unless it is
      already the list's last id; the flag says whether the id was posted. */
  function PutInMap(post: map<Token, seq<int>>, t: Token, id: int): (map<Token, seq<int>>, bool)
    requires t in post ==> post[t] != []
  {
    if t !in post then (post[t := [id]], true)
    else if post[t][|post[t]| - 1] != id then (post[t := post[t] + [id]], true)
    else (post, false)
  }

  /** `putTokensToMap(tokens)`: the posting lists after posting every token in
      turn, and how many `putInMap` calls posted the id. */
  function PutTokens(post: map<Token, seq<int>>, tokens: seq<Token>, id: int): (r: (map<Token, seq<int>>, int))
    requires NonEmptyLists(post)
    ensures NonEmptyLists(r.0)
    decreases |tokens|
  {
    if tokens == [] then (post, 0)
    else
      var prev := PutTokens(post, tokens[..|tokens| - 1], id);
      var step := PutInMap(prev.0, tokens[|tokens| - 1], id);
      (step.0, prev.1 + if step.1 then 1 else 0)
  }

  /** `addFile(file)`, with the result it returns. */
  function AddFile(s: State, p: Path, read: FileRead): (State, bool)
    requires NonEmptyLists(s.postings)
  {
    if read.Unreadable? then (s, false)
    else if Contains(s, p) then (s, true)
    else if read.ReadFailed? then (s, false)
    else
      var id := s.lastId + 1;
      var put := PutTokens(s.postings, read.tokens, id);
      (State(put.0, s.entries[id := EntryView(p, false, put.1)], s.fileIds[p := id], id), true)
  }

  /** `addFiles(files)`: each file in turn, failures skipped. */
  function AddFiles(s: State, paths: seq<Path>, disk: Disk): (r: State)
    requires Inv(s)
    ensures Inv(r)
    decreases |paths|
  {
    if paths == [] then s
    else
      var prev := AddFiles(s, paths[..|paths| - 1], disk);
      var p := paths[|paths| - 1];
      AddFilePreservesInv(prev, p, ReadOf(disk, p));
      AddFile(prev, p, ReadOf(disk, p)).0
  }

  // -------------------------------------------------------------- removing

  /** `removeFile(path)`: tombstone the entry and drop the path mapping only. */
  function RemoveFile(s: State, p: Path): State
    requires Inv(s)
  {
    if !Contains(s, p) then s
    else
      var id := s.fileIds[p];
      s.(entries := s.entries[id := s.entries[id].(removed := true)], fileIds := s.fileIds - {p})
  }

  /** The contained paths that `removeDirectory(dir)` unmaps. */
  function Victims(s: State, dir: Path): set<Path> {
    set p | p in s.fileIds && IsStrictDescendant(dir, p)
  }

  /** Tombstone and unmap the given contained paths; posting lists are left alone. */
  function RemovePaths(s: State, victims: set<Path>): State {
    var ids := set p | p in victims && p in s.fileIds :: s.fileIds[p];
    s.(entries := map id | id in s.entries ::
                    if id in ids then s.entries[id].(removed := true) else s.entries[id],
       fileIds := s.fileIds - victims)
  }

  /** Where the loop of `removeDirectory` stands after visiting all mapped
      paths but `unvisited`: exactly the visited strict descendants are gone. */
  ghost predicate DirSweepAt(s: State, dir: Path, unvisited: set<Path>, removed: set<Path>, cur: State) {
    && (forall q :: q in s.fileIds ==> s.fileIds[q] in s.entries)
    && unvisited <= s.fileIds.Keys
    && removed == Victims(s, dir) - unvisited
    && cur == RemovePaths(s, removed)
  }

  /** Before that loop every mapped path is still to be visited. */
  lemma DirSweepStart(s: State, dir: Path)
    requires forall q :: q in s.fileIds ==> s.fileIds[q] in s.entries
    ensures DirSweepAt(s, dir, s.fileIds.Keys, {}, s)
  {
    var r := RemovePaths(s, {});
    assert r.entries == s.entries;
    assert r.fileIds == s.fileIds;
  }

  /** After it, every strict descendant was removed. */
  lemma DirSweepDone(s: State, dir: Path, removed: set<Path>, cur: State)
    requires DirSweepAt(s, dir, {}, removed, cur)
    ensures cur == RemovePaths(s, Victims(s, dir))
  {
    assert removed == Victims(s, dir);
  }

  /** `removeDirectory(dir)`: tombstone and unmap every contained strict
      descendant of `dir`. */
  function RemoveDirectory(s: State, dir: Path): State {
    RemovePaths(s, Victims(s, dir))
  }

  /** `handleFileModification(file)`: re-read a contained, readable file. */
  function HandleFileModification(s: State, p: Path, read: FileRead): (State, Outcome<bool>)
    requires Inv(s)
  {
    if read.Unreadable? then (s, Return(false))
    else if !Contains(s, p) then (s, Return(true))
    else
      RemoveFilePreservesInv(s, p);
      var removed := RemoveFile(s, p);
      var added := AddFile(removed, p, read);
      (added.0, if added.1 then Return(true) else Throw(InconsistentIndex))
  }

  // --------------------------------------------------------------- sweeping

  predicate AllIn(ids: seq<int>, ent: map<int, EntryView>) {
    forall k :: 0 <= k < |ids| ==> ids[k] in ent
  }

  predicate NoDuplicates(ids: seq<int>) {
    forall i, j :: 0 <= i < j < |ids| ==> ids[i] != ids[j]
  }

  datatype SweepResult = SweepResult(kept: seq<int>, entries: map<int, EntryView>, fileIds: map<Path, int>)

  /** `doPostponedRemoves(list)`: walk the list; every tombstoned id is removed
      from it and its counter lowered, and an entry whose counter reaches zero
      is evicted from `idFileMap` and its PATH from `fileIdMap`. */
  function Sweep(ids: seq<int>, ent: map<int, EntryView>, fids: map<Path, int>): SweepResult
    requires AllIn(ids, ent) && NoDuplicates(ids)
    decreases |ids|
  {
    if ids == [] then SweepResult([], ent, fids)
    else
      var id := ids[0];
      var e := ent[id];
      if !e.removed then
        var rest := Sweep(ids[1..], ent, fids);
        SweepResult([id] + rest.kept, rest.entries, rest.fileIds)
      else if e.count - 1 == 0 then
        Sweep(ids[1..], ent - {id}, fids - {e.path})
      else
        Sweep(ids[1..], ent[id := e.(count := e.count - 1)], fids)
  }

  /** The live ids of a list, in list order. */
  function Live(ids: seq<int>, ent: map<int, EntryView>): (r: seq<int>)
    requires AllIn(ids, ent)
    ensures AllIn(r, ent)
    decreases |ids|
  {
    if ids == [] then []
    else
      var rest := Live(ids[1..], ent);
      if ent[ids[0]].removed then rest
      else
        assert forall k :: 1 <= k < |[ids[0]] + rest| ==> ([ids[0]] + rest)[k] == rest[k - 1];
        [ids[0]] + rest
  }

  /** The entries one sweep of `ids` evicts: tombstoned, counter at one. */
  function Evicted(ids: seq<int>, ent: map<int, EntryView>): set<int> {
    set id | id in ent && id in ids && ent[id].removed && ent[id].count == 1
  }

  function EvictedPaths(ids: seq<int>, ent: map<int, EntryView>): set<Path> {
    set id | id in Evicted(ids, ent) :: ent[id].path
  }

  /** The entries after one sweep of `ids`. */
  function SweptEntries(ids: seq<int>, ent: map<int, EntryView>): map<int, EntryView> {
    map id | id in ent && id !in Evicted(ids, ent) ::
      if id in ids && ent[id].removed then ent[id].(count := ent[id].count - 1) else ent[id]
  }

  /** `getPaths(list)`. */
  function GetPaths(ids: seq<int>, ent: map<int, EntryView>): (r: seq<Path>)
    requires AllIn(ids, ent)
    ensures |r| == |ids| && forall k :: 0 <= k < |ids| ==> r[k] == ent[ids[k]].path
  {
    seq(|ids|, k requires 0 <= k < |ids| => ent[ids[k]].path)
  }

  /** The posting lists with the list of `t` replaced by its swept version,
      or `t` dropped when nothing is left. */
  function Replaced(post: map<Token, seq<int>>, t: Token, kept: seq<int>): map<Token, seq<int>> {
    if kept == [] then post - {t} else post[t := kept]
  }

  /** `search(token)`: sweep the token's list, drop the token if the list
      empties, and return the paths of the remaining ids. */
  function Search(s: State, t: Token): (State, seq<Path>)
    requires Inv(s)
  {
    if t !in s.postings then (s, [])
    else
      var ids := s.postings[t];
      InvListFacts(s, t);
      var r := Sweep(ids, s.entries, s.fileIds);
      SweepClosedForm(ids, s.entries, s.fileIds);
      LiveMembers(ids, s.entries);
      (State(Replaced(s.postings, t, r.kept), r.entries, r.fileIds, s.lastId),
       if r.kept == [] then [] else GetPaths(r.kept, r.entries))
  }

  /** `forceRemoves()`: every list swept. Under the invariant the outcome does
      not depend on the order in which the lists are visited: every tombstoned
      entry that is still posted is evicted, and with it its path. */
  function ForceRemoved(s: State): State
    requires Inv(s)
  {
    var gone := set id | id in s.entries && s.entries[id].removed && s.entries[id].count > 0;
    State(
      map t | t in s.postings && Live(s.postings[t], s.entries) != [] :: Live(s.postings[t], s.entries),
      map id | id in s.entries && id !in gone :: s.entries[id],
      s.fileIds - (set id | id in gone :: s.entries[id].path),
      s.lastId)
  }

  // ================================================================ lemmas

  lemma InvListFacts(s: State, t: Token)
    requires Inv(s) && t in s.postings
    ensures AllIn(s.postings[t], s.entries) && NoDuplicates(s.postings[t])
  {
  }

  /** The posting lists after a file's tokens were posted under a fresh id:
      each distinct token's list gains that id once, at its end. */
  function Posted(post: map<Token, seq<int>>, tokens: seq<Token>, id: int): map<Token, seq<int>> {
    map t | t in post.Keys + Distinct(tokens) ::
      (if t in post then post[t] else []) + (if t in tokens then [id] else [])
  }

  /** One more token, posted under the same fresh id. */
  lemma PostedStep(post: map<Token, seq<int>>, init: seq<Token>, x: Token, id: int)
    requires NonEmptyLists(post)
    requires forall t :: t in post ==> id !in post[t]
    requires NonEmptyLists(Posted(post, init, id))
    ensures PutInMap(Posted(post, init, id), x, id)
            == (Posted(post, init + [x], id), x !in init)
    ensures |Distinct(init + [x])| == |Distinct(init)| + if x in init then 0 else 1
  {
    assert Distinct(init + [x]) == Distinct(init) + {x};
    if x in init {
      PostedStepRepeated(post, init, x, id);
    } else if x in post {
      PostedStepOld(post, init, x, id);
    } else {
      PostedStepNew(post, init, x, id);
    }
  }

  lemma PostedStepRepeated(post: map<Token, seq<int>>, init: seq<Token>, x: Token, id: int)
    requires x in init
    ensures x in Posted(post, init, id)
    ensures var pre := Posted(post, init, id);
            pre[x][|pre[x]| - 1] == id && pre == Posted(post, init + [x], id)
  {
    var pre, q := Posted(post, init, id), Posted(post, init + [x], id);
    assert x in Distinct(init);
    assert Distinct(init + [x]) == Distinct(init);
    forall t | t in q ensures t in pre && q[t] == pre[t] {
      assert t in init + [x] <==> t in init;
    }
    assert pre == q;
  }

  lemma PostedStepOld(post: map<Token, seq<int>>, init: seq<Token>, x: Token, id: int)
    requires x !in init && x in post && post[x] != []
    requires id !in post[x]
    ensures var pre := Posted(post, init, id);
            x in pre && pre[x] == post[x] && pre[x][|pre[x]| - 1] != id
            && pre[x := post[x] + [id]] == Posted(post, init + [x], id)
  {
    var pre, q := Posted(post, init, id), Posted(post, init + [x], id);
    assert post[x][|post[x]| - 1] in post[x];
    assert q.Keys == pre.Keys;
    forall t | t in q ensures q[t] == pre[x := post[x] + [id]][t] {
      if t != x {
        assert t in init + [x] <==> t in init;
      }
    }
    assert pre[x := post[x] + [id]] == q;
  }

  lemma PostedStepNew(post: map<Token, seq<int>>, init: seq<Token>, x: Token, id: int)
    requires x !in init && x !in post
    ensures var pre := Posted(post, init, id);
            x !in pre && pre[x := [id]] == Posted(post, init + [x], id)
  {
    var pre, q := Posted(post, init, id), Posted(post, init + [x], id);
    assert x !in Distinct(init);
    assert x in Distinct(init + [x]);
    assert q.Keys == pre.Keys + {x};
    forall t | t in q ensures q[t] == pre[x := [id]][t] {
      if t != x {
        assert t in init + [x] <==> t in init;
      }
    }
    assert pre[x := [id]] == q;
  }

  /** Posting a file's tokens under a fresh id appends that id once to the
      list of each distinct token, and the count is the number of distinct tokens. */
  lemma {:induction false} PutTokensClosedForm(post: map<Token, seq<int>>, tokens: seq<Token>, id: int)
    requires NonEmptyLists(post)
    requires forall t :: t in post ==> id !in post[t]
    ensures PutTokens(post, tokens, id) == (Posted(post, tokens, id), |Distinct(tokens)|)
    decreases |tokens|
  {
    if tokens == [] {
      assert Distinct(tokens) == {};
      forall t | t in post ensures Posted(post, tokens, id)[t] == post[t] {
        assert post[t] + [] == post[t];
      }
      assert Posted(post, tokens, id) == post;
    } else {
      var init, x := tokens[..|tokens| - 1], tokens[|tokens| - 1];
      assert tokens == init + [x];
      PutTokensClosedForm(post, init, id);
      PostedStep(post, init, x, id);
    }
  }

  lemma DistinctOfOne(t: Token)
    ensures Distinct([t]) == {t} && |Distinct([t])| == 1
  {
    assert Distinct([t]) == {t};
  }

  lemma OccurrencesOfMissing(post: map<Token, seq<int>>, id: int)
    requires forall t :: t in post ==> id !in post[t]
    ensures Occurrences(post, id) == {}
  {
  }

  /** Every posted id is below the next id the counter hands out. */
  lemma PostedBelowNext(s: State)
    requires Inv(s)
    ensures forall t, k :: t in s.postings && 0 <= k < |s.postings[t]| ==> s.postings[t][k] <= s.lastId
    ensures forall t :: t in s.postings ==> s.lastId + 1 !in s.postings[t]
  {
    forall t, k | t in s.postings && 0 <= k < |s.postings[t]| ensures s.postings[t][k] <= s.lastId {
      assert s.postings[t][k] in s.entries;
    }
  }

  /** Under `Posted`, the fresh id is in the lists of exactly the file's
      distinct tokens, and every other id is where it was. */
  lemma PostedOccurrences(post: map<Token, seq<int>>, tokens: seq<Token>, id: int, i: int)
    requires forall t :: t in post ==> id !in post[t]
    ensures i == id ==> Occurrences(Posted(post, tokens, id), i) == Distinct(tokens)
    ensures i != id ==> Occurrences(Posted(post, tokens, id), i) == Occurrences(post, i)
  {
  }

  /** Appending an id above every posted id keeps the lists increasing. */
  lemma PostedIncreasing(post: map<Token, seq<int>>, tokens: seq<Token>, id: int)
    requires forall t :: t in post ==> StrictlyIncreasing(post[t])
    requires forall t, k :: t in post && 0 <= k < |post[t]| ==> post[t][k] < id
    ensures forall t :: t in Posted(post, tokens, id) ==> StrictlyIncreasing(Posted(post, tokens, id)[t])
  {
    var q := Posted(post, tokens, id);
    forall t | t in q ensures StrictlyIncreasing(q[t]) {
      var old_ := if t in post then post[t] else [];
      assert q[t] == old_ + (if t in tokens then [id] else []);
    }
  }

  /** The invariant, conjunct by conjunct, so that each preservation proof
      can establish its parts separately. */
  predicate PathMapInv(s: State) {
    forall p :: p in s.fileIds ==>
      s.fileIds[p] in s.entries && !s.entries[s.fileIds[p]].removed
      && s.entries[s.fileIds[p]].path == p
  }

  predicate ListsInv(s: State) {
    && NonEmptyLists(s.postings)
    && (forall t :: t in s.postings ==> StrictlyIncreasing(s.postings[t]))
    && (forall t, k :: t in s.postings && 0 <= k < |s.postings[t]| ==> s.postings[t][k] in s.entries)
  }

  predicate CountsInv(s: State) {
    forall id :: id in s.entries ==>
      0 <= id <= s.lastId && s.entries[id].count == |Occurrences(s.postings, id)|
  }

  lemma InvParts(s: State)
    ensures Inv(s) <==> s.lastId >= -1 && PathMapInv(s) && ListsInv(s) && CountsInv(s)
  {
  }

  /** The state `addFile` builds for a new, readable file. */
  lemma AddedState(s: State, p: Path, read: FileRead)
    requires NonEmptyLists(s.postings) && read.Read? && !Contains(s, p)
    requires forall t :: t in s.postings ==> s.lastId + 1 !in s.postings[t]
    ensures var id := s.lastId + 1;
            AddFile(s, p, read).0
            == State(Posted(s.postings, read.tokens, id),
                     s.entries[id := EntryView(p, false, |Distinct(read.tokens)|)],
                     s.fileIds[p := id], id)
  {
    var put := PutTokens(s.postings, read.tokens, s.lastId + 1);
    PutTokensClosedForm(s.postings, read.tokens, s.lastId + 1);
    assert put.0 == Posted(s.postings, read.tokens, s.lastId + 1);
    assert put.1 == |Distinct(read.tokens)|;
  }

  lemma AddFileKeepsLists(s: State, p: Path, read: FileRead)
    requires Inv(s) && read.Read? && !Contains(s, p)
    ensures ListsInv(AddFile(s, p, read).0)
  {
    var id := s.lastId + 1;
    PostedBelowNext(s);
    AddedState(s, p, read);
    var s' := AddFile(s, p, read).0;
    var post := s'.postings;
    PostedIncreasing(s.postings, read.tokens, id);
    forall t, k | t in post && 0 <= k < |post[t]| ensures post[t][k] in s'.entries {
      if t in s.postings && k < |s.postings[t]| {
        assert post[t][k] == s.postings[t][k];
      }
    }
  }

  lemma AddFileKeepsCounts(s: State, p: Path, read: FileRead)
    requires Inv(s) && read.Read? && !Contains(s, p)
    ensures CountsInv(AddFile(s, p, read).0)
  {
    var id := s.lastId + 1;
    PostedBelowNext(s);
    AddedState(s, p, read);
    var s' := AddFile(s, p, read).0;
    forall i | i in s'.entries ensures 0 <= i <= s'.lastId && s'.entries[i].count == |Occurrences(s'.postings, i)| {
      PostedOccurrences(s.postings, read.tokens, id, i);
    }
  }

  lemma AddFileKeepsPathMap(s: State, p: Path, read: FileRead)
    requires Inv(s) && read.Read? && !Contains(s, p)
    ensures PathMapInv(AddFile(s, p, read).0)
  {
    PostedBelowNext(s);
    AddedState(s, p, read);
  }

  /** `addFile` keeps the invariant. */
  lemma AddFilePreservesInv(s: State, p: Path, read: FileRead)
    requires Inv(s)
    ensures Inv(AddFile(s, p, read).0)
  {
    if read.Read? && !Contains(s, p) {
      AddFileKeepsLists(s, p, read);
      AddFileKeepsCounts(s, p, read);
      AddFileKeepsPathMap(s, p, read);
      InvParts(AddFile(s, p, read).0);
    }
  }

  /** `removeFile` keeps the invariant. */
  lemma RemoveFilePreservesInv(s: State, p: Path)
    requires Inv(s)
    ensures Inv(RemoveFile(s, p))
  {
  }

  /** Tombstoning and unmapping contained paths keeps the invariant. */
  lemma RemovePathsPreservesInv(s: State, victims: set<Path>)
    requires Inv(s)
    ensures Inv(RemovePaths(s, victims))
  {
    var s' := RemovePaths(s, victims);
    forall p | p in s'.fileIds
      ensures s'.fileIds[p] in s'.entries && !s'.entries[s'.fileIds[p]].removed
    {
    }
  }

  /** Tombstoning and unmapping one more contained path. */
  lemma RemovePathsStep(s: State, victims: set<Path>, q: Path)
    requires q in s.fileIds && s.fileIds[q] in s.entries && q !in victims
    ensures var r := RemovePaths(s, victims);
            var id := s.fileIds[q];
            && id in r.entries
            && RemovePaths(s, victims + {q})
               == r.(entries := r.entries[id := r.entries[id].(removed := true)], fileIds := r.fileIds - {q})
  {
    var r := RemovePaths(s, victims);
    var id := s.fileIds[q];
    var a := RemovePaths(s, victims + {q});
    var b := r.(entries := r.entries[id := r.entries[id].(removed := true)], fileIds := r.fileIds - {q});
    assert a.entries == b.entries;
    assert a.fileIds == b.fileIds;
  }

  /** `removeDirectory` keeps the invariant. */
  lemma RemoveDirectoryPreservesInv(s: State, dir: Path)
    requires Inv(s)
    ensures Inv(RemoveDirectory(s, dir))
  {
    RemovePathsPreservesInv(s, Victims(s, dir));
  }

  /** `handleFileModification` keeps the invariant. */
  lemma HandleFileModificationPreservesInv(s: State, p: Path, read: FileRead)
    requires Inv(s)
    ensures Inv(HandleFileModification(s, p, read).0)
  {
    if read.Unreadable? || !Contains(s, p) {
    } else {
      RemoveFilePreservesInv(s, p);
      AddFilePreservesInv(RemoveFile(s, p), p, read);
    }
  }

  /** The ids of the live sublist are exactly the live ids of the list. */
  lemma {:induction false} LiveMembers(ids: seq<int>, ent: map<int, EntryView>)
    requires AllIn(ids, ent)
    ensures forall x :: x in Live(ids, ent) <==> x in ids && !ent[x].removed
    ensures AllIn(Live(ids, ent), ent)
    decreases |ids|
  {
    if ids != [] {
      LiveMembers(ids[1..], ent);
      SeqTail(ids);
      var l := Live(ids, ent);
      forall k | 0 <= k < |l| ensures l[k] in ent {
        assert l[k] in l;
      }
    }
  }

  /** Membership in a non-empty list is membership of its head or its tail. */
  lemma SeqTail(ids: seq<int>)
    requires ids != []
    ensures forall x :: x in ids <==> x == ids[0] || x in ids[1..]
  {
    assert ids == [ids[0]] + ids[1..];
  }

  /** The live sublist of an increasing list is increasing. */
  lemma {:induction false} LiveIncreasing(ids: seq<int>, ent: map<int, EntryView>)
    requires AllIn(ids, ent) && StrictlyIncreasing(ids)
    ensures StrictlyIncreasing(Live(ids, ent))
    decreases |ids|
  {
    if ids != [] {
      var l, rest := Live(ids, ent), Live(ids[1..], ent);
      LiveIncreasing(ids[1..], ent);
      LiveMembers(ids[1..], ent);
      forall y | y in rest ensures ids[0] < y {
        var k :| 0 <= k < |ids[1..]| && ids[1..][k] == y;
        assert ids[k + 1] == y;
      }
      if !ent[ids[0]].removed {
        assert l == [ids[0]] + rest;
        forall i, j | 0 <= i < j < |l| ensures l[i] < l[j] {
          assert l[j] == rest[j - 1];
          if i == 0 {
            assert rest[j - 1] in rest;
          } else {
            assert l[i] == rest[i - 1];
          }
        }
      } else {
        assert l == rest;
      }
    }
  }

  /** `Live` looks only at the removed flags of the ids in the list. */
  lemma {:induction false} LiveFrame(ids: seq<int>, ent: map<int, EntryView>, ent': map<int, EntryView>)
    requires AllIn(ids, ent) && AllIn(ids, ent')
    requires forall k :: 0 <= k < |ids| ==> ent[ids[k]].removed == ent'[ids[k]].removed
    ensures Live(ids, ent) == Live(ids, ent')
    decreases |ids|
  {
    if ids != [] {
      LiveFrame(ids[1..], ent, ent');
    }
  }

  lemma TailFacts(ids: seq<int>)
    requires ids != [] && NoDuplicates(ids)
    ensures NoDuplicates(ids[1..]) && ids[0] !in ids[1..]
    ensures forall x :: x in ids <==> x == ids[0] || x in ids[1..]
  {
    forall x ensures x in ids <==> x == ids[0] || x in ids[1..] {
      if x in ids {
        var k :| 0 <= k < |ids| && ids[k] == x;
        if k > 0 { assert ids[1..][k - 1] == x; }
      }
    }
  }

  /** Where the loop of `doPostponedRemoves` stands after `i` ids of `list`:
      `kept` holds the live ones seen so far, `ent` and `fids` the maps as
      they now are, and sweeping the rest of the list from there yields `goal`. */
  ghost predicate SweepAt(list: seq<int>, i: int, kept: seq<int>, ent: map<int, EntryView>,
                          fids: map<Path, int>, goal: SweepResult) {
    && 0 <= i <= |list|
    && AllIn(list[i..], ent) && NoDuplicates(list[i..])
    && var rest := Sweep(list[i..], ent, fids);
       goal == SweepResult(kept + rest.kept, rest.entries, rest.fileIds)
  }

  lemma SweepAtStart(list: seq<int>, ent: map<int, EntryView>, fids: map<Path, int>)
    requires AllIn(list, ent) && NoDuplicates(list)
    ensures SweepAt(list, 0, [], ent, fids, Sweep(list, ent, fids))
  {
    assert list[0..] == list;
  }

  lemma SweepAtDone(list: seq<int>, kept: seq<int>, ent: map<int, EntryView>,
                    fids: map<Path, int>, goal: SweepResult)
    requires SweepAt(list, |list|, kept, ent, fids, goal)
    ensures goal == SweepResult(kept, ent, fids)
  {
    assert list[|list|..] == [];
    assert kept + [] == kept;
  }

  /** One more id of the list: a live one is kept, a tombstoned one has its
      counter lowered and is evicted, path and all, once that reaches zero. */
  lemma SweepAtStep(list: seq<int>, i: int, kept: seq<int>, ent: map<int, EntryView>,
                    fids: map<Path, int>, goal: SweepResult)
    requires SweepAt(list, i, kept, ent, fids, goal) && i < |list|
    ensures list[i] in ent
    ensures var e := ent[list[i]];
            !e.removed ==> SweepAt(list, i + 1, kept + [list[i]], ent, fids, goal)
    ensures var e := ent[list[i]];
            e.removed && e.count - 1 == 0 ==>
              SweepAt(list, i + 1, kept, ent - {list[i]}, fids - {e.path}, goal)
    ensures var e := ent[list[i]];
            e.removed && e.count - 1 != 0 ==>
              SweepAt(list, i + 1, kept, ent[list[i] := e.(count := e.count - 1)], fids, goal)
  {
    var ids := list[i..];
    assert ids[0] == list[i];
    assert ids[1..] == list[i + 1..];
    TailFacts(ids);
    var id := list[i];
    var e := ent[id];
    if !e.removed {
      assert kept + ([id] + Sweep(ids[1..], ent, fids).kept)
             == (kept + [id]) + Sweep(ids[1..], ent, fids).kept;
    } else if e.count - 1 == 0 {
      assert AllIn(ids[1..], ent - {id});
    } else {
      assert AllIn(ids[1..], ent[id := e.(count := e.count - 1)]);
    }
  }

  /** A live head changes neither what the sweep evicts nor how it lowers counters. */
  lemma SweepStepLive(ids: seq<int>, ent: map<int, EntryView>)
    requires ids != [] && NoDuplicates(ids) && ids[0] in ent && !ent[ids[0]].removed
    ensures Evicted(ids, ent) == Evicted(ids[1..], ent)
    ensures EvictedPaths(ids, ent) == EvictedPaths(ids[1..], ent)
    ensures SweptEntries(ids, ent) == SweptEntries(ids[1..], ent)
  {
    SeqTail(ids);
  }

  /** A tombstoned head at one is evicted first; the rest of the sweep sees
      the entries without it. */
  lemma SweepStepEvict(ids: seq<int>, ent: map<int, EntryView>)
    requires ids != [] && NoDuplicates(ids) && ids[0] in ent
    requires ent[ids[0]].removed && ent[ids[0]].count == 1
    ensures var ent' := ent - {ids[0]};
            && Evicted(ids, ent) == Evicted(ids[1..], ent') + {ids[0]}
            && EvictedPaths(ids, ent) == EvictedPaths(ids[1..], ent') + {ent[ids[0]].path}
            && SweptEntries(ids, ent) == SweptEntries(ids[1..], ent')
  {
    TailFacts(ids);
    var ent' := ent - {ids[0]};
    assert Evicted(ids, ent) == Evicted(ids[1..], ent') + {ids[0]};
  }

  /** A tombstoned head above one has its counter lowered first. */
  lemma SweepStepLower(ids: seq<int>, ent: map<int, EntryView>)
    requires ids != [] && NoDuplicates(ids) && ids[0] in ent
    requires ent[ids[0]].removed && ent[ids[0]].count != 1
    ensures var e := ent[ids[0]];
            var ent' := ent[ids[0] := e.(count := e.count - 1)];
            && Evicted(ids, ent) == Evicted(ids[1..], ent')
            && EvictedPaths(ids, ent) == EvictedPaths(ids[1..], ent')
            && SweptEntries(ids, ent) == SweptEntries(ids[1..], ent')
  {
    TailFacts(ids);
    var e := ent[ids[0]];
    var ent' := ent[ids[0] := e.(count := e.count - 1)];
    assert Evicted(ids, ent) == Evicted(ids[1..], ent');
  }

  /** A sweep keeps the live ids, in list order. */
  lemma {:induction false} SweepKept(ids: seq<int>, ent: map<int, EntryView>, fids: map<Path, int>)
    requires AllIn(ids, ent) && NoDuplicates(ids)
    ensures Sweep(ids, ent, fids).kept == Live(ids, ent)
    decreases |ids|
  {
    if ids != [] {
      var id, tail := ids[0], ids[1..];
      var e := ent[id];
      TailFacts(ids);
      if !e.removed {
        SweepKept(tail, ent, fids);
      } else if e.count - 1 == 0 {
        SweepKept(tail, ent - {id}, fids - {e.path});
        LiveFrame(tail, ent, ent - {id});
      } else {
        SweepKept(tail, ent[id := e.(count := e.count - 1)], fids);
        LiveFrame(tail, ent, ent[id := e.(count := e.count - 1)]);
      }
    }
  }

  /** A sweep lowers the counter of every tombstoned id of the list by one and
      evicts those that reach zero. */
  lemma {:induction false} SweepEntries(ids: seq<int>, ent: map<int, EntryView>, fids: map<Path, int>)
    requires AllIn(ids, ent) && NoDuplicates(ids)
    ensures Sweep(ids, ent, fids).entries == SweptEntries(ids, ent)
    decreases |ids|
  {
    if ids == [] {
      assert Evicted(ids, ent) == {};
      assert SweptEntries(ids, ent) == ent;
    } else {
      var id, tail := ids[0], ids[1..];
      var e := ent[id];
      TailFacts(ids);
      if !e.removed {
        SweepEntries(tail, ent, fids);
        SweepStepLive(ids, ent);
      } else if e.count - 1 == 0 {
        SweepEntries(tail, ent - {id}, fids - {e.path});
        SweepStepEvict(ids, ent);
      } else {
        SweepEntries(tail, ent[id := e.(count := e.count - 1)], fids);
        SweepStepLower(ids, ent);
      }
    }
  }

  /** A sweep removes from `fileIdMap` the paths of the evicted entries. */
  lemma {:induction false} SweepFileIds(ids: seq<int>, ent: map<int, EntryView>, fids: map<Path, int>)
    requires AllIn(ids, ent) && NoDuplicates(ids)
    ensures Sweep(ids, ent, fids).fileIds == fids - EvictedPaths(ids, ent)
    decreases |ids|
  {
    if ids == [] {
      assert Evicted(ids, ent) == {};
      assert EvictedPaths(ids, ent) == {};
    } else {
      var id, tail := ids[0], ids[1..];
      var e := ent[id];
      TailFacts(ids);
      if !e.removed {
        SweepFileIds(tail, ent, fids);
        SweepStepLive(ids, ent);
      } else if e.count - 1 == 0 {
        SweepFileIds(tail, ent - {id}, fids - {e.path});
        SweepStepEvict(ids, ent);
        assert fids - {e.path} - EvictedPaths(tail, ent - {id})
            == fids - (EvictedPaths(tail, ent - {id}) + {e.path});
      } else {
        SweepFileIds(tail, ent[id := e.(count := e.count - 1)], fids);
        SweepStepLower(ids, ent);
      }
    }
  }

  /** One sweep, in closed form: the live ids stay in order, every tombstoned
      id in the list loses one from its counter, those at one are evicted, and
      the evicted entries' paths leave `fileIdMap`. */
  lemma SweepClosedForm(ids: seq<int>, ent: map<int, EntryView>, fids: map<Path, int>)
    requires AllIn(ids, ent) && NoDuplicates(ids)
    ensures Sweep(ids, ent, fids).kept == Live(ids, ent)
    ensures Sweep(ids, ent, fids).entries == SweptEntries(ids, ent)
    ensures Sweep(ids, ent, fids).fileIds == fids - EvictedPaths(ids, ent)
  {
    SweepKept(ids, ent, fids);
    SweepEntries(ids, ent, fids);
    SweepFileIds(ids, ent, fids);
  }

  /** Where an id is posted after one list was replaced. */
  lemma OccurrencesReplaced(post: map<Token, seq<int>>, t: Token, kept: seq<int>, x: int)
    requires t in post
    ensures Occurrences(Replaced(post, t, kept), x)
            == (Occurrences(post, x) - {t}) + (if x in kept then {t} else {})
  {
  }

  /** An entry at one is posted in one list only. */
  lemma SingleOccurrence(post: map<Token, seq<int>>, x: int, t: Token, u: Token)
    requires |Occurrences(post, x)| == 1
    requires t in post && x in post[t] && u in post && x in post[u]
    ensures t == u
  {
    TwoMembers(Occurrences(post, x), t, u);
  }

  lemma TwoMembers<T>(o: set<T>, t: T, u: T)
    requires t in o && u in o
    ensures t != u ==> |o| >= 2
  {
    if t != u {
      assert o == (o - {t}) + {t};
      assert u in o - {t};
    }
  }

  lemma SearchKeepsPathMap(s: State, t: Token)
    requires Inv(s) && t in s.postings
    ensures PathMapInv(Search(s, t).0)
  {
    InvListFacts(s, t);
    SweepClosedForm(s.postings[t], s.entries, s.fileIds);
  }

  lemma SearchKeepsLists(s: State, t: Token)
    requires Inv(s) && t in s.postings
    ensures ListsInv(Search(s, t).0)
  {
    var ids, ent := s.postings[t], s.entries;
    InvListFacts(s, t);
    SweepClosedForm(ids, ent, s.fileIds);
    LiveMembers(ids, ent);
    LiveIncreasing(ids, ent);
    var s' := Search(s, t).0;
    forall u, k | u in s'.postings && 0 <= k < |s'.postings[u]| ensures s'.postings[u][k] in s'.entries {
      var x := s'.postings[u][k];
      if u == t {
        assert x in Live(ids, ent);
      } else {
        assert x in s.postings[u];
        if x in ids && ent[x].removed && ent[x].count == 1 {
          SingleOccurrence(s.postings, x, t, u);
        }
      }
    }
  }

  lemma SearchKeepsCounts(s: State, t: Token)
    requires Inv(s) && t in s.postings
    ensures CountsInv(Search(s, t).0)
  {
    var ids, ent := s.postings[t], s.entries;
    InvListFacts(s, t);
    SweepClosedForm(ids, ent, s.fileIds);
    LiveMembers(ids, ent);
    var s' := Search(s, t).0;
    var kept := Live(ids, ent);
    forall x | x in s'.entries
      ensures 0 <= x <= s'.lastId && s'.entries[x].count == |Occurrences(s'.postings, x)|
    {
      OccurrencesReplaced(s.postings, t, kept, x);
      if x in ids && ent[x].removed {
        assert t in Occurrences(s.postings, x);
      } else if x in ids {
        assert t in Occurrences(s.postings, x);
      }
    }
  }

  /** What `search` answers, read off the state it leaves: nothing when the
      token's list emptied and was dropped, else the paths of what is left. */
  lemma SearchAnswer(s: State, t: Token)
    requires Inv(s) && t in s.postings
    ensures var s' := Search(s, t).0;
            && (t !in s'.postings ==> Search(s, t).1 == [])
            && (t in s'.postings ==>
                  AllIn(s'.postings[t], s'.entries)
                  && Search(s, t).1 == GetPaths(s'.postings[t], s'.entries))
  {
    InvListFacts(s, t);
    var r := Sweep(s.postings[t], s.entries, s.fileIds);
    SweepClosedForm(s.postings[t], s.entries, s.fileIds);
    LiveMembers(s.postings[t], s.entries);
  }

  /** `search` keeps the invariant. */
  lemma SearchPreservesInv(s: State, t: Token)
    requires Inv(s)
    ensures Inv(Search(s, t).0)
  {
    if t in s.postings {
      SearchKeepsPathMap(s, t);
      SearchKeepsLists(s, t);
      SearchKeepsCounts(s, t);
      InvParts(Search(s, t).0);
    }
  }

  // ------------------------------------------------------- forceRemoves

  /** The tombstoned entries that have been swept from every list holding
      them once the lists of the tokens in `done` were swept. */
  function Gone(s0: State, done: set<Token>): set<int> {
    set id | id in s0.entries && s0.entries[id].removed && s0.entries[id].count > 0
                && Occurrences(s0.postings, id) <= done
  }

  function GonePaths(s0: State, done: set<Token>): set<Path> {
    set id | id in Gone(s0, done) :: s0.entries[id].path
  }

  /** The state of `forceRemoves` once the lists of the tokens in `done` have
      been swept, in any order: those lists hold their live ids, every
      tombstoned entry has lost one from its counter per swept list holding
      it, the entries swept from all their lists are gone, and so are their paths. */
  function Partial(s0: State, done: set<Token>): State
    requires Inv(s0)
  {
    var ent := s0.entries;
    State(
      PartialPostings(s0.postings, ent, done),
      map id | id in ent && id !in Gone(s0, done) ::
        if ent[id].removed then ent[id].(count := ent[id].count - |Occurrences(s0.postings, id) * done|)
        else ent[id],
      s0.fileIds - GonePaths(s0, done),
      s0.lastId)
  }

  predicate AllListsIn(post: map<Token, seq<int>>, ent: map<int, EntryView>) {
    forall t :: t in post ==> AllIn(post[t], ent)
  }

  /** The lists of the tokens in `done` reduced to their live ids, the others untouched. */
  function PartialPostings(post: map<Token, seq<int>>, ent: map<int, EntryView>, done: set<Token>): map<Token, seq<int>>
    requires AllListsIn(post, ent)
  {
    map t | t in post && (t in done ==> Live(post[t], ent) != []) ::
      if t in done then Live(post[t], ent) else post[t]
  }

  lemma PartialPostingsStep(post: map<Token, seq<int>>, ent: map<int, EntryView>, done: set<Token>, t: Token)
    requires AllListsIn(post, ent) && t in post && t !in done
    ensures Replaced(PartialPostings(post, ent, done), t, Live(post[t], ent))
            == PartialPostings(post, ent, done + {t})
  {
    var a := Replaced(PartialPostings(post, ent, done), t, Live(post[t], ent));
    var b := PartialPostings(post, ent, done + {t});
    assert a.Keys == b.Keys;
  }

  lemma CardSplit<T>(o: set<T>, d: set<T>)
    ensures |o * d| + |o - d| == |o|
  {
    assert o == (o * d) + (o - d);
    assert (o * d) * (o - d) == {};
  }

  lemma CardAddOne<T>(o: set<T>, d: set<T>, t: T)
    requires t in o && t !in d
    ensures o * (d + {t}) == (o * d) + {t} && |o * (d + {t})| == |o * d| + 1
  {
    assert o * (d + {t}) == (o * d) + {t};
  }

  lemma CardSingleton<T>(o: set<T>, t: T)
    requires t in o
    ensures |o| == 1 <==> o == {t}
  {
    if |o| == 1 {
      TwoMembersAll(o, t);
    }
  }

  lemma TwoMembersAll<T>(o: set<T>, t: T)
    requires t in o && |o| == 1
    ensures o == {t}
  {
    forall u | u in o ensures u == t {
      TwoMembers(o, t, u);
    }
  }

  /** Sweeping an untouched list leaves the entries in the shape `Partial` predicts. */
  lemma PartialStepEntry(s0: State, done: set<Token>, t: Token, id: int)
    requires Inv(s0) && t in s0.postings && t !in done && id in s0.entries
    ensures var o := Occurrences(s0.postings, id);
            var e := s0.entries[id];
            && (id !in s0.postings[t] ==> (id in Gone(s0, done + {t}) <==> id in Gone(s0, done))
                                          && o * (done + {t}) == o * done)
            && (id in s0.postings[t] && e.removed ==>
                  && id !in Gone(s0, done)
                  && (id in Gone(s0, done + {t}) <==> e.count - |o * done| == 1)
                  && |o * (done + {t})| == |o * done| + 1)
  {
    var o := Occurrences(s0.postings, id);
    var e := s0.entries[id];
    if id !in s0.postings[t] {
      assert t !in o;
      assert o * (done + {t}) == o * done;
    } else if e.removed {
      assert t in o;
      CardAddOne(o, done, t);
      CardSplit(o, done);
      CardSingleton(o - done, t);
      assert o <= done + {t} <==> o - done == {t};
    }
  }

  /** The lists not yet swept still hold only entries `Partial` keeps, with
      the tombstone flags they had at the start. */
  lemma PartialUnswept(s0: State, done: set<Token>, t: Token)
    requires Inv(s0) && t in s0.postings && t !in done
    ensures var p := Partial(s0, done);
            && t in p.postings && p.postings[t] == s0.postings[t]
            && AllIn(s0.postings[t], p.entries)
            && forall k :: 0 <= k < |s0.postings[t]| ==>
                 p.entries[s0.postings[t][k]].removed == s0.entries[s0.postings[t][k]].removed
                 && p.entries[s0.postings[t][k]].path == s0.entries[s0.postings[t][k]].path
  {
    var p := Partial(s0, done);
    forall k | 0 <= k < |s0.postings[t]|
      ensures s0.postings[t][k] in p.entries
    {
      var id := s0.postings[t][k];
      assert s0.postings[t][k] in s0.entries;
      assert t in Occurrences(s0.postings, id);
    }
  }

  /** The state after `search(t)` on a posted token, in closed form. */
  lemma SearchShape(s: State, t: Token)
    requires Inv(s) && t in s.postings
    ensures AllIn(s.postings[t], s.entries)
    ensures var ids := s.postings[t];
            Search(s, t).0 == State(Replaced(s.postings, t, Live(ids, s.entries)),
                                    SweptEntries(ids, s.entries),
                                    s.fileIds - EvictedPaths(ids, s.entries), s.lastId)
  {
    InvListFacts(s, t);
    SweepClosedForm(s.postings[t], s.entries, s.fileIds);
  }

  lemma PartialStepPostings(s0: State, done: set<Token>, t: Token)
    requires Inv(s0) && Inv(Partial(s0, done)) && t in s0.postings && t !in done
    ensures Search(Partial(s0, done), t).0.postings == Partial(s0, done + {t}).postings
  {
    var p := Partial(s0, done);
    var ids := s0.postings[t];
    PartialUnswept(s0, done, t);
    SearchShape(p, t);
    LiveFrame(ids, s0.entries, p.entries);
    PartialPostingsStep(s0.postings, s0.entries, done, t);
  }

  lemma PartialStepEntries(s0: State, done: set<Token>, t: Token)
    requires Inv(s0) && Inv(Partial(s0, done)) && t in s0.postings && t !in done
    ensures Search(Partial(s0, done), t).0.entries == Partial(s0, done + {t}).entries
  {
    var p := Partial(s0, done);
    PartialUnswept(s0, done, t);
    SearchShape(p, t);
    SweptPartialEntries(s0, done, t);
  }

  lemma SweptPartialEntries(s0: State, done: set<Token>, t: Token)
    requires Inv(s0) && t in s0.postings && t !in done
    ensures SweptEntries(s0.postings[t], Partial(s0, done).entries) == Partial(s0, done + {t}).entries
  {
    var p := Partial(s0, done);
    PartialUnswept(s0, done, t);
    var a, b := SweptEntries(s0.postings[t], p.entries), Partial(s0, done + {t}).entries;
    forall id | id in s0.entries
      ensures id in a <==> id in b
      ensures id in a ==> a[id] == b[id]
    {
      PartialStepEntry(s0, done, t, id);
    }
    assert a.Keys == b.Keys;
  }

  lemma PartialStepGone(s0: State, done: set<Token>, t: Token)
    requires Inv(s0) && Inv(Partial(s0, done)) && t in s0.postings && t !in done
    ensures Gone(s0, done + {t}) == Gone(s0, done) + Evicted(s0.postings[t], Partial(s0, done).entries)
    ensures GonePaths(s0, done + {t}) == GonePaths(s0, done) + EvictedPaths(s0.postings[t], Partial(s0, done).entries)
  {
    var p := Partial(s0, done);
    var ids := s0.postings[t];
    PartialUnswept(s0, done, t);
    var ev := Evicted(ids, p.entries);
    forall id | id in s0.entries
      ensures id in Gone(s0, done + {t}) <==> id in Gone(s0, done) || id in ev
    {
      PartialStepEntry(s0, done, t, id);
    }
    assert Gone(s0, done + {t}) == Gone(s0, done) + ev;
    forall id | id in ev ensures p.entries[id].path == s0.entries[id].path {
    }
  }

  lemma PartialStepFileIds(s0: State, done: set<Token>, t: Token)
    requires Inv(s0) && Inv(Partial(s0, done)) && t in s0.postings && t !in done
    ensures Search(Partial(s0, done), t).0.fileIds == Partial(s0, done + {t}).fileIds
  {
    var p := Partial(s0, done);
    var ids := s0.postings[t];
    PartialUnswept(s0, done, t);
    InvListFacts(s0, t);
    SweepClosedForm(ids, p.entries, p.fileIds);
    PartialStepGone(s0, done, t);
  }

  /** Sweeping one more list moves `forceRemoves` from one `Partial` state to the next. */
  lemma PartialStep(s0: State, done: set<Token>, t: Token)
    requires Inv(s0) && Inv(Partial(s0, done)) && t in s0.postings && t !in done
    ensures Search(Partial(s0, done), t).0 == Partial(s0, done + {t})
  {
    PartialStepPostings(s0, done, t);
    PartialStepEntries(s0, done, t);
    PartialStepFileIds(s0, done, t);
  }

  /** Before any list is swept, `Partial` is the starting state. */
  lemma PartialNone(s0: State)
    requires Inv(s0)
    ensures Partial(s0, {}) == s0
  {
    var p := Partial(s0, {});
    forall id | id in s0.entries ensures id !in Gone(s0, {}) {
      if s0.entries[id].removed && s0.entries[id].count > 0 {
        assert Occurrences(s0.postings, id) != {};
      }
    }
    assert p.postings == s0.postings;
    assert p.entries == s0.entries;
    assert GonePaths(s0, {}) == {};
  }

  /** Every state `forceRemoves` passes through satisfies the invariant and is
      reached by sweeping the lists of `done` one at a time. */
  lemma {:induction false} PartialInv(s0: State, done: set<Token>)
    requires Inv(s0) && done <= s0.postings.Keys
    ensures Inv(Partial(s0, done))
    decreases |done|
  {
    if done == {} {
      PartialNone(s0);
    } else {
      var t :| t in done;
      var rest := done - {t};
      assert rest + {t} == done;
      PartialInv(s0, rest);
      PartialStep(s0, rest, t);
      SearchPreservesInv(Partial(s0, rest), t);
    }
  }

  lemma PartialAllGone(s0: State)
    requires Inv(s0)
    ensures Gone(s0, s0.postings.Keys)
            == set id | id in s0.entries && s0.entries[id].removed && s0.entries[id].count > 0
    ensures forall id :: id in s0.entries ==>
              Occurrences(s0.postings, id) * s0.postings.Keys == Occurrences(s0.postings, id)
  {
  }

  /** With every list swept, `Partial` is `ForceRemoved`. */
  lemma PartialAll(s0: State)
    requires Inv(s0)
    ensures Partial(s0, s0.postings.Keys) == ForceRemoved(s0)
  {
    PartialAllGone(s0);
    PartialAllPostings(s0);
    PartialAllEntries(s0);
    var p, f := Partial(s0, s0.postings.Keys), ForceRemoved(s0);
    assert p.fileIds == f.fileIds;
  }

  lemma PartialAllPostings(s0: State)
    requires Inv(s0)
    ensures Partial(s0, s0.postings.Keys).postings == ForceRemoved(s0).postings
  {
  }

  lemma PartialAllEntries(s0: State)
    requires Inv(s0)
    ensures Partial(s0, s0.postings.Keys).entries == ForceRemoved(s0).entries
  {
    PartialAllGone(s0);
    var keys := s0.postings.Keys;
    var p, f := Partial(s0, keys), ForceRemoved(s0);
    forall id | id in p.entries ensures id in f.entries && p.entries[id] == f.entries[id] {
      var occ := Occurrences(s0.postings, id);
      assert occ * keys == occ;
      assert s0.entries[id].count == |occ|;
    }
    assert p.entries.Keys == f.entries.Keys;
  }

  /** `forceRemoves` keeps the invariant. */
  lemma ForceRemovedPreservesInv(s: State)
    requires Inv(s)
    ensures Inv(ForceRemoved(s))
  {
    PartialInv(s, s.postings.Keys);
    PartialAll(s);
  }

  /** The lists of `order` swept one after the other, each token's list
      dropped when it empties: `forceRemoves` visiting the tokens in the order
      the hash map happens to yield them. */
  function SweepAll(s: State, order: seq<Token>): (r: State)
    requires Inv(s)
    ensures Inv(r)
    decreases |order|
  {
    if order == [] then s
    else
      var prev := SweepAll(s, order[..|order| - 1]);
      SearchPreservesInv(prev, order[|order| - 1]);
      Search(prev, order[|order| - 1]).0
  }

  lemma SweepAllStep(s: State, order: seq<Token>, t: Token)
    requires Inv(s)
    ensures SweepAll(s, order + [t]) == Search(SweepAll(s, order), t).0
  {
    assert (order + [t])[..|order|] == order;
  }

  /** A token not yet visited still has its list, untouched. */
  lemma {:induction false} SweepAllUnvisited(s: State, order: seq<Token>, t: Token)
    requires Inv(s) && t in s.postings && t !in order
    ensures t in SweepAll(s, order).postings
    ensures SweepAll(s, order).postings[t] == s.postings[t]
    decreases |order|
  {
    if order != [] {
      var init := order[..|order| - 1];
      assert forall k :: 0 <= k < |init| ==> init[k] == order[k];
      SweepAllUnvisited(s, init, t);
    }
  }

  /** `order` lists each token of `keys` that is not in `unvisited` once. */
  ghost predicate VisitOrder(keys: set<Token>, unvisited: set<Token>, order: seq<Token>) {
    && unvisited <= keys
    && (forall i, j :: 0 <= i < j < |order| ==> order[i] != order[j])
    && (forall t :: t in order ==> t in keys && t !in unvisited)
    && (forall t :: t in keys && t !in unvisited ==> t in order)
  }

  lemma VisitOrderStart(keys: set<Token>)
    ensures VisitOrder(keys, keys, [])
  {
  }

  lemma VisitOrderStep(keys: set<Token>, unvisited: set<Token>, order: seq<Token>, t: Token)
    requires VisitOrder(keys, unvisited, order) && t in unvisited
    ensures VisitOrder(keys, unvisited - {t}, order + [t])
  {
    var o := order + [t];
    forall u | u in o ensures u in order || u == t {
      var k :| 0 <= k < |o| && o[k] == u;
      if k < |order| { assert order[k] == u; }
    }
  }

  /** One more swept list takes `SweepAll` from one `Partial` state to the next. */
  lemma SweepAllPartialStep(s: State, order: seq<Token>, done: set<Token>)
    requires Inv(s) && order != [] && done <= s.postings.Keys && order[|order| - 1] in done
    requires SweepAll(s, order[..|order| - 1]) == Partial(s, done - {order[|order| - 1]})
    ensures SweepAll(s, order) == Partial(s, done)
  {
    var t := order[|order| - 1];
    var rest := done - {t};
    PartialInv(s, rest);
    PartialStep(s, rest, t);
    assert rest + {t} == done;
  }

  /** Sweeping distinct tokens one by one reaches `Partial` of the set of them. */
  lemma {:induction false} SweepAllIsPartial(s: State, order: seq<Token>, done: set<Token>)
    requires Inv(s)
    requires forall i, j :: 0 <= i < j < |order| ==> order[i] != order[j]
    requires forall t :: t in order <==> t in done
    requires done <= s.postings.Keys
    ensures SweepAll(s, order) == Partial(s, done)
    decreases |order|
  {
    if order == [] {
      assert done == {};
      PartialNone(s);
    } else {
      var init, t := order[..|order| - 1], order[|order| - 1];
      var rest := done - {t};
      forall u ensures u in init <==> u in rest {
        if u in init {
          var k :| 0 <= k < |init| && init[k] == u;
          assert order[k] == u;
        }
        if u in rest {
          var k :| 0 <= k < |order| && order[k] == u;
          assert k < |order| - 1;
          assert init[k] == u;
        }
      }
      SweepAllIsPartial(s, init, rest);
      SweepAllPartialStep(s, order, done);
    }
  }

  /** `forceRemoves` reaches `ForceRemoved` whatever order it visits the
      tokens in. */
  lemma SweepAllIsForceRemoved(s: State, order: seq<Token>)
    requires Inv(s) && VisitOrder(s.postings.Keys, {}, order)
    ensures SweepAll(s, order) == ForceRemoved(s)
  {
    SweepAllIsPartial(s, order, s.postings.Keys);
    PartialAll(s);
  }

  /** After `forceRemoves` no list holds a tombstoned id, every list is a
      list's live ids, and no tombstoned entry is still counted. */
  lemma ForceRemovedIsClean(s: State)
    requires Inv(s)
    ensures var r := ForceRemoved(s);
            && (forall t, k :: t in r.postings && 0 <= k < |r.postings[t]| ==>
                  r.postings[t][k] in r.entries && !r.entries[r.postings[t][k]].removed)
            && (forall id :: id in r.entries && r.entries[id].removed ==> r.entries[id].count == 0)
            && r.postings.Keys <= s.postings.Keys
  {
    ForceRemovedPreservesInv(s);
    var r := ForceRemoved(s);
    forall t, k | t in r.postings && 0 <= k < |r.postings[t]|
      ensures r.postings[t][k] in r.entries && !r.entries[r.postings[t][k]].removed
    {
      LiveMembers(s.postings[t], s.entries);
      assert r.postings[t][k] in Live(s.postings[t], s.entries);
    }
  }

  // ------------------------------------------------------------ outcomes

  /** `addFile` answers true exactly when the file is readable and either
      already contained or read without failure; afterwards it is contained,
      and no other path changes. A second call changes nothing. */
  lemma AddFileOutcome(s: State, p: Path, read: FileRead)
    requires Inv(s)
    ensures var (s', ok) := AddFile(s, p, read);
            && (ok <==> !read.Unreadable? && (Contains(s, p) || read.Read?))
            && (ok ==> Contains(s', p))
            && (!ok ==> s' == s)
            && (forall q :: q != p ==> (Contains(s', q) <==> Contains(s, q)))
            && (ok ==> (AddFilePreservesInv(s, p, read); AddFile(s', p, read) == (s', true)))
  {
  }

  /** A newly added file is found by every one of its tokens. */
  lemma AddedFileIsFound(s: State, p: Path, tokens: seq<Token>, t: Token)
    requires Inv(s) && !Contains(s, p) && t in tokens
    ensures (AddFilePreservesInv(s, p, Read(tokens));
             p in Search(AddFile(s, p, Read(tokens)).0, t).1)
  {
    AddFilePreservesInv(s, p, Read(tokens));
    PostedBelowNext(s);
    AddedState(s, p, Read(tokens));
    var s' := AddFile(s, p, Read(tokens)).0;
    var id := s.lastId + 1;
    assert t in s'.postings;
    var l := s'.postings[t];
    assert l[|l| - 1] == id;
    assert id in l && !s'.entries[id].removed && s'.entries[id].path == p;
    SearchResult(s', t);
  }

  /** The swept entries agree with the old ones on the live ids. */
  lemma SweptKeepsLive(ids: seq<int>, ent: map<int, EntryView>)
    requires AllIn(ids, ent)
    ensures AllIn(Live(ids, ent), SweptEntries(ids, ent))
    ensures GetPaths(Live(ids, ent), SweptEntries(ids, ent)) == GetPaths(Live(ids, ent), ent)
  {
    LiveMembers(ids, ent);
    var kept := Live(ids, ent);
    forall k | 0 <= k < |kept| ensures kept[k] in SweptEntries(ids, ent) && SweptEntries(ids, ent)[kept[k]] == ent[kept[k]] {
      var x := kept[k];
      assert x in kept;
      assert x in ids && !ent[x].removed;
      assert x !in Evicted(ids, ent);
    }
  }

  /** The paths of the live ids of a list, in list order. */
  lemma LivePaths(ids: seq<int>, ent: map<int, EntryView>, q: Path)
    requires AllIn(ids, ent)
    ensures q in GetPaths(Live(ids, ent), ent) <==>
              exists id :: id in ids && !ent[id].removed && ent[id].path == q
  {
    LiveMembers(ids, ent);
    var kept := Live(ids, ent);
    var r := GetPaths(kept, ent);
    if q in r {
      var k :| 0 <= k < |kept| && r[k] == q;
      assert kept[k] in kept;
    }
    if exists id :: id in ids && !ent[id].removed && ent[id].path == q {
      var id :| id in ids && !ent[id].removed && ent[id].path == q;
      var k :| 0 <= k < |kept| && kept[k] == id;
      assert r[k] == q;
    }
  }

  /** `search` returns the paths of the live entries in the token's list, in
      list order, and nothing for a token it does not know. */
  lemma SearchResult(s: State, t: Token)
    requires Inv(s)
    ensures t !in s.postings ==> Search(s, t).1 == []
    ensures t in s.postings ==> AllIn(s.postings[t], s.entries)
    ensures t in s.postings ==> Search(s, t).1 == GetPaths(Live(s.postings[t], s.entries), s.entries)
    ensures t in s.postings ==>
              forall q :: q in Search(s, t).1 <==>
                exists id :: id in s.postings[t] && !s.entries[id].removed && s.entries[id].path == q
  {
    if t in s.postings {
      var ids := s.postings[t];
      InvListFacts(s, t);
      SweepClosedForm(ids, s.entries, s.fileIds);
      SweptKeepsLive(ids, s.entries);
      forall q ensures q in GetPaths(Live(ids, s.entries), s.entries) <==>
                         exists id :: id in ids && !s.entries[id].removed && s.entries[id].path == q {
        LivePaths(ids, s.entries, q);
      }
    }
  }

  /** `removeFile` unmaps exactly the given path when it is contained. */
  lemma RemoveFileOutcome(s: State, p: Path)
    requires Inv(s)
    ensures !Contains(RemoveFile(s, p), p)
    ensures forall q :: q != p ==> (Contains(RemoveFile(s, p), q) <==> Contains(s, q))
    ensures Contains(s, p) ==> RemoveFile(s, p).entries[s.fileIds[p]].removed
    ensures RemoveFile(s, p).postings == s.postings
  {
  }

  /** `removeDirectory` unmaps exactly the contained strict descendants of the directory. */
  lemma RemoveDirectoryOutcome(s: State, dir: Path)
    requires Inv(s)
    ensures forall q :: Contains(RemoveDirectory(s, dir), q) <==> Contains(s, q) && !IsStrictDescendant(dir, q)
    ensures Contains(s, dir) ==> Contains(RemoveDirectory(s, dir), dir)
    ensures RemoveDirectory(s, dir).postings == s.postings
  {
  }

  /** `handleFileModification`: an unreadable file answers false, a file the
      index does not hold answers true, both without change; a contained file
      is re-read under a new id, and a failed re-read leaves it removed and
      reports the inconsistency. */
  lemma HandleFileModificationOutcome(s: State, p: Path, read: FileRead)
    requires Inv(s)
    ensures var (s', r) := HandleFileModification(s, p, read);
            && (read.Unreadable? ==> s' == s && r == Return(false))
            && (!read.Unreadable? && !Contains(s, p) ==> s' == s && r == Return(true))
            && (read.Read? && Contains(s, p) ==>
                  r == Return(true) && Contains(s', p) && s'.fileIds[p] == s.lastId + 1
                  && s'.fileIds[p] != s.fileIds[p])
            && (read.ReadFailed? && Contains(s, p) ==>
                  r == Throw(InconsistentIndex) && !Contains(s', p))
  {
  }

  /** The three states of the eviction scenario below: a file `p` with the
      single token `t` indexed, then modified, then searched for. */
  function ScenarioAdded(p: Path, t: Token): State {
    State(map[t := [0]], map[0 := EntryView(p, false, 1)], map[p := 0], 0)
  }

  function ScenarioModified(p: Path, t: Token): State {
    State(map[t := [0, 1]], map[0 := EntryView(p, true, 1), 1 := EntryView(p, false, 1)], map[p := 1], 1)
  }

  function ScenarioSearched(p: Path, t: Token): State {
    State(map[t := [1]], map[1 := EntryView(p, false, 1)], map[], 1)
  }

  lemma ScenarioInv(p: Path, t: Token)
    ensures Inv(ScenarioAdded(p, t)) && Inv(ScenarioModified(p, t)) && Inv(ScenarioSearched(p, t))
  {
    ScenarioAddedInv(p, t);
    ScenarioModifiedInv(p, t);
    ScenarioSearchedInv(p, t);
  }

  lemma ScenarioAddedInv(p: Path, t: Token)
    ensures Inv(ScenarioAdded(p, t))
  {
    assert Occurrences(ScenarioAdded(p, t).postings, 0) == {t};
  }

  lemma ScenarioModifiedInv(p: Path, t: Token)
    ensures Inv(ScenarioModified(p, t))
  {
    var s := ScenarioModified(p, t);
    assert Occurrences(s.postings, 0) == {t};
    assert Occurrences(s.postings, 1) == {t};
    assert StrictlyIncreasing(s.postings[t]);
  }

  lemma ScenarioSearchedInv(p: Path, t: Token)
    ensures Inv(ScenarioSearched(p, t))
  {
    assert Occurrences(ScenarioSearched(p, t).postings, 1) == {t};
  }

  lemma ScenarioAdd(p: Path, t: Token)
    ensures AddFile(Empty(), p, Read([t])) == (ScenarioAdded(p, t), true)
  {
    DistinctOfOne(t);
    AddedState(Empty(), p, Read([t]));
    var q := Posted(map[], [t], 0);
    assert q.Keys == {t};
    assert q[t] == [] + [0] == [0];
    assert q == map[t := [0]];
  }

  lemma ScenarioModify(p: Path, t: Token)
    requires Inv(ScenarioAdded(p, t))
    ensures HandleFileModification(ScenarioAdded(p, t), p, Read([t])) == (ScenarioModified(p, t), Return(true))
  {
    var s1 := ScenarioAdded(p, t);
    DistinctOfOne(t);
    RemoveFilePreservesInv(s1, p);
    var r := RemoveFile(s1, p);
    assert r == State(map[t := [0]], map[0 := EntryView(p, true, 1)], map[], 0);
    AddedState(r, p, Read([t]));
    var q := Posted(r.postings, [t], 1);
    assert q.Keys == {t};
    assert q[t] == [0] + [1] == [0, 1];
    assert q == map[t := [0, 1]];
  }

  lemma ScenarioSearch(p: Path, t: Token)
    requires Inv(ScenarioModified(p, t)) && Inv(ScenarioSearched(p, t))
    ensures Search(ScenarioModified(p, t), t) == (ScenarioSearched(p, t), [p])
    ensures Search(ScenarioSearched(p, t), t).1 == [p]
  {
    var s2, s3 := ScenarioModified(p, t), ScenarioSearched(p, t);
    assert [0, 1][1..] == [1] && [1][1..] == [];
    assert s2.entries - {0} == s3.entries;
    assert s2.fileIds - {p} == s3.fileIds;
    assert Sweep([1], s3.entries, s3.fileIds) == SweepResult([1], s3.entries, s3.fileIds);
    assert Sweep([0, 1], s2.entries, s2.fileIds) == SweepResult([1], s3.entries, s3.fileIds);
    assert GetPaths([1], s3.entries) == [p];
    assert Replaced(s2.postings, t, [1]) == s3.postings;
  }

  /** Eviction removes a path mapping by PATH, not by id. After a file is
      indexed, modified and then searched for, the sweep evicts the old
      version's entry and with it the path mapping of the NEW version: the
      file is no longer contained although its live entry is still found by
      search, and a later modification of it is ignored. */
  lemma EvictionDropsLiveFile(p: Path, t: Token)
    ensures Inv(ScenarioAdded(p, t)) && Inv(ScenarioModified(p, t)) && Inv(ScenarioSearched(p, t))
    ensures AddFile(Empty(), p, Read([t])) == (ScenarioAdded(p, t), true)
    ensures HandleFileModification(ScenarioAdded(p, t), p, Read([t])) == (ScenarioModified(p, t), Return(true))
    ensures Search(ScenarioModified(p, t), t) == (ScenarioSearched(p, t), [p])
    ensures !Contains(ScenarioSearched(p, t), p)
    ensures Search(ScenarioSearched(p, t), t).1 == [p]
    ensures HandleFileModification(ScenarioSearched(p, t), p, Read([])) == (ScenarioSearched(p, t), Return(true))
  {
    ScenarioInv(p, t);
    ScenarioAdd(p, t);
    ScenarioModify(p, t);
    ScenarioSearch(p, t);
  }
}
