/** The properties of whole runs. */
module ArchiveTheorems {
  import opened Archive
  import opened ArchiveEffects
  import opened ArchiveRuns
  import opened ArchiveSteps
  import opened ArchiveTrash
  import opened FileSystem
  import opened Paths
  import opened Resolver
  import opened Shares
  import opened Tree

  /** The event does not take `item` out of the trash. */
  predicate Spares(e: Event, item: Item) {
    match e
    case Restore(id, _) => id != item.id
    case Purge(id, _) => id != item.id
    case Empty(_) => false
    case PurgeExpired(cutoff, _) => cutoff <= item.deletedAt
    case _ => true
  }

  // ---------------------------------------------------------------- one event

  /** What every event keeps, and what it may do to files and to a stored entry. */
  ghost predicate StepFacts(w: World, e: Event, w': World, item: Item) {
    && Sound(w')
    && (Conserving(e) ==> Files(w'.fs) == Files(w.fs))
    && (Adding(e) && !Displaces(w, e) ==> Files(w.fs) <= Files(w'.fs))
    && (Purging(e) ==> SameLive(w.fs, w'.fs))
    && (!e.Restart? && AllStored(w.fs, w.items) ==> AllStored(w'.fs, w'.items))
    && (Spares(e, item) ==> Keeps(w, w', item))
  }

  lemma SafeFacts(w: World, e: Event, w': World, item: Item)
    requires SafeStep(w, w') && (Conserving(e) || Adding(e)) && !Purging(e) && (Spares(e, item) ==> Keeps(w, w', item))
    ensures StepFacts(w, e, w', item)
  {
  }

  lemma LiveFacts(w: World, e: Event, w': World, item: Item)
    requires Sound(w) && LiveStep(w, w') && !Purging(e)
    requires Conserving(e) ==> Files(w'.fs) == Files(w.fs)
    requires Adding(e) && !Displaces(w, e) ==> Files(w.fs) <= Files(w'.fs)
    ensures StepFacts(w, e, w', item)
  {
    LiveStepSound(w, w');
    LiveKeeps(w, w', item);
  }

  lemma MoveFacts(w: World, e: Event, item: Item)
    requires Sound(w) && Possible(w, e) && (e.Move? || e.Rename? || e.BulkMove?)
    ensures StepFacts(w, e, Next(w, e), item)
  {
    hide Sound, LiveStep, Files, MoveSpec, RenameSpec, BulkMoveSpec, Moves, UniqueTo, NamesRoot, StepFacts, TreeOk;
    SoundTree(w);
    Idle(w);
    match e
    case Move(path, destDir, ok) =>
      MoveOutcome(w, path, destDir, ok);
      var src := CleanRooted(Slashed(path));
      if MoveSpec(w, path, destDir, ok).1 {
        MovesStep(w, MoveSpec(w, path, destDir, ok), src, CleanRooted(Slashed(destDir)) + [Last(src)],
                  Trim(path, "/"), PathJoinSpec([Trim(destDir, "/"), Last(src)]), ok);
      }
      LiveFacts(w, e, Next(w, e), item);
    case Rename(oldPath, newName, ok) =>
      RenameOutcome(w, oldPath, newName, ok);
      var src := CleanRooted(Slashed(oldPath));
      if RenameSpec(w, oldPath, newName, ok).1 {
        MovesStep(w, RenameSpec(w, oldPath, newName, ok), src, Parent(src) + [SanitizeName(newName)],
                  Trim(oldPath, "/"), PathJoinSpec([PathDir(oldPath), SanitizeName(newName)]), ok);
      }
      LiveFacts(w, e, Next(w, e), item);
    case BulkMove(paths, destDir, oks) =>
      BulkMoveCounts(w, paths, destDir, oks);
      LiveFacts(w, e, Next(w, e), item);
  }

  lemma TrashFacts(w: World, e: Event, item: Item)
    requires Sound(w) && Possible(w, e) && (e.Delete? || e.BulkDelete? || e.Restore?)
    ensures StepFacts(w, e, Next(w, e), item)
  {
    hide Sound, SafeStep, Files, DeleteSpec, RestoreSpec, BulkDeleteSpec, UniqueTo, StepFacts, TreeOk, FreshId,
      FreshIds, Keeps, AllStored;
    SoundTree(w);
    match e
    case Delete(path, confirmName, id, now, ok, ok2) =>
      DeleteStepOk(w, path, confirmName, id, now, ok, ok2, item);
      SafeFacts(w, e, Next(w, e), item);
    case BulkDelete(paths, ids, now, oks) =>
      BulkDeleteCounts(w, paths, ids, now, oks, item);
      SafeFacts(w, e, Next(w, e), item);
    case Restore(id, ok) =>
      RestoreSound(w, id, ok);
      RestoreSafe(w, id, ok);
      if id != item.id {
        RestoreKeeps(w, id, ok, item);
      }
      SafeFacts(w, e, Next(w, e), item);
  }

  lemma RestoreSafe(w: World, id: string, ok: bool)
    requires Sound(w)
    ensures SafeStep(w, RestoreSpec(w, id, ok).0)
  {
    hide Sound, RestoreSpec, Files, AllStored;
    RestoreSound(w, id, ok);
  }

  lemma PurgeFacts(w: World, e: Event, item: Item)
    requires Sound(w) && Possible(w, e) && Purging(e)
    ensures StepFacts(w, e, Next(w, e), item)
  {
    hide Sound, SameLive, Files, PurgeSpec, EmptySpec, PurgeExpiredSpec, TreeOk, Keeps, AllStored;
    SoundTree(w);
    match e
    case Purge(id, ok) =>
      PurgeStepOk(w, id, ok);
      if id != item.id {
        PurgeKeeps(w, id, ok, item);
      }
    case Empty(ok) => EmptyStepOk(w, ok);
    case PurgeExpired(cutoff, ok) =>
      PurgeExpiredStepOk(w, cutoff, ok);
      if item.deletedAt >= cutoff {
        PurgeExpiredKeeps(w, cutoff, ok, item);
      }
  }

  lemma AddingFacts(w: World, e: Event, item: Item)
    requires Sound(w) && Possible(w, e) && Adding(e)
    ensures StepFacts(w, e, Next(w, e), item)
  {
    hide Sound, Files, LiveStep, Next, StepFacts, TreeOk, Possible, Displaces;
    SoundTree(w);
    AddingLive(w, e);
    LiveFacts(w, e, Next(w, e), item);
  }

  lemma TableFacts(w: World, e: Event, item: Item)
    requires Sound(w) && Possible(w, e) && (e.CreateShare? || e.ShareOp? || e.Restart?)
    ensures StepFacts(w, e, Next(w, e), item)
  {
    hide Files, TreeOk, Resolve, Records, Recorded, AllStored, AppendSpec, Prune, UnderPrefix, Shares.Step, NewShare,
      SameSubtree;
    SameItself(w.fs, ItemPath(item.id));
    if e.Restart? {
      assert Next(w, e).items == w.saved && Next(w, e).saved == w.saved;
    }
  }

  lemma StepOk(w: World, e: Event, item: Item)
    requires Sound(w) && Possible(w, e)
    ensures TreeOk(w.fs, w.next) && StepFacts(w, e, Next(w, e), item)
  {
    hide Sound, StepFacts, Next, TreeOk, Possible;
    SoundTree(w);
    if e.Move? || e.Rename? || e.BulkMove? {
      MoveFacts(w, e, item);
    } else if e.Delete? || e.BulkDelete? || e.Restore? {
      TrashFacts(w, e, item);
    } else if Purging(e) {
      PurgeFacts(w, e, item);
    } else if Adding(e) {
      AddingFacts(w, e, item);
    } else {
      TableFacts(w, e, item);
    }
  }

  const NO_ITEM := Item("", "", "", false, 0)

  lemma StepSound(w: World, e: Event)
    requires Sound(w) && Possible(w, e)
    ensures TreeOk(w.fs, w.next) && Sound(Next(w, e))
  {
    hide Sound, Next, TreeOk, Possible;
    StepOk(w, e, NO_ITEM);
  }

  // ---------------------------------------------------------------- runs

  /** Every event is possible where it occurs. */
  ghost predicate PossibleRun(w: World, evs: seq<Event>)
    requires Sound(w)
    decreases |evs|
  {
    evs == [] || (Possible(w, evs[0]) && (StepSound(w, evs[0]); PossibleRun(Next(w, evs[0]), evs[1..])))
  }

  ghost function Run(w: World, evs: seq<Event>): (r: World)
    requires Sound(w) && PossibleRun(w, evs)
    ensures Sound(r)
    decreases |evs|
  {
    if evs == [] then w else StepSound(w, evs[0]); Run(Next(w, evs[0]), evs[1..])
  }

  /** Moving, renaming, trashing, restoring, sharing and restarting, in any order and with any failures,
      keep exactly the same files with the same contents. */
  lemma {:induction false} ContentConserved(w: World, evs: seq<Event>)
    requires Sound(w) && PossibleRun(w, evs) && forall i :: 0 <= i < |evs| ==> Conserving(evs[i])
    ensures Files(Run(w, evs).fs) == Files(w.fs)
    decreases |evs|
  {
    hide Sound, Next, Possible, Files, Conserving;
    if evs != [] {
      StepOk(w, evs[0], NO_ITEM);
      ContentConserved(Next(w, evs[0]), evs[1..]);
    }
  }

  /** Some file stands at or below the place. */
  ghost predicate FileBelow(fs: Fs, p: Path) {
    exists q :: q in fs && p <= q && fs[q].File?
  }

  /** A copy whose name is taken by a file, or by a folder with files. */
  ghost predicate Loses(w: World, e: Event) {
    Displaces(w, e) && FileBelow(w.fs, DisplacedAt(w, e))
  }

  lemma FileGone(fs: Fs, p: Path, q: Path)
    requires UniqueInos(fs) && q in fs && p <= q
    ensures fs[q] !in Files(RemoveAll(fs, p))
  {
    RemovedAt(fs, p);
    hide RemoveAll;
  }

  lemma FilesLeft(fs: Fs, p: Path)
    requires UniqueInos(fs)
    ensures Files(fs) <= Files(RemoveAll(fs, p)) <==> !FileBelow(fs, p)
  {
    RemovedAt(fs, p);
    hide RemoveAll, UniqueInos;
    var fs' := RemoveAll(fs, p);
    forall q | q in fs && p <= q && fs[q].File? ensures fs[q] in Files(fs) && fs[q] !in Files(fs') {
      FileGone(fs, p, q);
    }
    if !FileBelow(fs, p) {
      forall x | x in Files(fs) ensures x in Files(fs') {
        var q :| q in fs && fs[q].File? && fs[q] == x;
        assert fs'[q] == x;
      }
    }
  }

  /** A request that is not a purge keeps every file, with identity and contents, exactly when it is not a copy
      under a taken name with a file at or below it. */
  lemma StepLosesExactly(w: World, e: Event)
    requires Sound(w) && Possible(w, e) && !Purging(e)
    ensures TreeOk(w.fs, w.next) && (Files(w.fs) <= Files(Next(w, e).fs) <==> !Loses(w, e))
  {
    hide Sound, Next, Possible, Files, Displaces, WellFormed, NoLinks, UniqueInos, FileBelow;
    SoundTree(w);
    StepOk(w, e, NO_ITEM);
    if Displaces(w, e) {
      DisplacingStep(w, e);
      FilesLeft(w.fs, DisplacedAt(w, e));
    }
  }

  /** No purge, and no copy that loses a file. */
  ghost predicate Lossless(w: World, evs: seq<Event>)
    requires Sound(w) && PossibleRun(w, evs)
    decreases |evs|
  {
    evs == [] ||
    (!Purging(evs[0]) && !Loses(w, evs[0]) && (StepSound(w, evs[0]); Lossless(Next(w, evs[0]), evs[1..])))
  }

  /** Over runs without a purge and without such a copy no file is ever lost or changed. */
  lemma {:induction false} NothingLost(w: World, evs: seq<Event>)
    requires Sound(w) && PossibleRun(w, evs) && Lossless(w, evs)
    ensures Files(w.fs) <= Files(Run(w, evs).fs)
    decreases |evs|
  {
    hide Sound, Next, Possible, Files, Loses;
    if evs != [] {
      StepSound(w, evs[0]);
      StepLosesExactly(w, evs[0]);
      NothingLost(Next(w, evs[0]), evs[1..]);
    }
  }

  /** A purge loses files only from the trash. */
  lemma OnlyTrashIsPurged(w: World, e: Event, p: Path)
    requires Sound(w) && Possible(w, e) && Purging(e) && p in w.fs
    requires TreeOk(w.fs, w.next)
    ensures p !in Next(w, e).fs || Next(w, e).fs[p] != w.fs[p] ==> ITEMS < p
  {
    hide Sound, Next, Possible, TreeOk;
    StepOk(w, e, NO_ITEM);
  }

  // ---------------------------------------------------------------- trash records against stored entries

  /** Records and stored entries correspond one to one. */
  ghost predicate Matching(w: World) {
    Records(w.items) && forall id: string :: ItemPath(id) in w.fs <==> id in Ids(w.items)
  }

  lemma MatchingExactly(w: World)
    requires Sound(w)
    ensures Matching(w) <==> AllStored(w.fs, w.items)
  {
    hide TreeOk, ItemPath, Records;
    forall id: string | id in Ids(w.items) && AllStored(w.fs, w.items) ensures ItemPath(id) in w.fs {
      var k :| 0 <= k < |w.items| && Ids(w.items)[k] == id;
    }
    if Matching(w) {
      forall i | 0 <= i < |w.items| ensures ItemPath(w.items[i].id) in w.fs {
        assert Ids(w.items)[i] == w.items[i].id;
      }
    }
  }

  /** Between restarts, whatever saves fail, trash records and stored entries correspond one to one. */
  lemma {:induction false} RecordsMatch(w: World, evs: seq<Event>)
    requires Sound(w) && AllStored(w.fs, w.items)
    requires PossibleRun(w, evs) && forall i :: 0 <= i < |evs| ==> !evs[i].Restart?
    ensures Matching(Run(w, evs))
    decreases |evs|
  {
    hide Sound, Next, Possible, AllStored, Matching;
    if evs == [] {
      MatchingExactly(w);
    } else {
      StepOk(w, evs[0], NO_ITEM);
      RecordsMatch(Next(w, evs[0]), evs[1..]);
    }
  }

  lemma RestartedMatches(w: World)
    requires Sound(w)
    ensures Sound(Restarted(w)) && (Matching(Restarted(w)) <==> AllStored(w.fs, w.saved))
  {
    hide TreeOk, Records, Recorded, AllStored, Matching, Shares.Step;
    MatchingExactly(Restarted(w));
  }

  /** The trash records are saved where they change. */
  predicate SavesSucceed(e: Event) {
    match e
    case Delete(_, _, _, _, ok, _) => ok
    case BulkDelete(_, _, _, saves) => forall i :: 0 <= i < |saves| ==> saves[i].trash
    case Restore(_, ok) => ok
    case Purge(_, ok) => ok
    case Empty(ok) => ok
    case PurgeExpired(_, ok) => ok
    case _ => true
  }

  /** The step changes the trash records and writes them to trash_info.json. */
  ghost predicate SavesRecords(w: World, e: Event)
    requires TreeOk(w.fs, w.next) && Possible(w, e)
  {
    match e
    case Delete(path, confirmName, id, now, ok, ok2) => DeleteSpec(w, path, confirmName, id, now, ok, ok2).1
    case BulkDelete(paths, ids, now, saves) =>
      var r := BulkDeleteSpec(w, paths, ids, now, saves); r.Some? && r.value.moved > 0
    case Empty(ok) => ok
    case _ => (Purging(e) || e.Restore?) && e.ok && Next(w, e).items != w.items
  }

  /** The records are in memory and on disk, or the file is as it was and memory holds no more than before. */
  ghost predicate SavedOrKept(w: World, w': World, done: bool) {
    if done then w'.saved == w'.items
    else w'.saved == w.saved && forall item :: item in w'.items ==> item in w.items
  }

  lemma TrashSaves(w: World, path: string, id: string, now: int, ok: bool, ok2: bool)
    ensures var (w', done) := TrashAndUnshare(w, path, id, now, ok, ok2);
            if done then w'.saved == w'.items else w'.saved == w.saved && w'.items == w.items
  {
    hide Resolve, Trim, Tree.Rename, MkdirAll, RemoveByPathPrefixSpec, Base, IsTrashPath;
  }

  lemma {:induction false} BulkTrashSaves(w: World, paths: seq<string>, ids: seq<string>, now: int, oks: seq<Saves>,
                                          n: nat)
    requires n <= |paths| == |ids| == |oks|
    ensures var p := BulkDeleteTo(w, paths, ids, now, oks, n);
            if p.moved > 0 then p.w.saved == p.w.items else p.w.saved == w.saved && p.w.items == w.items
  {
    hide TrashAndUnshare;
    if n > 0 {
      BulkTrashSaves(w, paths, ids, now, oks, n - 1);
      TrashSaves(BulkDeleteTo(w, paths, ids, now, oks, n - 1).w, paths[n - 1], ids[n - 1], now, oks[n - 1].trash,
                 oks[n - 1].shares);
    }
  }

  lemma {:induction false} BulkMoveSaved(w: World, paths: seq<string>, dest: Path, destDir: string, oks: seq<bool>,
                                         n: nat)
    requires n <= |paths| == |oks|
    ensures var w' := BulkMoveTo(w, paths, dest, destDir, oks, n).w; w'.saved == w.saved && w'.items == w.items
  {
    hide Resolve, Trim, Tree.Rename, RewritePathPrefixSpec, PathJoinSpec, IsTrashPath, MoveTarget;
    if n > 0 {
      BulkMoveSaved(w, paths, dest, destDir, oks, n - 1);
    }
  }

  lemma RestoreSaves(w: World, id: string, ok: bool)
    requires Records(w.items)
    ensures var w' := RestoreSpec(w, id, ok).0; SavedOrKept(w, w', ok && w'.items != w.items)
  {
    hide Resolve, Tree.Rename, MkdirAll, IsTrashPath, ValidShareToken, ItemFrom, Dropped, Records;
    var i := ItemAt(w.items, id);
    if i < |w.items| {
      DroppedKeeps(w.items, i);
    }
  }

  lemma PurgeSaves(w: World, id: string, ok: bool)
    requires Records(w.items)
    ensures var w' := PurgeSpec(w, id, ok).0; SavedOrKept(w, w', ok && w'.items != w.items)
  {
    hide RemoveAll, ValidShareToken, ItemFrom, Dropped, Records;
    var i := ItemAt(w.items, id);
    if i < |w.items| {
      DroppedKeeps(w.items, i);
    }
  }

  lemma DroppedKeeps(items: seq<Item>, i: nat)
    requires Records(items) && i < |items|
    ensures (forall item :: item in Dropped(items, i) ==> item in items) && Dropped(items, i) != items
  {
    hide Records;
    assert |Dropped(items, i)| == |items| - 1;
    forall item | item in Dropped(items, i) ensures item in items {
      InDropped(items, i, item);
    }
  }

  lemma {:induction false} KeptAndStale(items: seq<Item>, cutoff: int, n: nat)
    requires n <= |items|
    ensures |KeptTo(items, cutoff, n)| + |StaleTo(items, cutoff, n)| == n
  {
    if n > 0 {
      KeptAndStale(items, cutoff, n - 1);
    }
  }

  lemma PurgeExpiredSaves(w: World, cutoff: int, ok: bool)
    ensures var w' := PurgeExpiredSpec(w, cutoff, ok); SavedOrKept(w, w', ok && w'.items != w.items)
  {
    hide RemoveStored, KeptTo, StaleTo;
    KeptAndStale(w.items, cutoff, |w.items|);
    forall item | item in KeptTo(w.items, cutoff, |w.items|) ensures item in w.items {
      KeptMember(w.items, cutoff, |w.items|, item);
    }
  }

  /** What a step does to the records in memory and in the file. */
  lemma StepSaves(w: World, e: Event)
    requires Sound(w) && TreeOk(w.fs, w.next) && Possible(w, e) && !e.Restart?
    ensures SavedOrKept(w, Next(w, e), SavesRecords(w, e))
    ensures SavesSucceed(e) && !SavesRecords(w, e) ==> Next(w, e).items == w.items
  {
    hide TreeOk, Records, Recorded, MoveSpec, RenameSpec, BulkMoveTo, BulkDeleteTo, TrashAndUnshare, RestoreSpec,
      PurgeSpec, PurgeExpiredSpec, RemoveStored, CreateShareSpec, MkdirSpec, UploadFoldersSpec, UploadSpec,
      DirectUploadSpec, DropUploadSpec, CopySpec, DuplicateSpec, Resolve, UniqueTo, NamesRoot, FreshId, FreshIds,
      Shares.Step, KeepsPaths, NewShare, Trim, IsTrashPath, Grown, LiveStep, Files, Displaces, ReadDir;
    match e
    case Move(path, destDir, ok) => MoveSaved(w, path, destDir, ok);
    case Rename(oldPath, newName, ok) => RenameSaved(w, oldPath, newName, ok);
    case BulkMove(paths, destDir, oks) =>
      if BulkMoveSpec(w, paths, destDir, oks).Some? {
        BulkMoveSaved(w, Unique(paths), Locate(w, destDir).value, destDir, oks, |Unique(paths)|);
      }
    case Delete(path, confirmName, id, now, ok, ok2) => TrashSaves(w, Trim(path, "/"), id, now, ok, ok2);
    case BulkDelete(paths, ids, now, oks) => BulkTrashSaves(w, Unique(paths), ids, now, oks, |Unique(paths)|);
    case Restore(id, ok) => RestoreSaves(w, id, ok);
    case Purge(id, ok) => PurgeSaves(w, id, ok);
    case Empty(ok) =>
    case PurgeExpired(cutoff, ok) => PurgeExpiredSaves(w, cutoff, ok);
    case CreateShare(token, path, kind, mode, now, ok) => CreateSaved(w, token, path, kind, mode, now, ok);
    case ShareOp(op) =>
    case _ => AddingSaved(w, e);
  }

  lemma MoveSaved(w: World, path: string, destDir: string, ok: bool)
    ensures var w' := MoveSpec(w, path, destDir, ok).0; w'.saved == w.saved && w'.items == w.items
  {
    hide Resolve, Trim, Tree.Rename, RewritePathPrefixSpec, PathJoinSpec, IsTrashPath, MoveTarget;
  }

  lemma RenameSaved(w: World, oldPath: string, newName: string, ok: bool)
    requires !NamesRoot(oldPath)
    ensures var w' := RenameSpec(w, oldPath, newName, ok).0; w'.saved == w.saved && w'.items == w.items
  {
    hide Resolve, Trim, Tree.Rename, RewritePathPrefixSpec, PathJoinSpec, PathDir, SanitizeName;
  }

  lemma CreateSaved(w: World, token: string, path: string, kind: string, mode: Mode, now: int, ok: bool)
    ensures var w' := CreateShareSpec(w, token, path, kind, mode, now, ok).0; w'.saved == w.saved && w'.items == w.items
  {
    hide Resolve, Trim, NewShare, AppendSpec;
  }

  lemma AddingSaved(w: World, e: Event)
    requires TreeOk(w.fs, w.next) && Possible(w, e) && Adding(e)
    ensures Next(w, e).saved == w.saved && Next(w, e).items == w.items
  {
    hide TreeOk, Possible, Next, Displaces, DisplacedAt, RemoveAll, UserSpot, LiveStep, Grown;
    if Displaces(w, e) {
      DisplacingStep(w, e);
    } else {
      AddingStep(w, e);
    }
  }

  lemma RestartInPlace(w: World, e: Event)
    requires TreeOk(w.fs, w.next) && Possible(w, e) && e.Restart?
    ensures Next(w, e).fs == w.fs && Next(w, e).items == w.saved && Next(w, e).saved == w.saved
  {
    hide TreeOk, Shares.Step;
  }

  /** The step takes an entry out of the trash that trash_info.json has a record of. */
  ghost predicate RemovesStored(w: World, w': World) {
    exists i :: 0 <= i < |w.saved| && ItemPath(w.saved[i].id) in w.fs && ItemPath(w.saved[i].id) !in w'.fs
  }

  /** The file of records lags behind the trash: such an entry was taken out and no save succeeded with it or since. */
  ghost predicate Lagging(w: World, e: Event, lags: bool)
    requires TreeOk(w.fs, w.next) && Possible(w, e)
  {
    !SavesRecords(w, e) && (lags || RemovesStored(w, Next(w, e)))
  }

  lemma LagsExactly(w: World, e: Event)
    requires Sound(w) && TreeOk(w.fs, w.next) && Possible(w, e) && !e.Restart? && AllStored(w.fs, w.items)
    ensures AllStored(Next(w, e).fs, Next(w, e).items)
    ensures AllStored(Next(w, e).fs, Next(w, e).saved) <==> !Lagging(w, e, !AllStored(w.fs, w.saved))
  {
    hide TreeOk, Next, Possible, SavesRecords, ItemPath, Records;
    StepOk(w, e, NO_ITEM);
    StepSaves(w, e);
    if !SavesRecords(w, e) {
      NoReturn(w, Next(w, e));
    }
  }

  /** No entry comes back under a record that only the file still has. */
  lemma NoReturn(w: World, w': World)
    requires AllStored(w.fs, w.items) && Recorded(w'.fs, w'.items) && SavedOrKept(w, w', false)
    ensures AllStored(w'.fs, w'.saved) <==> AllStored(w.fs, w.saved) && !RemovesStored(w, w')
  {
    hide ItemPath;
    forall i | 0 <= i < |w.saved| && ItemPath(w.saved[i].id) in w'.fs ensures ItemPath(w.saved[i].id) in w.fs {
      var id := w.saved[i].id;
      var k :| 0 <= k < |w'.items| && Ids(w'.items)[k] == id;
      assert w'.items[k] in w.items;
      var j :| 0 <= j < |w.items| && w.items[j] == w'.items[k];
    }
  }

  /** Records and entries correspond before and after every event. */
  ghost predicate AlwaysMatching(w: World, evs: seq<Event>)
    requires Sound(w) && PossibleRun(w, evs)
    decreases |evs|
  {
    Matching(w) && (evs == [] || (StepSound(w, evs[0]); AlwaysMatching(Next(w, evs[0]), evs[1..])))
  }

  /** No restart finds the file lagging. */
  ghost predicate RestartsInStep(w: World, evs: seq<Event>, lags: bool)
    requires Sound(w) && PossibleRun(w, evs)
    decreases |evs|
  {
    evs == [] ||
    (StepSound(w, evs[0]);
     if evs[0].Restart? then !lags && RestartsInStep(Next(w, evs[0]), evs[1..], false)
     else RestartsInStep(Next(w, evs[0]), evs[1..], Lagging(w, evs[0], lags)))
  }

  /** Over any run, whatever saves fail, records and entries correspond throughout exactly when no restart comes
      between a step that took a recorded entry out of the trash unsaved and the next save that succeeds. */
  lemma {:induction false} RestartMatchesExactly(w: World, evs: seq<Event>)
    requires Sound(w) && PossibleRun(w, evs) && AllStored(w.fs, w.items)
    ensures AlwaysMatching(w, evs) <==> RestartsInStep(w, evs, !AllStored(w.fs, w.saved))
    decreases |evs|
  {
    hide Sound, Next, Possible, AllStored, Matching, Lagging;
    MatchingExactly(w);
    if evs != [] {
      var e := evs[0];
      StepSound(w, e);
      var w' := Next(w, e);
      if e.Restart? {
        RestartInPlace(w, e);
        MatchingExactly(w');
        if AllStored(w'.fs, w'.items) {
          RestartMatchesExactly(w', evs[1..]);
        }
      } else {
        LagsExactly(w, e);
        RestartMatchesExactly(w', evs[1..]);
      }
    }
  }

  lemma SavedStays(w: World, e: Event)
    requires Sound(w) && TreeOk(w.fs, w.next) && Possible(w, e) && SavesSucceed(e)
    requires w.saved == w.items && AllStored(w.fs, w.items)
    ensures Next(w, e).saved == Next(w, e).items && AllStored(Next(w, e).fs, Next(w, e).items)
  {
    hide Sound, TreeOk, Next, Possible, SavesSucceed, SavesRecords, AllStored;
    StepOk(w, e, NO_ITEM);
    if e.Restart? {
      RestartInPlace(w, e);
    } else {
      StepSaves(w, e);
    }
  }

  /** While the saves succeed, they correspond one to one over restarts as well. */
  lemma {:induction false} RecordsMatchAlways(w: World, evs: seq<Event>)
    requires Sound(w) && AllStored(w.fs, w.items) && w.saved == w.items
    requires PossibleRun(w, evs) && forall i :: 0 <= i < |evs| ==> SavesSucceed(evs[i])
    ensures Matching(Run(w, evs)) && Run(w, evs).saved == Run(w, evs).items
    decreases |evs|
  {
    hide Sound, TreeOk, Next, Possible, AllStored, Matching, SavesSucceed;
    if evs == [] {
      MatchingExactly(w);
    } else {
      StepSound(w, evs[0]);
      SavedStays(w, evs[0]);
      RecordsMatchAlways(Next(w, evs[0]), evs[1..]);
    }
  }

  /** A restore whose save fails leaves the matching as it was, and a restart then brings back a record
      whose entry is gone. */
  lemma StaleAfterRestart(w: World, item: Item)
    requires Sound(w) && AllStored(w.fs, w.items) && Held(w, item) && RestoreSpec(w, item.id, true).1
    ensures var w1 := RestoreSpec(w, item.id, false).0;
            var w2 := Restarted(w1);
            Sound(w1) && Matching(w1) && !Matching(w2) && item in w2.items && ItemPath(item.id) !in w2.fs
  {
    hide RestoreSpec, ItemPath, Files, Sound, TreeOk, Matching, AllStored;
    var w1 := RestoreSpec(w, item.id, false).0;
    RestoreSound(w, item.id, false);
    MatchingExactly(w1);
    BackUnsaved(w, item);
    RestartedMatches(w1);
    NotAllStored(w1.fs, w1.saved, item);
  }

  lemma NotAllStored(fs: Fs, items: seq<Item>, item: Item)
    requires item in items && ItemPath(item.id) !in fs
    ensures !AllStored(fs, items)
  {
    var k :| 0 <= k < |items| && items[k] == item;
  }

  /** The restore puts the entry back and leaves the file of records as it was. */
  lemma BackUnsaved(w: World, item: Item)
    requires Sound(w) && Held(w, item) && RestoreSpec(w, item.id, true).1
    ensures var w1 := RestoreSpec(w, item.id, false).0; w1.saved == w.saved && ItemPath(item.id) !in w1.fs
  {
    hide Moved, ItemPath, Grown, MkdirAll, CleanRooted, Slashed, UserSpot, IsDir, Recorded, Files, TreeOk, SameSubtree,
      Tree.Rename, Resolve, IsTrashPath, Lstat;
    var how := RestoreOutcome(w, item.id, true);
    var i := ItemAt(w.items, item.id);
    var dest := CleanRooted(Slashed(w.items[i].path));
    SpotNonEmpty(dest);
    var ready := MkdirAll(w.fs, Parent(dest), w.next).value;
    SoundTree(w);
    StillStored(w, ready, dest, item.id);
    RestoreMoves(ready, w.next + |dest|, item.id, dest);
  }

  lemma {:induction false} RunKeeps(w: World, evs: seq<Event>, item: Item)
    requires Sound(w) && PossibleRun(w, evs) && forall i :: 0 <= i < |evs| ==> Spares(evs[i], item)
    ensures Keeps(w, Run(w, evs), item)
    decreases |evs|
  {
    hide Sound, Next, Possible, Keeps, Spares;
    if evs == [] {
      KeepsItself(w, item);
    } else {
      StepOk(w, evs[0], item);
      RunKeeps(Next(w, evs[0]), evs[1..], item);
      KeepsTransitive(w, Next(w, evs[0]), Run(w, evs), item);
    }
  }

  /** A restore that reports success puts the stored subtree back where the record says. */
  lemma RestorePutsBack(w: World, item: Item, ok: bool)
    requires Sound(w) && Held(w, item) && RestoreSpec(w, item.id, ok).1
    ensures SameSubtree(w.fs, ItemPath(item.id), RestoreSpec(w, item.id, ok).0.fs, CleanRooted(Slashed(item.path)))
  {
    hide RestoreSpec, Moved, ItemPath, Grown, MkdirAll, CleanRooted, Slashed, UserSpot, IsDir, Recorded, Files, TreeOk,
      SameSubtree;
    var how := RestoreOutcome(w, item.id, ok);
    var i := ItemAt(w.items, item.id);
    assert w.items[i] == item by {
      var k :| 0 <= k < |w.items| && w.items[k] == item;
    }
    var dest := CleanRooted(Slashed(item.path));
    SpotNonEmpty(dest);
    var ready := MkdirAll(w.fs, Parent(dest), w.next).value;
    StillStored(w, ready, dest, item.id);
    GrownEffect(w.fs, w.next, ready, w.next + |dest|);
    SameOne(w.fs, ready, item.id);
    RestoreMoves(ready, w.next + |dest|, item.id, dest);
    SameSubtreeTransitive(w.fs, ItemPath(item.id), ready, ItemPath(item.id), RestoreSpec(w, item.id, ok).0.fs, dest);
  }

  /** Trash an entry, let anything happen that leaves its record alone, restore it: the identical
      subtree is back at its original path. */
  lemma RestoredIdentical(w: World, path: string, id: string, now: int, evs: seq<Event>, ok: bool)
    requires Sound(w) && FreshId(w, id) && MoveToTrash(w, path, id, now, true).1
    ensures var w1 := MoveToTrash(w, path, id, now, true).0;
            var p := CleanRooted(Slashed(Trim(path, "/")));
            && Sound(w1) && w1.items != [] && p in w.fs
            && var item := w1.items[|w1.items| - 1];
               PossibleRun(w1, evs) && (forall i :: 0 <= i < |evs| ==> Spares(evs[i], item)) ==>
                 var r := RestoreSpec(Run(w1, evs), id, ok);
                 r.1 ==> SameSubtree(w.fs, p, r.0.fs, p)
  {
    hide Sound, FreshId, MoveToTrash, Moved, ItemPath, UserSpot, CleanRooted, Slashed, RestoreSpec, Keeps, Spares,
      Possible, Next, AllStored, Files, TreeOk, SameSubtree, PossibleRun, Run;
    SoundTree(w);
    MoveToTrashOutcome(w, path, id, now, true);
    var rel := Trim(path, "/");
    var p := CleanRooted(Slashed(rel));
    var w1 := AfterTrash(w, p, rel, id, now);
    TrashSound(w, p, rel, id, now);
    FreshStored(w, id);
    TrashMoves(w.fs, w.next, p, id);
    var item := w1.items[|w1.items| - 1];
    var spared := PossibleRun(w1, evs) && forall i :: 0 <= i < |evs| ==> Spares(evs[i], item);
    if spared && RestoreSpec(Run(w1, evs), id, ok).1 {
      RunKeeps(w1, evs, item);
      var w2 := Run(w1, evs);
      KeptHeld(w1, w2, item);
      RestorePutsBack(w2, item, ok);
      SameSubtreeTransitive(w.fs, p, w1.fs, ItemPath(id), w2.fs, ItemPath(id));
      SameSubtreeTransitive(w.fs, p, w2.fs, ItemPath(id), RestoreSpec(w2, id, ok).0.fs, p);
    }
  }

  lemma FreshStored(w: World, id: string)
    requires FreshId(w, id)
    ensures ItemPath(id) !in w.fs && ValidShareToken(id)
  {
  }

  lemma KeptHeld(w: World, w': World, item: Item)
    requires Keeps(w, w', item) && Held(w, item)
    ensures Held(w', item) && SameSubtree(w.fs, ItemPath(item.id), w'.fs, ItemPath(item.id))
  {
  }
}
