/** Over whole runs every share keeps pointing at the node it was created for. */
module ArchiveFollows {
  import opened Archive
  import opened ArchiveEffects
  import opened ArchiveRuns
  import opened ArchiveShares
  import opened ArchiveSteps
  import opened ArchiveTheorems
  import opened ArchiveTrash
  import opened Copier
  import opened FileSystem
  import opened Paths
  import opened Resolver
  import opened Shares
  import opened Tree

  ghost predicate Tracked(w: World) {
    AllFollow(w.fs, w.made, w.shares.mem)
  }

  /** Requests whose paths reach the share table spell them plainly, no copy displaces an entry, and a restart
      finds shares.json up to date. */
  ghost predicate PlainEvent(w: World, e: Event) {
    match e
    case Move(path, destDir, _) => Plain(path) && PlainDir(destDir)
    case Rename(oldPath, _, _) => Plain(oldPath)
    case BulkMove(paths, destDir, _) => PlainDir(destDir) && AllPlain(Unique(paths))
    case Delete(path, _, _, _, _, _) => Plain(path)
    case BulkDelete(paths, _, _, _) => AllPlain(Unique(paths))
    case CreateShare(_, path, _, _, _, _) => Plain(path)
    case Copy(_, _, _) => !Displaces(w, e)
    case Duplicate(_, _) => !Displaces(w, e)
    case Restart => w.shares.disk == w.shares.mem
    case _ => true
  }

  predicate AllPlain(paths: seq<string>) {
    forall i :: 0 <= i < |paths| ==> Plain(paths[i])
  }

  lemma PlainTrim(request: string)
    requires Plain(request)
    ensures Plain(Trim(request, "/")) && Trim(Trim(request, "/"), "/") == Trim(request, "/")
    ensures CleanRooted(Slashed(Trim(request, "/"))) == CleanRooted(Slashed(request))
  {
    PlainMeans(request);
    var p := CleanRooted(Slashed(request));
    JoinCanonical(p);
    RequestCanonical(p);
  }

  /** A permitted move whose strings spell its paths. */
  lemma MovedFollow(w: World, r: (World, bool), src: Path, dst: Path, from: string, to: string, ok: bool)
    requires Tracked(w) && Moves(w, r, src, dst, from, to, ok) && from == Join(src) && to == Join(dst)
    ensures Tracked(r.0)
  {
    hide AllFollow, TreeOk, FreeMove, UserSpot, RewritePathPrefixSpec, Moved;
    if r.1 {
      TableMoves(w.fs, src, dst, w.made, w.shares, ok);
    }
  }

  lemma MoveSource(w: World, r: (World, bool), src: Path, dst: Path, from: string, to: string, ok: bool)
    requires Moves(w, r, src, dst, from, to, ok) && r.1
    ensures src != [] && UserName(Last(src))
  {
  }

  lemma MoveFollows(w: World, path: string, destDir: string, ok: bool)
    requires TreeOk(w.fs, w.next) && Tracked(w) && Plain(path) && PlainDir(destDir)
    ensures Tracked(MoveSpec(w, path, destDir, ok).0)
  {
    hide TreeOk, Tracked, Moves, MoveSpec, Plain, PlainDir, CleanRooted, UserName, UserPath, UserSpot, PathJoinSpec,
      Trim, Join;
    MoveOutcome(w, path, destDir, ok);
    var r := MoveSpec(w, path, destDir, ok);
    if r.1 {
      var src, dest := CleanRooted(Slashed(path)), CleanRooted(Slashed(destDir));
      var dst := dest + [Last(src)];
      var to := PathJoinSpec([Trim(destDir, "/"), Last(src)]);
      MoveSource(w, r, src, dst, Trim(path, "/"), to, ok);
      PlainMeans(path);
      PlainDirMeans(destDir, Last(src));
      MovedFollow(w, r, src, dst, Trim(path, "/"), to, ok);
    }
  }

  lemma RenameFollows(w: World, oldPath: string, newName: string, ok: bool)
    requires TreeOk(w.fs, w.next) && Tracked(w) && Plain(oldPath) && !NamesRoot(oldPath)
    ensures Tracked(RenameSpec(w, oldPath, newName, ok).0)
  {
    hide TreeOk, Tracked, Moves, RenameSpec, Plain, CleanRooted, UserName, UserSpot, PathJoinSpec, Trim, Join,
      SanitizeName, PathDir;
    RenameOutcome(w, oldPath, newName, ok);
    var r, name := RenameSpec(w, oldPath, newName, ok), SanitizeName(newName);
    if r.1 {
      var src := CleanRooted(Slashed(oldPath));
      PlainMeans(oldPath);
      PlainParent(oldPath, name);
      MovedFollow(w, r, src, Parent(src) + [name], Trim(oldPath, "/"), PathJoinSpec([PathDir(oldPath), name]), ok);
    }
  }

  lemma MoveOneFollows(w: World, path: string, dest: Path, destDir: string, ok: bool)
    requires TreeOk(w.fs, w.next) && Tracked(w) && Plain(path) && PlainDir(destDir)
    requires IsDir(w.fs, dest) && dest == CleanRooted(Slashed(destDir)) && UserPath(dest)
    ensures Tracked(MoveOne(w, path, dest, destDir, ok).0)
  {
    hide TreeOk, Tracked, Moves, MoveOne, Plain, PlainDir, CleanRooted, UserName, UserPath, UserSpot, PathJoinSpec,
      Trim, Join;
    MoveOneOutcome(w, path, dest, destDir, ok);
    var r := MoveOne(w, path, dest, destDir, ok);
    if r.1 {
      var rel := Trim(path, "/");
      var src := CleanRooted(Slashed(rel));
      var to := PathJoinSpec([Trim(destDir, "/"), Last(src)]);
      MoveSource(w, r, src, dest + [Last(src)], rel, to, ok);
      PlainTrim(path);
      PlainMeans(path);
      PlainDirMeans(destDir, Last(src));
      MovedFollow(w, r, src, dest + [Last(src)], rel, to, ok);
    }
  }

  lemma {:induction false} BulkMoveFollows(w: World, paths: seq<string>, dest: Path, destDir: string, oks: seq<bool>,
                                           n: nat)
    requires TreeOk(w.fs, w.next) && Tracked(w) && n <= |paths| == |oks| && AllPlain(paths) && PlainDir(destDir)
    requires IsDir(w.fs, dest) && dest == CleanRooted(Slashed(destDir)) && UserPath(dest)
    ensures Tracked(BulkMoveTo(w, paths, dest, destDir, oks, n).w)
  {
    hide TreeOk, Tracked, MoveOne, Plain, PlainDir, CleanRooted, UserPath, LiveStep, Files;
    if n > 0 {
      BulkMoveStep(w, paths, dest, destDir, oks, n - 1);
      BulkMoveFollows(w, paths, dest, destDir, oks, n - 1);
      var before := BulkMoveTo(w, paths, dest, destDir, oks, n - 1).w;
      LiveTree(w, before);
      MoveOneFollows(before, paths[n - 1], dest, destDir, oks[n - 1]);
    }
  }

  lemma BulkMoveSpecFollows(w: World, paths: seq<string>, destDir: string, oks: seq<bool>)
    requires TreeOk(w.fs, w.next) && Tracked(w)
    requires |oks| == |Unique(paths)| && AllPlain(Unique(paths)) && PlainDir(destDir)
    ensures Tracked(BulkResult(w, BulkMoveSpec(w, paths, destDir, oks)))
  {
    hide TreeOk, Tracked, AllPlain, PlainDir, Resolve, BulkMoveTo, UniqueTo, UserPath, CleanRooted, IsTrashPath;
    if BulkMoveSpec(w, paths, destDir, oks).Some? {
      LocateUser(w, destDir);
      BulkMoveFollows(w, Unique(paths), CleanRooted(Slashed(destDir)), destDir, oks, |Unique(paths)|);
    }
  }

  lemma TrashFollows(w: World, path: string, id: string, now: int, ok: bool, ok2: bool)
    requires TreeOk(w.fs, w.next) && FreshId(w, id) && Tracked(w) && Plain(path)
    ensures Tracked(TrashAndUnshare(w, path, id, now, ok, ok2).0)
  {
    hide TreeOk, FreshId, AllFollow, Plain, CleanRooted, MoveToTrash, Moved, ItemPath, UserSpot, Trim, Join,
      RemoveByPathPrefixSpec, FreeMove;
    MoveToTrashOutcome(w, path, id, now, ok);
    var r := MoveToTrash(w, path, id, now, ok);
    if r.1 {
      var rel := Trim(path, "/");
      var src := CleanRooted(Slashed(rel));
      PlainTrim(path);
      PlainMeans(path);
      FreshStored(w, id);
      TrashMoves(w.fs, w.next, src, id);
      TableTrashed(w.fs, src, ItemPath(id), w.made, w.shares, ok2);
    }
  }

  lemma DeleteFollows(w: World, path: string, confirmName: string, id: string, now: int, ok: bool, ok2: bool)
    requires TreeOk(w.fs, w.next) && FreshId(w, id) && Tracked(w) && Plain(path)
    ensures Tracked(DeleteSpec(w, path, confirmName, id, now, ok, ok2).0)
  {
    hide TreeOk, FreshId, Tracked, Plain, TrashAndUnshare, Resolve, Trim;
    PlainTrim(path);
    TrashFollows(w, Trim(path, "/"), id, now, ok, ok2);
  }

  lemma {:induction false} BulkDeleteFollows(w: World, paths: seq<string>, ids: seq<string>, now: int, oks: seq<Saves>,
                                             n: nat)
    requires Sound(w) && Tracked(w) && n <= |paths| == |ids| == |oks| && FreshIds(w, ids, 0) && AllPlain(paths)
    ensures Tracked(BulkDeleteTo(w, paths, ids, now, oks, n).w)
  {
    hide Sound, FreshId, Tracked, Plain, TrashAndUnshare, SafeStep, Keeps, TreeOk;
    if n > 0 {
      BulkDeleteStep(w, paths, ids, now, oks, n - 1, NO_ITEM);
      BulkDeleteFollows(w, paths, ids, now, oks, n - 1);
      var before := BulkDeleteTo(w, paths, ids, now, oks, n - 1).w;
      SafeSound(w, before);
      TrashFollows(before, paths[n - 1], ids[n - 1], now, oks[n - 1].trash, oks[n - 1].shares);
    }
  }

  lemma RestoreFollows(w: World, id: string, ok: bool)
    requires TreeOk(w.fs, w.next) && Tracked(w)
    ensures Tracked(RestoreSpec(w, id, ok).0)
  {
    hide RestoreSpec, Moved, ItemPath, MkdirAll, CleanRooted, Slashed, UserSpot, IsDir, Files, TreeOk, AllFollow;
    var how := RestoreOutcome(w, id, ok);
    var w' := RestoreSpec(w, id, ok).0;
    match how {
      case Untouched =>
      case Forgotten =>
      case Unfolded => TableStays(w.fs, w'.fs, w.made, w.shares.mem);
      case Back =>
        var dest := CleanRooted(Slashed(w.items[ItemAt(w.items, id)].path));
        SpotNonEmpty(dest);
        var ready := MkdirAll(w.fs, Parent(dest), w.next).value;
        TableStays(w.fs, ready, w.made, w.shares.mem);
        GrownTree(w.fs, w.next, ready, w.next + |dest|);
        BackKeepsUsers(ready, w.next + |dest|, id, dest);
        TableStays(ready, w'.fs, w.made, w.shares.mem);
    }
  }

  lemma BackKeepsUsers(fs: Fs, next: nat, id: string, dest: Path)
    requires TreeOk(fs, next) && dest !in fs
    ensures var fs' := Moved(fs, ItemPath(id), dest); forall p :: p in fs && UserSpot(p) ==> p in fs' && fs'[p] == fs[p]
  {
    hide WellFormed, Moved, UserSpot, ItemPath;
    forall p | p in fs && UserSpot(p)
      ensures p in Moved(fs, ItemPath(id), dest) && Moved(fs, ItemPath(id), dest)[p] == fs[p]
    {
      UserApartFromTrash(p, id);
      NothingBelow(fs, dest, p);
      MovedAt(fs, ItemPath(id), dest, p);
    }
  }

  lemma PurgeFollows(w: World, w': World)
    requires Tracked(w) && PurgeStep(w, w')
    ensures Tracked(w')
  {
    hide AllFollow, Sound, UserSpot;
    forall p | p in w.fs && UserSpot(p) ensures p in w'.fs && w'.fs[p] == w.fs[p] {
      UserApartFromTrash(p, "");
    }
    TableStays(w.fs, w'.fs, w.made, w.shares.mem);
  }

  lemma AddingFollows(w: World, w': World)
    requires Tracked(w) && GrowStep(w, w')
    ensures Tracked(w')
  {
    hide AllFollow, TreeOk, UserSpot;
    TableStays(w.fs, w'.fs, w.made, w.shares.mem);
  }

  lemma NewMark(fs: Fs, made: map<string, nat>, shares: seq<Share>, token: string, ino: nat)
    requires AllFollow(fs, made, shares) && token !in made
    ensures AllFollow(fs, made[token := ino], shares)
  {
    forall i | 0 <= i < |shares| ensures Follows(fs, made[token := ino], shares[i]) {
      assert Follows(fs, made, shares[i]);
    }
  }

  lemma CreateShareFollows(w: World, token: string, path: string, kind: string, mode: Mode, now: int, ok: bool)
    requires TreeOk(w.fs, w.next) && Tracked(w) && token !in w.made && Plain(path)
    ensures Tracked(CreateShareSpec(w, token, path, kind, mode, now, ok).0)
  {
    hide TreeOk, AllFollow, Plain, CleanRooted, Slashed, Resolve, Prune, Trim, Split, Join;
    var r := CreateShareSpec(w, token, path, kind, mode, now, ok);
    var rel := Trim(path, "/");
    if rel != "" && Locate(w, rel).Ok? && Locate(w, rel).value in w.fs {
      PlainTrim(path);
      PlainMeans(path);
      LocateUser(w, rel);
      var p := Locate(w, rel).value;
      var made := w.made[token := w.fs[p].ino];
      var sh := NewShare(token, path, w.fs[p].Dir?, kind, mode, now);
      if sh.Some? {
        FromPruned(w.shares.mem, now);
        FromFollows(w.fs, w.made, w.shares.mem, Prune(w.shares.mem, now));
        NewMark(w.fs, w.made, Prune(w.shares.mem, now), token, w.fs[p].ino);
        JoinCanonical(p);
        assert Follows(w.fs, made, sh.value);
        OneMore(w.fs, made, Prune(w.shares.mem, now), sh.value);
      }
    }
  }

  lemma OneMore(fs: Fs, made: map<string, nat>, shares: seq<Share>, sh: Share)
    requires AllFollow(fs, made, shares) && Follows(fs, made, sh)
    ensures AllFollow(fs, made, shares + [sh])
  {
  }

  lemma ShareOpFollows(w: World, op: Op)
    requires Tracked(w) && KeepsPaths(op)
    ensures Tracked(w.(shares := Shares.Step(w.shares, op).0))
  {
    hide AllFollow, Shares.Step;
    OpKeepsPlaces(w.shares, op);
    FromFollows(w.fs, w.made, w.shares.mem, Shares.Step(w.shares, op).0.mem);
  }

  /** Every event keeps every share on its node. */
  lemma StepFollows(w: World, e: Event)
    requires Sound(w) && Possible(w, e) && PlainEvent(w, e) && Tracked(w)
    ensures TreeOk(w.fs, w.next) && Tracked(Next(w, e))
  {
    hide Sound, TreeOk, Tracked, AllPlain, Plain, PlainDir, FreshIds, FreshId, KeepsPaths, MoveSpec, RenameSpec,
      BulkMoveSpec, DeleteSpec, BulkDeleteSpec, RestoreSpec, PurgeSpec, EmptySpec, PurgeExpiredSpec, CreateShareSpec,
      Shares.Step, UniqueTo, GrowStep, PurgeStep, MkdirSpec, UploadFoldersSpec, UploadSpec, DirectUploadSpec,
      DropUploadSpec, CopySpec, DuplicateSpec, NamesRoot, Displaces;
    SoundTree(w);
    match e
    case Move(path, destDir, ok) => MoveFollows(w, path, destDir, ok);
    case Rename(oldPath, newName, ok) => RenameFollows(w, oldPath, newName, ok);
    case BulkMove(paths, destDir, oks) => BulkMoveSpecFollows(w, paths, destDir, oks);
    case Delete(path, confirmName, id, now, ok, ok2) => DeleteFollows(w, path, confirmName, id, now, ok, ok2);
    case BulkDelete(paths, ids, now, oks) => BulkDeleteSpecFollows(w, paths, ids, now, oks);
    case Restore(id, ok) => RestoreFollows(w, id, ok);
    case Purge(id, ok) =>
      PurgeStepOk(w, id, ok);
      PurgeFollows(w, Next(w, e));
    case Empty(ok) =>
      EmptyStepOk(w, ok);
      PurgeFollows(w, Next(w, e));
    case PurgeExpired(cutoff, ok) =>
      PurgeExpiredStepOk(w, cutoff, ok);
      PurgeFollows(w, Next(w, e));
    case CreateShare(token, path, kind, mode, now, ok) => CreateShareFollows(w, token, path, kind, mode, now, ok);
    case ShareOp(op) => ShareOpFollows(w, op);
    case Restart => RestartFollows(w);
    case _ =>
      OnlyCopiesDisplace(w, e);
      AddingStep(w, e);
      AddingFollows(w, Next(w, e));
  }

  lemma BulkDeleteSpecFollows(w: World, paths: seq<string>, ids: seq<string>, now: int, oks: seq<Saves>)
    requires Sound(w) && Tracked(w) && AllPlain(Unique(paths))
    requires |oks| == |ids| == |Unique(paths)| && FreshIds(w, ids, 0)
    ensures Tracked(BulkResult(w, BulkDeleteSpec(w, paths, ids, now, oks)))
  {
    hide Sound, Tracked, AllPlain, BulkDeleteTo, UniqueTo, FreshIds;
    BulkDeleteFollows(w, Unique(paths), ids, now, oks, |Unique(paths)|);
  }

  lemma RestartFollows(w: World)
    requires Tracked(w) && w.shares.disk == w.shares.mem
    ensures Tracked(Restarted(w))
  {
  }

  // ---------------------------------------------------------------- whole runs

  ghost predicate PlainRun(w: World, evs: seq<Event>)
    requires Sound(w) && PossibleRun(w, evs)
    decreases |evs|
  {
    evs == [] || (PlainEvent(w, evs[0]) && (StepSound(w, evs[0]); PlainRun(Next(w, evs[0]), evs[1..])))
  }

  lemma {:induction false} RunFollows(w: World, evs: seq<Event>)
    requires Sound(w) && PossibleRun(w, evs) && PlainRun(w, evs) && Tracked(w)
    ensures Tracked(Run(w, evs))
    decreases |evs|
  {
    hide Sound, Tracked, Next, Possible, PlainEvent;
    if evs != [] {
      StepSound(w, evs[0]);
      StepFollows(w, evs[0]);
      RunFollows(Next(w, evs[0]), evs[1..]);
    }
  }

  lemma FollowedResolves(w: World, sh: Share)
    requires TreeOk(w.fs, w.next) && Follows(w.fs, w.made, sh)
    ensures Locate(w, sh.path) == Ok(Split(sh.path))
  {
    hide WellFormed, UniqueInos;
    CanonicalPath(sh.path);
    var p := Split(sh.path);
    RequestCanonical(p);
    RootIsPhysical(w.fs);
    InTree(w.fs, ITEMS);
    ResolveLexical(w.fs, [], sh.path);
    assert [] + p == p;
  }

  /** After any run of plain requests, each share in the table resolves to the very node it was created
      for, and carries its name and kind: no share dangles and none is redirected. */
  lemma SharesFollowTheirNodes(w: World, evs: seq<Event>, i: nat)
    requires Sound(w) && PossibleRun(w, evs) && PlainRun(w, evs) && Tracked(w)
    requires i < |Run(w, evs).shares.mem|
    ensures var r := Run(w, evs);
            var sh := r.shares.mem[i];
            && Locate(r, sh.path).Ok? && sh.token in r.made
            && var p := Locate(r, sh.path).value;
               p != [] && p in r.fs && r.fs[p].ino == r.made[sh.token] && sh.name == Last(p) && sh.isDir == r.fs[p].Dir?
  {
    hide Sound, TreeOk, Run, PlainRun, PossibleRun;
    RunFollows(w, evs);
    var r := Run(w, evs);
    SoundTree(r);
    FollowedResolves(r, r.shares.mem[i]);
  }

  // ---------------------------------------------------------------- restarts after pruning

  /** What shares.json holds beyond the table has expired by `now`: it was pruned in memory only. */
  ghost predicate Settled(st: Store, now: int) {
    forall sh :: sh in st.disk ==> sh in st.mem || ShareExpired(sh, now)
  }

  /** The share table is saved where it changes. */
  predicate SharesSaved(e: Event) {
    match e
    case Move(_, _, ok) => ok
    case Rename(_, _, ok) => ok
    case BulkMove(_, _, oks) => forall i :: 0 <= i < |oks| ==> oks[i]
    case Delete(_, _, _, _, _, ok2) => ok2
    case BulkDelete(_, _, _, saves) => forall i :: 0 <= i < |saves| ==> saves[i].shares
    case CreateShare(_, _, _, _, _, ok) => ok
    case ShareOp(op) => OpSaved(op)
    case _ => true
  }

  predicate OpSaved(op: Op) {
    match op
    case GetValid(_, _, _, ok) => ok
    case BeginDownload(_, _, _, ok, ok2) => ok && ok2
    case BeginUpload(_, _, _, ok) => ok
    case UndoUpload(_, ok) => ok
    case Revoke(_, ok) => ok
    case _ => true
  }

  /** Nothing in the event is later than `now`. */
  predicate Until(e: Event, now: int) {
    match e
    case CreateShare(_, _, _, _, at, _) => at <= now
    case ShareOp(op) => OpUntil(op, now)
    case _ => true
  }

  predicate OpUntil(op: Op, now: int) {
    match op
    case ListPublic(at) => at <= now
    case GetValid(_, at, later, _) => at <= now && later <= now
    case BeginDownload(_, at, later, _, _) => at <= now && later <= now
    case BeginUpload(_, at, later, _) => at <= now && later <= now
    case _ => true
  }

  lemma PrunedSettled(st: Store, at: int, now: int)
    requires Settled(st, now) && at <= now
    ensures Settled(st.(mem := Prune(st.mem, at)), now)
  {
    forall sh | sh in st.disk ensures sh in Prune(st.mem, at) || ShareExpired(sh, now) {
      FilterMembers(Live(at), st.mem, sh);
    }
  }

  lemma OpSettled(st: Store, op: Op, now: int)
    requires Settled(st, now) && KeepsPaths(op) && OpSaved(op) && OpUntil(op, now)
    ensures Settled(Shares.Step(st, op).0, now)
  {
    hide Prune, ValidShareToken, ShareExpired;
    match op
    case ListPublic(at) => PrunedSettled(st, at, now);
    case GetValid(_, at, _, _) => PrunedSettled(st, at, now);
    case BeginDownload(_, at, _, _, _) => PrunedSettled(st, at, now);
    case BeginUpload(_, at, _, _) => PrunedSettled(st, at, now);
    case UndoUpload(_, _) =>
    case Revoke(_, _) =>
  }

  lemma TableSettled(st: Store, from: string, to: string, now: int)
    requires Settled(st, now)
    ensures Settled(RewritePathPrefixSpec(st, from, to, true), now)
    ensures Settled(RemoveByPathPrefixSpec(st, from, true), now)
  {
    hide ShareExpired, UnderPrefix, FilterTo, Trim;
  }

  lemma {:induction false} BulkMoveSettled(w: World, paths: seq<string>, dest: Path, destDir: string, oks: seq<bool>,
                                           n: nat, now: int)
    requires Settled(w.shares, now) && n <= |paths| == |oks| && forall i :: 0 <= i < |oks| ==> oks[i]
    ensures Settled(BulkMoveTo(w, paths, dest, destDir, oks, n).w.shares, now)
  {
    hide Settled, Resolve, Trim, Tree.Rename, RewritePathPrefixSpec, PathJoinSpec, IsTrashPath;
    if n > 0 {
      BulkMoveSettled(w, paths, dest, destDir, oks, n - 1, now);
      var before := BulkMoveTo(w, paths, dest, destDir, oks, n - 1).w;
      var rel := Trim(paths[n - 1], "/");
      if MoveOne(before, paths[n - 1], dest, destDir, oks[n - 1]).1 {
        TableSettled(before.shares, rel, PathJoinSpec([Trim(destDir, "/"), Last(Locate(before, rel).value)]), now);
      } else {
        MoveOneRefused(before, paths[n - 1], dest, destDir, oks[n - 1]);
      }
    }
  }

  lemma TrashSettled(w: World, path: string, id: string, now: int, ok: bool, at: int)
    requires Settled(w.shares, now)
    ensures Settled(TrashAndUnshare(w, path, id, at, ok, true).0.shares, now)
  {
    hide Settled, Resolve, Trim, Tree.Rename, RemoveByPathPrefixSpec, IsTrashPath, MkdirAll, Base;
    TableSettled(w.shares, Trim(path, "/"), "", now);
  }

  lemma {:induction false} BulkTrashSettled(w: World, paths: seq<string>, ids: seq<string>, at: int, oks: seq<Saves>,
                                            n: nat, now: int)
    requires Settled(w.shares, now) && n <= |paths| == |ids| == |oks| && forall i :: 0 <= i < |oks| ==> oks[i].shares
    ensures Settled(BulkDeleteTo(w, paths, ids, at, oks, n).w.shares, now)
  {
    hide Settled, TrashAndUnshare;
    if n > 0 {
      BulkTrashSettled(w, paths, ids, at, oks, n - 1, now);
      TrashSettled(BulkDeleteTo(w, paths, ids, at, oks, n - 1).w, paths[n - 1], ids[n - 1], now,
                   oks[n - 1].trash, at);
    }
  }

  lemma CreateSettled(w: World, token: string, path: string, kind: string, mode: Mode, at: int, now: int)
    requires Settled(w.shares, now)
    ensures Settled(CreateShareSpec(w, token, path, kind, mode, at, true).0.shares, now)
  {
    hide Resolve, Trim, NewShare, Prune, ShareExpired;
  }

  lemma StepSettled(w: World, e: Event, now: int)
    requires TreeOk(w.fs, w.next) && Possible(w, e) && SharesSaved(e) && Until(e, now) && Settled(w.shares, now)
    ensures Settled(Next(w, e).shares, now)
  {
    hide TreeOk, Settled, Resolve, Trim, Tree.Rename, MkdirAll, RemoveByPathPrefixSpec, RewritePathPrefixSpec,
      PathJoinSpec, PathDir, SanitizeName, IsTrashPath, BulkMoveTo, BulkDeleteTo, TrashAndUnshare, UniqueTo,
      RemoveStored, StaleTo, KeptTo, RemoveAll, Shares.Step, MkdirSpec, UploadFoldersSpec, UploadSpec, DirectUploadSpec,
      DropUploadSpec, CopySpec, DuplicateSpec, CreateShareSpec, Grown, FreshId, FreshIds, Inside, ItemFrom, Dropped,
      ReadDir, ValidShareToken, OpSaved, OpUntil, KeepsPaths;
    match e
    case Move(path, destDir, _) =>
      var src := Locate(w, path);
      if src.Ok? && src.value != [] {
        TableSettled(w.shares, Trim(path, "/"), PathJoinSpec([Trim(destDir, "/"), Last(src.value)]), now);
      }
    case Rename(oldPath, newName, _) =>
      TableSettled(w.shares, Trim(oldPath, "/"), PathJoinSpec([PathDir(oldPath), SanitizeName(newName)]), now);
    case BulkMove(paths, destDir, oks) =>
      if BulkMoveSpec(w, paths, destDir, oks).Some? {
        BulkMoveSettled(w, Unique(paths), Locate(w, destDir).value, destDir, oks, |Unique(paths)|, now);
      }
    case Delete(path, _, id, at, ok, _) => TrashSettled(w, Trim(path, "/"), id, now, ok, at);
    case BulkDelete(paths, ids, at, oks) => BulkTrashSettled(w, Unique(paths), ids, at, oks, |Unique(paths)|, now);
    case CreateShare(token, path, kind, mode, at, _) => CreateSettled(w, token, path, kind, mode, at, now);
    case ShareOp(op) => OpSettled(w.shares, op, now);
    case Restart => RestartSettled(w, now);
    case _ =>
      if Adding(e) {
        AddingLive(w, e);
      }
  }

  lemma RestartSettled(w: World, now: int)
    ensures Settled(Restarted(w).shares, now)
  {
  }

  lemma {:induction false} RunSettled(w: World, evs: seq<Event>, now: int)
    requires Sound(w) && PossibleRun(w, evs) && Settled(w.shares, now)
    requires forall i :: 0 <= i < |evs| ==> SharesSaved(evs[i]) && Until(evs[i], now)
    ensures Settled(Run(w, evs).shares, now)
    decreases |evs|
  {
    hide Sound, TreeOk, Next, Possible, SharesSaved, Until, Settled;
    if evs != [] {
      StepSound(w, evs[0]);
      StepSettled(w, evs[0], now);
      RunSettled(Next(w, evs[0]), evs[1..], now);
    }
  }

  /** While the table's saves succeed, a restart may bring back pruned records, but every share that has not
      expired still is on its node, with its name and kind. */
  lemma RestartFollowsLive(w: World, evs: seq<Event>, now: int, i: nat)
    requires Sound(w) && PossibleRun(w, evs) && PlainRun(w, evs) && Tracked(w) && Settled(w.shares, now)
    requires forall k :: 0 <= k < |evs| ==> SharesSaved(evs[k]) && Until(evs[k], now)
    requires i < |Restarted(Run(w, evs)).shares.mem|
    ensures var r := Restarted(Run(w, evs));
            !ShareExpired(r.shares.mem[i], now) ==> Follows(r.fs, r.made, r.shares.mem[i])
  {
    hide Sound, Run, PlainRun, PossibleRun, SharesSaved, Until, ShareExpired, Follows;
    RunFollows(w, evs);
    RunSettled(w, evs, now);
    var r := Run(w, evs);
    var sh := Restarted(r).shares.mem[i];
    assert sh in r.shares.disk;
    if sh in r.shares.mem {
      FollowedOne(r.fs, r.made, r.shares.mem, sh);
    }
  }

  // ---------------------------------------------------------------- where runs start

  /** A new storage directory: the root and the trash directory, no records, no shares. */
  const NEW_TREE: Fs := map[[] := Dir(0), [".trash"] := Dir(1), ITEMS := Dir(2)]

  const NEW_ARCHIVE := World(NEW_TREE, 3, [], [], Store([], []), map[])

  /** A new archive meets every invariant, so the theorems about runs apply from there on. */
  lemma NewArchiveOk()
    ensures Sound(NEW_ARCHIVE) && AllStored(NEW_ARCHIVE.fs, NEW_ARCHIVE.items) && Tracked(NEW_ARCHIVE)
  {
    var root: Path, trash: Path := [], [".trash"];
    assert Parent(trash) == root && Parent(ITEMS) == trash;
    assert Last(trash) == ".trash" && Last(ITEMS) == "items";
    forall id: string ensures ItemPath(id) !in NEW_TREE {
      assert |ItemPath(id)| == 3;
    }
    ShapeSuffices(NEW_TREE);
  }
}
