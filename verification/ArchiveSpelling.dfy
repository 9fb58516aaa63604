/** What becomes of the shares when a request spells a path otherwise than the share table does: "./a"
    addresses the same entry as "a", but the table is rewritten by the strings. */
module ArchiveSpelling {
  import opened Archive
  import opened ArchiveEffects
  import opened ArchiveFollows
  import opened ArchiveOutcomes
  import opened ArchiveRuns
  import opened ArchiveShares
  import opened ArchiveSteps
  import opened ArchiveTheorems
  import opened ArchiveTrash
  import opened FileSystem
  import opened Paths
  import opened Resolver
  import opened Shares
  import opened Tree

  /** The share resolves to the node it was created for. */
  ghost predicate Reaches(w: World, sh: Share) {
    && sh.token in w.made && Locate(w, sh.path).Ok?
    && var p := Locate(w, sh.path).value; p in w.fs && w.fs[p].ino == w.made[sh.token]
  }

  /** That node is at `p`. */
  ghost predicate ReachesAt(w: World, sh: Share, p: Path) {
    '\0' !in sh.path && PlaceOf(sh.path) == p && sh.token in w.made && p in w.fs && w.fs[p].ino == w.made[sh.token]
  }

  lemma ReachesExactly(w: World, sh: Share)
    requires TreeOk(w.fs, w.next)
    ensures Reaches(w, sh) <==> ReachesAt(w, sh, PlaceOf(sh.path)) && UserPath(PlaceOf(sh.path))
  {
    hide TreeOk, CleanRooted, Slashed, Resolve, UserPath;
    LocateExactly(w, sh.path);
  }

  lemma FollowsReaches(w: World, sh: Share)
    requires TreeOk(w.fs, w.next) && Follows(w.fs, w.made, sh)
    ensures Reaches(w, sh) && ReachesAt(w, sh, Split(sh.path)) && UserSpot(Split(sh.path))
  {
    hide WellFormed, UniqueInos;
    CanonicalPath(sh.path);
    RequestCanonical(Split(sh.path));
    ReachesExactly(w, sh);
  }

  lemma TrackedAt(w: World, i: nat)
    requires Tracked(w) && i < |w.shares.mem|
    ensures Follows(w.fs, w.made, w.shares.mem[i]) && Canonical(w.shares.mem[i].path)
  {
  }

  /** A string that a canonical one lies under is canonical. */
  lemma PrefixCanonical(s: string, f: string)
    requires Canonical(s) && UnderPrefix(s, f)
    ensures Canonical(f)
  {
    if s != f {
      var rest := s[|f| + 1..];
      assert s == f + "/" + rest;
      SplitConcat(f, rest);
      forall i | 0 <= i < |Split(f)| ensures UserName(Split(f)[i]) {
        assert Split(s)[i] == Split(f)[i];
      }
      if f == "" {
        assert Split(f) == [""] && UserName(Split(f)[0]);
      }
    }
  }

  // ---------------------------------------------------------------- one record through one move

  lemma RewrittenTail(sh: Share, from: string, to: string, rest: string)
    requires sh.path == from + "/" + rest
    ensures var path := to + "/" + rest; Rewritten(sh, from, to) == sh.(path := path, name := Base(path))
  {
    hide Base;
    assert |sh.path| > |from| && (from + "/") <= sh.path;
    assert sh.path[|from|..] == "/" + rest;
    assert to + ("/" + rest) == to + "/" + rest;
  }

  /** How a path below the prefix is rewritten. */
  lemma RewrittenString(sh: Share, src: Path, to: string)
    requires Canonical(sh.path) && UserSpot(src) && src <= Split(sh.path)
    ensures var q, path := Split(sh.path), Rewritten(sh, Join(src), to).path;
            && Rewritten(sh, Join(src), to) == sh.(path := path, name := Base(path))
            && (src == q ==> path == to) && (src != q ==> path == to + "/" + Join(q[|src|..]))
  {
    hide Canonical, Base, Join, Split, UserPath;
    var q := Split(sh.path);
    CanonicalPath(sh.path);
    if src != q {
      JoinConcat(src, q[|src|..]);
      assert q == src + q[|src|..];
      RewrittenTail(sh, Join(src), to, Join(q[|src|..]));
    }
  }

  /** Where it leads, whatever the spelling of the new prefix. */
  lemma RewrittenLeads(sh: Share, src: Path, to: string)
    requires Canonical(sh.path) && UserSpot(src) && src <= Split(sh.path) && '\0' !in to
    ensures var r := Rewritten(sh, Join(src), to);
            && r == sh.(path := r.path, name := r.name) && '\0' !in r.path
            && PlaceOf(r.path) == PlaceOf(to) + Split(sh.path)[|src|..]
  {
    hide UserSpot, Canonical, CleanRooted, Rewritten, Join, Split, Base;
    var q := Split(sh.path);
    CanonicalPath(sh.path);
    RewrittenString(sh, src, to);
    if src == q {
      assert PlaceOf(to) + q[|src|..] == PlaceOf(to);
    } else {
      TailPlace(to, q, |src|);
    }
  }

  lemma TailPlace(to: string, q: Path, k: nat)
    requires UserSpot(q) && k < |q| && '\0' !in to
    ensures var s := to + "/" + Join(q[k..]); PlaceOf(s) == PlaceOf(to) + q[k..] && '\0' !in s
  {
    hide Slashed, CleanParts;
    var tail := q[k..];
    forall i | 0 <= i < |tail| ensures UserName(tail[i]) {
      assert tail[i] == q[k + i];
    }
    NotInJoin(tail, '\0');
    NotInJoin(tail, '\\');
    SlashedPlain(Join(tail));
    SlashedJoin(to, Join(tail));
    SplitConcat(Slashed(to), Slashed(Join(tail)));
    SplitJoin(tail);
    CleanAppend(Split(Slashed(to)), tail, []);
    CleanNames(tail, PlaceOf(to));
  }

  /** A record outside the rewritten prefix: it keeps reaching its node exactly when that did not move. */
  lemma MissedRecord(w: World, src: Path, dst: Path, from: string, to: string, ok: bool, i: nat)
    requires Tracked(w) && i < |w.shares.mem| && UserMove(w.fs, w.next, src, dst)
    requires !UnderPrefix(w.shares.mem[i].path, Trim(from, "/"))
    ensures var w' := AfterMove(w, src, dst, from, to, ok);
            var sh, p := w.shares.mem[i], Split(w.shares.mem[i].path);
            && i < |w'.shares.mem| && w'.shares.mem[i] == sh
            && (Follows(w'.fs, w'.made, sh) <==> !(src <= p)) && (Reaches(w', sh) <==> !(src <= p))
            && (p in w'.fs <==> !(src <= p))
  {
    hide TreeOk, FreeMove, Moved, Canonical, Trim, UserSpot, WellFormed;
    var w' := AfterMove(w, src, dst, from, to, ok);
    var sh, p := w.shares.mem[i], Split(w.shares.mem[i].path);
    RewrittenOrNot(sh, Trim(from, "/"), Trim(to, "/"));
    TrackedAt(w, i);
    FollowsReaches(w, sh);
    UserMoveEffect(w.fs, w.next, src, dst);
    FreeMoveFacts(w.fs, src, dst);
    NothingBelow(w.fs, dst, p);
    MovedAt(w.fs, src, dst, p);
    ReachesExactly(w', sh);
    SpotNames(p);
    UserOfSpot(p);
  }

  lemma UserOfSpot(p: Path)
    requires UserSpot(p)
    ensures UserPath(p)
  {
  }

  lemma FreeMoveFacts(fs: Fs, src: Path, dst: Path)
    requires FreeMove(fs, src, dst)
    ensures WellFormed(fs) && src in fs && dst !in fs && !(src <= dst)
  {
  }

  /** A record inside the prefix of a plainly spelled source still reaches its node, whatever the new
      prefix looks like, as long as it leads to the new place. */
  lemma RewrittenRecord(w: World, src: Path, dst: Path, from: string, to: string, ok: bool, i: nat)
    requires Tracked(w) && i < |w.shares.mem| && UserMove(w.fs, w.next, src, dst)
    requires Trim(from, "/") == Join(src) && '\0' !in to && PlaceOf(to) == dst
    requires src <= Split(w.shares.mem[i].path)
    ensures var w' := AfterMove(w, src, dst, from, to, ok);
            i < |w'.shares.mem| && Reaches(w', w'.shares.mem[i])
  {
    hide TreeOk, FreeMove, Moved, Canonical, Trim, UserSpot, WellFormed, CleanRooted, Rewritten, UnderPrefix;
    var w' := AfterMove(w, src, dst, from, to, ok);
    var sh := w.shares.mem[i];
    var p := Split(sh.path);
    TrackedAt(w, i);
    FollowsReaches(w, sh);
    UserMoveEffect(w.fs, w.next, src, dst);
    TrimmedPlace(to);
    UnderIsBelow(sh.path, src);
    RewrittenLeads(sh, src, Trim(to, "/"));
    var q := dst + p[|src|..];
    MovedAt(w.fs, src, dst, q);
    Swap(src, dst, p);
    SpotsJoined(dst, p, |src|);
    ReachesExactly(w', w'.shares.mem[i]);
  }

  lemma SpotsJoined(dst: Path, p: Path, k: nat)
    requires UserSpot(dst) && UserSpot(p) && k <= |p|
    ensures UserPath(dst + p[k..])
  {
  }

  /** A permitted move with a rewrite of the table: a share reaches its node afterwards exactly when that node
      did not move or the source was spelled plainly. */
  lemma MoveSpelled(w: World, src: Path, dst: Path, from: string, to: string, ok: bool, i: nat)
    requires Tracked(w) && i < |w.shares.mem| && UserMove(w.fs, w.next, src, dst)
    requires PlaceOf(from) == src && (Plain(from) ==> '\0' !in to && PlaceOf(to) == dst)
    ensures var w' := AfterMove(w, src, dst, from, to, ok);
            i < |w'.shares.mem| &&
            (Reaches(w', w'.shares.mem[i]) <==> !(src <= Split(w.shares.mem[i].path)) || Plain(from))
  {
    hide TreeOk, FreeMove, Moved, Canonical, Trim, UserSpot, WellFormed, CleanRooted, Rewritten, UnderPrefix, Reaches,
      Tracked;
    var sh := w.shares.mem[i];
    TrackedAt(w, i);
    if Plain(from) {
      PlainMeans(from);
      UnderIsBelow(sh.path, src);
      if src <= Split(sh.path) {
        RewrittenRecord(w, src, dst, from, to, ok, i);
      } else {
        MissedRecord(w, src, dst, from, to, ok, i);
      }
    } else {
      NotUnder(sh.path, from);
      MissedRecord(w, src, dst, from, to, ok, i);
    }
  }

  lemma NotUnder(s: string, from: string)
    requires Canonical(s) && !Plain(from)
    ensures !UnderPrefix(s, Trim(from, "/"))
  {
    if UnderPrefix(s, Trim(from, "/")) {
      PrefixCanonical(s, Trim(from, "/"));
    }
  }

  // ---------------------------------------------------------------- single moves and renames

  /** Where `pathJoin` of the destination and the name leads. */
  lemma JoinedPlace(dir: string, name: Name)
    requires UserName(name) && '\0' !in dir
    ensures var to := PathJoinSpec([Trim(dir, "/"), name]); '\0' !in to && PlaceOf(to) == PlaceOf(dir) + [name]
  {
    hide PathJoinSpec, Trim, CleanRooted, CleanParts, Slashed, Split;
    TrimmedPlace(dir);
    ChildPlace(Trim(dir, "/"), name);
    PlainPieces(name, PlaceOf(dir));
  }

  /** After a successful move a share reaches its node exactly when the node did not move or the request spelled
      the source plainly. So for "./a" the share of "a", and those below it, are left dangling, while the
      spelling of the destination does not matter here. */
  lemma MoveDanglesExactly(w: World, path: string, destDir: string, ok: bool, i: nat)
    requires TreeOk(w.fs, w.next) && Tracked(w) && MoveSpec(w, path, destDir, ok).1 && i < |w.shares.mem|
    ensures var w' := MoveSpec(w, path, destDir, ok).0;
            i < |w'.shares.mem| &&
            (Reaches(w', w'.shares.mem[i]) <==> !(PlaceOf(path) <= Split(w.shares.mem[i].path)) || Plain(path))
  {
    hide TreeOk, UserMove, AfterMove, CleanRooted, PathJoinSpec, Canonical, Trim, Reaches, Tracked, Resolve, UserName,
      UserPath;
    MoveOutcome(w, path, destDir, ok);
    var src, dest := PlaceOf(path), PlaceOf(destDir);
    var to := PathJoinSpec([Trim(destDir, "/"), Last(src)]);
    MoveSource(w, MoveSpec(w, path, destDir, ok), src, dest + [Last(src)], Trim(path, "/"), to, ok);
    MoveLocated(w, path, destDir, ok);
    JoinedPlace(destDir, Last(src));
    TrimmedPlace(path);
    TrimTwice(path);
    MoveSpelled(w, src, dest + [Last(src)], Trim(path, "/"), to, ok, i);
  }

  lemma MoveLocated(w: World, path: string, destDir: string, ok: bool)
    requires TreeOk(w.fs, w.next) && MoveSpec(w, path, destDir, ok).1
    ensures Locate(w, path).Ok? && Locate(w, destDir).Ok? && '\0' !in destDir
  {
  }

  /** The same for a rename. */
  lemma RenameDanglesExactly(w: World, oldPath: string, newName: string, ok: bool, i: nat)
    requires TreeOk(w.fs, w.next) && Tracked(w) && !NamesRoot(oldPath) && RenameSpec(w, oldPath, newName, ok).1
    requires i < |w.shares.mem|
    ensures var w' := RenameSpec(w, oldPath, newName, ok).0;
            i < |w'.shares.mem| &&
            (Reaches(w', w'.shares.mem[i]) <==> !(PlaceOf(oldPath) <= Split(w.shares.mem[i].path)) || Plain(oldPath))
  {
    hide TreeOk, UserMove, AfterMove, CleanRooted, PathJoinSpec, Canonical, Trim, Reaches, Tracked, Resolve, UserName,
      UserPath, PathDir, SanitizeName;
    RenameOutcome(w, oldPath, newName, ok);
    var src, name := PlaceOf(oldPath), SanitizeName(newName);
    var to := PathJoinSpec([PathDir(oldPath), name]);
    TrimmedPlace(oldPath);
    TrimTwice(oldPath);
    if Plain(oldPath) {
      PlainMeans(oldPath);
      UserOfSpot(src);
      PlainParent(oldPath, name);
      NewSpot(src, name);
      RequestCanonical(Parent(src) + [name]);
    }
    MoveSpelled(w, src, Parent(src) + [name], Trim(oldPath, "/"), to, ok, i);
  }

  lemma NewSpot(src: Path, name: Name)
    requires UserName(name) && src != [] && UserPath(src)
    ensures UserPath(Parent(src) + [name])
  {
  }

  // ---------------------------------------------------------------- keeping the table in step

  lemma DirCanonical(p: string, name: Name)
    requires UserName(name)
    ensures Canonical(p + "/" + name) <==> Canonical(p)
  {
    SplitConcat(p, name);
    SplitPiece(name, "");
    var all := Split(p) + [name];
    if Canonical(p + "/" + name) {
      forall i | 0 <= i < |Split(p)| ensures UserName(Split(p)[i]) {
        assert all[i] == Split(p)[i];
      }
      assert UserName(Split(p)[0]);
    }
    if Canonical(p) {
      forall i | 0 <= i < |all| ensures UserName(all[i]) {
      }
    }
  }

  lemma NameCanonical(name: Name)
    requires UserName(name)
    ensures Canonical(name) && Trim(name, "/") == name
  {
    SplitPiece(name, "");
    TrimNoop(name, "/");
  }

  /** The new prefix is plain exactly when the destination was. */
  lemma PlainTo(destDir: string, name: Name)
    requires UserName(name)
    ensures var to := PathJoinSpec([Trim(destDir, "/"), name]);
            Trim(to, "/") == to && (Canonical(to) <==> PlainDir(destDir))
  {
    hide PathJoinSpec, Canonical, UserName, ValidName;
    var p := Trim(destDir, "/");
    NameIsValid(name);
    JoinedWith(p, name);
    TrimTwice(destDir);
    NameCanonical(name);
    if p != "" && p != "." {
      DirCanonical(p, name);
      NoSlashEnds(p, name, destDir);
      TrimNoop(p + "/" + name, "/");
    }
  }

  lemma NameIsValid(name: Name)
    requires UserName(name)
    ensures ValidName(name)
  {
  }

  lemma NoSlashEnds(p: string, name: Name, dir: string)
    requires p == Trim(dir, "/") && p != "" && ValidName(name)
    ensures var s := p + "/" + name; s != "" && s[0] !in "/" && s[|s| - 1] !in "/"
  {
    TrimLeftStarts(dir, "/");
    TrimRightEnds(TrimLeft(dir, "/"), "/");
    assert name[|name| - 1] in name;
  }

  /** A rewrite to a prefix that is not plain leaves a path that is not plain. */
  lemma RewrittenAside(sh: Share, from: string, to: string)
    requires UnderPrefix(sh.path, from) && !Canonical(to)
    ensures !Canonical(Rewritten(sh, from, to).path)
  {
    hide Canonical, Base;
    var path := Rewritten(sh, from, to).path;
    if sh.path != from {
      var tail := sh.path[|from| + 1..];
      assert sh.path == from + "/" + tail;
      RewrittenTail(sh, from, to, tail);
    }
    assert UnderPrefix(path, to);
    if Canonical(path) {
      PrefixCanonical(path, to);
    }
  }

  lemma RecordAfter(w: World, src: Path, dst: Path, from: string, to: string, ok: bool, i: nat)
    requires i < |w.shares.mem|
    ensures var w' := AfterMove(w, src, dst, from, to, ok);
            i < |w'.shares.mem| && w'.shares.mem[i] == Rewritten(w.shares.mem[i], Trim(from, "/"), Trim(to, "/"))
  {
    hide Rewritten, UnderPrefix, Trim;
    RewrittenOrNot(w.shares.mem[i], Trim(from, "/"), Trim(to, "/"));
  }

  lemma NotTracked(w: World, i: nat)
    requires i < |w.shares.mem| && !Follows(w.fs, w.made, w.shares.mem[i])
    ensures !Tracked(w)
  {
  }

  /** Whether one move that reaches a shared node keeps the table in step. */
  lemma StepTracks(w: World, src: Path, dest: Path, from: string, destDir: string, ok: bool, i: nat)
    requires Tracked(w) && i < |w.shares.mem| && src != [] && UserMove(w.fs, w.next, src, dest + [Last(src)])
    requires src <= Split(w.shares.mem[i].path) && PlaceOf(from) == src && PlaceOf(destDir) == dest
    ensures var to := PathJoinSpec([Trim(destDir, "/"), Last(src)]);
            var w' := AfterMove(w, src, dest + [Last(src)], from, to, ok);
            && (Tracked(w') <==> Plain(from) && PlainDir(destDir))
            && i < |w'.shares.mem|
            && (!Plain(from) || !PlainDir(destDir) ==>
                  var s := w'.shares.mem[i].path;
                  if Plain(from) then !Canonical(s) else s == w.shares.mem[i].path && Split(s) !in w'.fs)
  {
    hide TreeOk, FreeMove, Moved, Canonical, Trim, WellFormed, CleanRooted, Rewritten, UnderPrefix, Tracked,
      PathJoinSpec, PlainDir, RewritePathPrefixSpec, AfterMove;
    var name, dst := Last(src), dest + [Last(src)];
    var to := PathJoinSpec([Trim(destDir, "/"), name]);
    var w' := AfterMove(w, src, dst, from, to, ok);
    TrackedAt(w, i);
    NameOfSpot(src);
    PlainTo(destDir, name);
    RecordAfter(w, src, dst, from, to, ok, i);
    if Plain(from) {
      PlainMeans(from);
      UnderIsBelow(w.shares.mem[i].path, src);
      if PlainDir(destDir) {
        PlainDirMeans(destDir, name);
        FollowMoved(w, src, dst, from, to, ok);
      } else {
        RewrittenAside(w.shares.mem[i], Trim(from, "/"), to);
        NotTracked(w', i);
      }
    } else {
      NotUnder(w.shares.mem[i].path, from);
      MissedRecord(w, src, dst, from, to, ok, i);
      NotTracked(w', i);
    }
  }

  lemma FollowMoved(w: World, src: Path, dst: Path, from: string, to: string, ok: bool)
    requires Tracked(w) && UserMove(w.fs, w.next, src, dst)
    requires Trim(from, "/") == Join(src) && Trim(to, "/") == Join(dst)
    ensures Tracked(AfterMove(w, src, dst, from, to, ok))
  {
    hide AllFollow, TreeOk, FreeMove, UserSpot, Moved, Trim;
    JoinCanonical(src);
    JoinCanonical(dst);
    TableMoves(w.fs, src, dst, w.made, w.shares, ok);
    TrimTwice(from);
    TrimTwice(to);
    SameRewrite(w.shares, from, to, Join(src), Join(dst), ok);
  }

  lemma SameRewrite(st: Store, from: string, to: string, from': string, to': string, ok: bool)
    requires Trim(from, "/") == Trim(from', "/") && Trim(to, "/") == Trim(to', "/")
    ensures RewritePathPrefixSpec(st, from, to, ok) == RewritePathPrefixSpec(st, from', to', ok)
  {
  }

  /** A move that reaches a shared node keeps the whole table in step exactly when source and destination are
      spelled plainly. With a plain source and another spelling of the destination the share still reaches its
      node, but under a path that later plain requests do not find. */
  lemma MoveTracksExactly(w: World, path: string, destDir: string, ok: bool, i: nat)
    requires TreeOk(w.fs, w.next) && Tracked(w) && MoveSpec(w, path, destDir, ok).1
    requires i < |w.shares.mem| && PlaceOf(path) <= Split(w.shares.mem[i].path)
    ensures Tracked(MoveSpec(w, path, destDir, ok).0) <==> Plain(path) && PlainDir(destDir)
  {
    hide TreeOk, UserMove, AfterMove, CleanRooted, PathJoinSpec, Canonical, Trim, Tracked, Resolve, PlainDir;
    MoveOutcome(w, path, destDir, ok);
    TrimmedPlace(path);
    TrimTwice(path);
    StepTracks(w, PlaceOf(path), PlaceOf(destDir), Trim(path, "/"), destDir, ok, i);
  }

  /** A rename that reaches a shared node keeps the share on it exactly when the request spells the path plainly. */
  lemma RenameTracksExactly(w: World, oldPath: string, newName: string, ok: bool, i: nat)
    requires TreeOk(w.fs, w.next) && Tracked(w) && !NamesRoot(oldPath) && RenameSpec(w, oldPath, newName, ok).1
    requires i < |w.shares.mem| && PlaceOf(oldPath) <= Split(w.shares.mem[i].path)
    ensures Tracked(RenameSpec(w, oldPath, newName, ok).0) <==> Plain(oldPath)
  {
    hide TreeOk, RenameSpec, CleanRooted, Plain, Tracked, Reaches, Split;
    if Plain(oldPath) {
      RenameFollows(w, oldPath, newName, ok);
    } else {
      RenameDanglesExactly(w, oldPath, newName, ok, i);
      StillTree(w, oldPath, newName, ok);
      var w' := RenameSpec(w, oldPath, newName, ok).0;
      if Tracked(w') {
        TrackedAt(w', i);
        FollowsReaches(w', w'.shares.mem[i]);
      }
    }
  }

  lemma StillTree(w: World, oldPath: string, newName: string, ok: bool)
    requires TreeOk(w.fs, w.next) && !NamesRoot(oldPath) && RenameSpec(w, oldPath, newName, ok).1
    ensures var w' := RenameSpec(w, oldPath, newName, ok).0; TreeOk(w'.fs, w'.next)
  {
    hide TreeOk, RenameSpec, CleanRooted, SanitizeName, PathDir, PathJoinSpec, UserMove, AfterMove;
    RenameOutcome(w, oldPath, newName, ok);
    var src, name := PlaceOf(oldPath), SanitizeName(newName);
    RelocateStep(w, src, Parent(src) + [name], Trim(oldPath, "/"), PathJoinSpec([PathDir(oldPath), name]), ok);
  }

  // ---------------------------------------------------------------- bulk moves

  /** The iteration moves a shared node and spells its path, or the destination, otherwise than plainly. */
  ghost predicate Misspelled(w: World, path: string, dest: Path, destDir: string, ok: bool) {
    && MoveOne(w, path, dest, destDir, ok).1 && !(Plain(path) && PlainDir(destDir))
    && exists i :: 0 <= i < |w.shares.mem| && PlaceOf(path) <= Split(w.shares.mem[i].path)
  }

  ghost predicate AllSpelled(w: World, paths: seq<string>, dest: Path, destDir: string, oks: seq<bool>, n: nat)
    requires n <= |paths| == |oks|
  {
    n == 0 ||
    (AllSpelled(w, paths, dest, destDir, oks, n - 1) &&
     !Misspelled(BulkMoveTo(w, paths, dest, destDir, oks, n - 1).w, paths[n - 1], dest, destDir, oks[n - 1]))
  }

  /** No entry is at `p`, and none can arrive there by a move into `dest`. */
  ghost predicate Lost(fs: Fs, dest: Path, p: Path) {
    p !in fs && (dest < p ==> p[..|dest| + 1] in fs)
  }

  /** The record is out of step for good, as long as everything moves to `dest`. */
  ghost predicate Broken(w: World, dest: Path, destDir: string, i: nat) {
    && i < |w.shares.mem|
    && var s := w.shares.mem[i].path;
       if Canonical(s) then Lost(w.fs, dest, Split(s)) else !PlainDir(destDir)
  }

  ghost predicate OutOfStep(w: World, dest: Path, destDir: string) {
    exists i: nat :: Broken(w, dest, destDir, i)
  }

  lemma BrokenNotTracked(w: World, dest: Path, destDir: string, i: nat)
    requires Broken(w, dest, destDir, i)
    ensures !Tracked(w)
  {
    if Tracked(w) {
      TrackedAt(w, i);
    }
  }

  lemma LostStays(fs: Fs, src: Path, dest: Path, p: Path)
    requires src != [] && FreeMove(fs, src, dest + [Last(src)]) && !(src <= dest) && Lost(fs, dest, p)
    ensures Lost(Moved(fs, src, dest + [Last(src)]), dest, p)
  {
    hide WellFormed, Moved;
    var dst := dest + [Last(src)];
    MovedAt(fs, src, dst, p);
    if dest < p {
      var c := p[..|dest| + 1];
      MovedAt(fs, src, dst, c);
      assert c[..|dest|] == dest;
      if dst <= c {
        SameLength(dst, c);
      }
      if src <= c {
        IntoOrSame(src, dest, c);
      }
    }
  }

  /** A source at or above an entry of `dest` is that entry, or contains `dest`. */
  lemma IntoOrSame(src: Path, dest: Path, c: Path)
    requires src != [] && src <= c && |c| == |dest| + 1 && dest <= c
    ensures src <= dest || dest + [Last(src)] == c
  {
    if |src| <= |dest| {
      assert src == c[..|src|] && dest == c[..|dest|];
    } else {
      assert src == c;
    }
  }

  lemma LostArrives(fs: Fs, src: Path, dest: Path, p: Path)
    requires src != [] && FreeMove(fs, src, dest + [Last(src)]) && src <= p && p !in fs
    ensures var dst := dest + [Last(src)]; Lost(Moved(fs, src, dst), dest, dst + p[|src|..])
  {
    hide WellFormed, Moved;
    var dst := dest + [Last(src)];
    var q := dst + p[|src|..];
    MovedAt(fs, src, dst, q);
    Swap(src, dst, p);
    MovedAt(fs, src, dst, dst);
    assert src + dst[|dst|..] == src;
    assert q[..|dest| + 1] == dst;
  }

  /** The node of a record that the rewrite misses. */
  lemma NewlyLost(fs: Fs, src: Path, dest: Path, p: Path)
    requires src != [] && FreeMove(fs, src, dest + [Last(src)]) && !(src <= dest) && src <= p && p in fs
    ensures Lost(Moved(fs, src, dest + [Last(src)]), dest, p)
  {
    hide WellFormed, Moved;
    var dst := dest + [Last(src)];
    MovedAt(fs, src, dst, p);
    NothingBelow(fs, dst, p);
    if dest < p {
      var c := p[..|dest| + 1];
      Ancestors(fs, p, |dest| + 1);
      MovedAt(fs, src, dst, c);
      assert c[..|dest|] == dest;
      if src <= c {
        IntoOrSame(src, dest, c);
      }
    }
  }

  lemma BrokenStays(w: World, src: Path, dest: Path, from: string, destDir: string, ok: bool, i: nat)
    requires Broken(w, dest, destDir, i)
    requires src != [] && UserMove(w.fs, w.next, src, dest + [Last(src)]) && !(src <= dest)
    requires PlaceOf(from) == src && PlaceOf(destDir) == dest
    ensures var to := PathJoinSpec([Trim(destDir, "/"), Last(src)]);
            Broken(AfterMove(w, src, dest + [Last(src)], from, to, ok), dest, destDir, i)
  {
    hide TreeOk, FreeMove, Moved, Canonical, Trim, WellFormed, CleanRooted, Rewritten, UnderPrefix, Lost, PathJoinSpec,
      PlainDir, RewritePathPrefixSpec;
    var name, dst := Last(src), dest + [Last(src)];
    var to := PathJoinSpec([Trim(destDir, "/"), name]);
    var sh := w.shares.mem[i];
    NameOfSpot(src);
    PlainTo(destDir, name);
    RecordAfter(w, src, dst, from, to, ok, i);
    if !UnderPrefix(sh.path, Trim(from, "/")) {
      RewrittenOrNot(sh, Trim(from, "/"), to);
      if Canonical(sh.path) {
        LostStays(w.fs, src, dest, Split(sh.path));
      }
    } else if !PlainDir(destDir) {
      RewrittenAside(sh, Trim(from, "/"), to);
    } else {
      PrefixCanonical(sh.path, Trim(from, "/"));
      PlainMeans(from);
      PlainDirMeans(destDir, name);
      UnderIsBelow(sh.path, src);
      RewrittenPath(sh, src, dst);
      JoinCanonical(dst + Split(sh.path)[|src|..]);
      LostGone(w.fs, dest, Split(sh.path));
      LostArrives(w.fs, src, dest, Split(sh.path));
    }
  }

  lemma LostGone(fs: Fs, dest: Path, p: Path)
    requires Lost(fs, dest, p)
    ensures p !in fs
  {
  }

  lemma MisspelledBreaks(w: World, src: Path, dest: Path, from: string, destDir: string, ok: bool, i: nat)
    requires Tracked(w) && i < |w.shares.mem| && src != [] && UserMove(w.fs, w.next, src, dest + [Last(src)])
    requires !(src <= dest) && src <= Split(w.shares.mem[i].path) && PlaceOf(from) == src && PlaceOf(destDir) == dest
    requires !(Plain(from) && PlainDir(destDir))
    ensures var to := PathJoinSpec([Trim(destDir, "/"), Last(src)]);
            Broken(AfterMove(w, src, dest + [Last(src)], from, to, ok), dest, destDir, i)
  {
    hide TreeOk, Moved, Canonical, Trim, WellFormed, CleanRooted, Lost, PathJoinSpec, PlainDir, RewritePathPrefixSpec,
      Tracked;
    StepTracks(w, src, dest, from, destDir, ok, i);
    if !Plain(from) {
      TrackedAt(w, i);
      NewlyLost(w.fs, src, dest, Split(w.shares.mem[i].path));
    }
  }

  lemma UnreachedStep(w: World, src: Path, dst: Path, from: string, to: string, ok: bool)
    requires Tracked(w) && UserMove(w.fs, w.next, src, dst) && PlaceOf(from) == src
    requires forall i :: 0 <= i < |w.shares.mem| ==> !(src <= Split(w.shares.mem[i].path))
    ensures Tracked(AfterMove(w, src, dst, from, to, ok))
  {
    hide TreeOk, Moved, Canonical, Trim, WellFormed, CleanRooted, Rewritten, UnderPrefix, RewritePathPrefixSpec,
      FreeMove, UserSpot, Follows, Split, Reaches;
    var w' := AfterMove(w, src, dst, from, to, ok);
    SameCount(w, src, dst, from, to, ok);
    forall i | 0 <= i < |w'.shares.mem| ensures Follows(w'.fs, w'.made, w'.shares.mem[i]) {
      TrackedAt(w, i);
      if Plain(from) {
        PlainMeans(from);
        UnderIsBelow(w.shares.mem[i].path, src);
      } else {
        NotUnder(w.shares.mem[i].path, from);
      }
      MissedRecord(w, src, dst, from, to, ok, i);
    }
  }

  lemma SameCount(w: World, src: Path, dst: Path, from: string, to: string, ok: bool)
    ensures |AfterMove(w, src, dst, from, to, ok).shares.mem| == |w.shares.mem|
  {
    hide Rewritten, UnderPrefix, Trim;
  }

  lemma MovedOne(w: World, path: string, dest: Path, destDir: string, ok: bool)
    requires TreeOk(w.fs, w.next) && UserPath(dest) && IsDir(w.fs, dest) && MoveOne(w, path, dest, destDir, ok).1
    ensures var src, rel := PlaceOf(path), Trim(path, "/");
            && src != [] && !(src <= dest) && UserMove(w.fs, w.next, src, dest + [Last(src)])
            && PlaceOf(rel) == src && Trim(rel, "/") == rel
            && MoveOne(w, path, dest, destDir, ok).0
            == AfterMove(w, src, dest + [Last(src)], rel, PathJoinSpec([Trim(destDir, "/"), Last(src)]), ok)
  {
    hide TreeOk, MoveOne, AfterMove, CleanRooted, PathJoinSpec, Trim, UserMove, UserPath;
    MoveOneOutcome(w, path, dest, destDir, ok);
    TrimmedPlace(path);
    TrimTwice(path);
  }

  /** One iteration. */
  lemma IterationTracks(w: World, path: string, dest: Path, destDir: string, ok: bool)
    requires TreeOk(w.fs, w.next) && Tracked(w) && UserPath(dest) && IsDir(w.fs, dest) && PlaceOf(destDir) == dest
    ensures !Misspelled(w, path, dest, destDir, ok) ==> Tracked(MoveOne(w, path, dest, destDir, ok).0)
    ensures Misspelled(w, path, dest, destDir, ok) ==>
              OutOfStep(MoveOne(w, path, dest, destDir, ok).0, dest, destDir)
  {
    hide TreeOk, MoveOne, AfterMove, CleanRooted, PathJoinSpec, Trim, UserMove, UserPath, Broken, Tracked, Plain,
      PlainDir, Split;
    var r := MoveOne(w, path, dest, destDir, ok);
    if r.1 {
      MovedOne(w, path, dest, destDir, ok);
      var src, rel := PlaceOf(path), Trim(path, "/");
      var to := PathJoinSpec([Trim(destDir, "/"), Last(src)]);
      SamePlain(path);
      if i :| 0 <= i < |w.shares.mem| && src <= Split(w.shares.mem[i].path) {
        StepTracks(w, src, dest, rel, destDir, ok, i);
        if !(Plain(path) && PlainDir(destDir)) {
          MisspelledBreaks(w, src, dest, rel, destDir, ok, i);
        }
      } else {
        UnreachedStep(w, src, dest + [Last(src)], rel, to, ok);
      }
    } else {
      MoveOneOutcome(w, path, dest, destDir, ok);
    }
  }

  lemma SamePlain(path: string)
    ensures Plain(Trim(path, "/")) <==> Plain(path)
  {
    TrimTwice(path);
  }

  lemma IterationStaysBroken(w: World, path: string, dest: Path, destDir: string, ok: bool, i: nat)
    requires TreeOk(w.fs, w.next) && UserPath(dest) && IsDir(w.fs, dest) && PlaceOf(destDir) == dest
    requires Broken(w, dest, destDir, i)
    ensures Broken(MoveOne(w, path, dest, destDir, ok).0, dest, destDir, i)
  {
    hide TreeOk, MoveOne, AfterMove, CleanRooted, PathJoinSpec, Trim, UserMove, UserPath, Broken;
    if MoveOne(w, path, dest, destDir, ok).1 {
      MovedOne(w, path, dest, destDir, ok);
      BrokenStays(w, PlaceOf(path), dest, Trim(path, "/"), destDir, ok, i);
    } else {
      MoveOneOutcome(w, path, dest, destDir, ok);
    }
  }

  lemma {:induction false} BulkBroken(w: World, paths: seq<string>, dest: Path, destDir: string, oks: seq<bool>, n: nat)
    requires TreeOk(w.fs, w.next) && Tracked(w) && n <= |paths| == |oks|
    requires IsDir(w.fs, dest) && dest == PlaceOf(destDir) && UserPath(dest)
    ensures var w' := BulkMoveTo(w, paths, dest, destDir, oks, n).w;
            && (AllSpelled(w, paths, dest, destDir, oks, n) ==> Tracked(w'))
            && (!AllSpelled(w, paths, dest, destDir, oks, n) ==> OutOfStep(w', dest, destDir))
  {
    hide TreeOk, Tracked, MoveOne, CleanRooted, UserPath, LiveStep, Files, Misspelled, Broken;
    if n > 0 {
      BulkMoveStep(w, paths, dest, destDir, oks, n - 1);
      BulkBroken(w, paths, dest, destDir, oks, n - 1);
      var before := BulkMoveTo(w, paths, dest, destDir, oks, n - 1).w;
      LiveTree(w, before);
      if AllSpelled(w, paths, dest, destDir, oks, n - 1) {
        IterationTracks(before, paths[n - 1], dest, destDir, oks[n - 1]);
      } else {
        var i: nat :| Broken(before, dest, destDir, i);
        IterationStaysBroken(before, paths[n - 1], dest, destDir, oks[n - 1], i);
      }
    }
  }

  /** A bulk move keeps the table in step exactly when every iteration that moves a shared node spells it, and
      the destination, plainly: what one iteration breaks no later one mends. */
  lemma BulkMoveTracksExactly(w: World, paths: seq<string>, destDir: string, oks: seq<bool>)
    requires TreeOk(w.fs, w.next) && Tracked(w)
    requires |oks| == |Unique(paths)| && BulkMoveSpec(w, paths, destDir, oks).Some?
    ensures Tracked(BulkMoveSpec(w, paths, destDir, oks).value.w) <==>
              AllSpelled(w, Unique(paths), PlaceOf(destDir), destDir, oks, |Unique(paths)|)
  {
    hide TreeOk, Tracked, Resolve, BulkMoveTo, UniqueTo, UserPath, CleanRooted, IsTrashPath, AllSpelled, Broken;
    LocateUser(w, destDir);
    var n := |Unique(paths)|;
    BulkBroken(w, Unique(paths), PlaceOf(destDir), destDir, oks, n);
    var w' := BulkMoveSpec(w, paths, destDir, oks).value.w;
    if i: nat :| Broken(w', PlaceOf(destDir), destDir, i) {
      BrokenNotTracked(w', PlaceOf(destDir), destDir, i);
    }
  }

  // ---------------------------------------------------------------- deletes

  lemma UnsharedMembers(st: Store, rel: string, ok: bool, sh: Share)
    ensures sh in RemoveByPathPrefixSpec(st, rel, ok).mem <==> sh in st.mem && !UnderPrefix(sh.path, Trim(rel, "/"))
  {
    hide FilterTo, UnderPrefix, Trim;
    var keep := Outside(Trim(rel, "/"));
    FilterMembers(keep, st.mem, sh);
    if |Filter(keep, st.mem)| == |st.mem| {
      AllKept(keep, st.mem, |st.mem|);
    }
  }

  /** What trashing an entry does to one record and its node. */
  lemma TrashedRecord(w: World, path: string, id: string, now: int, ok: bool, ok2: bool, sh: Share)
    requires TreeOk(w.fs, w.next) && FreshId(w, id) && TrashAndUnshare(w, path, id, now, ok, ok2).1
    ensures var w' := TrashAndUnshare(w, path, id, now, ok, ok2).0;
            && TreeOk(w'.fs, w'.next) && w'.made == w.made
            && (sh in w'.shares.mem <==> sh in w.shares.mem && !UnderPrefix(sh.path, Trim(path, "/")))
            && (forall p :: UserSpot(p) ==>
                  (p in w'.fs <==> p in w.fs && !(PlaceOf(path) <= p)) && (p in w'.fs ==> w'.fs[p] == w.fs[p]))
  {
    hide TreeOk, FreshId, CleanRooted, MoveToTrash, Moved, ItemPath, UserSpot, Trim, RemoveByPathPrefixSpec,
      UnderPrefix, FreeMove;
    MoveToTrashOutcome(w, path, id, now, ok);
    var src := PlaceOf(path);
    TrimmedPlace(path);
    FreshStored(w, id);
    TrashMoves(w.fs, w.next, src, id);
    UnsharedMembers(w.shares, Trim(path, "/"), ok2, sh);
    TrimTwice(path);
    forall p | UserSpot(p)
      ensures (p in Moved(w.fs, src, ItemPath(id)) <==> p in w.fs && !(src <= p))
      ensures p in Moved(w.fs, src, ItemPath(id)) ==> Moved(w.fs, src, ItemPath(id))[p] == w.fs[p]
    {
      UserApartFromTrash(p, id);
      MovedAt(w.fs, src, ItemPath(id), p);
    }
  }

  /** A successful delete leaves a dangling share exactly for the records of entries it took away, when it
      spelled their path otherwise; with a plain path their records go as well. */
  lemma DeleteDanglesExactly(w: World, path: string, id: string, now: int, ok: bool, ok2: bool, sh: Share)
    requires TreeOk(w.fs, w.next) && FreshId(w, id) && Tracked(w) && TrashAndUnshare(w, path, id, now, ok, ok2).1
    requires sh in w.shares.mem
    ensures var w' := TrashAndUnshare(w, path, id, now, ok, ok2).0;
            sh in w'.shares.mem && !Reaches(w', sh) <==> PlaceOf(path) <= Split(sh.path) && !Plain(path)
  {
    hide TreeOk, FreshId, CleanRooted, TrashAndUnshare, Trim, UnderPrefix, UserSpot;
    TrashedRecord(w, path, id, now, ok, ok2, sh);
    FollowedOne(w.fs, w.made, w.shares.mem, sh);
    FollowsReaches(w, sh);
    UserOfSpot(Split(sh.path));
    ReachesExactly(TrashAndUnshare(w, path, id, now, ok, ok2).0, sh);
    if Plain(path) {
      PlainMeans(path);
      UnderIsBelow(sh.path, PlaceOf(path));
    } else {
      NotUnder(sh.path, path);
    }
  }

  /** A successful iteration among the first `n` took away the node at `p`. */
  ghost predicate Taken(w: World, paths: seq<string>, ids: seq<string>, now: int, oks: seq<Saves>, n: nat, p: Path)
    requires n <= |paths| == |ids| == |oks|
  {
    n > 0 && (Taken(w, paths, ids, now, oks, n - 1, p)
              || (Deletes(w, paths, ids, now, oks, n - 1) && PlaceOf(paths[n - 1]) <= p))
  }

  /** A successful iteration among the first `n` named a prefix of the string `s`. */
  ghost predicate Covered(w: World, paths: seq<string>, ids: seq<string>, now: int, oks: seq<Saves>, n: nat, s: string)
    requires n <= |paths| == |ids| == |oks|
  {
    n > 0 && (Covered(w, paths, ids, now, oks, n - 1, s)
              || (Deletes(w, paths, ids, now, oks, n - 1) && UnderPrefix(s, Trim(paths[n - 1], "/"))))
  }

  predicate Deletes(w: World, paths: seq<string>, ids: seq<string>, now: int, oks: seq<Saves>, k: nat)
    requires k < |paths| == |ids| == |oks|
  {
    var before := BulkDeleteTo(w, paths, ids, now, oks, k).w;
    TrashAndUnshare(before, paths[k], ids[k], now, oks[k].trash, oks[k].shares).1
  }

  lemma {:induction false} BulkDeleted(w: World, paths: seq<string>, ids: seq<string>, now: int, oks: seq<Saves>,
                                       n: nat, sh: Share)
    requires Sound(w) && n <= |paths| == |ids| == |oks| && FreshIds(w, ids, 0)
    requires sh in w.shares.mem && UserSpot(Split(sh.path))
    ensures var w', p := BulkDeleteTo(w, paths, ids, now, oks, n).w, Split(sh.path);
            && w'.made == w.made
            && (sh in w'.shares.mem <==> !Covered(w, paths, ids, now, oks, n, sh.path))
            && (p in w'.fs <==> p in w.fs && !Taken(w, paths, ids, now, oks, n, p))
            && (p in w'.fs ==> w'.fs[p] == w.fs[p])
  {
    hide Sound, FreshId, TrashAndUnshare, SafeStep, Keeps, TreeOk, UnderPrefix, CleanRooted, Trim, UserSpot, Split;
    if n > 0 {
      BulkDeleteStep(w, paths, ids, now, oks, n - 1, NO_ITEM);
      BulkDeleted(w, paths, ids, now, oks, n - 1, sh);
      var before := BulkDeleteTo(w, paths, ids, now, oks, n - 1).w;
      SafeSound(w, before);
      if Deletes(w, paths, ids, now, oks, n - 1) {
        TrashedRecord(before, paths[n - 1], ids[n - 1], now, oks[n - 1].trash, oks[n - 1].shares, sh);
      } else {
        TrashRefused(before, paths[n - 1], ids[n - 1], now, oks[n - 1].trash, oks[n - 1].shares);
      }
    }
  }

  lemma TrashRefused(w: World, path: string, id: string, now: int, ok: bool, ok2: bool)
    requires TreeOk(w.fs, w.next) && FreshId(w, id) && !TrashAndUnshare(w, path, id, now, ok, ok2).1
    ensures TrashAndUnshare(w, path, id, now, ok, ok2).0 == w
  {
    hide TreeOk, FreshId, MoveToTrash;
    MoveToTrashOutcome(w, path, id, now, ok);
  }

  /** After a bulk delete a share dangles exactly when some iteration took its node away and none of the
      successful ones named a prefix of its path. */
  lemma BulkDeleteDanglesExactly(w: World, paths: seq<string>, ids: seq<string>, now: int, oks: seq<Saves>, n: nat,
                                 sh: Share)
    requires Sound(w) && Tracked(w) && n <= |paths| == |ids| == |oks| && FreshIds(w, ids, 0) && sh in w.shares.mem
    ensures var w' := BulkDeleteTo(w, paths, ids, now, oks, n).w;
            sh in w'.shares.mem && !Reaches(w', sh) <==>
              Taken(w, paths, ids, now, oks, n, Split(sh.path)) && !Covered(w, paths, ids, now, oks, n, sh.path)
  {
    hide Sound, FreshIds, SafeStep, Keeps, TreeOk, Covered, Taken, CleanRooted, UserSpot;
    SoundTree(w);
    FollowedOne(w.fs, w.made, w.shares.mem, sh);
    FollowsReaches(w, sh);
    UserOfSpot(Split(sh.path));
    BulkDeleted(w, paths, ids, now, oks, n, sh);
    BulkDeleteStep(w, paths, ids, now, oks, n, NO_ITEM);
    var w' := BulkDeleteTo(w, paths, ids, now, oks, n).w;
    SafeSound(w, w');
    ReachesExactly(w', sh);
  }

  // ---------------------------------------------------------------- shares created under another spelling

  /** A share created as "./a" reaches its node, under a path that is not plain. */
  lemma CreatedAside(w: World, token: string, path: string, kind: string, mode: Mode, now: int, ok: bool)
    requires TreeOk(w.fs, w.next) && CreateShareSpec(w, token, path, kind, mode, now, ok).1 && !Plain(path)
    ensures var w' := CreateShareSpec(w, token, path, kind, mode, now, ok).0;
            && |w'.shares.mem| > 0 && var sh := w'.shares.mem[|w'.shares.mem| - 1];
               sh.path == Trim(path, "/") && !Canonical(sh.path) && Reaches(w', sh) && !Tracked(w')
  {
    hide TreeOk, Canonical, CleanRooted, Slashed, Resolve, Prune, Trim;
    var w' := CreateShareSpec(w, token, path, kind, mode, now, ok).0;
    var n := |w'.shares.mem| - 1;
    LocateUser(w, Trim(path, "/"));
    SameResolve(w, w', Trim(path, "/"));
    NotTracked(w', n);
  }

  lemma SameResolve(w: World, w': World, request: string)
    requires w'.fs == w.fs
    ensures Locate(w', request) == Locate(w, request)
  {
  }

  /** Where the move takes what is at `p`. */
  function MovedPlace(src: Path, dst: Path, p: Path): Path {
    if src <= p then dst + p[|src|..] else p
  }

  lemma NodeMoved(fs: Fs, next: nat, src: Path, dst: Path, p: Path)
    requires UserMove(fs, next, src, dst) && p in fs && UserPath(p)
    ensures var q := MovedPlace(src, dst, p);
            && UserPath(q) && q in Moved(fs, src, dst) && Moved(fs, src, dst)[q] == fs[p]
            && (q == p <==> !(src <= p))
  {
    hide TreeOk, FreeMove, Moved, WellFormed;
    FreeMoveFacts(fs, src, dst);
    var q := MovedPlace(src, dst, p);
    MovedAt(fs, src, dst, q);
    if src <= p {
      Swap(src, dst, p);
      assert p == src + p[|src|..];
      UserTail(dst, p, |src|);
    } else {
      NothingBelow(fs, dst, p);
    }
  }

  lemma UserTail(dst: Path, p: Path, k: nat)
    requires UserPath(dst) && UserPath(p) && k <= |p|
    ensures UserPath(dst + p[k..])
  {
  }

  lemma OneIno(fs: Fs, p: Path, q: Path)
    requires UniqueInos(fs) && p in fs && q in fs && fs[p].ino == fs[q].ino
    ensures p == q
  {
  }

  /** A share that reached its node, under whatever spelling, reaches it after a move exactly when its record now
      leads to where the move took the node. */
  lemma RecordMoved(w: World, src: Path, dst: Path, from: string, to: string, ok: bool, i: nat)
    requires UserMove(w.fs, w.next, src, dst) && i < |w.shares.mem| && Reaches(w, w.shares.mem[i]) && '\0' !in to
    ensures var w' := AfterMove(w, src, dst, from, to, ok);
            && i < |w'.shares.mem| && w'.shares.mem[i] == Rewritten(w.shares.mem[i], Trim(from, "/"), Trim(to, "/"))
            && var sh := w'.shares.mem[i];
               Reaches(w', sh) <==> PlaceOf(sh.path) == MovedPlace(src, dst, PlaceOf(w.shares.mem[i].path))
  {
    hide FreeMove, Moved, Trim, UserSpot, UserPath, WellFormed, NoLinks, UniqueInos, CleanRooted, Slashed;
    var w' := AfterMove(w, src, dst, from, to, ok);
    var sh := w.shares.mem[i];
    var p, sh' := PlaceOf(sh.path), Rewritten(sh, Trim(from, "/"), Trim(to, "/"));
    ReachesExactly(w, sh);
    UserMoveEffect(w.fs, w.next, src, dst);
    NodeMoved(w.fs, w.next, src, dst, p);
    NoNulRewritten(sh, Trim(from, "/"), to);
    ReachesExactly(w', sh');
    if Reaches(w', sh') {
      OneIno(w'.fs, PlaceOf(sh'.path), MovedPlace(src, dst, p));
    }
  }

  lemma NoNulRewritten(sh: Share, from: string, to: string)
    requires '\0' !in sh.path && '\0' !in to
    ensures var r := Rewritten(sh, from, Trim(to, "/")); '\0' !in r.path && r.token == sh.token
  {
    hide Trim, Base;
    TrimKeeps(to, "/", '\0');
  }

  /** The pieces of the path behind the prefix. */
  function Behind(path: string, from: string): seq<string>
    requires UnderPrefix(path, from)
  {
    Split(Slashed(if path == from then "" else path[|from| + 1..]))
  }

  /** A record under the prefix, and the one it becomes, lead through these pieces from where the prefixes lead. */
  lemma LeadsBehind(sh: Share, from: string, to: string)
    requires UnderPrefix(sh.path, from)
    ensures PlaceOf(sh.path) == CleanParts(Behind(sh.path, from), PlaceOf(from))
    ensures PlaceOf(Rewritten(sh, from, to).path) == CleanParts(Behind(sh.path, from), PlaceOf(to))
  {
    hide Slashed, CleanParts, Base;
    if sh.path == from {
      NoPieces(PlaceOf(from));
      NoPieces(PlaceOf(to));
    } else {
      var rest := sh.path[|from| + 1..];
      assert sh.path == from + "/" + rest;
      RewrittenTail(sh, from, to, rest);
      LeadsThrough(from, rest);
      LeadsThrough(to, rest);
    }
  }

  lemma NoPieces(p: Path)
    ensures CleanParts(Split(Slashed("")), p) == p
  {
    OnePiece();
  }

  lemma OnePiece()
    ensures Split(Slashed("")) == [""]
  {
    assert Slashed("") == "";
  }

  lemma LeadsThrough(dir: string, rest: string)
    ensures PlaceOf(dir + "/" + rest) == CleanParts(Split(Slashed(rest)), PlaceOf(dir))
  {
    hide Slashed, CleanParts;
    SlashedJoin(dir, rest);
    SplitConcat(Slashed(dir), Slashed(rest));
    CleanAppend(Split(Slashed(dir)), Split(Slashed(rest)), []);
  }

  /** A share record in any spelling, "./a", "a//b" or "a/../b", through a successful move, in any spelling as well.
      One that the request's string is no prefix of stays as it is, and so dangles exactly when its node moved.
      The pieces behind a prefix are now cleaned from the new place, and the share reaches its node exactly
      when they lead to where that was taken. */
  lemma AsideDanglesExactly(w: World, path: string, destDir: string, ok: bool, i: nat)
    requires TreeOk(w.fs, w.next) && MoveSpec(w, path, destDir, ok).1
    requires i < |w.shares.mem| && Reaches(w, w.shares.mem[i])
    ensures var w', s, from := MoveSpec(w, path, destDir, ok).0, w.shares.mem[i].path, Trim(path, "/");
            var src, dst := PlaceOf(path), PlaceOf(destDir) + [Last(PlaceOf(path))];
            i < |w'.shares.mem| &&
            (Reaches(w', w'.shares.mem[i]) <==>
             if UnderPrefix(s, from) then CleanParts(Behind(s, from), dst) == MovedPlace(src, dst, PlaceOf(s))
             else !(src <= PlaceOf(s)))
  {
    hide TreeOk, AfterMove, CleanRooted, CleanParts, PathJoinSpec, Trim, Reaches, Resolve, UserPath, UnderPrefix,
      Behind, Rewritten, Slashed, FreeMove;
    MoveOutcome(w, path, destDir, ok);
    var src, dst := PlaceOf(path), PlaceOf(destDir) + [Last(PlaceOf(path))];
    var to := PathJoinSpec([Trim(destDir, "/"), Last(src)]);
    MoveSource(w, MoveSpec(w, path, destDir, ok), src, dst, Trim(path, "/"), to, ok);
    MoveLocated(w, path, destDir, ok);
    JoinedPlace(destDir, Last(src));
    RecordLeads(w, src, dst, path, to, ok, i);
  }

  lemma RecordLeads(w: World, src: Path, dst: Path, path: string, to: string, ok: bool, i: nat)
    requires UserMove(w.fs, w.next, src, dst) && i < |w.shares.mem| && Reaches(w, w.shares.mem[i])
    requires PlaceOf(path) == src && '\0' !in to && PlaceOf(to) == dst
    ensures var w' := AfterMove(w, src, dst, Trim(path, "/"), to, ok);
            var s, from := w.shares.mem[i].path, Trim(path, "/");
            i < |w'.shares.mem| &&
            (Reaches(w', w'.shares.mem[i]) <==>
             if UnderPrefix(s, from) then CleanParts(Behind(s, from), dst) == MovedPlace(src, dst, PlaceOf(s))
             else !(src <= PlaceOf(s)))
  {
    hide TreeOk, FreeMove, AfterMove, CleanRooted, CleanParts, Trim, Reaches, UserPath, UnderPrefix, Behind, Rewritten,
      Slashed, UserSpot;
    var sh, from := w.shares.mem[i], Trim(path, "/");
    RecordMoved(w, src, dst, from, to, ok, i);
    TrimTwice(path);
    TrimmedPlace(path);
    TrimmedPlace(to);
    if UnderPrefix(sh.path, from) {
      LeadsBehind(sh, from, Trim(to, "/"));
    } else {
      RewrittenOrNot(sh, from, Trim(to, "/"));
      ReachesExactly(w, sh);
      NodeMoved(w.fs, w.next, src, dst, PlaceOf(sh.path));
    }
  }

  lemma {:induction false} NoClimb(parts: seq<string>, stack: Path)
    requires ".." !in parts
    ensures CleanParts(parts, stack) == stack + CleanParts(parts, [])
    decreases |parts|
  {
    if parts != [] {
      NoClimb(parts[1..], stack);
      if parts[0] != "" && parts[0] != "." {
        NoClimb(parts[1..], stack + [parts[0]]);
        NoClimb(parts[1..], [parts[0]]);
        assert [] + [parts[0]] == [parts[0]];
      }
    }
  }

  lemma FollowsBehind(s: string, from: string, dst: Path)
    requires UnderPrefix(s, from) && ".." !in Split(Slashed(s))
    ensures CleanParts(Behind(s, from), dst) == MovedPlace(PlaceOf(from), dst, PlaceOf(s))
  {
    hide CleanParts, CleanRooted;
    LeadsBehind(Share("", s, "", true, false, None, 0, 0, 0, 0), from, from);
    NoneBehind(s, from);
    NoClimb(Behind(s, from), dst);
    NoClimb(Behind(s, from), PlaceOf(from));
  }

  lemma NoneBehind(s: string, from: string)
    requires UnderPrefix(s, from) && ".." !in Split(Slashed(s))
    ensures ".." !in Behind(s, from)
  {
    hide Slashed, Split;
    if s == from {
      OnePiece();
    } else {
      var rest := s[|from| + 1..];
      assert s == from + "/" + rest;
      SlashedJoin(from, rest);
      SplitConcat(Slashed(from), Slashed(rest));
    }
  }

  /** Without ".." in its path a share, such as "./a", "a//b" or "a/./b", reaches its node after a move exactly when
      that did not move or the request's string is a prefix of the path. */
  lemma AsideWithoutClimb(w: World, path: string, destDir: string, ok: bool, i: nat)
    requires TreeOk(w.fs, w.next) && MoveSpec(w, path, destDir, ok).1
    requires i < |w.shares.mem| && Reaches(w, w.shares.mem[i]) && ".." !in Split(Slashed(w.shares.mem[i].path))
    ensures var w', s := MoveSpec(w, path, destDir, ok).0, w.shares.mem[i].path;
            i < |w'.shares.mem| &&
            (Reaches(w', w'.shares.mem[i]) <==> !(PlaceOf(path) <= PlaceOf(s)) || UnderPrefix(s, Trim(path, "/")))
  {
    hide TreeOk, MoveSpec, UserMove, AfterMove, CleanRooted, CleanParts, Trim, Reaches, UnderPrefix, Behind, Slashed,
      Split;
    var s, from := w.shares.mem[i].path, Trim(path, "/");
    MoveOutcome(w, path, destDir, ok);
    AsideDanglesExactly(w, path, destDir, ok, i);
    if UnderPrefix(s, from) {
      TrimmedPlace(path);
      FollowsBehind(s, from, PlaceOf(destDir) + [Last(PlaceOf(path))]);
    }
  }

  // ---------------------------------------------------------------- every request, and whole runs

  /** Some share points at or below the place. */
  ghost predicate Shared(w: World, p: Path) {
    exists i :: 0 <= i < |w.shares.mem| && p <= Split(w.shares.mem[i].path)
  }

  /** What keeps the share table in step: a request that reaches shared nodes and succeeds spells plainly whatever
      the table will be compared with, and a restart finds a shares.json that is in step. */
  ghost predicate Spelled(w: World, e: Event)
    requires Possible(w, e)
  {
    match e
    case Move(path, destDir, ok) =>
      MoveSpec(w, path, destDir, ok).1 && Shared(w, PlaceOf(path)) ==> Plain(path) && PlainDir(destDir)
    case Rename(oldPath, newName, ok) =>
      RenameSpec(w, oldPath, newName, ok).1 && Shared(w, PlaceOf(oldPath)) ==> Plain(oldPath)
    case BulkMove(paths, destDir, oks) =>
      BulkMoveSpec(w, paths, destDir, oks).Some? ==>
        AllSpelled(w, Unique(paths), PlaceOf(destDir), destDir, oks, |Unique(paths)|)
    case Delete(path, confirmName, id, now, ok, ok2) =>
      DeleteSpec(w, path, confirmName, id, now, ok, ok2).1 && Shared(w, PlaceOf(path)) ==> Plain(path)
    case BulkDelete(paths, ids, now, oks) =>
      BulkDeleteSpec(w, paths, ids, now, oks).Some? ==> AllCovered(w, Unique(paths), ids, now, oks)
    case CreateShare(token, path, kind, mode, now, _) =>
      CreateShareSpec(w, token, path, kind, mode, now, true).1 ==> Plain(path)
    case Copy(_, _, _) => Displaces(w, e) ==> !Shared(w, DisplacedAt(w, e))
    case Duplicate(_, _) => Displaces(w, e) ==> !Shared(w, DisplacedAt(w, e))
    case Restart => AllFollow(w.fs, w.made, w.shares.disk)
    case _ => true
  }

  /** The record of every share whose node a bulk delete takes away is named by one of its paths. */
  ghost predicate AllCovered(w: World, paths: seq<string>, ids: seq<string>, now: int, oks: seq<Saves>)
    requires |paths| == |ids| == |oks|
  {
    forall sh :: sh in w.shares.mem && Taken(w, paths, ids, now, oks, |paths|, Split(sh.path)) ==>
      Covered(w, paths, ids, now, oks, |paths|, sh.path)
  }

  lemma MoveStep(w: World, path: string, destDir: string, ok: bool)
    requires TreeOk(w.fs, w.next) && Tracked(w)
    ensures Tracked(MoveSpec(w, path, destDir, ok).0) <==>
              (MoveSpec(w, path, destDir, ok).1 && Shared(w, PlaceOf(path)) ==> Plain(path) && PlainDir(destDir))
  {
    hide TreeOk, MoveSpec, CleanRooted, PathJoinSpec, Trim, UserMove, Tracked, Plain, PlainDir, Split, AfterMove;
    MoveOutcome(w, path, destDir, ok);
    if MoveSpec(w, path, destDir, ok).1 {
      var src, dest := PlaceOf(path), PlaceOf(destDir);
      if i :| 0 <= i < |w.shares.mem| && src <= Split(w.shares.mem[i].path) {
        MoveTracksExactly(w, path, destDir, ok, i);
      } else {
        TrimmedPlace(path);
        UnreachedStep(w, src, dest + [Last(src)], Trim(path, "/"), PathJoinSpec([Trim(destDir, "/"), Last(src)]), ok);
      }
    }
  }

  lemma RenameStep(w: World, oldPath: string, newName: string, ok: bool)
    requires TreeOk(w.fs, w.next) && Tracked(w) && !NamesRoot(oldPath)
    ensures Tracked(RenameSpec(w, oldPath, newName, ok).0) <==>
              (RenameSpec(w, oldPath, newName, ok).1 && Shared(w, PlaceOf(oldPath)) ==> Plain(oldPath))
  {
    hide TreeOk, RenameSpec, CleanRooted, PathJoinSpec, PathDir, SanitizeName, Trim, UserMove, Tracked, Plain, Split,
      AfterMove;
    RenameOutcome(w, oldPath, newName, ok);
    if RenameSpec(w, oldPath, newName, ok).1 {
      var src, name := PlaceOf(oldPath), SanitizeName(newName);
      if i :| 0 <= i < |w.shares.mem| && src <= Split(w.shares.mem[i].path) {
        RenameTracksExactly(w, oldPath, newName, ok, i);
      } else {
        TrimmedPlace(oldPath);
        UnreachedStep(w, src, Parent(src) + [name], Trim(oldPath, "/"), PathJoinSpec([PathDir(oldPath), name]), ok);
      }
    }
  }

  /** A record whose node is unchanged, if it is there. */
  lemma StillFollows(w: World, w': World, sh: Share)
    requires Follows(w.fs, w.made, sh) && w'.made == w.made
    requires var p := Split(sh.path); p in w'.fs ==> p in w.fs && w'.fs[p] == w.fs[p]
    ensures Follows(w'.fs, w'.made, sh) <==> Split(sh.path) in w'.fs
  {
  }

  lemma TrackedWhen(w: World, w': World)
    requires Tracked(w) && w'.made == w.made
    requires forall sh :: sh in w'.shares.mem ==> sh in w.shares.mem
    requires forall sh :: sh in w.shares.mem ==>
               var p := Split(sh.path); p in w'.fs ==> p in w.fs && w'.fs[p] == w.fs[p]
    ensures Tracked(w') <==> forall sh :: sh in w'.shares.mem ==> Split(sh.path) in w'.fs
  {
    hide Follows, Split;
    forall sh | sh in w'.shares.mem ensures Follows(w'.fs, w'.made, sh) <==> Split(sh.path) in w'.fs {
      FollowedOne(w.fs, w.made, w.shares.mem, sh);
      StillFollows(w, w', sh);
    }
    if Tracked(w') {
      forall sh | sh in w'.shares.mem ensures Split(sh.path) in w'.fs {
        FollowedOne(w'.fs, w'.made, w'.shares.mem, sh);
      }
    }
  }

  lemma InTable(w: World, sh: Share)
    requires Tracked(w) && sh in w.shares.mem
    ensures Canonical(sh.path) && UserSpot(Split(sh.path)) && Split(sh.path) in w.fs
  {
    FollowedOne(w.fs, w.made, w.shares.mem, sh);
    CanonicalPath(sh.path);
  }

  lemma TrashStep(w: World, path: string, id: string, now: int, ok: bool, ok2: bool)
    requires TreeOk(w.fs, w.next) && FreshId(w, id) && Tracked(w)
    ensures Tracked(TrashAndUnshare(w, path, id, now, ok, ok2).0) <==>
              (TrashAndUnshare(w, path, id, now, ok, ok2).1 && Shared(w, PlaceOf(path)) ==> Plain(path))
  {
    hide TreeOk, FreshId, TrashAndUnshare, CleanRooted, Trim, UnderPrefix, UserSpot, Tracked, Canonical, Split, Plain;
    var r := TrashAndUnshare(w, path, id, now, ok, ok2);
    if r.1 {
      var w' := r.0;
      forall sh ensures sh in w'.shares.mem <==> sh in w.shares.mem && !UnderPrefix(sh.path, Trim(path, "/")) {
        TrashedRecord(w, path, id, now, ok, ok2, sh);
      }
      forall sh | sh in w.shares.mem
        ensures var p := Split(sh.path);
                (p in w'.fs <==> !(PlaceOf(path) <= p)) && (p in w'.fs ==> p in w.fs && w'.fs[p] == w.fs[p])
                && (UnderPrefix(sh.path, Trim(path, "/")) <==> Plain(path) && PlaceOf(path) <= p)
      {
        TrashedRecord(w, path, id, now, ok, ok2, sh);
        InTable(w, sh);
        UnderSpelled(sh.path, path);
      }
      assert w'.made == w.made by {
        TrashedRecord(w, path, id, now, ok, ok2, SHARED);
      }
      TrackedWhen(w, w');
      if Shared(w, PlaceOf(path)) && !Plain(path) {
        var i :| 0 <= i < |w.shares.mem| && PlaceOf(path) <= Split(w.shares.mem[i].path);
        assert w.shares.mem[i] in w'.shares.mem;
      }
    } else {
      TrashRefused(w, path, id, now, ok, ok2);
    }
  }

  lemma UnderSpelled(s: string, path: string)
    requires Canonical(s)
    ensures UnderPrefix(s, Trim(path, "/")) <==> Plain(path) && PlaceOf(path) <= Split(s)
  {
    hide Canonical, CleanRooted;
    if Plain(path) {
      PlainMeans(path);
      UnderIsBelow(s, PlaceOf(path));
    } else {
      NotUnder(s, path);
    }
  }

  lemma DeleteStep(w: World, path: string, confirmName: string, id: string, now: int, ok: bool, ok2: bool)
    requires TreeOk(w.fs, w.next) && FreshId(w, id) && Tracked(w)
    ensures var r := DeleteSpec(w, path, confirmName, id, now, ok, ok2);
            Tracked(r.0) <==> (r.1 && Shared(w, PlaceOf(path)) ==> Plain(path))
  {
    hide TreeOk, FreshId, TrashAndUnshare, CleanRooted, Trim, Tracked, Split, Plain, Resolve, IsTrashPath;
    TrashStep(w, Trim(path, "/"), id, now, ok, ok2);
    TrimmedPlace(path);
    SamePlain(path);
  }

  lemma {:induction false} FromTable(w: World, paths: seq<string>, ids: seq<string>, now: int, oks: seq<Saves>, n: nat,
                                     sh: Share)
    requires Sound(w) && n <= |paths| == |ids| == |oks| && FreshIds(w, ids, 0)
    ensures sh in BulkDeleteTo(w, paths, ids, now, oks, n).w.shares.mem ==> sh in w.shares.mem
  {
    hide Sound, FreshId, TrashAndUnshare, SafeStep, Keeps, TreeOk, UnderPrefix, CleanRooted, Trim, UserSpot;
    if n > 0 {
      BulkDeleteStep(w, paths, ids, now, oks, n - 1, NO_ITEM);
      FromTable(w, paths, ids, now, oks, n - 1, sh);
      var before := BulkDeleteTo(w, paths, ids, now, oks, n - 1).w;
      SafeSound(w, before);
      if TrashAndUnshare(before, paths[n - 1], ids[n - 1], now, oks[n - 1].trash, oks[n - 1].shares).1 {
        TrashedRecord(before, paths[n - 1], ids[n - 1], now, oks[n - 1].trash, oks[n - 1].shares, sh);
      } else {
        TrashRefused(before, paths[n - 1], ids[n - 1], now, oks[n - 1].trash, oks[n - 1].shares);
      }
    }
  }

  lemma BulkDeleteTracks(w: World, paths: seq<string>, ids: seq<string>, now: int, oks: seq<Saves>)
    requires Sound(w) && Tracked(w) && |paths| == |ids| == |oks| && FreshIds(w, ids, 0)
    ensures Tracked(BulkDeleteTo(w, paths, ids, now, oks, |paths|).w) <==> AllCovered(w, paths, ids, now, oks)
  {
    hide Sound, FreshIds, BulkDeleteTo, Tracked, Taken, Covered, Split, UserSpot, Canonical, SafeStep, Keeps;
    var n := |paths|;
    var w' := BulkDeleteTo(w, paths, ids, now, oks, n).w;
    BulkDeleteStep(w, paths, ids, now, oks, n, NO_ITEM);
    forall sh | sh in w'.shares.mem ensures sh in w.shares.mem {
      FromTable(w, paths, ids, now, oks, n, sh);
    }
    forall sh | sh in w.shares.mem
      ensures var p := Split(sh.path);
              && (sh in w'.shares.mem <==> !Covered(w, paths, ids, now, oks, n, sh.path))
              && (p in w'.fs <==> !Taken(w, paths, ids, now, oks, n, p))
              && (p in w'.fs ==> p in w.fs && w'.fs[p] == w.fs[p])
    {
      InTable(w, sh);
      BulkDeleted(w, paths, ids, now, oks, n, sh);
    }
    TrackedWhen(w, w');
  }

  lemma CreateStep(w: World, token: string, path: string, kind: string, mode: Mode, now: int, ok: bool)
    requires TreeOk(w.fs, w.next) && Tracked(w) && token !in w.made
    ensures Tracked(CreateShareSpec(w, token, path, kind, mode, now, ok).0) <==>
              (CreateShareSpec(w, token, path, kind, mode, now, true).1 ==> Plain(path))
  {
    hide TreeOk, Tracked, Plain, Resolve, Trim, NewShare, Prune;
    if Plain(path) {
      CreateShareFollows(w, token, path, kind, mode, now, ok);
    } else if CreateShareSpec(w, token, path, kind, mode, now, true).1 {
      CreatedAside(w, token, path, kind, mode, now, true);
      SameTable(w, token, path, kind, mode, now, ok);
    }
  }

  /** Whether the new record can be saved makes no difference in memory. */
  lemma SameTable(w: World, token: string, path: string, kind: string, mode: Mode, now: int, ok: bool)
    ensures var a, b := CreateShareSpec(w, token, path, kind, mode, now, ok).0,
                        CreateShareSpec(w, token, path, kind, mode, now, true).0;
            Tracked(a) <==> Tracked(b)
  {
    hide Resolve, Trim, NewShare, Prune, Follows;
  }

  /** For every request that can happen: the table stays in step with the tree exactly when the shared nodes it
      touches are spelled plainly. */
  lemma StepTracksExactly(w: World, e: Event)
    requires Sound(w) && Possible(w, e) && Tracked(w)
    ensures TreeOk(w.fs, w.next) && (Tracked(Next(w, e)) <==> Spelled(w, e))
  {
    hide Sound, TreeOk, Tracked, Plain, PlainDir, FreshIds, FreshId, MoveSpec, RenameSpec, BulkMoveSpec, DeleteSpec,
      RestoreSpec, PurgeSpec, EmptySpec, PurgeExpiredSpec, CreateShareSpec, Shares.Step, UniqueTo, BulkDeleteTo,
      KeepsPaths, MkdirSpec, UploadFoldersSpec, UploadSpec, DirectUploadSpec, DropUploadSpec, CopySpec, DuplicateSpec,
      NamesRoot, Shared, AllSpelled, AllCovered, Displaces, CleanRooted, AllPlain;
    SoundTree(w);
    match e
    case Move(path, destDir, ok) => MoveStep(w, path, destDir, ok);
    case Rename(oldPath, newName, ok) => RenameStep(w, oldPath, newName, ok);
    case BulkMove(paths, destDir, oks) =>
      if BulkMoveSpec(w, paths, destDir, oks).Some? {
        BulkMoveTracksExactly(w, paths, destDir, oks);
      }
    case Delete(path, confirmName, id, now, ok, ok2) => DeleteStep(w, path, confirmName, id, now, ok, ok2);
    case BulkDelete(paths, ids, now, oks) => BulkDeleteTracks(w, Unique(paths), ids, now, oks);
    case CreateShare(token, path, kind, mode, now, ok) => CreateStep(w, token, path, kind, mode, now, ok);
    case Restart => RestartTracks(w);
    case Copy(_, _, _) => CopyTracks(w, e);
    case Duplicate(_, _) => CopyTracks(w, e);
    case _ => StepFollows(w, e);
  }

  lemma CopyTracks(w: World, e: Event)
    requires Sound(w) && Possible(w, e) && Tracked(w) && (e.Copy? || e.Duplicate?)
    requires TreeOk(w.fs, w.next)
    ensures Tracked(Next(w, e)) <==> (Displaces(w, e) ==> !Shared(w, DisplacedAt(w, e)))
  {
    hide Sound, TreeOk, Tracked, Displaces, Split, CopySpec, DuplicateSpec, Canonical;
    if Displaces(w, e) {
      DisplacingStep(w, e);
      var w', p := Next(w, e), DisplacedAt(w, e);
      DisplaceLive(w, w', p);
      forall sh | sh in w.shares.mem ensures Split(sh.path) in w.fs {
        InTable(w, sh);
      }
      TrackedWhen(w, w');
      if i :| 0 <= i < |w.shares.mem| && p <= Split(w.shares.mem[i].path) {
        assert w.shares.mem[i] in w'.shares.mem;
      }
    } else {
      StepFollows(w, e);
    }
  }

  lemma RestartTracks(w: World)
    ensures Tracked(Restarted(w)) <==> AllFollow(w.fs, w.made, w.shares.disk)
  {
  }

  ghost predicate SpelledRun(w: World, evs: seq<Event>)
    requires Sound(w) && PossibleRun(w, evs)
    decreases |evs|
  {
    evs == [] || (Spelled(w, evs[0]) && (StepSound(w, evs[0]); SpelledRun(Next(w, evs[0]), evs[1..])))
  }

  lemma {:induction false} SpelledRunTracks(w: World, evs: seq<Event>)
    requires Sound(w) && PossibleRun(w, evs) && SpelledRun(w, evs) && Tracked(w)
    ensures Tracked(Run(w, evs))
    decreases |evs|
  {
    hide Sound, Tracked, Next, Possible, Spelled;
    if evs != [] {
      StepSound(w, evs[0]);
      StepTracksExactly(w, evs[0]);
      SpelledRunTracks(Next(w, evs[0]), evs[1..]);
    }
  }

  /** Over every run in which no request misspells a share that it reaches, each share resolves to the very node
      it was created for, with its name and kind. */
  lemma SharesFollowSpelled(w: World, evs: seq<Event>, i: nat)
    requires Sound(w) && PossibleRun(w, evs) && SpelledRun(w, evs) && Tracked(w)
    requires i < |Run(w, evs).shares.mem|
    ensures var r := Run(w, evs);
            var sh := r.shares.mem[i];
            && Reaches(r, sh) && Locate(r, sh.path) == Ok(PlaceOf(sh.path))
            && var p := PlaceOf(sh.path); p != [] && p in r.fs && sh.name == Last(p) && sh.isDir == r.fs[p].Dir?
  {
    hide Sound, TreeOk, Run, SpelledRun, PossibleRun, Resolve, CleanRooted, Split, Tracked;
    SpelledRunTracks(w, evs);
    var r := Run(w, evs);
    SoundTree(r);
    TrackedAt(r, i);
    FollowsReaches(r, r.shares.mem[i]);
    FollowedResolves(r, r.shares.mem[i]);
    SpotNames(Split(r.shares.mem[i].path));
  }

  // ---------------------------------------------------------------- an archive on which this happens

  const SHARED := Share("t", "a", "a", true, false, None, 0, 0, 0, 0)

  const WITH_A: Fs := NEW_TREE[["a"] := Dir(3)]

  const WITH_BOTH: Fs := WITH_A[["d"] := Dir(4)]

  /** A new archive with folders "a" and "d", and a share of "a". */
  const TWO_FOLDERS := World(WITH_BOTH, 5, [], [], Store([SHARED], [SHARED]), map["t" := 3])

  lemma TwoFoldersTree()
    ensures TreeOk(WITH_BOTH, 5) && forall id: string :: ItemPath(id) !in WITH_BOTH
  {
    hide WellFormed, NoLinks, UniqueInos;
    NewArchiveOk();
    var a: Path, d: Path := ["a"], ["d"];
    assert Parent(a) == [] && Last(a) == "a" && Parent(d) == [] && Last(d) == "d";
    AddNode(NEW_TREE, 3, a, Dir(3));
    AddNode(WITH_A, 4, d, Dir(4));
    forall id: string ensures ItemPath(id) !in WITH_BOTH {
      assert |ItemPath(id)| == 3;
    }
  }

  lemma PlainA()
    ensures Split("a") == ["a"] && Canonical("a") && PlaceOf("a") == ["a"]
    ensures UserPath(["a"]) && UserPath(["d"]) && UserName("b")
  {
    SplitPiece("a", "");
    assert UserName("a");
    RequestCanonical(["a"]);
    assert Join(["a"]) == "a";
  }

  lemma TwoFoldersOk()
    ensures Sound(TWO_FOLDERS) && Tracked(TWO_FOLDERS) && Reaches(TWO_FOLDERS, SHARED)
    ensures AllStored(TWO_FOLDERS.fs, TWO_FOLDERS.items)
  {
    hide TreeOk, ItemPath, Canonical, Split, CleanRooted, Slashed, Resolve;
    var w := TWO_FOLDERS;
    TwoFoldersTree();
    PlainA();
    assert Follows(w.fs, w.made, SHARED);
    assert w.shares.mem == [SHARED];
    FollowsReaches(w, SHARED);
  }

  lemma DotSlashParts()
    ensures Split("./a") == [".", "a"] && Slashed("./a") == "./a"
  {
    var s := "./a";
    assert s == "." + "/" + "a";
    SplitConcat(".", "a");
    SplitPiece("a", "");
    SplitPiece(".", "");
    hide Split;
    assert ["."] + ["a"] == [".", "a"];
  }

  lemma DotSlashA()
    ensures PlaceOf("./a") == ["a"] && !Plain("./a") && Trim("./a", "/") == "./a" && PathDir("./a") == "."
  {
    hide Split, Slashed, Trim;
    DotSlashParts();
    TrimNoop("./a", "/");
    var parts := [".", "a"];
    assert parts[..1] == ["."] && parts[1..] == ["a"] && ["a"][1..] == [];
    assert CleanParts(["a"], []) == [] + ["a"] && !UserName(parts[0]);
  }

  lemma PlainD()
    ensures PlaceOf("d") == ["d"] && Trim("d", "/") == "d" && SanitizeName("b") == "b"
  {
    assert UserName("d") && Join(["d"]) == "d";
    RequestCanonical(["d"]);
    TrimNoop("d", "/");
    TrimNoop("b", "/");
    SplitPiece("b", "");
    assert Base("b") == "b";
    assert Paths.Without("b", '\\') == ['b'] + Paths.Without("", '\\');
    assert Paths.Without("b", '/') == ['b'] + Paths.Without("", '/');
  }

  lemma FreeB()
    ensures Nameable(WITH_BOTH, [] + ["b"]) && Parent(["a"]) + ["b"] == ["b"] && ["b"] !in WITH_BOTH
  {
    hide UserName, Lstat, Canonical, CleanRooted, Split;
    var top: Path, b: Path := [], ["b"];
    PlainB();
    assert top + b == b && Parent(b) == top && Parent(["a"]) + b == b;
    FreeAtTop(WITH_BOTH, b);
  }

  lemma PlainB()
    ensures UserPath(["b"]) && ["b"] !in WITH_BOTH && [] in WITH_BOTH && WITH_BOTH[[]].Dir?
  {
    assert UserName("b");
    assert ["b"][0] != ["a"][0] && ["b"][0] != ["d"][0] && ["b"][0] != ".trash";
  }

  lemma FreeAtTop(fs: Fs, p: Path)
    requires IsDir(fs, []) && |p| == 1 && p !in fs
    ensures Lstat(fs, p) == Err(NotExist)
  {
    assert Parent(p) == [];
    assert Lstat(fs, []) == Ok(fs[[]]);
  }

  /** Renaming "./a" to "b" succeeds, and the share of "a" reaches nothing any more. */
  lemma RenamedAside(ok: bool)
    ensures var r := RenameSpec(TWO_FOLDERS, "./a", "b", ok);
            PlaceOf("./a") == ["a"] && r.1 && r.0.shares.mem != [] && !Reaches(r.0, r.0.shares.mem[0])
  {
    hide TreeOk, Sound, RenameSpec, Reaches, Tracked, CleanRooted, Slashed, SanitizeName, PathDir, Split, ItemPath,
      Lstat;
    TwoFoldersOk();
    TwoFoldersTree();
    DotSlashA();
    PlainA();
    PlainD();
    NoPlace();
    FreeB();
    assert Addresses(TWO_FOLDERS.fs, "./a", ["a"]);
    RenameExactly(TWO_FOLDERS, "./a", "b", ok);
    RenameDanglesExactly(TWO_FOLDERS, "./a", "b", ok, 0);
  }

  /** So does moving it into "d". */
  lemma MovedAside(ok: bool)
    ensures var r := MoveSpec(TWO_FOLDERS, "./a", "d", ok);
            r.1 && r.0.shares.mem != [] && !Reaches(r.0, r.0.shares.mem[0])
  {
    hide TreeOk, Sound, MoveSpec, Reaches, Tracked, CleanRooted, Slashed, Split, ItemPath;
    TwoFoldersOk();
    TwoFoldersTree();
    DotSlashA();
    PlainA();
    PlainD();
    var w := TWO_FOLDERS;
    assert ["d"] + ["a"] == ["d", "a"];
    assert ["d", "a"] !in w.fs;
    assert !IsTrashPath("./a") && !IsTrashPath("d");
    assert Addresses(w.fs, "./a", ["a"]);
    assert Addresses(w.fs, "d", ["d"]) && IsDir(w.fs, ["d"]);
    assert ["a"][0] != ["d"][0];
    MoveExactly(TWO_FOLDERS, "./a", "d", ok);
    MoveDanglesExactly(TWO_FOLDERS, "./a", "d", ok, 0);
  }

  /** The archive with the folder "d" shared as "a/../d". */
  const CLIMBING := TWO_FOLDERS.(shares := Store([SHARED.(path := "a/../d", name := "d")], []), made := map["t" := 4])

  lemma ClimbingParts()
    ensures Split(Slashed("../d")) == ["..", "d"]
  {
    var rest := "../d";
    assert Slashed(rest) == rest == ".." + "/" + "d";
    SplitConcat("..", "d");
    SplitPiece("..", "");
    SplitPiece("d", "");
    hide Split, Slashed;
    assert [".."] + ["d"] == ["..", "d"];
  }

  lemma UpAndDown(p: Path)
    requires p != []
    ensures CleanParts(["..", "d"], p) == Parent(p) + ["d"]
  {
    var parts := ["..", "d"];
    assert parts[1..] == ["d"] && ["d"][1..] == [];
    assert CleanParts(["d"], Parent(p)) == Parent(p) + ["d"];
  }

  lemma ClimbingPath()
    ensures PlaceOf("a/../d") == ["d"] && UnderPrefix("a/../d", "a") && Behind("a/../d", "a") == ["..", "d"]
    ensures CleanParts(["..", "d"], ["d", "a"]) == ["d", "d"]
  {
    hide Slashed, Split, CleanParts, CleanRooted;
    var s, rest := "a/../d", "../d";
    assert s == "a" + "/" + rest && s[2..] == rest;
    ClimbingParts();
    LeadsThrough("a", rest);
    PlainA();
    UpAndDown(["a"]);
    UpAndDown(["d", "a"]);
    assert Parent(["a"]) + ["d"] == ["d"] && Parent(["d", "a"]) + ["d"] == ["d", "d"];
  }

  lemma MovesIntoD(w: World, ok: bool)
    requires TreeOk(w.fs, w.next) && w.fs == WITH_BOTH
    ensures MoveSpec(w, "a", "d", ok).1
  {
    hide TreeOk, MoveSpec, CleanRooted, Slashed;
    PlainA();
    PlainD();
    TrimNoop("a", "/");
    assert ["d"] + ["a"] == ["d", "a"] && ["d", "a"] !in w.fs;
    assert !IsTrashPath("a") && !IsTrashPath("d");
    assert Addresses(w.fs, "a", ["a"]);
    assert Addresses(w.fs, "d", ["d"]) && IsDir(w.fs, ["d"]);
    assert ["a"][0] != ["d"][0];
    MoveExactly(w, "a", "d", ok);
  }

  /** Moving "a" into "d" leaves that share dangling, although "d" stays where it is. */
  lemma ClimbingAside(ok: bool)
    ensures var r := MoveSpec(CLIMBING, "a", "d", ok);
            && Reaches(CLIMBING, CLIMBING.shares.mem[0]) && r.1
            && r.0.shares.mem != [] && !Reaches(r.0, r.0.shares.mem[0]) && !(PlaceOf("a") <= ["d"])
  {
    hide TreeOk, MoveSpec, Reaches, CleanRooted, Slashed, Split, Behind, UnderPrefix, CleanParts, ItemPath;
    TwoFoldersTree();
    ClimbingPath();
    PlainA();
    PlainD();
    TrimNoop("a", "/");
    ReachesExactly(CLIMBING, CLIMBING.shares.mem[0]);
    MovesIntoD(CLIMBING, ok);
    assert ["a"][0] != ["d"][0];
    AsideDanglesExactly(CLIMBING, "a", "d", ok, 0);
    assert ["d"] + ["a"] == ["d", "a"];
  }
}
