/** What every request keeps: the tree stays a tree, stored entries and trash records match, and no
    file is lost or overwritten outside an explicit purge. */
module ArchiveSteps {
  import opened Archive
  import opened ArchiveEffects
  import opened FileSystem
  import opened Paths
  import opened Resolver
  import opened Shares
  import opened Tree

  /** Trash records have distinct, well-formed ids. */
  ghost predicate Records(items: seq<Item>) {
    && (forall i, j :: 0 <= i < j < |items| ==> items[i].id != items[j].id)
    && (forall i :: 0 <= i < |items| ==> ValidShareToken(items[i].id))
  }

  /** Whatever is stored in the trash has a record. */
  ghost predicate Recorded(fs: Fs, items: seq<Item>) {
    forall id: string :: ItemPath(id) in fs ==> id in Ids(items)
  }

  /** Every record has its entry in the trash. */
  ghost predicate AllStored(fs: Fs, items: seq<Item>) {
    forall i :: 0 <= i < |items| ==> ItemPath(items[i].id) in fs
  }

  ghost predicate Sound(w: World) {
    && TreeOk(w.fs, w.next)
    && Records(w.items) && Recorded(w.fs, w.items)
    && Records(w.saved) && Recorded(w.fs, w.saved)
  }

  /** A request that touches neither the trash nor any file's contents or identity. */
  ghost predicate LiveStep(w: World, w': World) {
    && TreeOk(w'.fs, w'.next) && w.next <= w'.next && SameTrash(w.fs, w'.fs)
    && w'.items == w.items && w'.saved == w.saved && w'.made == w.made
  }

  lemma StoredAlike(fs: Fs, fs': Fs, id: string)
    requires SameTrash(fs, fs')
    ensures ItemPath(id) in fs <==> ItemPath(id) in fs'
  {
    assert SameSubtree(fs, ItemPath(id), fs', ItemPath(id));
    assert ItemPath(id) + [] == ItemPath(id);
  }

  lemma LiveStepSound(w: World, w': World)
    requires Sound(w) && LiveStep(w, w')
    ensures Sound(w') && (AllStored(w.fs, w.items) ==> AllStored(w'.fs, w'.items))
  {
    hide TreeOk, SameTrash, Records, ItemPath;
    forall id: string ensures ItemPath(id) in w.fs <==> ItemPath(id) in w'.fs {
      StoredAlike(w.fs, w'.fs, id);
    }
  }

  lemma Idle(w: World)
    requires TreeOk(w.fs, w.next)
    ensures LiveStep(w, w)
  {
    SameTrashReflexive(w.fs);
  }

  lemma LiveTree(w: World, w': World)
    requires LiveStep(w, w')
    ensures TreeOk(w'.fs, w'.next)
  {
  }

  lemma LiveTransitive(a: World, b: World, c: World)
    requires LiveStep(a, b) && LiveStep(b, c)
    ensures LiveStep(a, c)
  {
    SameTrashTransitive(a.fs, b.fs, c.fs);
  }

  // ---------------------------------------------------------------- moving and renaming

  /** The world after a permitted move. */
  function AfterMove(w: World, src: Path, dst: Path, from: string, to: string, ok: bool): World {
    w.(fs := Moved(w.fs, src, dst), shares := RewritePathPrefixSpec(w.shares, from, to, ok))
  }

  lemma RelocateStep(w: World, src: Path, dst: Path, from: string, to: string, ok: bool)
    requires UserMove(w.fs, w.next, src, dst)
    ensures Relocate(w, src, dst, from, to, ok) == (AfterMove(w, src, dst, from, to, ok), true)
    ensures var w' := AfterMove(w, src, dst, from, to, ok); LiveStep(w, w') && Files(w'.fs) == Files(w.fs)
  {
    UserMoveEffect(w.fs, w.next, src, dst);
  }

  /** The outcome of a move request: refused, or one permitted move. */
  ghost predicate Moves(w: World, r: (World, bool), src: Path, dst: Path, from: string, to: string, ok: bool) {
    if r.1 then UserMove(w.fs, w.next, src, dst) && r.0 == AfterMove(w, src, dst, from, to, ok) else r.0 == w
  }

  lemma MovesStep(w: World, r: (World, bool), src: Path, dst: Path, from: string, to: string, ok: bool)
    requires TreeOk(w.fs, w.next) && Moves(w, r, src, dst, from, to, ok)
    ensures LiveStep(w, r.0) && Files(r.0.fs) == Files(w.fs)
  {
    if r.1 {
      RelocateStep(w, src, dst, from, to, ok);
    } else {
      Idle(w);
    }
  }

  lemma MoveOutcome(w: World, path: string, destDir: string, ok: bool)
    requires TreeOk(w.fs, w.next)
    ensures var r := MoveSpec(w, path, destDir, ok);
            && (!r.1 ==> r.0 == w)
            && (r.1 ==>
                  var src, dest := CleanRooted(Slashed(path)), CleanRooted(Slashed(destDir));
                  src != [] && UserPath(dest) && dest in w.fs
                  && var to := PathJoinSpec([Trim(destDir, "/"), Last(src)]);
                     Moves(w, r, src, dest + [Last(src)], Trim(path, "/"), to, ok))
  {
    hide TreeOk, CleanRooted, UserMove, Resolve, Rel, RewritePathPrefixSpec;
    if MoveSpec(w, path, destDir, ok).1 {
      LocateUser(w, path);
      LocateUser(w, destDir);
      var src, dest := Locate(w, path).value, Locate(w, destDir).value;
      MoveTargetOk(w.fs, w.next, src, dest);
      RelocateStep(w, src, dest + [Last(src)], Trim(path, "/"), PathJoinSpec([Trim(destDir, "/"), Last(src)]), ok);
    } else {
      MoveRefused(w, path, destDir, ok);
    }
  }

  lemma MoveRefused(w: World, path: string, destDir: string, ok: bool)
    requires !MoveSpec(w, path, destDir, ok).1
    ensures MoveSpec(w, path, destDir, ok).0 == w
  {
  }

  lemma RenameOutcome(w: World, oldPath: string, newName: string, ok: bool)
    requires TreeOk(w.fs, w.next) && !NamesRoot(oldPath)
    ensures var r := RenameSpec(w, oldPath, newName, ok);
            && (!r.1 ==> r.0 == w)
            && (r.1 ==>
                  var src, name := CleanRooted(Slashed(oldPath)), SanitizeName(newName);
                  src != [] && UserName(name)
                  && var to := PathJoinSpec([PathDir(oldPath), name]);
                     Moves(w, r, src, Parent(src) + [name], Trim(oldPath, "/"), to, ok))
  {
    hide TreeOk, CleanRooted, UserMove, Resolve, RewritePathPrefixSpec, SanitizeName, PathDir;
    var r := RenameSpec(w, oldPath, newName, ok);
    var name := SanitizeName(newName);
    if r.1 {
      LocateUser(w, oldPath);
      var src := Locate(w, oldPath).value;
      var newRel := PathJoinSpec([PathDir(oldPath), name]);
      SanitizedName(newName);
      NewNameClean(w, PathDir(oldPath), name);
      RenameMoves(w.fs, w.next, src, name);
      RelocateStep(w, src, Parent(src) + [name], Trim(oldPath, "/"), newRel, ok);
    } else {
      RenameRefused(w, oldPath, newName, ok);
    }
  }

  lemma RenameRefused(w: World, oldPath: string, newName: string, ok: bool)
    requires !NamesRoot(oldPath) && !RenameSpec(w, oldPath, newName, ok).1
    ensures RenameSpec(w, oldPath, newName, ok).0 == w
  {
  }

  /** The second `safePath` of `handleRename` refuses a NUL in the new name. */
  lemma NewNameClean(w: World, dir: string, name: string)
    requires Locate(w, PathJoinSpec([dir, name])).Ok? && ValidName(name)
    ensures '\0' !in name
  {
    TrimNoop(name, "/");
    var kept := Kept([dir, name]);
    KeptSnoc([dir], name);
    assert [dir] + [name] == [dir, name] && Kept([name]) == [name] + Kept([]);
    assert kept[|kept| - 1] == name;
    PiecesAvoid(kept, '\0');
  }

  lemma RenameMoves(fs: Fs, next: nat, src: Path, name: Name)
    requires TreeOk(fs, next) && UserSpot(src) && src in fs && UserName(name) && Parent(src) + [name] !in fs
    ensures UserMove(fs, next, src, Parent(src) + [name])
  {
    hide WellFormed, NoLinks, UniqueInos;
    InTree(fs, src);
    SpotIn(Parent(src), name);
    var dst := Parent(src) + [name];
    if src <= dst {
      SameLength(src, dst);
    }
  }

  lemma SameLength(p: Path, q: Path)
    requires p <= q && |p| == |q|
    ensures p == q
  {
  }

  // ---------------------------------------------------------------- bulk move

  lemma MoveOneOutcome(w: World, path: string, dest: Path, destDir: string, ok: bool)
    requires TreeOk(w.fs, w.next) && UserPath(dest) && IsDir(w.fs, dest)
    ensures var r := MoveOne(w, path, dest, destDir, ok);
            && (!r.1 ==> r.0 == w)
            && (r.1 ==>
                  var rel := Trim(path, "/");
                  var src := CleanRooted(Slashed(rel));
                  src != [] && !(src <= dest)
                  && Moves(w, r, src, dest + [Last(src)], rel, PathJoinSpec([Trim(destDir, "/"), Last(src)]), ok))
  {
    hide TreeOk, CleanRooted, UserMove, Resolve, Rel, RewritePathPrefixSpec;
    var rel := Trim(path, "/");
    if MoveOne(w, path, dest, destDir, ok).1 {
      LocateUser(w, rel);
      var src := Locate(w, rel).value;
      MoveTargetOk(w.fs, w.next, src, dest);
      RelocateStep(w, src, dest + [Last(src)], rel, PathJoinSpec([Trim(destDir, "/"), Last(src)]), ok);
    } else {
      MoveOneRefused(w, path, dest, destDir, ok);
    }
  }

  lemma MoveOneRefused(w: World, path: string, dest: Path, destDir: string, ok: bool)
    requires !MoveOne(w, path, dest, destDir, ok).1
    ensures MoveOne(w, path, dest, destDir, ok).0 == w
  {
  }

  lemma DestinationStays(w: World, r: (World, bool), src: Path, dest: Path, name: Name, from: string, to: string,
                         ok: bool)
    requires dest in w.fs && !(src <= dest) && Moves(w, r, src, dest + [name], from, to, ok)
    ensures dest in r.0.fs && r.0.fs[dest] == w.fs[dest]
  {
    if r.1 {
      MovedAt(w.fs, src, dest + [name], dest);
    }
  }

  /** However many of the moves succeed, nothing displaces the destination that was checked before the
      loop, every path is counted once, and no file is lost. */
  lemma {:induction false} BulkMoveStep(w: World, paths: seq<string>, dest: Path, destDir: string, oks: seq<bool>,
                                        n: nat)
    requires TreeOk(w.fs, w.next) && UserPath(dest) && IsDir(w.fs, dest) && n <= |paths| == |oks|
    ensures var p := BulkMoveTo(w, paths, dest, destDir, oks, n);
            && p.moved + |p.failed| == n
            && LiveStep(w, p.w) && Files(p.w.fs) == Files(w.fs)
            && dest in p.w.fs && p.w.fs[dest] == w.fs[dest]
  {
    hide TreeOk, Moves, Files, MoveOne, UserPath;
    if n == 0 {
      Idle(w);
    } else {
      BulkMoveStep(w, paths, dest, destDir, oks, n - 1);
      var before := BulkMoveTo(w, paths, dest, destDir, oks, n - 1).w;
      var r := MoveOne(before, paths[n - 1], dest, destDir, oks[n - 1]);
      MoveOneOutcome(before, paths[n - 1], dest, destDir, oks[n - 1]);
      if r.1 {
        var rel := Trim(paths[n - 1], "/");
        var src := CleanRooted(Slashed(rel));
        var to := PathJoinSpec([Trim(destDir, "/"), Last(src)]);
        MovesStep(before, r, src, dest + [Last(src)], rel, to, oks[n - 1]);
        DestinationStays(before, r, src, dest, Last(src), rel, to, oks[n - 1]);
        LiveTransitive(w, before, r.0);
      }
    }
  }
}
