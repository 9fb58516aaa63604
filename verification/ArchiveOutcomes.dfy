/** When requests succeed, said of the tree: both directions, for every request string. */
module ArchiveOutcomes {
  import opened Archive
  import opened ArchiveEffects
  import opened ArchiveRuns
  import opened ArchiveShares
  import opened ArchiveSteps
  import opened ArchiveTheorems
  import opened ArchiveTrash
  import opened FileSystem
  import opened Paths
  import opened Resolver
  import opened Shares
  import opened Tree

  /** The request addresses an existing entry. */
  predicate Addresses(fs: Fs, request: string, p: Path) {
    '\0' !in request && p == CleanRooted(Slashed(request)) && UserPath(p) && p in fs
  }

  lemma LocateExactly(w: World, request: string)
    requires TreeOk(w.fs, w.next)
    ensures var p := CleanRooted(Slashed(request));
            && (Addresses(w.fs, request, p) <==> Locate(w, request).Ok? && Locate(w, request).value in w.fs)
            && (Addresses(w.fs, request, p) ==> Locate(w, request) == Ok(p))
  {
    hide CleanRooted, Slashed, Resolve, UserPath, WellFormed, UniqueInos;
    RootIsPhysical(w.fs);
    InTree(w.fs, ITEMS);
    ResolveLexical(w.fs, [], request);
    var p := CleanRooted(Slashed(request));
    assert [] + p == p;
  }

  /** A move succeeds exactly when the source is there and is not the root, the destination is a directory
      that does not lie in the source, and the name is free there. */
  lemma MoveExactly(w: World, path: string, destDir: string, ok: bool)
    requires TreeOk(w.fs, w.next)
    ensures var src, dest := CleanRooted(Slashed(path)), CleanRooted(Slashed(destDir));
            MoveSpec(w, path, destDir, ok).1 <==>
              && !IsTrashPath(path) && !IsTrashPath(destDir)
              && Addresses(w.fs, path, src) && Addresses(w.fs, destDir, dest) && IsDir(w.fs, dest)
              && src != [] && !(src <= dest) && dest + [Last(src)] !in w.fs
  {
    hide CleanRooted, Slashed, Resolve, TreeOk, IsTrashPath, RewritePathPrefixSpec, Rel, Moved;
    LocateExactly(w, path);
    LocateExactly(w, destDir);
    var src, dest := CleanRooted(Slashed(path)), CleanRooted(Slashed(destDir));
    if Addresses(w.fs, path, src) && Addresses(w.fs, destDir, dest) && IsDir(w.fs, dest) {
      TargetExactly(w.fs, w.next, src, dest);
      if MoveTarget(w.fs, src, dest).Some? {
        MoveTargetOk(w.fs, w.next, src, dest);
        RelocateStep(w, src, dest + [Last(src)], Trim(path, "/"), PathJoinSpec([Trim(destDir, "/"), Last(src)]), ok);
      }
    }
  }

  lemma TargetExactly(fs: Fs, next: nat, src: Path, dest: Path)
    requires TreeOk(fs, next) && UserPath(src) && UserPath(dest) && src in fs && IsDir(fs, dest)
    ensures MoveTarget(fs, src, dest).Some? <==> src != [] && !(src <= dest) && dest + [Last(src)] !in fs
  {
    hide Rel, WellFormed, NoLinks, UniqueInos;
    assert ValidPath(src) && ValidPath(dest);
    RelDecidesContainment(src, dest);
    if src <= dest {
      assert dest[..|src|] == src;
      Ancestors(fs, dest, |src|);
    }
  }

  /** The request addresses an entry or a place where one could be made. */
  predicate Nameable(fs: Fs, p: Path) {
    UserPath(p) && (p in fs || Lstat(fs, p) == Err(NotExist))
  }

  lemma PathDirClean(path: string)
    requires '\0' !in path
    ensures '\0' !in PathDir(path)
  {
    TrimKeeps(path, "/", '\0');
    var parts := Split(Trim(path, "/"));
    SplitAvoids(Trim(path, "/"), '\0');
    NotInJoin(parts[..|parts| - 1], '\0');
  }

  /** Where the second lookup of a rename leads. */
  lemma NewNamePlace(oldPath: string, name: Name)
    requires UserName(name) && '\0' !in oldPath
    ensures var newRel := PathJoinSpec([PathDir(oldPath), name]);
            '\0' !in newRel && PlaceOf(newRel) == PlaceOf(PathDir(oldPath)) + [name]
  {
    hide PathJoinSpec, PathDir, CleanRooted, CleanParts, Split, Slashed;
    PathDirClean(oldPath);
    ChildPlace(PathDir(oldPath), name);
    PlainPieces(name, PlaceOf(PathDir(oldPath)));
  }

  /** A rename of anything but the root succeeds exactly when the source is there, the cleaned new name is usable
      and free beside it, and the directory that the request spells, which for "a/b/.." is not the source's,
      could hold such a name as well. */
  lemma RenameExactly(w: World, oldPath: string, newName: string, ok: bool)
    requires TreeOk(w.fs, w.next) && !NamesRoot(oldPath)
    ensures var src, name := PlaceOf(oldPath), SanitizeName(newName);
            RenameSpec(w, oldPath, newName, ok).1 <==>
              && Addresses(w.fs, oldPath, src) && name != "" && '\0' !in name && Parent(src) + [name] !in w.fs
              && Nameable(w.fs, PlaceOf(PathDir(oldPath)) + [name])
  {
    hide CleanRooted, Slashed, Resolve, TreeOk, SanitizeName, PathDir, Join, UserName, UserPath, PathJoinSpec, Relocate,
      AfterMove, UserMove, ValidName, Hidden, Lstat;
    var src, name := PlaceOf(oldPath), SanitizeName(newName);
    LocateExactly(w, oldPath);
    if Addresses(w.fs, oldPath, src) && name != "" {
      var newRel := PathJoinSpec([PathDir(oldPath), name]);
      SanitizedName(newName);
      if '\0' !in name {
        NewNamePlace(oldPath, name);
        PlaceExactly(w, newRel);
        if Parent(src) + [name] !in w.fs {
          SpotOf(src);
          RenameMoves(w.fs, w.next, src, name);
          RelocateStep(w, src, Parent(src) + [name], Trim(oldPath, "/"), newRel, ok);
        }
      } else if Locate(w, newRel).Ok? {
        NewNameClean(w, PathDir(oldPath), name);
      }
    }
  }

  /** Spelled plainly, it succeeds exactly when the source is there and the new name is usable and free. */
  lemma PlainRenameExactly(w: World, oldPath: string, newName: string, ok: bool)
    requires TreeOk(w.fs, w.next) && Plain(oldPath) && !NamesRoot(oldPath)
    ensures var src, name := PlaceOf(oldPath), SanitizeName(newName);
            RenameSpec(w, oldPath, newName, ok).1 <==>
              src in w.fs && name != "" && '\0' !in name && Parent(src) + [name] !in w.fs
  {
    hide CleanRooted, Slashed, Resolve, TreeOk, SanitizeName, PathDir, Trim, Join, UserName, Plain, PathJoinSpec,
      Relocate, ValidName, Hidden, Lstat;
    RenameExactly(w, oldPath, newName, ok);
    PlainMeans(oldPath);
    var src, name := PlaceOf(oldPath), SanitizeName(newName);
    NoNul(oldPath, src);
    if src in w.fs && name != "" && '\0' !in name {
      SanitizedName(newName);
      PlainBeside(oldPath, name);
      FreeBeside(w.fs, w.next, src, name);
    }
  }

  lemma PlainBeside(oldPath: string, name: Name)
    requires Plain(oldPath) && UserName(name) && PlaceOf(oldPath) != []
    ensures PlaceOf(PathDir(oldPath)) == Parent(PlaceOf(oldPath))
  {
    hide CleanRooted, Slashed, UserName;
    PlainMeans(oldPath);
    var p := PlaceOf(oldPath);
    AboveUser(p);
    JoinedPath(p);
    RequestCanonical(Parent(p));
  }

  lemma AboveUser(p: Path)
    requires UserSpot(p)
    ensures UserPath(Parent(p)) && ValidPath(p)
  {
  }

  /** Beside an entry every name is taken or could be. */
  lemma FreeBeside(fs: Fs, next: nat, src: Path, name: Name)
    requires TreeOk(fs, next) && UserSpot(src) && src in fs && UserName(name)
    ensures Nameable(fs, Parent(src) + [name])
  {
    hide WellFormed, UniqueInos, UserName;
    var p := Parent(src) + [name];
    AboveUser(src);
    InTree(fs, src);
    LstatPresent(fs, Parent(src));
    LstatPresent(fs, p);
    assert Parent(p) == Parent(src);
  }

  lemma NoNul(request: string, p: Path)
    requires Trim(request, "/") == Join(p) && UserPath(p)
    ensures '\0' !in request
  {
    RequestCanonical(p);
    TrimKeeps(request, "/", '\0');
  }

  /** Trashing succeeds exactly when the entry is there, is neither the root nor called trash, and the
      record can be saved. */
  lemma TrashExactly(w: World, path: string, id: string, now: int, ok: bool)
    requires TreeOk(w.fs, w.next) && FreshId(w, id)
    ensures var rel := Trim(path, "/");
            var src := CleanRooted(Slashed(rel));
            MoveToTrash(w, path, id, now, ok).1 <==>
              ok && rel != "" && !IsTrashPath(rel) && Addresses(w.fs, rel, src) && src != []
  {
    hide CleanRooted, Slashed, Resolve, TreeOk, IsTrashPath, Moved, FreshId;
    var rel := Trim(path, "/");
    LocateExactly(w, rel);
    MoveToTrashOutcome(w, path, id, now, ok);
    var src := CleanRooted(Slashed(rel));
    if Addresses(w.fs, rel, src) && src != [] {
      FreshStored(w, id);
      ItemsReady(w);
      SpotOf(src);
      TrashMoves(w.fs, w.next, src, id);
    }
  }

  /** Restoring a held record succeeds exactly when its entry is stored, its original place can be named and
      is free, nothing but directories stands above it, and the records can be saved. */
  lemma RestoreExactly(w: World, item: Item, ok: bool)
    requires Sound(w) && Held(w, item)
    ensures var dest := CleanRooted(Slashed(item.path));
            RestoreSpec(w, item.id, ok).1 <==>
              && ok && ItemPath(item.id) in w.fs
              && '\0' !in item.path && !IsTrashPath(item.path) && UserSpot(dest)
              && dest !in w.fs && Lstat(w.fs, dest) == Err(NotExist)
  {
    hide CleanRooted, Slashed, Resolve, TreeOk, IsTrashPath, Moved, ItemPath, MkdirAll, Grown, Files, Recorded;
    HeldAt(w, item);
    SoundTree(w);
    PlaceExactly(w, item.path);
    var dest := CleanRooted(Slashed(item.path));
    var how := RestoreOutcome(w, item.id, ok);
    if Locate(w, item.path).Ok? && UserSpot(dest) && (dest in w.fs || Lstat(w.fs, dest) == Err(NotExist)) {
      SpotNonEmpty(dest);
      Folders(w, dest);
      var ready := MkdirAll(w.fs, Parent(dest), w.next).value;
      if dest !in w.fs && ItemPath(item.id) in w.fs {
        StillStored(w, ready, dest, item.id);
        RestoreMoves(ready, w.next + |dest|, item.id, dest);
      }
    }
  }

  lemma HeldAt(w: World, item: Item)
    requires Sound(w) && Held(w, item)
    ensures var i := ItemAt(w.items, item.id); i < |w.items| && w.items[i] == item && ValidShareToken(item.id)
  {
    hide TreeOk, Recorded, ValidShareToken;
    var k :| 0 <= k < |w.items| && w.items[k] == item;
    var i := ItemAt(w.items, item.id);
    if i == |w.items| {
      ArchiveTrash.Unknown(w.items, item.id, 0);
    }
  }

  lemma PlaceExactly(w: World, request: string)
    requires TreeOk(w.fs, w.next)
    ensures var p := CleanRooted(Slashed(request));
            && (Locate(w, request).Ok? <==>
                  '\0' !in request && UserPath(p) && (p in w.fs || Lstat(w.fs, p) == Err(NotExist)))
            && (Locate(w, request).Ok? ==> Locate(w, request) == Ok(p))
  {
    hide CleanRooted, Slashed, Resolve, UserPath, WellFormed, UniqueInos, Lstat;
    RootIsPhysical(w.fs);
    InTree(w.fs, ITEMS);
    ResolveLexical(w.fs, [], request);
    var p := CleanRooted(Slashed(request));
    assert [] + p == p;
  }
}
