/** handlers.go: a rename request that addresses the storage root itself, in a tree that has something above it. */
module StorageRoot {
  import opened ArchiveEffects
  import opened ArchiveOutcomes
  import opened FileSystem
  import opened Paths
  import opened Resolver
  import opened Shares  // Option
  import opened Tree

  /** `handleRename` under any storage root: the tree it leaves, if it succeeds. The root of the file system
      itself cannot be renamed. */
  function RenameRequest(fs: Fs, root: Path, oldPath: string, newName: string): Option<Fs> {
    var src, name := Resolve(fs, root, oldPath), SanitizeName(newName);
    if src.Err? || name == "" || src.value == [] then None
    else
      var dst := Parent(src.value) + [name];
      if Resolve(fs, root, PathJoinSpec([PathDir(oldPath), name])).Err? || src.value !in fs || dst in fs then None
      else
        match Rename(fs, src.value, dst)
        case Err(_) => None
        case Ok(renamed) => Some(renamed)
  }

  lemma Resolves(fs: Fs, root: Path, request: string)
    requires RootReady(fs, root) && NoLinks(fs)
    ensures var p := PlaceOf(request);
            && (Resolve(fs, root, request).Ok? <==>
                  '\0' !in request && UserPath(p) && (root + p in fs || Lstat(fs, root + p) == Err(NotExist)))
            && (Resolve(fs, root, request).Ok? ==> Resolve(fs, root, request) == Ok(root + p))
  {
    ResolveLexical(fs, root, request);
  }

  /** An entry is renamed within its directory, so the root stays unless it is the entry. */
  lemma RenamedWithin(fs: Fs, root: Path, q: Path, name: Name)
    requires RootReady(fs, root) && q != [] && root + q in fs && Parent(root + q) + [name] !in fs
    ensures root in Moved(fs, root + q, Parent(root + q) + [name])
  {
    hide WellFormed, Moved;
    var src := root + q;
    MovedAt(fs, src, Parent(src) + [name], root);
  }

  lemma SamePrefix(a: Path, b: Path, c: Path)
    requires a <= c && b <= c && |a| == |b|
    ensures a == b
  {
    assert a == c[..|a|] && b == c[..|b|];
  }

  lemma RootMoves(fs: Fs, root: Path, name: Name)
    requires RootReady(fs, root) && root != [] && Parent(root) + [name] !in fs
    ensures FreeMove(fs, root, Parent(root) + [name])
    ensures Rename(fs, root, Parent(root) + [name]) == Ok(Moved(fs, root, Parent(root) + [name]))
  {
    hide Physical;
    var dst := Parent(root) + [name];
    assert Parent(dst) == Parent(root) && |dst| == |root|;
    if root <= dst {
      SamePrefix(root, dst, dst);
    }
  }

  lemma RootGone(fs: Fs, root: Path, dst: Path)
    requires FreeMove(fs, root, dst) && |dst| == |root|
    ensures forall p :: root <= p ==> p !in Moved(fs, root, dst)
    ensures SameSubtree(fs, root, Moved(fs, root, dst), dst)
  {
    hide WellFormed, Moved;
    MovedArrives(fs, root, dst);
    forall p | root <= p ensures p !in Moved(fs, root, dst) {
      MovedAt(fs, root, dst, p);
      if dst <= p {
        SamePrefix(root, dst, p);
      }
    }
  }

  lemma RootGoneExactly(fs: Fs, root: Path, oldPath: string, newName: string)
    requires RootReady(fs, root) && NoLinks(fs) && root != [] && RenameRequest(fs, root, oldPath, newName).Some?
    ensures var fs', name := RenameRequest(fs, root, oldPath, newName).value, SanitizeName(newName);
            root !in fs' <==> PlaceOf(oldPath) == []
  {
    hide WellFormed, Physical, Resolve, SanitizeName, PathDir, PathJoinSpec, CleanRooted, Moved, NoLinks, UserPath;
    var q, name := PlaceOf(oldPath), SanitizeName(newName);
    Resolves(fs, root, oldPath);
    if q == [] {
      assert root + q == root;
      RootMoves(fs, root, name);
      RootGone(fs, root, Parent(root) + [name]);
    } else {
      RenamedWithin(fs, root, q, name);
    }
  }

  /** A rename takes the storage directory away, with everything in it, exactly when the request cleans to the
      root, the cleaned new name is usable, it is free beside the storage directory, and the directory that the
      request spells could hold it: for "" and "/" that is the root itself. */
  lemma RootTakenExactly(fs: Fs, root: Path, oldPath: string, newName: string)
    requires RootReady(fs, root) && NoLinks(fs) && root != []
    ensures var r, name := RenameRequest(fs, root, oldPath, newName), SanitizeName(newName);
            var beside := PlaceOf(PathDir(oldPath)) + [name];
            r.Some? && root !in r.value <==>
              && '\0' !in oldPath && PlaceOf(oldPath) == [] && name != "" && '\0' !in name
              && Parent(root) + [name] !in fs
              && UserPath(beside) && (root + beside in fs || Lstat(fs, root + beside) == Err(NotExist))
  {
    hide WellFormed, Physical, Resolve, SanitizeName, PathDir, PathJoinSpec, CleanRooted, Moved, NoLinks, UserName,
      UserPath, ValidName, Hidden, Lstat;
    var r, name := RenameRequest(fs, root, oldPath, newName), SanitizeName(newName);
    Resolves(fs, root, oldPath);
    if r.Some? {
      RootGoneExactly(fs, root, oldPath, newName);
    }
    if '\0' !in oldPath && PlaceOf(oldPath) == [] && name != "" {
      var newRel := PathJoinSpec([PathDir(oldPath), name]);
      assert root + [] == root;
      NoNames();
      SanitizedName(newName);
      if '\0' !in name {
        NewNamePlace(oldPath, name);
        Resolves(fs, root, newRel);
        if Parent(root) + [name] !in fs {
          RootMoves(fs, root, name);
        }
      } else {
        NulName(fs, root, PathDir(oldPath), name);
      }
    }
  }

  lemma NoNames()
    ensures UserPath([])
  {
  }

  lemma NulName(fs: Fs, root: Path, dir: string, name: Name)
    requires ValidName(name) && '\0' in name
    ensures Resolve(fs, root, PathJoinSpec([dir, name])).Err?
  {
    hide PathJoinSpec;
    ChildPlace(dir, name);
  }

  /** For a request without any name in it nothing else is needed, and the storage is found at the sibling. */
  lemma EmptyPathTakesRoot(fs: Fs, root: Path, oldPath: string, newName: string)
    requires RootReady(fs, root) && NoLinks(fs) && root != [] && Trim(oldPath, "/") == ""
    ensures var r, name := RenameRequest(fs, root, oldPath, newName), SanitizeName(newName);
            && (r.Some? && root !in r.value <==> name != "" && '\0' !in name && Parent(root) + [name] !in fs)
            && (r.Some? ==>
                  && (forall p :: root <= p ==> p !in r.value) && SameSubtree(fs, root, r.value, Parent(root) + [name]))
  {
    hide WellFormed, Physical, Resolve, SanitizeName, PathJoinSpec, CleanRooted, Moved, NoLinks, UserName, ValidName,
      Hidden;
    var name := SanitizeName(newName);
    RootTakenExactly(fs, root, oldPath, newName);
    EmptyPlace(oldPath);
    Resolves(fs, root, oldPath);
    assert root + [] == root;
    if name != "" && '\0' !in name {
      SanitizedName(newName);
      AnyNameInRoot(fs, root, name);
      assert [] + [name] == [name];
    }
    if name != "" && Parent(root) + [name] !in fs {
      RootMoves(fs, root, name);
      RootGone(fs, root, Parent(root) + [name]);
    }
  }

  lemma EmptyPlace(oldPath: string)
    requires Trim(oldPath, "/") == ""
    ensures PlaceOf(oldPath) == [] && PlaceOf(PathDir(oldPath)) == [] && '\0' !in oldPath
  {
    hide CleanRooted;
    NoPlace();
    CleanSkipsLeading(oldPath, "/");
    CleanSkipsTrailing(TrimLeft(oldPath, "/"), "/");
    TrimKeeps(oldPath, "/", '\0');
    assert Split("") == [""] && PathDir(oldPath) == Join([""][..0]) == "";
  }

  lemma AnyNameInRoot(fs: Fs, root: Path, name: Name)
    requires RootReady(fs, root) && UserName(name)
    ensures UserPath([name]) && (root + [name] in fs || Lstat(fs, root + [name]) == Err(NotExist))
  {
    var p := root + [name];
    LstatPresent(fs, root);
    LstatPresent(fs, p);
    assert Parent(p) == root;
  }
}
