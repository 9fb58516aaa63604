/** What single requests do to the tree: every change is a move between free places, an addition of
    entries a request can name, or a removal inside the trash. */
module ArchiveEffects {
  import opened Archive
  import opened Copying
  import opened FileSystem
  import opened Paths
  import opened Resolver
  import opened Tree

  /** A place below the root that requests can name; the trash has none. */
  predicate UserSpot(p: Path) {
    p != [] && UserPath(p)
  }

  /** Everything stored in the trash is the same in both trees. */
  ghost predicate SameTrash(fs: Fs, fs': Fs) {
    forall id: string :: SameSubtree(fs, ItemPath(id), fs', ItemPath(id))
  }

  /** Everything outside the trash is the same in both trees. */
  ghost predicate SameLive(fs: Fs, fs': Fs) {
    forall p: Path :: !(ITEMS < p) ==> (p in fs <==> p in fs') && (p in fs ==> fs[p] == fs'[p])
  }

  lemma LocateUser(w: World, request: string)
    requires TreeOk(w.fs, w.next) && Locate(w, request).Ok?
    ensures var p := Locate(w, request).value;
            && UserPath(p) && ValidPath(p) && p == CleanRooted(Slashed(request))
            && (p in w.fs || Lstat(w.fs, p) == Err(NotExist))
  {
    RootIsPhysical(w.fs);
    InTree(w.fs, ITEMS);
    ResolveLexical(w.fs, [], request);
    assert [] + CleanRooted(Slashed(request)) == CleanRooted(Slashed(request));
  }

  lemma UserApartFromTrash(p: Path, id: string)
    requires UserSpot(p)
    ensures Apart(p, ItemPath(id)) && !(p <= ITEMS) && !(ITEMS <= p) && !(ItemPath(id) <= p)
  {
    assert ItemPath(id)[0] == ".trash" && ITEMS[0] == ".trash";
    assert Hidden(".trash") && UserName(p[0]);
  }

  lemma SameTrashTransitive(a: Fs, b: Fs, c: Fs)
    requires SameTrash(a, b) && SameTrash(b, c)
    ensures SameTrash(a, c)
  {
    forall id: string ensures SameSubtree(a, ItemPath(id), c, ItemPath(id)) {
      assert SameSubtree(a, ItemPath(id), b, ItemPath(id)) && SameSubtree(b, ItemPath(id), c, ItemPath(id));
      SameSubtreeTransitive(a, ItemPath(id), b, ItemPath(id), c, ItemPath(id));
    }
  }

  lemma SameSubtreeTransitive(a: Fs, p: Path, b: Fs, q: Path, c: Fs, r: Path)
    requires SameSubtree(a, p, b, q) && SameSubtree(b, q, c, r)
    ensures SameSubtree(a, p, c, r)
  {
  }

  lemma SameTrashReflexive(fs: Fs)
    ensures SameTrash(fs, fs)
  {
  }

  // ---------------------------------------------------------------- moves between user spots

  /** The rename that a permitted move performs. */
  ghost predicate UserMove(fs: Fs, next: nat, src: Path, dst: Path) {
    TreeOk(fs, next) && FreeMove(fs, src, dst) && UserSpot(src) && UserSpot(dst)
  }

  lemma UserMoveEffect(fs: Fs, next: nat, src: Path, dst: Path)
    requires UserMove(fs, next, src, dst)
    ensures var fs' := Moved(fs, src, dst);
            && Rename(fs, src, dst) == Ok(fs')
            && TreeOk(fs', next) && SameTrash(fs, fs') && Files(fs') == Files(fs)
  {
    hide WellFormed, Moved, UserSpot;
    assert ValidName(Last(dst)) by {
      NameOfSpot(dst);
    }
    UserApartFromTrash(src, "");
    MovedTreeOk(fs, next, src, dst);
    MovedKeepsFiles(fs, src, dst);
    forall id: string ensures SameSubtree(fs, ItemPath(id), Moved(fs, src, dst), ItemPath(id)) {
      UserApartFromTrash(src, id);
      UserApartFromTrash(dst, id);
      MovedElsewhere(fs, src, dst, ItemPath(id));
    }
  }

  lemma NameOfSpot(p: Path)
    requires UserSpot(p)
    ensures UserName(Last(p)) && ValidName(Last(p))
  {
  }

  lemma SpotIn(dir: Path, n: Name)
    requires UserPath(dir) && UserName(n)
    ensures UserSpot(dir + [n]) && Parent(dir + [n]) == dir && Last(dir + [n]) == n
  {
  }

  /** What `handleMove` and `handleBulkMove` check suffices. */
  lemma MoveTargetOk(fs: Fs, next: nat, src: Path, dest: Path)
    requires TreeOk(fs, next) && UserPath(src) && UserPath(dest) && IsDir(fs, dest)
    requires MoveTarget(fs, src, dest).Some?
    ensures var dst := MoveTarget(fs, src, dest).value;
            UserMove(fs, next, src, dst) && dst == dest + [Last(src)] && !(src <= dest)
  {
    hide WellFormed, Rel;
    var dst := dest + [Last(src)];
    SpotIn(dest, Last(src));
    assert ValidPath(src) && ValidPath(dest);
    RelDecidesContainment(src, dest);
    if src <= dest {
      assert dest[..|src|] == src;
      Ancestors(fs, dest, |src|);
    }
    if src <= dst && src != dst {
      ParentPrefix(src, dst);
    }
  }

  lemma {:induction false} WithoutAvoids(s: string, c: char)
    ensures c !in Paths.Without(s, c) && forall x :: x in Paths.Without(s, c) ==> x in s
  {
    if s != "" {
      WithoutAvoids(s[1..], c);
    }
  }

  /** A sanitised name can be addressed by requests, unless it holds a NUL. */
  lemma SanitizedName(name: string)
    requires SanitizeName(name) != ""
    ensures var n := SanitizeName(name); ValidName(n) && !Hidden(n) && ('\0' !in n ==> UserName(n))
  {
    var a := Paths.Without(Base(name), '\\');
    var b := Paths.Without(a, '/');
    WithoutAvoids(Base(name), '\\');
    WithoutAvoids(a, '/');
    TrimLeftStarts(b, ".");
  }

  // ---------------------------------------------------------------- additions

  /** `fs'` is `fs` with entries added outside the trash. */
  ghost predicate Grown(fs: Fs, next: nat, fs': Fs, next': nat) {
    && TreeOk(fs', next') && next <= next' && Extends(fs, fs')
    && forall p :: p in fs' && p !in fs ==> !(ITEMS <= p)
  }

  lemma GrownEffect(fs: Fs, next: nat, fs': Fs, next': nat)
    requires Grown(fs, next, fs', next')
    ensures SameTrash(fs, fs') && Files(fs) <= Files(fs')
  {
    hide TreeOk;
    ExtendedFiles(fs, fs');
    forall id: string ensures SameSubtree(fs, ItemPath(id), fs', ItemPath(id)) {
      assert ITEMS <= ItemPath(id);
      ExtendedElsewhere(fs, fs', ItemPath(id));
    }
  }

  lemma NothingGrown(fs: Fs, next: nat, next': nat)
    requires TreeOk(fs, next) && next <= next'
    ensures Grown(fs, next, fs, next')
  {
  }

  lemma CreateGrows(w: World, p: Path, node: Node)
    requires TreeOk(w.fs, w.next) && UserPath(p) && node.ino == w.next && !node.Link?
    ensures var w' := Create(w, p, node).0; Grown(w.fs, w.next, w'.fs, w'.next)
  {
    hide TreeOk;
    if Create(w, p, node).1 {
      NameOfSpot(p);
      UserApartFromTrash(p, "");
      AddNode(w.fs, w.next, p, node);
    } else {
      NothingGrown(w.fs, w.next, w.next);
    }
  }

  lemma FoldersGrow(fs: Fs, next: nat, p: Path, next': nat)
    requires TreeOk(fs, next) && UserPath(p) && next' == next + |p| + 1
    ensures MkdirAll(fs, p, next).Ok? ==> Grown(fs, next, MkdirAll(fs, p, next).value, next')
    ensures MkdirAll(fs, p, next).Ok? ==> Files(MkdirAll(fs, p, next).value) == Files(fs)
    ensures MkdirAll(fs, p, next).Ok? ==> IsDir(MkdirAll(fs, p, next).value, p)
    ensures MkdirAll(fs, p, next).Ok? <==> Lstat(fs, p) == Err(NotExist) || IsDir(fs, p)
  {
    hide WellFormed, NoLinks, UniqueInos, MkdirAll, Lstat, Files;
    assert ValidPath(p);
    MkdirAllFacts(fs, p, next);
    InTree(fs, ITEMS);
    if MkdirAll(fs, p, next).Ok? {
      var made := MkdirAll(fs, p, next).value;
      OnlyFolders(fs, made);
      forall q | q in made && q !in fs ensures !(ITEMS <= q) {
        if q != [] {
          UserApartFromTrash(q, "");
        }
      }
    }
  }

  lemma OnlyFolders(fs: Fs, made: Fs)
    requires Extends(fs, made) && forall q :: q in made && q !in fs ==> made[q].Dir?
    ensures Files(made) == Files(fs)
  {
    forall q | q in made && made[q].File? ensures q in fs && fs[q] == made[q] {
    }
    ExtendedFiles(fs, made);
  }

  lemma CopyGrows(w: World, src: Path, dst: Path)
    requires TreeOk(w.fs, w.next) && src in w.fs && UserSpot(dst) && dst !in w.fs
    ensures var (fs, _) := CopyOrRollBack(w.fs, w.next, src, dst);
            Grown(w.fs, w.next, fs, CopyPathSpec(w.fs, w.next, src, dst).next)
  {
    hide WellFormed, NoLinks, UniqueInos, Listing, CopyList;
    var list := Listing(w.fs, src);
    ListingRange(w.fs, src, list);
    forall i | 0 <= i < |list| ensures ValidPath(list[i]) {
      NamesValid(w.fs, list[i]);
    }
    var start := Copying.Progress(w.fs, w.next, 0, 0, true);
    CopyTreeOk(start, w.fs, src, dst, list, |list|);
    CopyConfined(start, w.fs, src, dst, list, |list|);
    var st := CopyPathSpec(w.fs, w.next, src, dst);
    if st.ok {
      forall q | q in st.fs && q !in w.fs ensures !(ITEMS <= q) {
        assert dst <= q && dst[0] == q[0];
      }
    } else {
      RollbackRestores(w.fs, st.fs, dst);
      NothingGrown(w.fs, w.next, st.next);
    }
  }
}
