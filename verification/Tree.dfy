/** The system calls that change a directory tree, on trees without symbolic links, and what they
    keep: the shape of the tree, the identity of every node, and every file's contents. */
module Tree {
  import opened FileSystem
  import opened Paths

  const ITEMS: Path := [".trash", "items"]

  ghost predicate UniqueInos(fs: Fs) {
    forall p, q :: p in fs && q in fs && fs[p].ino == fs[q].ino ==> p == q
  }

  /** A tree without links whose nodes are numbered below `next`, with the trash directory in it. */
  ghost predicate TreeOk(fs: Fs, next: nat) {
    && WellFormed(fs) && NoLinks(fs) && UniqueInos(fs) && IsDir(fs, ITEMS)
    && forall p :: p in fs ==> fs[p].ino < next
  }

  /** Neither path contains the other. */
  predicate Apart(p: Path, q: Path) {
    !(p <= q) && !(q <= p)
  }

  /** `p` in one tree and `q` in another hold the same nodes under the same names. */
  ghost predicate SameSubtree(fs: Fs, p: Path, fs': Fs, q: Path) {
    forall t: Path :: (p + t in fs <==> q + t in fs') && (p + t in fs ==> fs[p + t] == fs'[q + t])
  }

  /** All files, identity and contents. */
  function Files(fs: Fs): set<Node> {
    set p | p in fs && fs[p].File? :: fs[p]
  }

  lemma ParentPrefix(p: Path, q: Path)
    requires p <= q && p != q
    ensures p <= Parent(q)
  {
  }

  // ---------------------------------------------------------------- rename

  /** Where the entry at `q` was before `src` became `dst`. */
  function Origin(src: Path, dst: Path, q: Path): Path {
    if dst <= q then src + q[|dst|..] else q
  }

  function Moved(fs: Fs, src: Path, dst: Path): Fs {
    var arrived := set q | q in fs && src <= q :: dst + q[|src|..];
    var stayed := set q | q in fs && !(src <= q) && !(dst <= q);
    map q | q in arrived + stayed && Origin(src, dst, q) in fs :: fs[Origin(src, dst, q)]
  }

  /** `os.Rename`: replaces a file by a file, never touches an existing directory. */
  function Rename(fs: Fs, src: Path, dst: Path): Result<Fs> {
    if src !in fs || dst == [] || !IsDir(fs, Parent(dst)) then Err(NotExist)
    else if src == dst then Ok(fs)
    else if src <= dst then Err(BadPath)
    else if dst in fs && (fs[dst].Dir? || fs[src].Dir?) then Err(Exists)
    else Ok(Moved(fs, src, dst))
  }

  lemma Swap(src: Path, dst: Path, q: Path)
    requires src <= q
    ensures Origin(src, dst, dst + q[|src|..]) == q
  {
    assert src + q[|src|..] == q;
    assert (dst + q[|src|..])[|dst|..] == q[|src|..];
  }

  lemma MovedAt(fs: Fs, src: Path, dst: Path, q: Path)
    ensures q in Moved(fs, src, dst) <==> if dst <= q then Origin(src, dst, q) in fs else q in fs && !(src <= q)
    ensures q in Moved(fs, src, dst) ==> Moved(fs, src, dst)[q] == fs[Origin(src, dst, q)]
  {
    if dst <= q {
      var o := Origin(src, dst, q);
      assert o[|src|..] == q[|dst|..];
      assert dst + o[|src|..] == q;
      forall p | p in fs && src <= p && dst + p[|src|..] == q ensures o in fs {
        Swap(src, dst, p);
      }
    } else {
      forall p | p in fs && src <= p ensures dst + p[|src|..] != q {
        assert dst <= dst + p[|src|..];
      }
    }
  }

  lemma InTree(fs: Fs, p: Path)
    requires WellFormed(fs) && p in fs
    ensures IsDir(fs, [])
    ensures p != [] ==> ValidName(Last(p)) && IsDir(fs, Parent(p))
  {
  }

  lemma ShapeSuffices(fs: Fs)
    requires IsDir(fs, [])
    requires forall p :: p in fs && p != [] ==> ValidName(Last(p)) && IsDir(fs, Parent(p))
    ensures WellFormed(fs)
  {
  }

  /** A missing entry has nothing below it. */
  lemma NothingBelow(fs: Fs, p: Path, q: Path)
    requires WellFormed(fs) && p !in fs && q in fs
    ensures !(p <= q)
  {
    hide WellFormed;
    if p <= q {
      assert q[..|p|] == p;
      Ancestors(fs, q, |p|);
    }
  }

  /** The hypotheses under which the server calls rename: the source is there, the destination is
      free and in a directory, and the source does not contain it. */
  ghost predicate FreeMove(fs: Fs, src: Path, dst: Path) {
    WellFormed(fs) && src in fs && dst !in fs && dst != [] && IsDir(fs, Parent(dst)) && !(src <= dst)
  }

  lemma ParentStays(fs: Fs, src: Path, dst: Path, q: Path)
    requires FreeMove(fs, src, dst) && q != [] && q in Moved(fs, src, dst) && ValidName(Last(dst))
    ensures ValidName(Last(q)) && IsDir(Moved(fs, src, dst), Parent(q))
  {
    hide WellFormed, Moved;
    MovedAt(fs, src, dst, q);
    MovedAt(fs, src, dst, Parent(q));
    var o := Origin(src, dst, q);
    InTree(fs, o);
    if q == dst {
      NothingBelow(fs, dst, Parent(q));
    } else if dst <= q {
      assert dst <= Parent(q);
      assert Parent(o) == Origin(src, dst, Parent(q));
      assert Last(o) == Last(q);
    } else {
      assert Parent(q) <= q;
    }
  }

  lemma MovedWellFormed(fs: Fs, src: Path, dst: Path)
    requires FreeMove(fs, src, dst) && ValidName(Last(dst))
    ensures WellFormed(Moved(fs, src, dst))
  {
    var fs' := Moved(fs, src, dst);
    MovedAt(fs, src, dst, []);
    forall q | q in fs' && q != [] ensures ValidName(Last(q)) && IsDir(fs', Parent(q)) {
      ParentStays(fs, src, dst, q);
    }
  }

  lemma OriginInjective(fs: Fs, src: Path, dst: Path, p: Path, q: Path)
    requires p in Moved(fs, src, dst) && q in Moved(fs, src, dst)
    requires Origin(src, dst, p) == Origin(src, dst, q)
    ensures p == q
  {
    MovedAt(fs, src, dst, p);
    MovedAt(fs, src, dst, q);
    if dst <= p && dst <= q {
      assert p[|dst|..] == Origin(src, dst, p)[|src|..];
      assert q[|dst|..] == Origin(src, dst, q)[|src|..];
      assert p == dst + p[|dst|..] && q == dst + q[|dst|..];
    }
  }

  lemma MovedTreeOk(fs: Fs, next: nat, src: Path, dst: Path)
    requires TreeOk(fs, next) && FreeMove(fs, src, dst) && ValidName(Last(dst)) && !(src <= ITEMS)
    ensures TreeOk(Moved(fs, src, dst), next)
  {
    var fs' := Moved(fs, src, dst);
    MovedWellFormed(fs, src, dst);
    forall q | q in fs' ensures Origin(src, dst, q) in fs && fs'[q] == fs[Origin(src, dst, q)] {
      MovedAt(fs, src, dst, q);
    }
    forall p, q | p in fs' && q in fs' && fs'[p].ino == fs'[q].ino ensures p == q {
      OriginInjective(fs, src, dst, p, q);
    }
    MovedAt(fs, src, dst, ITEMS);
    NothingBelow(fs, dst, ITEMS);
  }

  /** The moved subtree arrives whole. */
  lemma MovedArrives(fs: Fs, src: Path, dst: Path)
    requires FreeMove(fs, src, dst)
    ensures SameSubtree(fs, src, Moved(fs, src, dst), dst)
  {
    forall t: Path
      ensures (src + t in fs <==> dst + t in Moved(fs, src, dst))
      ensures src + t in fs ==> fs[src + t] == Moved(fs, src, dst)[dst + t]
    {
      MovedAt(fs, src, dst, dst + t);
      assert (dst + t)[|dst|..] == t;
    }
  }

  /** Everything away from both places is as it was. */
  lemma MovedElsewhere(fs: Fs, src: Path, dst: Path, p: Path)
    requires Apart(src, p) && Apart(dst, p)
    ensures SameSubtree(fs, p, Moved(fs, src, dst), p)
  {
    forall t: Path
      ensures (p + t in fs <==> p + t in Moved(fs, src, dst))
      ensures p + t in fs ==> fs[p + t] == Moved(fs, src, dst)[p + t]
    {
      MovedAt(fs, src, dst, p + t);
      if src <= p + t {
        PrefixesCompare(src, p, p + t);
      }
      if dst <= p + t {
        PrefixesCompare(dst, p, p + t);
      }
    }
  }

  lemma PrefixesCompare(a: Path, b: Path, c: Path)
    requires a <= c && b <= c
    ensures a <= b || b <= a
  {
    if |a| <= |b| {
      assert a == c[..|a|] && b == c[..|b|];
    } else {
      assert a == c[..|a|] && b == c[..|b|];
    }
  }

  /** No file is lost, duplicated, created or changed. */
  lemma MovedKeepsFiles(fs: Fs, src: Path, dst: Path)
    requires FreeMove(fs, src, dst)
    ensures Files(Moved(fs, src, dst)) == Files(fs)
  {
    hide WellFormed, Moved;
    var fs' := Moved(fs, src, dst);
    forall q | q in fs' ensures Origin(src, dst, q) in fs && fs'[q] == fs[Origin(src, dst, q)] {
      MovedAt(fs, src, dst, q);
    }
    forall q | q in fs ensures exists p :: p in fs' && fs'[p] == fs[q] {
      var p := if src <= q then dst + q[|src|..] else q;
      NothingBelow(fs, dst, q);
      MovedAt(fs, src, dst, p);
      if src <= q {
        Swap(src, dst, q);
      }
      assert p in fs' && fs'[p] == fs[q];
    }
  }

  /** Renaming back undoes a rename. */
  lemma MovedBack(fs: Fs, src: Path, dst: Path)
    requires FreeMove(fs, src, dst) && !(dst <= src)
    ensures Rename(Moved(fs, src, dst), dst, src) == Ok(fs)
  {
    hide WellFormed, Moved;
    var fs' := Moved(fs, src, dst);
    InTree(fs, src);
    MovedAt(fs, src, dst, src);
    MovedAt(fs, src, dst, dst);
    assert src + dst[|dst|..] == src;
    if src != [] {
      MovedAt(fs, src, dst, Parent(src));
    }
    var back := Moved(fs', dst, src);
    forall q ensures (q in back <==> q in fs) && (q in fs ==> back[q] == fs[q]) {
      MovedAt(fs', dst, src, q);
      MovedAt(fs, src, dst, Origin(dst, src, q));
      if src <= q {
        Swap(src, dst, q);
      } else if q in fs {
        NothingBelow(fs, dst, q);
      }
    }
    assert back == fs;
  }

  // ---------------------------------------------------------------- the other calls

  function RemoveAll(fs: Fs, p: Path): Fs {
    map q | q in fs && !(p <= q) :: fs[q]
  }

  lemma RemovedTreeOk(fs: Fs, next: nat, p: Path)
    requires TreeOk(fs, next) && !(p <= ITEMS)
    ensures TreeOk(RemoveAll(fs, p), next)
  {
    hide WellFormed;
    var fs' := RemoveAll(fs, p);
    forall q | q in fs' && q != [] ensures ValidName(Last(q)) && IsDir(fs', Parent(q)) {
      InTree(fs, q);
      assert Parent(q) <= q;
    }
    InTree(fs, ITEMS);
    ShapeSuffices(fs');
  }

  lemma RemovedElsewhere(fs: Fs, p: Path, q: Path)
    requires Apart(p, q)
    ensures SameSubtree(fs, q, RemoveAll(fs, p), q)
  {
    forall t: Path ensures !(p <= q + t) {
      if p <= q + t {
        PrefixesCompare(p, q, q + t);
      }
    }
  }

  /** `os.MkdirAll`; new directories are numbered from `next`. */
  function MkdirAll(fs: Fs, p: Path, next: nat): Result<Fs>
    decreases |p|
  {
    if p in fs then if fs[p].Dir? then Ok(fs) else Err(NotDir)
    else if p == [] then Err(NotExist)
    else
      match MkdirAll(fs, Parent(p), next)
      case Err(e) => Err(e)
      case Ok(made) => Ok(made[p := Dir(next + |p|)])
  }

  /** One tree extends another: old entries are untouched. */
  ghost predicate Extends(fs: Fs, fs': Fs) {
    forall p :: p in fs ==> p in fs' && fs'[p] == fs[p]
  }

  lemma {:induction false} MkdirAllFacts(fs: Fs, p: Path, next: nat)
    requires TreeOk(fs, next) && ValidPath(p)
    ensures MkdirAll(fs, p, next).Ok? <==> Lstat(fs, p) == Err(NotExist) || IsDir(fs, p)
    ensures MkdirAll(fs, p, next).Ok? ==>
              var made := MkdirAll(fs, p, next).value;
              && TreeOk(made, next + |p| + 1) && Extends(fs, made) && IsDir(made, p)
              && (forall q :: q in made && q !in fs ==> q <= p && made[q].Dir?)
    decreases |p|
  {
    hide WellFormed, NoLinks, UniqueInos;
    LstatPresent(fs, p);
    InTree(fs, ITEMS);
    if p !in fs {
      LstatPresent(fs, Parent(p));
      MkdirAllFacts(fs, Parent(p), next);
      if MkdirAll(fs, Parent(p), next).Ok? {
        AddNode(MkdirAll(fs, Parent(p), next).value, next + |p|, p, Dir(next + |p|));
      }
    }
  }

  lemma AddedShape(fs: Fs, p: Path, node: Node)
    requires WellFormed(fs) && p !in fs && p != [] && ValidName(Last(p)) && IsDir(fs, Parent(p))
    ensures WellFormed(fs[p := node])
  {
    hide WellFormed, ValidName;
    var fs' := fs[p := node];
    InTree(fs, Parent(p));
    forall q | q in fs && q != [] ensures ValidName(Last(q)) && IsDir(fs', Parent(q)) {
      InTree(fs, q);
    }
    ShapeSuffices(fs');
  }

  lemma AddedInos(fs: Fs, next: nat, p: Path, node: Node)
    requires NoLinks(fs) && UniqueInos(fs) && (forall q :: q in fs ==> fs[q].ino < next)
    requires p !in fs && node.ino == next && !node.Link?
    ensures var fs' := fs[p := node];
            NoLinks(fs') && UniqueInos(fs') && forall q :: q in fs' ==> fs'[q].ino < next + 1
  {
  }

  /** A new entry in an existing directory. */
  lemma AddNode(fs: Fs, next: nat, p: Path, node: Node)
    requires TreeOk(fs, next) && p !in fs && p != [] && ValidName(Last(p)) && IsDir(fs, Parent(p))
    requires node.ino == next && !node.Link?
    ensures TreeOk(fs[p := node], next + 1) && Extends(fs, fs[p := node])
  {
    hide WellFormed, NoLinks, UniqueInos, ValidName;
    AddedShape(fs, p, node);
    AddedInos(fs, next, p, node);
  }

  /** A tree that only gained entries outside a place has the same subtree there. */
  lemma ExtendedElsewhere(fs: Fs, fs': Fs, p: Path)
    requires Extends(fs, fs') && forall q :: q in fs' && q !in fs ==> !(p <= q)
    ensures SameSubtree(fs, p, fs', p)
  {
    forall t: Path ensures p + t in fs <==> p + t in fs' {
      assert p <= p + t;
    }
  }

  lemma ExtendedFiles(fs: Fs, fs': Fs)
    requires Extends(fs, fs')
    ensures Files(fs) <= Files(fs')
  {
  }
}
