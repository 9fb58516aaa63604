/** path.go: which path a request gets. Resolver says that whatever comes back is safe; here the path is tied
    to the kernel's own lookup of the request, and success is characterised on trees with links. */
module ResolverTarget {
  import opened Paths
  import opened FileSystem
  import opened Resolver

  // ---------------------------------------------------------------- the kernel's lookup, piece by piece

  /** What opening the first `k` pieces below the root reaches, looking up one piece after the other. */
  ghost function Stage(fs: Fs, root: Path, parts: Path, k: nat): Result<Path>
    requires k <= |parts|
  {
    if k == 0 then Ok(root)
    else
      match Stage(fs, root, parts, k - 1)
      case Ok(d) => EvalSymlinks(fs, d + [parts[k - 1]])
      case Err(e) => Err(e)
  }

  /** How many pieces can be opened, from `k` on. */
  ghost function Depth(fs: Fs, root: Path, parts: Path, k: nat): (n: nat)
    requires k <= |parts| && Stage(fs, root, parts, k).Ok?
    ensures k <= n <= |parts| && Stage(fs, root, parts, n).Ok?
    ensures n < |parts| ==> Stage(fs, root, parts, n + 1).Err?
    decreases |parts| - k
  {
    if k == |parts| || Stage(fs, root, parts, k + 1).Err? then k else Depth(fs, root, parts, k + 1)
  }

  /** Below the root, and no name on the way starts with a dot. */
  predicate Inside(root: Path, p: Path) {
    root <= p && NoneHidden(p[|root|..])
  }

  /** Piece `j` names a symbolic link. */
  ghost predicate MeetsLink(fs: Fs, root: Path, parts: Path, j: nat)
    requires j < |parts|
  {
    var d := Stage(fs, root, parts, j);
    d.Ok? && d.value + [parts[j]] in fs && fs[d.value + [parts[j]]].Link?
  }

  /** Every link met among pieces `from` to `to` opens inside the root. */
  ghost predicate LinksStayInside(fs: Fs, root: Path, parts: Path, from: nat, to: nat)
    requires to <= |parts|
  {
    forall j: nat :: from <= j < to && MeetsLink(fs, root, parts, j) ==>
      var there := Stage(fs, root, parts, j + 1);
      there.Ok? && Inside(root, there.value)
  }

  /** The piece at which the lookup ends is missing from a directory. */
  ghost predicate EndsInDirectory(fs: Fs, root: Path, parts: Path, n: nat)
    requires n < |parts|
  {
    var d := Stage(fs, root, parts, n);
    d.Ok? && IsDir(fs, d.value) && d.value + [parts[n]] !in fs
  }

  // ---------------------------------------------------------------- one piece

  lemma PhysicalNames(fs: Fs, p: Path)
    requires WellFormed(fs) && Physical(fs, p)
    ensures p in fs && !fs[p].Link? && ValidPath(p)
  {
    assert p[..|p|] == p;
    NamesValid(fs, p);
  }

  /** Where nothing is a link, opening the path reaches it. */
  lemma PhysicalOpens(fs: Fs, p: Path)
    requires WellFormed(fs) && Physical(fs, p)
    ensures EvalSymlinks(fs, p) == Ok(p)
  {
    PhysicalNames(fs, p);
    OpensItself(fs, p);
  }

  lemma MissingExactly(fs: Fs, current: Path, name: Name)
    requires WellFormed(fs) && Physical(fs, current)
    ensures Lstat(fs, current + [name]) == Err(NotExist) <==> IsDir(fs, current) && current + [name] !in fs
    ensures current + [name] in fs ==> Lstat(fs, current + [name]) == Ok(fs[current + [name]])
    ensures current + [name] in fs ==> IsDir(fs, current)
  {
    PhysicalNames(fs, current);
    LstatPresent(fs, current);
    LstatPresent(fs, current + [name]);
    assert Parent(current + [name]) == current;
  }

  /** Nothing opens below a name that is missing. */
  lemma {:induction false} MissingWalk(fs: Fs, current: Path, name: Name, k: nat)
    requires WellFormed(fs) && Physical(fs, current) && ValidName(name) && current + [name] !in fs && k <= |current|
    ensures Walk(fs, current[..k], (current + [name])[k..], 0).Err?
    decreases |current| - k
  {
    var p := current + [name];
    PhysicalNames(fs, current);
    assert p[k..][1..] == p[k + 1..];
    if k == |current| {
      assert p[k..][0] == name && current[..k] + [name] == p;
    } else {
      assert current[..k] + [current[k]] == current[..k + 1] && p[k..][0] == current[k];
      MissingWalk(fs, current, name, k + 1);
    }
  }

  lemma MissingOpensNothing(fs: Fs, current: Path, name: Name)
    requires WellFormed(fs) && Physical(fs, current) && ValidName(name) && current + [name] !in fs
    ensures EvalSymlinks(fs, current + [name]).Err?
  {
    MissingWalk(fs, current, name, 0);
    assert current[..0] == [] && (current + [name])[0..] == current + [name];
  }

  lemma InsideMeaning(root: Path, p: Path)
    requires ValidPath(root) && ValidPath(p)
    ensures Inside(root, p) <==> WithinRoot(root, p) && RejectHiddenSpec(root, p).Ok?
  {
    WithinRootMeaning(root, p);
    RejectHiddenMeaning(root, p);
  }

  lemma InsideExtends(root: Path, p: Path, tail: Path)
    requires Inside(root, p) && NoneHidden(tail)
    ensures Inside(root, p + tail)
  {
    assert (p + tail)[|root|..] == p[|root|..] + tail;
  }

  lemma PhysicalEnd(fs: Fs, p: Path)
    requires WellFormed(fs) && EvalSymlinks(fs, p).Ok?
    ensures Physical(fs, EvalSymlinks(fs, p).value)
  {
    RootIsPhysical(fs);
    WalkIsPhysical(fs, [], p, 0);
  }

  // ---------------------------------------------------------------- the walk of the resolver

  /** What the walk needs of the directory it has reached, after `k` pieces. */
  ghost predicate At(fs: Fs, root: Path, parts: Path, k: nat, current: Path) {
    && RootReady(fs, root) && ValidPath(root) && ValidPath(parts) && NoneHidden(parts) && k <= |parts|
    && Stage(fs, root, parts, k) == Ok(current) && Physical(fs, current) && Inside(root, current)
  }

  /** The answer in terms of the lookup. */
  ghost predicate Answered(fs: Fs, root: Path, parts: Path, k: nat, r: Result<Path>)
    requires k <= |parts| && Stage(fs, root, parts, k).Ok?
  {
    var n := Depth(fs, root, parts, k);
    && (r.Ok? <==> LinksStayInside(fs, root, parts, k, n) && (n == |parts| || EndsInDirectory(fs, root, parts, n)))
    && (r.Ok? ==> r.value == Stage(fs, root, parts, n).value + parts[n..])
  }

  lemma AnsweredLater(fs: Fs, root: Path, parts: Path, k: nat, r: Result<Path>)
    requires k < |parts| && Stage(fs, root, parts, k).Ok? && Stage(fs, root, parts, k + 1).Ok?
    requires MeetsLink(fs, root, parts, k) ==> Inside(root, Stage(fs, root, parts, k + 1).value)
    requires Answered(fs, root, parts, k + 1, r)
    ensures Answered(fs, root, parts, k, r)
  {
    var n := Depth(fs, root, parts, k);
    assert n == Depth(fs, root, parts, k + 1);
    hide Stage, MeetsLink, Inside;
  }

  lemma DescendMissing(fs: Fs, root: Path, parts: Path, k: nat, current: Path)
    requires At(fs, root, parts, k, current) && k < |parts| && current + [parts[k]] !in fs
    ensures Answered(fs, root, parts, k, Descend(fs, root, current, parts[k..]))
  {
    hide Physical, WellFormed;
    PhysicalNames(fs, current);
    MissingOpensNothing(fs, current, parts[k]);
    MissingExactly(fs, current, parts[k]);
    InsideExtends(root, current, [parts[k]]);
    InsideExtends(root, current, parts[k..]);
    InsideMeaning(root, current + [parts[k]]);
    InsideMeaning(root, current + parts[k..]);
    assert Depth(fs, root, parts, k) == k;
  }

  lemma DescendAtEnd(fs: Fs, root: Path, parts: Path, current: Path)
    requires At(fs, root, parts, |parts|, current)
    ensures Answered(fs, root, parts, |parts|, Descend(fs, root, current, []))
    ensures parts[|parts|..] == []
  {
    PhysicalNames(fs, current);
    InsideMeaning(root, current);
    assert current + parts[|parts|..] == current;
  }

  /** A link that opens outside, or not at all. */
  lemma DescendStopped(fs: Fs, root: Path, parts: Path, k: nat, current: Path)
    requires At(fs, root, parts, k, current) && k < |parts|
    requires current + [parts[k]] in fs && fs[current + [parts[k]]].Link?
    requires var there := EvalSymlinks(fs, current + [parts[k]]); there.Err? || !Inside(root, there.value)
    ensures Answered(fs, root, parts, k, Descend(fs, root, current, parts[k..]))
  {
    hide Physical, WellFormed;
    PhysicalNames(fs, current);
    MissingExactly(fs, current, parts[k]);
    InsideExtends(root, current, [parts[k]]);
    InsideMeaning(root, current + [parts[k]]);
    var there := EvalSymlinks(fs, current + [parts[k]]);
    if there.Ok? {
      PhysicalEnd(fs, current + [parts[k]]);
      PhysicalNames(fs, there.value);
      InsideMeaning(root, there.value);
      assert MeetsLink(fs, root, parts, k);
    } else {
      assert Depth(fs, root, parts, k) == k;
    }
  }

  /** A piece that exists and leads on. */
  lemma DescendOn(fs: Fs, root: Path, parts: Path, k: nat, current: Path)
    requires At(fs, root, parts, k, current) && k < |parts| && current + [parts[k]] in fs
    requires fs[current + [parts[k]]].Link? ==>
               var there := EvalSymlinks(fs, current + [parts[k]]); there.Ok? && Inside(root, there.value)
    ensures var there := EvalSymlinks(fs, current + [parts[k]]);
            && there.Ok? && At(fs, root, parts, k + 1, there.value)
            && Descend(fs, root, current, parts[k..]) == Descend(fs, root, there.value, parts[k + 1..])
  {
    hide WellFormed;
    PhysicalNames(fs, current);
    MissingExactly(fs, current, parts[k]);
    InsideExtends(root, current, [parts[k]]);
    InsideMeaning(root, current + [parts[k]]);
    var next := current + [parts[k]];
    assert parts[k..][1..] == parts[k + 1..];
    if fs[next].Link? {
      var there := EvalSymlinks(fs, next);
      PhysicalEnd(fs, next);
      PhysicalNames(fs, there.value);
      InsideMeaning(root, there.value);
    } else {
      PhysicalExtends(fs, current, parts[k]);
      PhysicalOpens(fs, next);
    }
  }

  lemma {:induction false} DescendExactly(fs: Fs, root: Path, parts: Path, k: nat, current: Path)
    requires At(fs, root, parts, k, current)
    ensures Answered(fs, root, parts, k, Descend(fs, root, current, parts[k..]))
    decreases |parts| - k
  {
    hide Descend, Answered, Physical, WellFormed;
    if k == |parts| {
      DescendAtEnd(fs, root, parts, current);
    } else {
      var next := current + [parts[k]];
      var there := EvalSymlinks(fs, next);
      if next !in fs {
        DescendMissing(fs, root, parts, k, current);
      } else if fs[next].Link? && (there.Err? || !Inside(root, there.value)) {
        DescendStopped(fs, root, parts, k, current);
      } else {
        DescendOn(fs, root, parts, k, current);
        DescendExactly(fs, root, parts, k + 1, there.value);
        AnsweredLater(fs, root, parts, k, Descend(fs, root, current, parts[k..]));
      }
    }
  }

  /** On every tree, links included: resolution succeeds exactly when the request holds no NUL, no piece of the
      cleaned request starts with a dot, every link met on the way opens inside the root without a dot-leading
      name, and the lookup gets through or ends at a name missing from a directory. The path is then what the
      kernel's lookup of the pieces that exist reaches, followed by the rest of the pieces. */
  lemma ResolveExactly(fs: Fs, root: Path, request: string)
    requires RootReady(fs, root)
    ensures var parts := CleanRooted(Slashed(request));
            var r := Resolve(fs, root, request);
            var n := Depth(fs, root, parts, 0);
            && (r.Ok? <==>
                  && '\0' !in request && NoneHidden(parts) && LinksStayInside(fs, root, parts, 0, n)
                  && (n == |parts| || EndsInDirectory(fs, root, parts, n)))
            && (r.Ok? ==> r.value == Stage(fs, root, parts, n).value + parts[n..])
  {
    hide Descend, Physical, WellFormed;
    var parts := CleanRooted(Slashed(request));
    CleanIsValid(Split(Slashed(request)), []);
    VerdictMeaning(parts);
    PhysicalNames(fs, root);
    assert root[|root|..] == [];
    if NoneHidden(parts) {
      assert At(fs, root, parts, 0, root);
      DescendExactly(fs, root, parts, 0, root);
      assert parts[0..] == parts;
      if parts == [] {
        assert root + parts[0..] == root;
      }
    }
  }

  // ---------------------------------------------------------------- the lookup of the whole path

  /** A lookup that gets through with `links` links followed before gets through with fewer. */
  lemma {:induction false} WalkFewer(fs: Fs, dest: Path, rest: seq<string>, links: nat, fewer: nat)
    requires fewer <= links <= MAX_LINKS && Walk(fs, dest, rest, links).Ok?
    ensures Walk(fs, dest, rest, fewer) == Walk(fs, dest, rest, links)
    decreases MAX_LINKS - links, |rest|
  {
    if rest == [] {
    } else if rest[0] == "" || rest[0] == "." {
      WalkFewer(fs, dest, rest[1..], links, fewer);
    } else if rest[0] == ".." {
      WalkFewer(fs, if dest == [] then [] else Parent(dest), rest[1..], links, fewer);
    } else {
      var next := dest + [rest[0]];
      match fs[next] {
        case Dir(_) => WalkFewer(fs, next, rest[1..], links, fewer);
        case File(_, _) =>
        case Link(_, target) =>
          var from := if HasPrefix(target, "/") then [] else dest;
          WalkFewer(fs, from, Split(target) + rest[1..], links + 1, fewer + 1);
      }
    }
  }

  /** Looking up `a` and then `b` is looking up both at once. */
  lemma {:induction false} WalkSplit(fs: Fs, dest: Path, a: seq<string>, b: seq<string>, links: nat)
    requires WellFormed(fs) && dest in fs && links <= MAX_LINKS && Walk(fs, dest, a + b, links).Ok?
    ensures var d := Walk(fs, dest, a, links);
            d.Ok? && Walk(fs, d.value, b, 0) == Walk(fs, dest, a + b, links)
    decreases MAX_LINKS - links, |a|
  {
    if a == [] {
      assert a + b == b;
      WalkFewer(fs, dest, b, links, 0);
    } else {
      var rest := a[1..];
      assert (a + b)[0] == a[0] && (a + b)[1..] == rest + b;
      if a[0] == "" || a[0] == "." {
        WalkSplit(fs, dest, rest, b, links);
      } else if a[0] == ".." {
        WalkSplit(fs, if dest == [] then [] else Parent(dest), rest, b, links);
      } else {
        WalkSplitName(fs, dest, a, b, links);
      }
    }
  }

  lemma WalkSplitName(fs: Fs, dest: Path, a: seq<string>, b: seq<string>, links: nat)
    requires WellFormed(fs) && dest in fs && links <= MAX_LINKS && Walk(fs, dest, a + b, links).Ok?
    requires a != [] && a[0] !in ["", ".", ".."]
    ensures var d := Walk(fs, dest, a, links);
            d.Ok? && Walk(fs, d.value, b, 0) == Walk(fs, dest, a + b, links)
    decreases MAX_LINKS - links, |a|, 0
  {
    var rest, next := a[1..], dest + [a[0]];
    assert (a + b)[0] == a[0] && (a + b)[1..] == rest + b;
    match fs[next] {
      case Dir(_) => WalkSplit(fs, next, rest, b, links);
      case File(_, _) => assert rest == [] && b == [];
      case Link(_, target) =>
        var from := if HasPrefix(target, "/") then [] else dest;
        assert Split(target) + (rest + b) == (Split(target) + rest) + b;
        WalkSplit(fs, from, Split(target) + rest, b, links + 1);
    }
  }

  /** The kernel's lookup of the whole path goes through the stages. */
  lemma {:induction false} StageIsLookup(fs: Fs, root: Path, parts: Path, k: nat)
    requires RootReady(fs, root) && ValidPath(parts) && k <= |parts| && EvalSymlinks(fs, root + parts).Ok?
    ensures var d := Stage(fs, root, parts, k);
            d.Ok? && d.value in fs && Walk(fs, d.value, parts[k..], 0) == EvalSymlinks(fs, root + parts)
    decreases k
  {
    hide Walk;
    assert [] in fs;
    if k == 0 {
      WalkSplit(fs, [], root, parts, 0);
      PhysicalOpens(fs, root);
      PhysicalNames(fs, root);
      assert parts[0..] == parts;
    } else {
      StageIsLookup(fs, root, parts, k - 1);
      var d := Stage(fs, root, parts, k - 1).value;
      assert parts[k - 1..] == [parts[k - 1]] + parts[k..];
      WalkSplit(fs, d, [parts[k - 1]], parts[k..], 0);
      OneMore(fs, root, parts, k, d);
    }
  }

  /** Looking up one name from a place that is no link is opening that place with the name. */
  lemma OneMore(fs: Fs, root: Path, parts: Path, k: nat, d: Path)
    requires RootReady(fs, root) && ValidPath(parts) && 0 < k <= |parts| && Stage(fs, root, parts, k - 1) == Ok(d)
    ensures EvalSymlinks(fs, d + [parts[k - 1]]).Ok? ==> EvalSymlinks(fs, d + [parts[k - 1]]).value in fs
    ensures Walk(fs, d, [parts[k - 1]], 0).Ok?
            ==> EvalSymlinks(fs, d + [parts[k - 1]]) == Walk(fs, d, [parts[k - 1]], 0)
  {
    StagePhysical(fs, root, parts, k - 1);
    ThroughPhysical(fs, d, parts[k - 1], 0);
    assert d[..0] == [] && (d + [parts[k - 1]])[0..] == d + [parts[k - 1]];
    if EvalSymlinks(fs, d + [parts[k - 1]]).Ok? {
      PhysicalEnd(fs, d + [parts[k - 1]]);
      PhysicalNames(fs, EvalSymlinks(fs, d + [parts[k - 1]]).value);
    }
  }

  lemma {:induction false} StagePhysical(fs: Fs, root: Path, parts: Path, k: nat)
    requires RootReady(fs, root) && k <= |parts| && Stage(fs, root, parts, k).Ok?
    ensures Physical(fs, Stage(fs, root, parts, k).value)
    decreases k
  {
    if k > 0 {
      PhysicalEnd(fs, Stage(fs, root, parts, k - 1).value + [parts[k - 1]]);
    }
  }

  lemma {:induction false} ThroughPhysical(fs: Fs, d: Path, name: Name, k: nat)
    requires WellFormed(fs) && Physical(fs, d) && k <= |d| && ValidName(name)
    ensures Walk(fs, d, [name], 0).Ok? ==> Walk(fs, d[..k], (d + [name])[k..], 0) == Walk(fs, d, [name], 0)
    decreases |d| - k
  {
    hide WellFormed, Physical;
    PhysicalNames(fs, d);
    if k == |d| {
      assert d[..k] == d && (d + [name])[k..] == [name];
    } else {
      var rest := (d + [name])[k..];
      assert rest[0] == d[k] && rest[1..] == (d + [name])[k + 1..] && d[..k] + [d[k]] == d[..k + 1];
      PhysicalPrefix(fs, d, k + 1);
      PhysicalNames(fs, d[..k + 1]);
      MissingExactly(fs, d, name);
      if k + 1 == |d| {
        assert d[..k + 1] == d;
      }
      Ancestors(fs, d, k + 1);
      ThroughPhysical(fs, d, name, k + 1);
    }
  }

  /** Wherever the kernel's lookup of the whole request, from the root, gets through and the resolver returns a
      path, it is the path that the lookup reaches. */
  lemma ResolveIsLookup(fs: Fs, root: Path, request: string)
    requires RootReady(fs, root)
    ensures var there := EvalSymlinks(fs, root + CleanRooted(Slashed(request)));
            var r := Resolve(fs, root, request);
            r.Ok? && there.Ok? ==> r == there
  {
    hide Resolve, Walk, LinksStayInside, EndsInDirectory;
    var parts := CleanRooted(Slashed(request));
    CleanIsValid(Split(Slashed(request)), []);
    if EvalSymlinks(fs, root + parts).Ok? {
      StageIsLookup(fs, root, parts, |parts|);
      var n := Depth(fs, root, parts, 0);
      if n < |parts| {
        StageIsLookup(fs, root, parts, n + 1);
      }
      ResolveExactly(fs, root, request);
      assert parts[|parts|..] == [];
      EmptyWalk(fs, Stage(fs, root, parts, |parts|).value);
    }
  }

  lemma EmptyWalk(fs: Fs, p: Path)
    requires p in fs
    ensures Walk(fs, p, [], 0) == Ok(p) && p + [] == p
  {
  }
}
