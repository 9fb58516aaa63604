/** path.go: turning a request string into an absolute path inside the storage root,
    on a file system with symbolic links. */
module Resolver {
  import opened Paths
  import opened FileSystem

  const MAX_LINKS := 255

  /** Every prefix of `p` exists and none is a symbolic link. */
  ghost predicate Physical(fs: Fs, p: Path) {
    forall k :: 0 <= k <= |p| ==> p[..k] in fs && !fs[p[..k]].Link?
  }

  /** `filepath.EvalSymlinks`, walking the remaining pieces from an already resolved
      directory. The kernel's own lookup follows the same steps. */
  function Walk(fs: Fs, dest: Path, rest: seq<string>, links: nat): (r: Result<Path>)
    requires links <= MAX_LINKS
    decreases MAX_LINKS - links, |rest|
  {
    if rest == [] then if dest in fs then Ok(dest) else Err(NotExist)
    else if rest[0] == "" || rest[0] == "." then Walk(fs, dest, rest[1..], links)
    else if rest[0] == ".." then Walk(fs, if dest == [] then [] else Parent(dest), rest[1..], links)
    else
      var next := dest + [rest[0]];
      if next !in fs then Err(NotExist)
      else
        match fs[next]
        case Dir(_) => Walk(fs, next, rest[1..], links)
        case File(_, _) => if rest[1..] == [] then Ok(next) else Err(NotDir)
        case Link(_, target) =>
          if links == MAX_LINKS then Err(Loop)
          else
            Walk(fs, if HasPrefix(target, "/") then [] else dest, Split(target) + rest[1..], links + 1)
  }

  /** What opening the absolute path `p` reaches. */
  function EvalSymlinks(fs: Fs, p: Path): (r: Result<Path>) {
    Walk(fs, [], p, 0)
  }

  /** `withinRoot`. */
  predicate WithinRoot(root: Path, target: Path) {
    var rel := Rel(root, target);
    rel == "." || (rel != ".." && !HasPrefix(rel, "../"))
  }

  /** The verdict of `rejectHiddenUnderRoot` on the pieces of the relative path. */
  function HiddenVerdict(parts: seq<string>): (r: Result<()>) {
    if parts == [] then Ok(())
    else if parts[0] == "" || parts[0] == "." then HiddenVerdict(parts[1..])
    else if parts[0] == ".." then Err(Traversal)
    else if HasPrefix(parts[0], ".") then Err(HiddenPath)
    else HiddenVerdict(parts[1..])
  }

  function RejectHiddenSpec(root: Path, abs: Path): (r: Result<()>) {
    var rel := Rel(root, abs);
    if rel == "." then Ok(())
    else if rel == ".." || HasPrefix(rel, "../") then Err(Traversal)
    else HiddenVerdict(Split(rel))
  }

  method RejectHiddenUnderRoot(root: Path, abs: Path) returns (r: Result<()>)
    ensures r == RejectHiddenSpec(root, abs)
  {
    var rel := Rel(root, abs);
    if rel == "." {
      return Ok(());
    }
    if rel == ".." || HasPrefix(rel, "../") {
      return Err(Traversal);
    }
    var parts := Split(rel);
    for i := 0 to |parts|
      invariant HiddenVerdict(parts) == HiddenVerdict(parts[i..])
    {
      if parts[i] == ".." {
        return Err(Traversal);
      }
      if parts[i] != "" && parts[i] != "." && HasPrefix(parts[i], ".") {
        return Err(HiddenPath);
      }
    }
    return Ok(());
  }

  /** The component walk of `resolveUnderRoot`, from the resolved directory `current`. */
  function Descend(fs: Fs, root: Path, current: Path, parts: seq<string>): (r: Result<Path>)
    decreases |parts|
  {
    if parts == [] then
      match RejectHiddenSpec(root, current)
      case Err(e) => Err(e)
      case Ok(_) => Ok(current)
    else
      var next := current + [parts[0]];
      if !WithinRoot(root, next) then Err(Traversal)
      else
        match Lstat(fs, next)
        case Err(NotExist) =>
          var candidate := current + parts;
          if !WithinRoot(root, candidate) then Err(Traversal)
          else (match RejectHiddenSpec(root, candidate)
                case Err(e) => Err(e)
                case Ok(_) => Ok(candidate))
        case Err(_) => Err(BadPath)
        case Ok(Link(_, _)) =>
          (match EvalSymlinks(fs, next)
           case Err(_) => Err(BadPath)
           case Ok(resolved) =>
             if !WithinRoot(root, resolved) then Err(Traversal)
             else match RejectHiddenSpec(root, resolved)
               case Err(e) => Err(e)
               case Ok(_) => Descend(fs, root, resolved, parts[1..]))
        case Ok(_) => Descend(fs, root, next, parts[1..])
  }

  /** `resolveUnderRoot`, given the resolved storage root (`cachedRealRoot` or `EvalSymlinks`). */
  function Resolve(fs: Fs, root: Path, request: string): (r: Result<Path>) {
    if '\0' in request then Err(BadPath)
    else
      var parts := CleanRooted(Slashed(request));
      if parts == [] then Ok(root)
      else match HiddenVerdict(parts)
        case Err(e) => Err(e)
        case Ok(_) => Descend(fs, root, root, parts)
  }

  method ResolveUnderRoot(fs: Fs, root: Path, request: string) returns (r: Result<Path>)
    ensures r == Resolve(fs, root, request)
  {
    if '\0' in request {
      return Err(BadPath);
    }
    var parts := CleanRooted(Slashed(request));
    if parts == [] {
      return Ok(root);
    }
    for i := 0 to |parts|
      invariant HiddenVerdict(parts) == HiddenVerdict(parts[i..])
    {
      if parts[i] == ".." {
        return Err(Traversal);
      }
      if parts[i] != "" && parts[i] != "." && HasPrefix(parts[i], ".") {
        return Err(HiddenPath);
      }
    }
    var current := root;
    for i := 0 to |parts|
      invariant Descend(fs, root, root, parts) == Descend(fs, root, current, parts[i..])
    {
      var next := current + [parts[i]];
      if !WithinRoot(root, next) {
        return Err(Traversal);
      }
      var info := Lstat(fs, next);
      match info {
        case Err(NotExist) =>
          var candidate := current + parts[i..];
          if !WithinRoot(root, candidate) {
            return Err(Traversal);
          }
          var verdict := RejectHiddenUnderRoot(root, candidate);
          match verdict {
            case Err(e) => return Err(e);
            case Ok(_) => return Ok(candidate);
          }
        case Err(_) => return Err(BadPath);
        case Ok(Link(_, _)) =>
          var resolved := EvalSymlinks(fs, next);
          match resolved {
            case Err(_) => return Err(BadPath);
            case Ok(there) =>
              if !WithinRoot(root, there) {
                return Err(Traversal);
              }
              var verdict := RejectHiddenUnderRoot(root, there);
              if verdict.Err? {
                return Err(verdict.error);
              }
              current := there;
          }
        case Ok(_) => current := next;
      }
    }
    var verdict := RejectHiddenUnderRoot(root, current);
    match verdict {
      case Err(e) => return Err(e);
      case Ok(_) => return Ok(current);
    }
  }

  // ---------------------------------------------------------------- following links

  lemma PhysicalExtends(fs: Fs, p: Path, n: Name)
    requires Physical(fs, p) && p + [n] in fs && !fs[p + [n]].Link?
    ensures Physical(fs, p + [n])
  {
    var q := p + [n];
    forall k | 0 <= k <= |q| ensures q[..k] in fs && !fs[q[..k]].Link? {
      if k <= |p| {
        assert q[..k] == p[..k];
      } else {
        assert q[..k] == q;
      }
    }
  }

  lemma PhysicalPrefix(fs: Fs, p: Path, k: nat)
    requires Physical(fs, p) && k <= |p|
    ensures Physical(fs, p[..k])
  {
    forall j | 0 <= j <= k ensures p[..k][..j] in fs && !fs[p[..k][..j]].Link? {
      assert p[..k][..j] == p[..j];
    }
  }

  lemma RootIsPhysical(fs: Fs)
    requires WellFormed(fs)
    ensures Physical(fs, [])
  {
    var p: Path := [];
    assert forall k :: 0 <= k <= |p| ==> p[..k] == p;
  }

  /** Whatever link chain is followed, the walk ends on a physical path. */
  lemma {:induction false} WalkIsPhysical(fs: Fs, dest: Path, rest: seq<string>, links: nat)
    requires WellFormed(fs) && links <= MAX_LINKS && Physical(fs, dest)
    ensures var r := Walk(fs, dest, rest, links); r.Ok? ==> Physical(fs, r.value)
    decreases MAX_LINKS - links, |rest|
  {
    hide WellFormed, Physical, Split;
    if rest == [] {
    } else if rest[0] == "" || rest[0] == "." {
      WalkIsPhysical(fs, dest, rest[1..], links);
    } else if rest[0] == ".." {
      var up := if dest == [] then [] else Parent(dest);
      PhysicalPrefix(fs, dest, |up|);
      assert up == dest[..|up|];
      WalkIsPhysical(fs, up, rest[1..], links);
    } else {
      var next := dest + [rest[0]];
      if next in fs {
        if fs[next].Link? {
          if links < MAX_LINKS {
            RootIsPhysical(fs);
            var from := if HasPrefix(fs[next].target, "/") then [] else dest;
            WalkIsPhysical(fs, from, Split(fs[next].target) + rest[1..], links + 1);
          }
        } else {
          PhysicalExtends(fs, dest, rest[0]);
          if fs[next].Dir? {
            WalkIsPhysical(fs, next, rest[1..], links);
          }
        }
      }
    }
  }

  /** Opening a path none of whose existing prefixes is a link reaches that path or nothing. */
  lemma {:induction false} WalkStays(fs: Fs, p: Path, k: nat, links: nat)
    requires WellFormed(fs) && links <= MAX_LINKS && k <= |p| && ValidPath(p)
    requires NoLinkOn(fs, p)
    ensures var r := Walk(fs, p[..k], p[k..], links); r.Ok? ==> r == Ok(p)
    ensures p in fs ==> Walk(fs, p[..k], p[k..], links) == Ok(p)
    decreases |p| - k
  {
    if k < |p| {
      assert p[k..][1..] == p[k + 1..] && p[..k] + [p[k]] == p[..k + 1];
      if p in fs {
        Ancestors(fs, p, k + 1);
      }
      if k + 1 == |p| {
        assert p[..k + 1] == p;
      }
      WalkStays(fs, p, k + 1, links);
    } else {
      assert p[..k] == p;
    }
  }

  // ---------------------------------------------------------------- containment

  predicate NoneHidden(p: Path) {
    forall i :: 0 <= i < |p| ==> !Hidden(p[i])
  }

  lemma {:induction false} VerdictMeaning(parts: Path)
    requires ValidPath(parts)
    ensures HiddenVerdict(parts).Ok? <==> NoneHidden(parts)
    ensures HiddenVerdict(parts).Err? ==> HiddenVerdict(parts).error == HiddenPath
  {
    if parts != [] {
      VerdictMeaning(parts[1..]);
      assert HasPrefix(parts[0], ".") <==> Hidden(parts[0]);
    }
  }

  /** `withinRoot` is component-wise containment. */
  lemma WithinRootMeaning(root: Path, target: Path)
    requires ValidPath(root) && ValidPath(target)
    ensures WithinRoot(root, target) <==> root <= target
  {
    RelDecidesContainment(root, target);
  }

  /** `rejectHiddenUnderRoot` accepts exactly the contained paths without a dot-leading name below the root, and
      reports a traversal exactly for those that are not contained. */
  lemma RejectHiddenMeaning(root: Path, abs: Path)
    requires ValidPath(root) && ValidPath(abs)
    ensures RejectHiddenSpec(root, abs).Ok? <==> root <= abs && NoneHidden(abs[|root|..])
    ensures RejectHiddenSpec(root, abs) == Err(Traversal) <==> !(root <= abs)
  {
    RelDecidesContainment(root, abs);
    RelPrefix(root, abs);
    if root <= abs && root != abs {
      var parts := RelParts(root, abs);
      JoinedPath(parts);
      VerdictMeaning(parts);
    }
  }

  /** The storage root as startup leaves it: resolved, existing, a directory. */
  ghost predicate RootReady(fs: Fs, root: Path) {
    WellFormed(fs) && Physical(fs, root) && IsDir(fs, root)
  }

  predicate NoLinkOn(fs: Fs, p: Path) {
    forall k :: 0 <= k <= |p| && p[..k] in fs ==> !fs[p[..k]].Link?
  }

  /** The safety property: `p` lies in the root, below it no name starts with a dot, no
      existing prefix of it is a link, it exists or could be created, and opening it
      reaches `p` itself or nothing. */
  ghost predicate Contained(fs: Fs, root: Path, p: Path) {
    && root <= p
    && ValidPath(p)
    && NoneHidden(p[|root|..])
    && NoLinkOn(fs, p)
    && (p in fs || Lstat(fs, p) == Err(NotExist))
    && (EvalSymlinks(fs, p).Ok? ==> EvalSymlinks(fs, p) == Ok(p))
  }

  lemma {:induction false} StillMissing(fs: Fs, p: Path, tail: Path)
    requires Lstat(fs, p) == Err(NotExist)
    ensures Lstat(fs, p + tail) == Err(NotExist)
    decreases |tail|
  {
    if tail == [] {
      assert p + tail == p;
    } else {
      StillMissing(fs, p, Parent(tail));
      assert Parent(p + tail) == p + Parent(tail);
    }
  }

  lemma NoLinkBeyond(fs: Fs, current: Path, tail: Path)
    requires WellFormed(fs) && Physical(fs, current)
    requires tail == [] || current + [tail[0]] !in fs
    ensures NoLinkOn(fs, current + tail)
  {
    hide WellFormed;
    var p := current + tail;
    forall k | 0 <= k <= |p| && p[..k] in fs ensures !fs[p[..k]].Link? {
      if k <= |current| {
        assert p[..k] == current[..k];
      } else {
        var q := p[..k];
        assert q[..|current| + 1] == current + [tail[0]];
        Ancestors(fs, q, |current| + 1);
      }
    }
  }

  lemma CouldExist(fs: Fs, current: Path, tail: Path)
    requires WellFormed(fs) && current in fs
    requires tail == [] || Lstat(fs, current + [tail[0]]) == Err(NotExist)
    ensures current + tail in fs || Lstat(fs, current + tail) == Err(NotExist)
  {
    if tail == [] {
      assert current + tail == current;
    } else {
      var next, rest := current + [tail[0]], tail[1..];
      assert next + rest == current + tail;
      StillMissing(fs, next, rest);
    }
  }

  lemma ContainedFrom(fs: Fs, root: Path, current: Path, tail: Path)
    requires WellFormed(fs) && Physical(fs, current) && root <= current && ValidPath(tail)
    requires NoneHidden((current + tail)[|root|..])
    requires tail == [] || Lstat(fs, current + [tail[0]]) == Err(NotExist)
    ensures Contained(fs, root, current + tail)
  {
    var p := current + tail;
    assert current in fs && ValidPath(current) by {
      assert current[..|current|] == current;
      NamesValid(fs, current);
    }
    if tail != [] {
      LstatPresent(fs, current + [tail[0]]);
    }
    NoLinkBeyond(fs, current, tail);
    CouldExist(fs, current, tail);
    assert ValidPath(p);
    OpensItself(fs, p);
  }

  lemma OpensItself(fs: Fs, p: Path)
    requires WellFormed(fs) && ValidPath(p) && NoLinkOn(fs, p)
    ensures EvalSymlinks(fs, p).Ok? ==> EvalSymlinks(fs, p) == Ok(p)
    ensures p in fs ==> EvalSymlinks(fs, p) == Ok(p)
  {
    WalkStays(fs, p, 0, 0);
    assert p[..0] == [] && p[0..] == p;
  }

  lemma {:induction false} DescendContained(fs: Fs, root: Path, current: Path, parts: Path)
    requires RootReady(fs, root) && Physical(fs, current) && root <= current && ValidPath(parts)
    ensures var r := Descend(fs, root, current, parts); r.Ok? ==> Contained(fs, root, r.value)
    decreases |parts|
  {
    assert current[..|current|] == current && root[..|root|] == root;
    NamesValid(fs, current);
    NamesValid(fs, root);
    if parts == [] {
      RejectHiddenMeaning(root, current);
      if NoneHidden(current[|root|..]) {
        assert current + [] == current;
        ContainedFrom(fs, root, current, []);
      }
    } else {
      var next := current + [parts[0]];
      LstatPresent(fs, next);
      if Lstat(fs, next) == Err(NotExist) {
        RejectHiddenMeaning(root, current + parts);
        if NoneHidden((current + parts)[|root|..]) {
          ContainedFrom(fs, root, current, parts);
        }
      } else if next in fs && fs[next].Link? {
        PhysicalPrefix(fs, current, 0);
        assert current[..0] == [];
        WalkIsPhysical(fs, [], next, 0);
        var resolved := EvalSymlinks(fs, next);
        if resolved.Ok? {
          assert resolved.value[..|resolved.value|] == resolved.value;
          NamesValid(fs, resolved.value);
          WithinRootMeaning(root, resolved.value);
          if root <= resolved.value {
            DescendContained(fs, root, resolved.value, parts[1..]);
          }
        }
      } else if next in fs {
        PhysicalExtends(fs, current, parts[0]);
        DescendContained(fs, root, next, parts[1..]);
      }
    }
  }

  /** For every request and every file system: what `resolveUnderRoot` returns is contained. */
  lemma ResolveContained(fs: Fs, root: Path, request: string)
    requires RootReady(fs, root)
    ensures var r := Resolve(fs, root, request); r.Ok? ==> Contained(fs, root, r.value)
  {
    var parts := CleanRooted(Slashed(request));
    CleanIsValid(Split(Slashed(request)), []);
    if parts == [] {
      assert root + [] == root && root[..|root|] == root;
      ContainedFrom(fs, root, root, []);
    } else {
      DescendContained(fs, root, root, parts);
    }
  }

  // ---------------------------------------------------------------- lexical agreement

  lemma {:induction false} SplitAvoids(s: string, c: char)
    requires c !in s
    ensures forall i :: 0 <= i < |Split(s)| ==> c !in Split(s)[i]
  {
    if s != "" {
      assert s[0] in s && forall x :: x in s[1..] ==> x in s;
      SplitAvoids(s[1..], c);
    }
  }

  lemma {:induction false} CleanAvoids(parts: seq<string>, stack: Path, c: char)
    requires forall i :: 0 <= i < |parts| ==> c !in parts[i]
    requires forall i :: 0 <= i < |stack| ==> c !in stack[i]
    ensures forall i :: 0 <= i < |CleanParts(parts, stack)| ==> c !in CleanParts(parts, stack)[i]
    decreases |parts|
  {
    if parts == [] {
    } else if parts[0] == "" || parts[0] == "." {
      CleanAvoids(parts[1..], stack, c);
    } else if parts[0] == ".." {
      CleanAvoids(parts[1..], if stack == [] then [] else stack[..|stack| - 1], c);
    } else {
      CleanAvoids(parts[1..], stack + [parts[0]], c);
    }
  }

  /** The names a request can address carry no backslash, no slash and no NUL. */
  lemma RequestNames(request: string)
    requires '\0' !in request
    ensures var parts := CleanRooted(Slashed(request)); ValidPath(parts) && (NoneHidden(parts) <==> UserPath(parts))
  {
    var s := Slashed(request);
    var parts := CleanRooted(s);
    CleanIsValid(Split(s), []);
    SplitAvoids(s, '\\');
    CleanAvoids(Split(s), [], '\\');
    SplitAvoids(s, '\0');
    CleanAvoids(Split(s), [], '\0');
    forall i | 0 <= i < |parts| ensures UserName(parts[i]) <==> !Hidden(parts[i]) {
      assert ValidName(parts[i]);
    }
  }

  /** A user path spelled canonically cleans to itself. */
  lemma RequestCanonical(q: Path)
    requires UserPath(q)
    ensures CleanRooted(Slashed(Join(q))) == q
    ensures '\0' !in Join(q)
  {
    NotInJoin(q, '\\');
    NotInJoin(q, '\0');
    SlashedPlain(Join(q));
    if q != [] {
      SplitJoin(q);
      CleanNames(q, []);
    }
  }

  /** One lexical step: an existing component is entered, a missing one ends the walk. */
  lemma LexicalStep(fs: Fs, root: Path, current: Path, tail: Path)
    requires RootReady(fs, root) && root <= current && current in fs && tail != []
    requires ValidPath(current + tail) && ValidPath(current + [tail[0]]) && ValidPath(root)
    requires current + [tail[0]] in fs ==> !fs[current + [tail[0]]].Link?
    ensures var next := current + [tail[0]];
            Descend(fs, root, current, tail) ==
            if next in fs then Descend(fs, root, next, tail[1..])
            else if Lstat(fs, next) != Err(NotExist) then Err(BadPath)
            else match RejectHiddenSpec(root, current + tail)
                 case Err(e) => Err(e)
                 case Ok(_) => Ok(current + tail)
  {
    WithinRootMeaning(root, current + [tail[0]]);
    WithinRootMeaning(root, current + tail);
    LstatPresent(fs, current + [tail[0]]);
  }

  lemma OnTheWay(fs: Fs, p: Path, current: Path, tail: Path)
    requires p == current + tail && tail != [] && ValidPath(p) && NoLinkOn(fs, p)
    ensures var next := current + [tail[0]];
            next + tail[1..] == p && ValidPath(next) && (next in fs ==> !fs[next].Link?)
  {
    assert current + [tail[0]] == p[..|current| + 1];
  }

  /** Without a link on the way the descent is purely lexical. */
  lemma {:induction false} DescendLexical(fs: Fs, root: Path, p: Path, current: Path, tail: Path)
    requires RootReady(fs, root) && ValidPath(root) && root <= current && current in fs
    requires p == current + tail && ValidPath(p) && NoLinkOn(fs, p)
    ensures var r := Descend(fs, root, current, tail);
            && (r.Ok? <==> NoneHidden(p[|root|..]) && (p in fs || Lstat(fs, p) == Err(NotExist)))
            && (r.Ok? ==> r.value == p)
    decreases |tail|
  {
    RejectHiddenMeaning(root, p);
    if tail == [] {
      assert p == current;
    } else {
      OnTheWay(fs, p, current, tail);
      var next := current + [tail[0]];
      LexicalStep(fs, root, current, tail);
      if next in fs {
        DescendLexical(fs, root, p, next, tail[1..]);
      } else {
        LstatPresent(fs, p);
        LstatPresent(fs, next);
        Unreachable(fs, next, tail[1..]);
      }
    }
  }

  lemma {:induction false} Unreachable(fs: Fs, p: Path, tail: Path)
    requires Lstat(fs, p).Err?
    ensures Lstat(fs, p + tail) == Lstat(fs, p)
    decreases |tail|
  {
    if tail == [] {
      assert p + tail == p;
    } else {
      Unreachable(fs, p, Parent(tail));
      assert Parent(p + tail) == p + Parent(tail);
    }
  }

  /** On a tree without links below the root, `resolveUnderRoot` is root plus the cleaned
      request: it refuses exactly a NUL, a dot-leading name, or a file used as a directory. */
  lemma ResolveLexical(fs: Fs, root: Path, request: string)
    requires RootReady(fs, root)
    requires forall p :: p in fs && root <= p ==> !fs[p].Link?
    ensures var parts := CleanRooted(Slashed(request));
            var p := root + parts;
            && (Resolve(fs, root, request).Ok? <==>
                '\0' !in request && UserPath(parts) && (p in fs || Lstat(fs, p) == Err(NotExist)))
            && (Resolve(fs, root, request).Ok? ==> Resolve(fs, root, request) == Ok(p))
  {
    var parts := CleanRooted(Slashed(request));
    var p := root + parts;
    if '\0' !in request {
      RequestNames(request);
      VerdictMeaning(parts);
      assert root[..|root|] == root;
      NamesValid(fs, root);
      if parts == [] {
        assert p == root;
      } else if NoneHidden(parts) {
        forall k | 0 <= k <= |p| && p[..k] in fs ensures !fs[p[..k]].Link? {
          if k <= |root| {
            assert p[..k] == root[..k];
          }
        }
        assert p[..|root|] == root && p[|root|..] == parts;
        DescendLexical(fs, root, p, root, p[|root|..]);
      }
    }
  }

  // ---------------------------------------------------------------- resolving twice

  /** A contained path whose names hold no backslash and no NUL resolves to itself. */
  lemma ResolveStable(fs: Fs, root: Path, p: Path)
    requires RootReady(fs, root) && Contained(fs, root, p) && UserPath(p[|root|..])
    ensures Resolve(fs, root, Join(p[|root|..])) == Ok(p)
  {
    var q := p[|root|..];
    RequestCanonical(q);
    assert root + q == p && root[..|root|] == root;
    if q == [] {
      assert p == root;
    } else {
      VerdictMeaning(q);
      NamesValid(fs, root);
      DescendLexical(fs, root, p, root, p[|root|..]);
    }
  }

  /** Resolving the returned path again returns it. */
  ghost predicate ResolvesTwice(q: Path) {
    forall fs: Fs, root: Path, request: string ::
      RootReady(fs, root) && Resolve(fs, root, request) == Ok(root + q)
      ==> Resolve(fs, root, Join(q)) == Ok(root + q)
  }

  /** A tree with the single chain of directories `q` and a link `l` to its end. */
  ghost function ChainWithLink(q: Path, l: Name): Fs {
    map p: Path | p in (set k | 0 <= k <= |q| :: q[..k]) + {[l]} ::
      if p == [l] then Link(|q| + 1, "/" + Join(q)) else Dir(|p|)
  }

  function LongName(n: nat): (l: Name)
    ensures |l| > n && UserName(l)
  {
    var l := seq(n + 1, i => 'k');
    assert l[0] == 'k';
    l
  }

  /** Resolution is idempotent exactly for the results whose relative path holds no
      backslash. A directory whose name holds one can be the target of a link, but no
      request can spell it. */
  lemma IdempotentExactly(q: Path)
    requires ValidPath(q) && NoneHidden(q) && forall i :: 0 <= i < |q| ==> '\0' !in q[i]
    ensures ResolvesTwice(q) <==> '\\' !in Join(q)
  {
    if '\\' !in Join(q) {
      IdempotentPlain(q);
    } else {
      NotInJoin(q, '\0');
      BackslashCounterexample(q);
    }
  }

  lemma IdempotentPlain(q: Path)
    requires ValidPath(q) && NoneHidden(q) && '\\' !in Join(q)
    requires forall i :: 0 <= i < |q| ==> '\0' !in q[i]
    ensures ResolvesTwice(q)
  {
    PiecesAvoid(q, '\\');
    assert UserPath(q);
    forall fs: Fs, root: Path, request: string
      | RootReady(fs, root) && Resolve(fs, root, request) == Ok(root + q)
      ensures Resolve(fs, root, Join(q)) == Ok(root + q)
    {
      var p := root + q;
      ResolveContained(fs, root, request);
      assert p[|root|..] == q;
      ResolveStable(fs, root, p);
    }
  }

  lemma {:induction false} PiecesAvoid(q: Path, c: char)
    requires c !in Join(q)
    ensures forall i :: 0 <= i < |q| ==> c !in q[i]
  {
    if |q| > 1 {
      assert forall x :: x in Join(q[1..]) ==> x in Join(q);
      PiecesAvoid(q[1..], c);
    }
  }

  lemma BackslashCounterexample(q: Path)
    requires ValidPath(q) && NoneHidden(q) && '\\' in Join(q)
    requires '\0' !in Join(q)
    ensures !ResolvesTwice(q)
  {
    var l := LongName(|Join(q)|);
    var fs := ChainWithLink(q, l);
    ChainReady(q, l);
    LinkResolves(q, l);
    assert [] + q == q;
    // the second resolution never meets the link
    var parts := CleanRooted(Slashed(Join(q)));
    RequestNames(Join(q));
    VerdictMeaning(parts);
    if parts != [] && NoneHidden(parts) {
      SplitLengths(Slashed(Join(q)));
      PieceLengths(Split(Slashed(Join(q))), [], |Join(q)|);
      forall k | 0 <= k <= |parts| && parts[..k] in fs ensures !fs[parts[..k]].Link? {
      }
      assert [] + parts == parts;
      DescendLexical(fs, [], parts, [], parts);
    }
    if parts == q {
      NotInJoin(q, '\\');
    }
    assert Resolve(fs, [], Join(q)) != Ok([] + q);
    assert Resolve(fs, [], l) == Ok([] + q);
  }

  lemma {:induction false} SplitLengths(s: string)
    ensures forall i :: 0 <= i < |Split(s)| ==> |Split(s)[i]| <= |s|
  {
    if s != "" {
      SplitLengths(s[1..]);
    }
  }

  lemma {:induction false} PieceLengths(parts: seq<string>, stack: Path, n: nat)
    requires forall i :: 0 <= i < |parts| ==> |parts[i]| <= n
    requires forall i :: 0 <= i < |stack| ==> |stack[i]| <= n
    ensures forall i :: 0 <= i < |CleanParts(parts, stack)| ==> |CleanParts(parts, stack)[i]| <= n
    decreases |parts|
  {
    if parts == [] {
    } else if parts[0] == "" || parts[0] == "." {
      PieceLengths(parts[1..], stack, n);
    } else if parts[0] == ".." {
      PieceLengths(parts[1..], if stack == [] then [] else stack[..|stack| - 1], n);
    } else {
      PieceLengths(parts[1..], stack + [parts[0]], n);
    }
  }

  lemma ChainReady(q: Path, l: Name)
    requires ValidPath(q) && |l| > |Join(q)| && ValidName(l)
    ensures RootReady(ChainWithLink(q, l), [])
    ensures forall k :: 0 <= k <= |q| ==> q[..k] in ChainWithLink(q, l) && ChainWithLink(q, l)[q[..k]].Dir?
  {
    var fs := ChainWithLink(q, l);
    assert q[..0] == [];
    if q != [] {
      FirstPieceLength(q);
    }
    forall k | 0 <= k <= |q| ensures q[..k] in fs && fs[q[..k]].Dir? {
      if k > 0 {
        assert q[..k][0] == q[0];
      }
    }
    forall p | p in fs && p != [] ensures ValidName(Last(p)) && IsDir(fs, Parent(p)) {
      if p == [l] {
        assert Parent(p) == [];
      } else {
        var k :| 0 <= k <= |q| && p == q[..k];
        assert Parent(p) == q[..k - 1];
      }
    }
  }

  lemma FirstPieceLength(q: Path)
    requires q != []
    ensures |q[0]| <= |Join(q)|
  {
  }

  lemma AbsolutePieces(q: Path)
    requires q != [] && NoSlashes(q)
    ensures Split("/" + Join(q)) == [""] + q
  {
    SplitConcat("", Join(q));
    assert "" + "/" + Join(q) == "/" + Join(q);
    SplitJoin(q);
  }

  lemma LinkTarget(q: Path, l: Name)
    requires ValidPath(q) && q != [] && |l| > |Join(q)| && UserName(l)
    ensures EvalSymlinks(ChainWithLink(q, l), [l]) == Ok(q)
  {
    var fs := ChainWithLink(q, l);
    ChainReady(q, l);
    AbsolutePieces(q);
    assert Walk(fs, [], q, 1) == Ok(q) by {
      assert NoLinkOn(fs, q) && q[..|q|] == q;
      WalkStays(fs, q, 0, 1);
      assert q[..0] == [] && q[0..] == q;
    }
    var pieces := Split("/" + Join(q)) + [l][1..];
    assert pieces == [""] + q;
    assert pieces[1..] == q;
    assert Walk(fs, [], pieces, 1) == Ok(q);
    assert [] + [l] == [l] && fs[[l]] == Link(|q| + 1, "/" + Join(q));
  }

  lemma LinkResolves(q: Path, l: Name)
    requires ValidPath(q) && NoneHidden(q) && q != [] && |l| > |Join(q)| && UserName(l)
    ensures Resolve(ChainWithLink(q, l), [], l) == Ok(q)
  {
    var fs := ChainWithLink(q, l);
    assert UserPath([l]) && Join([l]) == l;
    ChainReady(q, l);
    RequestCanonical([l]);
    VerdictMeaning([l]);
    LinkTarget(q, l);
    assert [] + [l] == [l] && [l][1..] == [];
    WithinRootMeaning([], [l]);
    LstatPresent(fs, [l]);
    WithinRootMeaning([], q);
    RejectHiddenMeaning([], q);
    assert q[0..] == q;
    assert Descend(fs, [], q, []) == Ok(q);
    assert Descend(fs, [], [], [l]) == Descend(fs, [], q, [l][1..]);
  }

  // ---------------------------------------------------------------- the storage root

  /** The pair that `configureStorageRoot` remembers: the absolute directory and what it resolved to. */
  datatype RootCache = Unset | Cached(abs: Path, resolved: Path)

  method ConfigureStorageRoot(fs: Fs, abs: Path, previous: RootCache) returns (cache: RootCache, r: Result<()>)
    ensures r.Ok? <==> EvalSymlinks(fs, abs).Ok?
    ensures r.Ok? ==> cache.Cached? && cache.abs == abs && EvalSymlinks(fs, abs) == Ok(cache.resolved)
    ensures r.Err? ==> cache == previous
  {
    var resolved := EvalSymlinks(fs, abs);
    match resolved {
      case Err(e) => return previous, Err(e);
      case Ok(there) => return Cached(abs, there), Ok(());
    }
  }

  /** `cachedRealRoot` with its fallback to a live `EvalSymlinks`. */
  function RealRoot(fs: Fs, abs: Path, cache: RootCache): (r: Result<Path>) {
    if cache.Cached? && cache.abs == abs then Ok(cache.resolved) else EvalSymlinks(fs, abs)
  }

  /** `safePath`: the whole resolution, starting from the configured directory. */
  function SafePath(fs: Fs, abs: Path, cache: RootCache, request: string): (r: Result<Path>) {
    match RealRoot(fs, abs, cache)
    case Err(_) => Err(BadPath)
    case Ok(root) => Resolve(fs, root, request)
  }

  /** With the cache filled from the same tree, or not filled, `safePath` stays in the directory
      that the configured root stands for. */
  lemma SafePathContained(fs: Fs, abs: Path, cache: RootCache, request: string)
    requires WellFormed(fs)
    requires cache.Cached? ==> EvalSymlinks(fs, cache.abs) == Ok(cache.resolved)
    requires EvalSymlinks(fs, abs).Ok? ==> IsDir(fs, EvalSymlinks(fs, abs).value)
    ensures SafePath(fs, abs, cache, request).Ok? ==>
              EvalSymlinks(fs, abs).Ok? &&
              Contained(fs, EvalSymlinks(fs, abs).value, SafePath(fs, abs, cache, request).value)
  {
    if EvalSymlinks(fs, abs).Ok? {
      var root := EvalSymlinks(fs, abs).value;
      RootIsPhysical(fs);
      WalkIsPhysical(fs, [], abs, 0);
      assert RealRoot(fs, abs, cache) == Ok(root);
      ResolveContained(fs, root, request);
    }
  }
}
