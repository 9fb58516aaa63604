/** copy.go: the recursion that writes the tree and bumps the counters it shares, and the two handlers. */
module Copier {
  import opened Copying
  import opened FileSystem
  import opened Paths
  import opened Resolver
  import opened Tree
  import opened UploadPlan

  const MAX_CANDIDATES := 10000

  function All(st: Progress, from: Fs, src: Path, dst: Path, list: seq<Path>): Progress
    requires Rooted(from, src, list)
  {
    CopyList(st, from, src, dst, list, |list|)
  }

  lemma {:induction false} CopyPrefix(st: Progress, from: Fs, src: Path, dst: Path, a: seq<Path>, b: seq<Path>, n: nat)
    requires Rooted(from, src, a) && Rooted(from, src, a + b) && n <= |a|
    ensures CopyList(st, from, src, dst, a + b, n) == CopyList(st, from, src, dst, a, n)
  {
    if n > 0 {
      CopyPrefix(st, from, src, dst, a, b, n - 1);
      assert (a + b)[n - 1] == a[n - 1];
    }
  }

  lemma {:induction false} CopyAppends(st: Progress, from: Fs, src: Path, dst: Path, a: seq<Path>, b: seq<Path>, n: nat)
    requires Rooted(from, src, a) && Rooted(from, src, b) && Rooted(from, src, a + b) && n <= |b|
    ensures CopyList(st, from, src, dst, a + b, |a| + n)
         == CopyList(All(st, from, src, dst, a), from, src, dst, b, n)
  {
    if n == 0 {
      CopyPrefix(st, from, src, dst, a, b, |a|);
    } else {
      CopyAppends(st, from, src, dst, a, b, n - 1);
      assert (a + b)[|a| + n - 1] == b[n - 1];
    }
  }

  lemma {:induction false} CopyStopped(st: Progress, from: Fs, src: Path, dst: Path, list: seq<Path>, n: nat)
    requires Rooted(from, src, list) && n <= |list| && !st.ok
    ensures CopyList(st, from, src, dst, list, n) == st
  {
    if n > 0 {
      CopyStopped(st, from, src, dst, list, n - 1);
    }
  }

  /** Copying one list after another, and stopping for good at the first error. */
  lemma CopyTwo(st: Progress, from: Fs, src: Path, dst: Path, a: seq<Path>, b: seq<Path>)
    requires Rooted(from, src, a) && Rooted(from, src, b)
    ensures Rooted(from, src, a + b)
    ensures All(st, from, src, dst, a + b) == All(All(st, from, src, dst, a), from, src, dst, b)
    ensures !All(st, from, src, dst, a).ok ==> All(st, from, src, dst, a + b) == All(st, from, src, dst, a)
  {
    CopyAppends(st, from, src, dst, a, b, |b|);
    var mid := All(st, from, src, dst, a);
    if !mid.ok {
      CopyStopped(mid, from, src, dst, b, |b|);
    }
  }

  lemma CopyOne(st: Progress, from: Fs, src: Path, dst: Path, q: Path)
    requires src <= q && q in from && st.ok
    ensures Rooted(from, src, [q]) && All(st, from, src, dst, [q]) == CopyEntry(st, from[q], Target(src, dst, q))
  {
    assert CopyList(st, from, src, dst, [q], 0) == st;
  }

  lemma {:induction false} ListingOfRooted(fs: Fs, top: Path, p: Path, names: seq<Name>, n: nat)
    requires p in fs && n <= |names| && forall i :: 0 <= i < |names| ==> p + [names[i]] in fs
    requires top <= p
    ensures Rooted(fs, top, ListingOf(fs, p, names, n))
    decreases Below(fs, p), 0, n
  {
    if n > 0 {
      var q := p + [names[n - 1]];
      assert p in Below(fs, p) && p !in Below(fs, q);
      ListingOfRooted(fs, top, p, names, n - 1);
      ListingRooted(fs, top, q);
    }
  }

  lemma {:induction false} ListingRooted(fs: Fs, top: Path, p: Path)
    requires p in fs && top <= p
    ensures Rooted(fs, top, Listing(fs, p))
    decreases Below(fs, p), 1, 0
  {
    ReadDirFacts(fs, p);
    if fs[p].Dir? {
      ListingOfRooted(fs, top, p, ReadDir(fs, p), |ReadDir(fs, p)|);
    }
  }

  /** What comes before entry `n` of a directory is a prefix of its whole listing. */
  lemma {:induction false} ListingOfPrefix(fs: Fs, p: Path, names: seq<Name>, n: nat, m: nat)
    requires p in fs && n <= m <= |names| && forall i :: 0 <= i < |names| ==> p + [names[i]] in fs
    ensures ListingOf(fs, p, names, n) <= ListingOf(fs, p, names, m)
    decreases m
  {
    hide Listing;
    if n < m {
      ListingOfPrefix(fs, p, names, n, m - 1);
      assert ListingOf(fs, p, names, m - 1) <= ListingOf(fs, p, names, m);
    }
  }

  /** The two trees agree at and below `top`. */
  ghost predicate SameBelow(from: Fs, now: Fs, top: Path) {
    forall q :: top <= q ==> (q in now <==> q in from) && (q in from ==> now[q] == from[q])
  }

  lemma SameReadDir(from: Fs, now: Fs, top: Path, p: Path)
    requires SameBelow(from, now, top) && top <= p
    ensures ReadDir(now, p) == ReadDir(from, p)
  {
    forall n ensures n in Children(now, p) <==> n in Children(from, p) {
      if n in Children(now, p) {
        var q :| q in now && |q| == |p| + 1 && p <= q && q[|p|] == n;
        assert q in from;
      }
      if n in Children(from, p) {
        var q :| q in from && |q| == |p| + 1 && p <= q && q[|p|] == n;
        assert q in now;
      }
    }
    assert Children(now, p) == Children(from, p);
  }

  lemma StaysSame(from: Fs, before: Fs, now: Fs, top: Path, into: Path)
    requires SameBelow(from, before, top) && ConfinedTo(before, now, into) && Apart(top, into)
    ensures SameBelow(from, now, top)
  {
    forall q | top <= q ensures (q in now <==> q in before) && (q in before ==> now[q] == before[q]) {
      if into <= q {
        PrefixesCompare(top, into, q);
      }
    }
  }

  class Copier {
    var fs: Fs
    var next: nat
    var files: nat
    var bytes: int

    constructor (fs: Fs, next: nat)
      ensures View(true) == Progress(fs, next, 0, 0, true)
    {
      this.fs, this.next, files, bytes := fs, next, 0, 0;
    }

    function View(ok: bool): Progress
      reads this
    {
      Progress(fs, next, files, bytes, ok)
    }

    method CopyFile(src: Path, dst: Path) returns (ok: bool)
      requires src in fs && fs[src].File?
      modifies this
      ensures View(ok) == CopyFileSpec(old(View(true)), old(fs)[src].data, dst)
    {
      if files >= COPY_MAX_FILES {
        return false;
      }
      var data := fs[src].data;
      if Wrap(bytes + |data|) > COPY_MAX_BYTES {
        return false;
      }
      if dst == [] || dst in fs || !IsDir(fs, Parent(dst)) {
        return false;
      }
      fs := fs[dst := File(next, data)];
      next := next + 1;
      files := files + 1;
      bytes := Wrap(bytes + |data|);
      return true;
    }

    method Mkdir(dst: Path) returns (ok: bool)
      modifies this
      ensures View(ok) == MakeDir(old(View(true)), dst)
    {
      if dst == [] || dst in fs || !IsDir(fs, Parent(dst)) {
        return false;
      }
      fs := fs[dst := Dir(next)];
      next := next + 1;
      return true;
    }

    /** The recursion copies the listing of `src` as it was in `from`, the tree when the copy of `top` to
        `into` began: what it writes never shows up in what it reads. */
    method CopyDir(src: Path, dst: Path, ghost from: Fs, ghost top: Path, ghost into: Path) returns (ok: bool)
      requires src in from && from[src].Dir? && top <= src && dst == Target(top, into, src)
      requires SameBelow(from, fs, top) && (dst in fs || Apart(top, into))
      modifies this
      ensures Rooted(from, top, Listing(from, src))
      ensures View(ok) == All(old(View(true)), from, top, into, Listing(from, src))
      ensures ok ==> SameBelow(from, fs, top)
      decreases Below(from, src)
    {
      hide CopyList, Listing, ListingOf, ReadDir, Rooted, SameBelow, ConfinedTo;
      ghost var start := View(true);
      FirstStep(start, from, top, into, src);
      ok := Mkdir(dst);
      if !ok {
        return;
      }
      CopyConfined(start, from, top, into, [src], 1);
      StaysSame(from, start.fs, fs, top, into);
      SameReadDir(from, fs, top, src);
      ReadDirFacts(from, src);
      var entries := ReadDir(fs, src);
      for i := 0 to |entries|
        invariant SameBelow(from, fs, top)
        invariant Rooted(from, top, Done(from, src, entries, i))
        invariant View(true) == All(start, from, top, into, Done(from, src, entries, i))
      {
        var srcChild, dstChild := src + [entries[i]], dst + [entries[i]];
        EntryStep(start, from, top, into, src, entries, i);
        SameEntry(from, fs, top, srcChild);
        if HasPrefix(entries[i], ".") || fs[srcChild].Link? {
          continue;
        }
        if fs[srcChild].Dir? {
          ok := CopyDir(srcChild, dstChild, from, top, into);
        } else {
          ok := CopyFileWithin(srcChild, dstChild, from, top, into);
        }
        if !ok {
          RestSkipped(start, from, top, into, src, entries, i + 1);
          return;
        }
      }
      DoneAll(from, src, entries);
      return true;
    }

    /** `copyPath` and the removal that the handlers follow a failure with. */
    method CopyPath(src: Path, dst: Path) returns (ok: bool)
      requires WellFormed(fs) && src in fs && !fs[src].Link?
      requires fs[src].Dir? ==> dst in fs || Apart(src, dst)
      modifies this
      ensures (fs, ok) == CopyOrRollBack(old(fs), old(next), src, dst)
    {
      hide CopyList, ReadDir, Rooted, SameBelow, WellFormed;
      files, bytes := 0, 0;
      ghost var start := View(true);
      ListingRange(fs, src, Listing(fs, src));
      if fs[src].Dir? {
        assert Target(src, dst, src) == dst;
        Itself(fs, src);
        ok := CopyDir(src, dst, fs, src, dst);
      } else {
        CopyOne(start, fs, src, dst, src);
        assert Listing(fs, src) == [src] && Target(src, dst, src) == dst;
        ok := CopyFile(src, dst);
      }
      if !ok {
        fs := RemoveAll(fs, dst);
      }
    }

    /** `handleCopy`. */
    method HandleCopy(root: Path, path: string, destDir: string, nanos: nat) returns (r: Result<Name>)
      requires RootReady(fs, root) && root != []
      modifies this
      ensures (fs, r) == HandleCopySpec(old(fs), old(next), root, path, destDir, nanos)
    {
      hide Resolve, Contained, WellFormed, CopyOrRollBack, CopyNameCandidate, FallbackName, UniqueName, EvalSymlinks;
      var source, target := Resolve(fs, root, path), Resolve(fs, root, destDir);
      ResolveContained(fs, root, path);
      ResolveContained(fs, root, destDir);
      if IsTrashPath(path) || IsTrashPath(destDir) || source.Err? || target.Err? {
        return Err(BadPath);
      }
      var src, dest := source.value, target.value;
      if !IsDir(fs, dest) || src !in fs {
        return Err(NotExist);
      }
      ResolvedEntry(fs, root, src);
      ResolvedEntry(fs, root, dest);
      if fs[src].Dir? && Inside(src, dest) {
        return Err(BadPath);
      }
      var name := Last(src);
      if src == dest + [name] {
        return Err(Exists);
      }
      var found := EvalSymlinks(fs, dest + [name]);
      if found.Ok? {
        name := UniqueCopyName(fs, dest, name, nanos);
      } else if found.error != NotExist {
        return Err(BadPath);
      }
      InsideMeans(fs, root, src, dest);
      CopyReady(fs, src, dest, name);
      var ok := CopyPath(src, dest + [name]);
      return if ok then Ok(name) else Err(Exists);
    }

    /** `handleDuplicate`. */
    method HandleDuplicate(root: Path, path: string, nanos: nat) returns (r: Result<Name>)
      requires RootReady(fs, root) && root != []
      modifies this
      ensures (fs, r) == HandleDuplicateSpec(old(fs), old(next), root, path, nanos)
    {
      hide Resolve, Contained, WellFormed, CopyOrRollBack, CopyNameCandidate, FallbackName, UniqueName, EvalSymlinks;
      var source := Resolve(fs, root, path);
      ResolveContained(fs, root, path);
      if IsTrashPath(path) || Trim(path, "/") == "" || source.Err? {
        return Err(BadPath);
      }
      var src := source.value;
      if src !in fs {
        return Err(NotExist);
      }
      ResolvedEntry(fs, root, src);
      var dir := Parent(src);
      var name := UniqueCopyName(fs, dir, Last(src), nanos);
      CopyReady(fs, src, dir, name);
      var ok := CopyPath(src, dir + [name]);
      return if ok then Ok(name) else Err(Exists);
    }

    /** The call of `copyFile` as a step of the recursion. */
    method CopyFileWithin(src: Path, dst: Path, ghost from: Fs, ghost top: Path, ghost into: Path) returns (ok: bool)
      requires src in from && from[src].File? && top <= src && dst == Target(top, into, src)
      requires SameBelow(from, fs, top) && Apart(top, into)
      modifies this
      ensures Rooted(from, top, Listing(from, src))
      ensures View(ok) == All(old(View(true)), from, top, into, Listing(from, src))
      ensures ok ==> SameBelow(from, fs, top)
    {
      ghost var before := View(true);
      SameEntry(from, fs, top, src);
      CopyOne(before, from, top, into, src);
      assert Listing(from, src) == [src];
      ok := CopyFile(src, dst);
      CopyConfined(before, from, top, into, [src], 1);
      StaysSame(from, before.fs, fs, top, into);
    }
  }

  // ---------------------------------------------------------------- the handlers

  /** The test against moving or copying a directory into itself. */
  predicate Inside(src: Path, dest: Path) {
    var rel := Rel(src, dest);
    rel != ".." && !HasPrefix(rel, "../")
  }

  /** `copyPath` under the given name, and its rollback. */
  ghost function CopyAs(fs: Fs, next: nat, src: Path, dir: Path, name: Name): (Fs, Result<Name>)
    requires WellFormed(fs) && src in fs
  {
    var (now, ok) := CopyOrRollBack(fs, next, src, dir + [name]);
    (now, if ok then Ok(name) else Err(Exists))
  }

  /** The name for the copy: the source's own, if nothing is found under it, or the first candidate. */
  function NameFor(fs: Fs, dest: Path, name: Name, nanos: nat): Name {
    if EvalSymlinks(fs, dest + [name]).Ok? then UniqueName(fs, dest, name, 0, nanos) else name
  }

  /** A refused request, or what is copied where and under which name. */
  datatype Choice = Refused(error: Error) | Chosen(src: Path, dir: Path, name: Name)

  /** The checks of `handleCopy`. */
  function CopyChoice(fs: Fs, root: Path, path: string, destDir: string, nanos: nat): (c: Choice)
    ensures c.Chosen? ==> c.src in fs && c.src != [] && IsDir(fs, c.dir)
  {
    var source, target := Resolve(fs, root, path), Resolve(fs, root, destDir);
    if IsTrashPath(path) || IsTrashPath(destDir) || source.Err? || target.Err? then Refused(BadPath)
    else
      var src, dest := source.value, target.value;
      if !IsDir(fs, dest) || src !in fs then Refused(NotExist)
      else if src == [] || (fs[src].Dir? && Inside(src, dest)) then Refused(BadPath)
      else if src == dest + [Last(src)] then Refused(Exists)
      else
        var found := EvalSymlinks(fs, dest + [Last(src)]);
        if found.Err? && found.error != NotExist then Refused(BadPath)
        else Chosen(src, dest, NameFor(fs, dest, Last(src), nanos))
  }

  /** The checks of `handleDuplicate`. */
  function DuplicateChoice(fs: Fs, root: Path, path: string, nanos: nat): (c: Choice)
    ensures c.Chosen? ==> c.src in fs && c.src != []
  {
    var source := Resolve(fs, root, path);
    if IsTrashPath(path) || Trim(path, "/") == "" || source.Err? then Refused(BadPath)
    else if source.value !in fs then Refused(NotExist)
    else if source.value == [] then Refused(BadPath)
    else
      var src := source.value;
      Chosen(src, Parent(src), UniqueName(fs, Parent(src), Last(src), 0, nanos))
  }

  /** The tree and the answer after `handleCopy`. */
  ghost function HandleCopySpec(fs: Fs, next: nat, root: Path, path: string, destDir: string,
                                nanos: nat): (Fs, Result<Name>)
    requires WellFormed(fs)
  {
    match CopyChoice(fs, root, path, destDir, nanos)
    case Refused(e) => (fs, Err(e))
    case Chosen(src, dir, name) => CopyAs(fs, next, src, dir, name)
  }

  /** The tree and the answer after `handleDuplicate`. */
  ghost function HandleDuplicateSpec(fs: Fs, next: nat, root: Path, path: string, nanos: nat): (Fs, Result<Name>)
    requires WellFormed(fs)
  {
    match DuplicateChoice(fs, root, path, nanos)
    case Refused(e) => (fs, Err(e))
    case Chosen(src, dir, name) => CopyAs(fs, next, src, dir, name)
  }

  lemma InsideMeans(fs: Fs, root: Path, src: Path, dest: Path)
    requires RootReady(fs, root) && src in fs && dest in fs
    ensures Inside(src, dest) <==> src <= dest
  {
    NamesValid(fs, src);
    NamesValid(fs, dest);
    RelDecidesContainment(src, dest);
  }

  /** What `CopyPath` asks for. */
  lemma CopyReady(fs: Fs, src: Path, dir: Path, name: Name)
    requires WellFormed(fs) && src in fs && (fs[src].Dir? ==> !(src <= dir))
    ensures fs[src].Dir? ==> dir + [name] in fs || Apart(src, dir + [name])
  {
    hide WellFormed;
    assert Parent(dir + [name]) == dir;
    if fs[src].Dir? && dir + [name] !in fs {
      CopyApart(fs, src, dir + [name]);
    }
  }

  /** A request that `handleCopy` passes on to the copy. */
  ghost predicate CopyAllowed(fs: Fs, root: Path, path: string, destDir: string) {
    && !IsTrashPath(path) && !IsTrashPath(destDir)
    && Resolve(fs, root, path).Ok? && Resolve(fs, root, destDir).Ok?
    && var src, dest := Resolve(fs, root, path).value, Resolve(fs, root, destDir).value;
       && src in fs && src != [] && IsDir(fs, dest) && !(fs[src].Dir? && src <= dest) && src != dest + [Last(src)]
       && (StatMissing(fs, dest + [Last(src)]) || EvalSymlinks(fs, dest + [Last(src)]).Ok?)
  }

  /** A copy succeeds exactly when the request is allowed, the source passes the limits, and nothing is at the
      chosen name; it is reported under that name and is the visible part of the source, and anything else
      leaves the tree alone unless a link that leads nowhere, or the clock-made name, was taken for free. */
  lemma HandleCopyExactly(fs: Fs, next: nat, root: Path, path: string, destDir: string, nanos: nat)
    requires RootReady(fs, root) && root != []
    ensures var (now, r) := HandleCopySpec(fs, next, root, path, destDir, nanos);
            if !CopyAllowed(fs, root, path, destDir) then r.Err? && now == fs
            else
              var src, dest := Resolve(fs, root, path).value, Resolve(fs, root, destDir).value;
              var name := NameFor(fs, dest, Last(src), nanos);
              && (r.Ok? <==> Passes(fs, src) && dest + [name] !in fs)
              && (r.Ok? ==> r.value == name && CopyOf(fs, src, now, dest + [name]))
              && (r.Err? ==> now == if dest + [name] in fs then RemoveAll(fs, dest + [name]) else fs)
              && (dest + [name] in fs ==> fs[dest + [name]].Link? || name == FallbackName(Last(src), nanos))
  {
    hide Resolve, Contained, WellFormed, Physical, CopyNameCandidate, FallbackName, UniqueName, EvalSymlinks, Rel,
      CopyOf, CopyOrRollBack, Passes;
    ResolveContained(fs, root, path);
    ResolveContained(fs, root, destDir);
    var source, target := Resolve(fs, root, path), Resolve(fs, root, destDir);
    if source.Ok? && target.Ok? && source.value in fs && IsDir(fs, target.value) {
      var src, dest := source.value, target.value;
      ResolvedEntry(fs, root, src);
      ResolvedEntry(fs, root, dest);
      InsideMeans(fs, root, src, dest);
      if CopyAllowed(fs, root, path, destDir) {
        ChosenName(fs, dest, Last(src), nanos);
        CopiedAs(fs, next, src, dest, NameFor(fs, dest, Last(src), nanos));
      }
    }
  }

  /** The same for a duplicate, which always looks for a candidate. */
  lemma HandleDuplicateExactly(fs: Fs, next: nat, root: Path, path: string, nanos: nat)
    requires RootReady(fs, root) && root != []
    ensures var (now, r) := HandleDuplicateSpec(fs, next, root, path, nanos);
            if IsTrashPath(path) || Trim(path, "/") == ""
               || Resolve(fs, root, path).Err? || Resolve(fs, root, path).value !in fs
            then r.Err? && now == fs
            else
              var src := Resolve(fs, root, path).value;
              src != [] &&
              var dir, name := Parent(src), UniqueName(fs, Parent(src), Last(src), 0, nanos);
              && (r.Ok? <==> Passes(fs, src) && dir + [name] !in fs)
              && (r.Ok? ==> r.value == name && CopyOf(fs, src, now, dir + [name]))
              && (r.Err? ==> now == if dir + [name] in fs then RemoveAll(fs, dir + [name]) else fs)
              && (dir + [name] in fs ==> fs[dir + [name]].Link? || name == FallbackName(Last(src), nanos))
  {
    hide Resolve, Contained, WellFormed, Physical, CopyNameCandidate, FallbackName, UniqueName, EvalSymlinks, CopyOf,
      CopyOrRollBack, Passes;
    ResolveContained(fs, root, path);
    var source := Resolve(fs, root, path);
    if source.Ok? && source.value in fs {
      var src := source.value;
      ResolvedEntry(fs, root, src);
      UniqueNameFree(fs, Parent(src), Last(src), 0, nanos);
      CopiedAs(fs, next, src, Parent(src), UniqueName(fs, Parent(src), Last(src), 0, nanos));
    }
  }

  lemma CopiedAs(fs: Fs, next: nat, src: Path, dir: Path, name: Name)
    requires WellFormed(fs) && src in fs && !fs[src].Link? && IsDir(fs, dir)
    ensures var (now, r) := CopyAs(fs, next, src, dir, name);
            && (r.Ok? <==> Passes(fs, src) && dir + [name] !in fs)
            && (r.Ok? ==> r.value == name && CopyOf(fs, src, now, dir + [name]))
            && (r.Err? ==> now == if dir + [name] in fs then RemoveAll(fs, dir + [name]) else fs)
  {
    hide WellFormed, CopyList, Listing, CopyOf, Passes;
    var dst := dir + [name];
    assert Parent(dst) == dir;
    if dst !in fs {
      CopyExactly(fs, next, src, dst);
    } else {
      TakenTarget(fs, next, src, dst);
    }
  }

  lemma TakenTarget(before: Fs, next: nat, src: Path, dst: Path)
    requires WellFormed(before) && src in before && dst in before
    ensures CopyOrRollBack(before, next, src, dst) == (RemoveAll(before, dst), false)
  {
    hide WellFormed;
    ListingRange(before, src, Listing(before, src));
    StopsAtOnce(Progress(before, next, 0, 0, true), before, src, dst, Listing(before, src), |Listing(before, src)|);
  }

  /** What `safePath` returned is an entry that can be copied, with its directory. */
  lemma ResolvedEntry(fs: Fs, root: Path, p: Path)
    requires RootReady(fs, root) && Contained(fs, root, p) && p in fs && root != []
    ensures p != [] && !fs[p].Link? && ValidName(Last(p)) && IsDir(fs, Parent(p))
    ensures Physical(fs, p) && Physical(fs, Parent(p))
  {
    hide WellFormed;
    InTree(fs, p);
    assert p[..|p|] == p;
    forall k | 0 <= k <= |p| ensures p[..k] in fs && !fs[p[..k]].Link? {
      Ancestors(fs, p, k);
    }
    PhysicalPrefix(fs, p, |p| - 1);
  }

  /** The chosen name is free, unless it is a link that leads nowhere or made from the clock. */
  lemma ChosenName(fs: Fs, dir: Path, name: Name, nanos: nat)
    requires WellFormed(fs) && Physical(fs, dir) && IsDir(fs, dir) && ValidName(name)
    requires StatMissing(fs, dir + [name]) || EvalSymlinks(fs, dir + [name]).Ok?
    ensures var r := NameFor(fs, dir, name, nanos);
            dir + [r] in fs ==> fs[dir + [r]].Link? || r == FallbackName(name, nanos)
  {
    hide WellFormed, Physical, EvalSymlinks, CopyNameCandidate, FallbackName, UniqueName;
    StatEntry(fs, dir, name);
    UniqueNameFree(fs, dir, name, 0, nanos);
  }

  lemma {:induction false} UniqueNameFree(fs: Fs, dir: Path, name: Name, k: nat, nanos: nat)
    requires WellFormed(fs) && Physical(fs, dir) && IsDir(fs, dir) && ValidName(name) && k <= MAX_CANDIDATES
    ensures var r := UniqueName(fs, dir, name, k, nanos);
            dir + [r] in fs ==> fs[dir + [r]].Link? || r == FallbackName(name, nanos)
    decreases MAX_CANDIDATES - k
  {
    hide WellFormed, Physical, EvalSymlinks, CopyNameCandidate, FallbackName;
    if k < MAX_CANDIDATES {
      if StatMissing(fs, dir + [CopyNameCandidate(name, k)]) {
        CandidateValid(name, k);
        StatEntry(fs, dir, CopyNameCandidate(name, k));
      } else {
        UniqueNameFree(fs, dir, name, k + 1, nanos);
      }
    }
  }

  /** A directory is never copied into itself. */
  lemma CopyApart(fs: Fs, src: Path, dst: Path)
    requires WellFormed(fs) && src in fs && dst !in fs && dst != [] && !(src <= Parent(dst))
    ensures Apart(src, dst)
  {
    hide WellFormed;
    NothingBelow(fs, dst, src);
    if src <= dst && src != dst {
      ParentPrefix(src, dst);
    }
  }

  lemma SameEntry(from: Fs, now: Fs, top: Path, q: Path)
    requires SameBelow(from, now, top) && top <= q
    ensures q in now <==> q in from
    ensures q in from ==> now[q] == from[q]
  {
  }

  lemma Itself(fs: Fs, top: Path)
    ensures SameBelow(fs, fs, top)
  {
  }

  /** The directory and what the first `n` of its entries contribute. */
  function Done(fs: Fs, p: Path, names: seq<Name>, n: nat): seq<Path>
    requires p in fs && n <= |names| && forall i :: 0 <= i < |names| ==> p + [names[i]] in fs
  {
    [p] + ListingOf(fs, p, names, n)
  }

  /** Making the directory is the first step of its listing, and without it there is no other. */
  lemma FirstStep(st: Progress, from: Fs, top: Path, into: Path, src: Path)
    requires IsDir(from, src) && top <= src && st.ok
    ensures Rooted(from, top, Listing(from, src)) && Rooted(from, top, [src])
    ensures forall i :: 0 <= i < |ReadDir(from, src)| ==> src + [ReadDir(from, src)[i]] in from
    ensures Done(from, src, ReadDir(from, src), 0) == [src]
    ensures var made := MakeDir(st, Target(top, into, src));
            && All(st, from, top, into, [src]) == made
            && (!made.ok ==> All(st, from, top, into, Listing(from, src)) == made)
  {
    var all := Listing(from, src);
    ReadDirFacts(from, src);
    ListingRooted(from, top, src);
    CopyOne(st, from, top, into, src);
    assert all == [src] + all[1..];
    CopyTwo(st, from, top, into, [src], all[1..]);
    assert [src] + [] == [src];
  }

  lemma DoneAll(fs: Fs, p: Path, names: seq<Name>)
    requires IsDir(fs, p) && names == ReadDir(fs, p)
    requires forall i :: 0 <= i < |names| ==> p + [names[i]] in fs
    ensures Done(fs, p, names, |names|) == Listing(fs, p)
  {
  }

  /** One entry of the directory: passed over, or its own listing appended. */
  lemma EntryStep(st: Progress, from: Fs, top: Path, into: Path, src: Path, names: seq<Name>, i: nat)
    requires IsDir(from, src) && top <= src && i < |names| && names == ReadDir(from, src)
    requires forall i :: 0 <= i < |names| ==> src + [names[i]] in from
    requires Rooted(from, top, Done(from, src, names, i))
    ensures var c := src + [names[i]];
            && top <= c && Target(top, into, c) == Target(top, into, src) + [names[i]]
            && Below(from, c) < Below(from, src)
            && Rooted(from, top, Done(from, src, names, i + 1))
            && (Skipped(from, c) ==> Done(from, src, names, i + 1) == Done(from, src, names, i))
            && (!Skipped(from, c) ==>
                  && Rooted(from, top, Listing(from, c))
                  && All(st, from, top, into, Done(from, src, names, i + 1))
                  == All(All(st, from, top, into, Done(from, src, names, i)), from, top, into, Listing(from, c)))
  {
    hide CopyList, Rooted, Listing, ReadDir;
    var c := src + [names[i]];
    var done := Done(from, src, names, i);
    assert src in Below(from, src) && src !in Below(from, c);
    assert c[|top|..] == src[|top|..] + [names[i]];
    if Skipped(from, c) {
      assert ListingOf(from, src, names, i) + [] == ListingOf(from, src, names, i);
    } else {
      ListingRooted(from, top, c);
      CopyTwo(st, from, top, into, done, Listing(from, c));
      assert done + Listing(from, c) == Done(from, src, names, i + 1);
    }
  }

  /** An error inside a directory ends the copy of its whole listing. */
  lemma RestSkipped(st: Progress, from: Fs, top: Path, into: Path, src: Path, names: seq<Name>, n: nat)
    requires IsDir(from, src) && top <= src && n <= |names| && names == ReadDir(from, src)
    requires forall i :: 0 <= i < |names| ==> src + [names[i]] in from
    requires var done := Done(from, src, names, n);
             Rooted(from, top, done) && !All(st, from, top, into, done).ok
    ensures Rooted(from, top, Listing(from, src))
    ensures All(st, from, top, into, Listing(from, src)) == All(st, from, top, into, Done(from, src, names, n))
  {
    hide CopyList, Listing, ListingOf, ReadDir;
    var done := Done(from, src, names, n);
    var all := Listing(from, src);
    ListingRooted(from, top, src);
    ListingOfPrefix(from, src, names, n, |names|);
    DoneAll(from, src, names);
    assert done <= all;
    assert all == done + all[|done|..];
    CopyTwo(st, from, top, into, done, all[|done|..]);
  }

  // ---------------------------------------------------------------- stat, and a free name

  lemma {:induction false} WalkTo(fs: Fs, p: Path, n: Name, k: nat)
    requires Physical(fs, p) && IsDir(fs, p) && WellFormed(fs) && ValidPath(p) && ValidName(n) && k <= |p|
    ensures Walk(fs, p[..k], p[k..] + [n], 0) == Walk(fs, p, [n], 0)
    decreases |p| - k
  {
    hide WellFormed;
    if k == |p| {
      assert p[..k] == p && p[k..] + [n] == [n];
    } else {
      Ancestors(fs, p, k + 1);
      assert (p[k..] + [n])[1..] == p[k + 1..] + [n] && p[..k] + [p[k]] == p[..k + 1];
      if k + 1 == |p| {
        assert p[..k + 1] == p;
      }
      WalkTo(fs, p, n, k + 1);
    }
  }

  /** In a real directory, `os.Stat` reports a name missing when there is no entry, and finds one that
      is not a link. (A link that leads nowhere is reported missing as well.) */
  lemma StatEntry(fs: Fs, dir: Path, n: Name)
    requires WellFormed(fs) && Physical(fs, dir) && IsDir(fs, dir) && ValidName(n)
    ensures dir + [n] !in fs ==> EvalSymlinks(fs, dir + [n]) == Err(NotExist)
    ensures dir + [n] in fs && !fs[dir + [n]].Link? ==> EvalSymlinks(fs, dir + [n]) == Ok(dir + [n])
  {
    hide WellFormed;
    NamesValid(fs, dir);
    WalkTo(fs, dir, n, 0);
    assert dir[..0] == [] && dir[0..] + [n] == dir + [n];
    if dir + [n] in fs && !fs[dir + [n]].Link? {
      assert Walk(fs, dir + [n], [], 0) == Ok(dir + [n]);
    }
  }

  lemma CandidateValid(name: string, n: nat)
    requires ValidName(name)
    ensures ValidName(CopyNameCandidate(name, n))
  {
    hide CopyNameCandidate, Ext;
    CandidateShape(name, n);
    MarkerFacts(n);
    var c := CopyNameCandidate(name, n);
    assert name == Stem(name) + Ext(name);
    if n == 0 {
      assert Stem(name) + "" + Ext(name) == name;
    } else {
      assert |c| >= 5 && forall x :: x in c ==> x in name || x in Marker(n);
    }
  }

  lemma MarkerFacts(n: nat)
    ensures n > 0 ==> |Marker(n)| >= 5
    ensures forall x :: x in Marker(n) ==> x != '/'
  {
    ValueOfDecimal(n);
    if n > 1 {
      assert Marker(n) == " copy " + Decimal(n);
    }
  }

  predicate StatMissing(fs: Fs, p: Path) {
    EvalSymlinks(fs, p) == Err(NotExist)
  }

  /** The fallback name after ten thousand taken ones; `nanos` is the clock. */
  function FallbackName(name: string, nanos: nat): string {
    name + " copy " + Decimal(nanos)
  }

  /** The first candidate from the k-th on that `os.Stat` reports missing, or the fallback. */
  function UniqueName(fs: Fs, dir: Path, name: string, k: nat, nanos: nat): string
    requires k <= MAX_CANDIDATES
    decreases MAX_CANDIDATES - k
  {
    if k == MAX_CANDIDATES then FallbackName(name, nanos)
    else if StatMissing(fs, dir + [CopyNameCandidate(name, k)]) then CopyNameCandidate(name, k)
    else UniqueName(fs, dir, name, k + 1, nanos)
  }

  method UniqueCopyName(fs: Fs, dir: Path, name: string, nanos: nat) returns (r: string)
    ensures r == UniqueName(fs, dir, name, 0, nanos)
  {
    hide StatMissing, CopyNameCandidate, FallbackName;
    for n := 0 to MAX_CANDIDATES
      invariant UniqueName(fs, dir, name, 0, nanos) == UniqueName(fs, dir, name, n, nanos)
    {
      r := CopyNameCandidate(name, n);
      if StatMissing(fs, dir + [r]) {
        return r;
      }
    }
    return FallbackName(name, nanos);
  }

  /** The candidate taken is the first that is reported missing; the fallback is for when none is. */
  lemma {:induction false} UniqueNameFirst(fs: Fs, dir: Path, name: string, k: nat, j: nat, nanos: nat)
    requires k <= j <= MAX_CANDIDATES
    requires forall i: nat :: k <= i < j ==> !StatMissing(fs, dir + [CopyNameCandidate(name, i)])
    requires j < MAX_CANDIDATES ==> StatMissing(fs, dir + [CopyNameCandidate(name, j)])
    ensures UniqueName(fs, dir, name, k, nanos)
         == if j < MAX_CANDIDATES then CopyNameCandidate(name, j) else FallbackName(name, nanos)
    decreases j - k
  {
    hide StatMissing, CopyNameCandidate, FallbackName;
    if k < j {
      UniqueNameFirst(fs, dir, name, k + 1, j, nanos);
    }
  }

  /** With fewer than ten thousand entries in the directory some candidate is reported missing, and where no
      entry is a link the one taken is free, so that a source within the limits is copied. */
  lemma LoopFindsName(fs: Fs, dir: Path, name: string, nanos: nat)
    requires WellFormed(fs) && Physical(fs, dir) && IsDir(fs, dir) && ValidName(name)
    requires |Children(fs, dir)| < MAX_CANDIDATES
    ensures exists k: nat :: k < MAX_CANDIDATES && StatMissing(fs, dir + [CopyNameCandidate(name, k)])
    ensures (forall n :: dir + [n] in fs ==> !fs[dir + [n]].Link?) ==>
              dir + [UniqueName(fs, dir, name, 0, nanos)] !in fs
  {
    hide WellFormed, Physical, EvalSymlinks, UniqueName, CopyNameCandidate;
    SomeCandidateFree(Children(fs, dir), name, MAX_CANDIDATES);
    var k: nat :| k < MAX_CANDIDATES && CopyNameCandidate(name, k) !in Children(fs, dir);
    var c := CopyNameCandidate(name, k);
    assert (dir + [c])[|dir|] == c && dir <= dir + [c];
    CandidateValid(name, k);
    StatEntry(fs, dir, c);
    assert StatMissing(fs, dir + [CopyNameCandidate(name, k)]);
    if forall n :: dir + [n] in fs ==> !fs[dir + [n]].Link? {
      MissingIsFree(fs, dir, name, 0, k, nanos);
    }
  }

  lemma {:induction false} MissingIsFree(fs: Fs, dir: Path, name: string, i: nat, k: nat, nanos: nat)
    requires WellFormed(fs) && Physical(fs, dir) && IsDir(fs, dir) && ValidName(name) && i <= k < MAX_CANDIDATES
    requires StatMissing(fs, dir + [CopyNameCandidate(name, k)]) && forall n :: dir + [n] in fs ==> !fs[dir + [n]].Link?
    ensures dir + [UniqueName(fs, dir, name, i, nanos)] !in fs
    decreases k - i
  {
    hide WellFormed, Physical, EvalSymlinks, CopyNameCandidate;
    CandidateValid(name, i);
    StatEntry(fs, dir, CopyNameCandidate(name, i));
    if !StatMissing(fs, dir + [CopyNameCandidate(name, i)]) {
      MissingIsFree(fs, dir, name, i + 1, k, nanos);
    }
  }
}
