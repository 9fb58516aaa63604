/** copy.go in a tree without links: when a copy succeeds, and when it takes away what was there before. */
module ArchiveCopies {
  import opened Archive
  import opened ArchiveEffects
  import opened ArchiveFollows
  import opened ArchiveOutcomes
  import opened ArchiveRuns
  import opened ArchiveSteps
  import opened ArchiveTheorems
  import opened ArchiveTrash
  import opened Copier
  import opened Copying
  import opened FileSystem
  import opened Paths
  import opened Resolver
  import opened Tree
  import UploadPlan

  // ---------------------------------------------------------------- the name that is chosen

  /** Each of the ten thousand names has an entry, and so has the one made from the clock. */
  ghost predicate AllTaken(fs: Fs, dir: Path, name: Name, k: nat, nanos: nat) {
    && (forall j: nat :: k <= j < MAX_CANDIDATES ==> dir + [CopyNameCandidate(name, j)] in fs)
    && dir + [FallbackName(name, nanos)] in fs
  }

  lemma StatInTree(fs: Fs, next: nat, dir: Path, n: Name)
    requires TreeOk(fs, next) && IsDir(fs, dir) && ValidName(n)
    ensures dir + [n] in fs ==> EvalSymlinks(fs, dir + [n]).Ok?
    ensures dir + [n] !in fs ==> EvalSymlinks(fs, dir + [n]) == Err(NotExist)
  {
    hide WellFormed, UniqueInos, EvalSymlinks;
    forall k | 0 <= k <= |dir| ensures dir[..k] in fs && !fs[dir[..k]].Link? {
      Ancestors(fs, dir, k);
    }
    StatEntry(fs, dir, n);
  }

  /** The name found is taken exactly when all are, and then it is the one made from the clock. */
  lemma {:induction false} FoundTaken(fs: Fs, next: nat, dir: Path, name: Name, k: nat, nanos: nat)
    requires TreeOk(fs, next) && IsDir(fs, dir) && ValidName(name) && k <= MAX_CANDIDATES
    ensures dir + [UniqueName(fs, dir, name, k, nanos)] in fs <==> AllTaken(fs, dir, name, k, nanos)
    ensures AllTaken(fs, dir, name, k, nanos) ==> UniqueName(fs, dir, name, k, nanos) == FallbackName(name, nanos)
    decreases MAX_CANDIDATES - k
  {
    hide TreeOk, IsDir, ValidName, EvalSymlinks, CopyNameCandidate, FallbackName;
    if k < MAX_CANDIDATES {
      CandidateValid(name, k);
      StatInTree(fs, next, dir, CopyNameCandidate(name, k));
      if dir + [CopyNameCandidate(name, k)] in fs {
        FoundTaken(fs, next, dir, name, k + 1, nanos);
      }
    }
  }

  /** A copy tries the source's own name first, which is the first of the candidates as well. */
  lemma NamedTaken(fs: Fs, next: nat, dir: Path, name: Name, nanos: nat)
    requires TreeOk(fs, next) && IsDir(fs, dir) && ValidName(name)
    ensures dir + [NameFor(fs, dir, name, nanos)] in fs <==> AllTaken(fs, dir, name, 0, nanos)
    ensures AllTaken(fs, dir, name, 0, nanos) ==> NameFor(fs, dir, name, nanos) == FallbackName(name, nanos)
  {
    hide TreeOk, IsDir, ValidName, EvalSymlinks, FallbackName, UniqueName;
    StatInTree(fs, next, dir, name);
    assert CopyNameCandidate(name, 0) == name;
    FoundTaken(fs, next, dir, name, 0, nanos);
  }

  // ---------------------------------------------------------------- what a copy leaves

  /** The entry is gone or is another one. */
  predicate Lost(w: World, w': World, q: Path) {
    q in w.fs && (q !in w'.fs || w'.fs[q] != w.fs[q])
  }

  /** A copy of `src` into `dir` under the chosen name: it succeeds exactly when the source passes the limits and
      the name is free, and what it loses is exactly what lies at or below a taken name. */
  lemma ChosenExactly(w: World, c: Choice, q: Path)
    requires TreeOk(w.fs, w.next) && CopyReadyAt(w, c) && c.Chosen?
    ensures var (w', ok) := CopyChosen(w, c);
            && (ok <==> Passes(w.fs, c.src) && c.dir + [c.name] !in w.fs)
            && (Lost(w, w', q) <==> q in w.fs && c.dir + [c.name] in w.fs && c.dir + [c.name] <= q)
  {
    hide WellFormed, NoLinks, UniqueInos, UserSpot, Passes, CopyOf, CopyPathSpec, CopyOrRollBack, DisplaceStep;
    var dst := c.dir + [c.name];
    assert Parent(dst) == c.dir;
    if dst in w.fs {
      CopyDisplaces(w, c);
      Displaced(w, CopyChosen(w, c).0, dst);
    } else {
      Unlinked(w.fs, c.src);
      CopyExactly(w.fs, w.next, c.src, dst);
      CopyStep(w, c);
    }
  }

  lemma Unlinked(fs: Fs, p: Path)
    requires NoLinks(fs) && p in fs
    ensures !fs[p].Link?
  {
  }

  lemma Displaced(w: World, w': World, p: Path)
    requires DisplaceStep(w, w', p)
    ensures forall q :: Lost(w, w', q) <==> q in w.fs && p <= q
  {
    RemovedAt(w.fs, p);
  }

  lemma RefusedCopy(w: World, c: Choice)
    requires TreeOk(w.fs, w.next) && c.Refused?
    ensures CopyChosen(w, c) == (w, false)
  {
  }

  /** The request names an entry, a directory to copy it to that is not inside it, and not its own place. */
  predicate Copyable(w: World, path: string, destDir: string) {
    var src, dest := PlaceOf(path), PlaceOf(destDir);
    && !IsTrashPath(path) && !IsTrashPath(destDir)
    && Addresses(w.fs, path, src) && Addresses(w.fs, destDir, dest) && IsDir(w.fs, dest)
    && src != [] && !(src <= dest) && src != dest + [Last(src)]
  }

  lemma CopyChoiceExactly(w: World, path: string, destDir: string, nanos: nat)
    requires TreeOk(w.fs, w.next)
    ensures var src, dest := PlaceOf(path), PlaceOf(destDir);
            var c := CopyChoice(w.fs, [], path, destDir, nanos);
            && (c.Chosen? <==> Copyable(w, path, destDir))
            && (c.Chosen? ==>
                  c == Chosen(src, dest, NameFor(w.fs, dest, Last(src), nanos)) && ValidName(Last(src)))
  {
    hide CleanRooted, Slashed, Resolve, TreeOk, IsTrashPath, Rel, EvalSymlinks, NameFor;
    LocateExactly(w, path);
    LocateExactly(w, destDir);
    var src, dest := PlaceOf(path), PlaceOf(destDir);
    if Addresses(w.fs, path, src) && Addresses(w.fs, destDir, dest) && IsDir(w.fs, dest) && src != [] {
      InsideExactly(w.fs, w.next, src, dest);
      StatInTree(w.fs, w.next, dest, Last(src));
    }
  }

  /** A file contains no directory, so the test is needed for directories only. */
  lemma InsideExactly(fs: Fs, next: nat, src: Path, dest: Path)
    requires TreeOk(fs, next) && UserPath(src) && UserPath(dest) && src in fs && IsDir(fs, dest)
    ensures fs[src].Dir? && Inside(src, dest) <==> src <= dest
  {
    hide Rel, WellFormed, NoLinks, UniqueInos;
    assert ValidPath(src) && ValidPath(dest);
    RelDecidesContainment(src, dest);
    if src <= dest {
      assert dest[..|src|] == src;
      Ancestors(fs, dest, |src|);
    }
  }

  /** A copy succeeds exactly when the request can be carried out, the source passes the limits, and some name is
      free. It loses an entry exactly when the request can be carried out and no name is free: the entry under
      the clock-made name, with everything below it. */
  lemma CopyLosesExactly(w: World, path: string, destDir: string, nanos: nat, q: Path)
    requires TreeOk(w.fs, w.next)
    ensures var src, dest := PlaceOf(path), PlaceOf(destDir);
            var (w', ok) := CopySpec(w, path, destDir, nanos);
            var copyable := Copyable(w, path, destDir);
            && (ok <==> copyable && Passes(w.fs, src) && !AllTaken(w.fs, dest, Last(src), 0, nanos))
            && (Lost(w, w', q) <==>
                  && q in w.fs && copyable && AllTaken(w.fs, dest, Last(src), 0, nanos)
                  && dest + [FallbackName(Last(src), nanos)] <= q)
            && (Displaces(w, Copy(path, destDir, nanos)) <==>
                  copyable && AllTaken(w.fs, dest, Last(src), 0, nanos))
  {
    hide CleanRooted, Slashed, TreeOk, Addresses, IsTrashPath, FallbackName, AllTaken, CopyChosen, CopyChoice, NameFor,
      Passes, CopyReadyAt, ValidName, IsDir;
    var src, dest := PlaceOf(path), PlaceOf(destDir);
    CopyChoiceExactly(w, path, destDir, nanos);
    ChoiceReady(w, Copy(path, destDir, nanos));
    if Copyable(w, path, destDir) {
      NamedTaken(w.fs, w.next, dest, Last(src), nanos);
      ChosenExactly(w, CopyChoice(w.fs, [], path, destDir, nanos), q);
    } else {
      RefusedCopy(w, CopyChoice(w.fs, [], path, destDir, nanos));
    }
  }

  /** The request names an entry other than the root. */
  predicate Duplicable(w: World, path: string) {
    !IsTrashPath(path) && Addresses(w.fs, path, PlaceOf(path)) && PlaceOf(path) != []
  }

  lemma DuplicateChoiceExactly(w: World, path: string, nanos: nat)
    requires TreeOk(w.fs, w.next)
    ensures var src := PlaceOf(path);
            var c := DuplicateChoice(w.fs, [], path, nanos);
            && (c.Chosen? <==> Duplicable(w, path))
            && (c.Chosen? ==>
                  && c == Chosen(src, Parent(src), UniqueName(w.fs, Parent(src), Last(src), 0, nanos))
                  && ValidName(Last(src)) && IsDir(w.fs, Parent(src)))
  {
    hide CleanRooted, Slashed, Resolve, TreeOk, IsTrashPath, Trim, UniqueName;
    LocateExactly(w, path);
    TrimmedPlace(path);
    NoPlace();
    if Duplicable(w, path) {
      SoundParent(w, PlaceOf(path));
    }
  }

  /** The same of a duplicate, whose names are tried beside the source. */
  lemma DuplicateLosesExactly(w: World, path: string, nanos: nat, q: Path)
    requires TreeOk(w.fs, w.next)
    ensures var src := PlaceOf(path);
            var (w', ok) := DuplicateSpec(w, path, nanos);
            var duplicable := Duplicable(w, path);
            && (ok <==> duplicable && Passes(w.fs, src) && !AllTaken(w.fs, Parent(src), Last(src), 0, nanos))
            && (Lost(w, w', q) <==>
                  && q in w.fs && duplicable && AllTaken(w.fs, Parent(src), Last(src), 0, nanos)
                  && Parent(src) + [FallbackName(Last(src), nanos)] <= q)
            && (Displaces(w, Duplicate(path, nanos)) <==>
                  duplicable && AllTaken(w.fs, Parent(src), Last(src), 0, nanos))
  {
    hide CleanRooted, Slashed, TreeOk, Addresses, IsTrashPath, FallbackName, AllTaken, CopyChosen, DuplicateChoice,
      UniqueName, Passes, CopyReadyAt, ValidName, IsDir;
    var src := PlaceOf(path);
    DuplicateChoiceExactly(w, path, nanos);
    ChoiceReady(w, Duplicate(path, nanos));
    if Duplicable(w, path) {
      FoundTaken(w.fs, w.next, Parent(src), Last(src), 0, nanos);
      ChosenExactly(w, DuplicateChoice(w.fs, [], path, nanos), q);
    } else {
      RefusedCopy(w, DuplicateChoice(w.fs, [], path, nanos));
    }
  }

  // ---------------------------------------------------------------- a folder where it happens

  /** A new archive with a file of the name and its first `n - 1` copies. */
  function Copies(name: Name, n: nat): Fs {
    if n == 0 then NEW_TREE else Copies(name, n - 1)[[CopyNameCandidate(name, n - 1)] := File(n + 2, [])]
  }

  /** Only the trash and the first `n` names. */
  ghost predicate OnlyCopies(fs: Fs, name: Name, n: nat) {
    forall p :: p in fs ==> p in NEW_TREE || exists j: nat :: j < n && p == [CopyNameCandidate(name, j)]
  }

  /** The names of copies all differ, and none is the trash directory's. */
  lemma NextIsNew(fs: Fs, name: Name, n: nat, k: nat)
    requires UserName(name) && OnlyCopies(fs, name, n) && n <= k
    ensures UserName(CopyNameCandidate(name, k)) && [CopyNameCandidate(name, k)] !in fs
  {
    hide CopyNameCandidate, UserName;
    CandidateUserName(name, k);
    var p := [CopyNameCandidate(name, k)];
    if p in fs {
      NotInNewTree(CopyNameCandidate(name, k));
      var j: nat :| j < n && p == [CopyNameCandidate(name, j)];
      assert p[0] == CopyNameCandidate(name, j);
      CandidatesDistinct(name, j, k);
    }
  }

  lemma NotInNewTree(n: Name)
    requires UserName(n)
    ensures [n] !in NEW_TREE
  {
    assert [n][0] != ".trash";
  }

  lemma AddFile(fs: Fs, next: nat, n: Name)
    requires TreeOk(fs, next) && [n] !in fs && UserName(n)
    ensures TreeOk(fs[[n] := File(next, [])], next + 1)
  {
    hide WellFormed, NoLinks, UniqueInos;
    var p := [n];
    assert Parent(p) == [] && Last(p) == n;
    InTree(fs, ITEMS);
    AddNode(fs, next, p, File(next, []));
  }

  lemma {:induction false} CopiesTree(name: Name, n: nat)
    requires UserName(name)
    ensures TreeOk(Copies(name, n), n + 3) && OnlyCopies(Copies(name, n), name, n)
    ensures forall j: nat :: j < n ==> [CopyNameCandidate(name, j)] in Copies(name, n)
  {
    hide CopyNameCandidate, TreeOk, UserName;
    if n == 0 {
      NewArchiveOk();
    } else {
      CopiesTree(name, n - 1);
      NextIsNew(Copies(name, n - 1), name, n - 1, n - 1);
      AddFile(Copies(name, n - 1), n + 2, CopyNameCandidate(name, n - 1));
    }
  }

  /** Without an extension, the clock-made name is the candidate with the clock's number. */
  lemma ClockName(name: Name, nanos: nat)
    requires Ext(name) == "" && nanos > 1
    ensures FallbackName(name, nanos) == CopyNameCandidate(name, nanos)
  {
    hide Ext, UploadPlan.Decimal;
  }

  /** A file, its first 9999 copies, and a file under the name that the clock makes. */
  function Crowded(name: Name, nanos: nat): World {
    NEW_ARCHIVE.(fs := Copies(name, MAX_CANDIDATES)[[FallbackName(name, nanos)] := File(MAX_CANDIDATES + 3, [])],
                 next := MAX_CANDIDATES + 4)
  }

  lemma CrowdedOk(name: Name, nanos: nat)
    requires UserName(name) && Ext(name) == "" && nanos >= MAX_CANDIDATES
    ensures var fs := Crowded(name, nanos).fs;
            Sound(Crowded(name, nanos)) && AllTaken(fs, [], name, 0, nanos) && [name] in fs
  {
    hide CopyNameCandidate, FallbackName, TreeOk, Copies, UserName, Ext, OnlyCopies;
    CopiesTree(name, MAX_CANDIDATES);
    ClockName(name, nanos);
    NextIsNew(Copies(name, MAX_CANDIDATES), name, MAX_CANDIDATES, nanos);
    AddFile(Copies(name, MAX_CANDIDATES), MAX_CANDIDATES + 3, FallbackName(name, nanos));
    NothingStored(name, nanos);
    FirstName(name);
    TopNames(Crowded(name, nanos).fs, name, nanos);
  }

  lemma FirstName(name: Name)
    ensures CopyNameCandidate(name, 0) == name
  {
  }

  lemma TopNames(fs: Fs, name: Name, nanos: nat)
    requires forall j: nat :: j < MAX_CANDIDATES ==> [CopyNameCandidate(name, j)] in fs
    requires [FallbackName(name, nanos)] in fs
    ensures AllTaken(fs, [], name, 0, nanos)
  {
    hide CopyNameCandidate, FallbackName;
    var top: Path := [];
    assert top + [FallbackName(name, nanos)] == [FallbackName(name, nanos)];
    forall j: nat | j < MAX_CANDIDATES ensures top + [CopyNameCandidate(name, j)] in fs {
      assert top + [CopyNameCandidate(name, j)] == [CopyNameCandidate(name, j)];
    }
  }

  lemma NothingStored(name: Name, nanos: nat)
    requires UserName(name)
    ensures forall id: string :: ItemPath(id) !in Crowded(name, nanos).fs
  {
    hide CopyNameCandidate, FallbackName, Copies, UserName;
    CopiesTree(name, MAX_CANDIDATES);
    forall id: string ensures ItemPath(id) !in Crowded(name, nanos).fs {
      assert |ItemPath(id)| == 3 && ItemPath(id) !in NEW_TREE;
    }
  }

  /** A name is a request for the entry of that name in the root. */
  lemma NameAsRequest(n: Name)
    requires UserName(n)
    ensures PlaceOf(n) == [n] && !IsTrashPath(n)
  {
    hide CleanRooted, Slashed, Trim;
    RequestCanonical([n]);
    assert Join([n]) == n;
    assert n[0] in n && n[|n| - 1] in n;
    TrimNoop(n, "/");
  }

  /** A file lost to a copy. */
  lemma LostFile(w: World, e: Event, p: Path)
    requires Sound(w) && Possible(w, e) && Displaces(w, e) && p in w.fs && w.fs[p].File?
    requires TreeOk(w.fs, w.next) && Lost(w, Next(w, e), p)
    ensures Loses(w, e)
  {
    hide TreeOk, Sound, Possible, Displaces, Next, DisplacedAt;
    DisplacingStep(w, e);
    Displaced(w, Next(w, e), DisplacedAt(w, e));
  }

  lemma DuplicableName(w: World, n: Name)
    requires UserName(n) && [n] in w.fs
    ensures Duplicable(w, n) && PlaceOf(n) == [n]
  {
    hide IsTrashPath, Slashed, CleanRooted;
    NameAsRequest(n);
  }

  /** In any archive where all names for a copy of a file in the root are taken, the last by a file, that is lost. */
  lemma TopDuplicateLoses(w: World, name: Name, nanos: nat)
    requires Sound(w) && UserName(name) && [name] in w.fs && AllTaken(w.fs, [], name, 0, nanos)
    requires [FallbackName(name, nanos)] in w.fs && w.fs[[FallbackName(name, nanos)]].File?
    ensures Lost(w, DuplicateSpec(w, name, nanos).0, [FallbackName(name, nanos)]) && Loses(w, Duplicate(name, nanos))
  {
    hide TreeOk, Sound, FallbackName, DuplicateSpec, AllTaken, Duplicable, PlaceOf, Slashed, CleanRooted, Displaces,
      Loses, Lost, UserName;
    SoundTree(w);
    DuplicableName(w, name);
    var p := [FallbackName(name, nanos)];
    DuplicateLosesExactly(w, name, nanos, p);
    assert Parent([name]) == [] && Last([name]) == name && Parent([name]) + p == p;
    LostFile(w, Duplicate(name, nanos), p);
  }

  /** Such an archive for every name without an extension and every clock reading past ten microseconds. */
  lemma DuplicateLoses(name: Name, nanos: nat)
    requires UserName(name) && Ext(name) == "" && nanos >= MAX_CANDIDATES
    ensures var w, p := Crowded(name, nanos), [FallbackName(name, nanos)];
            && Sound(w) && p in w.fs && w.fs[p].File?
            && Lost(w, DuplicateSpec(w, name, nanos).0, p) && Loses(w, Duplicate(name, nanos))
  {
    hide TreeOk, Sound, Copies, FallbackName, DuplicateSpec, AllTaken, Loses, Lost, UserName, Ext;
    CrowdedOk(name, nanos);
    TopDuplicateLoses(Crowded(name, nanos), name, nanos);
  }
}
