/** search.go: on which trees the queue runs empty. A directory's name may hold backslashes, which the
    resolver turns into separators, so the search can be led to places other than the directory it read. */
module SearchEnds {
  import opened FileSystem
  import opened ListingCache
  import opened Listings
  import opened Paths
  import opened Resolver
  import opened Search
  import opened Sessions  // Fold
  import opened Tree

  /** Some level is empty. */
  ghost predicate Ends(fs: Fs, root: Path) {
    exists k: nat :: RowAt(fs, root, k) == []
  }

  /** Listing the place `p` queues a directory whose path leads to `q`. */
  ghost predicate Leads(fs: Fs, root: Path, p: Path, q: Path) {
    exists x :: x in Listed(fs, root, Join(p)) && x.isDir && PlaceOf(x.path) == q
  }

  /** A chain of places from the root, each led to by the one before. */
  ghost predicate Trail(fs: Fs, root: Path, ps: seq<Path>) {
    && |ps| >= 1 && ps[0] == []
    && forall i :: 0 <= i < |ps| - 1 ==> Leads(fs, root, ps[i], ps[i + 1])
  }

  ghost predicate Meets(fs: Fs, root: Path, ps: seq<Path>, i: nat, j: nat) {
    Trail(fs, root, ps) && i < j < |ps| && ps[i] == ps[j]
  }

  /** Some place reachable from the root leads back to itself. */
  ghost predicate Loops(fs: Fs, root: Path) {
    exists ps: seq<Path>, i: nat, j: nat :: Meets(fs, root, ps, i, j)
  }

  /** Only finitely many places that lead anywhere can be reached. */
  ghost predicate Confined(fs: Fs, root: Path, places: set<Path>) {
    && [] in places
    && forall p, q, r :: p in places && Leads(fs, root, p, q) && Leads(fs, root, q, r) ==> q in places
  }

  // ---------------------------------------------------------------- what is queued

  /** A path that the resolver took. */
  predicate Asked(rel: string) {
    '\0' !in rel && UserPath(PlaceOf(rel))
  }

  lemma AskedFacts(fs: Fs, root: Path, rel: string)
    requires RootReady(fs, root) && Resolve(fs, root, rel).Ok?
    ensures Asked(rel)
  {
    RequestNames(rel);
    VerdictMeaning(PlaceOf(rel));
  }

  /** The plain spelling of the same place. */
  lemma PlainSpelling(rel: string)
    requires Asked(rel)
    ensures Alike(false, rel, Join(PlaceOf(rel)))
  {
    RequestCanonical(PlaceOf(rel));
  }

  lemma ListedAsked(fs: Fs, root: Path, rel: string, x: TreeNode)
    requires RootReady(fs, root) && x in Listed(fs, root, rel)
    ensures Asked(x.path)
  {
    hide WellFormed, PathJoinSpec, Resolve, Asked, Listed;
    ListedNode(fs, root, rel, x);
    AskedFacts(fs, root, x.path);
  }

  lemma {:induction false} InDirs(nodes: Nodes, n: nat, rel: string)
    requires n <= |nodes|
    ensures rel in DirsTo(nodes, n) <==> exists i :: 0 <= i < n && nodes[i].isDir && nodes[i].path == rel
  {
    if n > 0 {
      InDirs(nodes, n - 1, rel);
    }
  }

  lemma {:induction false} InNextRow(fs: Fs, root: Path, queue: seq<string>, rel: string)
    ensures rel in NextRow(fs, root, queue) <==> exists i :: 0 <= i < |queue| && rel in Dirs(Listed(fs, root, queue[i]))
  {
    hide Dirs, Listed;
    if queue != [] {
      InNextRow(fs, root, queue[1..], rel);
      if i :| 0 <= i < |queue| && rel in Dirs(Listed(fs, root, queue[i])) {
        assert i > 0 ==> queue[1..][i - 1] == queue[i];
      }
      if i :| 0 <= i < |queue[1..]| && rel in Dirs(Listed(fs, root, queue[1..][i])) {
        assert queue[i + 1] == queue[1..][i];
      }
    }
  }

  /** A queued directory, whatever its spelling, queues exactly what its place leads to. */
  lemma QueuesWhatItLeadsTo(fs: Fs, root: Path, rel: string, q: Path)
    requires RootReady(fs, root) && Asked(rel)
    ensures Leads(fs, root, PlaceOf(rel), q) <==>
              exists next :: next in Dirs(Listed(fs, root, rel)) && PlaceOf(next) == q
    ensures forall next :: next in Dirs(Listed(fs, root, rel)) ==> Asked(next)
  {
    hide Asked, Listed, Alike, CleanRooted, WellFormed;
    var plain := Join(PlaceOf(rel));
    var a, b := Listed(fs, root, rel), Listed(fs, root, plain);
    PlainSpelling(rel);
    ListDirAlike(fs, root, false, rel, plain);
    if Leads(fs, root, PlaceOf(rel), q) {
      var x :| x in b && x.isDir && PlaceOf(x.path) == q;
      var i :| 0 <= i < |b| && b[i] == x;
      SameAt(a, b, i);
      InDirs(a, |a|, a[i].path);
    }
    if next :| next in Dirs(a) && PlaceOf(next) == q {
      InDirs(a, |a|, next);
      var i :| 0 <= i < |a| && a[i].isDir && a[i].path == next;
      SameAt(a, b, i);
      assert b[i] in b;
    }
    forall next | next in Dirs(a) ensures Asked(next) {
      InDirs(a, |a|, next);
      var i :| 0 <= i < |a| && a[i].isDir && a[i].path == next;
      ListedAsked(fs, root, rel, a[i]);
    }
  }

  lemma SameAt(a: Nodes, b: Nodes, i: nat)
    requires SameNodes(false, a, b) && i < |a|
    ensures i < |b| && a[i].isDir == b[i].isDir && PlaceOf(a[i].path) == PlaceOf(b[i].path)
  {
    assert SameNode(false, a[i], b[i]);
  }

  lemma {:induction false} RowsAsked(fs: Fs, root: Path, k: nat)
    requires RootReady(fs, root)
    ensures forall rel :: rel in RowAt(fs, root, k) ==> Asked(rel)
  {
    hide Asked, Listed, RootReady, Dirs;
    if k == 0 {
      StartAsked();
    } else {
      RowsAsked(fs, root, k - 1);
      var row := RowAt(fs, root, k - 1);
      forall rel | rel in RowAt(fs, root, k) ensures Asked(rel) {
        InNextRow(fs, root, row, rel);
        var i :| 0 <= i < |row| && rel in Dirs(Listed(fs, root, row[i]));
        QueuesWhatItLeadsTo(fs, root, row[i], PlaceOf(rel));
      }
    }
  }

  lemma StartAsked()
    ensures Asked("") && PlaceOf("") == []
  {
    NoPlace();
  }

  // ---------------------------------------------------------------- rows and trails

  lemma TrailExtended(fs: Fs, root: Path, ps: seq<Path>, q: Path)
    requires Trail(fs, root, ps) && Leads(fs, root, ps[|ps| - 1], q)
    ensures Trail(fs, root, ps + [q])
  {
    hide Leads;
  }

  lemma TrailPrefix(fs: Fs, root: Path, ps: seq<Path>, n: nat)
    requires Trail(fs, root, ps) && 1 <= n <= |ps|
    ensures Trail(fs, root, ps[..n])
  {
    hide Leads;
  }

  /** Every queued directory ends a trail as long as its level is deep. */
  lemma {:induction false} RowTrail(fs: Fs, root: Path, k: nat, rel: string) returns (ps: seq<Path>)
    requires RootReady(fs, root) && rel in RowAt(fs, root, k)
    ensures Trail(fs, root, ps) && |ps| == k + 1 && ps[k] == PlaceOf(rel)
  {
    hide Asked, Listed, RootReady, Dirs, Leads, CleanRooted;
    if k == 0 {
      StartAsked();
      ps := [[]];
    } else {
      var row := RowAt(fs, root, k - 1);
      InNextRow(fs, root, row, rel);
      var i :| 0 <= i < |row| && rel in Dirs(Listed(fs, root, row[i]));
      var before := RowTrail(fs, root, k - 1, row[i]);
      RowsAsked(fs, root, k - 1);
      QueuesWhatItLeadsTo(fs, root, row[i], PlaceOf(rel));
      TrailExtended(fs, root, before, PlaceOf(rel));
      ps := before + [PlaceOf(rel)];
    }
  }

  /** And every trail ends at a queued directory. */
  lemma {:induction false} TrailRow(fs: Fs, root: Path, ps: seq<Path>) returns (rel: string)
    requires RootReady(fs, root) && Trail(fs, root, ps)
    ensures rel in RowAt(fs, root, |ps| - 1) && PlaceOf(rel) == ps[|ps| - 1]
    decreases |ps|
  {
    hide Asked, Listed, RootReady, Dirs, Leads, CleanRooted;
    var n := |ps| - 1;
    if n == 0 {
      StartAsked();
      rel := "";
    } else {
      TrailPrefix(fs, root, ps, n);
      var before := TrailRow(fs, root, ps[..n]);
      RowsAsked(fs, root, n - 1);
      QueuesWhatItLeadsTo(fs, root, before, ps[n]);
      rel :| rel in Dirs(Listed(fs, root, before)) && PlaceOf(rel) == ps[n];
      var row := RowAt(fs, root, n - 1);
      var i :| 0 <= i < |row| && row[i] == before;
      InNextRow(fs, root, row, rel);
    }
  }

  lemma NoTrailBeyond(fs: Fs, root: Path, k: nat, ps: seq<Path>)
    requires RootReady(fs, root) && RowAt(fs, root, k) == [] && Trail(fs, root, ps)
    ensures |ps| <= k
  {
    hide RootReady, RowAt, Trail;
    if |ps| > k {
      TrailPrefix(fs, root, ps, k + 1);
      var rel := TrailRow(fs, root, ps[..k + 1]);
    }
  }

  // ---------------------------------------------------------------- ending is not looping

  /** Going round a loop once more. */
  lemma Round(fs: Fs, root: Path, ps: seq<Path>, i: nat, j: nat)
    requires Meets(fs, root, ps, i, j)
    ensures Meets(fs, root, ps[..j] + ps[i..], j, j + (j - i)) && |ps[..j] + ps[i..]| == |ps| + (j - i)
  {
    hide Leads;
    var qs := ps[..j] + ps[i..];
    forall n | 0 <= n < |qs| - 1 ensures Leads(fs, root, qs[n], qs[n + 1]) {
      if n + 1 < j {
        assert qs[n] == ps[n] && qs[n + 1] == ps[n + 1];
      } else if n + 1 == j {
        assert qs[n] == ps[n] && qs[n + 1] == ps[i];
      } else {
        assert qs[n] == ps[n - j + i] && qs[n + 1] == ps[n + 1 - j + i];
      }
    }
  }

  lemma {:induction false} LongTrail(fs: Fs, root: Path, ps: seq<Path>, i: nat, j: nat, n: nat) returns (qs: seq<Path>)
    requires Meets(fs, root, ps, i, j)
    ensures Trail(fs, root, qs) && |qs| > n
    decreases n - |ps|
  {
    hide Trail;
    if |ps| > n {
      qs := ps;
    } else {
      Round(fs, root, ps, i, j);
      qs := LongTrail(fs, root, ps[..j] + ps[i..], j, j + (j - i), n);
    }
  }

  /** The places of the directories on the first `k` levels. */
  ghost function PlacesTo(fs: Fs, root: Path, k: nat): set<Path> {
    if k == 0 then {} else PlacesTo(fs, root, k - 1) + set rel | rel in RowAt(fs, root, k - 1) :: PlaceOf(rel)
  }

  lemma {:induction false} InPlaces(fs: Fs, root: Path, k: nat, j: nat, rel: string)
    requires j < k && rel in RowAt(fs, root, j)
    ensures PlaceOf(rel) in PlacesTo(fs, root, k)
  {
    if j < k - 1 {
      InPlaces(fs, root, k - 1, j, rel);
    }
  }

  lemma {:induction false} PlacesRow(fs: Fs, root: Path, k: nat, p: Path) returns (j: nat, rel: string)
    requires p in PlacesTo(fs, root, k)
    ensures j < k && rel in RowAt(fs, root, j) && PlaceOf(rel) == p
  {
    if r :| r in RowAt(fs, root, k - 1) && PlaceOf(r) == p {
      j, rel := k - 1, r;
    } else {
      j, rel := PlacesRow(fs, root, k - 1, p);
    }
  }

  lemma TopRow(fs: Fs, root: Path)
    ensures RowAt(fs, root, 0) == [""]
  {
  }

  lemma RowBelow(fs: Fs, root: Path, k: nat, rel: string, next: string)
    requires rel in RowAt(fs, root, k) && next in Dirs(Listed(fs, root, rel))
    ensures next in RowAt(fs, root, k + 1)
  {
    hide Dirs, Listed;
    var row := RowAt(fs, root, k);
    var i :| 0 <= i < |row| && row[i] == rel;
    InNextRow(fs, root, row, next);
  }

  lemma EndsConfined(fs: Fs, root: Path, k: nat)
    requires RootReady(fs, root) && RowAt(fs, root, k) == []
    ensures Confined(fs, root, PlacesTo(fs, root, k))
  {
    hide RootReady, RowAt, Leads, PlacesTo, CleanRooted, Asked, Listed, Dirs;
    var places := PlacesTo(fs, root, k);
    TopRow(fs, root);
    StartAsked();
    InPlaces(fs, root, k, 0, "");
    forall p, q | p in places && Leads(fs, root, p, q) ensures q in places {
      var j, rel := PlacesRow(fs, root, k, p);
      RowsAsked(fs, root, j);
      QueuesWhatItLeadsTo(fs, root, rel, q);
      var next :| next in Dirs(Listed(fs, root, rel)) && PlaceOf(next) == q;
      RowBelow(fs, root, j, rel, next);
      InPlaces(fs, root, k, j + 1, next);
    }
  }

  lemma {:induction false} Pigeons(ps: seq<Path>, places: set<Path>)
    requires forall i :: 0 <= i < |ps| ==> ps[i] in places
    requires forall i, j :: 0 <= i < j < |ps| ==> ps[i] != ps[j]
    ensures |ps| <= |places|
  {
    if ps != [] {
      var n := |ps| - 1;
      forall i | 0 <= i < n ensures ps[..n][i] in places - {ps[n]} {
        assert ps[i] != ps[n];
      }
      Pigeons(ps[..n], places - {ps[n]});
    }
  }

  lemma {:induction false} TrailConfined(fs: Fs, root: Path, ps: seq<Path>, places: set<Path>, i: nat)
    requires Trail(fs, root, ps) && Confined(fs, root, places) && i < |ps| - 1
    ensures ps[i] in places
  {
    hide Leads;
    if i > 0 {
      TrailConfined(fs, root, ps, places, i - 1);
      assert Leads(fs, root, ps[i - 1], ps[i]) && Leads(fs, root, ps[i], ps[i + 1]);
    }
  }

  lemma BoundedEnds(fs: Fs, root: Path, places: set<Path>)
    requires RootReady(fs, root) && !Loops(fs, root) && Confined(fs, root, places)
    ensures Ends(fs, root)
  {
    hide RootReady, Trail, RowAt, CleanRooted;
    var k := |places| + 1;
    if RowAt(fs, root, k) != [] {
      var ps := RowTrail(fs, root, k, RowAt(fs, root, k)[0]);
      forall i | 0 <= i < k ensures ps[..k][i] in places {
        TrailConfined(fs, root, ps, places, i);
      }
      forall i, j | 0 <= i < j < k ensures ps[..k][i] != ps[..k][j] {
        assert !Meets(fs, root, ps, i, j);
      }
      Pigeons(ps[..k], places);
    }
  }

  /** For every tree, links included: the search runs out of directories exactly when only finitely many
      places lead on and none of them leads back to itself. */
  lemma EndsExactly(fs: Fs, root: Path)
    requires RootReady(fs, root)
    ensures Ends(fs, root) <==> !Loops(fs, root) && exists places :: Confined(fs, root, places)
  {
    hide RootReady, Trail, RowAt, Confined;
    if Ends(fs, root) {
      var k: nat :| RowAt(fs, root, k) == [];
      EndsConfined(fs, root, k);
      if ps: seq<Path>, i: nat, j: nat :| Meets(fs, root, ps, i, j) {
        var qs := LongTrail(fs, root, ps, i, j, k);
        NoTrailBeyond(fs, root, k, qs);
      }
    }
    if places :| Confined(fs, root, places) && !Loops(fs, root) {
      BoundedEnds(fs, root, places);
    }
  }

  // ---------------------------------------------------------------- said of the tree

  /** No link lies below the root. */
  ghost predicate LinkFree(fs: Fs, root: Path) {
    forall p :: p in fs && root <= p ==> !fs[p].Link?
  }

  /** The step from a directory to where the name of one of its directories leads. */
  ghost predicate Step(fs: Fs, root: Path, p: Path, q: Path) {
    && UserPath(p) && IsDir(fs, root + p) && UserPath(q)
    && (root + q in fs || Lstat(fs, root + q) == Err(NotExist))
    && exists name :: StepBy(fs, root, p, q, name)
  }

  ghost predicate StepBy(fs: Fs, root: Path, p: Path, q: Path, name: Name) {
    IsDir(fs, root + p + [name]) && !Hidden(name) && '\0' !in name && q == CleanParts(Split(Slashed(name)), p)
  }

  lemma LexicalPlace(fs: Fs, root: Path, rel: string)
    requires RootReady(fs, root) && LinkFree(fs, root) && '\0' !in rel
    ensures var p := PlaceOf(rel);
            && (Resolve(fs, root, rel).Ok? <==>
                  UserPath(p) && (root + p in fs || Lstat(fs, root + p) == Err(NotExist)))
            && (Resolve(fs, root, rel).Ok? ==> Resolve(fs, root, rel) == Ok(root + p))
  {
    ResolveLexical(fs, root, rel);
  }

  /** On trees without links, what the listings lead to is said by the names alone. */
  lemma LeadsExactly(fs: Fs, root: Path, p: Path, q: Path)
    requires RootReady(fs, root) && LinkFree(fs, root) && UserPath(p)
    ensures Leads(fs, root, p, q) <==> Step(fs, root, p, q)
  {
    hide WellFormed, LinkFree, Resolve, CleanRooted, CleanParts, Slashed, Split, Listed, PathJoinSpec, Lstat, UserName,
      Physical;
    var rel := Join(p);
    RequestCanonical(p);
    LexicalPlace(fs, root, rel);
    if Leads(fs, root, p, q) {
      var x :| x in Listed(fs, root, rel) && x.isDir && PlaceOf(x.path) == q;
      ListedNode(fs, root, rel, x);
      ChildPlace(rel, x.name);
      ListedAsked(fs, root, rel, x);
      LexicalPlace(fs, root, x.path);
      assert StepBy(fs, root, p, q, x.name);
    }
    if Step(fs, root, p, q) {
      var name :| StepBy(fs, root, p, q, name);
      InDirectory(fs, root + p, name);
      ChildPlace(rel, name);
      var path := PathJoinSpec([rel, name]);
      LexicalPlace(fs, root, path);
      var x := NodeOf(fs[root + p + [name]], name, path);
      ListedNode(fs, root, rel, x);
      assert x in Listed(fs, root, rel);
    }
  }

  /** On a tree without links, the search runs out of directories exactly when no directory that the names
      lead to from the root leads back to itself. */
  lemma LinkFreeEnds(fs: Fs, root: Path)
    requires RootReady(fs, root) && LinkFree(fs, root)
    ensures Ends(fs, root) <==> !Loops(fs, root)
  {
    hide WellFormed, Loops, Ends, Listed, CleanRooted, Resolve, Lstat, Physical, LinkFree;
    EndsExactly(fs, root);
    var places := set x | x in fs && root <= x :: x[|root|..];
    forall p, q, r | p in places && Leads(fs, root, p, q) && Leads(fs, root, q, r) ensures q in places {
      var x :| x in Listed(fs, root, Join(p)) && x.isDir && PlaceOf(x.path) == q;
      ListedAsked(fs, root, Join(p), x);
      LeadsExactly(fs, root, q, r);
      assert (root + q)[|root|..] == q;
    }
    assert root[|root|..] == [];
    assert Confined(fs, root, places);
  }

  // ---------------------------------------------------------------- trees on which it ends

  /** The name leads strictly down: it has a real piece and no "..". */
  predicate Descends(name: Name) {
    var pieces := Split(Slashed(name));
    && (exists i :: 0 <= i < |pieces| && pieces[i] != "" && pieces[i] != ".")
    && forall i :: 0 <= i < |pieces| ==> pieces[i] != ".."
  }

  lemma {:induction false} CleanDescends(pieces: seq<string>, stack: Path)
    requires forall i :: 0 <= i < |pieces| ==> pieces[i] != ".."
    ensures |CleanParts(pieces, stack)| >= |stack|
    ensures (exists i :: 0 <= i < |pieces| && pieces[i] != "" && pieces[i] != ".") ==>
              |CleanParts(pieces, stack)| > |stack|
    decreases |pieces|
  {
    if pieces != [] {
      var rest := pieces[1..];
      CleanDescends(rest, stack);
      CleanDescends(rest, stack + [pieces[0]]);
      if i :| 1 <= i < |pieces| && pieces[i] != "" && pieces[i] != "." {
        assert rest[i - 1] == pieces[i];
      }
    }
  }

  lemma LongerPlace(name: Name, p: Path)
    requires Descends(name)
    ensures |CleanParts(Split(Slashed(name)), p)| > |p|
  {
    hide CleanParts, Slashed, Split;
    CleanDescends(Split(Slashed(name)), p);
  }

  lemma {:induction false} TrailDescends(fs: Fs, root: Path, ps: seq<Path>, i: nat, j: nat)
    requires Trail(fs, root, ps) && i < j < |ps|
    requires forall n :: 0 <= n < |ps| - 1 ==> |ps[n]| < |ps[n + 1]|
    ensures |ps[i]| < |ps[j]|
  {
    if i < j - 1 {
      TrailDescends(fs, root, ps, i, j - 1);
    }
  }

  /** Where every directory's name leads strictly down, as "a\\b" does, the search ends. */
  lemma DescendingEnds(fs: Fs, root: Path)
    requires RootReady(fs, root) && LinkFree(fs, root)
    requires forall p :: p in fs && root < p && fs[p].Dir? && !Hidden(Last(p)) ==> Descends(Last(p))
    ensures Ends(fs, root)
  {
    hide WellFormed, Listed, CleanRooted, CleanParts, Physical, LinkFree, Ends, Leads, Descends, Lstat;
    LinkFreeEnds(fs, root);
    if ps: seq<Path>, i: nat, j: nat :| Meets(fs, root, ps, i, j) {
      forall n | 0 <= n < |ps| - 1 ensures |ps[n]| < |ps[n + 1]| {
        TrailUser(fs, root, ps, n);
        LeadsExactly(fs, root, ps[n], ps[n + 1]);
        var name :| StepBy(fs, root, ps[n], ps[n + 1], name);
        var p := root + ps[n] + [name];
        assert root < p && Last(p) == name;
        LongerPlace(name, ps[n]);
      }
      TrailDescends(fs, root, ps, i, j);
    }
  }

  lemma TrailUser(fs: Fs, root: Path, ps: seq<Path>, i: nat)
    requires RootReady(fs, root) && Trail(fs, root, ps) && i < |ps|
    ensures UserPath(ps[i])
  {
    hide RootReady, Listed, CleanRooted;
    if i > 0 {
      assert Leads(fs, root, ps[i - 1], ps[i]);
      var x :| x in Listed(fs, root, Join(ps[i - 1])) && x.isDir && PlaceOf(x.path) == ps[i];
      ListedAsked(fs, root, Join(ps[i - 1]), x);
    }
  }

  /** No entry below the root has a backslash or a NUL in its name. */
  ghost predicate PlainNames(fs: Fs, root: Path) {
    forall p, i :: p in fs && root <= p && |root| <= i < |p| ==> '\\' !in p[i] && '\0' !in p[i]
  }

  ghost predicate SearchReady(fs: Fs, root: Path) {
    RootReady(fs, root) && PlainNames(fs, root)
  }

  lemma {:induction false} DirsAreNames(fs: Fs, p: Path, k: nat)
    requires WellFormed(fs) && IsDir(fs, p) && k <= |p|
    ensures p[..k] in fs && fs[p[..k]].Dir?
  {
    hide WellFormed;
    Ancestors(fs, p, k);
    if k == |p| {
      assert p[..k] == p;
    }
  }

  /** A directory spelled plainly resolves to itself. */
  lemma FolderResolves(fs: Fs, root: Path, p: Path)
    requires RootReady(fs, root) && UserPath(p) && IsDir(fs, root + p)
    ensures Resolve(fs, root, Join(p)) == Ok(root + p) && PlaceOf(Join(p)) == p && Asked(Join(p))
  {
    hide WellFormed;
    var full := root + p;
    RequestCanonical(p);
    NamesValid(fs, full);
    forall k | 0 <= k <= |full| ensures full[..k] in fs && !fs[full[..k]].Link? {
      DirsAreNames(fs, full, k);
    }
    assert full[|root|..] == p;
    PlainVisible(p);
    OpensItself(fs, full);
    ResolveStable(fs, root, full);
  }

  lemma PlainVisible(p: Path)
    requires UserPath(p)
    ensures NoneHidden(p)
  {
  }

  lemma PlainName(fs: Fs, root: Path, p: Path, name: Name)
    requires SearchReady(fs, root) && root + p + [name] in fs && !Hidden(name)
    ensures UserName(name) && root + p + [name] == root + (p + [name])
  {
    hide WellFormed;
    var full := root + p + [name];
    InTree(fs, full);
    assert Last(full) == name && root <= full && full[|root| + |p|] == name;
    assert full == root + (p + [name]);
  }

  /** Among plain names a directory leads to its directories, and nowhere else. */
  lemma PlainLeads(fs: Fs, root: Path, p: Path, q: Path)
    requires SearchReady(fs, root) && UserPath(p) && IsDir(fs, root + p) && Leads(fs, root, p, q)
    ensures |q| == |p| + 1 && UserPath(q) && IsDir(fs, root + q)
  {
    hide WellFormed, Physical, PlainNames, Resolve, CleanRooted, CleanParts, Slashed, Split, Listed, PathJoinSpec,
      UserName;
    FolderResolves(fs, root, p);
    var x :| x in Listed(fs, root, Join(p)) && x.isDir && PlaceOf(x.path) == q;
    ListedNode(fs, root, Join(p), x);
    ListedAsked(fs, root, Join(p), x);
    ChildPlace(Join(p), x.name);
    PlainName(fs, root, p, x.name);
    PlainPieces(x.name, p);
  }

  /** Without backslashes in names the search ends, links or not. */
  lemma PlainEnds(fs: Fs, root: Path)
    requires SearchReady(fs, root)
    ensures Ends(fs, root)
  {
    hide WellFormed, Physical, PlainNames, Listed, CleanRooted, Leads, Ends, UserName;
    EndsExactly(fs, root);
    var places := set x | x in fs && root <= x && fs[x].Dir? && UserPath(x[|root|..]) :: x[|root|..];
    assert root[|root|..] == [];
    forall p, q | p in places && Leads(fs, root, p, q) ensures q in places && |p| < |q| {
      var x :| x in fs && root <= x && fs[x].Dir? && x[|root|..] == p && UserPath(p);
      assert root + p == x;
      PlainLeads(fs, root, p, q);
      assert (root + q)[|root|..] == q;
    }
    assert Confined(fs, root, places);
    if ps: seq<Path>, i: nat, j: nat :| Meets(fs, root, ps, i, j) {
      forall n | 0 <= n < |ps| - 1 ensures |ps[n]| < |ps[n + 1]| {
        TrailConfined(fs, root, ps, places, n);
        assert Leads(fs, root, ps[n], ps[n + 1]);
      }
      TrailDescends(fs, root, ps, i, j);
    }
  }

  // ---------------------------------------------------------------- where the cache never respells a path

  /** No name below the root starts or ends with a backslash. */
  ghost predicate PlainEdges(fs: Fs, root: Path) {
    forall p :: p in fs && root < p && Last(p) != "" ==> Last(p)[0] != '\\' && Last(p)[|Last(p)| - 1] != '\\'
  }

  predicate Trimmed(rel: string) {
    rel == "" || (rel[0] !in "/\\" && rel[|rel| - 1] !in "/\\")
  }

  lemma TrimmedKey(rel: string)
    requires Trimmed(rel)
    ensures CacheKey(rel) == rel && Trim(rel, "/") == rel
  {
    if rel != "" {
      TrimNoop(rel, "/\\");
      TrimNoop(rel, "/");
    }
  }

  lemma ListedTrimmed(fs: Fs, root: Path, rel: string, x: TreeNode)
    requires RootReady(fs, root) && PlainEdges(fs, root) && Trimmed(rel) && x in Listed(fs, root, rel)
    ensures Trimmed(x.path)
  {
    hide WellFormed, Physical, Resolve, Listed, PathJoinSpec, CacheKey;
    ListedNode(fs, root, rel, x);
    ResolveContained(fs, root, rel);
    var target := Resolve(fs, root, rel).value;
    assert Last(target + [x.name]) == x.name && root < target + [x.name];
    assert x.name[0] in x.name && x.name[|x.name| - 1] in x.name;
    TrimmedKey(rel);
    JoinedWith(rel, x.name);
  }

  lemma NothingTrimmed()
    ensures Trimmed("")
  {
  }

  lemma {:induction false} QueueTrimmed(fs: Fs, root: Path, n: nat)
    requires RootReady(fs, root) && PlainEdges(fs, root)
    ensures forall rel :: rel in After(fs, root, [""], n) ==> Trimmed(rel)
  {
    hide RootReady, PlainEdges, Trimmed, Listed;
    if n == 0 {
      NothingTrimmed();
    } else {
      QueueTrimmed(fs, root, n - 1);
      var before := After(fs, root, [""], n - 1);
      if before != [] {
        var nodes := Listed(fs, root, before[0]);
        forall rel | rel in Dirs(nodes) ensures Trimmed(rel) {
          InDirs(nodes, |nodes|, rel);
          var i :| 0 <= i < |nodes| && nodes[i].isDir && nodes[i].path == rel;
          ListedTrimmed(fs, root, before[0], nodes[i]);
        }
      }
    }
  }

  /** Then the search yields the very paths, whatever the cache holds. */
  lemma EdgesPlain(fs: Fs, root: Path)
    requires RootReady(fs, root) && PlainEdges(fs, root)
    ensures KeysPlain(fs, root)
  {
    hide RootReady, PlainEdges, Trimmed, After, CacheKey;
    forall n: nat, i | 0 <= i < |After(fs, root, [""], n)|
      ensures CacheKey(After(fs, root, [""], n)[i]) == After(fs, root, [""], n)[i]
    {
      QueueTrimmed(fs, root, n);
      TrimmedKey(After(fs, root, [""], n)[i]);
    }
  }

  lemma EntryListed(fs: Fs, root: Path, rel: string, p: Path, name: Name)
    requires RootReady(fs, root) && Resolve(fs, root, rel) == Ok(root + p) && IsDir(fs, root + p)
    requires IsDir(fs, root + p + [name]) && !Hidden(name) && Resolve(fs, root, PathJoinSpec([rel, name])).Ok?
    ensures NodeOf(fs[root + p + [name]], name, PathJoinSpec([rel, name])) in Listed(fs, root, rel)
  {
    hide WellFormed, Physical, Resolve, PathJoinSpec;
    InDirectory(fs, root + p, name);
    ListedNode(fs, root, rel, NodeOf(fs[root + p + [name]], name, PathJoinSpec([rel, name])));
  }

  lemma BackslashKey(a: Name)
    requires UserName(a)
    ensures CacheKey(a + "\\") == a && Trim(a + "\\", "/") == a + "\\" && Trim(a, "/") == a && !Hidden(a + "\\")
    ensures ValidName(a + "\\") && CacheKey("") == "" && Trim("", "/") == ""
  {
    var s := a + "\\";
    assert a[0] in a && a[|a| - 1] in a && s[..|s| - 1] == a;
    TrimNoop(a, "/\\");
    TrimNoop(a, "/");
    TrimNoop(s, "/");
  }

  /** Beside a directory "a", one named "a\\" is queued under a path whose lookups find the listing of "a":
      whether the search reports what lies in it with paths below "a" or below "a\\" is up to the cache. */
  lemma TrailingBackslash(fs: Fs, root: Path, a: Name, x: Name)
    requires RootReady(fs, root) && UserName(a) && UserName(x)
    requires IsDir(fs, root + [a]) && IsDir(fs, root + [] + [a + "\\"]) && IsDir(fs, root + [a] + [x])
    ensures var rel := a + "\\";
            rel in RowAt(fs, root, 1) && Listed(fs, root, CacheKey(rel)) != Listed(fs, root, rel)
  {
    hide WellFormed, Physical, Resolve, PathJoinSpec, Listed, CacheKey, CleanRooted, CleanParts, Trim, Slashed, Split;
    var rel := a + "\\";
    BackslashKey(a);
    KeyAlike(rel);
    SameRequest(fs, root, rel, a);
    FolderResolves(fs, root, [a]);
    assert Join([a]) == a && Join([]) == "" && root + [] == root;
    FolderResolves(fs, root, []);
    JoinedWith("", rel);
    EntryListed(fs, root, "", [], rel);
    var nodes := Listed(fs, root, "");
    var node := NodeOf(fs[root + [] + [rel]], rel, rel);
    var i :| 0 <= i < |nodes| && nodes[i] == node;
    InDirs(nodes, |nodes|, rel);
    assert RowAt(fs, root, 0) == [""];
    InNextRow(fs, root, [""], rel);
    assert rel in Dirs(Listed(fs, root, [""][0]));
    assert root + [a] + [x] == root + [a, x] && [a] + [x] == [a, x];
    FolderResolves(fs, root, [a, x]);
    ChildPlace(rel, x);
    PlainPieces(x, [a]);
    SameRequest(fs, root, PathJoinSpec([rel, x]), Join([a, x]));
    EntryListed(fs, root, rel, [a], x);
    KeySpellsExactly(fs, root, rel);
  }

  // ---------------------------------------------------------------- trees on which it does not

  lemma LeadsIn(fs: Fs, root: Path, p: Path, name: Name)
    requires RootReady(fs, root) && UserPath(p) && IsDir(fs, root + p) && IsDir(fs, root + p + [name])
    requires !Hidden(name) && '\0' !in name
    requires var q := CleanParts(Split(Slashed(name)), p); UserPath(q) && IsDir(fs, root + q)
    ensures Leads(fs, root, p, CleanParts(Split(Slashed(name)), p))
  {
    hide WellFormed, Resolve, CleanRooted, CleanParts, Slashed, Split, Listed, PathJoinSpec, UserName, Physical;
    var rel, q := Join(p), CleanParts(Split(Slashed(name)), p);
    FolderResolves(fs, root, p);
    FolderResolves(fs, root, q);
    InDirectory(fs, root + p, name);
    ChildPlace(rel, name);
    var path := PathJoinSpec([rel, name]);
    SameRequest(fs, root, path, Join(q));
    var x := NodeOf(fs[root + p + [name]], name, path);
    ListedNode(fs, root, rel, x);
    assert x in Listed(fs, root, rel);
  }

  lemma OneDown(fs: Fs, root: Path, d: Path, k: nat)
    requires RootReady(fs, root) && UserPath(d) && IsDir(fs, root + d) && k < |d|
    ensures Leads(fs, root, d[..k], d[..k + 1])
  {
    hide WellFormed, CleanParts, Slashed, Split, Leads, Physical;
    var p, name, full := d[..k], d[k], root + d;
    DirsAreNames(fs, full, |root| + k);
    DirsAreNames(fs, full, |root| + k + 1);
    assert full[..|root| + k] == root + p;
    assert d[..k + 1] == p + [name] && full[..|root| + k + 1] == root + (p + [name]) == root + p + [name];
    assert UserName(name);
    PlainPieces(name, p);
    LeadsIn(fs, root, p, name);
  }

  /** The directories on the way to a plain one. */
  lemma {:induction false} WayTo(fs: Fs, root: Path, d: Path, k: nat) returns (ps: seq<Path>)
    requires RootReady(fs, root) && UserPath(d) && IsDir(fs, root + d) && k <= |d|
    ensures Trail(fs, root, ps) && ps[|ps| - 1] == d[..k]
  {
    hide RootReady, Leads, UserPath;
    if k == 0 {
      ps := [[]];
    } else {
      var before := WayTo(fs, root, d, k - 1);
      OneDown(fs, root, d, k - 1);
      TrailExtended(fs, root, before, d[..k]);
      ps := before + [d[..k]];
    }
  }

  /** A visible directory with a directory in it whose name leads back to it, such as a single backslash or
      "x\\..": wherever it is, the queue never runs empty. */
  lemma ReturningLoops(fs: Fs, root: Path, d: Path, name: Name)
    requires RootReady(fs, root) && UserPath(d) && IsDir(fs, root + d) && IsDir(fs, root + d + [name])
    requires !Hidden(name) && '\0' !in name && CleanParts(Split(Slashed(name)), d) == d
    ensures Loops(fs, root) && !Ends(fs, root)
  {
    hide RootReady, Leads, CleanParts, Slashed, Split;
    var ps := WayTo(fs, root, d, |d|);
    assert d[..|d|] == d;
    LeadsIn(fs, root, d, name);
    TrailExtended(fs, root, ps, d);
    assert Meets(fs, root, ps + [d], |ps| - 1, |ps|);
    EndsExactly(fs, root);
  }

  const BACKSLASH: Name := "\\"

  const DOWN_AND_UP: Name := "x\\.."

  lemma ReturningNames(d: Path)
    ensures CleanParts(Split(Slashed(BACKSLASH)), d) == d
    ensures CleanParts(Split(Slashed(DOWN_AND_UP)), d) == d
  {
    assert Slashed(BACKSLASH) == "" + "/" + "";
    SplitConcat("", "");
    assert CleanParts([""] + [""], d) == CleanParts([""], d);
    assert Slashed(DOWN_AND_UP) == "x" + "/" + "..";
    SplitConcat("x", "..");
    SplitPiece("x", "");
    SplitPiece("..", "");
    var pieces := ["x"] + [".."];
    assert pieces[1..] == [".."] && pieces[0] == "x";
    assert CleanParts(pieces, d) == CleanParts([".."], d + ["x"]);
    assert (d + ["x"])[..|d|] == d;
  }

  /** The storage root with one directory in it. */
  function OneFolder(name: Name): Fs {
    map[[] := Dir(0), [name] := Dir(1)]
  }

  lemma OneFolderReady(name: Name)
    requires ValidName(name)
    ensures RootReady(OneFolder(name), []) && LinkFree(OneFolder(name), []) && IsDir(OneFolder(name), [] + [] + [name])
  {
    var fs := OneFolder(name);
    var p: Path := [name];
    assert Parent(p) == [] && Last(p) == name;
    ShapeSuffices(fs);
    RootIsPhysical(fs);
    assert [] + [] + [name] == p;
  }

  /** No name below the root contains the needle. */
  ghost predicate NoneMatches(fs: Fs, root: Path, needle: string) {
    forall p: Path :: p in fs && p != [] ==> !Contains(Fold(Last(p)), needle)
  }

  lemma {:induction false} NoMatches(nodes: Nodes, needle: string)
    requires forall x :: x in nodes ==> !Matches(x, needle)
    ensures Hits(nodes, needle) == []
  {
    if nodes != [] {
      NoMatches(nodes[1..], needle);
    }
  }

  lemma {:induction false} RowUnmatched(fs: Fs, root: Path, queue: seq<string>, needle: string)
    requires WellFormed(fs) && NoneMatches(fs, root, needle)
    ensures Hits(Row(fs, root, queue), needle) == []
  {
    hide WellFormed, Listed, PathJoinSpec, Contains, Resolve;
    if queue != [] {
      var nodes := Listed(fs, root, queue[0]);
      RowUnmatched(fs, root, queue[1..], needle);
      forall x | x in nodes ensures !Matches(x, needle) {
        ListedNode(fs, root, queue[0], x);
        var target := Resolve(fs, root, queue[0]).value;
        assert Last(target + [x.name]) == x.name;
      }
      NoMatches(nodes, needle);
      HitsConcat(nodes, Row(fs, root, queue[1..]), needle);
    }
  }

  lemma {:induction false} LevelsUnmatched(fs: Fs, root: Path, k: nat, needle: string)
    requires WellFormed(fs) && NoneMatches(fs, root, needle)
    ensures Hits(Levels(fs, root, k), needle) == []
  {
    hide WellFormed, NoneMatches, Row, RowAt;
    if k > 0 {
      LevelsUnmatched(fs, root, k - 1, needle);
      RowUnmatched(fs, root, RowAt(fs, root, k - 1), needle);
      HitsConcat(Levels(fs, root, k - 1), Row(fs, root, RowAt(fs, root, k - 1)), needle);
    }
  }

  /** A search that matches nothing ends exactly when the directories run out. */
  lemma UnmatchedEnds(fs: Fs, root: Path, needle: string, limit: int)
    requires WellFormed(fs) && NoneMatches(fs, root, needle) && limit >= 1
    ensures (exists k: nat :: Enough(fs, root, needle, limit, k)) <==> Ends(fs, root)
  {
    hide WellFormed, NoneMatches, RowAt, Levels, Hits;
    forall k: nat ensures Enough(fs, root, needle, limit, k) <==> RowAt(fs, root, k) == [] {
      LevelsUnmatched(fs, root, k, needle);
    }
    if k: nat :| RowAt(fs, root, k) == [] {
      assert Enough(fs, root, needle, limit, k);
    }
  }

  /** Two concrete trees, one directory each, on which searching for "q" never ends. */
  lemma ConcreteLoops(limit: int)
    requires limit >= 1
    ensures forall k: nat :: !Enough(OneFolder(BACKSLASH), [], "q", limit, k)
    ensures forall k: nat :: !Enough(OneFolder(DOWN_AND_UP), [], "q", limit, k)
  {
    hide RootReady, Enough, OneFolder;
    OneLoops(BACKSLASH, limit);
    OneLoops(DOWN_AND_UP, limit);
  }

  lemma OneLoops(name: Name, limit: int)
    requires limit >= 1 && (name == BACKSLASH || name == DOWN_AND_UP)
    ensures forall k: nat :: !Enough(OneFolder(name), [], "q", limit, k)
  {
    hide WellFormed, Physical, Enough, Ends, Loops, CleanParts, Split, Slashed, OneFolder, NoneMatches;
    var fs := OneFolder(name);
    OneFolderReady(name);
    ReturningNames([]);
    var top: Path := [];
    assert top + top == top;
    ReturningLoops(fs, [], [], name);
    OneUnmatched(name);
    UnmatchedEnds(fs, [], "q", limit);
  }

  lemma OneUnmatched(name: Name)
    requires name == BACKSLASH || name == DOWN_AND_UP
    ensures NoneMatches(OneFolder(name), [], "q")
  {
    NotContained(Fold(name), 'q');
    assert Last([name]) == name;
  }

  lemma Starts(s: string, c: char)
    requires HasPrefix(s, [c])
    ensures c in s
  {
    assert s[0] == [c][0];
  }

  lemma {:induction false} NotContained(s: string, c: char)
    requires c !in s
    ensures !Contains(s, [c])
  {
    if s != "" {
      NotContained(s[1..], c);
    }
    if HasPrefix(s, [c]) {
      Starts(s, c);
    }
  }
}
