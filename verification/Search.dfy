/** search.go: the breadth-first search over the directory listings. */
module Search {
  import opened CacheStore
  import opened FileSystem
  import opened ListingCache
  import opened Listings
  import opened Paths
  import opened Sessions  // Fold

  datatype Hit = Hit(name: string, path: string, isDir: bool, size: nat)

  // ---------------------------------------------------------------- the tree, level by level

  function DirsTo(nodes: Nodes, n: nat): seq<string>
    requires n <= |nodes|
  {
    if n == 0 then [] else DirsTo(nodes, n - 1) + if nodes[n - 1].isDir then [nodes[n - 1].path] else []
  }

  function Dirs(nodes: Nodes): seq<string> {
    DirsTo(nodes, |nodes|)
  }

  /** The listings of the directories in `queue`, one after the other. */
  function Row(fs: Fs, root: Path, queue: seq<string>): Nodes {
    if queue == [] then [] else Listed(fs, root, queue[0]) + Row(fs, root, queue[1..])
  }

  /** The directories in those listings. */
  function NextRow(fs: Fs, root: Path, queue: seq<string>): seq<string> {
    if queue == [] then [] else Dirs(Listed(fs, root, queue[0])) + NextRow(fs, root, queue[1..])
  }

  /** The directories `k` levels below the root. */
  function RowAt(fs: Fs, root: Path, k: nat): seq<string> {
    if k == 0 then [""] else NextRow(fs, root, RowAt(fs, root, k - 1))
  }

  /** The nodes of the first `k` levels, each directory's in the order of its listing. */
  function Levels(fs: Fs, root: Path, k: nat): Nodes {
    if k == 0 then [] else Levels(fs, root, k - 1) + Row(fs, root, RowAt(fs, root, k - 1))
  }

  /** How many directories those levels list. */
  function Count(fs: Fs, root: Path, k: nat): nat {
    if k == 0 then 0 else Count(fs, root, k - 1) + |RowAt(fs, root, k - 1)|
  }

  // ---------------------------------------------------------------- the queue

  /** The queue after its first directory has been listed. */
  function Advanced(fs: Fs, root: Path, queue: seq<string>): seq<string>
    requires queue != []
  {
    queue[1..] + Dirs(Listed(fs, root, queue[0]))
  }

  /** The queue after `n` more iterations. */
  function After(fs: Fs, root: Path, queue: seq<string>, n: nat): seq<string> {
    if n == 0 then queue
    else
      var before := After(fs, root, queue, n - 1);
      if before == [] then [] else Advanced(fs, root, before)
  }

  /** The nodes those iterations look at. */
  function Met(fs: Fs, root: Path, queue: seq<string>, n: nat): Nodes {
    if n == 0 then []
    else
      var before := After(fs, root, queue, n - 1);
      Met(fs, root, queue, n - 1) + if before == [] then [] else Listed(fs, root, before[0])
  }

  lemma OneIteration(fs: Fs, root: Path, queue: seq<string>, n: nat)
    ensures var before := After(fs, root, queue, n);
            && After(fs, root, queue, n + 1) == (if before == [] then [] else Advanced(fs, root, before))
            && Met(fs, root, queue, n + 1)
            == Met(fs, root, queue, n) + if before == [] then [] else Listed(fs, root, before[0])
  {
  }

  lemma NoIterations(fs: Fs, root: Path, queue: seq<string>)
    ensures After(fs, root, queue, 0) == queue && Met(fs, root, queue, 0) == []
  {
  }

  lemma {:induction false} AfterSum(fs: Fs, root: Path, queue: seq<string>, n: nat, m: nat)
    ensures After(fs, root, queue, n + m) == After(fs, root, After(fs, root, queue, n), m)
    ensures Met(fs, root, queue, n + m) == Met(fs, root, queue, n) + Met(fs, root, After(fs, root, queue, n), m)
    decreases m
  {
    hide *;
    var there, met := After(fs, root, queue, n), Met(fs, root, queue, n);
    if m == 0 {
      NoIterations(fs, root, there);
      assert met + [] == met;
    } else {
      AfterSum(fs, root, queue, n, m - 1);
      OneIteration(fs, root, queue, n + m - 1);
      OneIteration(fs, root, there, m - 1);
      var before := After(fs, root, queue, n + m - 1);
      var more := if before == [] then [] else Listed(fs, root, before[0]);
      assert met + Met(fs, root, there, m - 1) + more == met + (Met(fs, root, there, m - 1) + more);
    }
  }

  lemma AfterFirst(fs: Fs, root: Path, queue: seq<string>, n: nat)
    requires queue != []
    ensures After(fs, root, queue, n + 1) == After(fs, root, Advanced(fs, root, queue), n)
    ensures Met(fs, root, queue, n + 1) == Listed(fs, root, queue[0]) + Met(fs, root, Advanced(fs, root, queue), n)
  {
    hide *;
    AfterSum(fs, root, queue, 1, n);
    OneIteration(fs, root, queue, 0);
    NoIterations(fs, root, queue);
    assert [] + Listed(fs, root, queue[0]) == Listed(fs, root, queue[0]);
  }

  /** Working off a row lists it and queues its directories behind the rest. */
  lemma {:induction false} TakeRow(fs: Fs, root: Path, a: seq<string>, b: seq<string>)
    ensures After(fs, root, a + b, |a|) == b + NextRow(fs, root, a)
    ensures Met(fs, root, a + b, |a|) == Row(fs, root, a)
  {
    hide Listed, Dirs, Met, After;
    if a == [] {
      NoIterations(fs, root, a + b);
      assert a + b == b + [];
    } else {
      var dirs := Dirs(Listed(fs, root, a[0]));
      AfterFirst(fs, root, a + b, |a| - 1);
      assert (a + b)[1..] + dirs == a[1..] + (b + dirs);
      assert (a + b)[0] == a[0];
      TakeRow(fs, root, a[1..], b + dirs);
      assert b + dirs + NextRow(fs, root, a[1..]) == b + NextRow(fs, root, a);
    }
  }

  /** The queue meets the nodes level by level, whether it ever runs empty or not. */
  lemma {:induction false} QueueIsLevels(fs: Fs, root: Path, k: nat)
    ensures After(fs, root, [""], Count(fs, root, k)) == RowAt(fs, root, k)
    ensures Met(fs, root, [""], Count(fs, root, k)) == Levels(fs, root, k)
  {
    hide After, Met, Row, NextRow;
    if k == 0 {
      NoIterations(fs, root, [""]);
    } else {
      var row := RowAt(fs, root, k - 1);
      QueueIsLevels(fs, root, k - 1);
      AfterSum(fs, root, [""], Count(fs, root, k - 1), |row|);
      TakeRow(fs, root, row, []);
      assert row + [] == row && [] + NextRow(fs, root, row) == NextRow(fs, root, row);
    }
  }

  /** An empty queue stays empty and meets nothing. */
  lemma {:induction false} Emptied(fs: Fs, root: Path, m: nat)
    ensures After(fs, root, [], m) == [] && Met(fs, root, [], m) == []
  {
    if m > 0 {
      Emptied(fs, root, m - 1);
    }
  }

  // ---------------------------------------------------------------- matches

  /** `strings.Contains`. */
  predicate Contains(s: string, t: string) {
    HasPrefix(s, t) || (s != "" && Contains(s[1..], t))
  }

  /** Does the lower-case name contain the needle? */
  predicate Matches(n: TreeNode, needle: string) {
    Contains(Fold(n.name), needle)
  }

  function HitOf(n: TreeNode): Hit {
    Hit(n.name, n.path, n.isDir, if n.isDir then 0 else n.size)
  }

  /** The matching nodes, in order. */
  function Hits(nodes: Nodes, needle: string): seq<Hit> {
    if nodes == [] then []
    else (if Matches(nodes[0], needle) then [HitOf(nodes[0])] else []) + Hits(nodes[1..], needle)
  }

  lemma {:induction false} HitsConcat(a: Nodes, b: Nodes, needle: string)
    ensures Hits(a + b, needle) == Hits(a, needle) + Hits(b, needle)
  {
    if a == [] {
      assert a + b == b;
    } else {
      assert (a + b)[1..] == a[1..] + b;
      HitsConcat(a[1..], b, needle);
    }
  }

  lemma HitsSnoc(nodes: Nodes, n: nat, needle: string)
    requires n < |nodes|
    ensures Hits(nodes[..n + 1], needle)
         == Hits(nodes[..n], needle) + if Matches(nodes[n], needle) then [HitOf(nodes[n])] else []
  {
    assert nodes[..n + 1] == nodes[..n] + [nodes[n]];
    HitsConcat(nodes[..n], [nodes[n]], needle);
  }

  lemma NoHits(nodes: Nodes, needle: string)
    ensures Hits(nodes[..0], needle) == []
  {
  }

  lemma HitsSplit(nodes: Nodes, n: nat, needle: string)
    requires n <= |nodes|
    ensures Hits(nodes, needle) == Hits(nodes[..n], needle) + Hits(nodes[n..], needle)
  {
    assert nodes == nodes[..n] + nodes[n..];
    HitsConcat(nodes[..n], nodes[n..], needle);
  }

  // ---------------------------------------------------------------- when the search ends

  /** The first `k` levels are all there is, or hold enough matches. */
  predicate Enough(fs: Fs, root: Path, needle: string, limit: int, k: nat) {
    RowAt(fs, root, k) == [] || |Hits(Levels(fs, root, k), needle)| >= limit
  }

  /** After `n` iterations the queue is empty or enough matches have been met. */
  predicate Finished(fs: Fs, root: Path, needle: string, limit: int, n: nat) {
    After(fs, root, [""], n) == [] || |Hits(Met(fs, root, [""], n), needle)| >= limit
  }

  lemma LevelsFinish(fs: Fs, root: Path, needle: string, limit: int, k: nat)
    ensures Finished(fs, root, needle, limit, Count(fs, root, k)) <==> Enough(fs, root, needle, limit, k)
  {
    QueueIsLevels(fs, root, k);
  }

  lemma FinishedLater(fs: Fs, root: Path, needle: string, limit: int, n: nat, m: nat)
    requires Finished(fs, root, needle, limit, n) && n <= m
    ensures Finished(fs, root, needle, limit, m)
  {
    hide After, Met, Hits;
    AfterSum(fs, root, [""], n, m - n);
    Emptied(fs, root, m - n);
    HitsConcat(Met(fs, root, [""], n), Met(fs, root, After(fs, root, [""], n), m - n), needle);
  }

  lemma {:induction false} NonEmptyRows(fs: Fs, root: Path, k: nat)
    requires forall j: nat :: j < k ==> RowAt(fs, root, j) != []
    ensures Count(fs, root, k) >= k
  {
    if k > 0 {
      NonEmptyRows(fs, root, k - 1);
    }
  }

  lemma NothingLeft(fs: Fs, root: Path, needle: string, limit: int, k: nat)
    requires RowAt(fs, root, k) == []
    ensures Enough(fs, root, needle, limit, k)
  {
  }

  /** The loop ends exactly when some number of levels is all there is or holds enough matches. */
  lemma SearchEndsExactly(fs: Fs, root: Path, needle: string, limit: int)
    ensures (exists n: nat :: Finished(fs, root, needle, limit, n)) <==>
              (exists k: nat :: Enough(fs, root, needle, limit, k))
  {
    hide Finished, Enough;
    if k: nat :| Enough(fs, root, needle, limit, k) {
      LevelsFinish(fs, root, needle, limit, k);
    }
    if n: nat :| Finished(fs, root, needle, limit, n) {
      if j: nat :| j < n && RowAt(fs, root, j) == [] {
        NothingLeft(fs, root, needle, limit, j);
      } else {
        NonEmptyRows(fs, root, n);
        FinishedLater(fs, root, needle, limit, n, Count(fs, root, n));
        LevelsFinish(fs, root, needle, limit, n);
      }
    }
  }

  // ---------------------------------------------------------------- other spellings of the queue

  predicate SameHit(exact: bool, a: Hit, b: Hit) {
    a.name == b.name && a.isDir == b.isDir && a.size == b.size && Alike(exact, a.path, b.path)
  }

  ghost predicate SameHits(exact: bool, a: seq<Hit>, b: seq<Hit>) {
    |a| == |b| && forall i :: 0 <= i < |a| ==> SameHit(exact, a[i], b[i])
  }

  ghost predicate SameQueue(exact: bool, a: seq<string>, b: seq<string>) {
    |a| == |b| && forall i :: 0 <= i < |a| ==> Alike(exact, a[i], b[i])
  }

  lemma {:induction false} DirsAlike(exact: bool, a: Nodes, b: Nodes, n: nat)
    requires SameNodes(exact, a, b) && n <= |a|
    ensures SameQueue(exact, DirsTo(a, n), DirsTo(b, n))
  {
    hide Alike;
    if n > 0 {
      DirsAlike(exact, a, b, n - 1);
      assert SameNode(exact, a[n - 1], b[n - 1]);
    }
  }

  lemma {:induction false} HitsAlike(exact: bool, a: Nodes, b: Nodes, needle: string)
    requires SameNodes(exact, a, b)
    ensures SameHits(exact, Hits(a, needle), Hits(b, needle))
  {
    hide Alike, Matches;
    if a != [] {
      assert SameNode(exact, a[0], b[0]);
      NamesMatch(a[0], b[0], needle);
      HitsAlike(exact, a[1..], b[1..], needle);
    }
  }

  lemma NamesMatch(a: TreeNode, b: TreeNode, needle: string)
    requires a.name == b.name
    ensures Matches(a, needle) <==> Matches(b, needle)
  {
  }

  /** One iteration on a queue spelled otherwise, with a listing spelled otherwise. */
  lemma AdvancedAlike(fs: Fs, root: Path, exact: bool, queue: seq<string>, plain: seq<string>, nodes: Nodes)
    requires WellFormed(fs) && SameQueue(exact, queue, plain) && queue != []
    requires SameNodes(exact, nodes, Listed(fs, root, queue[0]))
    ensures SameQueue(exact, queue[1..] + Dirs(nodes), Advanced(fs, root, plain))
    ensures SameNodes(exact, nodes, Listed(fs, root, plain[0]))
  {
    hide WellFormed, Alike, Listed, SameNodes, DirsTo, SameQueue;
    FrontAlike(exact, queue, plain);
    ListDirAlike(fs, root, exact, queue[0], plain[0]);
    SameNodesTransitive(exact, nodes, Listed(fs, root, queue[0]), Listed(fs, root, plain[0]));
    SameSizes(exact, nodes, Listed(fs, root, plain[0]));
    DirsAlike(exact, nodes, Listed(fs, root, plain[0]), |nodes|);
    QueuesJoined(exact, queue[1..], plain[1..], Dirs(nodes), Dirs(Listed(fs, root, plain[0])));
  }

  lemma FrontAlike(exact: bool, a: seq<string>, b: seq<string>)
    requires SameQueue(exact, a, b) && a != []
    ensures b != [] && Alike(exact, a[0], b[0]) && SameQueue(exact, a[1..], b[1..])
  {
    hide Alike;
  }

  lemma QueuesJoined(exact: bool, a: seq<string>, b: seq<string>, c: seq<string>, d: seq<string>)
    requires SameQueue(exact, a, b) && SameQueue(exact, c, d)
    ensures SameQueue(exact, a + c, b + d)
  {
    hide Alike;
  }

  lemma SameSizes(exact: bool, a: Nodes, b: Nodes)
    requires SameNodes(exact, a, b)
    ensures |a| == |b|
  {
  }

  function Joined(listings: seq<Nodes>): Nodes {
    if listings == [] then [] else Joined(listings[..|listings| - 1]) + listings[|listings| - 1]
  }

  /** Iterations of the loop that stop nowhere: each takes the front directory's listing from wherever it
      likes, a directory that cannot be listed counting as an empty one. */
  ghost predicate Iterates(fs: Fs, root: Path, queues: seq<seq<string>>, listings: seq<Nodes>) {
    && |queues| == |listings| + 1 && queues[0] == [""]
    && forall i :: 0 <= i < |listings| ==>
         && queues[i] != [] && SameNodes(false, listings[i], Listed(fs, root, queues[i][0]))
         && queues[i + 1] == queues[i][1..] + Dirs(listings[i])
  }

  lemma NothingMet(fs: Fs, root: Path, needle: string)
    ensures SameQueue(false, [""], After(fs, root, [""], 0))
    ensures SameHits(false, Hits(Joined([]), needle), Hits(Met(fs, root, [""], 0), needle))
  {
  }

  lemma {:induction false} IteratesAlike(fs: Fs, root: Path, queues: seq<seq<string>>, listings: seq<Nodes>,
                                         needle: string)
    requires WellFormed(fs) && Iterates(fs, root, queues, listings)
    ensures SameQueue(false, queues[|listings|], After(fs, root, [""], |listings|))
    ensures SameHits(false, Hits(Joined(listings), needle), Hits(Met(fs, root, [""], |listings|), needle))
  {
    hide WellFormed, Alike, Listed, SameNodes, Hits, Dirs, SameHits;
    var n := |listings|;
    if n == 0 {
      NothingMet(fs, root, needle);
    } else {
      var before := listings[..n - 1];
      assert Iterates(fs, root, queues[..n], before);
      IteratesAlike(fs, root, queues[..n], before, needle);
      assert queues[..n][n - 1] == queues[n - 1];
      OneMore(fs, root, n - 1, queues[n - 1], Joined(before), listings[n - 1], needle);
    }
  }

  lemma OneMore(fs: Fs, root: Path, n: nat, queue: seq<string>, met: Nodes, nodes: Nodes, needle: string)
    requires WellFormed(fs) && SameQueue(false, queue, After(fs, root, [""], n)) && queue != []
    requires SameHits(false, Hits(met, needle), Hits(Met(fs, root, [""], n), needle))
    requires SameNodes(false, nodes, Listed(fs, root, queue[0]))
    ensures SameQueue(false, queue[1..] + Dirs(nodes), After(fs, root, [""], n + 1))
    ensures SameHits(false, Hits(met + nodes, needle), Hits(Met(fs, root, [""], n + 1), needle))
  {
    hide WellFormed, Alike, Listed, SameNodes, Hits, Dirs, After, Met;
    var plain := After(fs, root, [""], n);
    OneIteration(fs, root, [""], n);
    AdvancedAlike(fs, root, false, queue, plain, nodes);
    HitsAlike(false, nodes, Listed(fs, root, plain[0]), needle);
    HitsConcat(met, nodes, needle);
    HitsConcat(Met(fs, root, [""], n), Listed(fs, root, plain[0]), needle);
  }

  /** Otherwise it goes on for ever: however often it has iterated, with listings from disk or from any
      cache, directories are left and matches are lacking. */
  lemma GoesOn(fs: Fs, root: Path, needle: string, limit: int, queues: seq<seq<string>>, listings: seq<Nodes>)
    requires WellFormed(fs) && (forall k: nat :: !Enough(fs, root, needle, limit, k))
    requires Iterates(fs, root, queues, listings)
    ensures queues[|listings|] != [] && |Hits(Joined(listings), needle)| < limit
  {
    hide WellFormed, Alike, Listed, SameNodes, Hits, Dirs, Enough;
    SearchEndsExactly(fs, root, needle, limit);
    IteratesAlike(fs, root, queues, listings, needle);
    assert !Finished(fs, root, needle, limit, |listings|);
  }

  // ---------------------------------------------------------------- searching

  /** What the search answers: the first `limit` of the matches, and whether there are as many. */
  ghost predicate Answers(exact: bool, all: seq<Hit>, limit: int, results: seq<Hit>, limited: bool)
    requires limit >= 1
  {
    SameHits(exact, results, if |all| <= limit then all else all[..limit]) && (limited <==> |all| >= limit)
  }

  /** The answer is the same at every depth that is enough. */
  lemma AnyDepth(fs: Fs, root: Path, exact: bool, needle: string, limit: int, n: nat, m: nat, results: seq<Hit>,
                 limited: bool)
    requires limit >= 1 && Finished(fs, root, needle, limit, n) && Finished(fs, root, needle, limit, m)
    requires Answers(exact, Hits(Met(fs, root, [""], n), needle), limit, results, limited)
    ensures Answers(exact, Hits(Met(fs, root, [""], m), needle), limit, results, limited)
  {
    hide Hits, SameHits, After, Met;
    var a, b := if n <= m then n else m, if n <= m then m else n;
    AfterSum(fs, root, [""], a, b - a);
    Emptied(fs, root, b - a);
    HitsConcat(Met(fs, root, [""], a), Met(fs, root, After(fs, root, [""], a), b - a), needle);
    var few, all := Hits(Met(fs, root, [""], a), needle), Hits(Met(fs, root, [""], b), needle);
    assert few <= all;
    if |few| >= limit {
      assert all[..limit] == few[..limit];
      assert |few| == limit ==> few[..limit] == few;
      assert |all| <= limit ==> few == all;
    } else {
      assert Met(fs, root, [""], a) + [] == Met(fs, root, [""], a);
    }
  }

  /** No directory the search queues has a path that its cache key would shorten. */
  ghost predicate KeysPlain(fs: Fs, root: Path) {
    forall n: nat, i :: 0 <= i < |After(fs, root, [""], n)| ==>
      CacheKey(After(fs, root, [""], n)[i]) == After(fs, root, [""], n)[i]
  }

  /** One directory's nodes: its directories are queued and its matches reported, up to the limit. */
  method Scan(nodes: Nodes, needle: string, limit: int, found: seq<Hit>)
    returns (dirs: seq<string>, results: seq<Hit>, full: bool)
    requires |found| < limit
    ensures !full ==> dirs == Dirs(nodes) && results == found + Hits(nodes, needle) && |results| < limit
    ensures full ==> |results| == limit && results <= found + Hits(nodes, needle)
  {
    hide Hits, Matches, HitOf;
    dirs, results := [], found;
    NoHits(nodes, needle);
    for i := 0 to |nodes|
      invariant dirs == DirsTo(nodes, i) && results == found + Hits(nodes[..i], needle) && |results| < limit
    {
      var n := nodes[i];
      HitsSnoc(nodes, i, needle);
      if n.isDir {
        dirs := dirs + [n.path];
      }
      if !Matches(n, needle) {
        continue;
      }
      results := results + [HitOf(n)];
      if |results| >= limit {
        HitsSplit(nodes, i + 1, needle);
        assert found + Hits(nodes, needle) == results + Hits(nodes[i + 1..], needle);
        return dirs, results, true;
      }
    }
    assert nodes[..|nodes|] == nodes;
    return dirs, results, false;
  }

  /** Where the loop stands: `queue` and `results` are those of `n` iterations without a cache, up to spelling. */
  ghost predicate At(fs: Fs, root: Path, exact: bool, needle: string, n: nat, queue: seq<string>, results: seq<Hit>) {
    && SameQueue(exact, queue, After(fs, root, [""], n))
    && SameHits(exact, results, Hits(Met(fs, root, [""], n), needle))
  }

  lemma AtStart(fs: Fs, root: Path, exact: bool, needle: string)
    ensures At(fs, root, exact, needle, 0, [""], [])
  {
    NoHits([], needle);
  }

  lemma Proceeds(fs: Fs, root: Path, exact: bool, needle: string, n: nat, queue: seq<string>, results: seq<Hit>,
                 nodes: Nodes)
    requires WellFormed(fs) && At(fs, root, exact, needle, n, queue, results) && queue != []
    requires SameNodes(exact, nodes, Listed(fs, root, queue[0]))
    ensures At(fs, root, exact, needle, n + 1, queue[1..] + Dirs(nodes), results + Hits(nodes, needle))
  {
    hide WellFormed, Alike, Listed, SameNodes, Hits, Dirs;
    var plain := After(fs, root, [""], n);
    AdvancedAlike(fs, root, exact, queue, plain, nodes);
    HitsAlike(exact, nodes, Listed(fs, root, plain[0]), needle);
    HitsConcat(Met(fs, root, [""], n), Listed(fs, root, plain[0]), needle);
  }

  /** At the front of the queue the key changes nothing, if exactness demands so. */
  lemma FrontKey(fs: Fs, root: Path, exact: bool, needle: string, n: nat, queue: seq<string>, results: seq<Hit>)
    requires At(fs, root, exact, needle, n, queue, results) && queue != [] && (exact ==> KeysPlain(fs, root))
    ensures exact ==> CacheKey(queue[0]) == queue[0]
  {
    hide After, Met, Hits, CacheKey;
    assert Alike(exact, queue[0], After(fs, root, [""], n)[0]);
  }

  /** Before the `n`-th iteration something is left to do. */
  lemma NotYet(fs: Fs, root: Path, exact: bool, needle: string, limit: int, n: nat, done: nat, queue: seq<string>,
               results: seq<Hit>)
    requires Finished(fs, root, needle, limit, n) && At(fs, root, exact, needle, done, queue, results)
    requires queue != [] && |results| < limit && done <= n
    ensures done < n
  {
    hide After, Met, Hits;
  }

  /** When the queue is empty all matches have been reported, and they were fewer than the limit. */
  lemma AllReported(fs: Fs, root: Path, exact: bool, needle: string, limit: int, n: nat, done: nat, results: seq<Hit>)
    requires limit >= 1 && At(fs, root, exact, needle, done, [], results) && |results| < limit && done <= n
    ensures Answers(exact, Hits(Met(fs, root, [""], n), needle), limit, results, false)
  {
    hide Hits, After, Met;
    AfterSum(fs, root, [""], done, n - done);
    Emptied(fs, root, n - done);
    assert Met(fs, root, [""], done) + [] == Met(fs, root, [""], done);
  }

  lemma FirstAlike(exact: bool, some: seq<Hit>, more: seq<Hit>, few: seq<Hit>, all: seq<Hit>, limit: nat)
    requires |some| == limit && some <= more && SameHits(exact, more, few) && few <= all
    ensures limit >= 1 ==> Answers(exact, all, limit, some, true)
  {
    hide Alike;
    forall i | 0 <= i < limit ensures SameHit(exact, some[i], all[..limit][i]) {
      assert some[i] == more[i] && SameHit(exact, more[i], few[i]);
    }
    assert |all| == limit ==> all[..limit] == all;
  }

  /** At the limit the first matches have been reported. */
  lemma LimitReached(fs: Fs, root: Path, exact: bool, needle: string, limit: int, n: nat, done: nat, queue: seq<string>,
                     more: seq<Hit>, results: seq<Hit>)
    requires limit >= 1 && At(fs, root, exact, needle, done, queue, more) && done <= n
    requires |results| == limit && results <= more
    ensures Answers(exact, Hits(Met(fs, root, [""], n), needle), limit, results, true)
  {
    hide Hits, SameHits, Answers, After, Met, SameQueue;
    AfterSum(fs, root, [""], done, n - done);
    var met, later := Met(fs, root, [""], done), Met(fs, root, After(fs, root, [""], done), n - done);
    HitsConcat(met, later, needle);
    FirstAlike(exact, results, more, Hits(met, needle), Hits(Met(fs, root, [""], n), needle), limit);
  }

  /** From any coherent cache, and whatever is evicted while it runs, the search returns the first `limit`
      matches in level order, if it ends at all. Their paths are those that reading every directory afresh
      would give, when keys are plain and the cache is exact, and lead to the same places otherwise. */
  method SearchInTree(fs: Fs, root: Path, cache: Cache, needle: string, limit: int, ghost exact: bool)
    returns (results: seq<Hit>, limited: bool)
    requires WellFormed(fs) && cache.Valid() && Coherent(fs, root, exact, cache.Vals())
    requires exact ==> KeysPlain(fs, root)
    requires limit >= 1 ==> exists k: nat :: Enough(fs, root, needle, limit, k)
    modifies cache, cache.m.Values
    ensures cache.Valid() && Coherent(fs, root, exact, cache.Vals())
    ensures limit < 1 ==> results == [] && !limited
    ensures limit >= 1 ==> forall k: nat :: Enough(fs, root, needle, limit, k) ==>
              Answers(exact, Hits(Levels(fs, root, k), needle), limit, results, limited)
  {
    hide WellFormed, Coherent, Hits, Listed, ListDir, CacheKey, Dirs, At, Finished, KeysPlain, Answers, SameNodes,
      Enough;
    results := [];
    var queue := [""];
    AtStart(fs, root, exact, needle);
    SearchEndsExactly(fs, root, needle, limit);
    ghost var n: nat, done: nat := 0, 0;
    if limit >= 1 {
      n :| Finished(fs, root, needle, limit, n);
    }
    while queue != [] && |results| < limit
      invariant cache.Valid() && Coherent(fs, root, exact, cache.Vals())
      invariant forall k :: k in cache.m ==> cache.m[k] in old(cache.m.Values) || fresh(cache.m[k])
      invariant done <= n && At(fs, root, exact, needle, done, queue, results)
      invariant |results| < limit || (limit < 1 && results == [])
      decreases n - done
    {
      var rel := queue[0];
      NotYet(fs, root, exact, needle, limit, n, done, queue, results);
      FrontKey(fs, root, exact, needle, done, queue, results);
      var listing := ListDirNodes(fs, root, cache, rel, exact);
      ListsNodes(fs, root, exact, rel, listing);
      var nodes := if listing.Ok? then listing.value else [];
      var dirs, found, full := Scan(nodes, needle, limit, results);
      Proceeds(fs, root, exact, needle, done, queue, results, nodes);
      done := done + 1;
      if full {
        ghost var left, more := queue[1..] + Dirs(nodes), results + Hits(nodes, needle);
        LimitReached(fs, root, exact, needle, limit, n, done, left, more, found);
        AnswersAll(fs, root, exact, needle, limit, n, found, true);
        return found, true;
      }
      queue := queue[1..] + dirs;
      results := found;
    }
    if limit >= 1 {
      AllReported(fs, root, exact, needle, limit, n, done, results);
      AnswersAll(fs, root, exact, needle, limit, n, results, false);
    }
    return results, false;
  }

  lemma ListsNodes(fs: Fs, root: Path, exact: bool, rel: string, r: Result<Nodes>)
    requires Lists(fs, root, exact, rel, r)
    ensures SameNodes(exact, if r.Ok? then r.value else [], Listed(fs, root, rel))
  {
  }

  lemma AnswersAll(fs: Fs, root: Path, exact: bool, needle: string, limit: int, n: nat, results: seq<Hit>,
                   limited: bool)
    requires limit >= 1 && Finished(fs, root, needle, limit, n)
    requires Answers(exact, Hits(Met(fs, root, [""], n), needle), limit, results, limited)
    ensures forall k: nat :: Enough(fs, root, needle, limit, k) ==>
              Answers(exact, Hits(Levels(fs, root, k), needle), limit, results, limited)
  {
    hide Finished, Answers, Hits, Enough;
    forall k: nat | Enough(fs, root, needle, limit, k)
      ensures Answers(exact, Hits(Levels(fs, root, k), needle), limit, results, limited)
    {
      LevelsFinish(fs, root, needle, limit, k);
      QueueIsLevels(fs, root, k);
      AnyDepth(fs, root, exact, needle, limit, n, Count(fs, root, k), results, limited);
    }
  }
}
