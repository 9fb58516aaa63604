/** search.go: which nodes the search meets, where no name holds a backslash. */
module SearchVisible {
  import opened ArchiveShares
  import opened FileSystem
  import opened ListingCache
  import opened Listings
  import opened Paths
  import opened Resolver
  import opened Search
  import opened SearchEnds
  import opened Tree

  /** An entry below the root with no dot-leading name on the way, and not a link that leads out. */
  predicate Seen(fs: Fs, root: Path, q: Path) {
    q != [] && UserPath(q) && root + q in fs && Resolve(fs, root, Join(q)).Ok?
  }

  /** Its node: its own name, path, kind and size. */
  function NodeAt(fs: Fs, root: Path, q: Path): TreeNode
    requires q != [] && root + q in fs
  {
    NodeOf(fs[root + q], Last(q), Join(q))
  }

  ghost predicate IsNodeAt(fs: Fs, root: Path, q: Path, depth: nat, x: TreeNode) {
    |q| == depth && Seen(fs, root, q) && x == NodeAt(fs, root, q)
  }

  ghost predicate SeenAt(fs: Fs, root: Path, depth: nat, x: TreeNode) {
    exists q :: IsNodeAt(fs, root, q, depth, x)
  }

  predicate FolderAt(fs: Fs, root: Path, p: Path, depth: nat, rel: string) {
    |p| == depth && UserPath(p) && IsDir(fs, root + p) && rel == Join(p)
  }

  ghost predicate IsFolder(fs: Fs, root: Path, depth: nat, rel: string) {
    exists p :: FolderAt(fs, root, p, depth, rel)
  }

  lemma JoinedPlainly(p: Path, name: Name)
    requires UserPath(p) && UserName(name)
    ensures PathJoinSpec([Join(p), name]) == Join(p + [name])
  {
    if p == [] {
      JoinedUnderRoot("", name);
    } else {
      JoinedUnder(p, name);
    }
  }

  lemma DotNames(name: Name)
    requires ValidName(name)
    ensures HasPrefix(name, ".") <==> Hidden(name)
  {
  }

  /** A folder lists exactly the seen entries in it. */
  lemma InListing(fs: Fs, root: Path, p: Path, x: TreeNode)
    requires SearchReady(fs, root) && UserPath(p) && IsDir(fs, root + p)
    ensures x in Listed(fs, root, Join(p)) <==> IsNodeAt(fs, root, p + [x.name], |p| + 1, x)
  {
    hide WellFormed, Physical, Resolve, PathJoinSpec, PlainNames, Listed, Join, ValidName;
    var q := p + [x.name];
    FolderResolves(fs, root, p);
    ListedNode(fs, root, Join(p), x);
    assert root + p + [x.name] == root + q && Last(q) == x.name && q[|p|] == x.name;
    if root + q in fs {
      InDirectory(fs, root + p, x.name);
      DotNames(x.name);
      if !Hidden(x.name) {
        PlainName(fs, root, p, x.name);
        JoinedPlainly(p, x.name);
        Longer(p, x.name);
      }
    }
  }

  lemma Longer(p: Path, name: Name)
    requires UserPath(p) && UserName(name)
    ensures UserPath(p + [name])
  {
  }

  lemma FolderAbove(fs: Fs, root: Path, q: Path)
    requires RootReady(fs, root) && q != [] && UserPath(q) && root + q in fs
    ensures UserPath(Parent(q)) && IsDir(fs, root + Parent(q)) && Parent(q) + [Last(q)] == q
  {
    hide WellFormed, Physical, UserName;
    var full := root + q;
    InTree(fs, full);
    assert |full| == |root| + |q| && Parent(full) == root + Parent(q);
  }

  /** The queue of a level holds its folders, plainly spelled. */
  lemma {:induction false} RowsAre(fs: Fs, root: Path, k: nat, rel: string)
    requires SearchReady(fs, root)
    ensures rel in RowAt(fs, root, k) <==> IsFolder(fs, root, k, rel)
  {
    hide SearchReady, Listed, Dirs, Join, UserPath, IsDir;
    if k == 0 {
      TopFolder(fs, root, rel);
    } else {
      var row := RowAt(fs, root, k - 1);
      InNextRow(fs, root, row, rel);
      if rel in RowAt(fs, root, k) {
        var i :| 0 <= i < |row| && rel in Dirs(Listed(fs, root, row[i]));
        RowsAre(fs, root, k - 1, row[i]);
        var p :| FolderAt(fs, root, p, k - 1, row[i]);
        DirBelow(fs, root, p, rel);
      }
      if q :| FolderAt(fs, root, q, k, rel) {
        DirAbove(fs, root, q);
        RowsAre(fs, root, k - 1, Join(Parent(q)));
        assert FolderAt(fs, root, Parent(q), k - 1, Join(Parent(q)));
        var i :| 0 <= i < |row| && row[i] == Join(Parent(q));
      }
    }
  }

  lemma TopFolder(fs: Fs, root: Path, rel: string)
    requires SearchReady(fs, root)
    ensures rel == "" <==> IsFolder(fs, root, 0, rel)
  {
    assert root + [] == root;
    assert FolderAt(fs, root, [], 0, "");
  }

  lemma DirBelow(fs: Fs, root: Path, p: Path, rel: string)
    requires SearchReady(fs, root) && UserPath(p) && IsDir(fs, root + p) && rel in Dirs(Listed(fs, root, Join(p)))
    ensures IsFolder(fs, root, |p| + 1, rel)
  {
    hide SearchReady, Listed, Resolve;
    var nodes := Listed(fs, root, Join(p));
    InDirs(nodes, |nodes|, rel);
    var i :| 0 <= i < |nodes| && nodes[i].isDir && nodes[i].path == rel;
    InListing(fs, root, p, nodes[i]);
    assert FolderAt(fs, root, p + [nodes[i].name], |p| + 1, rel);
  }

  lemma DirAbove(fs: Fs, root: Path, q: Path)
    requires SearchReady(fs, root) && UserPath(q) && IsDir(fs, root + q) && q != []
    ensures UserPath(Parent(q)) && IsDir(fs, root + Parent(q)) && Join(q) in Dirs(Listed(fs, root, Join(Parent(q))))
  {
    hide WellFormed, Physical, PlainNames, Listed, Resolve, Join;
    FolderAbove(fs, root, q);
    FolderResolves(fs, root, q);
    var nodes, x := Listed(fs, root, Join(Parent(q))), NodeAt(fs, root, q);
    InListing(fs, root, Parent(q), x);
    var i :| 0 <= i < |nodes| && nodes[i] == x;
    InDirs(nodes, |nodes|, Join(q));
  }

  lemma {:induction false} InRow(fs: Fs, root: Path, queue: seq<string>, x: TreeNode)
    ensures x in Row(fs, root, queue) <==> exists i :: 0 <= i < |queue| && x in Listed(fs, root, queue[i])
  {
    hide Listed;
    if queue != [] {
      InRow(fs, root, queue[1..], x);
      if i :| 0 <= i < |queue| && x in Listed(fs, root, queue[i]) {
        assert i > 0 ==> queue[1..][i - 1] == queue[i];
      }
      if i :| 0 <= i < |queue[1..]| && x in Listed(fs, root, queue[1..][i]) {
        assert queue[i + 1] == queue[1..][i];
      }
    }
  }

  /** A level's nodes are the seen entries of that depth. */
  lemma LevelIs(fs: Fs, root: Path, k: nat, x: TreeNode)
    requires SearchReady(fs, root)
    ensures x in Row(fs, root, RowAt(fs, root, k)) <==> SeenAt(fs, root, k + 1, x)
  {
    hide WellFormed, Physical, PlainNames, Listed, RowAt, Row, Join, Resolve, UserPath;
    var row := RowAt(fs, root, k);
    InRow(fs, root, row, x);
    if i :| 0 <= i < |row| && x in Listed(fs, root, row[i]) {
      RowsAre(fs, root, k, row[i]);
      var p :| FolderAt(fs, root, p, k, row[i]);
      InListing(fs, root, p, x);
      assert IsNodeAt(fs, root, p + [x.name], k + 1, x);
    }
    if SeenAt(fs, root, k + 1, x) {
      var q :| IsNodeAt(fs, root, q, k + 1, x);
      FolderAbove(fs, root, q);
      var p := Parent(q);
      RowsAre(fs, root, k, Join(p));
      assert FolderAt(fs, root, p, k, Join(p));
      InListing(fs, root, p, x);
    }
  }

  lemma {:induction false} LevelsAre(fs: Fs, root: Path, k: nat, x: TreeNode)
    requires SearchReady(fs, root)
    ensures x in Levels(fs, root, k) <==> exists q :: |q| <= k && IsNodeAt(fs, root, q, |q|, x)
  {
    hide SearchReady, Row, RowAt, Seen;
    if k == 0 {
      if q: Path :| |q| <= 0 && IsNodeAt(fs, root, q, |q|, x) {
        SeenBelow(fs, root, q);
      }
    } else {
      LevelsAre(fs, root, k - 1, x);
      LevelIs(fs, root, k - 1, x);
      if q: Path :| |q| <= k && IsNodeAt(fs, root, q, |q|, x) {
        assert |q| == k ==> IsNodeAt(fs, root, q, k, x);
      }
      if q :| IsNodeAt(fs, root, q, k, x) {
        assert |q| <= k && IsNodeAt(fs, root, q, |q|, x);
      }
    }
  }

  lemma SeenBelow(fs: Fs, root: Path, q: Path)
    requires Seen(fs, root, q)
    ensures q != []
  {
  }

  /** Entries deeper than an empty level there are none. */
  lemma NothingDeeper(fs: Fs, root: Path, k: nat, q: Path)
    requires SearchReady(fs, root) && RowAt(fs, root, k) == [] && Seen(fs, root, q)
    ensures |q| <= k
  {
    hide WellFormed, Physical, PlainNames, RowAt, Resolve, Join;
    if |q| > k {
      var p, full := q[..k], root + q;
      Ancestors(fs, full, |root| + k);
      assert full[..|root| + k] == root + p;
      assert FolderAt(fs, root, p, k, Join(p));
      RowsAre(fs, root, k, Join(p));
    }
  }

  // ---------------------------------------------------------------- each of them once

  ghost predicate NoPathTwice(nodes: Nodes) {
    forall i, j :: 0 <= i < j < |nodes| ==> nodes[i].path != nodes[j].path
  }

  lemma OncePerPart(a: Nodes, b: Nodes)
    requires NoPathTwice(a) && NoPathTwice(b) && forall x, y :: x in a && y in b ==> x.path != y.path
    ensures NoPathTwice(a + b)
  {
    var all := a + b;
    forall i, j | 0 <= i < j < |all| ensures all[i].path != all[j].path {
      if i < |a| && j >= |a| {
        assert all[i] in a && all[j] == b[j - |a|] && all[j] in b;
      }
    }
  }

  lemma {:induction false} OncePerEntry(fs: Fs, root: Path, rel: string, target: Path, names: seq<Name>, n: nat)
    requires WellFormed(fs) && EntriesOf(fs, target, names) && Increasing(names) && n <= |names|
    ensures NoPathTwice(NodesTo(fs, root, rel, target, names, n))
  {
    hide WellFormed, PathJoinSpec, Shown, Increasing;
    if n > 0 {
      OncePerEntry(fs, root, rel, target, names, n - 1);
      var before, name := NodesTo(fs, root, rel, target, names, n - 1), names[n - 1];
      var x := NodeOf(fs[target + [name]], name, PathJoinSpec([rel, name]));
      forall y | y in before ensures y.path != x.path {
        NodesToMembers(fs, root, rel, target, names, n - 1, y);
        var k :| 0 <= k < n - 1 && y == NodeOf(fs[target + [names[k]]], names[k], PathJoinSpec([rel, names[k]]));
        IncreasingDistinct(names, k, n - 1);
        OtherName(fs, target, rel, names[k], name);
        var path := PathJoinSpec([rel, names[k]]);
        assert y == NodeOf(fs[target + [names[k]]], names[k], path);
        assert y.path == path;
      }
      OncePerPart(before, [x]);
      assert before + [] == before;
    }
  }

  lemma OtherName(fs: Fs, target: Path, rel: string, a: Name, b: Name)
    requires WellFormed(fs) && target + [a] in fs && target + [b] in fs && a != b
    ensures PathJoinSpec([rel, a]) != PathJoinSpec([rel, b])
  {
    hide WellFormed, PathJoinSpec, Trim;
    InDirectory(fs, target, a);
    InDirectory(fs, target, b);
    JoinedWith(rel, a);
    JoinedWith(rel, b);
    var p := Trim(rel, "/") + "/";
    assert (p + a)[|p|..] == a && (p + b)[|p|..] == b;
  }

  lemma OncePerListing(fs: Fs, root: Path, rel: string)
    requires WellFormed(fs)
    ensures NoPathTwice(Listed(fs, root, rel))
  {
    hide WellFormed, Resolve, Shown, Increasing;
    if ListDir(fs, root, rel).Ok? {
      var target := Resolve(fs, root, rel).value;
      ReadDirFacts(fs, target);
      OncePerEntry(fs, root, rel, target, ReadDir(fs, target), |ReadDir(fs, target)|);
    }
  }

  lemma SamePlace(a: Path, b: Path)
    requires UserPath(a) && UserPath(b) && Join(a) == Join(b)
    ensures a == b
  {
    RequestCanonical(a);
    RequestCanonical(b);
  }

  predicate NoneTwice(queue: seq<string>) {
    forall i, j :: 0 <= i < j < |queue| ==> queue[i] != queue[j]
  }

  ghost predicate FoldersAt(fs: Fs, root: Path, queue: seq<string>, k: nat) {
    forall i :: 0 <= i < |queue| ==> IsFolder(fs, root, k, queue[i])
  }

  /** Folders that are not the same list nothing in common. */
  lemma ApartListings(fs: Fs, root: Path, p: Path, q: Path, x: TreeNode, y: TreeNode)
    requires SearchReady(fs, root) && UserPath(p) && IsDir(fs, root + p) && UserPath(q) && IsDir(fs, root + q)
    requires x in Listed(fs, root, Join(p)) && y in Listed(fs, root, Join(q)) && p != q
    ensures x.path != y.path
  {
    hide SearchReady, Listed, Resolve, Join, UserPath;
    InListing(fs, root, p, x);
    InListing(fs, root, q, y);
    assert p == (p + [x.name])[..|p|] && q == (q + [y.name])[..|q|];
    if x.path == y.path {
      SamePlace(p + [x.name], q + [y.name]);
    }
  }

  lemma ApartFolders(fs: Fs, root: Path, k: nat, a: string, b: string, x: TreeNode, y: TreeNode)
    requires SearchReady(fs, root) && IsFolder(fs, root, k, a) && IsFolder(fs, root, k, b) && a != b
    requires x in Listed(fs, root, a) && y in Listed(fs, root, b)
    ensures x.path != y.path
  {
    hide SearchReady, Listed;
    var p :| FolderAt(fs, root, p, k, a);
    var q :| FolderAt(fs, root, q, k, b);
    ApartListings(fs, root, p, q, x, y);
  }

  lemma NothingTwice()
    ensures NoPathTwice([])
  {
  }

  lemma {:induction false} OncePerRow(fs: Fs, root: Path, queue: seq<string>, k: nat)
    requires SearchReady(fs, root) && FoldersAt(fs, root, queue, k) && NoneTwice(queue)
    ensures NoPathTwice(Row(fs, root, queue))
  {
    hide WellFormed, Physical, PlainNames, Listed, NoPathTwice, IsFolder;
    if queue != [] {
      var nodes, rest := Listed(fs, root, queue[0]), queue[1..];
      OncePerRow(fs, root, rest, k);
      OncePerListing(fs, root, queue[0]);
      forall x, y | x in nodes && y in Row(fs, root, rest) ensures x.path != y.path {
        InRow(fs, root, rest, y);
        var i :| 0 <= i < |rest| && y in Listed(fs, root, rest[i]);
        assert queue[0] != queue[i + 1] && rest[i] == queue[i + 1];
        ApartFolders(fs, root, k, queue[0], queue[i + 1], x, y);
      }
      OncePerPart(nodes, Row(fs, root, rest));
    } else {
      NothingTwice();
    }
  }

  lemma {:induction false} DirsConcat(a: Nodes, b: Nodes, n: nat)
    requires n <= |b|
    ensures DirsTo(a + b, |a| + n) == DirsTo(a, |a|) + DirsTo(b, n)
  {
    if n == 0 {
      DirsPrefix(a, b, |a|);
      assert Dirs(a) + [] == Dirs(a);
    } else {
      DirsConcat(a, b, n - 1);
      assert (a + b)[|a| + n - 1] == b[n - 1];
    }
  }

  lemma {:induction false} DirsPrefix(nodes: Nodes, more: Nodes, n: nat)
    requires n <= |nodes|
    ensures DirsTo(nodes + more, n) == DirsTo(nodes, n)
  {
    if n > 0 {
      DirsPrefix(nodes, more, n - 1);
      assert (nodes + more)[n - 1] == nodes[n - 1];
    }
  }

  lemma {:induction false} RowDirs(fs: Fs, root: Path, queue: seq<string>)
    ensures NextRow(fs, root, queue) == Dirs(Row(fs, root, queue))
  {
    hide Listed;
    if queue != [] {
      RowDirs(fs, root, queue[1..]);
      var rest := Row(fs, root, queue[1..]);
      DirsConcat(Listed(fs, root, queue[0]), rest, |rest|);
    }
  }

  lemma {:induction false} DirsOnce(nodes: Nodes, n: nat)
    requires NoPathTwice(nodes) && n <= |nodes|
    ensures NoneTwice(DirsTo(nodes, n))
  {
    if n > 0 {
      DirsOnce(nodes, n - 1);
      InDirs(nodes, n - 1, nodes[n - 1].path);
    }
  }

  lemma AllDirsOnce(nodes: Nodes)
    requires NoPathTwice(nodes)
    ensures NoneTwice(Dirs(nodes))
  {
    DirsOnce(nodes, |nodes|);
  }

  lemma {:induction false} RowsOnce(fs: Fs, root: Path, k: nat)
    requires SearchReady(fs, root)
    ensures NoneTwice(RowAt(fs, root, k)) && NoPathTwice(Row(fs, root, RowAt(fs, root, k)))
  {
    hide SearchReady, Row, NoPathTwice, Dirs, IsFolder;
    var row := RowAt(fs, root, k);
    if k > 0 {
      RowsOnce(fs, root, k - 1);
      var above := Row(fs, root, RowAt(fs, root, k - 1));
      RowDirs(fs, root, RowAt(fs, root, k - 1));
      AllDirsOnce(above);
    }
    forall i | 0 <= i < |row| ensures IsFolder(fs, root, k, row[i]) {
      RowsAre(fs, root, k, row[i]);
    }
    OncePerRow(fs, root, row, k);
  }

  lemma {:induction false} LevelsOnce(fs: Fs, root: Path, k: nat)
    requires SearchReady(fs, root)
    ensures NoPathTwice(Levels(fs, root, k))
  {
    hide SearchReady, Row, RowAt, NoPathTwice, Join, Resolve, UserPath;
    if k == 0 {
      NothingTwice();
    } else {
      LevelsOnce(fs, root, k - 1);
      RowsOnce(fs, root, k - 1);
      var above, row := Levels(fs, root, k - 1), Row(fs, root, RowAt(fs, root, k - 1));
      forall x, y | x in above && y in row ensures x.path != y.path {
        LevelsAre(fs, root, k - 1, x);
        LevelIs(fs, root, k - 1, y);
        var p :| |p| <= k - 1 && IsNodeAt(fs, root, p, |p|, x);
        var q :| IsNodeAt(fs, root, q, k, y);
        if x.path == y.path {
          SamePlace(p, q);
        }
      }
      OncePerPart(above, row);
    }
  }

  /** Where no name holds a backslash, the levels down to an empty one hold every seen entry, each exactly
      once and with its own name, path, kind and size, and nothing else. */
  lemma SearchSeesVisible(fs: Fs, root: Path, k: nat)
    requires SearchReady(fs, root) && RowAt(fs, root, k) == []
    ensures NoPathTwice(Levels(fs, root, k))
    ensures forall x :: x in Levels(fs, root, k) <==> exists q :: IsNodeAt(fs, root, q, |q|, x)
  {
    hide SearchReady, RowAt, Levels, NoPathTwice, Seen;
    LevelsOnce(fs, root, k);
    forall x ensures x in Levels(fs, root, k) <==> exists q :: IsNodeAt(fs, root, q, |q|, x) {
      LevelsAre(fs, root, k, x);
      if q: Path :| IsNodeAt(fs, root, q, |q|, x) {
        NothingDeeper(fs, root, k, q);
      }
    }
  }

  /** On a tree without links the seen entries are all those that no dot-leading name hides. */
  lemma SeenExactly(fs: Fs, root: Path, q: Path)
    requires SearchReady(fs, root) && LinkFree(fs, root) && q != []
    ensures Seen(fs, root, q) <==> root + q in fs && NoneHidden(q)
  {
    hide WellFormed, Physical, Resolve;
    var full := root + q;
    if full in fs && NoneHidden(q) {
      NamesValid(fs, full);
      forall i | 0 <= i < |q| ensures UserName(q[i]) {
        assert full[|root| + i] == q[i] && root <= full;
      }
      RequestCanonical(q);
      LexicalPlace(fs, root, Join(q));
    }
    if Seen(fs, root, q) {
      PlainVisible(q);
    }
  }
}
