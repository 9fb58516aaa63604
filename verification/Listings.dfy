/** handlers.go: the listing of one directory, read from disk or taken from the cache. */
module Listings {
  import opened CacheStore
  import opened FileSystem
  import opened ListingCache
  import opened Paths
  import opened Resolver

  /** The node `listDirNodes` makes of an entry; a link counts as a file of its target's length. */
  function NodeOf(entry: Node, name: Name, path: string): (x: TreeNode)
    ensures x.name == name && x.path == path && (x.isDir <==> entry.Dir?)
  {
    match entry
    case Dir(_) => TreeNode(name, path, true, 0)
    case File(_, data) => TreeNode(name, path, false, |data|)
    case Link(_, target) => TreeNode(name, path, false, |target|)
  }

  /** Dot entries and entries that `safePath` refuses are left out. */
  predicate Shown(fs: Fs, root: Path, rel: string, name: Name) {
    !HasPrefix(name, ".") && Resolve(fs, root, PathJoinSpec([rel, name])).Ok?
  }

  predicate EntriesOf(fs: Fs, target: Path, names: seq<Name>) {
    forall i :: 0 <= i < |names| ==> target + [names[i]] in fs
  }

  /** The nodes for the first `n` entries of the directory at `target`, which the request calls `rel`. */
  function NodesTo(fs: Fs, root: Path, rel: string, target: Path, names: seq<Name>, n: nat): Nodes
    requires n <= |names| && EntriesOf(fs, target, names)
  {
    if n == 0 then []
    else
      var name := names[n - 1];
      NodesTo(fs, root, rel, target, names, n - 1) +
      if Shown(fs, root, rel, name) then [NodeOf(fs[target + [name]], name, PathJoinSpec([rel, name]))] else []
  }

  /** What reading the directory yields. */
  function ListDir(fs: Fs, root: Path, rel: string): (r: Result<Nodes>) {
    match Resolve(fs, root, rel)
    case Err(e) => Err(e)
    case Ok(target) =>
      if target !in fs then Err(NotExist)
      else if !fs[target].Dir? then Err(NotDir)
      else
        ReadDirFacts(fs, target);
        var names := ReadDir(fs, target);
        Ok(NodesTo(fs, root, rel, target, names, |names|))
  }

  function Listed(fs: Fs, root: Path, rel: string): Nodes {
    match ListDir(fs, root, rel)
    case Ok(nodes) => nodes
    case Err(_) => []
  }

  /** Which nodes are listed. */
  lemma {:induction false} NodesToMembers(fs: Fs, root: Path, rel: string, target: Path, names: seq<Name>, n: nat,
                                          x: TreeNode)
    requires n <= |names| && EntriesOf(fs, target, names)
    ensures x in NodesTo(fs, root, rel, target, names, n) <==>
              exists k :: 0 <= k < n && Shown(fs, root, rel, names[k])
                && x == NodeOf(fs[target + [names[k]]], names[k], PathJoinSpec([rel, names[k]]))
  {
    hide Shown, PathJoinSpec, NodeOf;
    if n > 0 {
      NodesToMembers(fs, root, rel, target, names, n - 1, x);
    }
  }

  lemma InDirectory(fs: Fs, target: Path, name: Name)
    requires WellFormed(fs) && target + [name] in fs
    ensures ValidName(name) && IsDir(fs, target)
  {
    var p := target + [name];
    assert Parent(p) == target && Last(p) == name;
  }

  /** What a listed node is: an entry of the directory that the request leads to. */
  lemma ListedNode(fs: Fs, root: Path, rel: string, x: TreeNode)
    requires WellFormed(fs)
    ensures x in Listed(fs, root, rel) ==>
              && ValidName(x.name) && x.path == PathJoinSpec([rel, x.name])
              && Resolve(fs, root, rel).Ok? && IsDir(fs, Resolve(fs, root, rel).value)
    ensures x in Listed(fs, root, rel) <==>
              && Resolve(fs, root, rel).Ok?
              && var target := Resolve(fs, root, rel).value;
                 && IsDir(fs, target) && target + [x.name] in fs && Shown(fs, root, rel, x.name)
                 && x == NodeOf(fs[target + [x.name]], x.name, PathJoinSpec([rel, x.name]))
  {
    hide WellFormed, PathJoinSpec, Resolve, Shown;
    if Resolve(fs, root, rel).Ok? {
      var target := Resolve(fs, root, rel).value;
      if IsDir(fs, target) {
        ReadDirFacts(fs, target);
        var names := ReadDir(fs, target);
        NodesToMembers(fs, root, rel, target, names, |names|, x);
        if target + [x.name] in fs {
          InDirectory(fs, target, x.name);
          assert x.name in names;
        }
      }
    }
  }

  /** The node says of the entry at `q` what the file system says: a directory has size 0, a file that of
      its contents, a link that of its target. */
  predicate Describes(fs: Fs, q: Path, x: TreeNode)
    requires q in fs
  {
    match fs[q]
    case Dir(_) => x.isDir && x.size == 0
    case File(_, data) => !x.isDir && x.size == |data|
    case Link(_, target) => !x.isDir && x.size == |target|
  }

  /** A node is listed exactly when it describes an entry of the directory the request leads to, one whose
      name has no leading dot and whose own path is not refused; its path is the request with that name. */
  lemma ListedExactly(fs: Fs, root: Path, rel: string, x: TreeNode)
    requires WellFormed(fs)
    ensures x in Listed(fs, root, rel) <==>
              && Resolve(fs, root, rel).Ok? && IsDir(fs, Resolve(fs, root, rel).value)
              && var q := Resolve(fs, root, rel).value + [x.name];
                 && q in fs && !HasPrefix(x.name, ".") && Resolve(fs, root, x.path).Ok?
                 && x.path == PathJoinSpec([rel, x.name]) && Describes(fs, q, x)
  {
    hide WellFormed, PathJoinSpec, Resolve, Listed;
    ListedNode(fs, root, rel, x);
  }

  // ---------------------------------------------------------------- one place under several spellings

  /** Two spellings of the same place; with `exact` they must be the same string. */
  predicate Alike(exact: bool, s: string, t: string) {
    PlaceOf(s) == PlaceOf(t) && ('\0' in s <==> '\0' in t) && (exact ==> s == t)
  }

  predicate SameNode(exact: bool, a: TreeNode, b: TreeNode) {
    a.name == b.name && a.isDir == b.isDir && a.size == b.size && Alike(exact, a.path, b.path)
  }

  /** The same nodes in the same order, up to how their paths are spelled. */
  ghost predicate SameNodes(exact: bool, a: Nodes, b: Nodes) {
    |a| == |b| && forall i :: 0 <= i < |a| ==> SameNode(exact, a[i], b[i])
  }

  lemma SameNodesTransitive(exact: bool, a: Nodes, b: Nodes, c: Nodes)
    requires SameNodes(exact, a, b) && SameNodes(exact, b, c)
    ensures SameNodes(exact, a, c)
  {
    hide Alike;
    forall i | 0 <= i < |a| ensures SameNode(exact, a[i], c[i]) {
      assert SameNode(exact, a[i], b[i]) && SameNode(exact, b[i], c[i]);
      AlikeTransitive(exact, a[i].path, b[i].path, c[i].path);
    }
  }

  lemma AlikeTransitive(exact: bool, s: string, t: string, u: string)
    requires Alike(exact, s, t) && Alike(exact, t, u)
    ensures Alike(exact, s, u)
  {
  }

  lemma SameNodesAppend(exact: bool, a: Nodes, b: Nodes, x: TreeNode, y: TreeNode)
    requires SameNodes(exact, a, b) && SameNode(exact, x, y)
    ensures SameNodes(exact, a + [x], b + [y])
  {
  }

  /** The cache key is another spelling of the place. */
  lemma KeyAlike(rel: string)
    ensures Alike(false, rel, CacheKey(rel))
  {
    var t := TrimLeft(rel, "/\\");
    CleanSkipsLeading(rel, "/\\");
    CleanSkipsTrailing(t, "/\\");
    TrimKeeps(rel, "/\\", '\0');
  }

  lemma JoinedAlike(s: string, t: string, name: Name)
    requires Alike(false, s, t) && ValidName(name)
    ensures Alike(false, PathJoinSpec([s, name]), PathJoinSpec([t, name]))
  {
    hide PathJoinSpec, CleanRooted, CleanParts;
    ChildPlace(s, name);
    ChildPlace(t, name);
  }

  lemma {:induction false} NodesAlike(fs: Fs, root: Path, s: string, t: string, target: Path, names: seq<Name>, n: nat)
    requires WellFormed(fs) && Alike(false, s, t) && n <= |names| && EntriesOf(fs, target, names)
    ensures SameNodes(false, NodesTo(fs, root, s, target, names, n), NodesTo(fs, root, t, target, names, n))
  {
    hide WellFormed, PathJoinSpec, Alike;
    if n > 0 {
      NodesAlike(fs, root, s, t, target, names, n - 1);
      var name := names[n - 1];
      assert ValidName(name) by {
        InDirectory(fs, target, name);
      }
      JoinedAlike(s, t, name);
      SameRequest(fs, root, PathJoinSpec([s, name]), PathJoinSpec([t, name]));
      if Shown(fs, root, s, name) {
        var x := NodeOf(fs[target + [name]], name, PathJoinSpec([s, name]));
        var y := NodeOf(fs[target + [name]], name, PathJoinSpec([t, name]));
        var a, b := NodesTo(fs, root, s, target, names, n - 1), NodesTo(fs, root, t, target, names, n - 1);
        SameNodesAppend(false, a, b, x, y);
      }
    }
  }

  lemma SameRequest(fs: Fs, root: Path, s: string, t: string)
    requires Alike(false, s, t)
    ensures Resolve(fs, root, s) == Resolve(fs, root, t)
  {
  }

  /** Other spellings of a directory list the same nodes. */
  lemma ListDirAlike(fs: Fs, root: Path, exact: bool, s: string, t: string)
    requires WellFormed(fs) && Alike(exact, s, t)
    ensures ListDir(fs, root, s).Ok? <==> ListDir(fs, root, t).Ok?
    ensures ListDir(fs, root, s).Ok? ==> SameNodes(exact, ListDir(fs, root, s).value, ListDir(fs, root, t).value)
    ensures SameNodes(exact, Listed(fs, root, s), Listed(fs, root, t))
    ensures ListDir(fs, root, s).Err? ==> ListDir(fs, root, s) == ListDir(fs, root, t)
  {
    hide Alike, Resolve;
    AlikeAnyway(exact, s, t);
    SameRequest(fs, root, s, t);
    if exact {
      AlikeItself(Listed(fs, root, s));
    } else if ListDir(fs, root, s).Ok? {
      var target := Resolve(fs, root, s).value;
      ReadDirFacts(fs, target);
      NodesAlike(fs, root, s, t, target, ReadDir(fs, target), |ReadDir(fs, target)|);
    }
  }

  lemma AlikeAnyway(exact: bool, s: string, t: string)
    requires Alike(exact, s, t)
    ensures Alike(false, s, t) && (exact ==> s == t)
  {
  }

  lemma AlikeItself(a: Nodes)
    ensures SameNodes(true, a, a) && SameNodes(false, a, a)
  {
  }

  // ---------------------------------------------------------------- the cache

  /** The cached listings are what reading the directories would yield, up to spelling unless `exact`. */
  ghost predicate Coherent(fs: Fs, root: Path, exact: bool, vals: map<Key, Nodes>) {
    forall key :: key in vals ==>
      ListDir(fs, root, key).Ok? && SameNodes(exact, vals[key], ListDir(fs, root, key).value)
  }

  /** A listing of the directory, up to the spelling of paths unless `exact`. */
  ghost predicate Lists(fs: Fs, root: Path, exact: bool, rel: string, r: Result<Nodes>) {
    if ListDir(fs, root, rel).Ok? then r.Ok? && SameNodes(exact, r.value, ListDir(fs, root, rel).value)
    else r == ListDir(fs, root, rel)
  }

  /** The loop over the entries of an existing directory. */
  method ReadNodes(fs: Fs, root: Path, rel: string, target: Path) returns (nodes: Nodes)
    requires IsDir(fs, target)
    ensures Resolve(fs, root, rel) == Ok(target) ==> ListDir(fs, root, rel) == Ok(nodes)
  {
    hide Resolve, PathJoinSpec, Children;
    ReadDirFacts(fs, target);
    var entries := ReadDir(fs, target);
    nodes := [];
    for i := 0 to |entries|
      invariant nodes == NodesTo(fs, root, rel, target, entries, i)
    {
      var name := entries[i];
      if HasPrefix(name, ".") {
        continue;
      }
      var childRel := PathJoin([rel, name]);
      if Resolve(fs, root, childRel).Err? {
        continue;
      }
      nodes := nodes + [NodeOf(fs[target + [name]], name, childRel)];
    }
  }

  lemma CachedLists(fs: Fs, root: Path, exact: bool, vals: map<Key, Nodes>, rel: string)
    requires WellFormed(fs) && Coherent(fs, root, exact, vals) && CacheKey(rel) in vals
    requires exact ==> CacheKey(rel) == rel
    ensures Lists(fs, root, exact, rel, Ok(vals[CacheKey(rel)]))
  {
    hide ListDir, Alike, WellFormed, CacheKey;
    KeyAlike(rel);
    ListDirAlike(fs, root, false, rel, CacheKey(rel));
    if !exact {
      var own, cached := ListDir(fs, root, rel).value, ListDir(fs, root, CacheKey(rel)).value;
      SymmetricNodes(own, cached);
      SameNodesTransitive(false, vals[CacheKey(rel)], cached, own);
    }
  }

  lemma SymmetricNodes(a: Nodes, b: Nodes)
    requires SameNodes(false, a, b)
    ensures SameNodes(false, b, a)
  {
  }

  /** Keeping a listing under its key, and dropping others, leaves the cache coherent. */
  lemma StaysCoherent(fs: Fs, root: Path, exact: bool, vals: map<Key, Nodes>, rel: string, kept: map<Key, Nodes>)
    requires WellFormed(fs) && Coherent(fs, root, exact, vals) && ListDir(fs, root, rel).Ok?
    requires exact ==> CacheKey(rel) == rel
    requires forall key :: key in kept ==>
               if key == CacheKey(rel) then kept[key] == ListDir(fs, root, rel).value
               else key in vals && kept[key] == vals[key]
    ensures Coherent(fs, root, exact, kept)
  {
    hide ListDir, Alike, WellFormed, CacheKey;
    KeyAlike(rel);
    ListDirAlike(fs, root, false, rel, CacheKey(rel));
    AlikeItself(ListDir(fs, root, rel).value);
  }

  /** `listDirNodes`: from the cache, or read and cached. */
  method ListDirNodes(fs: Fs, root: Path, cache: Cache, rel: string, ghost exact: bool) returns (r: Result<Nodes>)
    requires WellFormed(fs) && cache.Valid()
    modifies cache, cache.m.Values
    ensures cache.Valid()
    ensures forall k :: k in cache.m ==> (k in old(cache.m) && cache.m[k] == old(cache.m)[k]) || fresh(cache.m[k])
    ensures old(Coherent(fs, root, exact, cache.Vals())) && (exact ==> CacheKey(rel) == rel) ==>
              Lists(fs, root, exact, rel, r) && Coherent(fs, root, exact, cache.Vals())
  {
    hide WellFormed, SameNodes, CacheKey;
    ghost var vals := cache.Vals();
    var cached := cache.Get(rel);
    if cached.Some? {
      if Coherent(fs, root, exact, vals) && (exact ==> CacheKey(rel) == rel) {
        hide Coherent, ListDir;
        CachedLists(fs, root, exact, vals, rel);
      }
      return Ok(cached.value);
    }
    hide Coherent;
    var resolved := Resolve(fs, root, rel);
    if resolved.Err? {
      return Err(resolved.error);
    }
    var target := resolved.value;
    if target !in fs {
      return Err(NotExist);
    }
    if !fs[target].Dir? {
      return Err(NotDir);
    }
    hide Resolve, NodesTo;
    var nodes := ReadNodes(fs, root, rel, target);
    cache.Set(rel, nodes);
    if Coherent(fs, root, exact, vals) && (exact ==> CacheKey(rel) == rel) {
      StaysCoherent(fs, root, exact, vals, rel, cache.Vals());
      AlikeItself(nodes);
    }
    hide ListDir;
    return Ok(nodes);
  }

  // ---------------------------------------------------------------- when the key changes the spelling

  lemma {:induction false} NodesSpelled(fs: Fs, root: Path, s: string, t: string, target: Path, names: seq<Name>,
                                        n: nat)
    requires Trim(s, "/") == Trim(t, "/") && n <= |names| && EntriesOf(fs, target, names)
    ensures NodesTo(fs, root, s, target, names, n) == NodesTo(fs, root, t, target, names, n)
  {
    hide Resolve, Trim;
    if n > 0 {
      NodesSpelled(fs, root, s, t, target, names, n - 1);
      assert [s, names[n - 1]][1..] == [t, names[n - 1]][1..];
    }
  }

  /** A lookup finds what is stored under the key, with the paths of whoever stored it. For a directory with
      listed entries these are the paths that reading it would give exactly when no backslash is trimmed off
      for the key, as it is where the directory's name ends in one. */
  lemma KeySpellsExactly(fs: Fs, root: Path, rel: string)
    requires WellFormed(fs)
    ensures Listed(fs, root, CacheKey(rel)) == Listed(fs, root, rel) <==>
              CacheKey(rel) == Trim(rel, "/") || Listed(fs, root, rel) == []
  {
    hide Alike, WellFormed, Trim, Resolve;
    var key := CacheKey(rel);
    KeyAlike(rel);
    ListDirAlike(fs, root, false, rel, key);
    SameRequest(fs, root, rel, key);
    if key == Trim(rel, "/") {
      TrimTwice(rel);
      if ListDir(fs, root, rel).Ok? {
        var target := Resolve(fs, root, rel).value;
        ReadDirFacts(fs, target);
        NodesSpelled(fs, root, rel, key, target, ReadDir(fs, target), |ReadDir(fs, target)|);
      }
    } else if Listed(fs, root, rel) != [] {
      OtherSpelling(fs, root, rel);
    }
  }

  lemma {:induction false} LeftOfMore(s: string) returns (k: nat)
    ensures k <= |TrimLeft(s, "/")| && TrimLeft(s, "/\\") == TrimLeft(s, "/")[k..]
  {
    if s != "" && s[0] == '/' {
      k := LeftOfMore(s[1..]);
    } else if s != "" && s[0] == '\\' {
      TrimLeftSuffix(s[1..], "/\\");
      k := |s| - |TrimLeft(s[1..], "/\\")|;
    } else {
      k := 0;
    }
  }

  lemma {:induction false} TrimLeftSuffix(s: string, cut: string)
    ensures |TrimLeft(s, cut)| <= |s| && TrimLeft(s, cut) == s[|s| - |TrimLeft(s, cut)|..]
  {
    if s != "" && s[0] in cut {
      TrimLeftSuffix(s[1..], cut);
    }
  }

  lemma {:induction false} RightOfMore(s: string)
    ensures TrimRight(s, "/\\") <= TrimRight(s, "/")
  {
    if s != "" && s[|s| - 1] == '/' {
      RightOfMore(s[..|s| - 1]);
    } else {
      TrimRightEnds(s, "/\\");
    }
  }

  lemma {:induction false} RightOfSuffix(s: string, k: nat, cut: string)
    requires k < |s| && s[k] !in cut
    ensures |TrimRight(s, cut)| > k && TrimRight(s[k..], cut) == TrimRight(s, cut)[k..]
  {
    if s[|s| - 1] in cut {
      RightOfSuffix(s[..|s| - 1], k, cut);
      assert s[k..][..|s| - k - 1] == s[..|s| - 1][k..];
    }
  }

  /** Trimming backslashes as well shortens what trimming slashes leaves, or changes nothing. */
  lemma TrimMore(s: string)
    ensures |CacheKey(s)| <= |Trim(s, "/")|
    ensures |CacheKey(s)| == |Trim(s, "/")| ==> CacheKey(s) == Trim(s, "/")
  {
    var u := TrimLeft(s, "/");
    var k := LeftOfMore(s);
    if k < |u| {
      TrimLeftStarts(s, "/\\");
      RightOfSuffix(u, k, "/\\");
      RightOfMore(u);
    }
  }

  lemma ShorterPath(rel: string, name: Name)
    requires CacheKey(rel) != Trim(rel, "/") && ValidName(name)
    ensures |PathJoinSpec([CacheKey(rel), name])| < |PathJoinSpec([rel, name])|
  {
    hide PathJoinSpec, Trim;
    var key := CacheKey(rel);
    TrimMore(rel);
    JoinedWith(rel, name);
    JoinedWith(key, name);
    TrimShort(key, "/");
    DotKey(rel);
  }

  lemma OtherSpelling(fs: Fs, root: Path, rel: string)
    requires WellFormed(fs) && CacheKey(rel) != Trim(rel, "/") && Listed(fs, root, rel) != []
    ensures Listed(fs, root, CacheKey(rel)) != Listed(fs, root, rel)
  {
    hide WellFormed, PathJoinSpec, Trim, CacheKey, Listed;
    var x := Listed(fs, root, rel)[0];
    ListedNode(fs, root, rel, x);
    if x in Listed(fs, root, CacheKey(rel)) {
      ListedNode(fs, root, CacheKey(rel), x);
      ShorterPath(rel, x.name);
    }
  }

  lemma TrimShort(s: string, cut: string)
    ensures |Trim(s, cut)| <= |s|
  {
    TrimLeftSuffix(s, cut);
    TrimRightEnds(TrimLeft(s, cut), cut);
  }

  lemma DotKey(rel: string)
    ensures Trim(rel, "/") == "" || Trim(rel, "/") == "." ==> CacheKey(rel) == Trim(rel, "/")
  {
    TrimMore(rel);
    TrimKeeps(rel, "/", '.');
    TrimKeeps(rel, "/\\", '.');
  }
}
