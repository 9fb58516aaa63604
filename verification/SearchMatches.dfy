/** search.go: what counts as a match, and what is reported for it. */
module SearchMatches {
  import opened FileSystem
  import opened ListingCache
  import opened Listings
  import opened Paths
  import opened Search
  import opened SearchEnds
  import opened SearchVisible
  import opened Sessions  // Fold

  predicate StandsAt(s: string, t: string, i: nat) {
    i + |t| <= |s| && s[i..i + |t|] == t
  }

  /** `t` is a stretch of `s`. */
  predicate Occurs(s: string, t: string) {
    exists i: nat | i <= |s| :: StandsAt(s, t, i)
  }

  lemma OccursLater(s: string, t: string)
    requires s != ""
    ensures Occurs(s, t) <==> HasPrefix(s, t) || Occurs(s[1..], t)
  {
    assert HasPrefix(s, t) <==> StandsAt(s, t, 0);
    if i: nat :| i <= |s| && StandsAt(s, t, i) {
      if i > 0 {
        assert StandsAt(s[1..], t, i - 1);
      }
    }
    if i: nat :| i <= |s[1..]| && StandsAt(s[1..], t, i) {
      assert StandsAt(s, t, i + 1);
    }
  }

  lemma {:induction false} ContainsExactly(s: string, t: string)
    ensures Contains(s, t) <==> Occurs(s, t)
  {
    if s == "" {
      assert t == "" ==> StandsAt(s, t, 0);
    } else {
      OccursLater(s, t);
      ContainsExactly(s[1..], t);
    }
  }

  /** The name with its ASCII capitals made small, letter by letter. */
  lemma FoldIsLower(s: string)
    ensures |Fold(s)| == |s|
    ensures forall i :: 0 <= i < |s| ==>
              Fold(s)[i] as int == s[i] as int + if 'A' <= s[i] <= 'Z' then 32 else 0
  {
  }

  /** A node matches exactly when the needle is a stretch of its lower-cased name. */
  predicate Named(x: TreeNode, needle: string) {
    Occurs(Fold(x.name), needle)
  }

  lemma MatchesExactly(x: TreeNode, needle: string)
    ensures Matches(x, needle) <==> Named(x, needle)
  {
    ContainsExactly(Fold(x.name), needle);
  }

  /** What is reported of a node: name, path, kind, and the size unless it is a directory. */
  predicate Reports(h: Hit, x: TreeNode) {
    h.name == x.name && h.path == x.path && h.isDir == x.isDir && h.size == if x.isDir then 0 else x.size
  }

  /** A matching node is reported once, behind one hit for each matching node before it. */
  lemma HitInPlace(nodes: Nodes, i: nat, needle: string)
    requires i < |nodes| && Named(nodes[i], needle)
    ensures var before := |Hits(nodes[..i], needle)|;
            before < |Hits(nodes, needle)| && Reports(Hits(nodes, needle)[before], nodes[i])
  {
    hide Hits, Matches, Named;
    MatchesExactly(nodes[i], needle);
    HitsSnoc(nodes, i, needle);
    HitsSplit(nodes, i + 1, needle);
  }

  function MatchingTo(nodes: Nodes, n: nat, needle: string): set<nat>
    requires n <= |nodes|
  {
    set i: nat | i < n && Named(nodes[i], needle)
  }

  /** There are as many hits as matching nodes. */
  lemma {:induction false} HitsCounted(nodes: Nodes, n: nat, needle: string)
    requires n <= |nodes|
    ensures |Hits(nodes[..n], needle)| == |MatchingTo(nodes, n, needle)|
  {
    hide Hits, Matches, Named;
    if n == 0 {
      NoHits(nodes, needle);
      assert MatchingTo(nodes, 0, needle) == {};
    } else {
      HitsCounted(nodes, n - 1, needle);
      HitsSnoc(nodes, n - 1, needle);
      MatchesExactly(nodes[n - 1], needle);
      assert MatchingTo(nodes, n, needle) ==
        MatchingTo(nodes, n - 1, needle) + if Named(nodes[n - 1], needle) then {n - 1} else {};
    }
  }

  lemma {:induction false} HitMembers(nodes: Nodes, needle: string, h: Hit)
    ensures h in Hits(nodes, needle)
            <==> exists i :: 0 <= i < |nodes| && Named(nodes[i], needle) && Reports(h, nodes[i])
  {
    hide Matches, Named;
    if nodes != [] {
      MatchesExactly(nodes[0], needle);
      HitMembers(nodes[1..], needle, h);
      assert forall i :: 0 < i < |nodes| ==> nodes[i] == nodes[1..][i - 1];
      if i :| 0 <= i < |nodes[1..]| && Named(nodes[1..][i], needle) && Reports(h, nodes[1..][i]) {
        assert nodes[i + 1] == nodes[1..][i];
      }
    }
  }

  /** The hit for the entry at `q`, with the size the file system gives. */
  predicate HitFor(fs: Fs, root: Path, q: Path, h: Hit) {
    && q != [] && root + q in fs
    && h.name == Last(q) && h.path == Join(q)
    && match fs[root + q]
       case Dir(_) => h.isDir && h.size == 0
       case File(_, data) => !h.isDir && h.size == |data|
       case Link(_, target) => !h.isDir && h.size == |target|
  }

  lemma NodeReports(fs: Fs, root: Path, q: Path, x: TreeNode, h: Hit)
    requires IsNodeAt(fs, root, q, |q|, x)
    ensures Reports(h, x) <==> HitFor(fs, root, q, h)
  {
  }

  ghost predicate Found(fs: Fs, root: Path, q: Path, needle: string, h: Hit) {
    Seen(fs, root, q) && Occurs(Fold(Last(q)), needle) && HitFor(fs, root, q, h)
  }

  /** Where no name holds a backslash, the matches of a search that reads everything are exactly the visible
      entries whose lower-cased name contains the needle, each with its own name, path, kind and size. */
  lemma SearchFindsExactly(fs: Fs, root: Path, k: nat, needle: string, h: Hit)
    requires SearchReady(fs, root) && RowAt(fs, root, k) == []
    ensures h in Hits(Levels(fs, root, k), needle) <==> exists q :: Found(fs, root, q, needle, h)
  {
    hide SearchReady, RowAt, Levels, Hits, NoPathTwice, Seen, HitFor, Reports, NodeAt;
    var nodes := Levels(fs, root, k);
    SearchSeesVisible(fs, root, k);
    HitMembers(nodes, needle, h);
    if h in Hits(nodes, needle) {
      var i :| 0 <= i < |nodes| && Named(nodes[i], needle) && Reports(h, nodes[i]);
      assert nodes[i] in nodes;
      var q: Path :| IsNodeAt(fs, root, q, |q|, nodes[i]);
      NodeReports(fs, root, q, nodes[i], h);
      NodeName(fs, root, q, nodes[i]);
      assert Found(fs, root, q, needle, h);
    }
    if q: Path :| Found(fs, root, q, needle, h) {
      SeenPresent(fs, root, q);
      var x := NodeAt(fs, root, q);
      assert IsNodeAt(fs, root, q, |q|, x);
      assert x in nodes;
      var i :| 0 <= i < |nodes| && nodes[i] == x;
      NodeReports(fs, root, q, x, h);
      NodeName(fs, root, q, x);
    }
  }

  lemma SeenPresent(fs: Fs, root: Path, q: Path)
    requires Seen(fs, root, q)
    ensures q != [] && root + q in fs
  {
  }

  lemma NodeName(fs: Fs, root: Path, q: Path, x: TreeNode)
    requires IsNodeAt(fs, root, q, |q|, x)
    ensures q != [] && x.name == Last(q)
  {
  }
}
