/** copy.go: which entries a copy takes, in which order, and what it leaves behind when it stops at
    a limit. Source trees may hold symbolic links, which a copy skips. */
module Copying {
  import opened FileSystem
  import opened Paths
  import opened Tree
  import opened UploadPlan

  const COPY_MAX_FILES := 5000
  const COPY_MAX_BYTES := 0x1_0000_0000  // 4 GiB

  /** The entries `copyDir` passes over. */
  predicate Skipped(fs: Fs, p: Path)
    requires p in fs && p != []
  {
    Hidden(Last(p)) || fs[p].Link?
  }

  function Below(fs: Fs, p: Path): set<Path> {
    set q | q in fs && p <= q
  }

  /** What the recursion visits from `p` on, in order. */
  function Listing(fs: Fs, p: Path): seq<Path>
    requires p in fs
    decreases Below(fs, p), 1, 0
  {
    ReadDirFacts(fs, p);
    [p] + if fs[p].Dir? then ListingOf(fs, p, ReadDir(fs, p), |ReadDir(fs, p)|) else []
  }

  /** What it visits through the first `n` entries of directory `p`. */
  function ListingOf(fs: Fs, p: Path, names: seq<Name>, n: nat): seq<Path>
    requires p in fs && n <= |names| && forall i :: 0 <= i < |names| ==> p + [names[i]] in fs
    decreases Below(fs, p), 0, n
  {
    if n == 0 then []
    else
      var q := p + [names[n - 1]];
      assert p in Below(fs, p) && p !in Below(fs, q);
      ListingOf(fs, p, names, n - 1) + if Skipped(fs, q) then [] else Listing(fs, q)
  }

  /** The entry on the way to `q` after `k` names is there, its name has no leading dot, and it is no link. */
  predicate Shows(fs: Fs, q: Path, k: nat)
    requires 0 < k <= |q|
  {
    q[..k] in fs && !HasPrefix(q[k - 1], ".") && !fs[q[..k]].Link?
  }

  /** So it is for every entry below `p` on the way to `q`. */
  ghost predicate Visible(fs: Fs, p: Path, q: Path) {
    p <= q && q in fs && forall k :: |p| < k <= |q| ==> Shows(fs, q, k)
  }

  lemma SkippedExactly(fs: Fs, p: Path, k: nat)
    requires 0 < k <= |p| && p[..k] in fs
    ensures Skipped(fs, p[..k]) <==> !Shows(fs, p, k)
  {
    assert Last(p[..k]) == p[k - 1];
  }

  // ---------------------------------------------------------------- the listing is the visible tree

  lemma VisibleThrough(fs: Fs, p: Path, q: Path)
    requires p < q
    ensures Visible(fs, p, q) <==>
              var c := q[..|p| + 1]; c in fs && !Skipped(fs, c) && Visible(fs, c, q)
  {
    var c := q[..|p| + 1];
    if c in fs {
      SkippedExactly(fs, q, |p| + 1);
    }
    if c in fs && !Skipped(fs, c) && Visible(fs, c, q) {
      forall k | |p| < k <= |q| ensures Shows(fs, q, k) {
        assert k > |c| ==> Shows(fs, q, k);
      }
    }
    if Visible(fs, p, q) {
      assert Shows(fs, q, |p| + 1);
    }
  }

  lemma {:induction false} ListingMembers(fs: Fs, p: Path, q: Path)
    requires WellFormed(fs) && p in fs
    ensures q in Listing(fs, p) <==> Visible(fs, p, q)
    decreases Below(fs, p), 1, 0
  {
    hide WellFormed;
    ReadDirFacts(fs, p);
    if fs[p].Dir? {
      ListingOfMembers(fs, p, ReadDir(fs, p), |ReadDir(fs, p)|, q);
    }
    if p < q {
      var c := q[..|p| + 1];
      VisibleThrough(fs, p, q);
      assert c == p + [q[|p|]];
      if c in fs {
        InTree(fs, c);
        assert Parent(c) == p;
      }
    } else if p <= q {
      assert p == q;
    }
  }

  lemma {:induction false} ListingOfMembers(fs: Fs, p: Path, names: seq<Name>, n: nat, q: Path)
    requires WellFormed(fs) && p in fs && n <= |names| && forall i :: 0 <= i < |names| ==> p + [names[i]] in fs
    ensures q in ListingOf(fs, p, names, n) <==>
              p < q && q[|p|] in names[..n] && !Skipped(fs, p + [q[|p|]]) && Visible(fs, p + [q[|p|]], q)
    decreases Below(fs, p), 0, n
  {
    hide WellFormed;
    if n > 0 {
      var c := p + [names[n - 1]];
      assert p in Below(fs, p) && p !in Below(fs, c);
      assert names[..n] == names[..n - 1] + [names[n - 1]];
      ListingOfMembers(fs, p, names, n - 1, q);
      ListingMembers(fs, c, q);
    }
  }

  ghost predicate Distinct(list: seq<Path>) {
    forall i, j :: 0 <= i < j < |list| ==> list[i] != list[j]
  }

  /** Entry `i` is the top itself, or comes after the directory it is in. */
  ghost predicate AfterParent(fs: Fs, p: Path, list: seq<Path>, i: nat)
    requires i < |list|
  {
    var q := list[i];
    q in fs && (q == p || (p < q && IsDir(fs, Parent(q)) && Parent(q) in list[..i]))
  }

  /** A listing in which no entry comes twice and every entry comes after its directory. */
  ghost predicate TopDown(fs: Fs, p: Path, list: seq<Path>) {
    list != [] && list[0] == p && Distinct(list) && forall i :: 0 <= i < |list| ==> AfterParent(fs, p, list, i)
  }

  lemma {:induction false} ListingTopDown(fs: Fs, p: Path)
    requires WellFormed(fs) && p in fs
    ensures TopDown(fs, p, Listing(fs, p))
    decreases Below(fs, p), 1, 0
  {
    hide WellFormed;
    ReadDirFacts(fs, p);
    if fs[p].Dir? {
      ListingOfTopDown(fs, p, ReadDir(fs, p), |ReadDir(fs, p)|);
    }
  }

  lemma LessBelow(fs: Fs, p: Path, n: Name)
    requires p in fs
    ensures Below(fs, p + [n]) < Below(fs, p)
  {
    assert p in Below(fs, p) && p !in Below(fs, p + [n]);
  }

  lemma {:induction false} ListingOfTopDown(fs: Fs, p: Path, names: seq<Name>, n: nat)
    requires WellFormed(fs) && IsDir(fs, p) && n <= |names|
    requires Increasing(names) && forall i :: 0 <= i < |names| ==> p + [names[i]] in fs
    ensures TopDown(fs, p, [p] + ListingOf(fs, p, names, n))
    decreases Below(fs, p), 0, n
  {
    hide WellFormed, TopDown, Increasing, Below;
    if n == 0 {
      TopAlone(fs, p);
    } else {
      var q, a := p + [names[n - 1]], ListingOf(fs, p, names, n - 1);
      LessBelow(fs, p, names[n - 1]);
      ListingOfTopDown(fs, p, names, n - 1);
      if Skipped(fs, q) {
        assert a + [] == a;
      } else {
        ListingTopDown(fs, q);
        NewBranch(fs, p, names, n - 1);
        hide Listing, Skipped;
        BranchGrafted(fs, p, names[n - 1], a, Listing(fs, q));
      }
    }
  }

  /** The listing below one name of a directory shares no entry with those below the names before. */
  lemma NewBranch(fs: Fs, p: Path, names: seq<Name>, n: nat)
    requires WellFormed(fs) && IsDir(fs, p) && n < |names|
    requires Increasing(names) && forall i :: 0 <= i < |names| ==> p + [names[i]] in fs
    ensures forall x :: x in Listing(fs, p + [names[n]]) ==> p < x && x !in ListingOf(fs, p, names, n)
  {
    hide WellFormed, Increasing, Listing, ListingOf;
    var q := p + [names[n]];
    forall x | x in Listing(fs, q) ensures p < x && x !in ListingOf(fs, p, names, n) {
      ListingMembers(fs, q, x);
      ListingOfMembers(fs, p, names, n, x);
      assert x[|p|] == names[n];
      forall k | 0 <= k < n ensures names[k] != x[|p|] {
        IncreasingDistinct(names, k, n);
      }
    }
  }

  lemma TopAlone(fs: Fs, p: Path)
    requires p in fs
    ensures TopDown(fs, p, [p] + [])
  {
    assert AfterParent(fs, p, [p] + [], 0);
  }

  lemma GraftDistinct(a: seq<Path>, b: seq<Path>)
    requires Distinct(a) && Distinct(b) && forall x :: x in b ==> x !in a
    ensures Distinct(a + b)
  {
    var all := a + b;
    forall i, j | 0 <= i < j < |all| ensures all[i] != all[j] {
      if i < |a| && j >= |a| {
        assert all[j] == b[j - |a|] && all[j] in b;
      }
    }
  }

  lemma GraftParent(fs: Fs, p: Path, n: Name, a: seq<Path>, b: seq<Path>, k: nat)
    requires k < |b| && AfterParent(fs, p + [n], b, k)
    requires a != [] && a[0] == p && IsDir(fs, p)
    ensures AfterParent(fs, p, a + b, |a| + k)
  {
    assert (a + b)[..|a| + k] == a + b[..k];
    if b[k] == p + [n] {
      assert Parent(b[k]) == p && a[0] in a;
    }
  }

  lemma BranchGrafted(fs: Fs, p: Path, n: Name, a: seq<Path>, b: seq<Path>)
    requires TopDown(fs, p, [p] + a) && TopDown(fs, p + [n], b) && IsDir(fs, p)
    requires forall x :: x in b ==> p < x && x !in a
    ensures TopDown(fs, p, [p] + (a + b))
  {
    hide AfterParent, Distinct;
    var left := [p] + a;
    GraftDistinct(left, b);
    assert [p] + (a + b) == left + b;
    forall i | 0 <= i < |left + b| ensures AfterParent(fs, p, left + b, i) {
      if i < |left| {
        assert AfterParent(fs, p, left, i);
        StillAfterParent(fs, p, left, b, i);
      } else {
        GraftParent(fs, p, n, left, b, i - |left|);
      }
    }
  }

  lemma StillAfterParent(fs: Fs, p: Path, a: seq<Path>, b: seq<Path>, i: nat)
    requires i < |a| && AfterParent(fs, p, a, i)
    ensures AfterParent(fs, p, a + b, i)
  {
    assert (a + b)[..i] == a[..i];
  }

  // ---------------------------------------------------------------- the counters and the limits

  /** The tree, the next free node number, and the counters the recursion shares. */
  datatype Progress = Progress(fs: Fs, next: nat, files: nat, bytes: int, ok: bool)

  /** Where `q` in the source goes. */
  function Target(src: Path, dst: Path, q: Path): Path
    requires src <= q
  {
    dst + q[|src|..]
  }

  /** `os.Mkdir`. */
  function MakeDir(st: Progress, target: Path): Progress {
    if target == [] || target in st.fs || !IsDir(st.fs, Parent(target)) then st.(ok := false)
    else st.(fs := st.fs[target := Dir(st.next)], next := st.next + 1)
  }

  /** `copyFile` of a file holding `data`; the sum is an int64. */
  function CopyFileSpec(st: Progress, data: Bytes, target: Path): Progress {
    if st.files >= COPY_MAX_FILES || Wrap(st.bytes + |data|) > COPY_MAX_BYTES then st.(ok := false)
    else if target == [] || target in st.fs || !IsDir(st.fs, Parent(target)) then st.(ok := false)
    else
      Progress(st.fs[target := File(st.next, data)], st.next + 1, st.files + 1, Wrap(st.bytes + |data|), true)
  }

  function CopyEntry(st: Progress, node: Node, target: Path): Progress {
    match node
    case Dir(_) => MakeDir(st, target)
    case File(_, data) => CopyFileSpec(st, data, target)
    case Link(_, _) => st.(ok := false)
  }

  predicate Rooted(from: Fs, src: Path, list: seq<Path>) {
    forall i :: 0 <= i < |list| ==> src <= list[i] && list[i] in from
  }

  /** The first `n` entries of `list` copied from below `src` to below `dst`, up to the first error. */
  function CopyList(st: Progress, from: Fs, src: Path, dst: Path, list: seq<Path>, n: nat): Progress
    requires n <= |list| && Rooted(from, src, list)
  {
    if n == 0 then st
    else
      var before := CopyList(st, from, src, dst, list, n - 1);
      if before.ok then CopyEntry(before, from[list[n - 1]], Target(src, dst, list[n - 1])) else before
  }

  /** How many files, and how many bytes, the first `n` entries hold. */
  function FileCount(from: Fs, list: seq<Path>, n: nat): nat
    requires n <= |list| && forall i :: 0 <= i < |list| ==> list[i] in from
  {
    if n == 0 then 0 else FileCount(from, list, n - 1) + if from[list[n - 1]].File? then 1 else 0
  }

  function ByteCount(from: Fs, list: seq<Path>, n: nat): nat
    requires n <= |list| && forall i :: 0 <= i < |list| ==> list[i] in from
  {
    if n == 0 then 0
    else ByteCount(from, list, n - 1) + if from[list[n - 1]].File? then |from[list[n - 1]].data| else 0
  }

  predicate WithinLimits(from: Fs, list: seq<Path>, n: nat)
    requires n <= |list| && forall i :: 0 <= i < |list| ==> list[i] in from
  {
    FileCount(from, list, n) <= COPY_MAX_FILES && ByteCount(from, list, n) <= COPY_MAX_BYTES
  }

  /** What the code tests: the running totals as int64. */
  predicate PassesLimits(from: Fs, list: seq<Path>, n: nat)
    requires n <= |list| && forall i :: 0 <= i < |list| ==> list[i] in from
  {
    FileCount(from, list, n) <= COPY_MAX_FILES
    && forall m :: 0 <= m <= n ==> Wrap(ByteCount(from, list, m)) <= COPY_MAX_BYTES
  }

  // ---------------------------------------------------------------- what a copy leaves behind

  predicate SameKind(a: Node, b: Node) {
    (a.Dir? && b.Dir?) || (a.File? && b.File? && a.data == b.data)
  }

  /** Where the entry at `q` in the copy came from. */
  function Source(src: Path, dst: Path, q: Path): Path
    requires dst <= q
  {
    src + q[|dst|..]
  }

  /** The tree `now` is `base` with the first `n` entries of `list` copied below `dst`. */
  ghost predicate Landed(base: Fs, now: Fs, src: Path, dst: Path, list: seq<Path>, n: nat)
    requires n <= |list|
  {
    && Extends(base, now)
    && (forall q :: q in now <==> q in base || (dst <= q && Source(src, dst, q) in list[..n]))
    && (forall q :: q in now && q !in base && dst <= q ==>
          Source(src, dst, q) in base && SameKind(base[Source(src, dst, q)], now[q]))
  }

  /** A listing to be copied to a free place. */
  ghost predicate Ready(base: Fs, src: Path, dst: Path, list: seq<Path>) {
    && WellFormed(base) && dst !in base && dst != [] && IsDir(base, Parent(dst))
    && TopDown(base, src, list)
    && Rooted(base, src, list) && forall i :: 0 <= i < |list| ==> !base[list[i]].Link?
  }

  lemma TargetFacts(src: Path, dst: Path, q: Path)
    requires src <= q
    ensures dst <= Target(src, dst, q) && Source(src, dst, Target(src, dst, q)) == q
    ensures src < q ==> Target(src, dst, q) != [] && Parent(Target(src, dst, q)) == Target(src, dst, Parent(q))
    ensures q == src ==> Target(src, dst, q) == dst
  {
    var t := Target(src, dst, q);
    assert t[|dst|..] == q[|src|..];
    assert q == src + q[|src|..];
  }

  /** The next target is free and its directory is there. */
  lemma NextTarget(base: Fs, now: Fs, src: Path, dst: Path, list: seq<Path>, n: nat)
    requires Ready(base, src, dst, list) && n < |list| && Landed(base, now, src, dst, list, n)
    ensures var t := Target(src, dst, list[n]);
            t != [] && t !in now && IsDir(now, Parent(t))
  {
    hide WellFormed;
    var q := list[n];
    TargetFacts(src, dst, q);
    var t := Target(src, dst, q);
    if t in base {
      NothingBelow(base, dst, t);
    }
    forall k | 0 <= k < n ensures list[k] != q {
    }
    assert AfterParent(base, src, list, n);
    if q != src {
      TargetFacts(src, dst, Parent(q));
      var pt := Parent(t);
      if pt in base {
        NothingBelow(base, dst, pt);
      }
    } else {
      assert t == dst;
    }
  }

  lemma LandsNext(base: Fs, now: Fs, src: Path, dst: Path, list: seq<Path>, n: nat, node: Node)
    requires Ready(base, src, dst, list) && n < |list| && Landed(base, now, src, dst, list, n)
    requires SameKind(base[list[n]], node) && Target(src, dst, list[n]) !in now
    ensures Landed(base, now[Target(src, dst, list[n]) := node], src, dst, list, n + 1)
  {
    hide WellFormed, TopDown;
    var t := Target(src, dst, list[n]);
    TargetFacts(src, dst, list[n]);
    assert list[..n + 1] == list[..n] + [list[n]];
    forall q | dst <= q && Source(src, dst, q) == list[n] ensures q == t {
      assert q == dst + q[|dst|..];
      assert q[|dst|..] == list[n][|src|..];
    }
  }

  lemma WrapSum(a: int, b: int)
    ensures Wrap(Wrap(a) + b) == Wrap(a + b)
  {
  }

  /** The test grows by one entry. */
  lemma PassesNext(from: Fs, list: seq<Path>, n: nat)
    requires n < |list| && forall i :: 0 <= i < |list| ==> list[i] in from
    ensures PassesLimits(from, list, n + 1) <==>
              PassesLimits(from, list, n)
              && (from[list[n]].File? ==> FileCount(from, list, n) < COPY_MAX_FILES
                                          && Wrap(ByteCount(from, list, n) + |from[list[n]].data|) <= COPY_MAX_BYTES)
  {
    hide Wrap;
    if PassesLimits(from, list, n) {
      assert Wrap(ByteCount(from, list, n)) <= COPY_MAX_BYTES;
    }
    if PassesLimits(from, list, n + 1) {
      assert Wrap(ByteCount(from, list, n + 1)) <= COPY_MAX_BYTES;
    }
  }

  /** The running totals are those of the entries copied so far, as int64, and the copy goes on exactly as
      long as they pass the limits. */
  lemma {:induction false} ProgressTo(base: Fs, next: nat, src: Path, dst: Path, list: seq<Path>, n: nat)
    requires Ready(base, src, dst, list) && n <= |list|
    ensures var st := CopyList(Progress(base, next, 0, 0, true), base, src, dst, list, n);
            && (st.ok <==> PassesLimits(base, list, n))
            && (st.ok ==> st.files == FileCount(base, list, n) && st.bytes == Wrap(ByteCount(base, list, n))
                          && Landed(base, st.fs, src, dst, list, n))
  {
    hide TopDown, WellFormed, Landed, PassesLimits, Wrap;
    if n == 0 {
      LandedNothing(base, src, dst, list);
      NothingPasses(base, list);
    } else {
      ProgressTo(base, next, src, dst, list, n - 1);
      PassesNext(base, list, n - 1);
      var before := CopyList(Progress(base, next, 0, 0, true), base, src, dst, list, n - 1);
      if before.ok {
        NextTarget(base, before.fs, src, dst, list, n - 1);
        var node := base[list[n - 1]];
        var st := CopyEntry(before, node, Target(src, dst, list[n - 1]));
        if node.File? {
          WrapSum(ByteCount(base, list, n - 1), |node.data|);
        }
        if st.ok {
          LandsNext(base, before.fs, src, dst, list, n - 1, st.fs[Target(src, dst, list[n - 1])]);
        }
      }
    }
  }

  lemma NothingPasses(from: Fs, list: seq<Path>)
    requires forall i :: 0 <= i < |list| ==> list[i] in from
    ensures PassesLimits(from, list, 0) && Wrap(ByteCount(from, list, 0)) == 0
  {
  }

  lemma {:induction false} ByteCountGrows(from: Fs, list: seq<Path>, m: nat, n: nat)
    requires m <= n <= |list| && forall i :: 0 <= i < |list| ==> list[i] in from
    ensures ByteCount(from, list, m) <= ByteCount(from, list, n)
    decreases n
  {
    if m < n {
      ByteCountGrows(from, list, m, n - 1);
    }
  }

  /** The test is the limit exactly unless the total passes int64 unnoticed. */
  lemma PassesExactly(from: Fs, list: seq<Path>, n: nat)
    requires n <= |list| && forall i :: 0 <= i < |list| ==> list[i] in from
    ensures WithinLimits(from, list, n) <==> PassesLimits(from, list, n) && ByteCount(from, list, n) <= MAX_INT64
  {
    hide Wrap;
    forall m | 0 <= m <= n ensures ByteCount(from, list, m) <= ByteCount(from, list, n) {
      ByteCountGrows(from, list, m, n);
    }
    if ByteCount(from, list, n) <= MAX_INT64 {
      forall m | 0 <= m <= n ensures Wrap(ByteCount(from, list, m)) == ByteCount(from, list, m) {
        WrapSmall(ByteCount(from, list, m));
      }
      assert PassesLimits(from, list, n) ==> Wrap(ByteCount(from, list, n)) <= COPY_MAX_BYTES;
    }
  }

  lemma LandedNothing(base: Fs, src: Path, dst: Path, list: seq<Path>)
    ensures Landed(base, base, src, dst, list, 0)
  {
  }

  /** Outside the target nothing changes, whether the copy succeeds or not. */
  ghost predicate ConfinedTo(base: Fs, now: Fs, dst: Path) {
    forall q :: !(dst <= q) ==> (q in now <==> q in base) && (q in base ==> now[q] == base[q])
  }

  lemma {:induction false} CopyConfined(st: Progress, from: Fs, src: Path, dst: Path, list: seq<Path>, n: nat)
    requires n <= |list| && Rooted(from, src, list)
    ensures ConfinedTo(st.fs, CopyList(st, from, src, dst, list, n).fs, dst)
  {
    if n > 0 {
      CopyConfined(st, from, src, dst, list, n - 1);
      TargetFacts(src, dst, list[n - 1]);
    }
  }

  lemma RollbackRestores(base: Fs, now: Fs, dst: Path)
    requires WellFormed(base) && dst !in base && ConfinedTo(base, now, dst)
    ensures RemoveAll(now, dst) == base
  {
    hide WellFormed;
    forall q | q in base ensures !(dst <= q) {
      NothingBelow(base, dst, q);
    }
    assert RemoveAll(now, dst) == base;
  }

  // ---------------------------------------------------------------- copyPath and its rollback

  lemma VisibleEntry(fs: Fs, p: Path, q: Path)
    requires Visible(fs, p, q)
    ensures p <= q && q in fs && (q != p ==> !fs[q].Link?)
  {
    assert q[..|q|] == q && (q != p ==> Shows(fs, q, |q|));
  }

  lemma ListingRange(fs: Fs, p: Path, list: seq<Path>)
    requires WellFormed(fs) && p in fs && list == Listing(fs, p)
    ensures Rooted(fs, p, list)
    ensures forall i :: 0 <= i < |list| && list[i] != p ==> !fs[list[i]].Link?
  {
    hide WellFormed, Listing, Visible;
    forall i | 0 <= i < |list| ensures p <= list[i] && list[i] in fs && (list[i] != p ==> !fs[list[i]].Link?) {
      ListingMembers(fs, p, list[i]);
      VisibleEntry(fs, p, list[i]);
    }
  }

  ghost function CopyPathSpec(fs: Fs, next: nat, src: Path, dst: Path): Progress
    requires WellFormed(fs) && src in fs
  {
    var list := Listing(fs, src);
    ListingRange(fs, src, list);
    CopyList(Progress(fs, next, 0, 0, true), fs, src, dst, list, |list|)
  }

  /** The tree after `copyPath` and, where it failed, the handlers' `os.RemoveAll`. */
  ghost function CopyOrRollBack(fs: Fs, next: nat, src: Path, dst: Path): (Fs, bool)
    requires WellFormed(fs) && src in fs
  {
    var st := CopyPathSpec(fs, next, src, dst);
    if st.ok then (st.fs, true) else (RemoveAll(st.fs, dst), false)
  }

  ghost function VisibleFiles(fs: Fs, src: Path): set<Path> {
    set q | q in fs && fs[q].File? && Visible(fs, src, q)
  }

  predicate AllFiles(fs: Fs, files: set<Path>) {
    forall q :: q in files ==> q in fs && fs[q].File?
  }

  ghost function TotalBytes(fs: Fs, files: set<Path>): nat
    requires AllFiles(fs, files)
  {
    if files == {} then 0 else var q :| q in files; |fs[q].data| + TotalBytes(fs, files - {q})
  }

  /** The limits, said of the files that a copy takes: at most 5000, together at most 4 GiB. */
  ghost predicate Fits(fs: Fs, src: Path) {
    |VisibleFiles(fs, src)| <= COPY_MAX_FILES && TotalBytes(fs, VisibleFiles(fs, src)) <= COPY_MAX_BYTES
  }

  /** The limits as the code tests them: after each file, the number of files so far and the int64 total. */
  ghost predicate Passes(fs: Fs, src: Path)
    requires WellFormed(fs) && src in fs
  {
    ListingRange(fs, src, Listing(fs, src));
    PassesLimits(fs, Listing(fs, src), |Listing(fs, src)|)
  }

  ghost function FilesAmong(fs: Fs, list: seq<Path>, n: nat): (files: set<Path>)
    requires n <= |list| && forall i :: 0 <= i < |list| ==> list[i] in fs
    ensures AllFiles(fs, files)
  {
    set q | q in list[..n] && q in fs && fs[q].File?
  }

  /** The sum does not depend on the order in which the set is taken apart. */
  lemma {:induction false} TotalBytesWithout(fs: Fs, files: set<Path>, q: Path)
    requires AllFiles(fs, files)
    requires q in files
    ensures TotalBytes(fs, files) == |fs[q].data| + TotalBytes(fs, files - {q})
  {
    var first :| first in files && TotalBytes(fs, files) == |fs[first].data| + TotalBytes(fs, files - {first});
    if first != q {
      TotalBytesWithout(fs, files - {first}, q);
      TotalBytesWithout(fs, files - {q}, first);
      assert files - {first} - {q} == files - {q} - {first};
    }
  }

  lemma TotalBytesWith(fs: Fs, files: set<Path>, q: Path)
    requires AllFiles(fs, files)
    requires q !in files && q in fs && fs[q].File?
    ensures TotalBytes(fs, files + {q}) == |fs[q].data| + TotalBytes(fs, files)
  {
    hide TotalBytes;
    TotalBytesWithout(fs, files + {q}, q);
    assert files + {q} - {q} == files;
  }

  lemma FilesAmongNext(fs: Fs, list: seq<Path>, n: nat)
    requires Distinct(list) && n < |list| && forall i :: 0 <= i < |list| ==> list[i] in fs
    ensures FilesAmong(fs, list, n + 1) == FilesAmong(fs, list, n) + if fs[list[n]].File? then {list[n]} else {}
    ensures list[n] !in FilesAmong(fs, list, n)
  {
    assert list[..n + 1] == list[..n] + [list[n]];
    forall k | 0 <= k < n ensures list[k] != list[n] {
    }
  }

  lemma NoneAmong(fs: Fs, list: seq<Path>)
    requires forall i :: 0 <= i < |list| ==> list[i] in fs
    ensures FilesAmong(fs, list, 0) == {}
  {
  }

  lemma NoBytes(fs: Fs, files: set<Path>)
    requires files == {}
    ensures TotalBytes(fs, files) == 0
  {
  }

  lemma {:induction false} CountsAreTotals(fs: Fs, list: seq<Path>, n: nat)
    requires Distinct(list) && n <= |list| && forall i :: 0 <= i < |list| ==> list[i] in fs
    ensures FileCount(fs, list, n) == |FilesAmong(fs, list, n)|
    ensures ByteCount(fs, list, n) == TotalBytes(fs, FilesAmong(fs, list, n))
  {
    hide TotalBytes, FilesAmong, AllFiles, Distinct;
    if n == 0 {
      NoneAmong(fs, list);
      NoBytes(fs, FilesAmong(fs, list, 0));
    } else {
      CountsAreTotals(fs, list, n - 1);
      var q := list[n - 1];
      var before, after := FilesAmong(fs, list, n - 1), FilesAmong(fs, list, n);
      FilesAmongNext(fs, list, n - 1);
      if fs[q].File? {
        TotalBytesWith(fs, before, q);
      }
    }
  }

  lemma LimitsAreFits(fs: Fs, src: Path)
    requires WellFormed(fs) && src in fs
    ensures (forall i :: 0 <= i < |Listing(fs, src)| ==> Listing(fs, src)[i] in fs)
    ensures WithinLimits(fs, Listing(fs, src), |Listing(fs, src)|) <==> Fits(fs, src)
    ensures FileCount(fs, Listing(fs, src), |Listing(fs, src)|) == |VisibleFiles(fs, src)|
    ensures ByteCount(fs, Listing(fs, src), |Listing(fs, src)|) == TotalBytes(fs, VisibleFiles(fs, src))
  {
    hide WellFormed;
    var list := Listing(fs, src);
    ListingRange(fs, src, Listing(fs, src));
    ListingTopDown(fs, src);
    CountsAreTotals(fs, list, |list|);
    assert list[..|list|] == list;
    forall q ensures q in FilesAmong(fs, list, |list|) <==> q in VisibleFiles(fs, src) {
      ListingMembers(fs, src, q);
    }
    assert FilesAmong(fs, list, |list|) == VisibleFiles(fs, src);
  }

  /** A completed copy: the visible part of the source, and nothing else, below the target. */
  ghost predicate CopyOf(fs: Fs, src: Path, now: Fs, dst: Path) {
    && ConfinedTo(fs, now, dst)
    && (forall t: Path :: dst + t in now <==> Visible(fs, src, src + t))
    && (forall t: Path :: dst + t in now ==> src + t in fs && SameKind(fs[src + t], now[dst + t]))
  }

  lemma LandedIsCopy(fs: Fs, now: Fs, src: Path, dst: Path, list: seq<Path>)
    requires WellFormed(fs) && src in fs && dst !in fs && list == Listing(fs, src)
    requires Landed(fs, now, src, dst, list, |list|) && ConfinedTo(fs, now, dst)
    ensures CopyOf(fs, src, now, dst)
  {
    hide WellFormed, ConfinedTo;
    assert list[..|list|] == list;
    forall t: Path
      ensures dst + t in now <==> Visible(fs, src, src + t)
      ensures dst + t in now ==> src + t in fs && SameKind(fs[src + t], now[dst + t])
    {
      assert Source(src, dst, dst + t) == src + t;
      ListingMembers(fs, src, src + t);
      if dst + t in fs {
        NothingBelow(fs, dst, dst + t);
      }
    }
  }

  lemma SourceReady(fs: Fs, src: Path, dst: Path)
    requires WellFormed(fs) && src in fs && !fs[src].Link? && dst !in fs && dst != [] && IsDir(fs, Parent(dst))
    ensures Ready(fs, src, dst, Listing(fs, src))
  {
    hide TopDown;
    ListingRange(fs, src, Listing(fs, src));
    ListingTopDown(fs, src);
  }

  /** The copy succeeds exactly when what it takes passes the limits. It is then the source without
      dot entries and links, and otherwise the rollback leaves the tree as it was. */
  lemma CopyExactly(fs: Fs, next: nat, src: Path, dst: Path)
    requires WellFormed(fs) && src in fs && !fs[src].Link?
    requires dst !in fs && dst != [] && IsDir(fs, Parent(dst))
    ensures var (now, ok) := CopyOrRollBack(fs, next, src, dst);
            && (ok <==> Passes(fs, src))
            && (ok ==> CopyOf(fs, src, now, dst))
            && (!ok ==> now == fs)
  {
    hide WellFormed, ConfinedTo, Landed, Ready, CopyOf, TopDown, PassesLimits;
    var list := Listing(fs, src);
    ListingRange(fs, src, Listing(fs, src));
    SourceReady(fs, src, dst);
    ProgressTo(fs, next, src, dst, list, |list|);
    CopyConfined(Progress(fs, next, 0, 0, true), fs, src, dst, list, |list|);
    var st := CopyPathSpec(fs, next, src, dst);
    if st.ok {
      LandedIsCopy(fs, st.fs, src, dst, list);
    } else {
      RollbackRestores(fs, st.fs, dst);
    }
  }

  /** Passing the limits is holding at most 5000 files and 4 GiB exactly when it is not a matter of more
      than 2^63 - 1 bytes whose int64 total looks small. */
  lemma LimitsHoldExactly(fs: Fs, src: Path)
    requires WellFormed(fs) && src in fs
    ensures Fits(fs, src) <==> Passes(fs, src) && TotalBytes(fs, VisibleFiles(fs, src)) <= MAX_INT64
  {
    hide WellFormed, Fits, WithinLimits, PassesLimits, VisibleFiles, TotalBytes;
    LimitsAreFits(fs, src);
    ListingRange(fs, src, Listing(fs, src));
    PassesExactly(fs, Listing(fs, src), |Listing(fs, src)|);
  }

  /** Every partial total, from the first entry visited on, leaves a remainder modulo 2^64 that is at most 4 GiB or
      that int64 reads as negative. */
  ghost predicate SumsPass(fs: Fs, list: seq<Path>, n: nat)
    requires n <= |list| && forall i :: 0 <= i < |list| ==> list[i] in fs
  {
    forall m {:trigger ByteCount(fs, list, m)} :: 0 <= m <= n ==>
      var rest := ByteCount(fs, list, m) % 0x1_0000_0000_0000_0000;
      rest <= COPY_MAX_BYTES || rest > MAX_INT64
  }

  lemma WrapPasses(x: nat)
    ensures Wrap(x) <= COPY_MAX_BYTES <==>
              var rest := x % 0x1_0000_0000_0000_0000;
              rest <= COPY_MAX_BYTES || rest > MAX_INT64
  {
  }

  /** A source, however large, passes the limits exactly when it holds at most 5000 files and every partial total
      does so. */
  lemma PassesBySums(fs: Fs, src: Path)
    requires WellFormed(fs) && src in fs
    ensures var list := Listing(fs, src);
            && (forall i :: 0 <= i < |list| ==> list[i] in fs)
            && (Passes(fs, src) <==> |VisibleFiles(fs, src)| <= COPY_MAX_FILES && SumsPass(fs, list, |list|))
  {
    hide WellFormed, Wrap, VisibleFiles, TotalBytes, Listing, Fits, WithinLimits;
    LimitsAreFits(fs, src);
    var list := Listing(fs, src);
    ListingRange(fs, src, list);
    forall m | 0 <= m <= |list| ensures Wrap(ByteCount(fs, list, m)) <= COPY_MAX_BYTES <==>
                                        var rest := ByteCount(fs, list, m) % 0x1_0000_0000_0000_0000;
                                        rest <= COPY_MAX_BYTES || rest > MAX_INT64 {
      WrapPasses(ByteCount(fs, list, m));
    }
  }

  /** Files that cannot carry the total over what the test stops at. */
  predicate NoGiants(fs: Fs, list: seq<Path>) {
    forall i :: 0 <= i < |list| && list[i] in fs && fs[list[i]].File? ==>
                  |fs[list[i]].data| <= MAX_INT64 - COPY_MAX_BYTES
  }

  lemma {:induction false} NoGiantPasses(fs: Fs, list: seq<Path>, n: nat)
    requires n <= |list| && (forall i :: 0 <= i < |list| ==> list[i] in fs) && NoGiants(fs, list)
    requires PassesLimits(fs, list, |list|)
    ensures ByteCount(fs, list, n) <= COPY_MAX_BYTES
  {
    hide Wrap, FileCount;
    if n > 0 {
      NoGiantPasses(fs, list, n - 1);
      WrapSmall(ByteCount(fs, list, n));
    }
  }

  /** While every file is smaller than 2^63 - 2^32 bytes, passing the limits is holding at most 5000 files and 4 GiB
      in all. */
  lemma PassesIsFits(fs: Fs, src: Path)
    requires WellFormed(fs) && src in fs && NoGiants(fs, Listing(fs, src))
    ensures Passes(fs, src) <==> Fits(fs, src)
  {
    hide WellFormed, Fits, PassesLimits, VisibleFiles, TotalBytes, Listing, NoGiants;
    LimitsHoldExactly(fs, src);
    LimitsAreFits(fs, src);
    var list := Listing(fs, src);
    ListingRange(fs, src, list);
    if Passes(fs, src) {
      NoGiantPasses(fs, list, |list|);
    }
  }

  lemma {:induction false} StopsAtOnce(st: Progress, from: Fs, src: Path, dst: Path, list: seq<Path>, n: nat)
    requires 0 < n <= |list| && Rooted(from, src, list)
    requires list[0] == src && dst in st.fs && st.ok
    ensures var r := CopyList(st, from, src, dst, list, n); !r.ok && r.fs == st.fs && r.next == st.next
  {
    if n == 1 {
      assert CopyList(st, from, src, dst, list, 0) == st;
      assert src[|src|..] == [] && dst + [] == dst;
    } else {
      StopsAtOnce(st, from, src, dst, list, n - 1);
    }
  }

  /** Where the target is taken after all, by a dangling link that `os.Stat` reports as missing, the
      copy fails and the rollback removes that entry. */
  lemma RollbackExactly(fs: Fs, next: nat, src: Path, dst: Path)
    requires WellFormed(fs) && src in fs && !fs[src].Link?
    requires dst != [] && IsDir(fs, Parent(dst)) && !CopyOrRollBack(fs, next, src, dst).1
    ensures CopyOrRollBack(fs, next, src, dst).0 == fs <==> dst !in fs
  {
    hide WellFormed, Passes;
    if dst !in fs {
      CopyExactly(fs, next, src, dst);
    } else {
      ListingRange(fs, src, Listing(fs, src));
      hide ListingOf, ReadDir;
      StopsAtOnce(Progress(fs, next, 0, 0, true), fs, src, dst, Listing(fs, src), |Listing(fs, src)|);
      assert dst !in RemoveAll(fs, dst);
    }
  }

  /** On a tree without links the result is again such a tree. */
  lemma {:induction false} CopyTreeOk(st: Progress, from: Fs, src: Path, dst: Path, list: seq<Path>, n: nat)
    requires n <= |list| && Rooted(from, src, list) && forall i :: 0 <= i < |list| ==> ValidPath(list[i])
    requires ValidPath(dst) && dst != [] && TreeOk(st.fs, st.next)
    ensures var r := CopyList(st, from, src, dst, list, n);
            TreeOk(r.fs, r.next) && r.next >= st.next && Extends(st.fs, r.fs)
  {
    hide TreeOk;
    if n > 0 {
      CopyTreeOk(st, from, src, dst, list, n - 1);
      var before := CopyList(st, from, src, dst, list, n - 1);
      var t := Target(src, dst, list[n - 1]);
      if t != [] && t !in before.fs && IsDir(before.fs, Parent(t)) {
        assert ValidName(Last(t));
        AddNode(before.fs, before.next, t, Dir(before.next));
        if from[list[n - 1]].File? {
          AddNode(before.fs, before.next, t, File(before.next, from[list[n - 1]].data));
        }
      }
    }
  }

  // ---------------------------------------------------------------- a source that is too large and passes

  const SMALL: Bytes := [0]

  /** As many bytes as an int64 can count. */
  function Huge(): (b: Bytes)
    ensures |b| == MAX_INT64
  {
    seq(MAX_INT64, i => 0)
  }

  /** A folder with a file of one byte and a sparse one of 2^63 - 1. */
  function SparseTree(): Fs {
    map[[] := Dir(0), ["d"] := Dir(1), ["d", "a"] := File(2, SMALL), ["d", "b"] := File(3, Huge())]
  }

  lemma SparseWellFormed()
    ensures WellFormed(SparseTree())
    ensures forall n :: ["d"] + [n] in SparseTree() <==> n == "a" || n == "b"
    ensures ["d"] + ["a"] == ["d", "a"] && ["d"] + ["b"] == ["d", "b"]
  {
    hide Huge;
    var fs := SparseTree();
    var d, a, b: Path := ["d"], ["d", "a"], ["d", "b"];
    assert Parent(d) == [] && Parent(a) == d && Parent(b) == d && Last(d) == "d" && Last(a) == "a" && Last(b) == "b";
    ShapeSuffices(fs);
    forall n ensures d + [n] in fs <==> n == "a" || n == "b" {
      assert (d + [n])[1] == n && a[1] == "a" && b[1] == "b";
      assert n == "a" ==> d + [n] == a;
      assert n == "b" ==> d + [n] == b;
    }
  }

  /** Two names in order. */
  lemma TwoNames(names: seq<Name>)
    requires Increasing(names) && forall n :: n in names <==> n == "a" || n == "b"
    ensures names == ["a", "b"]
  {
    assert "a" in names && "b" in names;
    assert !Before("b", "a") && !Before("a", "a") && !Before("b", "b");
    assert names[0] in names;
    assert |names| >= 2 && names[1] in names;
    assert names[|names| - 1] in names;
  }

  lemma SparseListing()
    ensures ["d"] in SparseTree() && Listing(SparseTree(), ["d"]) == [["d"], ["d", "a"], ["d", "b"]]
  {
    hide Huge;
    var fs := SparseTree();
    var d, a, b: Path := ["d"], ["d", "a"], ["d", "b"];
    SparseWellFormed();
    ReadDirFacts(fs, d);
    var names := ReadDir(fs, d);
    TwoNames(names);
    assert Last(a) == "a" && Last(b) == "b" && d + [names[0]] == a && d + [names[1]] == b;
    TwoFiles(fs, d, names, a, b);
  }

  /** The listing of a directory of two files. */
  lemma TwoFiles(fs: Fs, d: Path, names: seq<Name>, a: Path, b: Path)
    requires IsDir(fs, d) && names == ReadDir(fs, d) && |names| == 2
    requires d + [names[0]] == a && d + [names[1]] == b && a in fs && b in fs && fs[a].File? && fs[b].File?
    requires !Skipped(fs, a) && !Skipped(fs, b)
    ensures Listing(fs, d) == [d, a, b]
  {
    hide ReadDir, Skipped;
    assert Listing(fs, a) == [a] && Listing(fs, b) == [b];
    assert ListingOf(fs, d, names, 0) == [];
    assert ListingOf(fs, d, names, 1) == [a];
    assert ListingOf(fs, d, names, 2) == [a, b];
  }

  /** It passes the limits, though it holds more than 4 GiB. */
  lemma SparsePasses()
    ensures WellFormed(SparseTree()) && ["d"] in SparseTree()
    ensures Passes(SparseTree(), ["d"]) && !Fits(SparseTree(), ["d"])
  {
    hide Huge, Listing, TotalBytes, VisibleFiles;
    var fs := SparseTree();
    SparseWellFormed();
    SparseListing();
    LimitsAreFits(fs, ["d"]);
    var list := Listing(fs, ["d"]);
    ListingRange(fs, ["d"], list);
    NothingPasses(fs, list);
    PassesNext(fs, list, 0);
    PassesNext(fs, list, 1);
    PassesNext(fs, list, 2);
    assert ByteCount(fs, list, 1) == 0 && ByteCount(fs, list, 2) == 1 && ByteCount(fs, list, 3) == 1 + MAX_INT64;
    assert FileCount(fs, list, 1) == 0 && FileCount(fs, list, 2) == 1;
  }

  // ---------------------------------------------------------------- names for copies

  /** `filepath.Ext` of a single name: from its last dot on. */
  function Ext(name: string): (e: string)
    ensures |e| <= |name| && name[|name| - |e|..] == e
  {
    if name == "" || name[|name| - 1] == '/' then ""
    else if name[|name| - 1] == '.' then "."
    else
      var e := Ext(name[..|name| - 1]);
      if e == "" then "" else e + [name[|name| - 1]]
  }

  function Stem(name: string): string {
    name[..|name| - |Ext(name)|]
  }

  /** `copyNameCandidate`. */
  function CopyNameCandidate(name: string, n: nat): string {
    if n == 0 then name
    else if n == 1 then Stem(name) + " copy" + Ext(name)
    else Stem(name) + " copy " + Decimal(n) + Ext(name)
  }

  /** What stands between the stem and the extension. */
  function Marker(n: nat): string {
    if n == 0 then "" else if n == 1 then " copy" else " copy " + Decimal(n)
  }

  lemma StemAndExt(name: string)
    ensures Stem(name) + Ext(name) == name
  {
    hide Ext;
  }

  lemma CandidateShape(name: string, n: nat)
    ensures CopyNameCandidate(name, n) == Stem(name) + Marker(n) + Ext(name)
  {
    hide Stem, Ext, Decimal;
    if n == 0 {
      StemAndExt(name);
      assert Stem(name) + "" == Stem(name);
    } else if n > 1 {
      assert Stem(name) + (" copy " + Decimal(n)) == Stem(name) + " copy " + Decimal(n);
    }
  }

  lemma MarkersDistinct(m: nat, n: nat)
    requires Marker(m) == Marker(n)
    ensures m == n
  {
    ValueOfDecimal(m);
    ValueOfDecimal(n);
    if m > 1 && n > 1 {
      assert Marker(m)[6..] == Decimal(m) && Marker(n)[6..] == Decimal(n);
    }
  }

  /** Different numbers give different names, whatever the name is. */
  lemma CandidatesDistinct(name: string, m: nat, n: nat)
    ensures CopyNameCandidate(name, m) == CopyNameCandidate(name, n) <==> m == n
  {
    hide CopyNameCandidate, Marker, Stem, Ext;
    CandidateShape(name, m);
    CandidateShape(name, n);
    if CopyNameCandidate(name, m) == CopyNameCandidate(name, n) {
      SameMiddle(Stem(name), Marker(m), Marker(n), Ext(name));
      MarkersDistinct(m, n);
    }
  }

  lemma SameMiddle(a: string, x: string, y: string, e: string)
    requires a + x + e == a + y + e
    ensures x == y
  {
    var all, other := a + x + e, a + y + e;
    assert |x| == |y|;
    assert all[|a|..|a| + |x|] == x && other[|a|..|a| + |y|] == y;
  }

  /** The extension is what follows the last dot, dot included. */
  lemma {:induction false} ExtExactly(a: string, e: string)
    requires '.' !in e && '/' !in e
    ensures Ext(a + "." + e) == "." + e
  {
    var name := a + "." + e;
    if e == "" {
      assert name[|name| - 1] == '.';
    } else {
      assert name[..|name| - 1] == a + "." + e[..|e| - 1] && name[|name| - 1] == e[|e| - 1];
      ExtExactly(a, e[..|e| - 1]);
      assert "." + e[..|e| - 1] + [e[|e| - 1]] == "." + e;
    }
  }

  /** Without a dot there is none. */
  lemma {:induction false} NoExt(name: string)
    requires '.' !in name
    ensures Ext(name) == ""
  {
    if name != "" {
      NoExt(name[..|name| - 1]);
    }
  }

  /** Copies are numbered before the extension: "a.txt", "a copy.txt", "a copy 2.txt", and so on; a name without
      a dot has none. */
  lemma CandidateExactly(a: string, e: string, n: nat)
    requires '.' !in e && '/' !in e
    ensures CopyNameCandidate(a + "." + e, n)
         == if n == 0 then a + "." + e
            else if n == 1 then a + " copy." + e
            else a + " copy " + Decimal(n) + "." + e
    ensures CopyNameCandidate(e, n)
         == if n == 0 then e else if n == 1 then e + " copy" else e + " copy " + Decimal(n)
  {
    hide Ext, Decimal;
    ExtExactly(a, e);
    NoExt(e);
    assert (a + "." + e)[..|a|] == a && |Ext(a + "." + e)| == 1 + |e|;
    assert Stem(a + "." + e) == a && Stem(e) == e;
    assert a + " copy" + ("." + e) == a + " copy." + e;
    assert a + " copy " + Decimal(n) + ("." + e) == a + " copy " + Decimal(n) + "." + e;
    assert e + " copy" + "" == e + " copy" && e + " copy " + Decimal(n) + "" == e + " copy " + Decimal(n);
  }

  function Candidates(name: string, k: nat): set<string> {
    if k == 0 then {} else Candidates(name, k - 1) + {CopyNameCandidate(name, k - 1)}
  }

  lemma {:induction false} CandidateCount(name: string, k: nat)
    ensures |Candidates(name, k)| == k
    ensures forall c :: c in Candidates(name, k) ==> exists i: nat :: i < k && c == CopyNameCandidate(name, i)
  {
    if k > 0 {
      CandidateCount(name, k - 1);
      forall i: nat | i < k - 1 ensures CopyNameCandidate(name, i) != CopyNameCandidate(name, k - 1) {
        CandidatesDistinct(name, i, k - 1);
      }
    }
  }

  lemma {:induction false} SubsetSize<T>(a: set<T>, b: set<T>)
    requires a <= b
    ensures |a| <= |b|
  {
    if a != {} {
      var x :| x in a;
      SubsetSize(a - {x}, b - {x});
    }
  }

  /** A directory with fewer entries than there are candidates lacks one of them. */
  lemma SomeCandidateFree(taken: set<string>, name: string, k: nat)
    requires |taken| < k
    ensures exists i: nat :: i < k && CopyNameCandidate(name, i) !in taken
  {
    CandidateCount(name, k);
    if Candidates(name, k) <= taken {
      SubsetSize(Candidates(name, k), taken);
    }
  }
}
