/** shares.go against handlers.go: the share table names the nodes it was made for, whatever happens to
    the tree, as long as requests spell paths the way the table does. */
module ArchiveShares {
  import opened Archive
  import opened ArchiveEffects
  import opened FileSystem
  import opened Paths
  import opened Resolver
  import opened Shares
  import opened Tree

  /** The request spells a path below the root plainly, up to slashes at its ends. */
  predicate Plain(request: string) {
    Canonical(Trim(request, "/"))
  }

  /** The root, which may be called ".", or a directory spelled plainly. */
  predicate PlainDir(request: string) {
    Trim(request, "/") == "" || Trim(request, "/") == "." || Plain(request)
  }

  /** The share's path is that of the node it was created for, and its name is that path's last. */
  ghost predicate Follows(fs: Fs, made: map<string, nat>, sh: Share) {
    && Canonical(sh.path) && sh.token in made
    && var p := Split(sh.path);
       p in fs && fs[p].ino == made[sh.token] && sh.name == Last(p) && sh.isDir == fs[p].Dir?
  }

  ghost predicate AllFollow(fs: Fs, made: map<string, nat>, shares: seq<Share>) {
    forall i :: 0 <= i < |shares| ==> Follows(fs, made, shares[i])
  }

  // ---------------------------------------------------------------- request strings

  /** A plain request is resolved to the path it spells. */
  lemma PlainMeans(request: string)
    requires Plain(request)
    ensures var p := CleanRooted(Slashed(request));
            UserSpot(p) && p == Split(Trim(request, "/")) && Trim(request, "/") == Join(p)
  {
    CleanSkipsLeading(request, "/");
    CleanSkipsTrailing(TrimLeft(request, "/"), "/");
    var t := Trim(request, "/");
    JoinSplit(t);
    RequestCanonical(Split(t));
    SplitNonEmpty(t);
  }

  lemma SplitNonEmpty(s: string)
    requires Canonical(s)
    ensures Split(s) != []
  {
  }

  lemma PlainDirMeans(request: string, name: Name)
    requires PlainDir(request) && UserName(name)
    ensures var p := CleanRooted(Slashed(request));
            && UserPath(p) && PathJoinSpec([Trim(request, "/"), name]) == Join(p + [name])
  {
    var t := Trim(request, "/");
    if t == "" || t == "." {
      CleanSkipsLeading(request, "/");
      CleanSkipsTrailing(TrimLeft(request, "/"), "/");
      assert Slashed("") == "" && CleanRooted("") == [];
      assert Slashed(".") == "." && CleanRooted(".") == [] by {
        SplitPiece(".", "");
      }
      JoinedUnderRoot(t, name);
    } else {
      PlainMeans(request);
      JoinedUnder(CleanRooted(Slashed(request)), name);
    }
  }

  lemma NameKept(name: Name)
    requires UserName(name)
    ensures Kept([name]) == [name]
  {
    TrimNoop(name, "/");
    assert Kept([name]) == [name] + Kept([]);
  }

  lemma JoinedUnderRoot(dir: string, name: Name)
    requires UserName(name) && (dir == "" || dir == ".")
    ensures PathJoinSpec([dir, name]) == Join([] + [name])
  {
    NameKept(name);
    KeptSnoc([dir], name);
    assert [dir] + [name] == [dir, name] && Kept([dir]) == [] + Kept([]);
    assert [] + [name] == [name];
  }

  lemma JoinedUnder(p: Path, name: Name)
    requires UserSpot(p) && UserName(name)
    ensures PathJoinSpec([Join(p), name]) == Join(p + [name])
  {
    var t := Join(p);
    NameKept(name);
    JoinedPath(p);
    PlainNotDot(p);
    KeptSnoc([t], name);
    assert [t] + [name] == [t, name] && Kept([t]) == [t] + Kept([]);
    JoinConcat(p, [name]);
    JoinConcat([t], [name]);
  }

  lemma PlainNotDot(p: Path)
    requires UserSpot(p)
    ensures Join(p) != "."
  {
    JoinNonEmpty(p);
  }

  lemma PlainParent(request: string, name: Name)
    requires Plain(request) && UserName(name)
    ensures var p := CleanRooted(Slashed(request));
            p != [] && PathJoinSpec([PathDir(request), name]) == Join(Parent(p) + [name])
  {
    PlainMeans(request);
    var p := CleanRooted(Slashed(request));
    var up := Parent(p);
    assert PathDir(request) == Join(up);
    if up != [] {
      CanonicalJoin(up);
      JoinedPath(up);
      assert Plain(Join(up));
      RequestCanonical(up);
    } else {
      assert Trim("", "/") == "";
      assert Slashed("") == "" && CleanRooted("") == [];
    }
    PlainDirMeans(Join(up), name);
    KeptTrims(PathDir(request), name);
  }

  lemma KeptTrims(s: string, name: Name)
    requires Trim(Trim(s, "/"), "/") == Trim(s, "/")
    ensures Kept([Trim(s, "/"), name]) == Kept([s, name])
  {
    assert [Trim(s, "/"), name][1..] == [name] && [s, name][1..] == [name];
  }

  // ---------------------------------------------------------------- one share through one change

  lemma CanonicalPath(s: string)
    requires Canonical(s)
    ensures UserSpot(Split(s)) && ValidPath(Split(s)) && Join(Split(s)) == s
  {
    JoinSplit(s);
  }

  lemma JoinCanonical(p: Path)
    requires UserSpot(p)
    ensures Canonical(Join(p)) && Split(Join(p)) == p && Base(Join(p)) == Last(p) && Trim(Join(p), "/") == Join(p)
    ensures NoSlashes(p)
  {
    CanonicalJoin(p);
    JoinedPath(p);
  }

  /** `UnderPrefix` on plain strings is containment of paths. */
  lemma UnderIsBelow(s: string, p: Path)
    requires Canonical(s) && UserSpot(p)
    ensures UnderPrefix(s, Join(p)) <==> p <= Split(s)
    ensures s == Join(p) <==> p == Split(s)
  {
    hide Split, Join, Canonical, UserSpot, ValidPath, HasPrefix;
    CanonicalPath(s);
    JoinCanonical(p);
    JoinCanonical(Split(s));
    SpotNames(p);
    SpotNames(Split(s));
    StrictlyBelow(Split(s), p);
    assert p <= Split(s) <==> p == Split(s) || p < Split(s);
  }

  lemma SpotNames(p: Path)
    requires UserSpot(p)
    ensures p != []
  {
  }

  lemma RewrittenPath(sh: Share, src: Path, dst: Path)
    requires Canonical(sh.path) && UserSpot(src) && UserSpot(dst) && src <= Split(sh.path)
    ensures var p := dst + Split(sh.path)[|src|..];
            && UserSpot(p)
            && Rewritten(sh, Join(src), Join(dst)) == sh.(path := Join(p), name := Last(p))
  {
    var q := Split(sh.path);
    var p := dst + q[|src|..];
    CanonicalPath(sh.path);
    UnderIsBelow(sh.path, src);
    JoinCanonical(p);
    if src == q {
      assert p == dst;
    } else {
      StrictlyBelow(q, src);
      SwapPrefix(q, src, dst);
    }
  }

  lemma NotRewritten(sh: Share, src: Path, to: string)
    requires Canonical(sh.path) && UserSpot(src) && !(src <= Split(sh.path))
    ensures Rewritten(sh, Join(src), to) == sh
  {
    UnderIsBelow(sh.path, src);
  }

  /** Rewriting the path string by prefix and renaming in the tree commute. */
  lemma FollowsMove(fs: Fs, src: Path, dst: Path, made: map<string, nat>, sh: Share)
    requires Follows(fs, made, sh) && FreeMove(fs, src, dst) && UserSpot(src) && UserSpot(dst)
    ensures Follows(Moved(fs, src, dst), made, Rewritten(sh, Join(src), Join(dst)))
  {
    hide WellFormed, Moved, Canonical, UserSpot, Rewritten;
    var q := Split(sh.path);
    if src <= q {
      RewrittenPath(sh, src, dst);
      var p := dst + q[|src|..];
      JoinCanonical(p);
      MovedAt(fs, src, dst, p);
      Swap(src, dst, q);
    } else {
      NotRewritten(sh, src, Join(dst));
      MovedAt(fs, src, dst, q);
      NothingBelow(fs, dst, q);
    }
  }

  /** A share that is not below what was moved away stays where it is. */
  lemma FollowsElsewhere(fs: Fs, src: Path, dst: Path, made: map<string, nat>, sh: Share)
    requires Follows(fs, made, sh) && FreeMove(fs, src, dst) && !(src <= Split(sh.path))
    ensures Follows(Moved(fs, src, dst), made, sh)
  {
    hide WellFormed, Moved, Canonical;
    MovedAt(fs, src, dst, Split(sh.path));
    NothingBelow(fs, dst, Split(sh.path));
  }

  lemma TableMoves(fs: Fs, src: Path, dst: Path, made: map<string, nat>, st: Store, ok: bool)
    requires AllFollow(fs, made, st.mem) && FreeMove(fs, src, dst) && UserSpot(src) && UserSpot(dst)
    ensures AllFollow(Moved(fs, src, dst), made, RewritePathPrefixSpec(st, Join(src), Join(dst), ok).mem)
  {
    hide FreeMove, Moved, Follows, UserSpot, Rewritten, UnderPrefix;
    JoinCanonical(src);
    JoinCanonical(dst);
    var st' := RewritePathPrefixSpec(st, Join(src), Join(dst), ok);
    forall i | 0 <= i < |st'.mem| ensures Follows(Moved(fs, src, dst), made, st'.mem[i]) {
      FollowsMove(fs, src, dst, made, st.mem[i]);
      RewrittenOrNot(st.mem[i], Join(src), Join(dst));
    }
  }

  lemma RewrittenOrNot(sh: Share, from: string, to: string)
    ensures !UnderPrefix(sh.path, from) ==> Rewritten(sh, from, to) == sh
  {
  }

  /** Trashing an entry: the shares below it are removed, the others follow. */
  lemma TableTrashed(fs: Fs, src: Path, dst: Path, made: map<string, nat>, st: Store, ok: bool)
    requires AllFollow(fs, made, st.mem) && FreeMove(fs, src, dst) && UserSpot(src)
    ensures AllFollow(Moved(fs, src, dst), made, RemoveByPathPrefixSpec(st, Join(src), ok).mem)
  {
    hide FreeMove, Moved, Follows, UserSpot, UnderPrefix, FilterTo;
    JoinCanonical(src);
    var st' := RemoveByPathPrefixSpec(st, Join(src), ok);
    var kept := Filter(Outside(Join(src)), st.mem);
    if |kept| == |st.mem| {
      AllKept(Outside(Join(src)), st.mem, |st.mem|);
    }
    forall i | 0 <= i < |st'.mem| ensures Follows(Moved(fs, src, dst), made, st'.mem[i]) {
      var sh := st'.mem[i];
      FilterMembers(Outside(Join(src)), st.mem, sh);
      assert sh in kept;
      FollowedOne(fs, made, st.mem, sh);
      SplitFollowed(fs, made, sh);
      UnderIsBelow(sh.path, src);
      FollowsElsewhere(fs, src, dst, made, sh);
    }
  }

  lemma FollowedOne(fs: Fs, made: map<string, nat>, shares: seq<Share>, sh: Share)
    requires AllFollow(fs, made, shares) && sh in shares
    ensures Follows(fs, made, sh)
  {
  }

  lemma SplitFollowed(fs: Fs, made: map<string, nat>, sh: Share)
    requires Follows(fs, made, sh)
    ensures Canonical(sh.path)
  {
  }

  lemma {:induction false} AllKept(keep: Share -> bool, s: seq<Share>, n: nat)
    requires n <= |s|
    ensures |FilterTo(keep, s, n)| <= n
    ensures |FilterTo(keep, s, n)| == n ==> FilterTo(keep, s, n) == s[..n]
    ensures n == |s| && |FilterTo(keep, s, n)| == n ==> Filter(keep, s) == s
  {
    if n > 0 {
      AllKept(keep, s, n - 1);
      assert s[..n] == s[..n - 1] + [s[n - 1]];
    }
    assert s[..|s|] == s;
  }

  /** Trees that keep the live nodes keep the shares. */
  lemma TableStays(fs: Fs, fs': Fs, made: map<string, nat>, shares: seq<Share>)
    requires AllFollow(fs, made, shares)
    requires forall p :: p in fs && UserSpot(p) ==> p in fs' && fs'[p] == fs[p]
    ensures AllFollow(fs', made, shares)
  {
    forall i | 0 <= i < |shares| ensures Follows(fs', made, shares[i]) {
      CanonicalPath(shares[i].path);
    }
  }

  // ---------------------------------------------------------------- the table's own operations

  /** Two records of the same share. */
  predicate SameShare(a: Share, b: Share) {
    a.token == b.token && a.path == b.path && a.name == b.name && a.isDir == b.isDir
  }

  predicate Has(s: seq<Share>, sh: Share) {
    exists j :: 0 <= j < |s| && SameShare(sh, s[j])
  }

  ghost predicate From(s: seq<Share>, s': seq<Share>) {
    forall i :: 0 <= i < |s'| ==> Has(s, s'[i])
  }

  lemma HasAt(s: seq<Share>, sh: Share, j: nat)
    requires j < |s| && SameShare(sh, s[j])
    ensures Has(s, sh)
  {
  }

  lemma FromFollows(fs: Fs, made: map<string, nat>, s: seq<Share>, s': seq<Share>)
    requires AllFollow(fs, made, s) && From(s, s')
    ensures AllFollow(fs, made, s')
  {
    forall i | 0 <= i < |s'| ensures Follows(fs, made, s'[i]) {
      assert Has(s, s'[i]);
      var j :| 0 <= j < |s| && SameShare(s'[i], s[j]);
    }
  }

  lemma FromPruned(s: seq<Share>, now: int)
    ensures From(s, Prune(s, now))
  {
    var s' := Prune(s, now);
    forall i | 0 <= i < |s'| ensures Has(s, s'[i]) {
      FilterMembers(Live(now), s, s'[i]);
      assert s'[i] in s;
      var j :| 0 <= j < |s| && s[j] == s'[i];
      HasAt(s, s'[i], j);
    }
  }

  lemma FromTransitive(a: seq<Share>, b: seq<Share>, c: seq<Share>)
    requires From(a, b) && From(b, c)
    ensures From(a, c)
  {
    forall i | 0 <= i < |c| ensures Has(a, c[i]) {
      assert Has(b, c[i]);
      var k :| 0 <= k < |b| && SameShare(c[i], b[k]);
      assert Has(a, b[k]);
      var j :| 0 <= j < |a| && SameShare(b[k], a[j]);
      HasAt(a, c[i], j);
    }
  }

  lemma FromItself(s: seq<Share>)
    ensures From(s, s)
  {
    forall i | 0 <= i < |s| ensures Has(s, s[i]) {
      HasAt(s, s[i], i);
    }
  }

  lemma FromUpdate(s: seq<Share>, i: nat, sh: Share)
    requires i < |s| && SameShare(sh, s[i])
    ensures From(s, s[i := sh])
  {
    var s' := s[i := sh];
    forall k | 0 <= k < |s'| ensures Has(s, s'[k]) {
      HasAt(s, s'[k], k);
    }
  }

  lemma FromRemoved(s: seq<Share>, i: nat)
    requires i < |s|
    ensures From(s, RemoveAt(s, i))
  {
    var s' := RemoveAt(s, i);
    forall k | 0 <= k < |s'| ensures Has(s, s'[k]) {
      HasAt(s, s'[k], if k < i then k else k + 1);
    }
  }

  lemma DownloadFrom(st: Store, i: nat, later: int, ok: bool, ok2: bool)
    requires i < |st.mem|
    ensures From(st.mem, DownloadAt(st, i, later, ok, ok2).0.mem)
  {
    hide From, ShareExpired;
    var sh := st.mem[i];
    var counted := st.mem[i := sh.(downloadCount := sh.downloadCount + 1)];
    FromItself(st.mem);
    FromRemoved(st.mem, i);
    FromUpdate(st.mem, i, sh.(downloadCount := sh.downloadCount + 1));
    FromRemoved(counted, i);
    FromTransitive(st.mem, counted, RemoveAt(counted, i));
  }

  lemma UploadFrom(st: Store, i: nat, later: int, ok: bool)
    requires i < |st.mem|
    ensures From(st.mem, UploadAt(st, i, later, ok).0.mem)
  {
    hide From, ShareExpired;
    var sh := st.mem[i];
    FromItself(st.mem);
    FromRemoved(st.mem, i);
    FromUpdate(st.mem, i, sh.(uploadCount := sh.uploadCount + 1));
  }

  lemma LookupFrom(st: Store, token: string, now: int, later: int, ok: bool)
    ensures From(st.mem, GetValidSpec(st, token, now, later, ok).0.mem)
  {
    hide From, Prune, ValidShareToken, RemoveAt, ShareExpired;
    var pruned := st.(mem := Prune(st.mem, now));
    FromItself(st.mem);
    FromPruned(st.mem, now);
    var i := Find(pruned.mem, token);
    if i < |pruned.mem| {
      FromRemoved(pruned.mem, i);
      FromTransitive(st.mem, pruned.mem, RemoveAt(pruned.mem, i));
    }
  }

  lemma BeginDownloadFrom(st: Store, token: string, now: int, later: int, ok: bool, ok2: bool)
    ensures From(st.mem, BeginDownloadSpec(st, token, now, later, ok, ok2).0.mem)
  {
    hide From, Prune, ValidShareToken, DownloadAt;
    var pruned := st.(mem := Prune(st.mem, now));
    FromItself(st.mem);
    FromPruned(st.mem, now);
    var i := Find(pruned.mem, token);
    if i < |pruned.mem| {
      DownloadFrom(pruned, i, later, ok, ok2);
      FromTransitive(st.mem, pruned.mem, DownloadAt(pruned, i, later, ok, ok2).0.mem);
    }
  }

  lemma BeginUploadFrom(st: Store, token: string, now: int, later: int, ok: bool)
    ensures From(st.mem, BeginUploadSpec(st, token, now, later, ok).0.mem)
  {
    hide From, Prune, ValidShareToken, UploadAt;
    var pruned := st.(mem := Prune(st.mem, now));
    FromItself(st.mem);
    FromPruned(st.mem, now);
    var i := Find(pruned.mem, token);
    if i < |pruned.mem| {
      UploadFrom(pruned, i, later, ok);
      FromTransitive(st.mem, pruned.mem, UploadAt(pruned, i, later, ok).0.mem);
    }
  }

  lemma UndoUploadFrom(st: Store, token: string, ok: bool)
    ensures From(st.mem, UndoUploadSpec(st, token, ok).mem)
  {
    hide From, ValidShareToken;
    FromItself(st.mem);
    var i := Find(st.mem, token);
    if i < |st.mem| && st.mem[i].uploadCount > 0 {
      FromUpdate(st.mem, i, st.mem[i].(uploadCount := st.mem[i].uploadCount - 1));
    }
  }

  lemma RevokeFrom(st: Store, token: string, ok: bool)
    ensures From(st.mem, RevokeSpec(st, token, ok).mem)
  {
    hide From, RemoveAt;
    FromItself(st.mem);
    var i := Find(st.mem, token);
    if i < |st.mem| {
      FromRemoved(st.mem, i);
    }
  }

  /** Serving, counting, expiring and revoking shares never change where a share points. */
  lemma OpKeepsPlaces(st: Store, op: Op)
    requires KeepsPaths(op)
    ensures From(st.mem, Shares.Step(st, op).0.mem)
  {
    hide From, Prune, GetValidSpec, BeginDownloadSpec, BeginUploadSpec, UndoUploadSpec, RevokeSpec;
    match op
    case ListPublic(now) => FromPruned(st.mem, now);
    case GetValid(token, now, later, ok) => LookupFrom(st, token, now, later, ok);
    case BeginDownload(token, now, later, ok, ok2) => BeginDownloadFrom(st, token, now, later, ok, ok2);
    case BeginUpload(token, now, later, ok) => BeginUploadFrom(st, token, now, later, ok);
    case UndoUpload(token, ok) => UndoUploadFrom(st, token, ok);
    case Revoke(token, ok) => RevokeFrom(st, token, ok);
  }
}
