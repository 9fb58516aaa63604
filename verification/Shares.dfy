/** shares.go: the share table, its file on disk, and the download and upload quotas.
    Every method of the source holds the store's mutex for its whole body, so a concurrent
    execution is a sequence of these operations; `ok` flags say whether a save succeeded. */
module Shares {
  import opened Paths

  const HOUR := 3_600_000_000_000  // nanoseconds, as in Go's time.Duration
  const DROP_MAX_UPLOADS := 50
  const TOKEN_LENGTH := 64

  datatype Option<+T> = None | Some(value: T)

  datatype Share = Share(
    token: string, path: string, name: string, isDir: bool, drop: bool,
    expiresAt: Option<int>, maxDownloads: nat, downloadCount: nat, maxUploads: nat, uploadCount: nat)

  datatype Mode = H24 | D7 | D30 | Never | OneDownload | Unknown

  datatype Verdict = Granted | NotFound | Expired | WrongKind | SaveFailed

  /** The table in memory and the contents of shares.json. */
  datatype Store = Store(mem: seq<Share>, disk: seq<Share>)

  predicate ValidShareToken(token: string) {
    |token| == TOKEN_LENGTH && forall c :: c in token ==> '0' <= c <= '9' || 'a' <= c <= 'f'
  }

  predicate ShareExpired(sh: Share, now: int) {
    || (sh.expiresAt.Some? && now > sh.expiresAt.value)
    || (sh.maxDownloads > 0 && sh.downloadCount >= sh.maxDownloads)
    || (sh.drop && sh.maxUploads > 0 && sh.uploadCount >= sh.maxUploads)
  }

  // ---------------------------------------------------------------- what the operations compute

  /** The records among the first `n` that satisfy `keep`, in order. */
  function FilterTo(keep: Share -> bool, s: seq<Share>, n: nat): seq<Share>
    requires n <= |s|
  {
    if n == 0 then [] else FilterTo(keep, s, n - 1) + (if keep(s[n - 1]) then [s[n - 1]] else [])
  }

  function Filter(keep: Share -> bool, s: seq<Share>): seq<Share> {
    FilterTo(keep, s, |s|)
  }

  function Live(now: int): Share -> bool {
    (sh: Share) => !ShareExpired(sh, now)
  }

  function Outside(rel: string): Share -> bool {
    (sh: Share) => !UnderPrefix(sh.path, rel)
  }

  /** `pruneLocked`. */
  function Prune(s: seq<Share>, now: int): seq<Share> {
    Filter(Live(now), s)
  }

  /** The first index from `k` on that holds `token`, or the length. */
  function FindFrom(s: seq<Share>, token: string, k: nat): (i: nat)
    requires k <= |s|
    ensures k <= i <= |s|
    ensures i < |s| ==> s[i].token == token
    decreases |s| - k
  {
    if k == |s| || s[k].token == token then k else FindFrom(s, token, k + 1)
  }

  function Find(s: seq<Share>, token: string): nat {
    FindFrom(s, token, 0)
  }

  function RemoveAt(s: seq<Share>, i: nat): seq<Share>
    requires i < |s|
  {
    s[..i] + s[i + 1..]
  }

  function Save(st: Store, ok: bool): Store {
    if ok then st.(disk := st.mem) else st
  }

  function DropAndSave(st: Store, i: nat, ok: bool): Store
    requires i < |st.mem|
  {
    Save(st.(mem := RemoveAt(st.mem, i)), ok)
  }

  /** Is `path` the shared or mutated entry itself, or below it? */
  predicate UnderPrefix(path: string, rel: string) {
    path == rel || HasPrefix(path, rel + "/")
  }

  /** One record under `rewritePathPrefix`. */
  function Rewritten(sh: Share, from: string, to: string): Share {
    if sh.path == from then sh.(path := to, name := Base(to))
    else if HasPrefix(sh.path, from + "/") then
      var path := to + sh.path[|from|..];
      sh.(path := path, name := Base(path))
    else sh
  }

  function RewriteAll(s: seq<Share>, from: string, to: string): (r: seq<Share>)
    ensures |r| == |s| && forall i :: 0 <= i < |s| ==> r[i] == Rewritten(s[i], from, to)
  {
    seq(|s|, i requires 0 <= i < |s| => Rewritten(s[i], from, to))
  }

  datatype Op =
    | Append(share: Share, now: int, ok: bool)
    | ListPublic(now: int)
    | GetValid(token: string, now: int, later: int, ok: bool)
    | BeginDownload(token: string, now: int, later: int, ok: bool, ok2: bool)
    | BeginUpload(token: string, now: int, later: int, ok: bool)
    | UndoUpload(token: string, ok: bool)
    | Revoke(token: string, ok: bool)
    | RemoveByPathPrefix(rel: string, ok: bool)
    | RewritePathPrefix(oldRel: string, newRel: string, ok: bool)
    | Restart

  /** `getValid` once the record is found. */
  function LookupAt(st: Store, i: nat, later: int, ok: bool): (r: (Store, Verdict))
    requires i < |st.mem|
  {
    if ShareExpired(st.mem[i], later) then (DropAndSave(st, i, ok), Expired) else (st, Granted)
  }

  function GetValidSpec(st: Store, token: string, now: int, later: int, ok: bool): (r: (Store, Verdict))
  {
    if !ValidShareToken(token) then (st, NotFound)
    else
      var pruned := st.(mem := Prune(st.mem, now));
      var i := Find(pruned.mem, token);
      if i == |pruned.mem| then (pruned, NotFound) else LookupAt(pruned, i, later, ok)
  }

  /** `beginDownload` once the record is found. */
  function DownloadAt(st: Store, i: nat, later: int, ok: bool, ok2: bool): (r: (Store, Verdict))
    requires i < |st.mem|
  {
    var sh := st.mem[i];
    if sh.drop then (st, WrongKind)
    else if ShareExpired(sh, later) || (sh.maxDownloads > 0 && sh.downloadCount >= sh.maxDownloads) then
      (DropAndSave(st, i, ok), Expired)
    else if !ok then (st, SaveFailed)
    else
      var counted := Save(st.(mem := st.mem[i := sh.(downloadCount := sh.downloadCount + 1)]), true);
      if sh.maxDownloads > 0 && sh.downloadCount + 1 >= sh.maxDownloads
      then (DropAndSave(counted, i, ok2), Granted)
      else (counted, Granted)
  }

  function BeginDownloadSpec(st: Store, token: string, now: int, later: int, ok: bool, ok2: bool): (r: (Store, Verdict))
  {
    if !ValidShareToken(token) then (st, NotFound)
    else
      var pruned := st.(mem := Prune(st.mem, now));
      var i := Find(pruned.mem, token);
      if i == |pruned.mem| then (pruned, NotFound) else DownloadAt(pruned, i, later, ok, ok2)
  }

  /** `beginUpload` once the record is found. */
  function UploadAt(st: Store, i: nat, later: int, ok: bool): (r: (Store, Verdict))
    requires i < |st.mem|
  {
    var sh := st.mem[i];
    if !sh.drop then (st, WrongKind)
    else if ShareExpired(sh, later) || (sh.maxUploads > 0 && sh.uploadCount >= sh.maxUploads) then
      (DropAndSave(st, i, ok), Expired)
    else
      (Save(st.(mem := st.mem[i := sh.(uploadCount := sh.uploadCount + 1)]), ok),
       if ok then Granted else SaveFailed)
  }

  function BeginUploadSpec(st: Store, token: string, now: int, later: int, ok: bool): (r: (Store, Verdict))
  {
    if !ValidShareToken(token) then (st, NotFound)
    else
      var pruned := st.(mem := Prune(st.mem, now));
      var i := Find(pruned.mem, token);
      if i == |pruned.mem| then (pruned, NotFound) else UploadAt(pruned, i, later, ok)
  }

  function UndoUploadSpec(st: Store, token: string, ok: bool): (r: Store)
  {
    if !ValidShareToken(token) then st
    else
      var i := Find(st.mem, token);
      if i == |st.mem| || st.mem[i].uploadCount == 0 then st
      else Save(st.(mem := st.mem[i := st.mem[i].(uploadCount := st.mem[i].uploadCount - 1)]), ok)
  }

  function RevokeSpec(st: Store, token: string, ok: bool): (r: Store) {
    var i := Find(st.mem, token);
    if i == |st.mem| then st else DropAndSave(st, i, ok)
  }

  function RemoveByPathPrefixSpec(st: Store, rel: string, ok: bool): (r: Store) {
    var t := Trim(rel, "/");
    var kept := Filter(Outside(t), st.mem);
    if |kept| != |st.mem| then Save(st.(mem := kept), ok) else st
  }

  function RewritePathPrefixSpec(st: Store, oldRel: string, newRel: string, ok: bool): (r: Store) {
    var from, to := Trim(oldRel, "/"), Trim(newRel, "/");
    if exists i :: 0 <= i < |st.mem| && UnderPrefix(st.mem[i].path, from)
    then Save(st.(mem := RewriteAll(st.mem, from, to)), ok)
    else st
  }

  function AppendSpec(st: Store, sh: Share, now: int, ok: bool): (r: Store) {
    Save(st.(mem := Prune(st.mem, now) + [sh]), ok)
  }

  /** One locked operation, or a process restart that reloads shares.json. */
  function Step(st: Store, op: Op): (r: (Store, Verdict)) {
    match op
    case Append(sh, now, ok) => (AppendSpec(st, sh, now, ok), if ok then Granted else SaveFailed)
    case ListPublic(now) => (st.(mem := Prune(st.mem, now)), Granted)
    case GetValid(token, now, later, ok) => GetValidSpec(st, token, now, later, ok)
    case BeginDownload(token, now, later, ok, ok2) => BeginDownloadSpec(st, token, now, later, ok, ok2)
    case BeginUpload(token, now, later, ok) => BeginUploadSpec(st, token, now, later, ok)
    case UndoUpload(token, ok) => (UndoUploadSpec(st, token, ok), Granted)
    case Revoke(token, ok) => (RevokeSpec(st, token, ok), Granted)
    case RemoveByPathPrefix(rel, ok) => (RemoveByPathPrefixSpec(st, rel, ok), Granted)
    case RewritePathPrefix(from, to, ok) => (RewritePathPrefixSpec(st, from, to, ok), Granted)
    case Restart => (st.(mem := st.disk), Granted)
  }

  /** The record `create` builds once the path is resolved, or None where it reports an error. */
  function NewShare(token: string, relPath: string, isDir: bool, kind: string, mode: Mode, now: int): (r: Option<Share>)
    ensures r.Some? ==> r.value.token == token && r.value.downloadCount == 0 && r.value.uploadCount == 0
    ensures r.Some? ==> r.value.path == Trim(relPath, "/") != "" && r.value.name == Base(r.value.path)
    ensures r.Some? ==> r.value.isDir == isDir
    ensures r.Some? ==> !ShareExpired(r.value, now) && (r.value.drop <==> kind == "drop")
    ensures r.Some? && r.value.drop ==> isDir && r.value.expiresAt.Some? && r.value.maxUploads == DROP_MAX_UPLOADS
    ensures r.Some? && r.value.expiresAt.Some? ==> now < r.value.expiresAt.value <= now + 30 * 24 * HOUR
    ensures r.Some? && !r.value.drop ==> r.value.maxUploads == 0
    ensures r.Some? && !r.value.drop ==> r.value.maxDownloads == if mode.OneDownload? then 1 else 0
    ensures mode.H24? || mode.D7? || mode.D30? ==>
              (r.Some? <==> Trim(relPath, "/") != "" && kind in ["", "link", "drop"] && (kind == "drop" ==> isDir))
  {
    var path := Trim(relPath, "/");
    var drop := kind == "drop";
    if path == "" || !(kind in ["", "link", "drop"]) || (drop && !isDir) then None
    else
      var expires := match mode
        case H24 => Some(now + 24 * HOUR)
        case D7 => Some(now + 7 * 24 * HOUR)
        case D30 => Some(now + 30 * 24 * HOUR)
        case _ => None;
      if mode.Unknown? || (drop && expires.None?) then None
      else Some(Share(token, path, Base(path), isDir, drop, expires,
                      if mode.OneDownload? then 1 else 0, 0, if drop then DROP_MAX_UPLOADS else 0, 0))
  }

  // ---------------------------------------------------------------- the store as the source has it

  class ShareStore {
    var shares: seq<Share>
    var disk: seq<Share>

    function View(): Store
      reads this
    {
      Store(shares, disk)
    }

    /** `openShareStore`. */
    constructor (saved: seq<Share>)
      ensures View() == Store(saved, saved)
    {
      shares, disk := saved, saved;
    }

    method SaveLocked(ok: bool)
      modifies this`disk
      ensures View() == Save(old(View()), ok)
    {
      if ok {
        disk := shares;
      }
    }

    method PruneLocked(now: int)
      modifies this`shares
      ensures shares == Prune(old(shares), now)
    {
      var filtered: seq<Share> := [];
      for i := 0 to |shares|
        invariant shares == old(shares)
        invariant filtered == FilterTo(Live(now), shares, i)
      {
        if !ShareExpired(shares[i], now) {
          filtered := filtered + [shares[i]];
        }
      }
      shares := filtered;
    }

    method RemoveIndexLocked(i: nat)
      requires i < |shares|
      modifies this`shares
      ensures shares == RemoveAt(old(shares), i)
    {
      shares := shares[..i] + shares[i + 1..];
    }

    method Append(sh: Share, now: int, ok: bool)
      modifies this
      ensures View() == AppendSpec(old(View()), sh, now, ok)
    {
      PruneLocked(now);
      shares := shares + [sh];
      SaveLocked(ok);
    }

    method GetValid(token: string, now: int, later: int, ok: bool) returns (found: Option<Share>, verdict: Verdict)
      modifies this
      ensures (View(), verdict) == GetValidSpec(old(View()), token, now, later, ok)
      ensures found.Some? <==> verdict == Granted
      ensures found.Some? ==> found.value in shares && found.value.token == token && !ShareExpired(found.value, later)
    {
      if !ValidShareToken(token) {
        return None, NotFound;
      }
      PruneLocked(now);
      for i := 0 to |shares|
        invariant View() == old(View()).(mem := Prune(old(shares), now))
        invariant forall j :: 0 <= j < i ==> shares[j].token != token
      {
        if shares[i].token == token {
          FindUnique(shares, token, i);
          if ShareExpired(shares[i], later) {
            RemoveIndexLocked(i);
            SaveLocked(ok);
            return None, Expired;
          }
          return Some(shares[i]), Granted;
        }
      }
      FindUnique(shares, token, |shares|);
      return None, NotFound;
    }

    method BeginDownload(token: string, now: int, later: int, ok: bool, ok2: bool) returns (verdict: Verdict)
      modifies this
      ensures (View(), verdict) == BeginDownloadSpec(old(View()), token, now, later, ok, ok2)
    {
      if !ValidShareToken(token) {
        return NotFound;
      }
      PruneLocked(now);
      for i := 0 to |shares|
        invariant View() == old(View()).(mem := Prune(old(shares), now))
        invariant forall j :: 0 <= j < i ==> shares[j].token != token
      {
        if shares[i].token == token {
          FindUnique(shares, token, i);
          var sh := shares[i];
          if sh.drop {
            return WrongKind;
          }
          if ShareExpired(sh, later) || (sh.maxDownloads > 0 && sh.downloadCount >= sh.maxDownloads) {
            RemoveIndexLocked(i);
            SaveLocked(ok);
            return Expired;
          }
          ghost var before := shares;
          shares := shares[i := sh.(downloadCount := sh.downloadCount + 1)];
          var hitLimit := sh.maxDownloads > 0 && shares[i].downloadCount >= sh.maxDownloads;
          SaveLocked(ok);
          if !ok {
            shares := shares[i := shares[i].(downloadCount := shares[i].downloadCount - 1)];
            assert shares == before;
            return SaveFailed;
          }
          if hitLimit {
            RemoveIndexLocked(i);
            SaveLocked(ok2);
          }
          return Granted;
        }
      }
      FindUnique(shares, token, |shares|);
      return NotFound;
    }

    method BeginUpload(token: string, now: int, later: int, ok: bool) returns (verdict: Verdict)
      modifies this
      ensures (View(), verdict) == BeginUploadSpec(old(View()), token, now, later, ok)
    {
      if !ValidShareToken(token) {
        return NotFound;
      }
      PruneLocked(now);
      for i := 0 to |shares|
        invariant View() == old(View()).(mem := Prune(old(shares), now))
        invariant forall j :: 0 <= j < i ==> shares[j].token != token
      {
        if shares[i].token == token {
          FindUnique(shares, token, i);
          var sh := shares[i];
          if !sh.drop {
            return WrongKind;
          }
          if ShareExpired(sh, later) || (sh.maxUploads > 0 && sh.uploadCount >= sh.maxUploads) {
            RemoveIndexLocked(i);
            SaveLocked(ok);
            return Expired;
          }
          shares := shares[i := sh.(uploadCount := sh.uploadCount + 1)];
          SaveLocked(ok);
          return if ok then Granted else SaveFailed;
        }
      }
      FindUnique(shares, token, |shares|);
      return NotFound;
    }

    method UndoUpload(token: string, ok: bool)
      modifies this
      ensures View() == UndoUploadSpec(old(View()), token, ok)
    {
      if !ValidShareToken(token) {
        return;
      }
      for i := 0 to |shares|
        invariant View() == old(View())
        invariant forall j :: 0 <= j < i ==> shares[j].token != token
      {
        if shares[i].token == token {
          FindUnique(shares, token, i);
          if shares[i].uploadCount > 0 {
            shares := shares[i := shares[i].(uploadCount := shares[i].uploadCount - 1)];
            SaveLocked(ok);
          }
          return;
        }
      }
      FindUnique(shares, token, |shares|);
    }

    method Revoke(token: string, ok: bool) returns (found: bool)
      modifies this
      ensures View() == RevokeSpec(old(View()), token, ok)
      ensures found <==> exists sh :: sh in old(shares) && sh.token == token
    {
      for i := 0 to |shares|
        invariant View() == old(View())
        invariant forall j :: 0 <= j < i ==> shares[j].token != token
      {
        if shares[i].token == token {
          FindUnique(shares, token, i);
          assert shares[i] in old(shares);
          RemoveIndexLocked(i);
          SaveLocked(ok);
          return true;
        }
      }
      FindUnique(shares, token, |shares|);
      return false;
    }

    method RemoveByPathPrefix(rel: string, ok: bool)
      modifies this
      ensures View() == RemoveByPathPrefixSpec(old(View()), rel, ok)
    {
      var t := Trim(rel, "/");
      var filtered: seq<Share> := [];
      for i := 0 to |shares|
        invariant View() == old(View())
        invariant filtered == FilterTo(Outside(t), shares, i)
      {
        if !UnderPrefix(shares[i].path, t) {
          filtered := filtered + [shares[i]];
        }
      }
      if |filtered| != |shares| {
        shares := filtered;
        SaveLocked(ok);
      }
    }

    method RewritePathPrefix(oldRel: string, newRel: string, ok: bool)
      modifies this
      ensures View() == RewritePathPrefixSpec(old(View()), oldRel, newRel, ok)
    {
      var from, to := Trim(oldRel, "/"), Trim(newRel, "/");
      var changed := false;
      ghost var before := shares;
      for i := 0 to |shares|
        invariant |shares| == |before| && disk == old(disk)
        invariant forall j :: 0 <= j < i ==> shares[j] == Rewritten(before[j], from, to)
        invariant forall j :: i <= j < |shares| ==> shares[j] == before[j]
        invariant changed <==> exists j :: 0 <= j < i && UnderPrefix(before[j].path, from)
      {
        if shares[i].path == from {
          shares := shares[i := shares[i].(path := to, name := Base(to))];
          changed := true;
        } else if HasPrefix(shares[i].path, from + "/") {
          var path := to + shares[i].path[|from|..];
          shares := shares[i := shares[i].(path := path, name := Base(path))];
          changed := true;
        }
      }
      assert shares == RewriteAll(before, from, to);
      if changed {
        SaveLocked(ok);
      } else {
        assert shares == before;
      }
    }
  }

  lemma FindUnique(s: seq<Share>, token: string, i: nat)
    requires i <= |s| && forall j :: 0 <= j < i ==> s[j].token != token
    requires i < |s| ==> s[i].token == token
    ensures Find(s, token) == i
  {
    SkipOthers(s, token, 0, i);
  }

  lemma {:induction false} SkipOthers(s: seq<Share>, token: string, k: nat, i: nat)
    requires k <= i <= |s| && forall j :: k <= j < i ==> s[j].token != token
    ensures FindFrom(s, token, k) == FindFrom(s, token, i)
    decreases i - k
  {
    if k < i {
      SkipOthers(s, token, k + 1, i);
    }
  }

  lemma FilterMembers(keep: Share -> bool, s: seq<Share>, sh: Share)
    ensures sh in Filter(keep, s) <==> sh in s && keep(sh)
  {
    FilterToMembers(keep, s, |s|, sh);
    assert s[..|s|] == s;
  }

  lemma {:induction false} FilterToMembers(keep: Share -> bool, s: seq<Share>, n: nat, sh: Share)
    requires n <= |s|
    ensures sh in FilterTo(keep, s, n) <==> sh in s[..n] && keep(sh)
  {
    if n > 0 {
      FilterToMembers(keep, s, n - 1, sh);
      assert s[..n] == s[..n - 1] + [s[n - 1]];
    }
  }
}
