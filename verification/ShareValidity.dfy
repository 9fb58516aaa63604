/** shares.go: which shares are still good, in terms of their fields: date, download limit and upload limit. */
module ShareValidity {
  import opened Paths
  import opened Shares
  import opened ShareQuotas

  /** Within its date, with downloads left, and for a drop with uploads left. */
  predicate Usable(sh: Share, now: int) {
    && (sh.expiresAt.Some? ==> now <= sh.expiresAt.value)
    && (sh.maxDownloads > 0 ==> sh.downloadCount < sh.maxDownloads)
    && (sh.drop && sh.maxUploads > 0 ==> sh.uploadCount < sh.maxUploads)
  }

  lemma UsableMeaning(sh: Share, now: int)
    ensures ShareExpired(sh, now) <==> !Usable(sh, now)
  {
  }

  lemma UsableEarlier(sh: Share, now: int, later: int)
    requires now <= later && Usable(sh, later)
    ensures Usable(sh, now)
  {
  }

  // ---------------------------------------------------------------- tokens

  const DIGITS := "0123456789abcdef"

  predicate AreBytes(bytes: seq<nat>) {
    forall i :: 0 <= i < |bytes| ==> bytes[i] < 256
  }

  /** `hex.EncodeToString`. */
  function Hex(bytes: seq<nat>): string
    requires AreBytes(bytes)
  {
    if bytes == [] then "" else [DIGITS[bytes[0] / 16], DIGITS[bytes[0] % 16]] + Hex(bytes[1..])
  }

  predicate IsDigit(c: char) {
    '0' <= c <= '9' || 'a' <= c <= 'f'
  }

  lemma DigitValue(c: char) returns (d: nat)
    requires IsDigit(c)
    ensures d < 16 && DIGITS[d] == c
  {
    d := if c <= '9' then c as int - '0' as int else c as int - 'a' as int + 10;
  }

  lemma {:induction false} HexDigits(bytes: seq<nat>)
    requires AreBytes(bytes)
    ensures |Hex(bytes)| == 2 * |bytes| && forall i :: 0 <= i < |Hex(bytes)| ==> IsDigit(Hex(bytes)[i])
  {
    if bytes != [] {
      HexDigits(bytes[1..]);
      assert IsDigit(DIGITS[bytes[0] / 16]) && IsDigit(DIGITS[bytes[0] % 16]);
    }
  }

  lemma {:induction false} HexOnto(s: string, n: nat) returns (bytes: seq<nat>)
    requires |s| == 2 * n && forall i :: 0 <= i < |s| ==> IsDigit(s[i])
    ensures AreBytes(bytes) && |bytes| == n && Hex(bytes) == s
  {
    if n == 0 {
      bytes := [];
    } else {
      var rest := HexOnto(s[2..], n - 1);
      var a := DigitValue(s[0]);
      var b := DigitValue(s[1]);
      bytes := [16 * a + b] + rest;
      assert bytes[0] / 16 == a && bytes[0] % 16 == b && bytes[1..] == rest;
      assert s == [s[0], s[1]] + s[2..];
    }
  }

  /** The well-formed tokens are exactly the encodings of 32 random bytes. */
  lemma TokenExactly(token: string)
    ensures ValidShareToken(token)
            <==> exists bytes: seq<nat> :: |bytes| == 32 && AreBytes(bytes) && Hex(bytes) == token
  {
    if ValidShareToken(token) {
      forall i | 0 <= i < |token| ensures IsDigit(token[i]) {
        assert token[i] in token;
      }
      var bytes := HexOnto(token, 32);
    }
    if bytes: seq<nat> :| |bytes| == 32 && AreBytes(bytes) && Hex(bytes) == token {
      HexDigits(bytes);
    }
  }

  lemma AllDigits(token: string)
    requires ValidShareToken(token)
    ensures |token| == 64 && forall i :: 0 <= i < |token| ==> token[i] in DIGITS
  {
    forall i | 0 <= i < |token| ensures token[i] in DIGITS {
      assert token[i] in token;
      var d := DigitValue(token[i]);
      assert DIGITS[d] in DIGITS;
    }
  }

  /** A malformed token finds nothing, and not even prunes. */
  lemma MalformedExactly(st: Store, token: string, now: int, later: int, ok: bool, ok2: bool)
    requires |token| != 64 || exists i :: 0 <= i < |token| && token[i] !in DIGITS
    ensures GetValidSpec(st, token, now, later, ok) == (st, NotFound)
    ensures BeginDownloadSpec(st, token, now, later, ok, ok2) == (st, NotFound)
    ensures BeginUploadSpec(st, token, now, later, ok) == (st, NotFound)
    ensures UndoUploadSpec(st, token, ok) == st
  {
    if ValidShareToken(token) {
      AllDigits(token);
    }
  }

  // ---------------------------------------------------------------- pruning

  function Times(s: seq<Share>, sh: Share): nat {
    multiset(s)[sh]
  }

  lemma {:induction false} FilterToTimes(keep: Share -> bool, s: seq<Share>, n: nat, sh: Share)
    requires n <= |s|
    ensures Times(FilterTo(keep, s, n), sh) == if keep(sh) then Times(s[..n], sh) else 0
  {
    if n > 0 {
      FilterToTimes(keep, s, n - 1, sh);
      assert s[..n] == s[..n - 1] + [s[n - 1]];
    }
  }

  /** Pruning keeps every usable record as often as it was there, and no other. */
  lemma PruneExactly(s: seq<Share>, now: int, sh: Share)
    ensures Times(Prune(s, now), sh) == if Usable(sh, now) then Times(s, sh) else 0
    ensures sh in Prune(s, now) <==> sh in s && Usable(sh, now)
  {
    FilterToTimes(Live(now), s, |s|, sh);
    assert s[..|s|] == s;
    FilterMembers(Live(now), s, sh);
  }

  /** Removing by prefix keeps every record that lies elsewhere as often as it was there, and no other. */
  lemma RemoveExactly(st: Store, rel: string, ok: bool, sh: Share)
    ensures var kept := RemoveByPathPrefixSpec(st, rel, ok).mem;
            var t := Trim(rel, "/");
            Times(kept, sh) == if sh.path == t || HasPrefix(sh.path, t + "/") then 0 else Times(st.mem, sh)
    ensures var st' := RemoveByPathPrefixSpec(st, rel, ok);
            st'.disk == if ok && st'.mem != st.mem then st'.mem else st.disk
  {
    var t := Trim(rel, "/");
    FilterToTimes(Outside(t), st.mem, |st.mem|, sh);
    assert st.mem[..|st.mem|] == st.mem;
    if |Filter(Outside(t), st.mem)| == |st.mem| {
      FilterAll(Outside(t), st.mem, |st.mem|);
    }
  }

  /** Rewriting by prefix gives exactly the records at or below the old path the new one in its place, with the
      name that goes with it, changes nothing else of them, and saves only if there is such a record. */
  lemma RewriteExactly(st: Store, from: string, to: string, ok: bool, i: nat)
    requires i < |st.mem|
    ensures var st', was, here := RewritePathPrefixSpec(st, from, to, ok), Trim(from, "/"), Trim(to, "/");
            var sh := st.mem[i];
            && |st'.mem| == |st.mem|
            && st'.mem[i] == (if sh.path == was then sh.(path := here, name := Base(here))
                              else if HasPrefix(sh.path, was + "/") then
                                var path := here + "/" + sh.path[|was| + 1..];
                                sh.(path := path, name := Base(path))
                              else sh)
            && st'.disk == if ok && exists j :: 0 <= j < |st.mem| && UnderPrefix(st.mem[j].path, was)
                           then st'.mem else st.disk
  {
    var was, path := Trim(from, "/"), st.mem[i].path;
    if HasPrefix(path, was + "/") {
      assert path[|was|..] == "/" + path[|was| + 1..];
      assert Trim(to, "/") + ("/" + path[|was| + 1..]) == Trim(to, "/") + "/" + path[|was| + 1..];
    }
  }

  /** Adding a share prunes, puts it last, and saves. */
  lemma AppendExactly(st: Store, sh: Share, now: int, ok: bool, other: Share)
    ensures var st' := AppendSpec(st, sh, now, ok);
            && |st'.mem| > 0 && st'.mem[|st'.mem| - 1] == sh
            && Times(st'.mem, other) == (if Usable(other, now) then Times(st.mem, other) else 0)
                                        + (if other == sh then 1 else 0)
            && st'.disk == if ok then st'.mem else st.disk
  {
    hide Prune, Usable;
    PruneExactly(st.mem, now, other);
  }

  /** A filter that drops nothing keeps the sequence. */
  lemma {:induction false} FilterAll(keep: Share -> bool, s: seq<Share>, n: nat)
    requires n <= |s|
    ensures |FilterTo(keep, s, n)| <= n
    ensures |FilterTo(keep, s, n)| == n ==> FilterTo(keep, s, n) == s[..n]
  {
    if n > 0 {
      FilterAll(keep, s, n - 1);
    }
  }

  // ---------------------------------------------------------------- one share through the store's operations

  /** The one record of its token. */
  ghost predicate Has(st: Store, sh: Share) {
    Held(st.mem, sh.token) == [sh] && |Held(st.disk, sh.token)| <= 1
  }

  /** Pruning keeps the record where a lookup finds it, exactly while it is usable. */
  lemma Located(st: Store, sh: Share, now: int) returns (i: nat)
    requires Has(st, sh)
    ensures var pruned := st.(mem := Prune(st.mem, now));
            && i == Find(pruned.mem, sh.token) && Single(pruned, sh.token)
            && (Usable(sh, now) ==> i < |pruned.mem| && pruned.mem[i] == sh && Has(pruned, sh))
            && (!Usable(sh, now) ==> i == |pruned.mem| && Absent(pruned.mem, sh.token))
  {
    hide Held, Prune, ShareExpired, Usable;
    UsableMeaning(sh, now);
    PruneHeld(st, now, sh.token);
    var pruned := st.(mem := Prune(st.mem, now));
    HeldFind(pruned.mem, sh.token);
    i := Find(pruned.mem, sh.token);
  }

  /** `getValid` grants exactly the usable share, and afterwards the record is there exactly if it was granted. */
  lemma GetValidExactly(st: Store, sh: Share, now: int, later: int, ok: bool)
    requires Has(st, sh) && ValidShareToken(sh.token) && now <= later
    ensures var (st', verdict) := GetValidSpec(st, sh.token, now, later, ok);
            && (verdict == Granted <==> Usable(sh, later))
            && (verdict == Expired <==> Usable(sh, now) && !Usable(sh, later))
            && Held(st'.mem, sh.token) == if Usable(sh, later) then [sh] else []
  {
    hide Held, Prune, ShareExpired, Usable, ValidShareToken, DropAndSave;
    var i := Located(st, sh, now);
    UsableMeaning(sh, later);
    if Usable(sh, later) {
      UsableEarlier(sh, now, later);
    }
    if Usable(sh, now) {
      DropHeld(st.(mem := Prune(st.mem, now)), i, ok, sh.token);
    }
  }

  /** The download of the record found at `i`. */
  lemma DownloadHere(st: Store, i: nat, later: int, ok: bool, ok2: bool)
    requires i < |st.mem| && Single(st, st.mem[i].token)
    ensures var sh := st.mem[i];
            var (st', verdict) := DownloadAt(st, i, later, ok, ok2);
            && (verdict == Granted <==> !sh.drop && Usable(sh, later) && ok)
            && (verdict == SaveFailed <==> !sh.drop && Usable(sh, later) && !ok)
            && (verdict == WrongKind <==> sh.drop)
            && Held(st'.mem, sh.token) ==
                 if verdict == SaveFailed || verdict == WrongKind then [sh]
                 else if verdict != Granted || sh.downloadCount + 1 == sh.maxDownloads then []
                 else [sh.(downloadCount := sh.downloadCount + 1)]
  {
    hide Held, DropAndSave, Single, ShareExpired;
    UsableMeaning(st.mem[i], later);
    DropHeld(st, i, ok, st.mem[i].token);
    GrantHeld(st, i, ok2, st.mem[i].token);
  }

  /** `beginDownload` grants exactly the usable link share whose save succeeds, and counts the download; the
      share is gone with its last one. A drop share is refused, and a share past its date or limits removed. */
  lemma BeginDownloadExactly(st: Store, sh: Share, now: int, later: int, ok: bool, ok2: bool)
    requires Has(st, sh) && ValidShareToken(sh.token) && now <= later
    ensures var (st', verdict) := BeginDownloadSpec(st, sh.token, now, later, ok, ok2);
            var h := Held(st'.mem, sh.token);
            && (verdict == Granted <==> !sh.drop && Usable(sh, later) && ok)
            && (verdict == SaveFailed <==> !sh.drop && Usable(sh, later) && !ok)
            && (verdict == WrongKind <==> sh.drop && Usable(sh, now))
            && (if verdict == Granted then
                  h == if sh.downloadCount + 1 == sh.maxDownloads then []
                       else [sh.(downloadCount := sh.downloadCount + 1)]
                else h == if verdict == SaveFailed || verdict == WrongKind then [sh] else [])
  {
    hide Held, Prune, ValidShareToken, DropAndSave, Single, DownloadAt, Usable, Has;
    var i := Located(st, sh, now);
    if Usable(sh, now) {
      DownloadHere(st.(mem := Prune(st.mem, now)), i, later, ok, ok2);
    } else if Usable(sh, later) {
      UsableEarlier(sh, now, later);
    }
  }

  /** `beginUpload` reserves exactly on the usable drop share whose save succeeds. The counter is raised either
      way; only a successful save puts it into the file. */
  lemma BeginUploadExactly(st: Store, sh: Share, now: int, later: int, ok: bool)
    requires Has(st, sh) && ValidShareToken(sh.token) && now <= later
    ensures var (st', verdict) := BeginUploadSpec(st, sh.token, now, later, ok);
            var h := Held(st'.mem, sh.token);
            && (verdict == Granted <==> sh.drop && Usable(sh, later) && ok)
            && (verdict == SaveFailed <==> sh.drop && Usable(sh, later) && !ok)
            && (verdict == WrongKind <==> !sh.drop && Usable(sh, now))
            && (if verdict == Granted || verdict == SaveFailed then
                  h == [sh.(uploadCount := sh.uploadCount + 1)]
                  && Held(st'.disk, sh.token) == (if ok then h else Held(st.disk, sh.token))
                else h == if verdict == WrongKind then [sh] else [])
  {
    var i := Located(st, sh, now);
    hide Held, Prune, ValidShareToken, DropAndSave, Single;
    UsableMeaning(sh, later);
    if Usable(sh, now) {
      var pruned := st.(mem := Prune(st.mem, now));
      DropHeld(pruned, i, ok, sh.token);
      RaisedHeld(pruned, sh, i);
    }
  }

  lemma RaisedHeld(st: Store, sh: Share, i: nat)
    requires Has(st, sh) && i < |st.mem| && st.mem[i] == sh
    ensures Held(st.mem[i := sh.(uploadCount := sh.uploadCount + 1)], sh.token)
            == [sh.(uploadCount := sh.uploadCount + 1)]
    ensures sh.uploadCount > 0 ==>
              Held(st.mem[i := sh.(uploadCount := sh.uploadCount - 1)], sh.token)
              == [sh.(uploadCount := sh.uploadCount - 1)]
  {
    HeldUpdate(st.mem, i, sh.(uploadCount := sh.uploadCount + 1), sh.token);
    if sh.uploadCount > 0 {
      HeldUpdate(st.mem, i, sh.(uploadCount := sh.uploadCount - 1), sh.token);
    }
  }

  /** Undoing gives exactly one slot back, if any is counted. */
  lemma UndoExactly(st: Store, sh: Share, ok: bool)
    requires Has(st, sh) && ValidShareToken(sh.token)
    ensures var st' := UndoUploadSpec(st, sh.token, ok);
            var h := Held(st'.mem, sh.token);
            && h == [if sh.uploadCount > 0 then sh.(uploadCount := sh.uploadCount - 1) else sh]
            && Held(st'.disk, sh.token) == (if ok && sh.uploadCount > 0 then h else Held(st.disk, sh.token))
  {
    hide Held, ValidShareToken;
    HeldFind(st.mem, sh.token);
    RaisedHeld(st, sh, Find(st.mem, sh.token));
  }

  /** A reservation undone leaves the share as it was. */
  lemma UndoUndoes(st: Store, sh: Share, now: int, later: int, ok: bool)
    requires Has(st, sh) && ValidShareToken(sh.token) && now <= later && sh.drop && Usable(sh, later)
    ensures var reserved := BeginUploadSpec(st, sh.token, now, later, true).0;
            Held(UndoUploadSpec(reserved, sh.token, ok).mem, sh.token) == [sh]
  {
    hide Held, Usable, ValidShareToken, BeginUploadSpec, UndoUploadSpec;
    BeginUploadExactly(st, sh, now, later, true);
    UndoExactly(BeginUploadSpec(st, sh.token, now, later, true).0, sh.(uploadCount := sh.uploadCount + 1), ok);
  }

  lemma RemovedTimes(s: seq<Share>, i: nat, sh: Share)
    requires i < |s| && s[i] != sh
    ensures Times(RemoveAt(s, i), sh) == Times(s, sh)
  {
    assert s == s[..i] + [s[i]] + s[i + 1..];
  }

  /** Revoking removes the record of the token, and no other. */
  lemma RevokeExactly(st: Store, sh: Share, ok: bool, other: Share)
    requires Has(st, sh)
    ensures var st' := RevokeSpec(st, sh.token, ok);
            && Absent(st'.mem, sh.token) && (ok ==> st'.disk == st'.mem) && (!ok ==> st'.disk == st.disk)
            && (other.token != sh.token ==> Times(st'.mem, other) == Times(st.mem, other))
  {
    hide Held, HeldTo, Times, FindFrom, RemoveAt;
    HeldFind(st.mem, sh.token);
    var i := Find(st.mem, sh.token);
    DropHeld(st, i, ok, sh.token);
    if other.token != sh.token {
      RemovedTimes(st.mem, i, other);
    }
  }

  // ---------------------------------------------------------------- from creation on

  /** How long a share made in this mode lasts, in nanoseconds, if it ends with time at all. */
  function Lifetime(mode: Mode): Option<int> {
    match mode
    case H24 => Some(86_400_000_000_000)
    case D7 => Some(604_800_000_000_000)
    case D30 => Some(2_592_000_000_000_000)
    case _ => None
  }

  /** A share made at `made` is served exactly until its lifetime is over: for a day, a week, thirty days, or
      without end; a share for one download until that. */
  lemma ServedWhileItLasts(st: Store, token: string, relPath: string, isDir: bool, kind: string, mode: Mode,
                           made: int, saved: bool, now: int, later: int, ok: bool)
    requires Absent(st.mem, token) && Absent(st.disk, token) && ValidShareToken(token) && made <= now <= later
    requires NewShare(token, relPath, isDir, kind, mode, made).Some?
    ensures var sh := NewShare(token, relPath, isDir, kind, mode, made).value;
            var st1 := AppendSpec(st, sh, made, saved);
            && (GetValidSpec(st1, token, now, later, ok).1 == Granted
                <==> (Lifetime(mode).Some? ==> later <= made + Lifetime(mode).value))
            && (kind == "drop" ==> Lifetime(mode).Some?)
            && (mode.OneDownload? ==>
                  var (st2, verdict) := BeginDownloadSpec(st1, token, now, later, true, ok);
                  verdict == Granted && Absent(st2.mem, token))
  {
    var sh := NewShare(token, relPath, isDir, kind, mode, made).value;
    hide Held, GetValidSpec, BeginDownloadSpec, ValidShareToken, Prune;
    CreatedHeld(st, sh, made, saved);
    var st1 := AppendSpec(st, sh, made, saved);
    GetValidExactly(st1, sh, now, later, ok);
    BeginDownloadExactly(st1, sh, now, later, true, ok);
  }

  /** What can be shared: a path that is not the root, as a link or, for a folder, as a drop with an end. */
  lemma CreatedExactly(token: string, relPath: string, isDir: bool, kind: string, mode: Mode, now: int)
    ensures NewShare(token, relPath, isDir, kind, mode, now).Some? <==>
              && Trim(relPath, "/") != "" && !mode.Unknown?
              && (kind == "" || kind == "link" || (kind == "drop" && isDir && Lifetime(mode).Some?))
  {
  }
}
