/** The promises of the share quotas over whole runs: any interleaving of locked operations,
    uploads in flight, failed saves and process restarts. */
module ShareQuotas {
  import opened Paths
  import opened Shares

  /** The store together with what has happened to one share: downloads granted, uploads that
      reserved a slot and are still writing, and files that were kept. */
  datatype Run = Run(st: Store, granted: nat, inFlight: nat, landed: nat)

  /** `handleDropUpload` reserves with `beginUpload`; then its file lands, or it gives up and
      calls `undoUpload`. Everything else is an operation of the store. */
  datatype Event = Do(op: Op) | Land | GiveUp(ok: bool)

  function Next(r: Run, token: string, ev: Event): Run {
    match ev
    case Do(op) =>
      var (st, verdict) := Step(r.st, op);
      if op.BeginDownload? && op.token == token && verdict == Granted
      then r.(st := st, granted := r.granted + 1)
      else if op.BeginUpload? && op.token == token && verdict == Granted
      then r.(st := st, inFlight := r.inFlight + 1)
      else if op.Restart?
      // the process dies with its uploads; their files stay where they were created
      then r.(st := st, inFlight := 0, landed := r.landed + r.inFlight)
      else r.(st := st)
    case Land => if r.inFlight == 0 then r else r.(inFlight := r.inFlight - 1, landed := r.landed + 1)
    case GiveUp(ok) =>
      if r.inFlight == 0 then r
      else r.(st := UndoUploadSpec(r.st, token, ok), inFlight := r.inFlight - 1)
  }

  /** How many reservations of this kind one event obtains. */
  function Obtained(r: Run, token: string, ev: Event, upload: bool): nat {
    if ev.Do? && (if upload then ev.op.BeginUpload? else ev.op.BeginDownload?) && ev.op.token == token
       && Step(r.st, ev.op).1 == Granted
    then 1 else 0
  }

  /** What is counted: downloads by the verdicts of the store; uploads in flight or landed by its verdicts less
      those given up; landed ones when they land, or are cut off by a restart. */
  lemma CountsExactly(r: Run, token: string, ev: Event)
    ensures var r' := Next(r, token, ev);
            && r'.granted == r.granted + Obtained(r, token, ev, false)
            && r'.landed + r'.inFlight == r.landed + r.inFlight + Obtained(r, token, ev, true)
                                          - (if ev.GiveUp? && r.inFlight > 0 then 1 else 0)
            && r'.st == (match ev
                         case Do(op) => Step(r.st, op).0
                         case Land => r.st
                         case GiveUp(ok) => if r.inFlight > 0 then UndoUploadSpec(r.st, token, ok) else r.st)
            && r'.landed == r.landed + (if ev.Land? && r.inFlight > 0 then 1
                                        else if ev.Do? && ev.op.Restart? then r.inFlight else 0)
  {
    hide BeginDownloadSpec, BeginUploadSpec, GetValidSpec, UndoUploadSpec, AppendSpec;
  }

  function Play(r: Run, token: string, evs: seq<Event>): Run
    decreases |evs|
  {
    if evs == [] then r else Play(Next(r, token, evs[0]), token, evs[1..])
  }

  /** Tokens are random and never reused, and a handler only undoes its own reservation. */
  predicate Legit(ev: Event, token: string) {
    ev.Do? ==> !(ev.op.Append? && ev.op.share.token == token) && !(ev.op.UndoUpload? && ev.op.token == token)
  }

  predicate AllLegit(evs: seq<Event>, token: string) {
    forall i :: 0 <= i < |evs| ==> Legit(evs[i], token)
  }

  // ---------------------------------------------------------------- the records of one token

  /** The records among the first `n` that hold `token`, in order. */
  function HeldTo(s: seq<Share>, n: nat, token: string): seq<Share>
    requires n <= |s|
  {
    if n == 0 then [] else HeldTo(s, n - 1, token) + (if s[n - 1].token == token then [s[n - 1]] else [])
  }

  function Held(s: seq<Share>, token: string): seq<Share> {
    HeldTo(s, |s|, token)
  }

  lemma {:induction false} HeldAgrees(s: seq<Share>, t: seq<Share>, n: nat, token: string)
    requires n <= |s| && n <= |t| && forall i :: 0 <= i < n ==> s[i] == t[i]
    ensures HeldTo(s, n, token) == HeldTo(t, n, token)
  {
    if n > 0 {
      HeldAgrees(s, t, n - 1, token);
    }
  }

  lemma {:induction false} HeldConcatTo(a: seq<Share>, b: seq<Share>, k: nat, token: string)
    requires k <= |b|
    ensures HeldTo(a + b, |a| + k, token) == Held(a, token) + HeldTo(b, k, token)
  {
    if k == 0 {
      HeldAgrees(a + b, a, |a|, token);
    } else {
      HeldConcatTo(a, b, k - 1, token);
    }
  }

  lemma HeldConcat(a: seq<Share>, b: seq<Share>, token: string)
    ensures Held(a + b, token) == Held(a, token) + Held(b, token)
  {
    HeldConcatTo(a, b, |b|, token);
  }

  lemma HeldOne(sh: Share, token: string)
    ensures Held([sh], token) == if sh.token == token then [sh] else []
  {
    assert HeldTo([sh], 0, token) == [];
  }

  lemma {:induction false} HeldFilterTo(keep: Share -> bool, s: seq<Share>, n: nat, token: string)
    requires n <= |s|
    ensures Held(FilterTo(keep, s, n), token) == Filter(keep, HeldTo(s, n, token))
  {
    if n > 0 {
      var last := s[n - 1];
      var mine, kept := FilterTo(keep, s, n - 1), HeldTo(s, n - 1, token);
      HeldFilterTo(keep, s, n - 1, token);
      HeldOne(last, token);
      HeldConcat(mine, [last], token);
      FilterSnoc(keep, kept, last);
      if !keep(last) {
        assert mine + [] == mine;
      }
      if last.token != token {
        assert kept + [] == kept;
      }
    }
  }

  lemma HeldFilter(keep: Share -> bool, s: seq<Share>, token: string)
    ensures Held(Filter(keep, s), token) == Filter(keep, Held(s, token))
  {
    HeldFilterTo(keep, s, |s|, token);
  }

  lemma {:induction false} FilterAgrees(keep: Share -> bool, s: seq<Share>, t: seq<Share>, n: nat)
    requires n <= |s| && n <= |t| && forall i :: 0 <= i < n ==> s[i] == t[i]
    ensures FilterTo(keep, s, n) == FilterTo(keep, t, n)
  {
    if n > 0 {
      FilterAgrees(keep, s, t, n - 1);
    }
  }

  lemma FilterSnoc(keep: Share -> bool, a: seq<Share>, sh: Share)
    ensures Filter(keep, a + [sh]) == Filter(keep, a) + if keep(sh) then [sh] else []
  {
    FilterAgrees(keep, a + [sh], a, |a|);
  }

  lemma FilterOne(keep: Share -> bool, h: seq<Share>)
    requires |h| <= 1
    ensures Filter(keep, h) == if h != [] && keep(h[0]) then h else []
  {
    assert FilterTo(keep, h, 0) == [];
  }

  /** Changing one record changes what is held for its own token only. */
  lemma HeldUpdate(s: seq<Share>, i: nat, sh: Share, token: string)
    requires i < |s| && sh.token == s[i].token && |Held(s, token)| <= 1
    ensures s[i].token == token ==> Held(s, token) == [s[i]] && Held(s[i := sh], token) == [sh]
    ensures s[i].token != token ==> Held(s[i := sh], token) == Held(s, token)
  {
    hide Held;
    var a, b := s[..i], s[i + 1..];
    assert s == a + [s[i]] + b && s[i := sh] == a + [sh] + b;
    HeldConcat(a, [s[i]], token);
    HeldConcat(a + [s[i]], b, token);
    HeldConcat(a, [sh], token);
    HeldConcat(a + [sh], b, token);
    HeldOne(s[i], token);
    HeldOne(sh, token);
  }

  lemma HeldRemove(s: seq<Share>, i: nat, token: string)
    requires i < |s| && |Held(s, token)| <= 1
    ensures Held(RemoveAt(s, i), token) == if s[i].token == token then [] else Held(s, token)
  {
    var a, b := s[..i], s[i + 1..];
    assert s == a + [s[i]] + b;
    HeldConcat(a, [s[i]], token);
    HeldConcat(a + [s[i]], b, token);
    HeldConcat(a, b, token);
    HeldOne(s[i], token);
  }

  lemma {:induction false} HeldFindFrom(s: seq<Share>, token: string, k: nat)
    requires k <= |s| && HeldTo(s, k, token) == []
    ensures var i := FindFrom(s, token, k);
            if i < |s| then Held(s, token) != [] && Held(s, token)[0] == s[i] else Held(s, token) == []
    decreases |s| - k
  {
    if k < |s| {
      if s[k].token == token {
        HeldGrows(s, k + 1, |s|, token);
      } else {
        HeldFindFrom(s, token, k + 1);
      }
    }
  }

  lemma {:induction false} HeldGrows(s: seq<Share>, k: nat, n: nat, token: string)
    requires k <= n <= |s|
    ensures HeldTo(s, k, token) <= HeldTo(s, n, token)
    decreases n - k
  {
    if k < n {
      HeldGrows(s, k, n - 1, token);
    }
  }

  /** A lookup finds the held record. */
  lemma HeldFind(s: seq<Share>, token: string)
    ensures var i := Find(s, token);
            if i < |s| then Held(s, token) != [] && Held(s, token)[0] == s[i] else Held(s, token) == []
  {
    HeldFindFrom(s, token, 0);
  }

  lemma {:induction false} HeldRewriteTo(s: seq<Share>, n: nat, from: string, to: string, token: string)
    requires n <= |s|
    ensures HeldTo(RewriteAll(s, from, to), n, token) == RewriteAll(HeldTo(s, n, token), from, to)
  {
    hide RewriteAll, Rewritten;
    if n == 0 {
      RewriteNext([], from, to);
    } else {
      HeldRewriteTo(s, n - 1, from, to, token);
      RewriteNext(HeldTo(s, n, token), from, to);
      SameToken(s[n - 1], from, to);
    }
  }

  lemma SameToken(sh: Share, from: string, to: string)
    ensures Rewritten(sh, from, to).token == sh.token
  {
    hide Base;
  }

  lemma RewriteNext(s: seq<Share>, from: string, to: string)
    ensures s == [] ==> RewriteAll(s, from, to) == []
    ensures s != [] ==> RewriteAll(s, from, to) ==
                          RewriteAll(s[..|s| - 1], from, to) + [Rewritten(s[|s| - 1], from, to)]
  {
    hide Rewritten;
  }

  /** A token no record holds. */
  predicate Absent(s: seq<Share>, token: string) {
    Held(s, token) == []
  }

  /** What one operation may do to the single record of a token when it grants it nothing:
      lose it, or keep its limits and counters. */
  predicate Keeps(h: seq<Share>, h': seq<Share>) {
    h' == [] || (|h| == 1 && |h'| == 1 &&
                 h'[0] == h[0].(path := h'[0].path, name := h'[0].name))
  }

  /** At most one record, in memory and on disk. */
  predicate Single(st: Store, token: string) {
    |Held(st.mem, token)| <= 1 && |Held(st.disk, token)| <= 1
  }

  predicate SavedOrNot(st: Store, st': Store, token: string) {
    Held(st'.disk, token) == Held(st.disk, token) || Held(st'.disk, token) == Held(st'.mem, token)
  }

  predicate InTime(sh: Share, now: int) {
    sh.expiresAt.Some? ==> now <= sh.expiresAt.value
  }

  /** The operation does not end the share: no expiry, revocation or removal. */
  predicate Undisturbed(sh: Share, op: Op) {
    match op
    case ListPublic(now) => InTime(sh, now)
    case Append(_, now, _) => InTime(sh, now)
    case GetValid(_, now, later, _) => InTime(sh, now) && InTime(sh, later)
    case BeginUpload(_, now, later, _) => InTime(sh, now) && InTime(sh, later)
    case BeginDownload(_, now, later, _, _) => InTime(sh, now) && InTime(sh, later)
    case Revoke(other, _) => other != sh.token
    case RemoveByPathPrefix(rel, _) => !UnderPrefix(sh.path, Trim(rel, "/"))
    case _ => true
  }

  /** A link share with downloads left: only time can expire it. */
  predicate Open(sh: Share) {
    !sh.drop && sh.downloadCount < sh.maxDownloads
  }

  predicate Stays(st: Store, token: string, op: Op) {
    Held(st.mem, token) != [] && Open(Held(st.mem, token)[0]) && Undisturbed(Held(st.mem, token)[0], op)
  }

  lemma PruneHeld(st: Store, now: int, token: string)
    requires Single(st, token)
    ensures var pruned := st.(mem := Prune(st.mem, now));
            var h := Held(st.mem, token);
            && Single(pruned, token)
            && Held(pruned.mem, token) == if h != [] && !ShareExpired(h[0], now) then h else []
  {
    var h := Held(st.mem, token);
    HeldFilter(Live(now), st.mem, token);
    FilterOne(Live(now), h);
  }

  lemma DropHeld(st: Store, i: nat, ok: bool, token: string)
    requires Single(st, token) && i < |st.mem|
    ensures var st' := DropAndSave(st, i, ok);
            && Held(st'.mem, token) == (if st.mem[i].token == token then [] else Held(st.mem, token))
            && SavedOrNot(st, st', token)
  {
    HeldRemove(st.mem, i, token);
  }

  /** Counting a download on the record at `i`, saving, and dropping it at the limit. */
  lemma GrantHeld(st: Store, i: nat, ok2: bool, token: string)
    requires Single(st, token) && i < |st.mem| && st.mem[i].token == token
    ensures var up := st.mem[i].(downloadCount := st.mem[i].downloadCount + 1);
            var counted := Save(st.(mem := st.mem[i := up]), true);
            var dropped := DropAndSave(counted, i, ok2);
            && Held(st.mem, token) == [st.mem[i]]
            && Held(counted.mem, token) == Held(counted.disk, token) == [up]
            && Held(dropped.mem, token) == []
            && (Held(dropped.disk, token) == [up] || Held(dropped.disk, token) == [])
  {
    var up := st.mem[i].(downloadCount := st.mem[i].downloadCount + 1);
    var counted := Save(st.(mem := st.mem[i := up]), true);
    HeldUpdate(st.mem, i, up, token);
    DropHeld(counted, i, ok2, token);
  }

  /** What `beginDownload` makes of the held record: a grant was within the limit and counts one
      more, on disk as well; the last one may already be dropped. */
  predicate DownloadOutcome(h: seq<Share>, disk: seq<Share>, h': seq<Share>, disk': seq<Share>, granted: bool) {
    if granted then
      && |h| == 1 && (h[0].maxDownloads > 0 ==> h[0].downloadCount < h[0].maxDownloads)
      && var up := [h[0].(downloadCount := h[0].downloadCount + 1)];
         && (h' == up || (h' == [] && up[0].downloadCount >= h[0].maxDownloads > 0))
         && (disk' == up || disk' == h')
    else Keeps(h, h') && (disk' == disk || disk' == h')
  }

  lemma DownloadAtHeld(st: Store, i: nat, later: int, ok: bool, ok2: bool, token: string)
    requires Single(st, token) && i < |st.mem| && st.mem[i].token == token
    ensures Held(st.mem, token) == [st.mem[i]]
    ensures var (st', verdict) := DownloadAt(st, i, later, ok, ok2);
            DownloadOutcome(Held(st.mem, token), Held(st.disk, token), Held(st'.mem, token), Held(st'.disk, token),
                            verdict == Granted)
  {
    hide Single, Held, HeldTo, ShareExpired, DropAndSave;
    GrantHeld(st, i, ok2, token);
    DropHeld(st, i, ok, token);
  }

  lemma GrantOther(st: Store, i: nat, ok2: bool, token: string)
    requires Single(st, token) && i < |st.mem| && st.mem[i].token != token
    ensures var up := st.mem[i].(downloadCount := st.mem[i].downloadCount + 1);
            var counted := Save(st.(mem := st.mem[i := up]), true);
            var dropped := DropAndSave(counted, i, ok2);
            && Held(counted.mem, token) == Held(counted.disk, token) == Held(st.mem, token)
            && Held(dropped.mem, token) == Held(dropped.disk, token) == Held(st.mem, token)
  {
    var up := st.mem[i].(downloadCount := st.mem[i].downloadCount + 1);
    var counted := Save(st.(mem := st.mem[i := up]), true);
    HeldUpdate(st.mem, i, up, token);
    DropHeld(counted, i, ok2, token);
  }

  lemma DownloadAtOther(st: Store, i: nat, later: int, ok: bool, ok2: bool, token: string)
    requires Single(st, token) && i < |st.mem| && st.mem[i].token != token
    ensures var st' := DownloadAt(st, i, later, ok, ok2).0;
            Held(st'.mem, token) == Held(st.mem, token) && SavedOrNot(st, st', token)
  {
    hide Single, Held, HeldTo, ShareExpired, DropAndSave;
    GrantOther(st, i, ok2, token);
    DropHeld(st, i, ok, token);
  }

  /** What `beginUpload` makes of the held record: a reservation was within the limit and counts
      one more; where its save fails the counter stays raised in memory only. */
  predicate UploadOutcome(h: seq<Share>, disk: seq<Share>, h': seq<Share>, disk': seq<Share>, verdict: Verdict) {
    if verdict == Granted || verdict == SaveFailed then
      && |h| == 1 && h[0].drop && (h[0].maxUploads > 0 ==> h[0].uploadCount < h[0].maxUploads)
      && h' == [h[0].(uploadCount := h[0].uploadCount + 1)]
      && disk' == if verdict == Granted then h' else disk
    else Keeps(h, h') && (disk' == disk || disk' == h')
  }

  lemma UploadAtHeld(st: Store, i: nat, later: int, ok: bool, token: string)
    requires Single(st, token) && i < |st.mem| && st.mem[i].token == token
    ensures Held(st.mem, token) == [st.mem[i]]
    ensures var (st', verdict) := UploadAt(st, i, later, ok);
            UploadOutcome(Held(st.mem, token), Held(st.disk, token), Held(st'.mem, token), Held(st'.disk, token),
                          verdict)
  {
    HeldUpdate(st.mem, i, st.mem[i].(uploadCount := st.mem[i].uploadCount + 1), token);
    DropHeld(st, i, ok, token);
  }

  lemma UploadAtOther(st: Store, i: nat, later: int, ok: bool, token: string)
    requires Single(st, token) && i < |st.mem| && st.mem[i].token != token
    ensures var st' := UploadAt(st, i, later, ok).0;
            Held(st'.mem, token) == Held(st.mem, token) && SavedOrNot(st, st', token)
  {
    HeldUpdate(st.mem, i, st.mem[i].(uploadCount := st.mem[i].uploadCount + 1), token);
    DropHeld(st, i, ok, token);
  }

  // ---------------------------------------------------------------- one operation, seen by one token

  /** The operation granted nothing to the token and, if `stays`, kept its record. */
  predicate Quiet(st: Store, st': Store, token: string, stays: bool) {
    && Keeps(Held(st.mem, token), Held(st'.mem, token)) && SavedOrNot(st, st', token)
    && (stays ==> Held(st'.mem, token) != [])
  }

  /** The token's record is open and not past its expiry. */
  predicate Fresh(st: Store, token: string, now: int) {
    Held(st.mem, token) != [] && Open(Held(st.mem, token)[0]) && InTime(Held(st.mem, token)[0], now)
  }

  lemma AppendQuiet(st: Store, sh: Share, now: int, ok: bool, token: string)
    requires Single(st, token) && sh.token != token
    ensures Quiet(st, AppendSpec(st, sh, now, ok), token, Fresh(st, token, now))
  {
    PruneHeld(st, now, token);
    HeldConcat(Prune(st.mem, now), [sh], token);
    HeldOne(sh, token);
  }

  lemma LookupAtHeld(st: Store, i: nat, later: int, ok: bool, token: string)
    requires Single(st, token) && i < |st.mem|
    ensures var st' := LookupAt(st, i, later, ok).0;
            && SavedOrNot(st, st', token)
            && (Held(st'.mem, token) == Held(st.mem, token) ||
                (Held(st'.mem, token) == [] && st.mem[i].token == token && ShareExpired(st.mem[i], later)))
  {
    DropHeld(st, i, ok, token);
  }

  lemma LookupQuiet(st: Store, other: string, now: int, later: int, ok: bool, token: string)
    requires Single(st, token)
    ensures Quiet(st, GetValidSpec(st, other, now, later, ok).0, token,
                  Fresh(st, token, now) && Fresh(st, token, later))
  {
    PruneHeld(st, now, token);
    var pruned := st.(mem := Prune(st.mem, now));
    var i := Find(pruned.mem, other);
    HeldFind(pruned.mem, other);
    if i < |pruned.mem| {
      LookupAtHeld(pruned, i, later, ok, token);
    }
  }

  lemma RevokeQuiet(st: Store, other: string, ok: bool, token: string)
    requires Single(st, token)
    ensures Quiet(st, RevokeSpec(st, other, ok), token, other != token && Held(st.mem, token) != [])
  {
    var i := Find(st.mem, other);
    if i < |st.mem| {
      DropHeld(st, i, ok, token);
    }
  }

  lemma OtherDownloadQuiet(st: Store, other: string, now: int, later: int, ok: bool, ok2: bool, token: string)
    requires Single(st, token) && other != token
    ensures Quiet(st, BeginDownloadSpec(st, other, now, later, ok, ok2).0, token, Fresh(st, token, now))
  {
    PruneHeld(st, now, token);
    var pruned := st.(mem := Prune(st.mem, now));
    var i := Find(pruned.mem, other);
    if i < |pruned.mem| {
      DownloadAtOther(pruned, i, later, ok, ok2, token);
    }
  }

  lemma OtherUploadQuiet(st: Store, other: string, now: int, later: int, ok: bool, token: string)
    requires Single(st, token) && other != token
    ensures Quiet(st, BeginUploadSpec(st, other, now, later, ok).0, token, Fresh(st, token, now))
  {
    PruneHeld(st, now, token);
    var pruned := st.(mem := Prune(st.mem, now));
    var i := Find(pruned.mem, other);
    if i < |pruned.mem| {
      UploadAtOther(pruned, i, later, ok, token);
    }
  }

  lemma OtherUndoQuiet(st: Store, other: string, ok: bool, token: string)
    requires Single(st, token) && other != token
    ensures Quiet(st, UndoUploadSpec(st, other, ok), token, Held(st.mem, token) != [])
  {
    var i := Find(st.mem, other);
    if i < |st.mem| && st.mem[i].uploadCount > 0 {
      HeldUpdate(st.mem, i, st.mem[i].(uploadCount := st.mem[i].uploadCount - 1), token);
    }
  }

  lemma RemoveQuiet(st: Store, rel: string, ok: bool, token: string)
    requires Single(st, token)
    ensures Quiet(st, RemoveByPathPrefixSpec(st, rel, ok), token,
                  Held(st.mem, token) != [] && !UnderPrefix(Held(st.mem, token)[0].path, Trim(rel, "/")))
  {
    var keep := Outside(Trim(rel, "/"));
    HeldFilter(keep, st.mem, token);
    FilterOne(keep, Held(st.mem, token));
  }

  lemma RewriteHeld(s: seq<Share>, from: string, to: string, token: string)
    requires |Held(s, token)| <= 1
    ensures Keeps(Held(s, token), Held(RewriteAll(s, from, to), token))
    ensures Held(s, token) != [] ==> Held(RewriteAll(s, from, to), token) != []
  {
    HeldRewriteTo(s, |s|, from, to, token);
  }

  lemma RewriteQuiet(st: Store, oldRel: string, newRel: string, ok: bool, token: string)
    requires Single(st, token)
    ensures Quiet(st, RewritePathPrefixSpec(st, oldRel, newRel, ok), token, Held(st.mem, token) != [])
  {
    RewriteHeld(st.mem, Trim(oldRel, "/"), Trim(newRel, "/"), token);
  }

  lemma OtherQuiet(st: Store, token: string, op: Op)
    requires Single(st, token) && Legit(Do(op), token) && !op.Restart?
    requires op.BeginDownload? || op.BeginUpload? ==> op.token != token
    ensures Quiet(st, Step(st, op).0, token, Stays(st, token, op))
  {
    match op {
      case Append(sh, now, ok) => AppendQuiet(st, sh, now, ok, token);
      case ListPublic(now) => PruneHeld(st, now, token);
      case GetValid(other, now, later, ok) => LookupQuiet(st, other, now, later, ok, token);
      case BeginDownload(other, now, later, ok, ok2) => OtherDownloadQuiet(st, other, now, later, ok, ok2, token);
      case BeginUpload(other, now, later, ok) => OtherUploadQuiet(st, other, now, later, ok, token);
      case UndoUpload(other, ok) => OtherUndoQuiet(st, other, ok, token);
      case Revoke(other, ok) => RevokeQuiet(st, other, ok, token); HeldOwn(st.mem, |st.mem|, token);
      case RemoveByPathPrefix(rel, ok) => RemoveQuiet(st, rel, ok, token);
      case RewritePathPrefix(oldRel, newRel, ok) => RewriteQuiet(st, oldRel, newRel, ok, token);
    }
  }

  lemma {:induction false} HeldOwn(s: seq<Share>, n: nat, token: string)
    requires n <= |s|
    ensures HeldTo(s, n, token) != [] ==> HeldTo(s, n, token)[0].token == token
  {
    if n > 0 {
      HeldOwn(s, n - 1, token);
    }
  }

  /** `beginDownload` of the token itself. */
  lemma OwnDownload(st: Store, token: string, now: int, later: int, ok: bool, ok2: bool)
    requires Single(st, token)
    ensures var (st', verdict) := BeginDownloadSpec(st, token, now, later, ok, ok2);
            && DownloadOutcome(Held(st.mem, token), Held(st.disk, token), Held(st'.mem, token), Held(st'.disk, token),
                               verdict == Granted)
            && (Fresh(st, token, now) && Fresh(st, token, later) && ok && ValidShareToken(token) ==> verdict == Granted)
  {
    hide Held, Prune, ValidShareToken;
    PruneHeld(st, now, token);
    var pruned := st.(mem := Prune(st.mem, now));
    var i := Find(pruned.mem, token);
    HeldFind(pruned.mem, token);
    if i < |pruned.mem| {
      DownloadAtHeld(pruned, i, later, ok, ok2, token);
    }
  }

  /** `beginUpload` of the token itself. */
  lemma OwnUpload(st: Store, token: string, now: int, later: int, ok: bool)
    requires Single(st, token)
    ensures var (st', verdict) := BeginUploadSpec(st, token, now, later, ok);
            && UploadOutcome(Held(st.mem, token), Held(st.disk, token), Held(st'.mem, token), Held(st'.disk, token),
                             verdict)
            && (Fresh(st, token, now) && Fresh(st, token, later) ==> Held(st'.mem, token) != [])
  {
    PruneHeld(st, now, token);
    var pruned := st.(mem := Prune(st.mem, now));
    var i := Find(pruned.mem, token);
    HeldFind(pruned.mem, token);
    if i < |pruned.mem| {
      UploadAtHeld(pruned, i, later, ok, token);
    }
  }

  lemma OwnUndo(st: Store, token: string, ok: bool)
    requires Single(st, token)
    ensures var st' := UndoUploadSpec(st, token, ok);
            var h, h' := Held(st.mem, token), Held(st'.mem, token);
            && SavedOrNot(st, st', token)
            && (h' == h || (h != [] && h[0].uploadCount > 0 && h' == [h[0].(uploadCount := h[0].uploadCount - 1)]))
  {
    var i := Find(st.mem, token);
    HeldFind(st.mem, token);
    if i < |st.mem| && st.mem[i].uploadCount > 0 {
      HeldUpdate(st.mem, i, st.mem[i].(uploadCount := st.mem[i].uploadCount - 1), token);
    }
  }

  // ---------------------------------------------------------------- the limits

  /** The record, if any, has the limits and has counted at least `d` downloads and `u` uploads. */
  predicate Counted(h: seq<Share>, limits: (nat, nat), d: nat, u: nat) {
    |h| <= 1 && (h != [] ==>
      && h[0].maxDownloads == limits.0 && h[0].maxUploads == limits.1
      && d <= h[0].downloadCount && u <= h[0].uploadCount)
  }

  /** In memory and on disk the counters cover what really happened, and the limits hold. */
  predicate Covered(r: Run, token: string, limits: (nat, nat)) {
    && Counted(Held(r.st.mem, token), limits, r.granted, r.landed + r.inFlight)
    && Counted(Held(r.st.disk, token), limits, r.granted, r.landed + r.inFlight)
    && (limits.0 > 0 ==> r.granted <= limits.0)
    && (limits.1 > 0 ==> r.landed + r.inFlight <= limits.1)
  }

  lemma OwnDownloadCovered(r: Run, token: string, limits: (nat, nat), op: Op)
    requires Covered(r, token, limits) && op.BeginDownload? && op.token == token
    ensures Covered(Next(r, token, Do(op)), token, limits)
  {
    OwnDownload(r.st, token, op.now, op.later, op.ok, op.ok2);
  }

  lemma OwnUploadCovered(r: Run, token: string, limits: (nat, nat), op: Op)
    requires Covered(r, token, limits) && op.BeginUpload? && op.token == token
    ensures Covered(Next(r, token, Do(op)), token, limits)
  {
    OwnUpload(r.st, token, op.now, op.later, op.ok);
  }

  lemma QuietCovered(r: Run, st: Store, token: string, limits: (nat, nat), stays: bool)
    requires Covered(r, token, limits) && Quiet(r.st, st, token, stays)
    ensures Covered(r.(st := st), token, limits)
  {
  }

  lemma DoCovered(r: Run, token: string, limits: (nat, nat), op: Op)
    requires Covered(r, token, limits) && Legit(Do(op), token)
    ensures Covered(Next(r, token, Do(op)), token, limits)
  {
    if op.Restart? {
    } else if op.BeginDownload? && op.token == token {
      OwnDownloadCovered(r, token, limits, op);
    } else if op.BeginUpload? && op.token == token {
      OwnUploadCovered(r, token, limits, op);
    } else {
      OtherQuiet(r.st, token, op);
      QuietCovered(r, Step(r.st, op).0, token, limits, Stays(r.st, token, op));
    }
  }

  lemma StepCovered(r: Run, token: string, limits: (nat, nat), ev: Event)
    requires Covered(r, token, limits) && Legit(ev, token)
    ensures Covered(Next(r, token, ev), token, limits)
  {
    match ev {
      case Land =>
      case GiveUp(ok) => OwnUndo(r.st, token, ok);
      case Do(op) => DoCovered(r, token, limits, op);
    }
  }

  lemma {:induction false} PlayCovered(r: Run, token: string, limits: (nat, nat), evs: seq<Event>)
    requires Covered(r, token, limits) && AllLegit(evs, token)
    ensures Covered(Play(r, token, evs), token, limits)
    decreases |evs|
  {
    if evs != [] {
      StepCovered(r, token, limits, evs[0]);
      PlayCovered(Next(r, token, evs[0]), token, limits, evs[1..]);
    }
  }

  /** A share entering the store for the first time. */
  function Created(st: Store, sh: Share, now: int, ok: bool): Run {
    Run(AppendSpec(st, sh, now, ok), 0, 0, 0)
  }

  lemma CreatedHeld(st: Store, sh: Share, now: int, ok: bool)
    requires Absent(st.mem, sh.token) && Absent(st.disk, sh.token)
    ensures Held(Created(st, sh, now, ok).st.mem, sh.token) == [sh]
    ensures Held(Created(st, sh, now, ok).st.disk, sh.token) == if ok then [sh] else []
  {
    PruneHeld(st, now, sh.token);
    HeldConcat(Prune(st.mem, now), [sh], sh.token);
    HeldOne(sh, sh.token);
  }

  /** From its creation on, whatever happens: at most `maxDownloads` downloads are granted, and
      at most `maxUploads` files land or are being written. */
  lemma QuotasHold(st: Store, sh: Share, now: int, ok: bool, evs: seq<Event>)
    requires Absent(st.mem, sh.token) && Absent(st.disk, sh.token)
    requires AllLegit(evs, sh.token)
    ensures var r := Play(Created(st, sh, now, ok), sh.token, evs);
            && (sh.maxDownloads > 0 ==> r.granted <= sh.maxDownloads)
            && (sh.maxUploads > 0 ==> r.landed + r.inFlight <= sh.maxUploads)
  {
    CreatedHeld(st, sh, now, ok);
    PlayCovered(Created(st, sh, now, ok), sh.token, (sh.maxDownloads, sh.maxUploads), evs);
  }

  // ---------------------------------------------------------------- exactly min(k, attempts)

  predicate IsAttempt(ev: Event, token: string) {
    ev.Do? && ev.op.BeginDownload? && ev.op.token == token
  }

  function Attempts(evs: seq<Event>, token: string): nat {
    if evs == [] then 0 else (if IsAttempt(evs[0], token) then 1 else 0) + Attempts(evs[1..], token)
  }

  /** No event of the run ends the share, and no grant of it fails to save. */
  predicate AllUndisturbed(r: Run, token: string, evs: seq<Event>)
    decreases |evs|
  {
    evs == [] ||
    (&& Legit(evs[0], token)
     && (evs[0].Do? && Held(r.st.mem, token) != [] ==> Undisturbed(Held(r.st.mem, token)[0], evs[0].op))
     && (IsAttempt(evs[0], token) ==> evs[0].op.ok)
     && AllUndisturbed(Next(r, token, evs[0]), token, evs[1..]))
  }

  /** While downloads remain, the link share is in memory and on disk with its exact count. */
  predicate Exact(h: seq<Share>, k: nat, d: nat) {
    d < k ==> |h| == 1 && Open(h[0]) && h[0].downloadCount == d && h[0].maxDownloads == k
  }

  predicate Ready(r: Run, token: string, k: nat) {
    Exact(Held(r.st.mem, token), k, r.granted) && Exact(Held(r.st.disk, token), k, r.granted)
  }

  lemma StepReady(r: Run, token: string, limits: (nat, nat), ev: Event)
    requires Covered(r, token, limits) && Ready(r, token, limits.0) && ValidShareToken(token) && limits.0 > 0
    requires AllUndisturbed(r, token, [ev])
    ensures var r' := Next(r, token, ev);
            && Ready(r', token, limits.0)
            && r'.granted == r.granted + (if IsAttempt(ev, token) && r.granted < limits.0 then 1 else 0)
  {
    match ev {
      case Land =>
      case GiveUp(ok) => OwnUndo(r.st, token, ok);
      case Do(op) =>
        if op.Restart? {
        } else if op.BeginDownload? && op.token == token {
          OwnDownload(r.st, token, op.now, op.later, op.ok, op.ok2);
        } else if op.BeginUpload? && op.token == token {
          OwnUpload(r.st, token, op.now, op.later, op.ok);
        } else {
          OtherQuiet(r.st, token, op);
        }
    }
  }

  lemma {:induction false} PlayReady(r: Run, token: string, limits: (nat, nat), evs: seq<Event>)
    requires Covered(r, token, limits) && Ready(r, token, limits.0) && ValidShareToken(token) && limits.0 > 0
    requires AllUndisturbed(r, token, evs)
    ensures var total := r.granted + Attempts(evs, token);
            Play(r, token, evs).granted == if total < limits.0 then total else limits.0
    decreases |evs|
  {
    if evs != [] {
      assert [evs[0]][1..] == [];
      StepCovered(r, token, limits, evs[0]);
      StepReady(r, token, limits, evs[0]);
      PlayReady(Next(r, token, evs[0]), token, limits, evs[1..]);
    }
  }

  /** Undisturbed, a link share with `maxDownloads` = k grants exactly min(k, attempts) downloads. */
  lemma DownloadsExactly(st: Store, sh: Share, now: int, evs: seq<Event>)
    requires Absent(st.mem, sh.token) && Absent(st.disk, sh.token) && ValidShareToken(sh.token)
    requires !sh.drop && sh.maxDownloads > 0 && sh.downloadCount == 0
    requires AllUndisturbed(Created(st, sh, now, true), sh.token, evs)
    ensures var n := Attempts(evs, sh.token);
            Play(Created(st, sh, now, true), sh.token, evs).granted
            == if n < sh.maxDownloads then n else sh.maxDownloads
  {
    CreatedHeld(st, sh, now, true);
    PlayReady(Created(st, sh, now, true), sh.token, (sh.maxDownloads, sh.maxUploads), evs);
  }
}
