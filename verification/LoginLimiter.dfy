/** session.go: the lockout after failed logins, for one client address. Times are nanoseconds. */
module LoginLimiter {
  import opened Shares  // Option

  const MINUTE := 60_000_000_000
  const MAX_FAILURES := 5
  const LOCK := MINUTE

  /** A missing map entry and Go's zero value read the same. */
  datatype Attempt = Attempt(count: nat, lockedUntil: Option<int>, lastFail: Option<int>)

  const FRESH := Attempt(0, None, None)

  /** `allowLogin` for one entry, which reads the clock for each of its two tests. */
  function Allow(a: Attempt, now: int, later: int): (Attempt, bool) {
    if a.lockedUntil.Some? && now < a.lockedUntil.value then (a, false)
    else if a.lockedUntil.Some? && later > a.lockedUntil.value then (FRESH, true)
    else (a, true)
  }

  /** `recordFailure`, which reads the clock once or twice. */
  function Fail(a: Attempt, now: int, later: int): Attempt {
    if a.count + 1 >= MAX_FAILURES then Attempt(0, Some(later + LOCK), Some(now))
    else Attempt(a.count + 1, a.lockedUntil, Some(now))
  }

  /** When `reap` drops an entry: after the later of the lock and one minute from the last failure. */
  predicate Stale(a: Attempt, now: int) {
    match (a.lastFail, a.lockedUntil)
    case (None, None) => true
    case (None, Some(l)) => now > l
    case (Some(f), None) => now > f + LOCK
    case (Some(f), Some(l)) => now > f + LOCK && now > l
  }

  function Reaped(a: Attempt, now: int): Attempt {
    if Stale(a, now) then FRESH else a
  }

  // ---------------------------------------------------------------- runs of one client

  /** The entry, whether an allowed attempt is under way, the times of all failures recorded so far, and
      the clock. */
  datatype State = State(a: Attempt, pending: bool, fails: seq<int>, now: int)

  datatype Event = Ask(t: int, later: int) | Miss(t: int, later: int) | Reap(t: int)

  const START := State(FRESH, false, [], 0)

  /** Time does not run backwards, and only an allowed attempt can fail. */
  predicate Legal(s: State, e: Event) {
    e.t >= s.now && (e.Miss? ==> s.pending) && (!e.Reap? ==> e.later >= e.t)
  }

  function Step(s: State, e: Event): State {
    match e
    case Ask(t, later) => var (a, ok) := Allow(s.a, t, later); State(a, ok, s.fails, later)
    case Miss(t, later) => State(Fail(s.a, t, later), false, s.fails + [t], later)
    case Reap(t) => State(Reaped(s.a, t), s.pending, s.fails, t)
  }

  predicate LegalRun(s: State, evs: seq<Event>)
    decreases |evs|
  {
    evs == [] || (Legal(s, evs[0]) && LegalRun(Step(s, evs[0]), evs[1..]))
  }

  function Run(s: State, evs: seq<Event>): State
    decreases |evs|
  {
    if evs == [] then s else Run(Step(s, evs[0]), evs[1..])
  }

  /** Both clock readings of the attempt give the very instant its lock ends. */
  predicate OnTheDot(s: State, e: Event) {
    e.Ask? && s.a.lockedUntil == Some(e.t) && e.later == e.t
  }

  predicate NeverOnTheDot(s: State, evs: seq<Event>)
    decreases |evs|
  {
    evs == [] || (!OnTheDot(s, evs[0]) && NeverOnTheDot(Step(s, evs[0]), evs[1..]))
  }

  /** Any window shorter than a minute holds at most five failures. */
  predicate FivePerMinute(fails: seq<int>) {
    forall i, j :: 0 <= i < j < |fails| && fails[j] - fails[i] < LOCK ==> j - i < MAX_FAILURES
  }

  predicate Ordered(fails: seq<int>, now: int) {
    && (forall i, j :: 0 <= i < j < |fails| ==> fails[i] <= fails[j])
    && (forall i :: 0 <= i < |fails| ==> fails[i] <= now)
  }

  /** An allowed attempt finds no lock. The last `count` failures are those the entry still counts; they come
      a minute or more after the ones before, and so will the next one if none is counted. */
  ghost predicate Inv(s: State) {
    var n, c := |s.fails|, s.a.count;
    && FivePerMinute(s.fails) && Ordered(s.fails, s.now)
    && c < MAX_FAILURES && c <= n
    && (s.pending ==> s.a.lockedUntil.None?)
    && (c > 0 ==> s.a.lockedUntil.None? && s.a.lastFail == Some(s.fails[n - 1]))
    && (0 < c < n ==> s.fails[n - c] >= s.fails[n - c - 1] + LOCK)
    && (c == 0 && n > 0 ==>
          || s.now >= s.fails[n - 1] + LOCK
          || (s.a.lockedUntil.Some? && s.a.lockedUntil.value >= s.fails[n - 1] + LOCK))
  }

  lemma AskKeeps(s: State, t: int, later: int)
    requires Inv(s) && Legal(s, Ask(t, later)) && !OnTheDot(s, Ask(t, later))
    ensures Inv(Step(s, Ask(t, later)))
  {
    hide FivePerMinute;
  }

  lemma ReapKeeps(s: State, t: int)
    requires Inv(s) && Legal(s, Reap(t))
    ensures Inv(Step(s, Reap(t)))
  {
    hide FivePerMinute;
  }

  lemma NewFailure(fails: seq<int>, c: nat, now: int, t: int)
    requires FivePerMinute(fails) && Ordered(fails, now) && t >= now && c < MAX_FAILURES && c <= |fails|
    requires 0 < c < |fails| ==> fails[|fails| - c] >= fails[|fails| - c - 1] + LOCK
    requires c == 0 && |fails| > 0 ==> t >= fails[|fails| - 1] + LOCK
    ensures FivePerMinute(fails + [t]) && Ordered(fails + [t], t)
  {
    var n := |fails|;
    var all := fails + [t];
    forall i, j | 0 <= i < j < |all| && j - i >= MAX_FAILURES ensures all[j] - all[i] >= LOCK {
      if j < n {
        assert all[j] == fails[j] && all[i] == fails[i];
      } else {
        assert fails[i] <= fails[n - c - 1];
      }
    }
  }

  lemma MissKeeps(s: State, t: int, later: int)
    requires Inv(s) && Legal(s, Miss(t, later))
    ensures Inv(Step(s, Miss(t, later)))
  {
    hide FivePerMinute;
    NewFailure(s.fails, s.a.count, s.now, t);
    var n, c, all := |s.fails|, s.a.count, s.fails + [t];
    assert all[n] == t && (0 < c < n ==> all[n - c] == s.fails[n - c] && all[n - c - 1] == s.fails[n - c - 1]);
    assert n > 0 ==> all[n - 1] == s.fails[n - 1];
  }

  lemma {:induction false} RunKeeps(s: State, evs: seq<Event>)
    requires Inv(s) && LegalRun(s, evs) && NeverOnTheDot(s, evs)
    ensures Inv(Run(s, evs))
    decreases |evs|
  {
    hide Inv, Legal, OnTheDot, Step;
    if evs != [] {
      match evs[0] {
        case Ask(t, later) => AskKeeps(s, t, later);
        case Miss(t, later) => MissKeeps(s, t, later);
        case Reap(t) => ReapKeeps(s, t);
      }
      RunKeeps(Step(s, evs[0]), evs[1..]);
    }
  }

  /** Whatever the reaper does and however attempts are timed, at most five failures fall into any window
      shorter than a minute, provided no attempt asks at the very instant a lock ends. */
  lemma FiveFailuresPerMinute(evs: seq<Event>)
    requires LegalRun(START, evs) && NeverOnTheDot(START, evs)
    ensures FivePerMinute(Run(START, evs).fails)
  {
    RunKeeps(START, evs);
  }

  /** Reaping forgets exactly the entries whose last failure is over a minute old and whose lock has ended. */
  lemma ReapedExactly(a: Attempt, now: int)
    ensures Reaped(a, now) == a || Reaped(a, now) == FRESH
    ensures a != FRESH ==>
              (Reaped(a, now) == FRESH
               <==> (a.lastFail.Some? ==> now - a.lastFail.value > 60_000_000_000)
                    && (a.lockedUntil.Some? ==> now > a.lockedUntil.value))
  {
  }

  /** A failed attempt of a client that is not locked, whenever the reaper comes by before the next one at
      `u`: the next one is refused exactly when the failure was the fifth that counts and `u` is less than a
      minute after it. */
  lemma RefusedExactly(s: State, t: int, later: int, r: int, u: int)
    requires Inv(s) && s.pending && s.now <= t <= later <= r <= u
    ensures var failed := Step(Step(s, Miss(t, later)), Reap(r));
            !Step(failed, Ask(u, u)).pending <==> s.a.count == 4 && u - later < 60_000_000_000
    ensures var after := Step(Step(s, Miss(t, later)), Reap(r)).a;
            after.count == (if s.a.count == 4 || r - t > 60_000_000_000 then 0 else s.a.count + 1)
  {
    hide FivePerMinute, Ordered;
  }

  /** A locked client after five failures. */
  predicate Locked(s: State) {
    s.a.lockedUntil.Some? && s.a.count == 0 && !s.pending && s.fails != [] && s.now <= s.a.lockedUntil.value
  }

  /** Every continuation that starts by asking at `t` and `later`, and never asks on the dot after that,
      keeps the limit. */
  ghost predicate SafeToAskAt(s: State, t: int, later: int) {
    forall evs: seq<Event> ::
      LegalRun(Step(s, Ask(t, later)), evs) && NeverOnTheDot(Step(s, Ask(t, later)), evs)
      ==> FivePerMinute(Run(Step(s, Ask(t, later)), evs).fails)
  }

  /** One failed attempt, asked for and recorded at `t`. */
  lemma FailedAttempt(s: State, t: int, rest: seq<Event>)
    requires s.now <= t && !OnTheDot(s, Ask(t, t)) && (s.a.lockedUntil.None? || s.a.lockedUntil.value < t)
    ensures var s' := Step(Step(s, Ask(t, t)), Miss(t, t));
            var evs := [Ask(t, t), Miss(t, t)] + rest;
            && (LegalRun(s', rest) ==> LegalRun(s, evs))
            && (NeverOnTheDot(s', rest) ==> NeverOnTheDot(s, evs))
            && Run(s, evs) == Run(s', rest)
  {
    var evs := [Ask(t, t), Miss(t, t)] + rest;
    assert evs[1..] == [Miss(t, t)] + rest && evs[1..][1..] == rest;
  }

  function Attempts(t: int, k: nat): seq<Event> {
    if k == 0 then [] else [Ask(t, t), Miss(t, t)] + Attempts(t, k - 1)
  }

  /** From an entry with `c` counted failures and no lock, up to the lock, every attempt is allowed. */
  lemma {:induction false} ManyAttempts(s: State, t: int, k: nat)
    requires s.now <= t && s.a.lockedUntil.None? && s.a.count + k <= MAX_FAILURES
    ensures LegalRun(s, Attempts(t, k)) && NeverOnTheDot(s, Attempts(t, k))
    ensures var fails := Run(s, Attempts(t, k)).fails; |fails| == |s.fails| + k && s.fails <= fails
    ensures k > 0 ==> var fails := Run(s, Attempts(t, k)).fails; fails[|fails| - 1] == t
    decreases k
  {
    if k > 0 {
      var s' := Step(Step(s, Ask(t, t)), Miss(t, t));
      FailedAttempt(s, t, Attempts(t, k - 1));
      if k == 1 {
        assert Attempts(t, 0) == [];
      } else {
        ManyAttempts(s', t, k - 1);
      }
    }
  }

  /** Asking exactly when the lock ends gets through without clearing the lock, the failure that follows
      is forgotten at the next attempt, and five more are let through at once: six in two nanoseconds. */
  lemma SixInAMoment(s: State, l: int)
    requires Locked(s) && s.a.lockedUntil == Some(l)
    ensures !SafeToAskAt(s, l, l)
  {
    var s1 := Step(s, Ask(l, l));
    var s2 := Step(s1, Miss(l, l));
    var t := l + 1;
    var s3 := Step(s2, Ask(t, t));
    var s4 := Step(s3, Miss(t, t));
    var evs4 := Attempts(t, 4);
    ManyAttempts(s4, t, 4);
    FailedAttempt(s2, t, evs4);
    var evs2 := [Ask(t, t), Miss(t, t)] + evs4;
    var evs := [Miss(l, l)] + evs2;
    assert evs[1..] == evs2;
    var fails := Run(s1, evs).fails;
    var n := |s.fails|;
    assert s4.fails == s.fails + [l] + [t];
    assert s4.fails <= fails && fails[n] == s4.fails[n] && fails[n + 5] == t;
    assert LegalRun(s1, evs) && NeverOnTheDot(s1, evs) && !FivePerMinute(fails);
  }

  /** For a locked client, asking can break the limit exactly when both clock readings give the instant
      the lock ends, the one case in which `allowLogin` neither refuses nor clears the entry. */
  lemma OnTheDotExactly(s: State, t: int, later: int)
    requires Inv(s) && Locked(s) && s.now <= t <= later
    ensures SafeToAskAt(s, t, later) <==> !(t == later && s.a.lockedUntil == Some(t))
  {
    if t == later && s.a.lockedUntil == Some(t) {
      SixInAMoment(s, t);
    } else {
      AskKeeps(s, t, later);
      forall evs: seq<Event> | LegalRun(Step(s, Ask(t, later)), evs) && NeverOnTheDot(Step(s, Ask(t, later)), evs)
        ensures FivePerMinute(Run(Step(s, Ask(t, later)), evs).fails)
      {
        RunKeeps(Step(s, Ask(t, later)), evs);
      }
    }
  }
}
