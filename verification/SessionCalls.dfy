/** session.go: what the calls that change the session table achieve while other threads run. Sessions says what
    no interleaving can break; here each call does what it is asked, returns when it is let run, and a removal
    that has returned is final. */
module SessionCalls {
  import opened Sessions

  // ---------------------------------------------------------------- names

  /** The same letter, up to ASCII case. */
  predicate SameLetter(a: char, b: char) {
    || a == b
    || ('A' <= a <= 'Z' && 'a' <= b <= 'z' && b as int - a as int == 32)
    || ('A' <= b <= 'Z' && 'a' <= a <= 'z' && a as int - b as int == 32)
  }

  lemma EqualFoldMeaning(a: string, b: string)
    ensures EqualFold(a, b) <==> |a| == |b| && forall i :: 0 <= i < |a| ==> SameLetter(a[i], b[i])
  {
    if EqualFold(a, b) {
      assert |a| == |Fold(a)| == |Fold(b)| == |b|;
      forall i | 0 <= i < |a| ensures SameLetter(a[i], b[i]) {
        assert Fold(a)[i] == Lower(a[i]) && Fold(b)[i] == Lower(b[i]);
      }
    }
    if |a| == |b| && forall i :: 0 <= i < |a| ==> SameLetter(a[i], b[i]) {
      assert Fold(a) == Fold(b);
    }
  }

  // ---------------------------------------------------------------- the critical section

  /** The sessions that a call is asked to remove. */
  predicate Named(s: State, call: Call, at: int, id: string) {
    id in s.mem &&
    match call
    case Create(_, _) => false
    case Destroy(x) => id == x
    case DestroyUser(name) => EqualFold(s.mem[id].username, name)
    case Reap => at > s.mem[id].expiresAt
  }

  /** `create` adds its session and nothing else; `destroy` removes the session of that id, expired or not;
      `destroyByUsername` every session of the name up to case; `reap` exactly the expired ones. A call goes on
      to persist exactly when it changed the table. */
  lemma CallExactly(s: State, t: Tid, call: Call, at: int)
    requires Legal(s, Begin(t, call, at))
    ensures var s' := BeginStep(s, t, call, at);
            && (call.Create? ==> s'.mem == s.mem[call.id := call.session] && call.id !in s.born
                                 && s'.pcs == s.pcs[t := Dirty({call.id}, {})])
            && (!call.Create? ==>
                  && (forall id :: id in s'.mem <==> id in s.mem && !Named(s, call, at, id))
                  && (forall id :: id in s'.mem ==> s'.mem[id] == s.mem[id])
                  && (t in s'.pcs <==> exists id :: Named(s, call, at, id))
                  && (t in s'.pcs ==> s'.pcs[t].Dirty? && s'.pcs[t].adds == {}
                                      && forall id :: id in s'.pcs[t].dels <==> Named(s, call, at, id)))
            && s'.file == s.file && s'.owner == s.owner && s'.pcs - {t} == s.pcs
  {
    var dels := Doomed(s.mem, call, at);
    forall id ensures id in dels <==> Named(s, call, at, id) {
    }
    if dels != {} {
      var id :| id in dels;
      assert Named(s, call, at, id);
    }
  }

  /** A restart has in memory exactly what the file holds with id, name and role and unexpired, and forgets every
      thread and the holder of the mutex; the clock goes on in every step. */
  lemma RestartExactly(s: State, at: int, e: Event)
    requires Legal(s, e)
    ensures var s' := CrashStep(s, at);
            && (forall id :: id in s'.mem <==>
                  && id in s.file && id != "" && s.file[id].username != "" && s.file[id].role != ""
                  && at <= s.file[id].expiresAt)
            && (forall id :: id in s'.mem ==> s'.mem[id] == s.file[id])
            && s'.file == s.file && s'.owner.None? && s'.pcs == map[]
    ensures Sessions.Step(s, e).now == e.at
  {
  }

  // ---------------------------------------------------------------- persisting

  ghost function Alone(s: State, t: Tid, n: nat, at: int): State
    requires at >= s.now
    decreases n
  {
    if n == 0 || t !in s.pcs then s else Alone(GoStep(s, t, at), t, n - 1, at)
  }

  /** A call that finds `persistMu` free and is let run writes the table as it is then, without what has expired;
      it returns, the mutex is free again, and its changes count as made. */
  lemma PersistReturns(s: State, t: Tid, at: int)
    requires at >= s.now && t in s.pcs && s.pcs[t].Dirty? && s.owner.None?
    ensures var s' := Alone(s, t, 4, at);
            && s'.mem == s.mem && s'.owner.None? && s'.pcs == s.pcs - {t}
            && (forall id :: id in s'.file <==> id in s.mem && at <= s.mem[id].expiresAt)
            && (forall id :: id in s'.file ==> s'.file[id] == s.mem[id])
            && s'.created == s.created + s.pcs[t].adds && s'.gone == s.gone + s.pcs[t].dels
            && s'.born == s.born && s'.asked == s.asked
  {
    var s1 := GoStep(s, t, at);
    var s2 := GoStep(s1, t, at);
    var s3 := GoStep(s2, t, at);
    var s4 := GoStep(s3, t, at);
    assert s2.pcs[t].snap == Snapshot(s.mem, at);
    assert Alone(s4, t, 0, at) == s4;
    assert Alone(s3, t, 1, at) == s4;
    assert Alone(s2, t, 2, at) == s4;
    assert Alone(s1, t, 3, at) == s4;
    assert s4.pcs == s.pcs - {t};
  }

  // ---------------------------------------------------------------- a call that has returned

  predicate NoCrash(evs: seq<Event>) {
    forall i :: 0 <= i < |evs| ==> !evs[i].Crash?
  }

  /** The call has returned, or its thread is still in `persist`. */
  predicate ReturnedOrPending(s: State, t: Tid, adds: set<string>, dels: set<string>) {
    || (adds <= s.created && dels <= s.gone)
    || (t in s.pcs && s.pcs[t].adds == adds && s.pcs[t].dels == dels)
  }

  lemma PendingStep(s: State, e: Event, t: Tid, adds: set<string>, dels: set<string>)
    requires Legal(s, e) && !e.Crash? && ReturnedOrPending(s, t, adds, dels)
    ensures ReturnedOrPending(Step(s, e), t, adds, dels)
  {
    hide Doomed, Snapshot, Loadable;
  }

  lemma {:induction false} PendingRun(s: State, evs: seq<Event>, t: Tid, adds: set<string>, dels: set<string>)
    requires LegalRun(s, evs) && NoCrash(evs) && ReturnedOrPending(s, t, adds, dels)
    ensures ReturnedOrPending(Run(s, evs), t, adds, dels)
    decreases |evs|
  {
    hide Step, ReturnedOrPending;
    if evs != [] {
      PendingStep(s, evs[0], t, adds, dels);
      PendingRun(Step(s, evs[0]), evs[1..], t, adds, dels);
    }
  }

  lemma {:induction false} GoneStays(s: State, evs: seq<Event>, id: string)
    requires LegalRun(s, evs)
    ensures id in s.gone ==> id in Run(s, evs).gone
    ensures id in s.created ==> id in Run(s, evs).created
    decreases |evs|
  {
    hide Doomed, Snapshot, Loaded;
    if evs != [] {
      GoneStays(Step(s, evs[0]), evs[1..], id);
    }
  }

  /** Once a removal has returned, the session is in no later table and no later file, whatever happens, crashes
      included; so no restart brings it back. */
  lemma GoneForGood(s: State, evs: seq<Event>, id: string, at: int)
    requires Inv(s) && LegalRun(s, evs) && id in s.gone
    ensures var s' := Run(s, evs); id !in s'.mem && id !in s'.file && id !in Loaded(s'.file, at)
  {
    RunKeeps(s, evs);
    GoneStays(s, evs, id);
  }

  /** Logging out, a change of password and reaping: in every later state without a crash in between, either
      the call is still in `persist`, or every session that it was asked to remove is gone for good. */
  lemma RemovalReturns(s: State, t: Tid, call: Call, at: int, evs: seq<Event>, id: string)
    requires Inv(s) && Legal(s, Begin(t, call, at)) && Named(s, call, at, id)
    requires LegalRun(BeginStep(s, t, call, at), evs) && NoCrash(evs)
    ensures var s' := Run(BeginStep(s, t, call, at), evs);
            && id !in s'.mem
            && (id in s'.gone || (t in s'.pcs && id in s'.pcs[t].dels))
  {
    CallExactly(s, t, call, at);
    hide Inv, Legal, BeginStep, LegalRun;
    var s1 := BeginStep(s, t, call, at);
    assert t in s1.pcs;
    BeginKeeps(s, t, call, at);
    RunKeeps(s1, evs);
    PendingRun(s1, evs, t, s1.pcs[t].adds, s1.pcs[t].dels);
    InvMem(Run(s1, evs), t, id);
  }

  lemma InvMem(s: State, t: Tid, id: string)
    requires Inv(s)
    ensures id in s.gone ==> id !in s.mem
    ensures t in s.pcs && id in s.pcs[t].dels ==> id !in s.mem
  {
    if t in s.pcs {
      ThreadAt(s, t);
    }
  }

  /** Signing in: in every later state without a crash in between, either the call is still in `persist`, or the
      session counts as created, and RestartYields speaks of it. */
  lemma CreationReturns(s: State, t: Tid, id: string, session: Session, at: int, evs: seq<Event>)
    requires Inv(s) && Legal(s, Begin(t, Create(id, session), at))
    requires LegalRun(BeginStep(s, t, Create(id, session), at), evs) && NoCrash(evs)
    ensures var s' := Run(BeginStep(s, t, Create(id, session), at), evs);
            id in s'.created || (t in s'.pcs && id in s'.pcs[t].adds)
  {
    CallExactly(s, t, Create(id, session), at);
    hide Inv, Legal, BeginStep, LegalRun;
    var s1 := BeginStep(s, t, Create(id, session), at);
    PendingRun(s1, evs, t, s1.pcs[t].adds, s1.pcs[t].dels);
  }
}
