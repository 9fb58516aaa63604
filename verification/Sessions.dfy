/** session.go: the session table and its file. Any number of threads mutate the table under `mu` and
    then rewrite the file in `persist`, which takes `persistMu`, snapshots the table under `mu`, and
    writes. Writes succeed; the process may crash at any step. */
module Sessions {
  import opened Shares  // Option, HOUR

  const SESSION_TTL := 7 * 24 * HOUR

  type Tid = nat

  datatype Session = Session(username: string, role: string, expiresAt: int)

  type Table = map<string, Session>

  function Lower(c: char): char {
    if 'A' <= c <= 'Z' then (c as int - 'A' as int + 'a' as int) as char else c
  }

  function Fold(s: string): string {
    seq(|s|, i requires 0 <= i < |s| => Lower(s[i]))
  }

  /** `strings.EqualFold` on ASCII names. */
  predicate EqualFold(a: string, b: string) {
    Fold(a) == Fold(b)
  }

  predicate Lapsed(s: Session, now: int) {
    now > s.expiresAt
  }

  /** What `persist` writes of the table. */
  function Snapshot(t: Table, now: int): Table {
    map id | id in t && !Lapsed(t[id], now) :: t[id]
  }

  predicate Loadable(id: string, s: Session) {
    id != "" && s.username != "" && s.role != ""
  }

  /** `load`. */
  function Loaded(file: Table, now: int): Table {
    map id | id in file && Loadable(id, file[id]) && !Lapsed(file[id], now) :: file[id]
  }

  datatype Call = Create(id: string, session: Session) | Destroy(id: string) | DestroyUser(name: string) | Reap

  /** The entries a call removes. */
  function Doomed(t: Table, call: Call, now: int): set<string> {
    match call
    case Create(_, _) => {}
    case Destroy(id) => set x | x in t && x == id
    case DestroyUser(name) => set x | x in t && EqualFold(t[x].username, name)
    case Reap => set x | x in t && Lapsed(t[x], now)
  }

  /** Where a thread is in `persist`; `adds` and `dels` are what its call changed in the table. */
  datatype Pc =
    | Dirty(adds: set<string>, dels: set<string>)
    | Holding(adds: set<string>, dels: set<string>)
    | Snapped(adds: set<string>, dels: set<string>, snap: Table)
    | Written(adds: set<string>, dels: set<string>)

  /** The table, the file, the holder of `persistMu`, the threads inside a mutating call; and the history:
      every session ever created, the ids whose creation or removal has returned to its caller, the ids
      somebody asked to remove. */
  datatype State = State(
    mem: Table, file: Table, owner: Option<Tid>, pcs: map<Tid, Pc>, now: int,
    born: Table, created: set<string>, asked: set<string>, gone: set<string>)

  datatype Event = Begin(t: Tid, call: Call, at: int) | Go(t: Tid, at: int) | Crash(at: int)

  const START := State(map[], map[], None, map[], 0, map[], {}, {}, {})

  /** Tokens are fresh and non-empty, sessions carry a name and a role, and time does not run backwards. */
  predicate Legal(s: State, e: Event) {
    && e.at >= s.now
    && (e.Begin? ==> e.t !in s.pcs)
    && (e.Begin? && e.call.Create? ==> e.call.id !in s.born && Loadable(e.call.id, e.call.session))
    && (e.Go? ==> e.t in s.pcs)
  }

  // ---------------------------------------------------------------- the steps

  /** The critical section under `mu`. A call that changes nothing returns without persisting. */
  function BeginStep(s: State, t: Tid, call: Call, at: int): State {
    var dels := Doomed(s.mem, call, at);
    var asked := if call.Reap? then s.asked else s.asked + dels;
    if call.Create? then
      s.(mem := s.mem[call.id := call.session], born := s.born[call.id := call.session], now := at,
         pcs := s.pcs[t := Dirty({call.id}, {})])
    else if dels == {} then s.(now := at)
    else s.(mem := s.mem - dels, asked := asked, now := at, pcs := s.pcs[t := Dirty({}, dels)])
  }

  function GoStep(s: State, t: Tid, at: int): State
    requires t in s.pcs
  {
    match s.pcs[t]
    case Dirty(adds, dels) =>
      if s.owner.Some? then s.(now := at)
      else s.(owner := Some(t), pcs := s.pcs[t := Holding(adds, dels)], now := at)
    case Holding(adds, dels) => s.(pcs := s.pcs[t := Snapped(adds, dels, Snapshot(s.mem, at))], now := at)
    case Snapped(adds, dels, snap) => s.(file := snap, pcs := s.pcs[t := Written(adds, dels)], now := at)
    case Written(adds, dels) =>
      s.(owner := None, pcs := s.pcs - {t}, created := s.created + adds, gone := s.gone + dels, now := at)
  }

  /** A crash forgets the table and the threads; the next process loads the file. */
  function CrashStep(s: State, at: int): State {
    s.(mem := Loaded(s.file, at), owner := None, pcs := map[], now := at)
  }

  function Step(s: State, e: Event): State
    requires Legal(s, e)
  {
    match e
    case Begin(t, call, at) => BeginStep(s, t, call, at)
    case Go(t, at) => GoStep(s, t, at)
    case Crash(at) => CrashStep(s, at)
  }

  // ---------------------------------------------------------------- the invariant

  /** Every entry is as it was created. */
  predicate FromBorn(s: State, t: Table) {
    forall id :: id in t ==> id in s.born && t[id] == s.born[id]
  }

  /** A created session that nobody asked to remove and that has not expired. */
  predicate Wanted(s: State, id: string) {
    id in s.born && id !in s.asked && !Lapsed(s.born[id], s.now)
  }

  predicate Holds(s: State, ids: set<string>, t: Table) {
    forall id :: id in ids && Wanted(s, id) ==> id in t
  }

  predicate InPersist(pc: Pc) {
    !pc.Dirty?
  }

  ghost predicate ThreadOk(s: State, t: Tid)
    requires t in s.pcs
  {
    var pc := s.pcs[t];
    && pc.adds <= s.born.Keys && pc.dels <= s.born.Keys
    && Holds(s, pc.adds, s.mem) && pc.dels !! s.mem.Keys
    && (InPersist(pc) ==> s.owner == Some(t))
    && (pc.Snapped? ==>
          FromBorn(s, pc.snap) && Holds(s, pc.adds + s.created, pc.snap) && (pc.dels + s.gone) !! pc.snap.Keys)
    && (pc.Written? ==> Holds(s, pc.adds, s.file) && pc.dels !! s.file.Keys)
  }

  /** What holds of the table and the file whatever the threads are doing. */
  ghost predicate TablesOk(s: State) {
    && FromBorn(s, s.mem) && FromBorn(s, s.file)
    && (forall id :: id in s.born ==> Loadable(id, s.born[id]))
    && s.created <= s.born.Keys && s.gone <= s.born.Keys
    && Holds(s, s.created, s.mem) && Holds(s, s.created, s.file)
    && s.gone !! s.mem.Keys && s.gone !! s.file.Keys
  }

  ghost predicate Inv(s: State) {
    TablesOk(s) && forall t :: t in s.pcs ==> ThreadOk(s, t)
  }

  /** What is wanted later is wanted now. */
  lemma WantedEarlier(s: State, s': State, ids: set<string>, t: Table)
    requires s'.born == s.born && s'.asked == s.asked && s.now <= s'.now && Holds(s, ids, t)
    ensures Holds(s', ids, t)
  {
  }

  lemma ThreadAt(s: State, t: Tid)
    requires Inv(s) && t in s.pcs
    ensures ThreadOk(s, t) && TablesOk(s)
  {
  }

  lemma CreateTables(s: State, t: Tid, call: Call, at: int)
    requires Inv(s) && Legal(s, Begin(t, call, at)) && call.Create?
    ensures TablesOk(BeginStep(s, t, call, at))
  {
    hide ThreadOk, Loadable, InPersist, Lapsed;
    LapsesLater(s.now, at);
    assert call.id !in s.born && Loadable(call.id, call.session);
  }

  lemma LapsesLater(now: int, at: int)
    requires now <= at
    ensures forall x: Session :: Lapsed(x, now) ==> Lapsed(x, at)
  {
  }

  /** What a call removes is asked for or expired, so it is not wanted any more. */
  lemma DoomedUnwanted(s: State, t: Tid, call: Call, at: int, id: string)
    requires FromBorn(s, s.mem) && id in Doomed(s.mem, call, at)
    ensures !Wanted(BeginStep(s, t, call, at), id)
  {
    assert call.Reap? ==> Lapsed(s.mem[id], at);
  }

  lemma RemoveTables(s: State, t: Tid, call: Call, at: int)
    requires Inv(s) && Legal(s, Begin(t, call, at)) && !call.Create?
    ensures TablesOk(BeginStep(s, t, call, at))
  {
    var s' := BeginStep(s, t, call, at);
    forall id | id in Doomed(s.mem, call, at) ensures !Wanted(s', id) {
      DoomedUnwanted(s, t, call, at, id);
    }
    LapsesLater(s.now, at);
    hide ThreadOk, Loadable, InPersist, Lapsed, Doomed;
  }

  lemma BeginTables(s: State, t: Tid, call: Call, at: int)
    requires Inv(s) && Legal(s, Begin(t, call, at))
    ensures TablesOk(BeginStep(s, t, call, at))
  {
    hide Inv, Legal, TablesOk, BeginStep;
    if call.Create? {
      CreateTables(s, t, call, at);
    } else {
      RemoveTables(s, t, call, at);
    }
  }

  /** Whatever a call does to the table, a set of sessions that it holds stays there while wanted. */
  lemma HeldAfterBegin(s: State, t: Tid, call: Call, at: int, ids: set<string>)
    requires Inv(s) && Legal(s, Begin(t, call, at)) && ids <= s.born.Keys && Holds(s, ids, s.mem)
    ensures var s' := BeginStep(s, t, call, at); Holds(s', ids, s'.mem)
  {
    var s' := BeginStep(s, t, call, at);
    forall id | id in Doomed(s.mem, call, at) ensures !Wanted(s', id) {
      DoomedUnwanted(s, t, call, at, id);
    }
    LapsesLater(s.now, at);
    hide ThreadOk, Loadable, InPersist, Lapsed, Doomed;
  }

  lemma OlderTable(s: State, t: Tid, call: Call, at: int, ids: set<string>, table: Table)
    requires Legal(s, Begin(t, call, at)) && ids <= s.born.Keys && Holds(s, ids, table)
    ensures Holds(BeginStep(s, t, call, at), ids, table)
  {
    LapsesLater(s.now, at);
    hide Lapsed, Doomed;
  }

  /** What the critical section of a call leaves alone. */
  lemma BeginFrame(s: State, t: Tid, call: Call, at: int)
    requires Inv(s) && Legal(s, Begin(t, call, at))
    ensures var s' := BeginStep(s, t, call, at);
            && s'.owner == s.owner && s'.file == s.file && s'.created == s.created && s'.gone == s.gone
            && s.born.Keys <= s'.born.Keys
            && (forall u :: u in s.pcs ==> u in s'.pcs && s'.pcs[u] == s.pcs[u])
            && forall id :: id in s'.mem ==> id in s.mem || id !in s.born
  {
    hide ThreadOk, TablesOk, Doomed, Loadable;
  }

  lemma BornLater(s: State, t: Tid, call: Call, at: int, table: Table)
    requires Legal(s, Begin(t, call, at)) && FromBorn(s, table)
    ensures FromBorn(BeginStep(s, t, call, at), table)
  {
    hide Doomed, Loadable;
  }

  lemma OthersAfterBegin(s: State, t: Tid, call: Call, at: int, u: Tid)
    requires Inv(s) && Legal(s, Begin(t, call, at)) && u in s.pcs
    ensures var s' := BeginStep(s, t, call, at); u in s'.pcs && ThreadOk(s', u)
  {
    hide Inv, Holds, BeginStep, FromBorn, Loadable;
    ThreadAt(s, u);
    BeginFrame(s, t, call, at);
    var pc := s.pcs[u];
    HeldAfterBegin(s, t, call, at, pc.adds);
    if pc.Snapped? {
      BornLater(s, t, call, at, pc.snap);
      OlderTable(s, t, call, at, pc.adds + s.created, pc.snap);
    } else if pc.Written? {
      OlderTable(s, t, call, at, pc.adds, s.file);
    }
  }

  lemma BeginSelf(s: State, t: Tid, call: Call, at: int)
    requires Inv(s) && Legal(s, Begin(t, call, at))
    ensures var s' := BeginStep(s, t, call, at); t in s'.pcs ==> ThreadOk(s', t)
  {
  }

  lemma BeginKeeps(s: State, t: Tid, call: Call, at: int)
    requires Inv(s) && Legal(s, Begin(t, call, at))
    ensures Inv(BeginStep(s, t, call, at))
  {
    var s' := BeginStep(s, t, call, at);
    BeginTables(s, t, call, at);
    BeginSelf(s, t, call, at);
    hide ThreadOk, TablesOk;
    forall u | u in s'.pcs ensures ThreadOk(s', u) {
      if u != t {
        OthersAfterBegin(s, t, call, at, u);
      }
    }
  }

  lemma OthersAfterGo(s: State, t: Tid, at: int, u: Tid)
    requires Inv(s) && Legal(s, Go(t, at)) && u in s.pcs && u != t
    ensures var s' := GoStep(s, t, at); u in s'.pcs && ThreadOk(s', u)
  {
    ThreadAt(s, t);
    ThreadAt(s, u);
    hide Inv, Holds, Snapshot;
    var s', pc := GoStep(s, t, at), s.pcs[u];
    WantedEarlier(s, s', pc.adds, s.mem);
    if pc.Snapped? {
      WantedEarlier(s, s', pc.adds + s.created, pc.snap);
    } else if pc.Written? {
      WantedEarlier(s, s', pc.adds, s.file);
    }
  }

  lemma GoSelf(s: State, t: Tid, at: int)
    requires Inv(s) && Legal(s, Go(t, at))
    ensures var s' := GoStep(s, t, at); t in s'.pcs ==> ThreadOk(s', t)
  {
    assert ThreadOk(s, t);
    hide Loadable;
    if s.pcs[t].Holding? {
      SnapshotOk(s, at);
    }
  }

  /** A snapshot taken now is of created sessions, with every one that is wanted and none that was removed. */
  lemma SnapshotOk(s: State, at: int)
    requires TablesOk(s)
    ensures var snap, s' := Snapshot(s.mem, at), s.(now := at);
            && FromBorn(s, snap) && snap.Keys <= s.mem.Keys
            && forall id :: id in s.mem && Wanted(s', id) ==> id in snap
  {
  }

  /** What a thread is about to write, or has written, is a complete table for its own call as well. */
  lemma ThreadTables(s: State, t: Tid)
    requires Inv(s) && t in s.pcs
    ensures var pc := s.pcs[t];
            && pc.adds <= s.born.Keys && pc.dels <= s.born.Keys
            && (pc.Snapped? ==> FromBorn(s, pc.snap) && Holds(s, s.created, pc.snap) && s.gone !! pc.snap.Keys)
            && (pc.Written? ==>
                  && Holds(s, s.created + pc.adds, s.mem) && Holds(s, s.created + pc.adds, s.file)
                  && (s.gone + pc.dels) !! s.mem.Keys && (s.gone + pc.dels) !! s.file.Keys)
  {
    ThreadAt(s, t);
    hide Inv, Wanted, Loadable;
  }

  lemma GoTables(s: State, t: Tid, at: int)
    requires Inv(s) && Legal(s, Go(t, at))
    ensures TablesOk(GoStep(s, t, at))
  {
    hide ThreadOk, Holds, Loadable, Snapshot, InPersist;
    ThreadTables(s, t);
    var s' := GoStep(s, t, at);
    var pc, created := s.pcs[t], s'.created;
    WantedEarlier(s, s', s.created, s.mem);
    WantedEarlier(s, s', s.created, s.file);
    if pc.Snapped? {
      WantedEarlier(s, s', s.created, pc.snap);
    } else if pc.Written? {
      WantedEarlier(s, s', created, s.mem);
      WantedEarlier(s, s', created, s.file);
    }
  }

  lemma GoKeeps(s: State, t: Tid, at: int)
    requires Inv(s) && Legal(s, Go(t, at))
    ensures Inv(GoStep(s, t, at))
  {
    var s' := GoStep(s, t, at);
    GoTables(s, t, at);
    GoSelf(s, t, at);
    hide ThreadOk, TablesOk;
    forall u | u in s'.pcs ensures ThreadOk(s', u) {
      if u != t {
        OthersAfterGo(s, t, at, u);
      }
    }
  }

  lemma CrashKeeps(s: State, at: int)
    requires Inv(s) && at >= s.now
    ensures Inv(CrashStep(s, at))
  {
  }

  predicate LegalRun(s: State, evs: seq<Event>)
    decreases |evs|
  {
    evs == [] || (Legal(s, evs[0]) && LegalRun(Step(s, evs[0]), evs[1..]))
  }

  function Run(s: State, evs: seq<Event>): State
    requires LegalRun(s, evs)
    decreases |evs|
  {
    if evs == [] then s else Run(Step(s, evs[0]), evs[1..])
  }

  lemma {:induction false} RunKeeps(s: State, evs: seq<Event>)
    requires Inv(s) && LegalRun(s, evs)
    ensures Inv(Run(s, evs))
    decreases |evs|
  {
    hide Inv;
    if evs != [] {
      match evs[0] {
        case Begin(t, call, at) => BeginKeeps(s, t, call, at);
        case Go(t, at) => GoKeeps(s, t, at);
        case Crash(at) => CrashKeeps(s, at);
      }
      RunKeeps(Step(s, evs[0]), evs[1..]);
    }
  }

  /** In every interleaving of any number of callers, with crashes anywhere: a restart yields every
      session whose creation returned, that nobody asked to remove and that has not expired; it yields
      none whose removal returned; and what it yields was created, with exactly that name, role and
      expiry. */
  lemma RestartYields(evs: seq<Event>, at: int, id: string)
    requires LegalRun(START, evs) && at >= Run(START, evs).now
    ensures var s := Run(START, evs);
            var t := Loaded(s.file, at);
            && (id in s.created && id !in s.asked ==> id in s.born && (!Lapsed(s.born[id], at) ==> id in t))
            && (id in s.gone ==> id !in t)
            && (id in t ==> id in s.born && t[id] == s.born[id])
  {
    assert Inv(START);
    RunKeeps(START, evs);
  }
}
