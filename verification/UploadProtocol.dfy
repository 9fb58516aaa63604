/** upload.go: any number of request threads working on one upload id, step by step between the
    acquisitions of `um.mu` and `sessMu` and the file operations, with process crashes in between.
    Expiry, abort and reaping do not happen, and nobody else touches the destination. */
module UploadProtocol {
  import opened FileSystem
  import opened Shares
  import opened UploadPlan

  type Tid = nat
  type Files = map<string, Bytes>

  datatype Goal = Write(index: int, declared: int, body: Bytes) | Complete | Status

  /** Where a thread is. `session` is the `activeUpload` it holds a pointer to. */
  datatype Pc =
    | Start(goal: Goal)
    | ReadingMeta(goal: Goal)
    | Scanning(goal: Goal, next: nat, got: set<nat>)
    | Inserting(goal: Goal, got: set<nat>)
    | Holding(goal: Goal, session: nat)
    // from here on the thread owns the session's mutex
    | Spooled(session: nat, index: nat, data: Bytes)
    | Placed(session: nat, index: nat)
    | Assembling(session: nat, next: nat)
    | Published(session: nat)
    | Marked(session: nat)
    | Removing(session: nat)

  predicate HasSession(pc: Pc) {
    pc.Holding? || InCritical(pc)
  }

  predicate InCritical(pc: Pc) {
    pc.Spooled? || pc.Placed? || pc.Assembling? || AfterPublication(pc)
  }

  predicate AfterPublication(pc: Pc) {
    pc.Published? || pc.Marked? || pc.Removing?
  }

  datatype Session = Session(received: set<nat>, aborted: bool, owner: Option<Tid>)

  /** `dir` is the upload's scratch directory, `partial` the destination's ".uploading" file and
      `final` the destination. `accepted` remembers the last chunk renamed into place for every
      index before the destination appeared, `published` how often it was renamed into place. */
  datatype State = State(
    plan: Plan, dir: Option<Files>, final: Option<Bytes>, partial: Option<Bytes>,
    active: Option<nat>, sessions: seq<Session>, pcs: map<Tid, Pc>,
    accepted: map<nat, Bytes>, published: nat)

  /** The scheduler's choice: start a request, take the next step, let the file operation at hand
      fail, or (while removing the directory) delete one entry. */
  datatype Choice = Call(goal: Goal) | Go | Fault | Delete(name: string)

  datatype Event = Act(t: Tid, choice: Choice) | Crash

  function Initial(plan: Plan): State {
    State(plan, Some(map[META_NAME := []]), None, None, Some(0), [Session({}, false, None)], map[], map[], 0)
  }

  // ---------------------------------------------------------------- the steps

  function Goto(s: State, t: Tid, pc: Pc): State {
    s.(pcs := s.pcs[t := pc])
  }

  function Return(s: State, t: Tid): State {
    s.(pcs := s.pcs - {t})
  }

  function SetOwner(s: State, o: nat, owner: Option<Tid>): State
    requires o < |s.sessions|
  {
    s.(sessions := s.sessions[o := s.sessions[o].(owner := owner)])
  }

  function Unlock(s: State, t: Tid, o: nat): State
    requires o < |s.sessions|
  {
    Return(SetOwner(s, o, None), t)
  }

  function HasFile(s: State, name: string): bool {
    s.dir.Some? && name in s.dir.value
  }

  function StartStep(s: State, t: Tid, goal: Goal): State {
    Goto(s, t, if s.active.Some? then Holding(goal, s.active.value) else ReadingMeta(goal))
  }

  function ReadMetaStep(s: State, t: Tid, goal: Goal): State {
    if HasFile(s, META_NAME) then Goto(s, t, Scanning(goal, 0, {})) else Return(s, t)
  }

  function ScanStep(s: State, t: Tid, goal: Goal, next: nat, got: set<nat>): State {
    if next >= s.plan.total then Goto(s, t, Inserting(goal, got))
    else Goto(s, t, Scanning(goal, next + 1, if HasFile(s, ChunkName(next)) then got + {next} else got))
  }

  function InsertStep(s: State, t: Tid, goal: Goal, got: set<nat>): State {
    if s.active.Some? then Goto(s, t, Holding(goal, s.active.value))
    else
      Goto(s.(sessions := s.sessions + [Session(got, false, None)], active := Some(|s.sessions|)),
           t, Holding(goal, |s.sessions|))
  }

  /** `writeChunk` from taking the mutex to the finished temporary file. */
  function BeginWrite(s: State, t: Tid, o: nat, index: int, declared: int, body: Bytes): State
    requires o < |s.sessions|
  {
    if s.sessions[o].aborted || index < 0 || index >= s.plan.total then Return(s, t)
    else
      var expected := Expected(s.plan, index);
      if expected < 0 || (declared >= 0 && declared != expected) || s.dir.None? then Return(s, t)
      else if |body| != expected then Return(s.(dir := Some(s.dir.value - {TmpName(index)})), t)
      else
        Goto(SetOwner(s.(dir := Some(s.dir.value[TmpName(index) := body])), o, Some(t)), t, Spooled(o, index, body))
  }

  function SpooledStep(s: State, t: Tid, o: nat, index: nat, fault: bool): State
    requires o < |s.sessions|
  {
    if fault || !HasFile(s, TmpName(index)) then Unlock(s, t, o)
    else
      var data := s.dir.value[TmpName(index)];
      Goto(s.(dir := Some((s.dir.value - {TmpName(index)})[ChunkName(index) := data]),
              accepted := if s.final.None? then s.accepted[index := data] else s.accepted),
           t, Placed(o, index))
  }

  function PlacedStep(s: State, t: Tid, o: nat, index: nat): State
    requires o < |s.sessions|
  {
    Unlock(s.(sessions := s.sessions[o := s.sessions[o].(received := s.sessions[o].received + {index})]), t, o)
  }

  /** `complete` from taking the mutex to the opened ".uploading" file. */
  function BeginComplete(s: State, t: Tid, o: nat, fault: bool): State
    requires o < |s.sessions|
  {
    if s.sessions[o].aborted || |s.sessions[o].received| != s.plan.total || fault || s.final.Some? || s.partial.Some?
    then Return(s, t)
    else Goto(SetOwner(s.(partial := Some([])), o, Some(t)), t, Assembling(o, 0))
  }

  function GiveUp(s: State, t: Tid, o: nat): State
    requires o < |s.sessions|
  {
    Unlock(s.(partial := None), t, o)
  }

  function AssembleStep(s: State, t: Tid, o: nat, next: nat, fault: bool): State
    requires o < |s.sessions|
  {
    if fault || s.partial.None? then GiveUp(s, t, o)
    else if next < s.plan.total then
      if HasFile(s, ChunkName(next))
      then Goto(s.(partial := Some(s.partial.value + s.dir.value[ChunkName(next)])), t, Assembling(o, next + 1))
      else GiveUp(s, t, o)
    else if |s.partial.value| != s.plan.size then GiveUp(s, t, o)
    else Publish(s, t, o)
  }

  /** The rename of the ".uploading" file to the destination. */
  function Publish(s: State, t: Tid, o: nat): State {
    Goto(s.(final := s.partial, partial := None, published := s.published + 1), t, Published(o))
  }

  function PublishedStep(s: State, t: Tid, o: nat): State
    requires o < |s.sessions|
  {
    Goto(s.(sessions := s.sessions[o := s.sessions[o].(aborted := true)]), t, Marked(o))
  }

  function MarkedStep(s: State, t: Tid, o: nat): State {
    Goto(s.(active := None), t, Removing(o))
  }

  function RemovingStep(s: State, t: Tid, o: nat, c: Choice): State
    requires o < |s.sessions|
  {
    match c
    case Delete(name) => if s.dir.Some? then s.(dir := Some(s.dir.value - {name})) else s
    case Fault => Unlock(s, t, o)
    case _ => Unlock(s.(dir := None), t, o)
  }

  function LockStep(s: State, t: Tid, goal: Goal, o: nat, fault: bool): State
    requires o < |s.sessions|
  {
    if s.sessions[o].owner.Some? then s
    else match goal
      case Status => Return(s, t)
      case Write(index, declared, body) => BeginWrite(s, t, o, index, declared, body)
      case Complete => BeginComplete(s, t, o, fault)
  }

  ghost function Step(s: State, t: Tid, c: Choice): State
    requires Inv(s)
  {
    if t !in s.pcs then if c.Call? then Goto(s, t, Start(c.goal)) else s
    else match s.pcs[t]
      case Start(goal) => StartStep(s, t, goal)
      case ReadingMeta(goal) => ReadMetaStep(s, t, goal)
      case Scanning(goal, next, got) => ScanStep(s, t, goal, next, got)
      case Inserting(goal, got) => InsertStep(s, t, goal, got)
      case Holding(goal, o) => LockStep(s, t, goal, o, c.Fault?)
      case Spooled(o, index, _) => SpooledStep(s, t, o, index, c.Fault?)
      case Placed(o, index) => PlacedStep(s, t, o, index)
      case Assembling(o, next) => AssembleStep(s, t, o, next, c.Fault?)
      case Published(o) => PublishedStep(s, t, o)
      case Marked(o) => MarkedStep(s, t, o)
      case Removing(o) => RemovingStep(s, t, o, c)
  }

  /** A crash loses the memory and the threads; the files stay. */
  function Restarted(s: State): State {
    s.(active := None, pcs := map[])
  }

  ghost function Next(s: State, e: Event): State
    requires Inv(s)
  {
    match e
    case Act(t, c) => Step(s, t, c)
    case Crash => Restarted(s)
  }

  // ---------------------------------------------------------------- the invariant

  /** Pointers are live. */
  ghost predicate References(s: State) {
    && (s.active.Some? ==> s.active.value < |s.sessions|)
    && forall t :: t in s.pcs && HasSession(s.pcs[t]) ==> s.pcs[t].session < |s.sessions|
  }

  /** Whoever is in a critical section owns its mutex. */
  ghost predicate Locks(s: State)
    requires References(s)
  {
    forall t :: t in s.pcs && InCritical(s.pcs[t]) ==> s.sessions[s.pcs[t].session].owner == Some(t)
  }

  /** The destination appears at most once, holding the accepted chunks in order. */
  ghost predicate Result(s: State) {
    && s.published == (if s.final.Some? then 1 else 0)
    && (s.final.Some? ==> s.plan.total >= 1 && UploadPlan.Complete(s.plan, s.accepted)
                          && s.final.value == Assembled(s.accepted, s.plan.total))
  }

  /** Assembling happens before the destination appears, cleaning up after it. */
  ghost predicate Phases(s: State) {
    forall t :: t in s.pcs ==>
      && (s.pcs[t].Assembling? ==> s.final.None?)
      && (AfterPublication(s.pcs[t]) ==> s.final.Some?)
  }

  /** The chunk files are exactly the accepted chunks, each of its exact length. */
  ghost predicate OnDisk(s: State) {
    && HasFile(s, META_NAME)
    && (forall i: nat :: i in s.accepted <==> ChunkName(i) in s.dir.value)
    && (forall i: nat :: i in s.accepted ==>
         i < s.plan.total && s.dir.value[ChunkName(i)] == s.accepted[i] && |s.accepted[i]| == Expected(s.plan, i))
  }

  /** Before the destination appears there is one session, the active one. */
  ghost predicate OneSession(s: State) {
    forall t :: t in s.pcs && HasSession(s.pcs[t]) ==> s.active == Some(s.pcs[t].session)
  }

  /** `received` is the set of chunk files, except one that its writer is about to record. */
  ghost predicate ReceivedOnDisk(s: State)
    requires References(s)
  {
    s.active.Some? ==>
      var o := s.active.value;
      var x := s.sessions[o];
      && !x.aborted && x.received <= s.accepted.Keys
      && forall i :: i in s.accepted && i !in x.received ==>
           x.owner.Some? && x.owner.value in s.pcs && s.pcs[x.owner.value] == Placed(o, i)
  }

  /** While no session is in memory, what a rehydrating thread has scanned is what is there. */
  ghost predicate Scanned(s: State) {
    s.active.None? ==> forall t :: t in s.pcs ==>
      match s.pcs[t]
      case Scanning(_, next, got) => got == (set i | i in s.accepted && i < next)
      case Inserting(_, got) => got == s.accepted.Keys
      case _ => true
  }

  ghost predicate Pending(s: State) {
    forall t :: t in s.pcs ==>
      match s.pcs[t]
      case Spooled(_, index, data) =>
        index < s.plan.total && |data| == Expected(s.plan, index)
        && HasFile(s, TmpName(index)) && s.dir.value[TmpName(index)] == data
      case Placed(_, index) => index in s.accepted
      case Assembling(_, next) =>
        && UploadPlan.Complete(s.plan, s.accepted) && next <= s.plan.total
        && s.partial == Some(Assembled(s.accepted, next))
      case _ => true
  }

  ghost predicate Before(s: State)
    requires References(s)
  {
    OnDisk(s) && OneSession(s) && ReceivedOnDisk(s) && Scanned(s) && Pending(s)
  }

  ghost predicate Inv(s: State) {
    && Tiles(s.plan)
    && References(s) && Locks(s) && Result(s) && Phases(s)
    && (s.final.None? ==> Before(s))
  }

  // ---------------------------------------------------------------- every step keeps it

  /** What a thread outside the critical sections knows. */
  ghost predicate Outside(s: State, pc: Pc) {
    && !InCritical(pc)
    && (pc.Holding? ==> s.active == Some(pc.session))
    && (s.final.None? && s.active.None? ==>
          match pc
          case Scanning(_, next, got) => got == (set i | i in s.accepted && i < next)
          case Inserting(_, got) => got == s.accepted.Keys
          case _ => true)
  }

  lemma GotoKeeps(s: State, t: Tid, pc: Pc)
    requires Inv(s) && (t in s.pcs ==> !InCritical(s.pcs[t])) && Outside(s, pc)
    ensures Inv(Goto(s, t, pc))
  {
    hide Tiles, ChunkName, TmpName, Expected, Assembled, UploadPlan.Complete;
    var s' := Goto(s, t, pc);
    assert forall u :: u in s'.pcs && u != t ==> u in s.pcs && s'.pcs[u] == s.pcs[u];
  }

  lemma ReturnKeeps(s: State, t: Tid)
    requires Inv(s) && (t in s.pcs ==> !InCritical(s.pcs[t]))
    ensures Inv(Return(s, t))
  {
  }

  lemma ReadMetaKeeps(s: State, t: Tid, goal: Goal)
    requires Inv(s) && t in s.pcs && s.pcs[t] == ReadingMeta(goal)
    ensures Inv(ReadMetaStep(s, t, goal))
  {
    ReturnKeeps(s, t);
    GotoKeeps(s, t, Scanning(goal, 0, {}));
  }

  lemma ScanGrows(accepted: map<nat, Bytes>, next: nat)
    ensures (set i | i in accepted && i < next + 1) ==
            (set i | i in accepted && i < next) + (if next in accepted then {next} else {})
  {
  }

  lemma ScanKeeps(s: State, t: Tid, goal: Goal, next: nat, got: set<nat>)
    requires Inv(s) && t in s.pcs && s.pcs[t] == Scanning(goal, next, got)
    ensures Inv(ScanStep(s, t, goal, next, got))
  {
    hide Tiles, Locks, Result, Phases, ChunkName, TmpName, Expected;
    var pc := ScanStep(s, t, goal, next, got).pcs[t];
    if s.final.None? && s.active.None? {
      ScanGrows(s.accepted, next);
      if next >= s.plan.total {
        assert (set i | i in s.accepted && i < next) == s.accepted.Keys;
      }
    }
    assert Outside(s, pc);
    hide Inv, Outside;
    GotoKeeps(s, t, pc);
  }

  /** A rehydrated session starts with exactly the chunks on disk. */
  lemma RehydrateKeeps(s: State, t: Tid, goal: Goal, got: set<nat>)
    requires Inv(s) && t in s.pcs && s.pcs[t] == Inserting(goal, got) && s.active.None?
    ensures Inv(InsertStep(s, t, goal, got))
  {
  }

  lemma NamesApart(index: nat)
    ensures forall i: nat :: ChunkName(i) != TmpName(index) && (ChunkName(i) == ChunkName(index) ==> i == index)
    ensures META_NAME != TmpName(index) && META_NAME != ChunkName(index)
  {
    forall i: nat ensures ChunkName(i) != TmpName(index) && (ChunkName(i) == ChunkName(index) ==> i == index) {
      ChunkNamesDistinct(i, index);
    }
    ChunkNamesDistinct(index, index);
  }

  /** Touching the temporary file of one chunk leaves the chunk files alone. */
  lemma TmpHarmless(s: State, index: nat, body: Bytes)
    requires OnDisk(s)
    ensures OnDisk(s.(dir := Some(s.dir.value - {TmpName(index)})))
    ensures OnDisk(s.(dir := Some(s.dir.value[TmpName(index) := body])))
  {
    NamesApart(index);
  }

  /** A rejected body has been written and removed again. */
  lemma RejectedKeeps(s: State, t: Tid, o: nat, index: nat)
    requires Inv(s) && t in s.pcs && s.pcs[t].Holding? && s.pcs[t].session == o && s.sessions[o].owner.None?
    requires s.dir.Some?
    ensures Inv(Return(s.(dir := Some(s.dir.value - {TmpName(index)})), t))
  {
    if s.final.None? {
      TmpHarmless(s, index, []);
    }
  }

  lemma AcceptedKeeps(s: State, t: Tid, o: nat, index: nat, body: Bytes)
    requires Inv(s) && t in s.pcs && s.pcs[t].Holding? && s.pcs[t].session == o && s.sessions[o].owner.None?
    requires s.dir.Some? && index < s.plan.total && |body| == Expected(s.plan, index)
    ensures var spooled := s.(dir := Some(s.dir.value[TmpName(index) := body]));
            Inv(Goto(SetOwner(spooled, o, Some(t)), t, Spooled(o, index, body)))
  {
    if s.final.None? {
      TmpHarmless(s, index, body);
    }
  }

  lemma BeginWriteKeeps(s: State, t: Tid, o: nat, index: int, declared: int, body: Bytes)
    requires Inv(s) && t in s.pcs && s.pcs[t] == Holding(Write(index, declared, body), o) && s.sessions[o].owner.None?
    ensures Inv(BeginWrite(s, t, o, index, declared, body))
  {
    ReturnKeeps(s, t);
    if 0 <= index < s.plan.total && s.dir.Some? {
      RejectedKeeps(s, t, o, index);
      if |body| == Expected(s.plan, index) {
        AcceptedKeeps(s, t, o, index, body);
      }
    }
  }

  lemma SpooledFails(s: State, t: Tid, o: nat, index: nat, data: Bytes)
    requires Inv(s) && t in s.pcs && s.pcs[t] == Spooled(o, index, data)
    ensures Inv(Unlock(s, t, o))
  {
  }

  lemma SpooledLate(s: State, t: Tid, o: nat, index: nat, data: Bytes)
    requires Inv(s) && t in s.pcs && s.pcs[t] == Spooled(o, index, data) && s.final.Some?
    ensures Inv(SpooledStep(s, t, o, index, false))
  {
  }

  /** The chunk file and the accepted chunk change together. */
  lemma ChunkPlaced(s: State, index: nat, data: Bytes)
    requires OnDisk(s) && index < s.plan.total && |data| == Expected(s.plan, index)
    ensures OnDisk(s.(dir := Some((s.dir.value - {TmpName(index)})[ChunkName(index) := data]),
                      accepted := s.accepted[index := data]))
  {
    NamesApart(index);
  }

  lemma SpooledKeeps(s: State, t: Tid, o: nat, index: nat, data: Bytes, fault: bool)
    requires Inv(s) && t in s.pcs && s.pcs[t] == Spooled(o, index, data)
    ensures Inv(SpooledStep(s, t, o, index, fault))
  {
    if fault || !HasFile(s, TmpName(index)) {
      SpooledFails(s, t, o, index, data);
    } else if s.final.Some? {
      SpooledLate(s, t, o, index, data);
    } else {
      ChunkPlaced(s, index, data);
    }
  }

  lemma PlacedKeeps(s: State, t: Tid, o: nat, index: nat)
    requires Inv(s) && t in s.pcs && s.pcs[t] == Placed(o, index)
    ensures Inv(PlacedStep(s, t, o, index))
  {
  }

  lemma OpenedKeeps(s: State, t: Tid, o: nat)
    requires Inv(s) && t in s.pcs && s.pcs[t].Holding? && s.pcs[t].session == o && s.sessions[o].owner.None?
    requires s.final.None? && |s.sessions[o].received| == s.plan.total
    ensures Inv(Goto(SetOwner(s.(partial := Some([])), o, Some(t)), t, Assembling(o, 0)))
  {
    hide Tiles, ChunkName, TmpName, Expected;
    FullSet(s.sessions[o].received, s.plan.total);
  }

  lemma BeginCompleteKeeps(s: State, t: Tid, o: nat, fault: bool)
    requires Inv(s) && t in s.pcs && s.pcs[t] == Holding(Goal.Complete, o) && s.sessions[o].owner.None?
    ensures Inv(BeginComplete(s, t, o, fault))
  {
    ReturnKeeps(s, t);
    if s.final.None? && |s.sessions[o].received| == s.plan.total {
      OpenedKeeps(s, t, o);
    }
  }

  lemma GiveUpKeeps(s: State, t: Tid, o: nat)
    requires Inv(s) && t in s.pcs && s.pcs[t].Assembling? && s.pcs[t].session == o
    ensures Inv(GiveUp(s, t, o))
  {
  }

  lemma AppendedKeeps(s: State, t: Tid, o: nat, next: nat)
    requires Inv(s) && t in s.pcs && s.pcs[t] == Assembling(o, next) && next < s.plan.total
    ensures HasFile(s, ChunkName(next))
    ensures Inv(Goto(s.(partial := Some(s.partial.value + s.dir.value[ChunkName(next)])), t, Assembling(o, next + 1)))
  {
    assert next in s.accepted;
  }

  lemma PublishKeeps(s: State, t: Tid, o: nat, next: nat)
    requires Inv(s) && t in s.pcs && s.pcs[t] == Assembling(o, next) && next >= s.plan.total
    ensures Inv(Publish(s, t, o))
  {
    hide OnDisk, ReceivedOnDisk, Scanned, Assembled, UploadPlan.Complete;
  }

  lemma AssembleKeeps(s: State, t: Tid, o: nat, next: nat, fault: bool)
    requires Inv(s) && t in s.pcs && s.pcs[t] == Assembling(o, next)
    ensures Inv(AssembleStep(s, t, o, next, fault))
  {
    if fault {
      GiveUpKeeps(s, t, o);
    } else if next < s.plan.total {
      AppendedKeeps(s, t, o, next);
    } else if |s.partial.value| != s.plan.size {
      GiveUpKeeps(s, t, o);
    } else {
      PublishKeeps(s, t, o, next);
    }
  }

  lemma AfterwardsKeeps(s: State, t: Tid, c: Choice)
    requires Inv(s) && t in s.pcs && AfterPublication(s.pcs[t])
    ensures Inv(Step(s, t, c))
  {
    hide Before, Tiles, StartStep, ReadMetaStep, ScanStep, InsertStep, LockStep, SpooledStep, PlacedStep, AssembleStep;
  }

  lemma LockKeeps(s: State, t: Tid, goal: Goal, o: nat, fault: bool)
    requires Inv(s) && t in s.pcs && s.pcs[t] == Holding(goal, o)
    ensures Inv(LockStep(s, t, goal, o, fault))
  {
    if s.sessions[o].owner.None? {
      match goal {
        case Status => ReturnKeeps(s, t);
        case Write(index, declared, body) => BeginWriteKeeps(s, t, o, index, declared, body);
        case Complete => BeginCompleteKeeps(s, t, o, fault);
      }
    }
  }

  /** Every choice of the scheduler keeps the invariant. */
  lemma StepKeeps(s: State, t: Tid, c: Choice)
    requires Inv(s)
    ensures Inv(Step(s, t, c))
  {
    hide Inv;
    if t in s.pcs {
      match s.pcs[t] {
        case Start(goal) => GotoKeeps(s, t, StartStep(s, t, goal).pcs[t]);
        case ReadingMeta(goal) => ReadMetaKeeps(s, t, goal);
        case Scanning(goal, next, got) => ScanKeeps(s, t, goal, next, got);
        case Inserting(goal, got) =>
          if s.active.Some? {
            GotoKeeps(s, t, Holding(goal, s.active.value));
          } else {
            RehydrateKeeps(s, t, goal, got);
          }
        case Holding(goal, o) => LockKeeps(s, t, goal, o, c.Fault?);
        case Spooled(o, index, data) => SpooledKeeps(s, t, o, index, data, c.Fault?);
        case Placed(o, index) => PlacedKeeps(s, t, o, index);
        case Assembling(o, next) => AssembleKeeps(s, t, o, next, c.Fault?);
        case _ => AfterwardsKeeps(s, t, c);
      }
    } else if c.Call? {
      GotoKeeps(s, t, Start(c.goal));
    }
  }

  lemma NextKeeps(s: State, e: Event)
    requires Inv(s)
    ensures Inv(Next(s, e))
  {
    if e.Act? {
      StepKeeps(s, e.t, e.choice);
    }
  }

  lemma InitialInv(plan: Plan)
    requires Tiles(plan)
    ensures Inv(Initial(plan))
  {
    forall i: nat ensures ChunkName(i) != META_NAME {
      ChunkNamesDistinct(i, i);
    }
  }

  // ---------------------------------------------------------------- whole runs

  ghost function Run(s: State, evs: seq<Event>): (s': State)
    requires Inv(s)
    ensures Inv(s')
    decreases |evs|
  {
    if evs == [] then s else NextKeeps(s, evs[0]); Run(Next(s, evs[0]), evs[1..])
  }

  /** In every interleaving of every number of threads, with crashes anywhere: at most one `complete`
      gets past its rename, and then the destination is the accepted chunks in order, of the declared size. */
  lemma AtMostOneCompletes(plan: Plan, evs: seq<Event>)
    requires Tiles(plan)
    ensures Inv(Initial(plan))
    ensures var s := Run(Initial(plan), evs);
            && s.published <= 1 && (s.published == 1 <==> s.final.Some?)
            && (s.final.Some? ==> UploadPlan.Complete(plan, s.accepted)
                                  && s.final == Some(Assembled(s.accepted, plan.total))
                                  && |s.final.value| == plan.size)
  {
    InitialInv(plan);
    var s := Run(Initial(plan), evs);
    PlanConstant(Initial(plan), evs);
    if s.final.Some? {
      AssembledLength(s.plan, s.accepted, s.plan.total);
    }
  }

  lemma NextPlan(s: State, e: Event)
    requires Inv(s)
    ensures Next(s, e).plan == s.plan
  {
    hide Locks, Result, Phases, Before, Tiles, Expected, ChunkName, TmpName;
  }

  lemma {:induction false} PlanConstant(s: State, evs: seq<Event>)
    requires Inv(s)
    ensures Run(s, evs).plan == s.plan
    decreases |evs|
  {
    hide Next, Inv;
    if evs != [] {
      NextPlan(s, evs[0]);
      NextKeeps(s, evs[0]);
      PlanConstant(Next(s, evs[0]), evs[1..]);
    }
  }

  /** One step cannot change a destination that is there, nor the record of what went into it. */
  lemma NobodyAssembles(s: State, t: Tid)
    requires Inv(s) && s.final.Some? && t in s.pcs
    ensures !s.pcs[t].Assembling?
  {
    hide Before, Locks, Result, Tiles;
  }

  lemma NextFinal(s: State, e: Event)
    requires Inv(s) && s.final.Some?
    ensures Next(s, e).final == s.final && Next(s, e).published == s.published
  {
    hide Inv, AssembleStep, ChunkName, TmpName, Expected;
    if e.Act? && e.t in s.pcs {
      NobodyAssembles(s, e.t);
    }
  }

  /** Once the destination has appeared it never changes, not even through a session rehydrated
      while the scratch directory is being removed. */
  lemma {:induction false} FinalNeverChanges(s: State, evs: seq<Event>)
    requires Inv(s) && s.final.Some?
    ensures Run(s, evs).final == s.final && Run(s, evs).published == 1
    decreases |evs|
  {
    assert s.published == 1;
    hide Next, Inv;
    if evs != [] {
      NextKeeps(s, evs[0]);
      NextFinal(s, evs[0]);
      FinalNeverChanges(Next(s, evs[0]), evs[1..]);
    }
  }

  // ---------------------------------------------------------------- the payload arrives

  ghost predicate GoodBody(plan: Plan, payload: Bytes, goal: Goal) {
    goal.Write? && 0 <= goal.index < plan.total && |goal.body| == Expected(plan, goal.index)
    ==> IsSlice(plan, payload, goal.body, goal.index)
  }

  predicate HasGoal(pc: Pc) {
    pc.Start? || pc.ReadingMeta? || pc.Scanning? || pc.Inserting? || pc.Holding?
  }

  ghost predicate GoodPc(plan: Plan, payload: Bytes, pc: Pc) {
    && (HasGoal(pc) ==> GoodBody(plan, payload, pc.goal))
    && (pc.Spooled? ==> pc.index < plan.total && IsSlice(plan, payload, pc.data, pc.index))
  }

  /** Every body of the right length, in a request or already accepted, is the payload's slice. */
  ghost predicate FromPayload(s: State, payload: Bytes) {
    && (forall t :: t in s.pcs ==> GoodPc(s.plan, payload, s.pcs[t]))
    && forall i :: i in s.accepted ==> i < s.plan.total && IsSlice(s.plan, payload, s.accepted[i], i)
  }

  predicate OnlyMoves(s: State, s': State, t: Tid) {
    forall u :: u in s'.pcs && u != t ==> u in s.pcs && s'.pcs[u] == s.pcs[u]
  }

  lemma SpooledLocal(s: State, t: Tid, o: nat, index: nat, data: Bytes, fault: bool)
    requires Inv(s) && t in s.pcs && s.pcs[t] == Spooled(o, index, data)
    ensures var s' := SpooledStep(s, t, o, index, fault);
            && s'.plan == s.plan && OnlyMoves(s, s', t)
            && (s'.accepted == s.accepted || s'.accepted == s.accepted[index := data])
  {
    hide Locks, Result, Phases, OnDisk, OneSession, ReceivedOnDisk, Scanned, Tiles;
  }

  lemma LockLocal(s: State, t: Tid, goal: Goal, o: nat, fault: bool)
    requires o < |s.sessions| && t in s.pcs
    ensures var s' := LockStep(s, t, goal, o, fault);
            s'.plan == s.plan && OnlyMoves(s, s', t) && s'.accepted == s.accepted
  {
    hide Expected, ChunkName, TmpName;
  }

  lemma CriticalLocal(s: State, t: Tid, c: Choice)
    requires Inv(s) && t in s.pcs && InCritical(s.pcs[t]) && !s.pcs[t].Spooled?
    ensures var s' := Step(s, t, c);
            s'.plan == s.plan && OnlyMoves(s, s', t) && s'.accepted == s.accepted
  {
    hide Locks, Result, Phases, Before, Tiles, ChunkName, AssembleStep;
    if s.pcs[t].Assembling? {
      AssembleLocal(s, t, s.pcs[t].session, s.pcs[t].next, c.Fault?);
    }
  }

  lemma AssembleLocal(s: State, t: Tid, o: nat, next: nat, fault: bool)
    requires o < |s.sessions| && t in s.pcs
    ensures var s' := AssembleStep(s, t, o, next, fault);
            s'.plan == s.plan && OnlyMoves(s, s', t) && s'.accepted == s.accepted
  {
    hide ChunkName;
  }

  /** One step moves one thread, and accepts at most what that thread spooled. */
  lemma StepLocal(s: State, t: Tid, c: Choice)
    requires Inv(s)
    ensures var s' := Step(s, t, c);
            && s'.plan == s.plan && OnlyMoves(s, s', t)
            && (s'.accepted == s.accepted ||
                (t in s.pcs && s.pcs[t].Spooled? && s'.accepted == s.accepted[s.pcs[t].index := s.pcs[t].data]))
  {
    hide Locks, Result, Phases, Before, Tiles, ChunkName, LockStep, SpooledStep;
    if t in s.pcs {
      match s.pcs[t] {
        case Spooled(o, index, data) => SpooledLocal(s, t, o, index, data, c.Fault?);
        case Holding(goal, o) => LockLocal(s, t, goal, o, c.Fault?);
        case _ =>
          if InCritical(s.pcs[t]) {
            CriticalLocal(s, t, c);
          }
      }
    }
  }

  lemma WriteGood(s: State, t: Tid, o: nat, index: int, declared: int, body: Bytes, payload: Bytes)
    requires o < |s.sessions| && t in s.pcs && GoodBody(s.plan, payload, Write(index, declared, body))
    ensures var s' := BeginWrite(s, t, o, index, declared, body);
            t in s'.pcs ==> GoodPc(s.plan, payload, s'.pcs[t])
  {
    hide IsSlice, Expected, ChunkName, TmpName;
  }

  lemma StepGood(s: State, t: Tid, c: Choice, payload: Bytes)
    requires Inv(s) && (c.Call? ==> GoodBody(s.plan, payload, c.goal))
    requires t in s.pcs ==> GoodPc(s.plan, payload, s.pcs[t])
    ensures var s' := Step(s, t, c); t in s'.pcs ==> GoodPc(s.plan, payload, s'.pcs[t])
  {
    hide Locks, Result, Phases, Before, Tiles, Expected, ChunkName, TmpName, GoodBody;
    if t in s.pcs {
      match s.pcs[t] {
        case Holding(goal, o) =>
          if goal.Write? {
            WriteGood(s, t, o, goal.index, goal.declared, goal.body, payload);
          }
        case _ =>
      }
    }
  }

  lemma StepFromPayload(s: State, t: Tid, c: Choice, payload: Bytes)
    requires Inv(s) && FromPayload(s, payload) && (c.Call? ==> GoodBody(s.plan, payload, c.goal))
    ensures FromPayload(Step(s, t, c), payload)
  {
    hide Inv, Step, GoodBody;
    StepLocal(s, t, c);
    StepGood(s, t, c, payload);
    var s' := Step(s, t, c);
    forall u | u in s'.pcs ensures GoodPc(s.plan, payload, s'.pcs[u]) {
    }
  }

  lemma NextFromPayload(s: State, e: Event, payload: Bytes)
    requires Inv(s) && FromPayload(s, payload)
    requires e.Act? && e.choice.Call? ==> GoodBody(s.plan, payload, e.choice.goal)
    ensures FromPayload(Next(s, e), payload)
  {
    hide Inv, Step;
    if e.Act? {
      StepFromPayload(s, e.t, e.choice, payload);
    }
  }

  lemma {:induction false} RunFromPayload(s: State, evs: seq<Event>, payload: Bytes)
    requires Inv(s) && FromPayload(s, payload)
    requires forall i :: 0 <= i < |evs| && evs[i].Act? && evs[i].choice.Call? ==>
               GoodBody(s.plan, payload, evs[i].choice.goal)
    ensures FromPayload(Run(s, evs), payload)
    decreases |evs|
  {
    hide Inv, Next, FromPayload, GoodBody;
    if evs != [] {
      NextKeeps(s, evs[0]);
      NextPlan(s, evs[0]);
      NextFromPayload(s, evs[0], payload);
      RunFromPayload(Next(s, evs[0]), evs[1..], payload);
    }
  }

  /** If what clients send with the right length are slices of a payload, then in whatever order, with
      whatever repetitions, failures and restarts, a destination that appears is the payload. */
  lemma PayloadArrives(plan: Plan, evs: seq<Event>, payload: Bytes)
    requires Tiles(plan) && |payload| == plan.size
    requires forall i :: 0 <= i < |evs| && evs[i].Act? && evs[i].choice.Call? ==>
               GoodBody(plan, payload, evs[i].choice.goal)
    ensures Inv(Initial(plan))
    ensures var s := Run(Initial(plan), evs); s.final.Some? ==> s.final.value == payload
  {
    hide Inv, Next, Tiles, GoodBody, Expected, IsSlice, Assembled;
    InitialInv(plan);
    RunFromPayload(Initial(plan), evs, payload);
    PlanConstant(Initial(plan), evs);
    AtMostOneCompletes(plan, evs);
    var s := Run(Initial(plan), evs);
    if s.final.Some? {
      PayloadRestored(plan, payload, s.accepted);
    }
  }

  // ---------------------------------------------------------------- a complete upload completes

  ghost function Alone(s: State, t: Tid, n: nat): (s': State)
    requires Inv(s)
    ensures Inv(s')
    decreases n
  {
    if n == 0 then s else StepKeeps(s, t, Go); Alone(Step(s, t, Go), t, n - 1)
  }

  lemma AloneStep(s: State, t: Tid, n: nat)
    requires Inv(s)
    ensures Inv(Step(s, t, Go)) && Alone(s, t, n + 1) == Alone(Step(s, t, Go), t, n)
    ensures Alone(s, t, 0) == s
  {
    hide Inv, Step;
    StepKeeps(s, t, Go);
  }

  lemma AssemblyStep(s: State, t: Tid, o: nat, next: nat)
    requires Inv(s) && t in s.pcs && s.pcs[t] == Assembling(o, next)
    ensures var s' := Step(s, t, Go);
            && next <= s.plan.total && s'.plan == s.plan && s'.accepted == s.accepted && t in s'.pcs
            && (next < s.plan.total ==> s'.pcs[t] == Assembling(o, next + 1))
            && (next == s.plan.total ==>
                  s'.final == Some(Assembled(s.accepted, s.plan.total)) && s'.pcs[t] == Published(o))
  {
    if next < s.plan.total {
      assert next in s.accepted;
    } else {
      AssembledLength(s.plan, s.accepted, s.plan.total);
    }
  }

  lemma {:induction false} AssemblyFinishes(s: State, t: Tid, o: nat, next: nat)
    requires Inv(s) && t in s.pcs && s.pcs[t] == Assembling(o, next)
    ensures var s' := Alone(s, t, s.plan.total - next + 1);
            && s'.final == Some(Assembled(s.accepted, s.plan.total))
            && t in s'.pcs && s'.pcs[t] == Published(o)
    decreases s.plan.total - next
  {
    hide Inv, Step, Alone, Assembled;
    AssemblyStep(s, t, o, next);
    AloneStep(s, t, s.plan.total - next);
    var s' := Step(s, t, Go);
    if next < s.plan.total {
      AssemblyFinishes(s', t, o, next + 1);
    } else {
      AloneStep(s', t, 0);
    }
  }

  lemma CompleteOpens(s: State, t: Tid, o: nat)
    requires Inv(s) && t in s.pcs && s.pcs[t] == Holding(Goal.Complete, o) && s.sessions[o].owner.None?
    requires s.final.None? && s.partial.None? && UploadPlan.Complete(s.plan, s.accepted)
    ensures var s' := Step(s, t, Go);
            && t in s'.pcs && s'.pcs[t] == Assembling(o, 0) && s'.plan == s.plan && s'.accepted == s.accepted
            && s.plan.total >= 1
  {
    hide Locks, Result, Phases, Scanned, Pending, OnDisk;
    FullKeys(s.accepted, s.plan.total);
    assert s.sessions[o].received == s.accepted.Keys;
  }

  /** A `complete` that holds the session with every chunk accepted, no leftover ".uploading" file and
      no failing file operation publishes the accepted chunks: neither of its internal checks fails. */
  lemma CompleteSucceeds(s: State, t: Tid, o: nat)
    requires Inv(s) && t in s.pcs && s.pcs[t] == Holding(Goal.Complete, o) && s.sessions[o].owner.None?
    requires s.final.None? && s.partial.None? && UploadPlan.Complete(s.plan, s.accepted)
    ensures var s' := Alone(s, t, s.plan.total + 2);
            && s'.final == Some(Assembled(s.accepted, s.plan.total))
            && t in s'.pcs && s'.pcs[t] == Published(o)
  {
    hide Step, Alone, Assembled, Inv, UploadPlan.Complete, Tiles;
    CompleteOpens(s, t, o);
    AloneStep(s, t, s.plan.total + 1);
    AssemblyFinishes(Step(s, t, Go), t, o, 0);
  }

  lemma {:induction false} FullKeys(m: map<nat, Bytes>, n: nat)
    requires forall i: nat :: i in m <==> i < n
    ensures |m.Keys| == n
  {
    if n > 0 {
      FullKeys(m - {n - 1}, n - 1);
      assert m.Keys == (m - {n - 1}).Keys + {n - 1};
    } else {
      assert m.Keys == {};
    }
  }
}
