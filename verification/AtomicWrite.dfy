/** atomic.go: replacing a file through a temporary one, on a disk that may lose what was not synced.
    After a crash the directory is in any state it went through since it was last synced, and a file
    whose contents were not synced may hold anything. One writer at a time, as the callers' locks ensure. */
module AtomicWrite {
  import opened FileSystem
  import opened Shares  // Option

  /** The two directory entries concerned, each naming an inode. */
  datatype Entries = Entries(target: Option<nat>, tmp: Option<nat>)

  datatype Inode = Inode(data: Bytes, synced: bool)

  /** Where `writeFileAtomic` is: about to write, sync, close and rename, or sync the directory. */
  datatype Pc =
    | Idle
    | Opened(ino: nat, data: Bytes)
    | Written(ino: nat, data: Bytes)
    | Flushed(ino: nat, data: Bytes)
    | Closed(ino: nat, data: Bytes)
    | Renamed

  /** The directory states since its last sync, the current one last; the inodes; and for every one of
      those states the contents the target should have in it. */
  datatype State = State(log: seq<Entries>, inodes: map<nat, Inode>, next: nat, pc: Pc, versions: seq<Option<Bytes>>)

  /** `Go` takes the next step, which fails unless `ok`; a failed write leaves `part`, and `removed` says
      whether the clean-up could remove the temporary file. `Crash` keeps directory state `k`, and unsynced
      files come back with the contents in `junk`. */
  datatype Event =
    | Begin(data: Bytes, ok: bool)
    | Go(ok: bool, part: Bytes, removed: bool)
    | Crash(k: nat, junk: map<nat, Bytes>)

  function Current(s: State): Entries
    requires s.log != []
  {
    s.log[|s.log| - 1]
  }

  /** A change of the directory that leaves the target alone. */
  function Enter(s: State, e: Entries): State
    requires s.versions != []
  {
    s.(log := s.log + [e], versions := s.versions + [s.versions[|s.versions| - 1]])
  }

  function Start(before: Option<Bytes>): State {
    match before
    case None => State([Entries(None, None)], map[], 0, Idle, [None])
    case Some(data) => State([Entries(Some(0), None)], map[0 := Inode(data, true)], 1, Idle, [before])
  }

  // ---------------------------------------------------------------- the steps

  /** Opening with O_CREATE and O_TRUNC reuses a temporary file that is already there. */
  function Open(s: State, data: Bytes): State
    requires s.log != [] && s.versions != []
  {
    var tmp := Current(s).tmp;
    if tmp.Some? then s.(inodes := s.inodes[tmp.value := Inode([], false)], pc := Opened(tmp.value, data))
    else
      Enter(s, Current(s).(tmp := Some(s.next))).(
        inodes := s.inodes[s.next := Inode([], false)], next := s.next + 1, pc := Opened(s.next, data))
  }

  /** The deferred clean-up, or the removal after a failed rename. */
  function CleanUp(s: State, removed: bool): State
    requires s.log != [] && s.versions != []
  {
    (if removed then Enter(s, Current(s).(tmp := None)) else s).(pc := Idle)
  }

  /** What writing `data` at the start of a file makes of its contents. */
  function Overwritten(was: Bytes, data: Bytes): Bytes {
    if |was| <= |data| then data else data + was[|data|..]
  }

  function GoStep(s: State, ok: bool, part: Bytes, removed: bool): State
    requires s.log != [] && s.versions != []
  {
    match s.pc
    case Idle => s
    case Opened(x, data) =>
      var there := if x in s.inodes then s.inodes[x].data else [];
      if ok then s.(inodes := s.inodes[x := Inode(Overwritten(there, data), false)], pc := Written(x, data))
      else CleanUp(s.(inodes := s.inodes[x := Inode(Overwritten(there, part), false)]), removed)
    case Written(x, data) =>
      if ok && x in s.inodes then s.(inodes := s.inodes[x := s.inodes[x].(synced := true)], pc := Flushed(x, data))
      else CleanUp(s, removed)
    case Flushed(x, data) => if ok then s.(pc := Closed(x, data)) else CleanUp(s, removed)
    case Closed(x, data) =>
      if ok then s.(log := s.log + [Entries(Some(x), None)], versions := s.versions + [Some(data)], pc := Renamed)
      else CleanUp(s, removed)
    case Renamed =>
      if ok then s.(log := [Current(s)], versions := [s.versions[|s.versions| - 1]], pc := Idle)
      else s.(pc := Idle)
  }

  /** What a crash leaves of an inode. */
  function Survivor(x: nat, i: Inode, junk: map<nat, Bytes>): Inode {
    if i.synced then i else Inode(if x in junk then junk[x] else [], true)
  }

  function CrashStep(s: State, k: nat, junk: map<nat, Bytes>): State
    requires k < |s.log| && k < |s.versions|
  {
    State([s.log[k]], map x | x in s.inodes :: Survivor(x, s.inodes[x], junk), s.next, Idle, [s.versions[k]])
  }

  predicate Legal(s: State, e: Event) {
    && s.log != [] && |s.versions| == |s.log|
    && (e.Begin? ==> s.pc.Idle?)
    && (e.Crash? ==> e.k < |s.log|)
  }

  function Step(s: State, e: Event): State
    requires Legal(s, e)
  {
    match e
    case Begin(data, ok) => if ok then Open(s, data) else s
    case Go(ok, part, removed) => GoStep(s, ok, part, removed)
    case Crash(k, junk) => CrashStep(s, k, junk)
  }

  // ---------------------------------------------------------------- the invariant

  /** In this directory state the target is complete: synced, and exactly the version meant. */
  predicate Complete(s: State, e: Entries, version: Option<Bytes>) {
    match e.target
    case None => version == None
    case Some(t) => t in s.inodes && s.inodes[t].synced && version == Some(s.inodes[t].data)
  }

  predicate PcOk(s: State)
    requires s.log != []
  {
    match s.pc
    case Opened(x, _) => Current(s).tmp == Some(x) && x in s.inodes && s.inodes[x].data == []
    case Written(x, data) => Current(s).tmp == Some(x) && x in s.inodes && s.inodes[x].data == data
    case Flushed(x, data) => Current(s).tmp == Some(x) && x in s.inodes && s.inodes[x] == Inode(data, true)
    case Closed(x, data) => Current(s).tmp == Some(x) && x in s.inodes && s.inodes[x] == Inode(data, true)
    case _ => true
  }

  /** Every directory state that may come back has a complete target, and the file being written is the
      target in none of them. */
  ghost predicate Inv(s: State) {
    && s.log != [] && |s.versions| == |s.log| && PcOk(s)
    && (forall i :: 0 <= i < |s.log| ==> Complete(s, s.log[i], s.versions[i]))
    && (forall i :: 0 <= i < |s.log| && s.log[i].target.Some? ==>
          s.log[i].target != s.log[i].tmp && s.log[i].target != Current(s).tmp)
    && (forall x :: x in s.inodes ==> x < s.next)
    && (forall i :: 0 <= i < |s.log| && s.log[i].tmp.Some? ==> s.log[i].tmp.value in s.inodes)
  }

  lemma OpenKeeps(s: State, data: Bytes)
    requires Inv(s) && s.pc.Idle?
    ensures Inv(Open(s, data))
  {
  }

  lemma CleanUpKeeps(s: State, removed: bool)
    requires Inv(s)
    ensures Inv(CleanUp(s, removed))
  {
  }

  lemma WriteKeeps(s: State, ok: bool, part: Bytes, removed: bool)
    requires Inv(s) && s.pc.Opened?
    ensures Inv(GoStep(s, ok, part, removed))
  {
    var failed := s.(inodes := s.inodes[s.pc.ino := Inode(Overwritten([], part), false)], pc := Idle);
    if !ok {
      CleanUpKeeps(failed, removed);
    }
  }

  lemma SyncKeeps(s: State, ok: bool, part: Bytes, removed: bool)
    requires Inv(s) && s.pc.Written?
    ensures Inv(GoStep(s, ok, part, removed))
  {
    if !ok {
      CleanUpKeeps(s, removed);
    }
  }

  lemma RenameKeeps(s: State, ok: bool, part: Bytes, removed: bool)
    requires Inv(s) && s.pc.Closed?
    ensures Inv(GoStep(s, ok, part, removed))
  {
    if !ok {
      CleanUpKeeps(s, removed);
      hide Inv, CleanUp;
    }
  }

  lemma CloseKeeps(s: State, ok: bool, part: Bytes, removed: bool)
    requires Inv(s) && !s.pc.Opened? && !s.pc.Written? && !s.pc.Closed?
    ensures Inv(GoStep(s, ok, part, removed))
  {
    if s.pc.Flushed? {
      CleanUpKeeps(s, removed);
      hide CleanUp;
    }
  }

  lemma GoKeeps(s: State, ok: bool, part: Bytes, removed: bool)
    requires Inv(s)
    ensures Inv(GoStep(s, ok, part, removed))
  {
    hide Inv, GoStep;
    if s.pc.Opened? {
      WriteKeeps(s, ok, part, removed);
    } else if s.pc.Written? {
      SyncKeeps(s, ok, part, removed);
    } else if s.pc.Closed? {
      RenameKeeps(s, ok, part, removed);
    } else {
      CloseKeeps(s, ok, part, removed);
    }
  }

  lemma CrashKeeps(s: State, k: nat, junk: map<nat, Bytes>)
    requires Inv(s) && k < |s.log|
    ensures Inv(CrashStep(s, k, junk))
  {
    assert Complete(s, s.log[k], s.versions[k]);
  }

  lemma StepKeeps(s: State, e: Event)
    requires Inv(s) && Legal(s, e)
    ensures Inv(Step(s, e))
  {
    hide Inv, Open, GoStep, CrashStep;
    match e
    case Begin(data, ok) =>
      if ok {
        OpenKeeps(s, data);
      }
    case Go(ok, part, removed) => GoKeeps(s, ok, part, removed);
    case Crash(k, junk) => CrashKeeps(s, k, junk);
  }

  predicate LegalRun(s: State, evs: seq<Event>)
    decreases |evs|
  {
    evs == [] || (Legal(s, evs[0]) && LegalRun(Step(s, evs[0]), evs[1..]))
  }

  function Run(s: State, evs: seq<Event>): State
    requires LegalRun(s, evs)
    decreases |evs|
  {
    if evs == [] then s else Run(Step(s, evs[0]), evs[1..])
  }

  lemma {:induction false} RunKeeps(s: State, evs: seq<Event>)
    requires Inv(s) && LegalRun(s, evs)
    ensures Inv(Run(s, evs))
    decreases |evs|
  {
    hide Inv, Step, Legal;
    if evs != [] {
      StepKeeps(s, evs[0]);
      RunKeeps(Step(s, evs[0]), evs[1..]);
    }
  }

  // ---------------------------------------------------------------- what the target holds

  /** What reading the target yields now. */
  function Contents(s: State): Option<Bytes>
    requires s.log != []
  {
    match Current(s).target
    case None => None
    case Some(t) => if t in s.inodes then Some(s.inodes[t].data) else None
  }

  /** The data of the writes in a run. */
  function Payloads(evs: seq<Event>): set<Option<Bytes>> {
    set e | e in evs && e.Begin? :: Some(e.data)
  }

  /** Every version is the initial contents or the complete data of some write. */
  predicate Known(s: State, known: set<Option<Bytes>>) {
    && (forall i :: 0 <= i < |s.versions| ==> s.versions[i] in known)
    && (!s.pc.Idle? && !s.pc.Renamed? ==> Some(s.pc.data) in known)
  }

  lemma StepKnown(s: State, e: Event, known: set<Option<Bytes>>)
    requires Inv(s) && Legal(s, e) && Known(s, known) && (e.Begin? ==> Some(e.data) in known)
    ensures Known(Step(s, e), known)
  {
  }

  lemma {:induction false} RunKnown(s: State, evs: seq<Event>, known: set<Option<Bytes>>)
    requires Inv(s) && LegalRun(s, evs) && Known(s, known)
    requires forall i :: 0 <= i < |evs| && evs[i].Begin? ==> Some(evs[i].data) in known
    ensures Known(Run(s, evs), known)
    decreases |evs|
  {
    hide Inv, Step, Legal, Known;
    if evs != [] {
      StepKeeps(s, evs[0]);
      StepKnown(s, evs[0], known);
      RunKnown(Step(s, evs[0]), evs[1..], known);
    }
  }

  /** Over any run of writes with failures and crashes anywhere, the target always holds the initial
      contents or the complete data of one of the writes: never a part, never a mixture. */
  lemma AlwaysComplete(before: Option<Bytes>, evs: seq<Event>)
    requires LegalRun(Start(before), evs)
    ensures var s := Run(Start(before), evs); s.log != [] && Contents(s) in {before} + Payloads(evs)
  {
    var start := Start(before);
    var known := {before} + Payloads(evs);
    assert Inv(start);
    RunKeeps(start, evs);
    RunKnown(start, evs, known);
    var s := Run(start, evs);
    assert Complete(s, Current(s), s.versions[|s.versions| - 1]);
  }

  /** The directory is synced and nobody is writing. */
  predicate Settled(s: State, data: Option<Bytes>) {
    s.pc.Idle? && s.versions == [data]
  }

  /** One write, taken step by step until it ends or the process crashes. */
  predicate OneWrite(evs: seq<Event>) {
    forall i :: 0 <= i < |evs| ==> evs[i].Go?
  }

  predicate OldOrNew(s: State, before: Option<Bytes>, data: Bytes) {
    && (forall i :: 0 <= i < |s.versions| ==> s.versions[i] == before || s.versions[i] == Some(data))
    && (!s.pc.Idle? && !s.pc.Renamed? ==> s.pc.data == data)
  }

  lemma {:induction false} WriteVersions(s: State, evs: seq<Event>, before: Option<Bytes>, data: Bytes)
    requires Inv(s) && OneWrite(evs) && OldOrNew(s, before, data)
    ensures LegalRun(s, evs) && Inv(Run(s, evs)) && OldOrNew(Run(s, evs), before, data)
    decreases |evs|
  {
    hide Inv, OldOrNew, OneWrite, GoStep;
    if evs != [] {
      RestIsWrite(evs);
      var e := evs[0];
      GoKeeps(s, e.ok, e.part, e.removed);
      GoOldOrNew(s, e.ok, e.part, e.removed, before, data);
      SomeVersion(s);
      WriteVersions(Step(s, e), evs[1..], before, data);
    }
  }

  lemma GoOldOrNew(s: State, ok: bool, part: Bytes, removed: bool, before: Option<Bytes>, data: Bytes)
    requires Inv(s) && OldOrNew(s, before, data)
    ensures OldOrNew(GoStep(s, ok, part, removed), before, data)
  {
  }

  lemma SomeVersion(s: State)
    requires Inv(s)
    ensures s.log != [] && |s.versions| == |s.log|
  {
  }

  lemma RestIsWrite(evs: seq<Event>)
    requires OneWrite(evs) && evs != []
    ensures OneWrite(evs[1..]) && evs[0].Go?
  {
  }

  /** A crash at any step of a write, with any directory state and any damage to unsynced files, leaves
      the complete old or the complete new contents. */
  lemma CrashLeavesOldOrNew(s: State, before: Option<Bytes>, data: Bytes, evs: seq<Event>, k: nat,
                            junk: map<nat, Bytes>)
    requires Inv(s) && Settled(s, before) && OneWrite(evs)
    ensures Legal(s, Begin(data, true)) && LegalRun(Open(s, data), evs)
    ensures var mid := Run(Open(s, data), evs);
            && |mid.versions| == |mid.log|
            && (k < |mid.log| ==>
                  var after := CrashStep(mid, k, junk); Contents(after) == before || Contents(after) == Some(data))
  {
    OpenKeeps(s, data);
    WriteVersions(Open(s, data), evs, before, data);
    var mid := Run(Open(s, data), evs);
    if k < |mid.log| {
      CrashKeeps(mid, k, junk);
      var after := CrashStep(mid, k, junk);
      assert Complete(after, after.log[0], after.versions[0]);
    }
  }

  // ---------------------------------------------------------------- what the calls are there for

  /** Opening empties the temporary file that a failed or interrupted write left behind, and makes a new one
      only when there is none; the target is out of it. */
  lemma OpenExactly(s: State, data: Bytes)
    requires Inv(s) && s.pc.Idle?
    ensures var s' := Open(s, data);
            && s'.pc.Opened? && s'.pc.data == data && s'.pc.ino in s'.inodes && s'.inodes[s'.pc.ino].data == []
            && s'.log != [] && Current(s') == Entries(Current(s).target, Some(s'.pc.ino))
            && (if Current(s).tmp.Some? then s'.pc.ino == Current(s).tmp.value && s'.log == s.log
                else s'.pc.ino !in s.inodes && s'.log == s.log + [Current(s')])
  {
  }

  /** A failed write leaves its part behind exactly when the clean-up fails too, and the target as it was. */
  lemma FailedWriteExactly(s: State, part: Bytes, removed: bool)
    requires Inv(s) && s.pc.Opened?
    ensures var s' := GoStep(s, false, part, removed);
            && s'.pc.Idle? && s'.log != [] && Contents(s') == Contents(s)
            && Current(s').tmp == (if removed then None else Some(s.pc.ino))
            && s.pc.ino in s'.inodes && s'.inodes[s.pc.ino].data == part
  {
  }

  /** A crash brings back exactly the version of the directory state that survived. */
  lemma CrashExactly(s: State, k: nat, junk: map<nat, Bytes>)
    requires Inv(s) && k < |s.log|
    ensures Contents(CrashStep(s, k, junk)) == s.versions[k]
  {
    assert Complete(s, s.log[k], s.versions[k]);
  }

  /** Without the sync of the file before the rename, a crash could leave anything in the target. */
  lemma SyncNeeded(s: State, torn: Bytes)
    requires Inv(s) && s.pc.Written? && !s.inodes[s.pc.ino].synced
    ensures var hasty := s.(log := s.log + [Entries(Some(s.pc.ino), None)],
                            versions := s.versions + [Some(s.pc.data)], pc := Renamed);
            Contents(CrashStep(hasty, |s.log|, map[s.pc.ino := torn])) == Some(torn)
  {
  }

  /** A crash now may bring back this version. */
  ghost predicate MayComeBack(s: State, version: Option<Bytes>) {
    exists k: nat, junk: map<nat, Bytes> :: BringsBack(s, k, junk, version)
  }

  predicate BringsBack(s: State, k: nat, junk: map<nat, Bytes>, version: Option<Bytes>) {
    k < |s.log| && k < |s.versions| && Contents(CrashStep(s, k, junk)) == version
  }

  /** Without the sync of the directory after it, a crash may still bring back every version there was since
      the last one; with it, only the new one. */
  lemma DirectorySyncExactly(s: State, synced: bool, version: Option<Bytes>)
    requires Inv(s) && s.pc.Renamed?
    ensures var s' := GoStep(s, synced, [], true);
            MayComeBack(s', version)
            <==> (if synced then version == s.versions[|s.versions| - 1] else version in s.versions)
  {
    var s' := GoStep(s, synced, [], true);
    GoKeeps(s, synced, [], true);
    if MayComeBack(s', version) {
      var k: nat, junk: map<nat, Bytes> :| BringsBack(s', k, junk, version);
      CrashExactly(s', k, junk);
    }
    if version in s'.versions {
      var k: nat :| k < |s'.versions| && s'.versions[k] == version;
      CrashExactly(s', k, map[]);
      assert BringsBack(s', k, map[], version);
    }
  }

  // ---------------------------------------------------------------- the function as it is written

  function LastVersion(s: State): Option<Bytes>
    requires s.versions != []
  {
    s.versions[|s.versions| - 1]
  }

  lemma ContentsAre(s: State)
    requires Inv(s)
    ensures s.log != [] && s.versions != [] && Contents(s) == LastVersion(s)
  {
    assert Complete(s, Current(s), LastVersion(s));
  }

  /** The place after a call that worked. */
  function After(pc: Pc): Pc {
    match pc
    case Opened(x, data) => Written(x, data)
    case Written(x, data) => Flushed(x, data)
    case Flushed(x, data) => Closed(x, data)
    case Closed(_, _) => Renamed
    case _ => Idle
  }

  /** A call that fails before the rename removes the temporary file and changes nothing else; the rename
      makes the new version current; the directory sync forgets the others. */
  lemma CallEffect(s: State, good: bool, part: Bytes)
    requires Inv(s) && !s.pc.Idle?
    ensures var s' := GoStep(s, good, part, true);
            && s'.log != [] && s'.versions != []
            && s'.pc == (if good then After(s.pc) else Idle)
            && LastVersion(s') == (if good && s.pc.Closed? then Some(s.pc.data) else LastVersion(s))
            && (!good && !s.pc.Renamed? ==> Current(s').tmp == None)
            && (good && s.pc.Closed? ==> Current(s').tmp == None)
            && ((good && s.pc.Renamed?) || s.versions <= s'.versions)
            && (s.pc.Renamed? && !good ==> s'.log == s.log && s'.versions == s.versions)
            && (s.pc.Renamed? ==> Current(s').tmp == Current(s).tmp && (good ==> s'.versions == [LastVersion(s)]))
  {
  }

  lemma OpenEffect(s: State, data: Bytes)
    requires Inv(s) && s.pc.Idle?
    ensures var s' := Open(s, data);
            && Inv(s') && s'.pc.Opened? && s'.pc.data == data && s'.versions != []
            && LastVersion(s') == LastVersion(s) && s.versions <= s'.versions
  {
    OpenKeeps(s, data);
  }

  /** Without emptying the temporary file first, the end of a longer old one would stay. */
  lemma TruncationNeeded(was: Bytes, data: Bytes)
    ensures Overwritten(was, data) == data <==> |was| <= |data|
  {
  }

  /** A write in which no call fails ends with the new contents and nothing else that could come back. */
  lemma WriteArrives(s: State, before: Option<Bytes>, data: Bytes)
    requires Inv(s) && Settled(s, before)
    ensures var go := Go(true, [], true);
            var evs := [Begin(data, true), go, go, go, go, go];
            && LegalRun(s, evs) && Inv(Run(s, evs)) && Settled(Run(s, evs), Some(data))
            && Contents(Run(s, evs)) == Some(data)
  {
    var go := Go(true, [], true);
    OpenEffect(s, data);
    var s0 := Open(s, data);
    GoodCall(s0);
    var s1 := GoStep(s0, true, [], true);
    GoodCall(s1);
    var s2 := GoStep(s1, true, [], true);
    GoodCall(s2);
    var s3 := GoStep(s2, true, [], true);
    GoodCall(s3);
    var s4 := GoStep(s3, true, [], true);
    GoodCall(s4);
    hide Inv, GoStep, Open, CrashStep, Contents;
    RunGoes(s, data, s0, s1, s2, s3, s4);
    ContentsAre(GoStep(s4, true, [], true));
  }

  lemma GoodCall(s: State)
    requires Inv(s) && !s.pc.Idle?
    ensures var s' := GoStep(s, true, [], true);
            && Inv(s') && s.log != [] && |s.versions| == |s.log|
            && s'.log != [] && |s'.versions| == |s'.log| && s'.pc == After(s.pc)
            && LastVersion(s') == (if s.pc.Closed? then Some(s.pc.data) else LastVersion(s))
            && (s.pc.Renamed? ==> s'.versions == [LastVersion(s)])
  {
    GoKeeps(s, true, [], true);
    CallEffect(s, true, []);
  }

  lemma RunGoes(s: State, data: Bytes, s0: State, s1: State, s2: State, s3: State, s4: State)
    requires s.log != [] && |s.versions| == |s.log| && s.pc.Idle? && s0 == Open(s, data)
    requires s0.log != [] && |s0.versions| == |s0.log| && s1 == GoStep(s0, true, [], true)
    requires s1.log != [] && |s1.versions| == |s1.log| && s2 == GoStep(s1, true, [], true)
    requires s2.log != [] && |s2.versions| == |s2.log| && s3 == GoStep(s2, true, [], true)
    requires s3.log != [] && |s3.versions| == |s3.log| && s4 == GoStep(s3, true, [], true)
    requires s4.log != [] && |s4.versions| == |s4.log|
    ensures var go := Go(true, [], true);
            var evs := [Begin(data, true), go, go, go, go, go];
            LegalRun(s, evs) && Run(s, evs) == GoStep(s4, true, [], true)
  {
    hide GoStep, Open;
    var go := Go(true, [], true);
    var evs := [Begin(data, true), go, go, go, go, go];
    var five, four, three, two, one := evs[1..], evs[1..][1..], evs[1..][1..][1..], evs[1..][1..][1..][1..], [go];
    assert two[1..] == one && one[1..] == [];
    assert LegalRun(s4, one) && Run(s4, one) == GoStep(s4, true, [], true);
    assert LegalRun(s3, two) && Run(s3, two) == Run(s4, one);
    assert LegalRun(s2, three) && Run(s2, three) == Run(s3, two);
    assert LegalRun(s1, four) && Run(s1, four) == Run(s2, three);
    assert LegalRun(s0, five) && Run(s0, five) == Run(s1, four);
  }

  /** The disk as `writeFileAtomic` drives it. */
  class Disk {
    var s: State

    constructor (before: Option<Bytes>)
      ensures s == Start(before)
    {
      s := Start(before);
    }

    /** One call of the sequence; when it fails the temporary file is removed. */
    method Call(good: bool, part: Bytes)
      requires Inv(s)
      modifies this
      ensures s == GoStep(old(s), good, part, true) && Inv(s)
    {
      hide GoStep;
      GoKeeps(s, good, part, true);
      s := GoStep(s, good, part, true);
    }

    /** `fails` is the number of the call that fails: 0 open, 1 write, 2 sync, 3 close, 4 rename, none
        beyond; `dirSynced` says whether the best-effort sync of the directory works. */
    method WriteFileAtomic(data: Bytes, fails: nat, part: Bytes, dirSynced: bool) returns (ok: bool)
      requires Inv(s) && s.pc.Idle?
      modifies this
      ensures Inv(s) && s.pc.Idle? && (ok <==> fails > 4)
      ensures Contents(s) == if ok then Some(data) else Contents(old(s))
      ensures fails > 0 ==> Current(s).tmp == None
      ensures ok && dirSynced ==> Settled(s, Some(data))
      ensures ok && !dirSynced ==> Contents(old(s)) in s.versions
    {
      hide Inv, GoStep, Open, Contents, Current;
      ContentsAre(s);
      if fails == 0 {
        return false;
      }
      OpenEffect(s, data);
      s := Open(s, data);
      CallEffect(s, fails != 1, part);
      Call(fails != 1, part);
      ContentsAre(s);
      if fails == 1 {
        return false;
      }
      CallEffect(s, fails != 2, part);
      Call(fails != 2, part);
      ContentsAre(s);
      if fails == 2 {
        return false;
      }
      CallEffect(s, fails != 3, part);
      Call(fails != 3, part);
      ContentsAre(s);
      if fails == 3 {
        return false;
      }
      CallEffect(s, fails != 4, part);
      Call(fails != 4, part);
      ContentsAre(s);
      if fails == 4 {
        return false;
      }
      CallEffect(s, dirSynced, part);
      Call(dirSynced, part);
      ContentsAre(s);
      assert !dirSynced ==> old(s).versions <= s.versions;
      return true;
    }
  }
}
