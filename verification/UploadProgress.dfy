/** upload.go: what requests achieve when no file operation fails. UploadProtocol says what no interleaving
    can break; here a thread that is let run records an admissible chunk, publishes a complete upload, and a
    whole upload arrives. */
module UploadProgress {
  import FileSystem
  import Shares  // Option
  import opened UploadPlan
  import opened UploadProtocol

  /** A chunk that the plan has room for: its index, its length, and what the client says the length is. */
  predicate Admissible(p: Plan, index: int, declared: int, body: FileSystem.Bytes) {
    0 <= index < p.total && |body| == Expected(p, index) && (declared < 0 || declared == |body|)
  }

  /** The same chunk files with the same contents. */
  ghost predicate SameChunks(s: State, s': State) {
    forall j: nat :: (HasFile(s', ChunkName(j)) <==> HasFile(s, ChunkName(j)))
                     && (HasFile(s, ChunkName(j)) ==> s'.dir.value[ChunkName(j)] == s.dir.value[ChunkName(j)])
  }

  /** Nothing but the temporary chunk files and the threads differs. */
  ghost predicate NothingDone(s: State, s': State) {
    && s'.plan == s.plan && s'.accepted == s.accepted && s'.sessions == s.sessions && s'.active == s.active
    && s'.final == s.final && s'.partial == s.partial && s'.published == s.published
    && SameChunks(s, s')
  }

  // ---------------------------------------------------------------- letting one thread run

  lemma {:induction false} AloneMore(s: State, t: Tid, a: nat, b: nat)
    requires Inv(s)
    ensures Alone(s, t, a + b) == Alone(Alone(s, t, a), t, b)
    decreases a
  {
    hide Inv, UploadProtocol.Step;
    if a > 0 {
      AloneStep(s, t, a - 1);
      AloneStep(s, t, a + b - 1);
      AloneMore(UploadProtocol.Step(s, t, Go), t, a - 1, b);
    }
  }

  /** A thread that has returned does nothing more. */
  lemma {:induction false} AloneReturned(s: State, t: Tid, n: nat)
    requires Inv(s) && t !in s.pcs
    ensures Alone(s, t, n) == s
  {
    hide Inv;
    if n > 0 {
      AloneStep(s, t, n - 1);
      AloneReturned(s, t, n - 1);
    }
  }

  // ---------------------------------------------------------------- one chunk

  /** A thread that holds the session of an upload under way, with the mutex free. */
  ghost predicate Ready(s: State, t: Tid, goal: Goal, o: nat) {
    && Inv(s) && s.final.None?
    && t in s.pcs && s.pcs[t] == Holding(goal, o) && s.sessions[o].owner.None?
  }

  lemma ReadySession(s: State, t: Tid, goal: Goal, o: nat)
    requires Ready(s, t, goal, o)
    ensures o < |s.sessions| && s.active == Shares.Some(o) && !s.sessions[o].aborted
    ensures s.dir.Some? && s.sessions[o].received == s.accepted.Keys
  {
    hide Tiles, Locks, Result, Phases, Scanned, Pending, ChunkName;
  }

  lemma Refused(s: State, t: Tid, o: nat, index: int, declared: int, body: FileSystem.Bytes)
    requires Ready(s, t, Write(index, declared, body), o) && !Admissible(s.plan, index, declared, body)
    ensures var s' := UploadProtocol.Step(s, t, Go); NothingDone(s, s') && s'.pcs == s.pcs - {t}
  {
    hide Inv, Tiles, ChunkName, TmpName, Expected;
    ReadySession(s, t, s.pcs[t].goal, o);
    if 0 <= index {
      NamesApart(index);
    }
  }

  lemma Spools(s: State, t: Tid, o: nat, index: nat, declared: int, body: FileSystem.Bytes)
    requires Ready(s, t, Write(index, declared, body), o) && Admissible(s.plan, index, declared, body)
    ensures UploadProtocol.Step(s, t, Go) ==
              s.(dir := Shares.Some(s.dir.value[TmpName(index) := body]), pcs := s.pcs[t := Spooled(o, index, body)],
                 sessions := s.sessions[o := s.sessions[o].(owner := Shares.Some(t))])
  {
    hide Inv, Tiles, ChunkName, TmpName, Expected;
    ReadySession(s, t, s.pcs[t].goal, o);
  }

  lemma Places(s: State, t: Tid, o: nat, index: nat, body: FileSystem.Bytes)
    requires Inv(s) && s.final.None? && t in s.pcs && s.pcs[t] == Spooled(o, index, body)
    ensures UploadProtocol.Step(s, t, Go) ==
              s.(dir := Shares.Some((s.dir.value - {TmpName(index)})[ChunkName(index) := body]),
                 accepted := s.accepted[index := body], pcs := s.pcs[t := Placed(o, index)])
  {
    hide Tiles, Locks, Result, Phases, OneSession, ReceivedOnDisk, Scanned, ChunkName, TmpName, Expected;
  }

  lemma Records(s: State, t: Tid, o: nat, index: nat)
    requires Inv(s) && t in s.pcs && s.pcs[t] == Placed(o, index)
    ensures UploadProtocol.Step(s, t, Go) ==
              s.(sessions := s.sessions[o := Session(s.sessions[o].received + {index}, s.sessions[o].aborted,
                                                     Shares.None)],
                 pcs := s.pcs - {t})
  {
    hide Tiles, Locks, Result, Phases, Before;
  }

  /** What a recorded chunk leaves behind. */
  ghost predicate Taken(s: State, s': State, t: Tid, o: nat, index: nat, body: FileSystem.Bytes)
    requires o < |s.sessions|
  {
    && s'.accepted == s.accepted[index := body]
    && s'.sessions == s.sessions[o := s.sessions[o].(received := s.sessions[o].received + {index})]
    && HasFile(s', ChunkName(index)) && s'.dir.value[ChunkName(index)] == body
    && (forall j: nat :: j != index ==>
          (HasFile(s', ChunkName(j)) <==> HasFile(s, ChunkName(j)))
          && (HasFile(s, ChunkName(j)) ==> s'.dir.value[ChunkName(j)] == s.dir.value[ChunkName(j)]))
    && s'.plan == s.plan && s'.active == s.active && s'.pcs == s.pcs - {t}
    && s'.final == s.final && s'.partial == s.partial && s'.published == s.published
  }

  /** The three steps put together. */
  lemma StepsTake(s: State, s': State, t: Tid, o: nat, index: nat, body: FileSystem.Bytes)
    requires o < |s.sessions| && s.dir.Some? && s.sessions[o].owner.None?
    requires s' == s.(dir := Shares.Some((s.dir.value[TmpName(index) := body] - {TmpName(index)})[
                                           ChunkName(index) := body]),
                      accepted := s.accepted[index := body], pcs := s.pcs - {t},
                      sessions := s.sessions[o := Session(s.sessions[o].received + {index}, s.sessions[o].aborted,
                                                          Shares.None)])
    ensures Taken(s, s', t, o, index, body)
  {
    NamesApart(index);
    hide ChunkName, TmpName;
  }

  lemma RunsThree(s: State, t: Tid)
    requires Inv(s)
    ensures var s1 := UploadProtocol.Step(s, t, Go);
            Inv(s1) && Inv(UploadProtocol.Step(s1, t, Go))
            && Alone(s, t, 3) == UploadProtocol.Step(UploadProtocol.Step(s1, t, Go), t, Go)
  {
    hide Inv, UploadProtocol.Step;
    AloneStep(s, t, 2);
    var s1 := UploadProtocol.Step(s, t, Go);
    AloneStep(s1, t, 1);
    var s2 := UploadProtocol.Step(s1, t, Go);
    AloneStep(s2, t, 0);
    AloneStep(UploadProtocol.Step(s2, t, Go), t, 0);
  }

  lemma TakesIt(s: State, t: Tid, o: nat, index: nat, declared: int, body: FileSystem.Bytes)
    requires Ready(s, t, Write(index, declared, body), o) && Admissible(s.plan, index, declared, body)
    ensures o < |s.sessions| && Taken(s, Alone(s, t, 3), t, o, index, body)
  {
    hide Inv, UploadProtocol.Step, Alone, ChunkName, TmpName, Expected, Taken, Admissible;
    ReadySession(s, t, s.pcs[t].goal, o);
    RunsThree(s, t);
    Spools(s, t, o, index, declared, body);
    var s1 := UploadProtocol.Step(s, t, Go);
    Places(s1, t, o, index, body);
    var s2 := UploadProtocol.Step(s1, t, Go);
    Records(s2, t, o, index);
    var s3 := UploadProtocol.Step(s2, t, Go);
    assert s3.pcs == s.pcs - {t};
    StepsTake(s, s3, t, o, index, body);
  }

  /** Whatever the other threads are doing: a `writeChunk` that holds the session of an upload under way
      with the mutex free, and meets no failing file call, records its chunk exactly when the chunk is
      admissible. Then the chunk file and the accepted chunk are its body, the index is received, the mutex
      is free again, and every other chunk is as before; otherwise nothing is done. */
  lemma WriteAccepted(s: State, t: Tid, o: nat, index: int, declared: int, body: FileSystem.Bytes)
    requires Ready(s, t, Write(index, declared, body), o)
    ensures o < |s.sessions|
    ensures var s' := Alone(s, t, 3);
            if Admissible(s.plan, index, declared, body) then Taken(s, s', t, o, index, body)
            else NothingDone(s, s') && s'.pcs == s.pcs - {t}
  {
    hide Inv, UploadProtocol.Step, Alone, Taken, NothingDone;
    ReadySession(s, t, Write(index, declared, body), o);
    if Admissible(s.plan, index, declared, body) {
      TakesIt(s, t, o, index, declared, body);
    } else {
      Refused(s, t, o, index, declared, body);
      AloneStep(s, t, 2);
      AloneReturned(UploadProtocol.Step(s, t, Go), t, 2);
    }
  }

  /** The same files but for these two. */
  ghost predicate OtherFiles(d: map<string, FileSystem.Bytes>, d': map<string, FileSystem.Bytes>, index: nat) {
    forall name :: name != TmpName(index) && name != ChunkName(index) ==>
      (name in d' <==> name in d) && (name in d ==> d'[name] == d[name])
  }

  /** Is it refused before any file is touched? */
  predicate RefusedOutright(p: Plan, index: int, declared: int) {
    !(0 <= index < p.total) || (declared >= 0 && declared != Expected(p, index))
  }

  /** Accepted or not, a write leaves no temporary file of its chunk behind, and touches no file of another chunk
      nor the metadata; one with a wrong index or announcement touches nothing. */
  lemma WriteFiles(s: State, t: Tid, o: nat, index: int, declared: int, body: FileSystem.Bytes)
    requires Ready(s, t, Write(index, declared, body), o)
    ensures var s' := Alone(s, t, 3);
            && s.dir.Some? && s'.dir.Some?
            && (if RefusedOutright(s.plan, index, declared) then s' == s.(pcs := s.pcs - {t})
                else TmpName(index) !in s'.dir.value && OtherFiles(s.dir.value, s'.dir.value, index))
  {
    hide Inv, UploadProtocol.Step, Alone, ChunkName, TmpName, Expected, Ready;
    ReadySession(s, t, Write(index, declared, body), o);
    ReadyInv(s, t, Write(index, declared, body), o);
    RunsThree(s, t);
    if Admissible(s.plan, index, declared, body) {
      NamesApart(index);
      Spools(s, t, o, index, declared, body);
      var s1 := UploadProtocol.Step(s, t, Go);
      Places(s1, t, o, index, body);
      Records(UploadProtocol.Step(s1, t, Go), t, o, index);
    } else {
      RefusedFiles(s, t, o, index, declared, body);
      AloneStep(s, t, 2);
      AloneReturned(UploadProtocol.Step(s, t, Go), t, 2);
    }
  }

  lemma ReadyInv(s: State, t: Tid, goal: Goal, o: nat)
    requires Ready(s, t, goal, o)
    ensures Inv(s) && s.final.None?
  {
  }

  lemma RefusedFiles(s: State, t: Tid, o: nat, index: int, declared: int, body: FileSystem.Bytes)
    requires Ready(s, t, Write(index, declared, body), o) && !Admissible(s.plan, index, declared, body)
    ensures var s' := UploadProtocol.Step(s, t, Go);
            s.dir.Some? && t !in s'.pcs
            && s' == s.(pcs := s.pcs - {t}, dir := if RefusedOutright(s.plan, index, declared) then s.dir
                                                   else Shares.Some(s.dir.value - {TmpName(index)}))
  {
    hide Inv, Tiles, ChunkName, TmpName;
    ReadySession(s, t, s.pcs[t].goal, o);
    ReadyTiles(s, t, s.pcs[t].goal, o);
    if 0 <= index < s.plan.total {
      ExpectedPositive(s.plan, index);
    }
  }

  lemma ReadyTiles(s: State, t: Tid, goal: Goal, o: nat)
    requires Ready(s, t, goal, o)
    ensures Tiles(s.plan)
  {
    hide Tiles;
  }

  lemma ExpectedPositive(p: Plan, index: nat)
    requires Tiles(p) && index < p.total
    ensures Expected(p, index) >= 0
  {
  }

  // ---------------------------------------------------------------- completing

  /** With the mutex free, as many received indices as chunks means that every chunk is accepted. */
  lemma CountedExactly(s: State, t: Tid, o: nat)
    requires Ready(s, t, Goal.Complete, o)
    ensures o < |s.sessions| && s.plan.total >= 1
    ensures |s.sessions[o].received| == s.plan.total <==> UploadPlan.Complete(s.plan, s.accepted)
  {
    ReadySession(s, t, Goal.Complete, o);
    if |s.accepted.Keys| == s.plan.total {
      FullSet(s.accepted.Keys, s.plan.total);
    }
    if UploadPlan.Complete(s.plan, s.accepted) {
      FullKeys(s.accepted, s.plan.total);
    }
    hide Locks, Phases, Scanned, Pending, ChunkName, TmpName, Expected;
  }

  lemma NotOpened(s: State, t: Tid, o: nat)
    requires Ready(s, t, Goal.Complete, o)
    requires s.partial.Some? || !UploadPlan.Complete(s.plan, s.accepted)
    ensures UploadProtocol.Step(s, t, Go) == s.(pcs := s.pcs - {t})
  {
    hide Inv, UploadPlan.Complete;
    CountedExactly(s, t, o);
  }

  lemma DoesNothing(s: State, t: Tid, o: nat)
    requires Ready(s, t, Goal.Complete, o)
    requires s.partial.Some? || !UploadPlan.Complete(s.plan, s.accepted)
    ensures s.plan.total >= 1 && Alone(s, t, s.plan.total + 2) == s.(pcs := s.pcs - {t})
  {
    hide Inv, UploadProtocol.Step, Alone, UploadPlan.Complete;
    CountedExactly(s, t, o);
    NotOpened(s, t, o);
    AloneStep(s, t, s.plan.total + 1);
    AloneReturned(UploadProtocol.Step(s, t, Go), t, s.plan.total + 1);
  }

  lemma Completes(s: State, t: Tid, o: nat)
    requires Ready(s, t, Goal.Complete, o) && s.partial.None? && UploadPlan.Complete(s.plan, s.accepted)
    ensures s.plan.total >= 1
    ensures var s' := Alone(s, t, s.plan.total + 2);
            s'.final == Shares.Some(Assembled(s.accepted, s.plan.total)) && t in s'.pcs && s'.pcs[t] == Published(o)
  {
    hide Inv, UploadProtocol.Step, Alone, UploadPlan.Complete, Assembled;
    CountedExactly(s, t, o);
    CompleteSucceeds(s, t, o);
  }

  /** Exactly when a `complete` that holds the session with the mutex free and meets no failing file call
      publishes: every chunk is accepted and no ".uploading" file is in the way. Otherwise it does nothing. */
  lemma CompleteExactly(s: State, t: Tid, o: nat)
    requires Ready(s, t, Goal.Complete, o)
    ensures s.plan.total >= 1
    ensures var s' := Alone(s, t, s.plan.total + 2);
            if s.partial.None? && UploadPlan.Complete(s.plan, s.accepted)
            then s'.final == Shares.Some(Assembled(s.accepted, s.plan.total))
                 && t in s'.pcs && s'.pcs[t] == Published(o)
            else s' == s.(pcs := s.pcs - {t})
  {
    hide Inv, UploadProtocol.Step, Alone, UploadPlan.Complete, Assembled, Ready;
    CountedExactly(s, t, o);
    if s.partial.None? && UploadPlan.Complete(s.plan, s.accepted) {
      Completes(s, t, o);
    } else {
      DoesNothing(s, t, o);
    }
  }

  // ---------------------------------------------------------------- failing file calls

  /** The mutex is free again and the thread has returned. */
  ghost predicate Freed(s: State, s': State, t: Tid, o: nat)
    requires o < |s.sessions|
  {
    s'.sessions == s.sessions[o := s.sessions[o].(owner := Shares.None)] && s'.pcs == s.pcs - {t} && s'.plan == s.plan
    && s'.active == s.active && s'.published == s.published
  }

  /** A call that fails frees the mutex. While a chunk is written it leaves the accepted chunks and every file as
      they were, the temporary one included; while the file is put together it removes the ".uploading" file
      and changes nothing else; while the directory is removed it leaves what is still there. */
  lemma FaultsExactly(s: State, t: Tid)
    requires Inv(s) && t in s.pcs && (s.pcs[t].Spooled? || s.pcs[t].Assembling? || s.pcs[t].Removing?)
    ensures var s', o := UploadProtocol.Step(s, t, Fault), s.pcs[t].session;
            && o < |s.sessions| && Freed(s, s', t, o)
            && s'.accepted == s.accepted && s'.dir == s.dir && s'.final == s.final
            && s'.partial == if s.pcs[t].Assembling? then Shares.None else s.partial
  {
    hide Tiles, Locks, Phases, UploadProtocol.Result, UploadProtocol.Before, ChunkName, TmpName, Expected;
  }

  /** A `complete` that fails at any point of putting the file together can be repeated. */
  lemma RetrySucceeds(s: State, t: Tid, again: Tid, o: nat, next: nat)
    requires Inv(s) && t in s.pcs && s.pcs[t] == Assembling(o, next)
    requires again in s.pcs && s.pcs[again] == Holding(Goal.Complete, o)
    ensures var failed := UploadProtocol.Step(s, t, Fault);
            && Inv(failed) && failed.final.None?
            && Alone(failed, again, s.plan.total + 2).final == Shares.Some(Assembled(s.accepted, s.plan.total))
  {
    hide UploadProtocol.Step, Alone, Assembled, Tiles, Locks, UploadProtocol.Result;
    AssemblingWhole(s, t, o, next);
    StepKeeps(s, t, Fault);
    FaultsExactly(s, t);
    FreedReady(s, UploadProtocol.Step(s, t, Fault), t, again, o);
    hide Inv;
    CompleteExactly(UploadProtocol.Step(s, t, Fault), again, o);
  }

  lemma AssemblingWhole(s: State, t: Tid, o: nat, next: nat)
    requires Inv(s) && t in s.pcs && s.pcs[t] == Assembling(o, next)
    ensures s.final.None? && UploadPlan.Complete(s.plan, s.accepted)
  {
    hide Tiles, Locks, UploadProtocol.Result, OnDisk, ReceivedOnDisk, Scanned;
  }

  lemma FreedReady(s: State, s': State, t: Tid, again: Tid, o: nat)
    requires o < |s.sessions| && Freed(s, s', t, o) && Inv(s') && s'.final.None? && again != t
    requires again in s.pcs && s.pcs[again] == Holding(Goal.Complete, o)
    ensures Ready(s', again, Goal.Complete, o)
  {
    hide Inv;
  }

  /** The rename takes the ".uploading" file away, and the removal takes one file after the other. */
  lemma TidiesUp(s: State, t: Tid, o: nat, name: string)
    requires Inv(s) && t in s.pcs && (s.pcs[t] == Assembling(o, s.plan.total) || s.pcs[t] == Removing(o))
    ensures s.pcs[t].Assembling? ==>
              var s' := UploadProtocol.Step(s, t, Go);
              s.partial.Some? && s'.final == s.partial && s'.partial.None? && s'.dir == s.dir
    ensures s.pcs[t].Removing? ==>
              var s' := UploadProtocol.Step(s, t, Delete(name));
              s' == s.(dir := s'.dir) && !HasFile(s', name)
              && forall other :: other != name ==>
                   (HasFile(s', other) <==> HasFile(s, other))
                   && (HasFile(s, other) ==> s'.dir.value[other] == s.dir.value[other])
  {
    hide Tiles, Locks, UploadProtocol.Result, OnDisk, OneSession, ReceivedOnDisk, Scanned, ChunkName, TmpName, Expected;
    if s.pcs[t].Assembling? {
      AssemblyStep(s, t, o, s.plan.total);
    }
  }

  /** What `complete` leaves behind once it has renamed the file. */
  ghost predicate Cleaned(s: State, s': State, t: Tid, o: nat) {
    && o < |s.sessions| && s'.sessions == s.sessions[o := s.sessions[o].(aborted := true, owner := Shares.None)]
    && s'.final == s.final && s'.dir.None? && s'.active.None? && s'.pcs == s.pcs - {t}
  }

  lemma CleaningSteps(s: State, t: Tid, o: nat)
    requires o < |s.sessions|
    ensures Cleaned(s, RemovingStep(MarkedStep(PublishedStep(s, t, o), t, o), t, o, Go), t, o)
  {
  }

  /** After the rename the thread marks the session, drops it from memory and removes its directory. */
  lemma PublishedCleans(s: State, t: Tid, o: nat)
    requires Inv(s) && t in s.pcs && s.pcs[t] == Published(o)
    ensures Cleaned(s, Alone(s, t, 3), t, o)
  {
    hide Tiles, Locks, Phases, UploadProtocol.Result, UploadProtocol.Before, Alone, Cleaned, ChunkName;
    assert o < |s.sessions|;
    CleaningSteps(s, t, o);
    hide Inv;
    RunsThree(s, t);
  }

  /** Requests that come too late: for an upload that is out of memory and without its metadata file every one
      returns and changes nothing at all. */
  lemma UnknownUpload(s: State, t: Tid, goal: Goal)
    requires Inv(s) && t !in s.pcs && s.active.None? && !HasFile(s, META_NAME)
    ensures var called := UploadProtocol.Step(s, t, Call(goal));
            Inv(called) && Alone(called, t, 2) == s
  {
    hide Inv, Tiles, ChunkName, TmpName, Expected;
    StepKeeps(s, t, Call(goal));
    var called := UploadProtocol.Step(s, t, Call(goal));
    assert called == s.(pcs := s.pcs[t := Start(goal)]);
    AloneStep(called, t, 1);
    var reading := UploadProtocol.Step(called, t, Go);
    AloneStep(reading, t, 0);
    AloneStep(UploadProtocol.Step(reading, t, Go), t, 0);
    assert s.pcs[t := Start(goal)][t := ReadingMeta(goal)] - {t} == s.pcs;
  }

  /** And so does a `complete` that still holds the session of an upload at its destination, or whose first file
      calls fail, as well as any write to a session marked as done. */
  lemma LateRefused(s: State, t: Tid, goal: Goal, o: nat, c: Choice)
    requires Inv(s) && t in s.pcs && s.pcs[t] == Holding(goal, o)
    requires s.sessions[o].owner.None?
    requires (goal.Complete? && (s.final.Some? || c.Fault?)) || (!goal.Status? && s.sessions[o].aborted)
    ensures UploadProtocol.Step(s, t, c) == s.(pcs := s.pcs - {t})
  {
    hide Tiles, Locks, Phases, UploadProtocol.Result, UploadProtocol.Before, Expected;
  }

  /** A ".uploading" file that nobody is writing. */
  ghost predicate Leftover(s: State) {
    s.final.None? && s.partial.Some? && forall t :: t in s.pcs ==> !s.pcs[t].Assembling?
  }

  lemma LeftoverStays(s: State, e: Event)
    requires Inv(s) && Leftover(s)
    ensures Leftover(Next(s, e))
  {
    hide Tiles, Locks, UploadProtocol.Before, ChunkName, TmpName, Expected;
  }

  /** A crash in the middle of assembling leaves the ".uploading" file, and then no `complete` of any later run
      ever publishes: the file is opened with O_EXCL and nobody removes it. */
  lemma {:induction false} LeftoverBlocks(s: State, evs: seq<Event>)
    requires Inv(s) && Leftover(s)
    ensures Run(s, evs).final.None?
    decreases |evs|
  {
    hide Inv, Next;
    if evs != [] {
      NextKeeps(s, evs[0]);
      LeftoverStays(s, evs[0]);
      LeftoverBlocks(Next(s, evs[0]), evs[1..]);
    }
  }

  lemma CrashWhileAssembling(s: State, t: Tid)
    requires Inv(s) && t in s.pcs && s.pcs[t].Assembling?
    ensures Leftover(Next(s, Crash))
  {
    hide Tiles, Locks;
  }

  // ---------------------------------------------------------------- a whole upload

  /** Between requests of an upload under way. */
  ghost predicate Idle(s: State) {
    && Inv(s) && s.final.None? && s.partial.None? && s.pcs == map[]
    && (s.active.Some? ==> s.sessions[s.active.value].owner.None?)
  }

  /** Request `goal` of thread `t`, given `n` steps. */
  function Turn(t: Tid, goal: Goal, n: nat): seq<Event> {
    [Act(t, Call(goal))] + Steps(t, n)
  }

  function Steps(t: Tid, n: nat): seq<Event> {
    seq(n, _ => Act(t, Go))
  }

  /** More steps than any request needs: rehydrating takes one for each chunk, and so does assembling. */
  function Patience(p: Plan): int {
    2 * p.total + 8
  }

  lemma {:induction false} RunSteps(s: State, t: Tid, n: nat)
    requires Inv(s)
    ensures Run(s, Steps(t, n)) == Alone(s, t, n)
    decreases n
  {
    hide Inv, UploadProtocol.Step;
    if n > 0 {
      var evs := Steps(t, n);
      assert evs[0] == Act(t, Go) && evs[1..] == Steps(t, n - 1);
      NextKeeps(s, evs[0]);
      AloneStep(s, t, n - 1);
      RunSteps(UploadProtocol.Step(s, t, Go), t, n - 1);
    }
  }

  lemma RunTurn(s: State, t: Tid, goal: Goal, n: nat)
    requires Inv(s)
    ensures var s0 := UploadProtocol.Step(s, t, Call(goal)); Inv(s0) && Run(s, Turn(t, goal, n)) == Alone(s0, t, n)
  {
    hide Inv, UploadProtocol.Step, Alone;
    StepKeeps(s, t, Call(goal));
    var evs := Turn(t, goal, n);
    assert evs[0] == Act(t, Call(goal)) && evs[1..] == Steps(t, n);
    RunSteps(UploadProtocol.Step(s, t, Call(goal)), t, n);
  }

  lemma {:induction false} RunBoth(s: State, a: seq<Event>, b: seq<Event>)
    requires Inv(s)
    ensures Run(s, a + b) == Run(Run(s, a), b)
    decreases |a|
  {
    hide Inv, Next;
    if a == [] {
      assert a + b == b;
    } else {
      assert (a + b)[0] == a[0] && (a + b)[1..] == a[1..] + b;
      NextKeeps(s, a[0]);
      RunBoth(Next(s, a[0]), a[1..], b);
    }
  }

  /** A thread that rehydrates the session while nothing else happens. */
  lemma {:induction false} ScansAlone(s: State, t: Tid, goal: Goal, next: nat, got: set<nat>) returns (o: nat)
    requires Inv(s) && s.final.None? && s.active.None?
    requires s.pcs == map[t := Scanning(goal, next, got)] && next <= s.plan.total
    ensures Reached(s, Alone(s, t, s.plan.total - next + 2), t, goal, o)
    decreases s.plan.total - next
  {
    hide Inv, UploadProtocol.Step, Reached;
    AloneStep(s, t, s.plan.total - next + 1);
    var s1 := UploadProtocol.Step(s, t, Go);
    if next < s.plan.total {
      ScansOne(s, t, goal, next, got);
      o := ScansAlone(s1, t, goal, next + 1, s1.pcs[t].got);
      SamePlan(s, s1, Alone(s, t, s.plan.total - next + 2), t, goal, o);
    } else {
      ScansLast(s, t, goal, next, got);
      AloneStep(s1, t, 0);
      AloneStep(UploadProtocol.Step(s1, t, Go), t, 0);
      o := |s.sessions|;
    }
  }

  lemma ScansOne(s: State, t: Tid, goal: Goal, next: nat, got: set<nat>)
    requires Inv(s) && s.pcs == map[t := Scanning(goal, next, got)] && next < s.plan.total
    ensures var s' := UploadProtocol.Step(s, t, Go);
            t in s'.pcs && s'.pcs[t].Scanning? && s' == s.(pcs := map[t := Scanning(goal, next + 1, s'.pcs[t].got)])
  {
    hide Inv, ChunkName;
    var s' := UploadProtocol.Step(s, t, Go);
    assert s'.pcs == map[t := s'.pcs[t]];
  }

  lemma ScansLast(s: State, t: Tid, goal: Goal, next: nat, got: set<nat>)
    requires Inv(s) && s.final.None? && s.active.None?
    requires s.pcs == map[t := Scanning(goal, next, got)] && next >= s.plan.total
    ensures var s1 := UploadProtocol.Step(s, t, Go);
            Inv(s1) && Reached(s, UploadProtocol.Step(s1, t, Go), t, goal, |s.sessions|)
  {
    hide Inv;
    StepKeeps(s, t, Go);
    var s1 := UploadProtocol.Step(s, t, Go);
    StepKeeps(s1, t, Go);
    assert s1 == s.(pcs := map[t := Inserting(goal, got)]);
    assert UploadProtocol.Step(s1, t, Go).pcs == map[t := Holding(goal, |s.sessions|)];
  }

  /** The thread holds the session with the mutex free, and nothing else has happened. */
  ghost predicate Reached(s: State, s': State, t: Tid, goal: Goal, o: nat) {
    && Ready(s', t, goal, o) && s'.pcs == map[t := Holding(goal, o)]
    && s' == s.(pcs := s'.pcs, active := Shares.Some(o), sessions := s'.sessions)
  }

  lemma SamePlan(s: State, s1: State, s': State, t: Tid, goal: Goal, o: nat)
    requires Reached(s1, s', t, goal, o) && s1 == s.(pcs := s1.pcs)
    ensures Reached(s, s', t, goal, o)
  {
    hide Ready;
  }

  lemma FromMemory(s: State, t: Tid, goal: Goal)
    requires Idle(s) && s.active.Some?
    ensures var s0 := UploadProtocol.Step(s, t, Call(goal));
            Inv(s0) && Reached(s, UploadProtocol.Step(s0, t, Go), t, goal, s.active.value)
  {
    assert s.active.value < |s.sessions|;
    hide Inv;
    StepKeeps(s, t, Call(goal));
    var s0 := UploadProtocol.Step(s, t, Call(goal));
    StepKeeps(s0, t, Go);
    assert UploadProtocol.Step(s0, t, Go).pcs == map[t := Holding(goal, s.active.value)];
  }

  lemma FromDisk(s: State, t: Tid, goal: Goal)
    requires Idle(s) && s.active.None?
    ensures var s0 := UploadProtocol.Step(s, t, Call(goal));
            && Inv(s0)
            && var s1 := UploadProtocol.Step(s0, t, Go);
               Inv(s1) && Inv(UploadProtocol.Step(s1, t, Go))
               && UploadProtocol.Step(s1, t, Go) == s.(pcs := map[t := Scanning(goal, 0, {})])
  {
    assert HasFile(s, META_NAME);
    hide Inv;
    StepKeeps(s, t, Call(goal));
    var s0 := UploadProtocol.Step(s, t, Call(goal));
    StepKeeps(s0, t, Go);
    var s1 := UploadProtocol.Step(s0, t, Go);
    StepKeeps(s1, t, Go);
    assert UploadProtocol.Step(s1, t, Go).pcs == map[t := Scanning(goal, 0, {})];
  }

  /** `acquire` finds the session, in memory or by rehydrating it. */
  lemma Acquires(s: State, t: Tid, goal: Goal) returns (k: nat, o: nat)
    requires Idle(s)
    ensures var s0 := UploadProtocol.Step(s, t, Call(goal));
            Inv(s0) && k <= s.plan.total + 4 && Reached(s, Alone(s0, t, k), t, goal, o)
  {
    hide UploadProtocol.Step, Reached, Inv, Alone;
    StepKeeps(s, t, Call(goal));
    assert s.plan.total >= 1 by { TilesSome(s); }
    var s0 := UploadProtocol.Step(s, t, Call(goal));
    if s.active.Some? {
      k, o := 1, s.active.value;
      FromMemory(s, t, goal);
      AloneStep(s0, t, 0);
      AloneStep(UploadProtocol.Step(s0, t, Go), t, 0);
    } else {
      FromDisk(s, t, goal);
      var s1 := UploadProtocol.Step(s0, t, Go);
      var s2 := UploadProtocol.Step(s1, t, Go);
      o := ScansAlone(s2, t, goal, 0, {});
      k := s.plan.total + 4;
      AloneStep(s0, t, k - 1);
      AloneStep(s1, t, k - 2);
      SamePlan(s, s2, Alone(s0, t, k), t, goal, o);
    }
  }

  lemma IdleInv(s: State)
    requires Idle(s)
    ensures Inv(s)
  {
  }

  lemma TilesSome(s: State)
    requires Inv(s)
    ensures s.plan.total >= 1
  {
  }

  /** Once the session is reached, the chunk is recorded and the thread returns. */
  lemma WriteServed(s: State, held: State, t: Tid, o: nat, index: nat, declared: int, body: FileSystem.Bytes, m: nat)
    requires Idle(s) && Admissible(s.plan, index, declared, body) && m >= 3
    requires Reached(s, held, t, Write(index, declared, body), o)
    ensures Inv(held)
    ensures var s' := Alone(held, t, m); Idle(s') && s'.plan == s.plan && s'.accepted == s.accepted[index := body]
  {
    hide Inv, UploadProtocol.Step, Alone, Taken, Admissible;
    WriteAccepted(held, t, o, index, declared, body);
    AloneMore(held, t, 3, m - 3);
    var done := Alone(held, t, 3);
    TakenIdle(held, done, t, o, index, body);
    AloneReturned(done, t, m - 3);
  }

  /** A request to write a chunk, served from start to end. */
  lemma ServesWrite(s: State, t: Tid, index: nat, declared: int, body: FileSystem.Bytes)
    requires Idle(s) && Admissible(s.plan, index, declared, body)
    ensures Patience(s.plan) >= 0
    ensures var s' := Run(s, Turn(t, Write(index, declared, body), Patience(s.plan)));
            Idle(s') && s'.plan == s.plan && s'.accepted == s.accepted[index := body]
  {
    hide Inv, UploadProtocol.Step, Alone, Reached, Admissible, Run, Turn, Idle;
    IdleInv(s);
    TilesSome(s);
    var goal := Write(index, declared, body);
    var n := Patience(s.plan);
    RunTurn(s, t, goal, n);
    var s0 := UploadProtocol.Step(s, t, Call(goal));
    var k, o := Acquires(s, t, goal);
    AloneMore(s0, t, k, n - k);
    WriteServed(s, Alone(s0, t, k), t, o, index, declared, body, n - k);
  }

  lemma TakenIdle(s: State, s': State, t: Tid, o: nat, index: nat, body: FileSystem.Bytes)
    requires Inv(s) && Inv(s') && s.final.None? && s.partial.None? && s.pcs.Keys == {t} && s.active == Shares.Some(o)
    requires o < |s.sessions| && s.sessions[o].owner.None? && Taken(s, s', t, o, index, body)
    ensures Idle(s') && s'.plan == s.plan && s'.accepted == s.accepted[index := body] && t !in s'.pcs
  {
    hide Inv;
    assert s'.pcs == map[];
  }

  lemma {:induction false} AloneFinal(s: State, t: Tid, n: nat)
    requires Inv(s) && s.final.Some?
    ensures Alone(s, t, n).final == s.final
    decreases n
  {
    hide Inv, UploadProtocol.Step;
    if n > 0 {
      AloneStep(s, t, n - 1);
      NextFinal(s, Act(t, Go));
      AloneFinal(UploadProtocol.Step(s, t, Go), t, n - 1);
    }
  }

  lemma CompleteServed(s: State, held: State, t: Tid, o: nat, m: nat)
    requires Idle(s) && UploadPlan.Complete(s.plan, s.accepted) && m >= s.plan.total + 2
    requires Reached(s, held, t, Goal.Complete, o)
    ensures Inv(held) && Alone(held, t, m).final == Shares.Some(Assembled(s.accepted, s.plan.total))
  {
    hide Inv, UploadProtocol.Step, Alone, Assembled, UploadPlan.Complete;
    CompleteExactly(held, t, o);
    var most := s.plan.total + 2;
    AloneMore(held, t, most, m - most);
    AloneFinal(Alone(held, t, most), t, m - most);
  }

  /** A `complete` with every chunk there, served from start to end. */
  lemma ServesComplete(s: State, t: Tid)
    requires Idle(s) && UploadPlan.Complete(s.plan, s.accepted)
    ensures Patience(s.plan) >= 0
    ensures Run(s, Turn(t, Goal.Complete, Patience(s.plan))).final == Shares.Some(Assembled(s.accepted, s.plan.total))
  {
    hide Inv, UploadProtocol.Step, Alone, Reached, Assembled, UploadPlan.Complete, Run, Turn, Idle;
    IdleInv(s);
    TilesSome(s);
    var n := Patience(s.plan);
    RunTurn(s, t, Goal.Complete, n);
    var s0 := UploadProtocol.Step(s, t, Call(Goal.Complete));
    var k, o := Acquires(s, t, Goal.Complete);
    AloneMore(s0, t, k, n - k);
    CompleteServed(s, Alone(s0, t, k), t, o, n - k);
  }

  /** What happens to an upload between its start and its completion. */
  datatype Visit = Post(t: Tid, index: int, declared: int, body: FileSystem.Bytes) | Restart

  function Events(p: Plan, visits: seq<Visit>): seq<Event>
    requires p.total >= 1
  {
    if visits == [] then []
    else
      (match visits[0]
       case Post(t, index, declared, body) => Turn(t, Write(index, declared, body), Patience(p))
       case Restart => [Crash]) + Events(p, visits[1..])
  }

  /** Every post is a slice of the payload, announced with its length or not at all. */
  ghost predicate Slices(p: Plan, payload: FileSystem.Bytes, visits: seq<Visit>) {
    forall k :: 0 <= k < |visits| && visits[k].Post? ==>
      var v := visits[k];
      0 <= v.index < p.total && IsSlice(p, payload, v.body, v.index) && (v.declared < 0 || v.declared == |v.body|)
  }

  predicate Posted(visits: seq<Visit>, index: nat) {
    exists k :: 0 <= k < |visits| && visits[k].Post? && visits[k].index == index
  }

  lemma SliceLength(p: Plan, payload: FileSystem.Bytes, body: FileSystem.Bytes, index: nat)
    requires Tiles(p) && index < p.total && IsSlice(p, payload, body, index)
    ensures |body| == Expected(p, index)
  {
  }

  lemma PostedFirst(visits: seq<Visit>, index: nat)
    requires visits != []
    ensures Posted(visits, index) <==> (visits[0].Post? && visits[0].index == index) || Posted(visits[1..], index)
  {
    if Posted(visits, index) {
      var k :| 0 <= k < |visits| && visits[k].Post? && visits[k].index == index;
      if k > 0 {
        assert visits[1..][k - 1] == visits[k];
      }
    }
    if Posted(visits[1..], index) {
      var k :| 0 <= k < |visits[1..]| && visits[1..][k].Post? && visits[1..][k].index == index;
      assert visits[k + 1] == visits[1..][k];
    }
  }

  lemma CrashIdle(s: State)
    requires Idle(s)
    ensures Idle(Next(s, Crash)) && Next(s, Crash).plan == s.plan && Next(s, Crash).accepted == s.accepted
  {
    NextKeeps(s, Crash);
    hide Inv;
  }

  lemma VisitDone(s: State, v: Visit, payload: FileSystem.Bytes) returns (s': State)
    requires Idle(s) && Tiles(s.plan) && Slices(s.plan, payload, [v])
    ensures s.plan.total >= 1 && s' == Run(s, Events(s.plan, [v])) && Idle(s') && s'.plan == s.plan
    ensures s'.accepted == if v.Post? then s.accepted[v.index := v.body] else s.accepted
  {
    hide Inv, Next, Expected, IsSlice;
    var vs := [v];
    assert vs[0] == v && vs[1..] == [];
    s' := Run(s, Events(s.plan, [v]));
    match v {
      case Post(t, index, declared, body) =>
        SliceLength(s.plan, payload, body, index);
        var turn := Turn(t, Write(index, declared, body), Patience(s.plan));
        assert Events(s.plan, [v]) == turn + [] == turn;
        hide Tiles, Run;
        ServesWrite(s, t, index, declared, body);
      case Restart =>
        assert Events(s.plan, [v]) == [Crash] + [] == [Crash];
        NextKeeps(s, Crash);
        CrashIdle(s);
        assert Run(s, [Crash]) == Run(Next(s, Crash), [Crash][1..]);
    }
  }

  ghost predicate FromSlices(s: State, payload: FileSystem.Bytes) {
    forall i :: i in s.accepted ==> i < s.plan.total && IsSlice(s.plan, payload, s.accepted[i], i)
  }

  lemma {:induction false} VisitsDone(s: State, visits: seq<Visit>, payload: FileSystem.Bytes)
    requires Idle(s) && Tiles(s.plan) && Slices(s.plan, payload, visits) && FromSlices(s, payload)
    ensures s.plan.total >= 1
    ensures var s' := Run(s, Events(s.plan, visits));
            && Idle(s') && s'.plan == s.plan && FromSlices(s', payload)
            && forall i: nat :: i in s'.accepted <==> i in s.accepted || Posted(visits, i)
    decreases |visits|
  {
    hide Inv, Next, Tiles, Expected, IsSlice, Run, Idle;
    IdleInv(s);
    TilesSome(s);
    if visits == [] {
      EmptyRun(s);
    } else {
      var v, rest := visits[0], visits[1..];
      assert Slices(s.plan, payload, [v]) && Slices(s.plan, payload, rest) by {
        assert forall k :: 0 <= k < |rest| ==> rest[k] == visits[k + 1];
      }
      var s1 := VisitDone(s, v, payload);
      assert Events(s.plan, visits) == Events(s.plan, [v]) + Events(s.plan, rest) by {
        assert [v][1..] == [];
      }
      RunBoth(s, Events(s.plan, [v]), Events(s.plan, rest));
      VisitsDone(s1, rest, payload);
      forall i: nat ensures Posted(visits, i) <==> (v.Post? && v.index == i) || Posted(rest, i) {
        PostedFirst(visits, i);
      }
    }
  }

  lemma InitialIdle(plan: Plan)
    requires Tiles(plan)
    ensures Idle(Initial(plan)) && plan.total >= 1
  {
    InitialInv(plan);
  }

  lemma EmptyRun(s: State)
    requires Inv(s)
    ensures Run(s, []) == s
  {
  }

  /** From a new upload, by whatever threads, in whatever order, with repetitions and with restarts of the
      process anywhere between the requests: when every slice of the payload has been posted, one `complete`
      puts the payload at the destination. */
  lemma UploadArrives(plan: Plan, payload: FileSystem.Bytes, visits: seq<Visit>, t: Tid)
    requires Tiles(plan) && |payload| == plan.size && Slices(plan, payload, visits)
    requires forall i: nat :: i < plan.total ==> Posted(visits, i)
    ensures Inv(Initial(plan))
    ensures Run(Initial(plan), Events(plan, visits) + Turn(t, Goal.Complete, Patience(plan))).final
            == Shares.Some(payload)
  {
    hide Inv, Next, Run, Tiles, Expected, IsSlice, Assembled, Idle, Events, Turn, Posted;
    InitialInv(plan);
    var start := Initial(plan);
    InitialIdle(plan);
    VisitsDone(start, visits, payload);
    var s := Run(start, Events(plan, visits));
    RunBoth(start, Events(plan, visits), Turn(t, Goal.Complete, Patience(plan)));
    forall i | i in s.accepted ensures |s.accepted[i]| == Expected(plan, i) {
      SliceLength(plan, payload, s.accepted[i], i);
    }
    forall i: nat ensures i in s.accepted <==> i < plan.total {
    }
    ServesComplete(s, t);
    PayloadRestored(plan, payload, s.accepted);
  }
}
