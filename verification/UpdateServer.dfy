/**
  One update run at a time, and never together with a scheduled dump
  (sidecar/update-server.py, `start_run` and `scheduled_backup_once`).

  Any number of request handlers, the backup loops and the worker threads take
  turns step by step; `_run_lock` is held over exactly the steps that hold it in
  the code, and the `running` flag is cleared without it.
 */
module UpdateServer {
  import opened Wrappers

  /** Where a request handler is in `start_run`. */
  datatype Handler =
    | Idle
    | WantsLock
    | HasLock        // before the thread check
    | NoRunSeen      // the thread check passed
    | NoDumpSeen     // the flag check passed too
    | ThreadMade     // `_run_thread` assigned, not started
    | Leaving        // about to release the lock

  /** Where a backup loop is in `scheduled_backup_once`. */
  datatype Backup =
    | Sleeping
    | Due
    | Holding        // lock acquired, before the thread check
    | NoRunFound     // the thread check passed
    | Marked         // `running` set, lock still held
    | Dumping        // lock released, dump in progress
    | Dumped         // dump over, `running` not yet cleared
    | Skipping       // an update is active; about to release

  datatype Thread = Created | Alive | Exited

  datatype Lock = Free | ByHandler(i: nat) | ByBackup(j: nat)

  datatype State = State(
    lock: Lock,
    handlers: seq<Handler>,
    backups: seq<Backup>,
    threads: seq<Thread>,
    runThread: Option<nat>,
    running: bool)

  datatype Step =
    | Arrive
    | Request(i: nat)
    | Acquire(i: nat)
    | CheckThread(i: nat)
    | CheckFlag(i: nat)
    | MakeThread(i: nat)
    | BuildFails(i: nat)
    | StartThread(i: nat)
    | StartFails(i: nat)
    | Release(i: nat)
    | WorkerExits(t: nat)
    | BackupDue(j: nat)
    | BackupAcquire(j: nat)
    | BackupCheck(j: nat)
    | BackupMark(j: nat)
    | BackupRelease(j: nat)
    | BackupSkip(j: nat)
    | DumpEnds(j: nat)
    | ClearFlag(j: nat)

  /** A fresh server with `loops` backup loops. */
  function Start(loops: nat): State {
    State(Free, [], seq(loops, _ => Sleeping), [], None, false)
  }

  /** There is a worker thread and it has been started and not ended. */
  predicate RunActive(s: State) {
    s.runThread.Some? && s.runThread.value < |s.threads| && s.threads[s.runThread.value] == Alive
  }

  predicate HandlerAt(s: State, i: nat, h: Handler) { i < |s.handlers| && s.handlers[i] == h }

  predicate BackupAt(s: State, j: nat, b: Backup) { j < |s.backups| && s.backups[j] == b }

  predicate Enabled(s: State, step: Step) {
    match step
    case Arrive => true
    case Request(i) => HandlerAt(s, i, Idle)
    case Acquire(i) => HandlerAt(s, i, WantsLock) && s.lock == Free
    case CheckThread(i) => HandlerAt(s, i, HasLock)
    case CheckFlag(i) => HandlerAt(s, i, NoRunSeen)
    case MakeThread(i) => HandlerAt(s, i, NoDumpSeen)
    case BuildFails(i) => HandlerAt(s, i, NoDumpSeen)
    case StartThread(i) => HandlerAt(s, i, ThreadMade) && s.runThread.Some? && s.runThread.value < |s.threads|
    case StartFails(i) => HandlerAt(s, i, ThreadMade)
    case Release(i) => HandlerAt(s, i, Leaving)
    case WorkerExits(t) => t < |s.threads| && s.threads[t] == Alive
    case BackupDue(j) => BackupAt(s, j, Sleeping)
    case BackupAcquire(j) => BackupAt(s, j, Due) && s.lock == Free
    case BackupCheck(j) => BackupAt(s, j, Holding)
    case BackupMark(j) => BackupAt(s, j, NoRunFound)
    case BackupRelease(j) => BackupAt(s, j, Marked)
    case BackupSkip(j) => BackupAt(s, j, Skipping)
    case DumpEnds(j) => BackupAt(s, j, Dumping)
    case ClearFlag(j) => BackupAt(s, j, Dumped)
  }

  function Move(s: State, i: nat, h: Handler): State
    requires i < |s.handlers|
  {
    s.(handlers := s.handlers[i := h])
  }

  function Go(s: State, j: nat, b: Backup): State
    requires j < |s.backups|
  {
    s.(backups := s.backups[j := b])
  }

  function Apply(s: State, step: Step): State
    requires Enabled(s, step)
  {
    match step
    case Arrive => s.(handlers := s.handlers + [Idle])
    case Request(i) => Move(s, i, WantsLock)
    case Acquire(i) => Move(s, i, HasLock).(lock := ByHandler(i))
    case CheckThread(i) => Move(s, i, if RunActive(s) then Leaving else NoRunSeen)
    case CheckFlag(i) => Move(s, i, if s.running then Leaving else NoDumpSeen)
    case MakeThread(i) => Move(s, i, ThreadMade).(threads := s.threads + [Created], runThread := Some(|s.threads|))
    case BuildFails(i) => Move(s, i, Leaving)
    case StartThread(i) => Move(s, i, Leaving).(threads := s.threads[s.runThread.value := Alive])
    case StartFails(i) => Move(s, i, Leaving)
    case Release(i) => Move(s, i, Idle).(lock := Free)
    case WorkerExits(t) => s.(threads := s.threads[t := Exited])
    case BackupDue(j) => Go(s, j, Due)
    case BackupAcquire(j) => Go(s, j, Holding).(lock := ByBackup(j))
    case BackupCheck(j) => Go(s, j, if RunActive(s) then Skipping else NoRunFound)
    case BackupMark(j) => Go(s, j, Marked).(running := true)
    case BackupRelease(j) => Go(s, j, Dumping).(lock := Free)
    case BackupSkip(j) => Go(s, j, Sleeping).(lock := Free)
    case DumpEnds(j) => Go(s, j, Dumped)
    case ClearFlag(j) => Go(s, j, Sleeping).(running := false)
  }

  /** The state after a run, if every step was enabled when taken. */
  function After(loops: nat, steps: seq<Step>): Option<State> {
    if steps == [] then Some(Start(loops))
    else
      var before := After(loops, steps[..|steps| - 1]);
      var step := steps[|steps| - 1];
      if before.Some? && Enabled(before.value, step) then Some(Apply(before.value, step)) else None
  }

  // ── Safety ─────────────────────────────────────────────────────────────────

  /** At most one update runs, and none while a dump is in progress. */
  ghost predicate Exclusive(s: State) {
    && (forall t, u :: 0 <= t < |s.threads| && 0 <= u < |s.threads| && s.threads[t] == Alive == s.threads[u] ==> t == u)
    && (forall t, j :: 0 <= t < |s.threads| && s.threads[t] == Alive && 0 <= j < |s.backups| ==> s.backups[j] != Dumping)
  }

  predicate HandlerHolds(h: Handler) { h !in {Idle, WantsLock} }

  predicate BackupHolds(b: Backup) { b in {Holding, NoRunFound, Marked, Skipping} }

  /** From setting the flag to clearing it. */
  predicate Busy(b: Backup) { b in {Marked, Dumping, Dumped} }

  ghost predicate NoneAlive(s: State) { forall t :: 0 <= t < |s.threads| ==> s.threads[t] != Alive }

  ghost predicate Invariant(s: State) {
    && |s.backups| <= 1
    && (s.lock.ByHandler? ==> s.lock.i < |s.handlers|)
    && (s.lock.ByBackup? ==> s.lock.j < |s.backups|)
    && (forall i :: 0 <= i < |s.handlers| ==> (HandlerHolds(s.handlers[i]) <==> s.lock == ByHandler(i)))
    && (forall j :: 0 <= j < |s.backups| ==> (BackupHolds(s.backups[j]) <==> s.lock == ByBackup(j)))
    && (forall t :: 0 <= t < |s.threads| && s.threads[t] == Alive ==> s.runThread == Some(t))
    && (forall i :: 0 <= i < |s.handlers| && s.handlers[i] in {NoRunSeen, NoDumpSeen, ThreadMade} ==> NoneAlive(s))
    && (forall i :: 0 <= i < |s.handlers| && s.handlers[i] in {NoDumpSeen, ThreadMade} ==> !s.running)
    && (forall j :: 0 <= j < |s.backups| && (s.backups[j] == NoRunFound || Busy(s.backups[j])) ==> NoneAlive(s))
    && (s.running <==> |s.backups| == 1 && Busy(s.backups[0]))
  }

  lemma ComesAndWaits(s: State, step: Step)
    requires Invariant(s) && Enabled(s, step) && (step.Arrive? || step.Request?)
    ensures Invariant(Apply(s, step))
  {}

  lemma TakesLock(s: State, step: Step)
    requires Invariant(s) && Enabled(s, step) && step.Acquire?
    ensures Invariant(Apply(s, step))
  {}

  lemma LooksForRun(s: State, step: Step)
    requires Invariant(s) && Enabled(s, step) && step.CheckThread?
    ensures Invariant(Apply(s, step))
  {}

  lemma LooksForDump(s: State, step: Step)
    requires Invariant(s) && Enabled(s, step) && step.CheckFlag?
    ensures Invariant(Apply(s, step))
  {}

  lemma GivesUp(s: State, step: Step)
    requires Invariant(s) && Enabled(s, step) && (step.BuildFails? || step.StartFails?)
    ensures Invariant(Apply(s, step))
  {}

  lemma MakesThread(s: State, step: Step)
    requires Invariant(s) && Enabled(s, step) && step.MakeThread?
    ensures Invariant(Apply(s, step))
  {}

  lemma StartsThread(s: State, step: Step)
    requires Invariant(s) && Enabled(s, step) && step.StartThread?
    ensures Invariant(Apply(s, step))
  {}

  lemma ReleasesLock(s: State, step: Step)
    requires Invariant(s) && Enabled(s, step) && step.Release?
    ensures Invariant(Apply(s, step))
  {}

  lemma WorkerGone(s: State, step: Step)
    requires Invariant(s) && Enabled(s, step) && step.WorkerExits?
    ensures Invariant(Apply(s, step))
  {}

  lemma BackupComesDue(s: State, step: Step)
    requires Invariant(s) && Enabled(s, step) && step.BackupDue?
    ensures Invariant(Apply(s, step))
  {}

  lemma BackupTakesLock(s: State, step: Step)
    requires Invariant(s) && Enabled(s, step) && step.BackupAcquire?
    ensures Invariant(Apply(s, step))
  {}

  lemma BackupLooks(s: State, step: Step)
    requires Invariant(s) && Enabled(s, step) && step.BackupCheck?
    ensures Invariant(Apply(s, step))
  {}

  lemma BackupMarks(s: State, step: Step)
    requires Invariant(s) && Enabled(s, step) && step.BackupMark?
    ensures Invariant(Apply(s, step))
  {}

  lemma BackupReleases(s: State, step: Step)
    requires Invariant(s) && Enabled(s, step) && step.BackupRelease?
    ensures Invariant(Apply(s, step))
  {}

  lemma BackupSkips(s: State, step: Step)
    requires Invariant(s) && Enabled(s, step) && step.BackupSkip?
    ensures Invariant(Apply(s, step))
  {}

  lemma DumpEnding(s: State, step: Step)
    requires Invariant(s) && Enabled(s, step) && step.DumpEnds?
    ensures Invariant(Apply(s, step))
  {}

  lemma FlagCleared(s: State, step: Step)
    requires Invariant(s) && Enabled(s, step) && step.ClearFlag?
    ensures Invariant(Apply(s, step))
  {}

  lemma StepKeepsInvariant(s: State, step: Step)
    requires Invariant(s) && Enabled(s, step)
    ensures Invariant(Apply(s, step))
  {
    hide Invariant, Enabled, Apply;
    match step
    case Arrive => ComesAndWaits(s, step);
    case Request(_) => ComesAndWaits(s, step);
    case Acquire(_) => TakesLock(s, step);
    case CheckThread(_) => LooksForRun(s, step);
    case CheckFlag(_) => LooksForDump(s, step);
    case BuildFails(_) => GivesUp(s, step);
    case StartFails(_) => GivesUp(s, step);
    case MakeThread(_) => MakesThread(s, step);
    case StartThread(_) => StartsThread(s, step);
    case Release(_) => ReleasesLock(s, step);
    case WorkerExits(_) => WorkerGone(s, step);
    case BackupDue(_) => BackupComesDue(s, step);
    case BackupAcquire(_) => BackupTakesLock(s, step);
    case BackupCheck(_) => BackupLooks(s, step);
    case BackupMark(_) => BackupMarks(s, step);
    case BackupRelease(_) => BackupReleases(s, step);
    case BackupSkip(_) => BackupSkips(s, step);
    case DumpEnds(_) => DumpEnding(s, step);
    case ClearFlag(_) => FlagCleared(s, step);
  }

  /** Over every run of a server with at most one backup loop, the two checks tell the
      truth: a request goes on past them exactly if no update is running and no dump is
      between marking and clearing its flag, a dump exactly if no update is running. So
      a run that could not be built or started never blocks a later one. */
  lemma RefusedIffBusy(loops: nat, steps: seq<Step>)
    requires loops <= 1 && After(loops, steps).Some?
    ensures var s := After(loops, steps).value;
      && (forall i :: HandlerAt(s, i, HasLock) ==>
            HandlerAt(Apply(s, CheckThread(i)), i, if NoneAlive(s) then NoRunSeen else Leaving))
      && (forall i :: HandlerAt(s, i, NoRunSeen) ==>
            HandlerAt(Apply(s, CheckFlag(i)), i,
                      if exists j :: 0 <= j < |s.backups| && s.backups[j] in {Marked, Dumping, Dumped} then Leaving else NoDumpSeen))
      && (forall j :: BackupAt(s, j, Holding) ==>
            BackupAt(Apply(s, BackupCheck(j)), j, if NoneAlive(s) then NoRunFound else Skipping))
  {
    RunKeepsInvariant(loops, steps);
    var s := After(loops, steps).value;
    ActiveIffAlive(s);
    RunningIffDump(s);
    hide After, Invariant, RunActive, NoneAlive;
  }

  lemma ActiveIffAlive(s: State)
    requires Invariant(s)
    ensures RunActive(s) <==> !NoneAlive(s)
  {}

  lemma RunningIffDump(s: State)
    requires Invariant(s)
    ensures s.running <==> exists j :: 0 <= j < |s.backups| && s.backups[j] in {Marked, Dumping, Dumped}
  {
    if s.running { assert Busy(s.backups[0]); }
  }

  lemma {:induction false} RunKeepsInvariant(loops: nat, steps: seq<Step>)
    requires loops <= 1
    ensures After(loops, steps).Some? ==> Invariant(After(loops, steps).value)
  {
    if steps != [] {
      RunKeepsInvariant(loops, steps[..|steps| - 1]);
      hide Invariant, Apply;
      var before := After(loops, steps[..|steps| - 1]);
      var step := steps[|steps| - 1];
      if before.Some? && Enabled(before.value, step) {
        StepKeepsInvariant(before.value, step);
      }
    }
  }

  /** Run steps from a given state, the first one first. */
  function Through(s: State, steps: seq<Step>): Option<State>
    decreases |steps|
  {
    if steps == [] then Some(s)
    else if Enabled(s, steps[0]) then Through(Apply(s, steps[0]), steps[1..])
    else None
  }

  lemma {:induction false} ThroughIsAfter(loops: nat, done: seq<Step>, steps: seq<Step>)
    requires After(loops, done).Some? && Through(After(loops, done).value, steps).Some?
    ensures After(loops, done + steps) == Through(After(loops, done).value, steps)
    decreases |steps|
  {
    hide Apply, Enabled;
    if steps == [] {
      assert done + steps == done;
    } else {
      var next := done + [steps[0]];
      assert next[..|done|] == done;
      assert next + steps[1..] == done + steps;
      ThroughIsAfter(loops, next, steps[1..]);
    }
  }

  /** A step, then the rest. */
  lemma StepThrough(s: State, step: Step, rest: seq<Step>)
    requires Enabled(s, step)
    ensures Through(s, [step] + rest) == Through(Apply(s, step), rest)
  {
    hide Apply, Enabled;
    assert ([step] + rest)[1..] == rest;
  }

  function DumpBegins(j: nat): seq<Step> {
    [BackupDue(j)] + ([BackupAcquire(j)] + ([BackupCheck(j)] + ([BackupMark(j)] + [BackupRelease(j)])))
  }

  function UpdateBegins(): seq<Step> {
    [Arrive] + ([Request(0)] + ([Acquire(0)] + ([CheckThread(0)] + ([CheckFlag(0)] + ([MakeThread(0)] + [StartThread(0)])))))
  }

  lemma BackupSteps(s: State, j: nat)
    requires BackupAt(s, j, Sleeping) && s.lock == Free && !RunActive(s)
    ensures var held := s.(lock := ByBackup(j));
      && Enabled(s, BackupDue(j)) && Apply(s, BackupDue(j)) == Go(s, j, Due)
      && Enabled(Go(s, j, Due), BackupAcquire(j))
      && Apply(Go(s, j, Due), BackupAcquire(j)) == Go(held, j, Holding)
      && Enabled(Go(held, j, Holding), BackupCheck(j))
      && Apply(Go(held, j, Holding), BackupCheck(j)) == Go(held, j, NoRunFound)
      && Enabled(Go(held, j, NoRunFound), BackupMark(j))
      && Apply(Go(held, j, NoRunFound), BackupMark(j)) == Go(held, j, Marked).(running := true)
      && Enabled(Go(held, j, Marked).(running := true), BackupRelease(j))
      && Apply(Go(held, j, Marked).(running := true), BackupRelease(j)) == Go(s, j, Dumping).(running := true)
  {}

  lemma DumpStarts(s: State, j: nat)
    requires BackupAt(s, j, Sleeping) && s.lock == Free && !RunActive(s)
    ensures Through(s, DumpBegins(j)) == Some(Go(s, j, Dumping).(running := true))
  {
    hide Through, Enabled, Apply;
    BackupSteps(s, j);
    var held := s.(lock := ByBackup(j));
    StepThrough(s, BackupDue(j), [BackupAcquire(j)] + ([BackupCheck(j)] + ([BackupMark(j)] + [BackupRelease(j)])));
    StepThrough(Go(s, j, Due), BackupAcquire(j), [BackupCheck(j)] + ([BackupMark(j)] + [BackupRelease(j)]));
    StepThrough(Go(held, j, Holding), BackupCheck(j), [BackupMark(j)] + [BackupRelease(j)]);
    StepThrough(Go(held, j, NoRunFound), BackupMark(j), [BackupRelease(j)]);
    LastStep(Go(held, j, Marked).(running := true), BackupRelease(j));
  }

  /** A dump ends and its loop clears the flag. */
  lemma DumpStops(s: State, j: nat)
    requires BackupAt(s, j, Dumping)
    ensures Through(s, [DumpEnds(j)] + [ClearFlag(j)]) == Some(Go(s, j, Sleeping).(running := false))
  {
    var ended := Go(s, j, Dumped);
    assert Apply(s, DumpEnds(j)) == ended;
    assert Apply(ended, ClearFlag(j)) == Go(s, j, Sleeping).(running := false);
    hide Through, Apply;
    StepThrough(s, DumpEnds(j), [ClearFlag(j)]);
    LastStep(ended, ClearFlag(j));
  }

  lemma LastStep(s: State, step: Step)
    requires Enabled(s, step)
    ensures Through(s, [step]) == Some(Apply(s, step))
  {
    assert [step] == [step] + [];
    StepThrough(s, step, []);
  }

  lemma UpdateStarts(s: State)
    requires s.handlers == [] && s.threads == [] && s.lock == Free && s.runThread == None && !s.running
    ensures var after := Through(s, UpdateBegins());
      after.Some? && after.value.threads == [Alive] && after.value.backups == s.backups
  {
    hide Through;
    var s1 := Apply(s, Arrive);
    var s2 := Apply(s1, Request(0));
    var s3 := Apply(s2, Acquire(0));
    var s4 := Apply(s3, CheckThread(0));
    var s5 := Apply(s4, CheckFlag(0));
    var s6 := Apply(s5, MakeThread(0));
    assert s6.threads == [Created] && s6.backups == s.backups && s6.runThread == Some(0);
    var s7 := Apply(s6, StartThread(0));
    StepThrough(s, Arrive, [Request(0)] + ([Acquire(0)] + ([CheckThread(0)] + ([CheckFlag(0)] + ([MakeThread(0)] + [StartThread(0)])))));
    StepThrough(s1, Request(0), [Acquire(0)] + ([CheckThread(0)] + ([CheckFlag(0)] + ([MakeThread(0)] + [StartThread(0)]))));
    StepThrough(s2, Acquire(0), [CheckThread(0)] + ([CheckFlag(0)] + ([MakeThread(0)] + [StartThread(0)])));
    StepThrough(s3, CheckThread(0), [CheckFlag(0)] + ([MakeThread(0)] + [StartThread(0)]));
    StepThrough(s4, CheckFlag(0), [MakeThread(0)] + [StartThread(0)]);
    StepThrough(s5, MakeThread(0), [StartThread(0)]);
    LastStep(s6, StartThread(0));
  }

  lemma Extend(loops: nat, done: seq<Step>, s: State, steps: seq<Step>)
    requires After(loops, done) == Some(s) && Through(s, steps).Some?
    ensures After(loops, done + steps) == Through(s, steps)
  {
    ThroughIsAfter(loops, done, steps);
  }

  /** With two backup loops, the first to finish clears the flag of the other. */
  lemma FlagLost(loops: nat) returns (steps: seq<Step>, s: State)
    requires loops >= 2
    ensures After(loops, steps) == Some(s)
    ensures s.handlers == [] && s.threads == [] && s.lock == Free && s.runThread == None && !s.running
    ensures BackupAt(s, 1, Dumping)
  {
    s := Start(loops);
    assert After(loops, []) == Some(s);
    hide Through, After, DumpBegins, UpdateBegins, Enabled, Apply;
    DumpStarts(s, 0);
    Extend(loops, [], s, DumpBegins(0));
    s, steps := Go(s, 0, Dumping).(running := true), [] + DumpBegins(0);
    DumpStarts(s, 1);
    Extend(loops, steps, s, DumpBegins(1));
    s, steps := Go(s, 1, Dumping).(running := true), steps + DumpBegins(1);
    DumpStops(s, 0);
    Extend(loops, steps, s, [DumpEnds(0)] + [ClearFlag(0)]);
    s, steps := Go(s, 0, Sleeping).(running := false), steps + ([DumpEnds(0)] + [ClearFlag(0)]);
  }

  /** So an update starts during that dump. */
  lemma TwoLoopsOverlap(loops: nat) returns (steps: seq<Step>)
    requires loops >= 2
    ensures After(loops, steps).Some? && !Exclusive(After(loops, steps).value)
  {
    hide Through, After, UpdateBegins;
    var before, s := FlagLost(loops);
    UpdateStarts(s);
    Extend(loops, before, s, UpdateBegins());
    steps := before + UpdateBegins();
    var last := After(loops, steps).value;
    assert last.threads[0] == Alive && last.backups[1] == Dumping;
  }

  /** Mutual exclusion over every interleaving, exactly for at most one backup
      loop (the server starts one). */
  lemma MutualExclusion(loops: nat)
    ensures loops <= 1 <==>
      forall steps: seq<Step> :: After(loops, steps).Some? ==> Exclusive(After(loops, steps).value)
  {
    if loops <= 1 {
      forall steps: seq<Step> | After(loops, steps).Some? ensures Exclusive(After(loops, steps).value) {
        RunKeepsInvariant(loops, steps);
      }
    } else {
      var steps := TwoLoopsOverlap(loops);
    }
  }
}
