/**
  The update orchestrator (sidecar/orchestrator.py): run named steps in order,
  stop at the first failure, and mirror every change of state to disk.

  A step is a function of the world it changes; any exception it raises ends the
  run. `W` is whatever the steps act on.
 */
module UpdateRun {
  import opened Wrappers

  /** A step returns, raises StepError, or raises any other exception. */
  datatype Outcome = Succeeded | StepError | OtherError

  datatype Effect<W> = Effect(world: W, outcome: Outcome)

  datatype NamedStep<!W> = NamedStep(name: string, run: W -> Effect<W>)

  datatype StepStatus = Pending | Running | Ok | Failed
  datatype RunStatus = InProgress | Done | RunFailed

  datatype StepRow = StepRow(name: string, status: StepStatus)

  /** What one write of the state file holds. */
  datatype Snapshot = Snapshot(status: RunStatus, step: Option<string>, rows: seq<StepRow>)

  // ── Reference: which world a run ends in, and what it persists ─────────────

  /** `failed` is the index of the step that ended the run early. */
  datatype Finished<W> = Finished(world: W, failed: Option<nat>, outcome: Outcome)

  function RunFrom<W>(steps: seq<NamedStep<W>>, i: nat, w: W): Finished<W>
    requires i <= |steps|
    decreases |steps| - i
  {
    if i == |steps| then Finished(w, None, Succeeded)
    else
      var e := steps[i].run(w);
      if e.outcome == Succeeded then RunFrom(steps, i + 1, e.world) else Finished(e.world, Some(i), e.outcome)
  }

  /** The rows with the first one of this name in `status`, as `by_name` finds it. */
  function Marked(rows: seq<StepRow>, name: string, status: StepStatus): seq<StepRow> {
    if rows == [] then []
    else if rows[0].name == name then [StepRow(name, status)] + rows[1..]
    else [rows[0]] + Marked(rows[1..], name, status)
  }

  /** `done` steps ok, the next one in `status`, the rest pending. */
  function Rows(names: seq<string>, done: nat, status: StepStatus): seq<StepRow> {
    seq(|names|, i requires 0 <= i < |names| =>
      StepRow(names[i], if i < done then Ok else if i == done then status else Pending))
  }

  function PersistedFrom(names: seq<string>, i: nat, rows: seq<StepRow>, failed: Option<nat>): seq<Snapshot>
    requires i <= |names| && (failed.Some? ==> i <= failed.value < |names|)
    decreases |names| - i
  {
    if i == |names| then [Snapshot(Done, None, rows)]
    else
      var name := names[i];
      [Snapshot(InProgress, Some(name), Marked(rows, name, Running))] +
      if failed == Some(i) then [Snapshot(RunFailed, Some(name), Marked(Marked(rows, name, Running), name, Failed))]
      else
        var next := Marked(Marked(rows, name, Running), name, Ok);
        [Snapshot(InProgress, Some(name), next)] + PersistedFrom(names, i + 1, next, failed)
  }

  function Persisted(names: seq<string>, failed: Option<nat>): seq<Snapshot>
    requires failed.Some? ==> failed.value < |names|
  {
    [Snapshot(InProgress, None, Rows(names, 0, Pending))] + PersistedFrom(names, 0, Rows(names, 0, Pending), failed)
  }

  /** Worlds that follow from each other: step `i + k` turns each into the next. */
  ghost predicate Chain<W>(steps: seq<NamedStep<W>>, i: nat, worlds: seq<W>) {
    && worlds != [] && i + |worlds| - 1 <= |steps|
    && forall k :: 0 <= k < |worlds| - 1 ==> steps[i + k].run(worlds[k]) == Effect(worlds[k + 1], Succeeded)
  }

  /** A run goes through all steps in order, each on what the one before left, up to
      the first that does not succeed; that one decides world and outcome. */
  lemma {:induction false} RunIsChain<W>(steps: seq<NamedStep<W>>, i: nat, start: W) returns (worlds: seq<W>)
    requires i <= |steps|
    ensures Chain(steps, i, worlds) && worlds[0] == start
    ensures var f, last := RunFrom(steps, i, start), i + |worlds| - 1;
      match f.failed
      case None => last == |steps| && f.world == worlds[last - i] && f.outcome == Succeeded
      case Some(n) => n == last < |steps| && f.outcome != Succeeded && steps[n].run(worlds[n - i]) == Effect(f.world, f.outcome)
    decreases |steps| - i
  {
    worlds := [start];
    if i < |steps| && steps[i].run(start).outcome == Succeeded {
      var later := RunIsChain(steps, i + 1, steps[i].run(start).world);
      worlds := [start] + later;
      assert forall k :: 0 < k < |worlds| ==> worlds[k] == later[k - 1];
      forall k | 0 <= k < |worlds| - 1 ensures steps[i + k].run(worlds[k]) == Effect(worlds[k + 1], Succeeded) {
        if k > 0 { assert steps[i + 1 + (k - 1)].run(later[k - 1]) == Effect(later[k], Succeeded); }
      }
    }
  }

  // ── Properties ─────────────────────────────────────────────────────────────

  predicate Distinct(names: seq<string>) {
    forall i, j :: 0 <= i < j < |names| ==> names[i] != names[j]
  }

  /** Steps that are ok, then at most one running or failed, then pending ones. */
  ghost predicate Orderly(rows: seq<StepRow>) {
    exists k :: 0 <= k <= |rows| && OrderlyAt(rows, k)
  }

  ghost predicate OrderlyAt(rows: seq<StepRow>, k: nat) {
    && (forall i :: 0 <= i < |rows| ==> (i < k <==> rows[i].status == Ok))
    && (forall i :: k < i < |rows| ==> rows[i].status == Pending)
  }

  ghost predicate AllOk(rows: seq<StepRow>) {
    forall i :: 0 <= i < |rows| ==> rows[i].status == Ok
  }

  /** The run status says what the rows say: done only when all are ok, and always
      when all of at least one are and no step is open; failed exactly when a step
      failed; and a running or failed step is the one named. */
  ghost predicate Consistent(s: Snapshot) {
    && Orderly(s.rows)
    && (s.status == Done ==> s.step.None? && AllOk(s.rows))
    && (s.step.None? && AllOk(s.rows) && s.rows != [] ==> s.status == Done)
    && (s.status == RunFailed <==> exists i :: 0 <= i < |s.rows| && s.rows[i].status == Failed)
    && (forall i :: 0 <= i < |s.rows| && s.rows[i].status in {Running, Failed} ==> s.step == Some(s.rows[i].name))
  }

  lemma RowsConsistent(names: seq<string>, done: nat, status: StepStatus, s: Snapshot)
    requires done <= |names| && s.rows == Rows(names, done, status) && status != Ok
    requires s.status == Done ==> s.step.None? && done == |names|
    requires s.step.None? && done == |names| && names != [] ==> s.status == Done
    requires s.status == RunFailed <==> done < |names| && status == Failed
    requires done < |names| && status in {Running, Failed} ==> s.step == Some(names[done])
    ensures Consistent(s)
  {
    assert OrderlyAt(s.rows, done);
    if done < |names| { assert s.rows[done].status == status; }
  }

  /** Where the name of a row is not used before, that row is the one marked. */
  lemma {:induction false} MarkedAt(rows: seq<StepRow>, i: nat, status: StepStatus)
    requires i < |rows| && forall j :: 0 <= j < i ==> rows[j].name != rows[i].name
    ensures Marked(rows, rows[i].name, status) == rows[i := StepRow(rows[i].name, status)]
  {
    if i > 0 { MarkedAt(rows[1..], i - 1, status); }
  }

  /** One step through its statuses, with names that do not repeat. */
  lemma MarkRow(names: seq<string>, i: nat, from: StepStatus, to: StepStatus)
    requires i < |names| && Distinct(names)
    ensures Marked(Rows(names, i, from), names[i], to) == Rows(names, i, to)
    ensures Rows(names, i, Ok) == Rows(names, i + 1, Pending)
  {
    MarkedAt(Rows(names, i, from), i, to);
  }

  /** Every state ever written is orderly and consistent. */
  lemma {:induction false} PersistedConsistent(names: seq<string>, i: nat, failed: Option<nat>)
    requires i <= |names| && (failed.Some? ==> i <= failed.value < |names|) && Distinct(names)
    ensures forall s :: s in PersistedFrom(names, i, Rows(names, i, Pending), failed) ==> Consistent(s)
    decreases |names| - i
  {
    hide Consistent, Rows, Marked, Distinct;
    if i == |names| {
      RowsConsistent(names, i, Pending, Snapshot(Done, None, Rows(names, i, Pending)));
    } else {
      MarkRow(names, i, Pending, Running);
      MarkRow(names, i, Running, Failed);
      MarkRow(names, i, Running, Ok);
      RowsConsistent(names, i, Running, Snapshot(InProgress, Some(names[i]), Rows(names, i, Running)));
      if failed == Some(i) {
        RowsConsistent(names, i, Failed, Snapshot(RunFailed, Some(names[i]), Rows(names, i, Failed)));
      } else {
        RowsConsistent(names, i + 1, Pending, Snapshot(InProgress, Some(names[i]), Rows(names, i + 1, Pending)));
        PersistedConsistent(names, i + 1, failed);
      }
    }
  }

  /** A row whose name an earlier row has keeps its status for ever. */
  lemma {:induction false} HiddenRowKept(names: seq<string>, i: nat, rows: seq<StepRow>, j: nat)
    requires i <= |names| && j < |rows| && exists k :: 0 <= k < j && rows[k].name == rows[j].name
    ensures var p := PersistedFrom(names, i, rows, None);
      && p != [] && p[|p| - 1].status == Done
      && |p[|p| - 1].rows| == |rows| && p[|p| - 1].rows[j] == rows[j]
    decreases |names| - i
  {
    hide Marked;
    if i < |names| {
      var running := Marked(rows, names[i], Running);
      MarkedKeepsHidden(rows, names[i], Running, j);
      MarkedKeepsHidden(running, names[i], Ok, j);
      HiddenRowKept(names, i + 1, Marked(running, names[i], Ok), j);
    }
  }

  lemma {:induction false} MarkedKeepsHidden(rows: seq<StepRow>, name: string, status: StepStatus, j: nat)
    requires j < |rows| && exists k :: 0 <= k < j && rows[k].name == rows[j].name
    ensures var marked := Marked(rows, name, status);
      && |marked| == |rows| && marked[j] == rows[j]
      && exists k :: 0 <= k < j && marked[k].name == marked[j].name
  {
    MarkedNames(rows, name, status);
    var k :| 0 <= k < j && rows[k].name == rows[j].name;
    var marked := Marked(rows, name, status);
    assert marked[k].name == rows[k].name;
    MarkedOnlyFirst(rows, name, status, k, j);
  }

  lemma {:induction false} MarkedOnlyFirst(rows: seq<StepRow>, name: string, status: StepStatus, k: nat, j: nat)
    requires k < j < |rows| && rows[k].name == rows[j].name
    ensures |Marked(rows, name, status)| == |rows| && Marked(rows, name, status)[j] == rows[j]
  {
    MarkedNames(rows, name, status);
    if rows[0].name != name {
      if k > 0 {
        MarkedOnlyFirst(rows[1..], name, status, k - 1, j - 1);
      } else {
        MarkedOthers(rows[1..], name, status, j - 1);
      }
    }
  }

  lemma {:induction false} MarkedOthers(rows: seq<StepRow>, name: string, status: StepStatus, j: nat)
    requires j < |rows| && rows[j].name != name
    ensures |Marked(rows, name, status)| == |rows| && Marked(rows, name, status)[j] == rows[j]
  {
    MarkedNames(rows, name, status);
    if j > 0 && rows[0].name != name { MarkedOthers(rows[1..], name, status, j - 1); }
  }

  lemma {:induction false} MarkedNames(rows: seq<StepRow>, name: string, status: StepStatus)
    ensures |Marked(rows, name, status)| == |rows|
    ensures forall i :: 0 <= i < |rows| ==> Marked(rows, name, status)[i].name == rows[i].name
  {
    if rows != [] && rows[0].name != name { MarkedNames(rows[1..], name, status); }
  }

  ghost predicate AlwaysConsistent(names: seq<string>) {
    forall failed: Option<nat> :: (failed.Some? ==> failed.value < |names|) ==>
      forall s :: s in Persisted(names, failed) ==> Consistent(s)
  }

  /** Whatever step fails, or none, every state written is consistent: exactly if
      no step name repeats. With a repeated name the later row is never touched,
      so a completed run reports it as pending. */
  lemma StateFileConsistentIff(names: seq<string>)
    ensures AlwaysConsistent(names) <==> Distinct(names)
  {
    hide Consistent, PersistedFrom;
    if Distinct(names) {
      hide Rows, Distinct;
      RowsConsistent(names, 0, Pending, Snapshot(InProgress, None, Rows(names, 0, Pending)));
      forall failed: Option<nat> | failed.Some? ==> failed.value < |names|
        ensures forall s :: s in Persisted(names, failed) ==> Consistent(s)
      {
        PersistedConsistent(names, 0, failed);
      }
    } else {
      RepeatedNameReportedPending(names);
    }
  }

  lemma RepeatedNameReportedPending(names: seq<string>)
    requires !Distinct(names)
    ensures exists s :: s in Persisted(names, None) && !Consistent(s)
  {
    var k, j :| 0 <= k < j < |names| && names[k] == names[j];
    var rows := Rows(names, 0, Pending);
    assert rows[k].name == rows[j].name && rows[j].status == Pending;
    hide PersistedFrom, Rows, Distinct;
    HiddenRowKept(names, 0, rows, j);
    var p := PersistedFrom(names, 0, rows, None);
    var last := p[|p| - 1];
    DoneButPending(last, j);
    hide Consistent;
    assert Persisted(names, None)[|p|] == last;
    assert last in Persisted(names, None);
  }

  lemma DoneButPending(s: Snapshot, j: nat)
    requires s.status == Done && j < |s.rows| && s.rows[j].status == Pending
    ensures !Consistent(s)
  {
    hide Orderly;
  }

  /** The last state written tells how the run ended. */
  lemma StateFileTellsTheRun(names: seq<string>, failed: Option<nat>)
    requires failed.Some? ==> failed.value < |names|
    ensures var last := Persisted(names, failed)[|Persisted(names, failed)| - 1];
      && (failed.None? ==> last.status == Done && last.step == None)
      && (failed.Some? ==> last.status == RunFailed && last.step == Some(names[failed.value]))
      && (Distinct(names) ==>
            last.rows == if failed.None? then Rows(names, |names|, Pending) else Rows(names, failed.value, Failed))
  {
    LastStatus(names, 0, Rows(names, 0, Pending), failed);
    hide Rows;
    if Distinct(names) { LastPersisted(names, 0, failed); }
  }

  lemma {:induction false} LastStatus(names: seq<string>, i: nat, rows: seq<StepRow>, failed: Option<nat>)
    requires i <= |names| && (failed.Some? ==> i <= failed.value < |names|)
    ensures var p := PersistedFrom(names, i, rows, failed);
      && p != []
      && (failed.None? ==> p[|p| - 1].status == Done && p[|p| - 1].step == None)
      && (failed.Some? ==> p[|p| - 1].status == RunFailed && p[|p| - 1].step == Some(names[failed.value]))
    decreases |names| - i
  {
    hide Marked;
    if i < |names| && failed != Some(i) {
      LastStatus(names, i + 1, Marked(Marked(rows, names[i], Running), names[i], Ok), failed);
    }
  }

  lemma {:induction false} LastPersisted(names: seq<string>, i: nat, failed: Option<nat>)
    requires i <= |names| && (failed.Some? ==> i <= failed.value < |names|) && Distinct(names)
    ensures var p := PersistedFrom(names, i, Rows(names, i, Pending), failed);
      p != [] && p[|p| - 1].rows ==
        if failed.None? then Rows(names, |names|, Pending) else Rows(names, failed.value, Failed)
    decreases |names| - i
  {
    hide Rows, Marked, Distinct;
    if i < |names| {
      MarkRow(names, i, Pending, Running);
      MarkRow(names, i, Running, Failed);
      MarkRow(names, i, Running, Ok);
      if failed != Some(i) { LastPersisted(names, i + 1, failed); }
    }
  }

  /** Every state written, one by one: the start; before and after each step that
      succeeded; and the end, or the failed step before and after. */
  lemma PersistedExactly(names: seq<string>, failed: Option<nat>)
    requires Distinct(names) && (failed.Some? ==> failed.value < |names|)
    ensures var p := Persisted(names, failed); var n := if failed.Some? then failed.value else |names|;
      && p[0] == Snapshot(InProgress, None, Rows(names, 0, Pending))
      && |p| == 2 * n + (if failed.Some? then 3 else 2)
      && (forall i :: 0 <= i < n ==>
            && p[2 * i + 1] == Snapshot(InProgress, Some(names[i]), Rows(names, i, Running))
            && p[2 * i + 2] == Snapshot(InProgress, Some(names[i]), Rows(names, i + 1, Pending)))
      && if failed.Some? then
           && p[2 * n + 1] == Snapshot(InProgress, Some(names[n]), Rows(names, n, Running))
           && p[2 * n + 2] == Snapshot(RunFailed, Some(names[n]), Rows(names, n, Failed))
         else p[2 * n + 1] == Snapshot(Done, None, Rows(names, n, Pending))
  {
    WrittenExactly(names, 0, failed);
    hide Rows, PersistedFrom, Distinct;
  }

  lemma {:induction false} WrittenExactly(names: seq<string>, from: nat, failed: Option<nat>)
    requires Distinct(names) && from <= |names| && (failed.Some? ==> from <= failed.value < |names|)
    ensures Written(names, from, failed, PersistedFrom(names, from, Rows(names, from, Pending), failed))
    decreases |names| - from
  {
    hide Rows, Marked, Distinct;
    if from < |names| {
      MarkRow(names, from, Pending, Running);
      MarkRow(names, from, Running, Failed);
      MarkRow(names, from, Running, Ok);
      if failed != Some(from) {
        WrittenExactly(names, from + 1, failed);
        StepInFront(names, from, failed, PersistedFrom(names, from + 1, Rows(names, from + 1, Pending), failed),
                    PersistedFrom(names, from, Rows(names, from, Pending), failed));
      }
    }
  }

  /** The states written from the step `from` on. */
  ghost predicate Written(names: seq<string>, from: nat, failed: Option<nat>, p: seq<Snapshot>)
    requires from <= |names| && (failed.Some? ==> from <= failed.value < |names|)
  {
    var n := if failed.Some? then failed.value else |names|;
    && |p| == 2 * (n - from) + (if failed.Some? then 2 else 1)
    && (forall i :: from <= i < n ==>
          && p[2 * (i - from)] == Snapshot(InProgress, Some(names[i]), Rows(names, i, Running))
          && p[2 * (i - from) + 1] == Snapshot(InProgress, Some(names[i]), Rows(names, i + 1, Pending)))
    && if failed.Some? then
         && p[2 * (n - from)] == Snapshot(InProgress, Some(names[n]), Rows(names, n, Running))
         && p[2 * (n - from) + 1] == Snapshot(RunFailed, Some(names[n]), Rows(names, n, Failed))
       else p[2 * (n - from)] == Snapshot(Done, None, Rows(names, n, Pending))
  }

  lemma StepInFront(names: seq<string>, from: nat, failed: Option<nat>, later: seq<Snapshot>, p: seq<Snapshot>)
    requires from < |names| && (failed.Some? ==> from < failed.value < |names|) && Written(names, from + 1, failed, later)
    requires p == [Snapshot(InProgress, Some(names[from]), Rows(names, from, Running)),
                   Snapshot(InProgress, Some(names[from]), Rows(names, from + 1, Pending))] + later
    ensures Written(names, from, failed, p)
  {
    hide Rows;
    var n := if failed.Some? then failed.value else |names|;
    forall i | from <= i < n
      ensures p[2 * (i - from)] == Snapshot(InProgress, Some(names[i]), Rows(names, i, Running))
      ensures p[2 * (i - from) + 1] == Snapshot(InProgress, Some(names[i]), Rows(names, i + 1, Pending))
    {
      if i > from {
        assert p[2 * (i - from)] == later[2 * (i - (from + 1))];
        assert p[2 * (i - from) + 1] == later[2 * (i - (from + 1)) + 1];
      }
    }
    assert p[2 * (n - from)] == later[2 * (n - (from + 1))];
    assert failed.Some? ==> p[2 * (n - from) + 1] == later[2 * (n - (from + 1)) + 1];
  }

  lemma {:induction false} FailedInRange<W>(steps: seq<NamedStep<W>>, i: nat, w: W)
    requires i <= |steps|
    ensures var f := RunFrom(steps, i, w).failed; f.Some? ==> i <= f.value < |steps|
    decreases |steps| - i
  {
    if i < |steps| && steps[i].run(w).outcome == Succeeded { FailedInRange(steps, i + 1, steps[i].run(w).world); }
  }

  function Names<W>(steps: seq<NamedStep<W>>): seq<string> {
    seq(|steps|, i requires 0 <= i < |steps| => steps[i].name)
  }

  // ── The runner ─────────────────────────────────────────────────────────────

  class UpdateState {
    var status: RunStatus
    var step: Option<string>
    var steps: seq<StepRow>

    constructor (names: seq<string>)
      ensures ToDict() == Snapshot(InProgress, None, Rows(names, 0, Pending))
    {
      status, step := InProgress, None;
      steps := Rows(names, 0, Pending);
    }

    function ToDict(): Snapshot
      reads this
    {
      Snapshot(status, step, steps)
    }

    /** The index of the first step with this name. */
    method ByName(name: string) returns (i: nat)
      requires exists j :: 0 <= j < |steps| && steps[j].name == name
      ensures i < |steps| && steps[i].name == name
      ensures forall j :: 0 <= j < i ==> steps[j].name != name
    {
      i := 0;
      while steps[i].name != name
        invariant i < |steps| && forall j :: 0 <= j < i ==> steps[j].name != name
        decreases |steps| - i
      {
        i := i + 1;
      }
    }

    /** The status of the row `ByName` finds for its name. */
    method SetStatus(i: nat, s: StepStatus)
      requires i < |steps| && forall j :: 0 <= j < i ==> steps[j].name != steps[i].name
      modifies this`steps
      ensures steps == Marked(old(steps), old(steps)[i].name, s)
      ensures |steps| == |old(steps)| && forall j :: 0 <= j < |steps| ==> steps[j].name == old(steps)[j].name
    {
      MarkedAt(steps, i, s);
      steps := steps[i := StepRow(steps[i].name, s)];
    }
  }

  lemma RunFromNext<W>(steps: seq<NamedStep<W>>, n: nat, w: W)
    requires n <= |steps|
    ensures n < |steps| ==>
      var e := steps[n].run(w); var f := RunFrom(steps, n, w);
      if e.outcome == Succeeded then f == RunFrom(steps, n + 1, e.world) && f.failed != Some(n)
      else f == Finished(e.world, Some(n), e.outcome)
    ensures RunFrom(steps, n, w).failed.Some? ==> n <= RunFrom(steps, n, w).failed.value < |steps|
  {
    FailedInRange(steps, n, w);
    if n < |steps| { FailedInRange(steps, n + 1, steps[n].run(w).world); }
  }

  lemma RunFromEnd<W>(steps: seq<NamedStep<W>>, w: W)
    ensures RunFrom(steps, |steps|, w) == Finished(w, None, Succeeded)
  {}

  ghost predicate NamesKept(rows: seq<StepRow>, names: seq<string>) {
    |rows| == |names| && forall j :: 0 <= j < |names| ==> rows[j].name == names[j]
  }

  lemma Starting<W>(steps: seq<NamedStep<W>>, failed: Option<nat>)
    requires failed.Some? ==> failed.value < |steps|
    ensures var names := Names(steps); var rows := Rows(names, 0, Pending);
      && |names| == |steps| && (forall i :: 0 <= i < |steps| ==> names[i] == steps[i].name)
      && NamesKept(rows, names)
      && Persisted(names, failed) == [Snapshot(InProgress, None, rows)] + PersistedFrom(names, 0, rows, failed)
  {}

  /** What one step does to the rows, and the two states written around it. */
  ghost predicate StepWrites(rows: seq<StepRow>, name: string, outcome: Outcome, writes: seq<Snapshot>) {
    var running := Marked(rows, name, Running);
    writes == [Snapshot(InProgress, Some(name), running),
               if outcome == Succeeded then Snapshot(InProgress, Some(name), Marked(running, name, Ok))
               else Snapshot(RunFailed, Some(name), Marked(running, name, Failed))]
  }

  /** The body of the loop: open the row, run the step, close the row. */
  method RunStep<W>(state: UpdateState, step: NamedStep<W>, w: W) returns (world: W, outcome: Outcome, writes: seq<Snapshot>)
    requires state.status == InProgress && exists j :: 0 <= j < |state.steps| && state.steps[j].name == step.name
    modifies state
    ensures step.run(w) == Effect(world, outcome)
    ensures StepWrites(old(state.steps), step.name, outcome, writes) && state.ToDict() == writes[1]
    ensures forall names :: NamesKept(old(state.steps), names) ==> NamesKept(state.steps, names)
  {
    hide Marked;
    ghost var j :| 0 <= j < |state.steps| && state.steps[j].name == step.name;
    state.step := Some(step.name);
    assert state.steps[j].name == step.name;
    var i := state.ByName(step.name);
    state.SetStatus(i, Running);
    writes := [state.ToDict()];
    var effect := step.run(w);
    world, outcome := effect.world, effect.outcome;
    if outcome == Succeeded {
      state.SetStatus(i, Ok);
    } else {
      state.SetStatus(i, Failed);
      state.status := RunFailed;
    }
    writes := writes + [state.ToDict()];
  }

  /** Go through the steps in order. The world ends as the reference says, in
      particular no step after a failed one has run, and the writes are exactly
      `Persisted`, also where step names repeat. */
  method RunUpdate<W>(steps: seq<NamedStep<W>>, start: W) returns (state: UpdateState, world: W, persisted: seq<Snapshot>)
    ensures fresh(state)
    ensures world == RunFrom(steps, 0, start).world
    ensures RunFrom(steps, 0, start).failed.Some? ==> RunFrom(steps, 0, start).failed.value < |steps|
    ensures persisted == Persisted(Names(steps), RunFrom(steps, 0, start).failed)
    ensures state.ToDict() == persisted[|persisted| - 1]
  {
    hide Rows, Persisted, PersistedFrom, Marked, StepWrites, Names, RunFrom;
    var names := Names(steps);
    ghost var end := RunFrom(steps, 0, start);
    RunFromNext(steps, 0, start);
    Starting(steps, end.failed);
    state := new UpdateState(names);
    world := start;
    persisted := [state.ToDict()];
    var n := 0;
    while n < |steps|
      invariant 0 <= n <= |steps|
      invariant end == RunFrom(steps, n, world)
      invariant end.failed.Some? ==> n <= end.failed.value < |steps|
      invariant state.status == InProgress && NamesKept(state.steps, names)
      invariant persisted + PersistedFrom(names, n, state.steps, end.failed) == Persisted(names, end.failed)
    {
      ghost var before, rows := persisted, state.steps;
      assert state.steps[n].name == steps[n].name;
      var outcome, writes;
      RunFromNext(steps, n, world);
      world, outcome, writes := RunStep(state, steps[n], world);
      persisted := persisted + writes;
      if outcome != Succeeded {
        PersistFailed(before, names, n, rows, outcome, writes);
        return;
      }
      PersistOk(before, names, n, rows, end.failed, writes);
      n := n + 1;
    }
    RunFromEnd(steps, world);
    state.step := None;
    state.status := Done;
    PersistDone(names, state.steps);
    persisted := persisted + [state.ToDict()];
  }

  lemma PersistOk(before: seq<Snapshot>, names: seq<string>, n: nat, rows: seq<StepRow>, failed: Option<nat>, writes: seq<Snapshot>)
    requires n < |names| && failed != Some(n) && (failed.Some? ==> n < failed.value < |names|)
    requires StepWrites(rows, names[n], Succeeded, writes)
    ensures before + PersistedFrom(names, n, rows, failed) ==
      before + writes + PersistedFrom(names, n + 1, writes[1].rows, failed)
    ensures writes[1].status == InProgress
  {
    hide Marked;
  }

  lemma PersistFailed(before: seq<Snapshot>, names: seq<string>, n: nat, rows: seq<StepRow>, outcome: Outcome, writes: seq<Snapshot>)
    requires n < |names| && outcome != Succeeded && StepWrites(rows, names[n], outcome, writes)
    ensures before + PersistedFrom(names, n, rows, Some(n)) == before + writes
    ensures |writes| == 2
  {
    hide Marked;
  }

  lemma PersistDone(names: seq<string>, rows: seq<StepRow>)
    ensures PersistedFrom(names, |names|, rows, None) == [Snapshot(Done, None, rows)]
  {}
}
