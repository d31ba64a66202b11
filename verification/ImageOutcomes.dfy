/**
  How the steps of an image update end (sidecar/image_update.py, `step_install`,
  `revert_install`, `step_image_migrate`, `image_steps`): which exception leaves
  the placing of the files, which file a revert puts back, and at which step a
  run stops.
 */
module ImageOutcomes {
  import opened Wrappers
  import opened UpdateRun
  import opened ImageInstall
  import EnvFile

  // ── Placing: the first fault decides ───────────────────────────────────────

  /** Operations `from` up to the last one performed all worked, but the last if
      something was raised; and that one raised what its fault says. Where it
      works, the exception is the OSError of a file to copy that is not there. */
  ghost predicate FirstFaultDecides(faults: Faults, from: nat, r: Result) {
    && from <= r.world.ops && (r.raised != Nothing ==> from < r.world.ops)
    && (forall n :: from <= n < r.world.ops - (if r.raised == Nothing then 0 else 1) ==> faults(n).Works?)
    && (r.raised != Nothing ==>
          match faults(r.world.ops - 1)
          case Works => r.raised == OsError
          case RaisesOsError(_) => r.raised == OsError
          case RaisesOther(_) => r.raised == Other)
  }

  lemma CopyFault(w: World, faults: Faults, src: Path, dst: Path)
    ensures FirstFaultDecides(faults, w.ops, CopyFile(w, faults, src, dst))
    ensures CopyFile(w, faults, src, dst).world.ops == w.ops + 1
  {}

  lemma PlaceOneFault(w: World, faults: Faults, runId: string, t: Target)
    ensures FirstFaultDecides(faults, w.ops, PlaceOne(w, faults, runId, t))
  {
    CopyFault(w, faults, Live(t), Backup(t, runId));
    var kept := if Live(t) in w.files then CopyFile(w, faults, Live(t), Backup(t, runId)).world else w;
    var entry := Replaced(if Live(t) in w.files then Some(Backup(t, runId)) else None, t);
    CopyFault(Touch(kept.(replaced := kept.replaced + [entry]), faults).world, faults, Staged(t), Live(t));
    hide CopyFile;
  }

  lemma {:induction false} PlaceFromFault(w: World, faults: Faults, runId: string, k: nat)
    requires k <= |TARGETS|
    ensures FirstFaultDecides(faults, w.ops, PlaceFrom(w, faults, runId, k))
    decreases |TARGETS| - k
  {
    hide PlaceOne;
    if k < |TARGETS| {
      PlaceOneFault(w, faults, runId, TARGETS[k]);
      var r := PlaceOne(w, faults, runId, TARGETS[k]);
      if r.raised == Nothing { PlaceFromFault(r.world, faults, runId, k + 1); }
    }
  }

  lemma PinFault(w: World, faults: Faults, version: string)
    ensures FirstFaultDecides(faults, w.ops, PinVersion(w, faults, version))
    ensures var r := PinVersion(w, faults, version); r.raised != Nothing ==> !faults(r.world.ops - 1).Works?
  {
    hide EnvFile.WriteValue;
  }

  /** The placing stops at the first operation that fails, with the exception of that
      operation. */
  lemma PlacingStopsAtFirstFault(w: World, faults: Faults, runId: string, version: string)
    ensures FirstFaultDecides(faults, w.ops, PlaceAndPin(w, faults, runId, version))
  {
    hide PlaceFrom, PinVersion;
    var w0 := w.(replaced := []);
    PlaceFromFault(w0, faults, runId, 0);
    var placed := PlaceFrom(w0, faults, runId, 0);
    if placed.raised == Nothing { PinFault(placed.world, faults, version); }
  }

  // ── Reverting: each file for itself ────────────────────────────────────────

  /** Some of the operations `from`, …, `from + n - 1` raises something other than OSError. */
  ghost predicate Interrupts(faults: Faults, from: nat, n: nat) {
    exists m :: from <= m < from + n && faults(m).RaisesOther?
  }

  ghost predicate Fails(faults: Faults, from: nat, n: nat) {
    exists m :: from <= m < from + n && !faults(m).Works?
  }

  /** What one restore does, with the file it needs in place. */
  lemma RestoreOneExactly(w: World, faults: Faults, start: Files, runId: string, r: Replaced)
    requires Restorable(w.files, r, start, runId)
    ensures var next := RestoreOne(w, faults, r);
      && next.replaced == w.replaced && next.ops == w.ops + 1
      && (next.restoreFailed <==> w.restoreFailed || !faults(w.ops).Works?)
      && (next.interrupted <==> faults(w.ops).RaisesOther?)
      && (faults(w.ops).Works? ==> FileAt(next.files, Live(r.dst)) == FileAt(start, Live(r.dst)))
      && (forall p: Path :: p != Live(r.dst) ==> FileAt(next.files, p) == FileAt(w.files, p))
  {}

  /** Entries before `k` had their turn and did not interrupt; the others did not yet. */
  ghost predicate Progress(w0: World, w: World, faults: Faults, start: Files, k: nat, n: nat) {
    && k <= n <= |TARGETS| && w.replaced == w0.replaced && w.ops == w0.ops + k && !w.interrupted
    && !Interrupts(faults, w0.ops, k)
    && (w.restoreFailed <==> w0.restoreFailed || Fails(faults, w0.ops, k))
    && (forall i :: 0 <= i < k && faults(w0.ops + i).Works? ==>
          FileAt(w.files, Live(TARGETS[i])) == FileAt(start, Live(TARGETS[i])))
    && (forall i :: k <= i < n ==> FileAt(w.files, Live(TARGETS[i])) == FileAt(w0.files, Live(TARGETS[i])))
    && (forall p: Path :: p.Backup? ==> FileAt(w.files, p) == FileAt(w0.files, p))
  }

  /** Each entry for itself: one before which nothing interrupts and whose own
      operation works is as it was at the start, one behind an interruption untouched. */
  ghost predicate RestoredEach(w0: World, faults: Faults, start: Files, n: nat, after: World) {
    && n <= |TARGETS|
    && (after.interrupted <==> Interrupts(faults, w0.ops, n))
    && (after.restoreFailed <==> w0.restoreFailed || Fails(faults, w0.ops, n))
    && (forall i :: 0 <= i < n && !Interrupts(faults, w0.ops, i) && faults(w0.ops + i).Works? ==>
          FileAt(after.files, Live(TARGETS[i])) == FileAt(start, Live(TARGETS[i])))
    && (forall i :: 0 <= i < n && Interrupts(faults, w0.ops, i) ==>
          FileAt(after.files, Live(TARGETS[i])) == FileAt(w0.files, Live(TARGETS[i])))
  }

  lemma OneTurnMore(faults: Faults, from: nat, k: nat)
    ensures Interrupts(faults, from, k + 1) <==> Interrupts(faults, from, k) || faults(from + k).RaisesOther?
    ensures Fails(faults, from, k + 1) <==> Fails(faults, from, k) || !faults(from + k).Works?
  {
    if m :| from <= m < from + k + 1 && faults(m).RaisesOther? && m != from + k { assert m < from + k; }
    if m :| from <= m < from + k + 1 && !faults(m).Works? && m != from + k { assert m < from + k; }
  }

  lemma TurnsBefore(faults: Faults, from: nat, i: nat, k: nat)
    requires i <= k
    ensures Interrupts(faults, from, i) ==> Interrupts(faults, from, k)
    ensures Fails(faults, from, i) ==> Fails(faults, from, k)
  {}

  lemma OtherTargets(k: nat)
    requires k < |TARGETS|
    ensures forall i :: 0 <= i < |TARGETS| && i != k ==> TARGETS[i] != TARGETS[k]
  {
    forall i | 0 <= i < |TARGETS| && i != k ensures TARGETS[i] != TARGETS[k] { if TARGETS[i] == TARGETS[k] { TargetsDistinct(i, k); } }
  }

  /** What the entry at `k` does on its turn. */
  lemma Turn(w0: World, w: World, next: World, faults: Faults, start: Files, k: nat, n: nat)
    requires Progress(w0, w, faults, start, k, n) && k < n
    requires next.replaced == w.replaced && next.ops == w.ops + 1
    requires next.restoreFailed <==> w.restoreFailed || !faults(w.ops).Works?
    requires next.interrupted <==> faults(w.ops).RaisesOther?
    requires faults(w.ops).Works? ==> FileAt(next.files, Live(TARGETS[k])) == FileAt(start, Live(TARGETS[k]))
    requires forall p: Path :: p != Live(TARGETS[k]) ==> FileAt(next.files, p) == FileAt(w.files, p)
    ensures if next.interrupted then RestoredEach(w0, faults, start, n, next) else Progress(w0, next, faults, start, k + 1, n)
  {
    hide FileAt, Interrupts, Fails;
    OneTurnMore(faults, w0.ops, k);
    OtherTargets(k);
    if next.interrupted {
      forall i | 0 <= i <= n
        ensures i <= k ==> !Interrupts(faults, w0.ops, i)
        ensures i > k ==> Interrupts(faults, w0.ops, i) && Fails(faults, w0.ops, i)
      {
        if i <= k { TurnsBefore(faults, w0.ops, i, k); } else { TurnsBefore(faults, w0.ops, k + 1, i); }
      }
    }
  }

  lemma AllHadTheirTurn(w0: World, w: World, faults: Faults, start: Files, n: nat)
    requires Progress(w0, w, faults, start, n, n)
    ensures RestoredEach(w0, faults, start, n, w)
  {
    hide FileAt, Interrupts, Fails;
    forall i | 0 <= i < n ensures !Interrupts(faults, w0.ops, i) { TurnsBefore(faults, w0.ops, i, n); }
  }

  lemma {:induction false} RestoresEach(w0: World, w: World, faults: Faults, start: Files, runId: string, k: nat, n: nat)
    requires Recoverable(w0, start, runId, n) && Progress(w0, w, faults, start, k, n)
    ensures var after := RestoreFrom(w, faults, w.replaced[k..]);
      after.replaced == w0.replaced && RestoredEach(w0, faults, start, n, after)
    decreases n - k
  {
    if k == n {
      assert w.replaced[k..] == [];
      AllHadTheirTurn(w0, w, faults, start, n);
    } else {
      var r, rest := w.replaced[k], w.replaced[k + 1..];
      var next := RestoreOne(w, faults, r);
      assert w.replaced[k..][0] == r && w.replaced[k..][1..] == rest;
      assert Restorable(w.files, r, start, runId);
      RestoreOneExactly(w, faults, start, runId, r);
      hide RestoreOne, Progress, RestoredEach, Recoverable;
      Turn(w0, w, next, faults, start, k, n);
      if !next.interrupted { RestoresEach(w0, next, faults, start, runId, k + 1, n); }
    }
  }

  /** A revert, for every pattern of faults: an OSError spoils one file only, any
      other exception ends it; each file whose turn came and whose operation worked
      is as it was at the start, the ones behind an interruption are untouched; and
      the list is cleared exactly if nothing interrupted. */
  lemma RevertExactly(w: World, faults: Faults, start: Files, runId: string, k: nat)
    requires Recoverable(w, start, runId, k)
    ensures RestoredEach(w, faults, start, k, Reverted(w, faults))
    ensures Reverted(w, faults).replaced == if Interrupts(faults, w.ops, k) then w.replaced else []
  {
    var from := w.(interrupted := false);
    assert from.replaced[0..] == w.replaced;
    RevertBegins(w, from, faults, start, runId, k);
    hide Recoverable, Progress, RestoredEach, RestoreFrom;
    RestoresEach(from, from, faults, start, runId, 0, k);
    var done := RestoreFrom(from, faults, w.replaced);
    SameEach(w, from, faults, start, k, done, Reverted(w, faults));
  }

  lemma RevertBegins(w: World, from: World, faults: Faults, start: Files, runId: string, k: nat)
    requires Recoverable(w, start, runId, k) && from == w.(interrupted := false)
    ensures Recoverable(from, start, runId, k) && Progress(from, from, faults, start, 0, k)
  {
    hide FileAt;
  }

  /** Whether the list is cleared does not matter for the files. */
  lemma SameEach(w: World, from: World, faults: Faults, start: Files, k: nat, done: World, after: World)
    requires from == w.(interrupted := false) && RestoredEach(from, faults, start, k, done)
    requires after == done || after == done.(replaced := [])
    ensures RestoredEach(w, faults, start, k, after)
    ensures done.interrupted <==> Interrupts(faults, w.ops, k)
  {
    hide FileAt, Interrupts, Fails;
  }

  // ── The install and migrate steps ──────────────────────────────────────────

  ghost predicate NothingStaged(files: Files) { forall t: Target :: Staged(t) !in files }

  /** The files and the list were reverted from `w`, where each of the first `k`
      targets could be restored; an interrupted revert hides the exception of the step. */
  ghost predicate RevertedTo(w: World, faults: Faults, start: Files, runId: string, e: Effect<World>, outcome: Outcome) {
    var k := |w.replaced|;
    && Recoverable(w, start, runId, k) && RestoredEach(w, faults, start, k, e.world)
    && e.world.replaced == (if Interrupts(faults, w.ops, k) then w.replaced else [])
    && e.outcome == if Interrupts(faults, w.ops, k) then OtherError else outcome
  }

  lemma OnlyStagingGoes(w: World)
    ensures NothingStaged(WithoutStaging(w).files) && WithoutStaging(w).replaced == w.replaced
    ensures forall p: Path :: !p.Staged? ==> FileAt(WithoutStaging(w).files, p) == FileAt(w.files, p)
  {}

  /** How the install step ends, for every pattern of faults: it succeeds exactly if
      the files could be placed and the mount check passes, and then only the staging
      directory goes; an OSError of the placing and a refusal are reverted; any other
      exception leaves everything as it was when it was raised. */
  lemma InstallExactly(w: World, faults: Faults, runId: string, version: string, mount: MountCheck)
    ensures var placed := PlaceAndPin(w, faults, runId, version); var at := placed.world;
      var e := Installed(w, faults, runId, version, mount);
      && (e.outcome == Succeeded <==> placed.raised == Nothing && mount == Passes)
      && (e.outcome == Succeeded ==>
            && NothingStaged(e.world.files) && e.world.replaced == at.replaced
            && forall p: Path :: !p.Staged? ==> FileAt(e.world.files, p) == FileAt(at.files, p))
      && (placed.raised == OsError || (placed.raised == Nothing && mount == Refuses) ==>
            RevertedTo(at, faults, w.files, runId, e, StepError))
      && (placed.raised == Other || (placed.raised == Nothing && mount in {RaisesOs, RaisesElse}) ==>
            e == Effect(at, OtherError))
  {
    hide PlaceAndPin, Reverted, Interrupts, Fails, FileAt;
    AlwaysRecoverable(w, faults, runId, version);
    var at := PlaceAndPin(w, faults, runId, version).world;
    var k :| Recoverable(at, w.files, runId, k);
    assert k == |at.replaced|;
    RevertExactly(at, faults, w.files, runId, k);
    assert Reverted(at, faults).interrupted <==> Interrupts(faults, at.ops, k);
    OnlyStagingGoes(at);
    hide Recoverable, RestoredEach, WithoutStaging, NothingStaged;
  }

  /** A migration that fails, for whatever reason, is reverted. */
  lemma MigrationExactly(w: World, faults: Faults, start: Files, runId: string, outcome: Outcome)
    requires Recoverable(w, start, runId, |TARGETS|)
    ensures outcome == Succeeded ==> Migrated(w, faults, outcome) == Effect(w, Succeeded)
    ensures outcome != Succeeded ==> RevertedTo(w, faults, start, runId, Migrated(w, faults, outcome), outcome)
  {
    RevertExactly(w, faults, start, runId, |TARGETS|);
    assert |w.replaced| == |TARGETS|;
    assert Reverted(w, faults).interrupted <==> Interrupts(faults, w.ops, |TARGETS|);
    hide Recoverable, RestoredEach, Reverted, Interrupts, FileAt;
  }

  // ── Where a run stops ──────────────────────────────────────────────────────

  /** How the steps end, in order, where I/O works and the image is complete. */
  function Outcomes(s: Scenario): seq<Outcome> {
    [ s.preflight, s.resolve, s.verify, s.backup, s.pull, s.stage,
      match s.mount case Passes => Succeeded case Refuses => StepError case RaisesOs => OtherError case RaisesElse => OtherError,
      s.migrate, s.restart, s.handoff ]
  }

  predicate CompleteImage(s: Scenario) { forall t: Target :: t != DotEnv ==> t in s.image }

  lemma WorkingInstall(w: World, faults: Faults, runId: string, version: string, mount: MountCheck)
    requires forall n :: faults(n) == Works
    requires forall t: Target :: t != DotEnv ==> Staged(t) in w.files
    ensures Installed(w, faults, runId, version, mount).outcome ==
      match mount case Passes => Succeeded case Refuses => StepError case RaisesOs => OtherError case RaisesElse => OtherError
  {
    AllWorks(w, faults, runId, version);
    InstallExactly(w, faults, runId, version, mount);
    var at := PlaceAndPin(w, faults, runId, version).world;
    assert !Interrupts(faults, at.ops, |at.replaced|);
    hide PlaceAndPin, Installed, Recoverable, RestoredEach, Interrupts, FileAt, NothingStaged;
  }

  lemma {:induction false} WorkingRestore(w: World, faults: Faults, rs: seq<Replaced>)
    requires forall n :: faults(n) == Works
    requires !w.interrupted
    ensures !RestoreFrom(w, faults, rs).interrupted
    decreases |rs|
  {
    if rs != [] { WorkingRestore(RestoreOne(w, faults, rs[0]), faults, rs[1..]); }
  }

  lemma WorkingMigrate(w: World, faults: Faults, outcome: Outcome)
    requires forall n :: faults(n) == Works
    ensures Migrated(w, faults, outcome).outcome == outcome
  {
    WorkingRestore(w.(interrupted := false), faults, w.replaced);
  }

  /** How each step ends in the world it finds; `install` finds the files `stage` left. */
  lemma StepEnds(s: Scenario, n: nat, w: World)
    requires forall n :: s.faults(n) == Works
    requires CompleteImage(s) && n < 10
    requires n == INSTALL ==> forall t: Target :: t != DotEnv ==> Staged(t) in w.files
    ensures ImageSteps(s)[n].run(w).outcome == Outcomes(s)[n]
  {
    hide StagedFrom, Installed, Migrated;
    if n == 5 {
      StageOutcome(w, s);
    } else if n == INSTALL {
      WorkingInstall(w, s.faults, s.runId, s.version, s.mount);
    } else if n == MIGRATE {
      WorkingMigrate(w, s.faults, s.migrate);
    }
  }

  lemma StageOutcome(w: World, s: Scenario)
    requires CompleteImage(s)
    ensures StagedFrom(w, s).outcome == s.stage
  {}

  /** Where I/O works and the image holds every deploy file, a run stops at the first
      step that does not succeed by itself, with that step's exception, and gets to
      the end if there is none; and the steps are these, in this order. */
  lemma RunStopsAtFirstFailure(s: Scenario, start: World)
    requires (forall n :: s.faults(n) == Works) && CompleteImage(s)
    ensures var f := RunFrom(ImageSteps(s), 0, start);
      match f.failed
      case None => forall i :: 0 <= i < 10 ==> Outcomes(s)[i] == Succeeded
      case Some(n) => n < 10 && Outcomes(s)[n] == f.outcome != Succeeded && forall i :: 0 <= i < n ==> Outcomes(s)[i] == Succeeded
    ensures Names(ImageSteps(s)) ==
      ["preflight", "resolve", "verify", "backup", "pull", "stage", "install", "migrate", "restart", "handoff"]
  {
    StepNames(s);
    var steps := ImageSteps(s);
    assert |steps| == |Outcomes(s)| == 10;
    hide ImageSteps, RunFrom, Outcomes, CompleteImage;
    var worlds := RunIsChain(steps, 0, start);
    forall k | 0 <= k < |worlds| && k < 10 ensures steps[k].run(worlds[k]).outcome == Outcomes(s)[k] {
      if k == INSTALL { StagedBefore(s, steps, worlds); }
      StepEnds(s, k, worlds[k]);
    }
    var last := |worlds| - 1;
    forall i | 0 <= i < last ensures Outcomes(s)[i] == Succeeded {
      assert steps[0 + i].run(worlds[i]) == Effect(worlds[i + 1], Succeeded);
    }
  }

  lemma StepNames(s: Scenario)
    ensures Names(ImageSteps(s)) ==
      ["preflight", "resolve", "verify", "backup", "pull", "stage", "install", "migrate", "restart", "handoff"]
  {}

  lemma StagedBefore(s: Scenario, steps: seq<NamedStep<World>>, worlds: seq<World>)
    requires steps == ImageSteps(s) && Chain(steps, 0, worlds) && |worlds| > INSTALL
    ensures forall t: Target :: t != DotEnv ==> Staged(t) in worlds[INSTALL].files
  {
    assert steps[0 + 5].run(worlds[5]) == Effect(worlds[6], Succeeded);
    assert StagedFrom(worlds[5], s) == Effect(worlds[6], Succeeded);
    hide StagedFrom;
    StageLeavesLive(worlds[5], s);
  }
}
