/**
  Installing a release in image mode and putting the old files back when it
  fails (sidecar/image_update.py, `step_install`, `revert_install`,
  `step_image_migrate`), and the whole image update as a run of steps.

  The file system is a map; every operation asks the fault oracle whether it
  works. A failed write may leave anything in the file it was writing.
 */
module ImageInstall {
  import opened Wrappers
  import opened UpdateRun
  import EnvFile

  const VERSION_KEY := "NODEGLOW_VERSION"

  /** The files that define the running stack. */
  datatype Target = Compose | ClickhouseConfig | ClickhouseInit | DotEnv

  const DEPLOY_FILES := [Compose, ClickhouseConfig, ClickhouseInit]

  /** In the order in which `step_install` visits them. */
  const TARGETS := [Compose, ClickhouseConfig, ClickhouseInit, DotEnv]

  datatype Path = Live(t: Target) | Backup(t: Target, runId: string) | Staged(t: Target) | DotEnvTmp

  type Files = map<Path, string>

  /** Whether an operation works, raises OSError, or raises something else; a
      failed write leaves the file as it was or with some leftover content. */
  datatype Fault = Works | RaisesOsError(leftover: Option<string>) | RaisesOther(leftover: Option<string>)

  type Faults = nat -> Fault

  datatype Raised = Nothing | OsError | Other

  /** What `revert_install` will put back: the backup to copy, or nothing to keep. */
  datatype Replaced = Replaced(backup: Option<Path>, dst: Target)

  /** `ops` counts I/O operations; `restoreFailed` says a file could not be restored;
      `interrupted` that an exception other than OSError ended the last revert. */
  datatype World = World(files: Files, replaced: seq<Replaced>, ops: nat, restoreFailed: bool, interrupted: bool)

  datatype Result = Result(world: World, raised: Raised)

  // ── I/O operations ─────────────────────────────────────────────────────────

  function RaisedBy(f: Fault): Raised {
    match f case Works => Nothing case RaisesOsError(_) => OsError case RaisesOther(_) => Other
  }

  function Failing(w: World, p: Path, f: Fault): Result
    requires !f.Works?
  {
    Result(w.(ops := w.ops + 1, files := if f.leftover.Some? then w.files[p := f.leftover.value] else w.files), RaisedBy(f))
  }

  function CopyFile(w: World, faults: Faults, src: Path, dst: Path): Result {
    var f := faults(w.ops);
    if !f.Works? then Failing(w, dst, f)
    else if src !in w.files then Result(w.(ops := w.ops + 1), OsError)
    else Result(w.(ops := w.ops + 1, files := w.files[dst := w.files[src]]), Nothing)
  }

  /** An operation that changes none of the modelled files. */
  function Touch(w: World, faults: Faults): Result {
    Result(w.(ops := w.ops + 1), RaisedBy(faults(w.ops)))
  }

  function WriteFile(w: World, faults: Faults, p: Path, text: string): Result {
    var f := faults(w.ops);
    if f.Works? then Result(w.(ops := w.ops + 1, files := w.files[p := text]), Nothing) else Failing(w, p, f)
  }

  /** `os.replace`: atomic, so a failure leaves both files alone. */
  function ReplaceFile(w: World, faults: Faults, src: Path, dst: Path): Result
    requires src in w.files
  {
    if faults(w.ops).Works? then
      Result(w.(ops := w.ops + 1, files := w.files[dst := w.files[src]] - {src}), Nothing)
    else Touch(w, faults)
  }

  function FileAt(files: Files, p: Path): Option<string> {
    if p in files then Some(files[p]) else None
  }

  /** `write_env_value`: read, write a temporary file, replace. */
  function PinVersion(w: World, faults: Faults, version: string): Result {
    var read := Touch(w, faults);
    if read.raised != Nothing then read
    else
      var text := EnvFile.WriteValue(FileAt(w.files, Live(DotEnv)), VERSION_KEY, version);
      var written := WriteFile(read.world, faults, DotEnvTmp, text);
      if written.raised != Nothing then written
      else ReplaceFile(written.world, faults, DotEnvTmp, Live(DotEnv))
  }

  // ── Revert ─────────────────────────────────────────────────────────────────

  /** Put one file back. An OSError is logged, anything else ends the revert.
      Removing a file that is not there is harmless. */
  function RestoreOne(w: World, faults: Faults, r: Replaced): World {
    match r.backup
    case Some(backup) =>
      var c := CopyFile(w, faults, backup, Live(r.dst));
      c.world.(restoreFailed := w.restoreFailed || c.raised != Nothing, interrupted := c.raised == Other)
    case None =>
      var f := faults(w.ops);
      if f.Works? then w.(ops := w.ops + 1, files := w.files - {Live(r.dst)}, interrupted := false)
      else w.(ops := w.ops + 1, restoreFailed := true, interrupted := f.RaisesOther?)
  }

  function RestoreFrom(w: World, faults: Faults, replaced: seq<Replaced>): World
    decreases |replaced|
  {
    if replaced == [] || w.interrupted then w
    else RestoreFrom(RestoreOne(w, faults, replaced[0]), faults, replaced[1..])
  }

  /** The list is cleared at the end, so not by a revert that was interrupted. */
  function Reverted(w: World, faults: Faults): World {
    var done := RestoreFrom(w.(interrupted := false), faults, w.replaced);
    if done.interrupted then done else done.(replaced := [])
  }

  /** How a step ends that reverts and would then raise `outcome`. */
  function AfterRevert(w: World, faults: Faults, outcome: Outcome): Effect<World> {
    var done := Reverted(w, faults);
    Effect(done, if done.interrupted then OtherError else outcome)
  }

  // ── Install ────────────────────────────────────────────────────────────────

  /** Keep the old file, note how to restore it, put the staged one in place. */
  function PlaceOne(w: World, faults: Faults, runId: string, t: Target): Result {
    var kept :=
      if Live(t) in w.files then CopyFile(w, faults, Live(t), Backup(t, runId)) else Result(w, Nothing);
    if kept.raised != Nothing then kept
    else
      var entry := Replaced(if Live(t) in w.files then Some(Backup(t, runId)) else None, t);
      var noted := kept.world.(replaced := kept.world.replaced + [entry]);
      if t == DotEnv then Result(noted, Nothing)
      else
        var dir := Touch(noted, faults);
        if dir.raised != Nothing then dir else CopyFile(dir.world, faults, Staged(t), Live(t))
  }

  function PlaceFrom(w: World, faults: Faults, runId: string, k: nat): Result
    requires k <= |TARGETS|
    decreases |TARGETS| - k
  {
    if k == |TARGETS| then Result(w, Nothing)
    else
      var r := PlaceOne(w, faults, runId, TARGETS[k]);
      if r.raised != Nothing then r else PlaceFrom(r.world, faults, runId, k + 1)
  }

  function PlaceAndPin(w: World, faults: Faults, runId: string, version: string): Result {
    var placed := PlaceFrom(w.(replaced := []), faults, runId, 0);
    if placed.raised != Nothing then placed else PinVersion(placed.world, faults, version)
  }

  function WithoutStaging(w: World): World {
    w.(files := map p | p in w.files && !p.Staged? :: w.files[p])
  }

  /** How the data mount check after the files are in place ends. It runs commands,
      so besides a refusal it can raise OSError (a missing binary, a failed fork)
      or anything else (a timeout). */
  datatype MountCheck = Passes | Refuses | RaisesOs | RaisesElse

  /** OSError is turned into a StepError around the placing only; around the check,
      only StepError is caught. */
  function Installed(w: World, faults: Faults, runId: string, version: string, mount: MountCheck): Effect<World> {
    var r := PlaceAndPin(w, faults, runId, version);
    match r.raised
    case OsError => AfterRevert(r.world, faults, StepError)
    case Other => Effect(r.world, OtherError)
    case Nothing =>
      match mount
      case Passes => Effect(WithoutStaging(r.world), Succeeded)
      case Refuses => AfterRevert(r.world, faults, StepError)
      case RaisesOs => Effect(r.world, OtherError)
      case RaisesElse => Effect(r.world, OtherError)
  }

  function Migrated(w: World, faults: Faults, outcome: Outcome): Effect<World> {
    if outcome == Succeeded then Effect(w, Succeeded) else AfterRevert(w, faults, outcome)
  }

  // ── What restoring means ───────────────────────────────────────────────────

  /** The deploy files and `.env` are the same, including which of them exist. */
  ghost predicate SameLive(a: Files, b: Files) {
    forall t: Target :: FileAt(a, Live(t)) == FileAt(b, Live(t))
  }

  /** The files of the release are in place and its version is pinned. */
  ghost predicate InPlace(before: Files, after: Files, version: string) {
    && (forall t: Target :: t != DotEnv ==> FileAt(after, Live(t)) == FileAt(before, Staged(t)))
    && FileAt(after, Live(DotEnv)) ==
         Some(EnvFile.WriteValue(FileAt(before, Live(DotEnv)), VERSION_KEY, version))
  }

  ghost predicate Restorable(files: Files, r: Replaced, start: Files, runId: string) {
    && r.backup == (if Live(r.dst) in start then Some(Backup(r.dst, runId)) else None)
    && (Live(r.dst) in start ==> FileAt(files, Backup(r.dst, runId)) == FileAt(start, Live(r.dst)))
  }

  /** After `k` targets: each visited one can be restored, the others are untouched. */
  ghost predicate Recoverable(w: World, start: Files, runId: string, k: nat) {
    && k <= |TARGETS| && |w.replaced| == k
    && (forall i :: 0 <= i < k ==> w.replaced[i].dst == TARGETS[i] && Restorable(w.files, w.replaced[i], start, runId))
    && (forall i :: k <= i < |TARGETS| ==> FileAt(w.files, Live(TARGETS[i])) == FileAt(start, Live(TARGETS[i])))
  }

  lemma TargetsDistinct(i: nat, j: nat)
    requires i < |TARGETS| && j < |TARGETS| && TARGETS[i] == TARGETS[j]
    ensures i == j
  {}

  lemma EveryTarget(t: Target) returns (i: nat)
    ensures i < |TARGETS| && TARGETS[i] == t
  {
    i := match t case Compose => 0 case ClickhouseConfig => 1 case ClickhouseInit => 2 case DotEnv => 3;
  }

  lemma CopyEffect(w: World, faults: Faults, src: Path, dst: Path)
    ensures var r := CopyFile(w, faults, src, dst);
      && r.world.replaced == w.replaced && r.world.restoreFailed == w.restoreFailed
      && (forall p: Path :: p != dst ==> FileAt(r.world.files, p) == FileAt(w.files, p))
      && (r.raised == Nothing ==> src in w.files && FileAt(r.world.files, dst) == FileAt(w.files, src))
  {}

  /** Placing one target touches its live file and its backup only. Once noted,
      the backup holds the old file; unless noted, the live file is untouched. */
  lemma PlaceOneEffect(w: World, faults: Faults, runId: string, t: Target)
    ensures var r := PlaceOne(w, faults, runId, t);
      var entry := Replaced(if Live(t) in w.files then Some(Backup(t, runId)) else None, t);
      && (forall p: Path :: p != Live(t) && p != Backup(t, runId) ==> FileAt(r.world.files, p) == FileAt(w.files, p))
      && (if r.world.replaced == w.replaced
          then r.raised != Nothing && FileAt(r.world.files, Live(t)) == FileAt(w.files, Live(t))
          else r.world.replaced == w.replaced + [entry]
               && (Live(t) in w.files ==> FileAt(r.world.files, Backup(t, runId)) == FileAt(w.files, Live(t))))
      && (r.raised == Nothing ==>
            FileAt(r.world.files, Live(t)) == FileAt(w.files, if t == DotEnv then Live(t) else Staged(t)))
  {
    hide CopyFile, Failing;
    var kept := if Live(t) in w.files then CopyFile(w, faults, Live(t), Backup(t, runId)) else Result(w, Nothing);
    if Live(t) in w.files { CopyEffect(w, faults, Live(t), Backup(t, runId)); }
    if kept.raised == Nothing {
      var entry := Replaced(if Live(t) in w.files then Some(Backup(t, runId)) else None, t);
      var noted := kept.world.(replaced := w.replaced + [entry]);
      assert |noted.replaced| == |w.replaced| + 1;
      CopyEffect(Touch(noted, faults).world, faults, Staged(t), Live(t));
    }
  }

  /** Placing one target, whatever goes wrong, keeps everything recoverable. */
  lemma PlaceOneRecoverable(w: World, faults: Faults, start: Files, runId: string, k: nat)
    requires Recoverable(w, start, runId, k) && k < |TARGETS|
    ensures var r := PlaceOne(w, faults, runId, TARGETS[k]);
      && (r.raised == Nothing ==> Recoverable(r.world, start, runId, k + 1))
      && (r.raised != Nothing ==> exists m :: Recoverable(r.world, start, runId, m))
  {
    hide PlaceOne;
    var t := TARGETS[k];
    var after := PlaceOne(w, faults, runId, t).world;
    PlaceOneEffect(w, faults, runId, t);
    assert FileAt(w.files, Live(t)) == FileAt(start, Live(t));
    OthersRecoverable(w, after, start, runId, k);
    if after.replaced == w.replaced {
      assert Recoverable(after, start, runId, k);
    } else {
      assert Restorable(after.files, after.replaced[k], start, runId);
      assert Recoverable(after, start, runId, k + 1);
    }
  }

  lemma OthersRecoverable(w: World, after: World, start: Files, runId: string, k: nat)
    requires Recoverable(w, start, runId, k) && k < |TARGETS|
    requires forall p: Path :: p != Live(TARGETS[k]) && p != Backup(TARGETS[k], runId) ==> FileAt(after.files, p) == FileAt(w.files, p)
    ensures forall i :: 0 <= i < k ==> Restorable(after.files, w.replaced[i], start, runId)
    ensures forall i :: k < i < |TARGETS| ==> FileAt(after.files, Live(TARGETS[i])) == FileAt(start, Live(TARGETS[i]))
  {
    hide FileAt;
    forall i | 0 <= i < |TARGETS| && i != k ensures TARGETS[i] != TARGETS[k] {
      if TARGETS[i] == TARGETS[k] { TargetsDistinct(i, k); }
    }
  }

  lemma PlaceOneInPlace(w: World, faults: Faults, runId: string, t: Target)
    requires PlaceOne(w, faults, runId, t).raised == Nothing
    ensures var files := PlaceOne(w, faults, runId, t).world.files;
      && FileAt(files, Live(t)) == FileAt(w.files, if t == DotEnv then Live(t) else Staged(t))
      && (forall u: Target :: FileAt(files, Staged(u)) == FileAt(w.files, Staged(u)))
      && (forall u: Target :: u != t ==> FileAt(files, Live(u)) == FileAt(w.files, Live(u)))
  {
    hide PlaceOne;
    PlaceOneEffect(w, faults, runId, t);
  }

  lemma {:induction false} PlaceFromRecoverable(w: World, faults: Faults, start: Files, runId: string, k: nat)
    requires Recoverable(w, start, runId, k)
    ensures var r := PlaceFrom(w, faults, runId, k);
      && (r.raised == Nothing ==> Recoverable(r.world, start, runId, |TARGETS|))
      && (r.raised != Nothing ==> exists m :: Recoverable(r.world, start, runId, m))
    decreases |TARGETS| - k
  {
    hide PlaceOne, Recoverable;
    if k < |TARGETS| {
      PlaceOneRecoverable(w, faults, start, runId, k);
      var r := PlaceOne(w, faults, runId, TARGETS[k]);
      if r.raised == Nothing {
        PlaceFromRecoverable(r.world, faults, start, runId, k + 1);
      }
    } else {
      assert k == |TARGETS| by { RecoverableIndex(w, start, runId, k); }
    }
  }

  lemma RecoverableIndex(w: World, start: Files, runId: string, k: nat)
    requires Recoverable(w, start, runId, k)
    ensures k <= |TARGETS|
  {}

  /** The first `k` targets are in place, `.env` still as it was. */
  ghost predicate PlacedSoFar(w: World, start: Files, k: nat) {
    && (forall i :: 0 <= i < k && i < |TARGETS| && TARGETS[i] != DotEnv ==>
          FileAt(w.files, Live(TARGETS[i])) == FileAt(start, Staged(TARGETS[i])))
    && (forall u: Target :: FileAt(w.files, Staged(u)) == FileAt(start, Staged(u)))
    && FileAt(w.files, Live(DotEnv)) == FileAt(start, Live(DotEnv))
  }

  lemma {:induction false} PlaceFromInPlace(w: World, faults: Faults, start: Files, runId: string, k: nat)
    requires k <= |TARGETS| && PlacedSoFar(w, start, k)
    requires PlaceFrom(w, faults, runId, k).raised == Nothing
    ensures PlacedSoFar(PlaceFrom(w, faults, runId, k).world, start, |TARGETS|)
    decreases |TARGETS| - k
  {
    hide PlaceOne;
    if k < |TARGETS| {
      PlaceOneInPlace(w, faults, runId, TARGETS[k]);
      assert forall i :: 0 <= i < k ==> TARGETS[i] != TARGETS[k];
      PlaceFromInPlace(PlaceOne(w, faults, runId, TARGETS[k]).world, faults, start, runId, k + 1);
    }
  }

  lemma PinRecoverable(w: World, faults: Faults, start: Files, runId: string, version: string)
    requires Recoverable(w, start, runId, |TARGETS|)
    ensures Recoverable(PinVersion(w, faults, version).world, start, runId, |TARGETS|)
  {
    hide EnvFile.WriteValue;
    var after := PinVersion(w, faults, version).world;
    assert after.replaced == w.replaced;
    assert forall p: Path :: p.Backup? ==> FileAt(after.files, p) == FileAt(w.files, p);
  }

  /** Whatever stops the installation, every file can still be restored. */
  lemma AlwaysRecoverable(w: World, faults: Faults, runId: string, version: string)
    ensures exists k :: Recoverable(PlaceAndPin(w, faults, runId, version).world, w.files, runId, k)
    ensures PlaceAndPin(w, faults, runId, version).raised == Nothing ==>
      Recoverable(PlaceAndPin(w, faults, runId, version).world, w.files, runId, |TARGETS|)
  {
    var w0 := w.(replaced := []);
    assert Recoverable(w0, w.files, runId, 0);
    hide Recoverable, PlaceFrom, PinVersion;
    PlaceFromRecoverable(w0, faults, w.files, runId, 0);
    var placed := PlaceFrom(w0, faults, runId, 0);
    if placed.raised == Nothing {
      PinRecoverable(placed.world, faults, w.files, runId, version);
      assert Recoverable(PlaceAndPin(w, faults, runId, version).world, w.files, runId, |TARGETS|);
    } else {
      var k :| Recoverable(placed.world, w.files, runId, k);
      assert Recoverable(PlaceAndPin(w, faults, runId, version).world, w.files, runId, k);
    }
  }

  lemma InstallPutsInPlace(w: World, faults: Faults, runId: string, version: string)
    requires PlaceAndPin(w, faults, runId, version).raised == Nothing
    ensures InPlace(w.files, PlaceAndPin(w, faults, runId, version).world.files, version)
  {
    var w0 := w.(replaced := []);
    hide PlaceFrom, EnvFile.WriteValue;
    PlaceFromInPlace(w0, faults, w.files, runId, 0);
    var placed := PlaceFrom(w0, faults, runId, 0).world;
    forall t: Target | t != DotEnv
      ensures FileAt(placed.files, Live(t)) == FileAt(w.files, Staged(t))
    {
      var i := EveryTarget(t);
      assert TARGETS[i] == t;
    }
  }

  /** Restoring: entries already put back match the start, the rest can be. */
  lemma {:induction false} RestoreFromRestores(w: World, faults: Faults, start: Files, runId: string, k: nat, n: nat)
    requires k <= n <= |TARGETS| && |w.replaced| == n && (w.interrupted ==> w.restoreFailed)
    requires forall i :: 0 <= i < n ==> w.replaced[i].dst == TARGETS[i]
    requires forall i :: k <= i < n ==> Restorable(w.files, w.replaced[i], start, runId)
    requires forall i :: 0 <= i < |TARGETS| && (i < k || i >= n) ==>
      FileAt(w.files, Live(TARGETS[i])) == FileAt(start, Live(TARGETS[i]))
    ensures var after := RestoreFrom(w, faults, w.replaced[k..]);
      !after.restoreFailed ==> !w.restoreFailed && SameLive(start, after.files)
    decreases n - k
  {
    if k == n {
      forall t: Target ensures FileAt(w.files, Live(t)) == FileAt(start, Live(t)) {
        var i := EveryTarget(t);
        assert TARGETS[i] == t;
      }
      assert w.replaced[k..] == [];
    } else if !w.interrupted {
      var r := w.replaced[k];
      var next := RestoreOne(w, faults, r);
      assert w.replaced[k..][0] == r && w.replaced[k..][1..] == w.replaced[k + 1..];
      RestoreOneRestores(w, faults, start, runId, r);
      hide RestoreOne;
      StaysFailed(next, faults, w.replaced[k + 1..]);
      if !RestoreFrom(next, faults, next.replaced[k + 1..]).restoreFailed {
        assert forall i :: 0 <= i < |TARGETS| && i != k ==> TARGETS[i] != TARGETS[k];
        RestoreFromRestores(next, faults, start, runId, k + 1, n);
      }
    }
  }

  lemma RestoreOneRestores(w: World, faults: Faults, start: Files, runId: string, r: Replaced)
    requires Restorable(w.files, r, start, runId)
    ensures var next := RestoreOne(w, faults, r);
      && next.replaced == w.replaced
      && (w.restoreFailed || next.interrupted ==> next.restoreFailed)
      && (!next.restoreFailed ==> FileAt(next.files, Live(r.dst)) == FileAt(start, Live(r.dst)))
      && (forall p: Path :: p != Live(r.dst) ==> FileAt(next.files, p) == FileAt(w.files, p))
  {}

  lemma {:induction false} StaysFailed(w: World, faults: Faults, rs: seq<Replaced>)
    ensures w.restoreFailed ==> RestoreFrom(w, faults, rs).restoreFailed
    decreases |rs|
  {
    if rs != [] && !w.interrupted { StaysFailed(RestoreOne(w, faults, rs[0]), faults, rs[1..]); }
  }

  lemma {:induction false} InterruptedFailed(w: World, faults: Faults, rs: seq<Replaced>)
    requires w.interrupted ==> w.restoreFailed
    ensures RestoreFrom(w, faults, rs).interrupted ==> RestoreFrom(w, faults, rs).restoreFailed
    decreases |rs|
  {
    if rs != [] && !w.interrupted { InterruptedFailed(RestoreOne(w, faults, rs[0]), faults, rs[1..]); }
  }

  /** A revert touches live files it has noted, and nothing else. */
  lemma {:induction false} RestoreTouchesNoted(w: World, faults: Faults, rs: seq<Replaced>)
    ensures var after := RestoreFrom(w, faults, rs);
      && after.replaced == w.replaced
      && (forall p: Path :: (forall i :: 0 <= i < |rs| ==> p != Live(rs[i].dst)) ==> FileAt(after.files, p) == FileAt(w.files, p))
    decreases |rs|
  {
    if rs != [] && !w.interrupted {
      var next := RestoreOne(w, faults, rs[0]);
      assert next.replaced == w.replaced && forall p: Path :: p != Live(rs[0].dst) ==> FileAt(next.files, p) == FileAt(w.files, p);
      hide RestoreOne, FileAt;
      RestoreTouchesNoted(next, faults, rs[1..]);
    }
  }

  /** So a revert that was interrupted can be taken up again. */
  lemma InterruptedRecoverable(w: World, faults: Faults, start: Files, runId: string, k: nat)
    requires Recoverable(w, start, runId, k) && Reverted(w, faults).interrupted
    ensures Recoverable(Reverted(w, faults), start, runId, k)
  {
    RestoreTouchesNoted(w.(interrupted := false), faults, w.replaced);
    var after := Reverted(w, faults);
    assert after == RestoreFrom(w.(interrupted := false), faults, w.replaced);
    hide RestoreFrom, Reverted;
    assert forall p: Path :: p.Backup? ==> FileAt(after.files, p) == FileAt(w.files, p);
    forall i | k <= i < |TARGETS| ensures FileAt(after.files, Live(TARGETS[i])) == FileAt(w.files, Live(TARGETS[i])) {
      forall j | 0 <= j < k ensures TARGETS[j] != TARGETS[i] { if TARGETS[j] == TARGETS[i] { TargetsDistinct(j, i); } }
    }
  }

  lemma RevertRestores(w: World, faults: Faults, start: Files, runId: string, k: nat)
    requires Recoverable(w, start, runId, k)
    ensures !Reverted(w, faults).restoreFailed ==> SameLive(start, Reverted(w, faults).files)
  {
    RestoreFromRestores(w.(interrupted := false), faults, start, runId, 0, k);
    assert w.replaced[0..] == w.replaced;
  }

  /** The contract of the install step, for every pattern of faults: on success
      the release is in place and can still be taken back; on a StepError (an
      OSError while placing the files, or a refusal by the mount check) the old
      files are back, if restoring them worked; on any other exception, also one
      that interrupts a revert, every file can still be restored. */
  lemma InstallAllOrNothing(w: World, faults: Faults, runId: string, version: string, mount: MountCheck)
    ensures var e := Installed(w, faults, runId, version, mount);
      && (e.outcome == Succeeded ==>
            InPlace(w.files, e.world.files, version) && Recoverable(e.world, w.files, runId, |TARGETS|))
      && (e.outcome == StepError && !e.world.restoreFailed ==> SameLive(w.files, e.world.files))
      && (e.outcome == OtherError ==> exists k :: Recoverable(e.world, w.files, runId, k))
  {
    hide PlaceAndPin, Reverted, Recoverable, EnvFile.WriteValue;
    var r := PlaceAndPin(w, faults, runId, version);
    AlwaysRecoverable(w, faults, runId, version);
    if r.raised == Nothing {
      InstallPutsInPlace(w, faults, runId, version);
      StagingGone(r.world, w.files, runId);
    }
    var k :| Recoverable(r.world, w.files, runId, k);
    RevertRestores(r.world, faults, w.files, runId, k);
    if Reverted(r.world, faults).interrupted {
      InterruptedRecoverable(r.world, faults, w.files, runId, k);
    }
  }

  lemma StagingGone(w: World, start: Files, runId: string)
    requires Recoverable(w, start, runId, |TARGETS|)
    ensures Recoverable(WithoutStaging(w), start, runId, |TARGETS|)
    ensures forall p: Path :: !p.Staged? ==> FileAt(WithoutStaging(w).files, p) == FileAt(w.files, p)
  {}

  /** Once the files are placed, only a refusal of the mount check is reverted. With
      every pattern of faults, if no restore failed: a failed check leaves the old
      files in place exactly when it refused or the release changes none of them. */
  lemma FailedCheckRestoresIff(w: World, faults: Faults, runId: string, version: string, mount: MountCheck)
    requires PlaceAndPin(w, faults, runId, version).raised == Nothing
    requires mount != Passes && !Installed(w, faults, runId, version, mount).world.restoreFailed
    ensures var e := Installed(w, faults, runId, version, mount);
      SameLive(w.files, e.world.files) <==> mount == Refuses || InPlace(w.files, w.files, version)
  {
    var r := PlaceAndPin(w, faults, runId, version).world;
    InterruptedFailed(r.(interrupted := false), faults, r.replaced);
    assert Reverted(r, faults).interrupted ==> Reverted(r, faults).restoreFailed;
    hide EnvFile.WriteValue, PlaceAndPin, Reverted, InPlace;
    InstallPutsInPlace(w, faults, runId, version);
    InstallAllOrNothing(w, faults, runId, version, mount);
    SameAsInPlace(w.files, PlaceAndPin(w, faults, runId, version).world.files, version);
  }

  /** In particular an OSError of the mount check, unlike one while placing the
      files, leaves the release in place although the step failed. */
  lemma OsErrorOfCheckKeepsRelease(w: World, faults: Faults, runId: string, version: string)
    requires PlaceAndPin(w, faults, runId, version).raised == Nothing
    ensures var e := Installed(w, faults, runId, version, RaisesOs);
      && e.outcome == OtherError && InPlace(w.files, e.world.files, version)
      && (!InPlace(w.files, w.files, version) ==> !SameLive(w.files, e.world.files))
  {
    hide EnvFile.WriteValue, PlaceAndPin, InPlace;
    InstallPutsInPlace(w, faults, runId, version);
    SameAsInPlace(w.files, PlaceAndPin(w, faults, runId, version).world.files, version);
  }

  lemma SameAsInPlace(before: Files, after: Files, version: string)
    requires InPlace(before, after, version)
    ensures SameLive(before, after) <==> InPlace(before, before, version)
  {
    hide EnvFile.WriteValue;
  }

  /** Both assumptions hold whenever all I/O works and the release is staged. */
  lemma WorkingIo(w: World, faults: Faults, runId: string, version: string, mount: MountCheck)
    requires forall n :: faults(n) == Works
    requires !w.restoreFailed && forall t: Target :: t != DotEnv ==> Staged(t) in w.files
    ensures PlaceAndPin(w, faults, runId, version).raised == Nothing
    ensures !Installed(w, faults, runId, version, mount).world.restoreFailed
  {
    AllWorks(w, faults, runId, version);
    AlwaysRecoverable(w, faults, runId, version);
    hide EnvFile.WriteValue, PlaceAndPin, Recoverable, Reverted, RestoreFrom;
    WorkingRevert(PlaceAndPin(w, faults, runId, version).world, faults, w.files, runId);
  }

  lemma WorkingRevert(w: World, faults: Faults, start: Files, runId: string)
    requires forall n :: faults(n) == Works
    requires !w.restoreFailed && Recoverable(w, start, runId, |TARGETS|)
    ensures !Reverted(w, faults).restoreFailed
  {
    var from := w.(interrupted := false);
    assert from.replaced[0..] == w.replaced;
    hide RestoreFrom;
    CleanRestore(from, faults, start, runId, 0);
  }

  lemma AllWorks(w: World, faults: Faults, runId: string, version: string)
    requires forall n :: faults(n) == Works
    requires forall t: Target :: t != DotEnv ==> Staged(t) in w.files
    ensures PlaceAndPin(w, faults, runId, version).raised == Nothing
    ensures PlaceAndPin(w, faults, runId, version).world.restoreFailed == w.restoreFailed
  {
    hide EnvFile.WriteValue, PlaceOne;
    AllPlaced(w.(replaced := []), faults, runId, 0);
  }

  lemma {:induction false} AllPlaced(w: World, faults: Faults, runId: string, k: nat)
    requires forall n :: faults(n) == Works
    requires forall t: Target :: t != DotEnv ==> Staged(t) in w.files
    requires k <= |TARGETS|
    ensures PlaceFrom(w, faults, runId, k).raised == Nothing
    ensures PlaceFrom(w, faults, runId, k).world.restoreFailed == w.restoreFailed
    decreases |TARGETS| - k
  {
    if k < |TARGETS| {
      PlaceOneWorks(w, faults, runId, TARGETS[k]);
      hide PlaceOne;
      AllPlaced(PlaceOne(w, faults, runId, TARGETS[k]).world, faults, runId, k + 1);
    }
  }

  lemma PlaceOneWorks(w: World, faults: Faults, runId: string, t: Target)
    requires forall n :: faults(n) == Works
    requires t != DotEnv ==> Staged(t) in w.files
    ensures var r := PlaceOne(w, faults, runId, t);
      && r.raised == Nothing && r.world.restoreFailed == w.restoreFailed
      && forall p: Path :: p in w.files ==> p in r.world.files
  {}

  lemma {:induction false} CleanRestore(w: World, faults: Faults, start: Files, runId: string, k: nat)
    requires forall n :: faults(n) == Works
    requires k <= |w.replaced| && !w.restoreFailed && !w.interrupted
    requires Recoverable(w, start, runId, |w.replaced|) || forall i :: k <= i < |w.replaced| ==> Restorable(w.files, w.replaced[i], start, runId)
    ensures var after := RestoreFrom(w, faults, w.replaced[k..]); !after.restoreFailed && !after.interrupted
    decreases |w.replaced| - k
  {
    if k < |w.replaced| {
      var r := w.replaced[k];
      assert Restorable(w.files, r, start, runId);
      assert w.replaced[k..][0] == r && w.replaced[k..][1..] == w.replaced[k + 1..];
      RestoreOneRestores(w, faults, start, runId, r);
      CleanRestore(RestoreOne(w, faults, r), faults, start, runId, k + 1);
    }
  }

  // ── The whole image update ─────────────────────────────────────────────────

  /** Everything outside the sidecar's control in one run: which I/O fails, what
      the release image holds, and how each step that only runs commands ends. */
  datatype Scenario = Scenario(
    faults: Faults,
    runId: string,
    version: string,
    image: map<Target, string>,
    preflight: Outcome,
    resolve: Outcome,
    verify: Outcome,
    backup: Outcome,
    pull: Outcome,
    stage: Outcome,
    mount: MountCheck,
    migrate: Outcome,
    restart: Outcome,
    handoff: Outcome)

  const INSTALL: nat := 6
  const MIGRATE: nat := 7

  /** Stage what the image carries; a missing deploy file is a StepError. */
  function StagedFrom(w: World, s: Scenario): Effect<World> {
    var clean := WithoutStaging(w);
    var staged := map t | t in s.image && t in DEPLOY_FILES :: Staged(t) := s.image[t];
    var complete := forall t :: t in DEPLOY_FILES ==> t in s.image;
    Effect(clean.(files := clean.files + staged), if s.stage == Succeeded && !complete then StepError else s.stage)
  }

  function ImageSteps(s: Scenario): seq<NamedStep<World>> {
    [ NamedStep("preflight", (w: World) => Effect(w, s.preflight)),
      NamedStep("resolve", (w: World) => Effect(w, s.resolve)),
      NamedStep("verify", (w: World) => Effect(w, s.verify)),
      NamedStep("backup", (w: World) => Effect(w, s.backup)),
      NamedStep("pull", (w: World) => Effect(w, s.pull)),
      NamedStep("stage", (w: World) => StagedFrom(w, s)),
      NamedStep("install", (w: World) => Installed(w, s.faults, s.runId, s.version, s.mount)),
      NamedStep("migrate", (w: World) => Migrated(w, s.faults, s.migrate)),
      NamedStep("restart", (w: World) => Effect(w, s.restart)),
      NamedStep("handoff", (w: World) => Effect(w, s.handoff)) ]
  }

  /** The files the release installs: its own, and the pinned `.env`. */
  ghost predicate ReleaseInPlace(start: Files, after: Files, s: Scenario) {
    && (forall t: Target :: t != DotEnv ==> t in s.image && FileAt(after, Live(t)) == Some(s.image[t]))
    && FileAt(after, Live(DotEnv)) ==
         Some(EnvFile.WriteValue(FileAt(start, Live(DotEnv)), VERSION_KEY, s.version))
  }

  /** The first five steps and the last two leave every file alone. */
  lemma OnlyCommands(s: Scenario, w: World)
    ensures var f := RunFrom(ImageSteps(s), 0, w);
      if f.failed.Some? && f.failed.value < 5 then f.world == w else f == RunFrom(ImageSteps(s), 5, w)
    ensures RunFrom(ImageSteps(s), 8, w).world == w
    ensures var g := RunFrom(ImageSteps(s), 5, w).failed; g.Some? ==> 5 <= g.value
    ensures var g := RunFrom(ImageSteps(s), 8, w).failed; g.Some? ==> 8 <= g.value
  {
    hide StagedFrom, Installed, Migrated;
    var steps := ImageSteps(s);
    FailedInRange(steps, 5, w);
    FailedInRange(steps, 8, w);
    assert RunFrom(steps, 10, w).world == w;
    assert RunFrom(steps, 9, w).world == w;
    if s.preflight == Succeeded && s.resolve == Succeeded && s.verify == Succeeded {
      assert RunFrom(steps, 0, w) == RunFrom(steps, 1, w) == RunFrom(steps, 2, w) == RunFrom(steps, 3, w);
      if s.backup == Succeeded { assert RunFrom(steps, 3, w) == RunFrom(steps, 4, w); }
    } else if s.preflight == Succeeded {
      assert RunFrom(steps, 0, w) == RunFrom(steps, 1, w);
    }
  }

  lemma StageLeavesLive(w: World, s: Scenario)
    ensures var e := StagedFrom(w, s);
      && SameLive(w.files, e.world.files) && e.world.restoreFailed == w.restoreFailed
      && (e.outcome == Succeeded ==>
            forall t: Target :: t != DotEnv ==> t in s.image && FileAt(e.world.files, Staged(t)) == Some(s.image[t]))
  {
    var e := StagedFrom(w, s);
    assert forall p: Path :: !p.Staged? ==> FileAt(e.world.files, p) == FileAt(w.files, p);
    if e.outcome == Succeeded {
      forall t: Target | t != DotEnv ensures t in s.image && FileAt(e.world.files, Staged(t)) == Some(s.image[t]) {
        var i := EveryTarget(t);
        assert DEPLOY_FILES[i] == t;
      }
    }
  }

  /** What a finished run promises about the deploy files and `.env`. */
  ghost predicate FilesAsPromised(s: Scenario, start: World, f: Finished<World>) {
    var died := f.failed == Some(INSTALL) && f.outcome == OtherError;
    && (f.failed.Some? && f.failed.value <= MIGRATE && !f.world.restoreFailed && !died ==>
          SameLive(start.files, f.world.files))
    && (f.failed.None? || f.failed.value > MIGRATE ==> ReleaseInPlace(start.files, f.world.files, s))
    && (died && s.mount in {RaisesOs, RaisesElse} && PlaceAndPin(StagedFrom(start, s).world, s.faults, s.runId, s.version).raised == Nothing ==>
          ReleaseInPlace(start.files, f.world.files, s))
  }

  /** The files of a whole image update, for every pattern of faults. A run that
      fails at or before `migrate` ends with the deploy files and `.env` as they
      were, if restoring worked and the install step did not die of an uncaught
      exception; if that exception is the mount check's, even an OSError, the
      release stays in place. So it does in a run that gets to `restart`. */
  lemma ImageUpdateFiles(s: Scenario, start: World)
    ensures FilesAsPromised(s, start, RunFrom(ImageSteps(s), 0, start))
  {
    hide StagedFrom, Installed, Migrated, ReleaseInPlace, Reverted, EnvFile.WriteValue, PlaceAndPin;
    var steps := ImageSteps(s);
    OnlyCommands(s, start);
    StageLeavesLive(start, s);
    var w1 := StagedFrom(start, s).world;
    var i := Installed(w1, s.faults, s.runId, s.version, s.mount);
    if StagedFrom(start, s).outcome == Succeeded {
      InstallAllOrNothing(w1, s.faults, s.runId, s.version, s.mount);
      SameLiveTrans(start.files, w1.files, i.world.files);
      if i.outcome == Succeeded {
        MigrateFiles(s, start, w1, i.world);
        OnlyCommands(s, Migrated(i.world, s.faults, s.migrate).world);
      } else if i.outcome == OtherError && s.mount in {RaisesOs, RaisesElse} && PlaceAndPin(w1, s.faults, s.runId, s.version).raised == Nothing {
        DiedInPlace(s, start, w1);
      }
    }
  }

  lemma DiedInPlace(s: Scenario, start: World, staged: World)
    requires PlaceAndPin(staged, s.faults, s.runId, s.version).raised == Nothing
    requires s.mount in {RaisesOs, RaisesElse}
    requires SameLive(start.files, staged.files)
    requires forall t: Target :: t != DotEnv ==> t in s.image && FileAt(staged.files, Staged(t)) == Some(s.image[t])
    ensures ReleaseInPlace(start.files, Installed(staged, s.faults, s.runId, s.version, s.mount).world.files, s)
  {
    hide EnvFile.WriteValue, PlaceAndPin;
    InstallPutsInPlace(staged, s.faults, s.runId, s.version);
  }

  lemma MigrateFiles(s: Scenario, start: World, staged: World, installed: World)
    requires InPlace(staged.files, installed.files, s.version) && Recoverable(installed, staged.files, s.runId, |TARGETS|)
    requires SameLive(start.files, staged.files)
    requires forall t: Target :: t != DotEnv ==> t in s.image && FileAt(staged.files, Staged(t)) == Some(s.image[t])
    ensures var e := Migrated(installed, s.faults, s.migrate);
      && (e.outcome == Succeeded <==> s.migrate == Succeeded)
      && (e.outcome == Succeeded ==> ReleaseInPlace(start.files, e.world.files, s))
      && (e.outcome != Succeeded && !e.world.restoreFailed ==> SameLive(start.files, e.world.files))
  {
    hide Reverted, EnvFile.WriteValue;
    RevertRestores(installed, s.faults, staged.files, s.runId, |TARGETS|);
  }

  lemma SameLiveTrans(a: Files, b: Files, c: Files)
    ensures SameLive(a, b) && SameLive(b, c) ==> SameLive(a, c)
  {}

  /** The runner of image mode: the files end as promised, and the state file
      never held anything but a consistent state. */
  method RunImageUpdate(s: Scenario, start: World) returns (state: UpdateState, world: World, persisted: seq<Snapshot>)
    ensures world == RunFrom(ImageSteps(s), 0, start).world
    ensures FilesAsPromised(s, start, RunFrom(ImageSteps(s), 0, start))
    ensures forall p :: p in persisted ==> Consistent(p)
  {
    hide StagedFrom, Installed, Migrated, FilesAsPromised, Consistent, Persisted, RunFrom, AlwaysConsistent;
    var steps := ImageSteps(s);
    state, world, persisted := RunUpdate(steps, start);
    ImageUpdateFiles(s, start);
    StateFileConsistentIff(Names(steps));
    StatesConsistent(Names(steps), RunFrom(steps, 0, start).failed);
  }

  lemma StatesConsistent(names: seq<string>, failed: Option<nat>)
    requires AlwaysConsistent(names) && (failed.Some? ==> failed.value < |names|)
    ensures forall p :: p in Persisted(names, failed) ==> Consistent(p)
  {
    hide Persisted, Consistent;
  }

  // ── The steps as they run ──────────────────────────────────────────────────

  class Installation {
    var world: World
    const faults: Faults
    const runId: string

    constructor (world: World, faults: Faults, runId: string)
      ensures this.world == world && this.faults == faults && this.runId == runId
    {
      this.world, this.faults, this.runId := world, faults, runId;
    }

    /** Undo what `StepInstall` did to the files. An OSError is logged and the next
        file tried; anything else leaves the loop and the list. */
    method RevertInstall() returns (interrupted: bool)
      modifies this
      ensures world == Reverted(old(world), faults) && interrupted == world.interrupted
    {
      world := world.(interrupted := false);
      ghost var begin := world;
      var replaced := world.replaced;
      var n := 0;
      while n < |replaced|
        invariant 0 <= n <= |replaced| && !world.interrupted
        invariant RestoreFrom(world, faults, replaced[n..]) == RestoreFrom(begin, faults, replaced)
      {
        assert replaced[n..][1..] == replaced[n + 1..];
        world := RestoreOne(world, faults, replaced[n]);
        n := n + 1;
        if world.interrupted {
          return true;
        }
      }
      world := world.(replaced := []);
      return false;
    }

    /** The `try` block: keep, note and place each file, then pin the version. */
    method PlaceFiles(version: string) returns (raised: Raised)
      modifies this
      ensures Result(world, raised) == PlaceAndPin(old(world), faults, runId, version)
    {
      hide PlaceOne, PinVersion;
      world := world.(replaced := []);
      ghost var begin := world;
      var k := 0;
      while k < |TARGETS|
        invariant 0 <= k <= |TARGETS|
        invariant PlaceFrom(world, faults, runId, k) == PlaceFrom(begin, faults, runId, 0)
      {
        var r := PlaceOne(world, faults, runId, TARGETS[k]);
        world := r.world;
        if r.raised != Nothing {
          return r.raised;
        }
        k := k + 1;
      }
      var pinned := PinVersion(world, faults, version);
      world := pinned.world;
      return pinned.raised;
    }

    /** An OSError while placing and a refusal are reverted, an exception of the
        mount check is not. */
    method StepInstall(version: string, mount: MountCheck) returns (outcome: Outcome)
      modifies this
      ensures Effect(world, outcome) == Installed(old(world), faults, runId, version, mount)
      ensures outcome == StepError && !world.restoreFailed ==> SameLive(old(world).files, world.files)
      ensures outcome == Succeeded ==> InPlace(old(world).files, world.files, version)
      ensures outcome == OtherError ==> exists k :: Recoverable(world, old(world).files, runId, k)
    {
      hide PlaceAndPin, Reverted, Recoverable, EnvFile.WriteValue, InPlace, SameLive;
      InstallAllOrNothing(world, faults, runId, version, mount);
      var raised := PlaceFiles(version);
      if raised == OsError {
        var interrupted := RevertInstall();
        return if interrupted then OtherError else StepError;
      } else if raised == Other {
        return OtherError;
      }
      match mount
      case Passes =>
        world := WithoutStaging(world);
        return Succeeded;
      case Refuses =>
        var interrupted := RevertInstall();
        return if interrupted then OtherError else StepError;
      case RaisesOs => return OtherError;
      case RaisesElse => return OtherError;
    }
  }
}
