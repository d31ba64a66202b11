/**
  The set of configs in flight across overlapping collector passes
  (backend/scheduler.py, `_inflight_cfgs`).

  A pass considers its tenant's configs one after another, then launches all its
  units in one go and waits for them only for a while; units it leaves behind run
  on while later passes start. The transition system interleaves any number of
  passes of any number of tenants with the ends of units.
 */
module CollectionPasses {
  import opened CollectionUnits

  /** One pass: its rows, what it has found so far, and whether it has launched. */
  datatype Pass = Pass(tenant: int, rows: seq<Row>, found: map<int, Finding>, launched: bool)

  datatype State = State(inflight: set<int>, live: seq<Unit>, passes: map<nat, Pass>)

  datatype Step =
    | Begin(pass: nat, tenant: int, rows: seq<Row>)
    | Consider(pass: nat, id: int, checked: Finding)
    | Launch(pass: nat)
    | UnitEnds(unit: nat)
    | PassEnds(pass: nat)

  function FindingOf(found: map<int, Finding>): int -> Finding {
    id => if id in found then found[id] else Skipped
  }

  function UnitsOf(registry: set<string>, p: Pass): seq<Unit> {
    Plan(p.rows, registry, FindingOf(p.found))
  }

  function MembersOf(units: seq<Unit>): set<int> {
    set i, id | 0 <= i < |units| && id in units[i].members :: id
  }

  function MemberSet(u: Unit): set<int> {
    set id | id in u.members
  }

  /** Every config belongs to one tenant, and a pass reads its tenant's rows in id order. */
  predicate Enabled(owner: int -> int, registry: set<string>, s: State, step: Step) {
    match step
    case Begin(p, tenant, rows) =>
      p !in s.passes && Ascending(rows) && forall r :: r in rows ==> owner(r.id) == tenant
    case Consider(p, id, _) =>
      p in s.passes && !s.passes[p].launched && id !in s.passes[p].found && owner(id) == s.passes[p].tenant
    case Launch(p) =>
      && p in s.passes && !s.passes[p].launched
      && forall r :: r in s.passes[p].rows && r.kind in registry ==> r.id in s.passes[p].found
    case UnitEnds(u) => u < |s.live|
    case PassEnds(p) => p in s.passes
  }

  /** The job runner never starts a second pass for a tenant that has one. */
  predicate OnePassPerTenant(s: State, step: Step) {
    step.Begin? ==> forall p :: p in s.passes ==> s.passes[p].tenant != step.tenant
  }

  function Apply(registry: set<string>, s: State, step: Step): State {
    match step
    case Begin(p, tenant, rows) => s.(passes := s.passes[p := Pass(tenant, rows, map[], false)])
    case Consider(p, id, checked) =>
      if p !in s.passes then s
      else
        var finding := if id in s.inflight then Skipped else checked;
        s.(passes := s.passes[p := s.passes[p].(found := s.passes[p].found[id := finding])])
    case Launch(p) =>
      if p !in s.passes then s
      else
        var units := UnitsOf(registry, s.passes[p]);
        State(s.inflight + MembersOf(units), s.live + units, s.passes[p := s.passes[p].(launched := true)])
    case UnitEnds(u) =>
      if u >= |s.live| then s
      else
        State(s.inflight - MemberSet(s.live[u]), s.live[..u] + s.live[u + 1..], s.passes)
    case PassEnds(p) => s.(passes := s.passes - {p})
  }

  // ── What every step keeps ──────────────────────────────────────────────────

  /** No config is being collected by two units. */
  ghost predicate CollectedOnce(live: seq<Unit>) {
    forall i, j, id :: 0 <= i < j < |live| && id in live[i].members ==> id !in live[j].members
  }

  ghost predicate Valid(owner: int -> int, s: State) {
    && CollectedOnce(s.live)
    && s.inflight == MembersOf(s.live)
    && (forall p, q :: p in s.passes && q in s.passes && p != q ==> s.passes[p].tenant != s.passes[q].tenant)
    && (forall p :: p in s.passes ==> PassValid(owner, s.inflight, s.passes[p]))
  }

  /** A pass knows only configs of its tenant, and before it launches, none it
      holds for due is in flight. */
  ghost predicate PassValid(owner: int -> int, inflight: set<int>, p: Pass) {
    && Ascending(p.rows)
    && (forall id :: id in p.found ==> owner(id) == p.tenant)
    && (!p.launched ==> forall id :: id in p.found && p.found[id].Due? ==> id !in inflight)
  }

  lemma PlannedWereFound(registry: set<string>, p: Pass)
    requires Ascending(p.rows)
    ensures CollectedOnce(UnitsOf(registry, p))
    ensures forall id :: id in MembersOf(UnitsOf(registry, p)) ==> id in p.found && p.found[id].Due?
  {
    var units := UnitsOf(registry, p);
    UnitsPartitionTheDue(p.rows, registry, FindingOf(p.found));
    hide Plan, Ascending;
    forall id | id in MembersOf(units) ensures id in p.found && p.found[id].Due? {
      assert Together(units, id, id);
    }
  }

  lemma Joined(live: seq<Unit>, units: seq<Unit>)
    ensures MembersOf(live + units) == MembersOf(live) + MembersOf(units)
    ensures CollectedOnce(live + units) <==>
      CollectedOnce(live) && CollectedOnce(units) && MembersOf(live) !! MembersOf(units)
  {
    var all := live + units;
    assert forall i :: 0 <= i < |live| ==> all[i] == live[i];
    assert forall j :: 0 <= j < |units| ==> all[|live| + j] == units[j];
    forall id | id in MembersOf(live) ensures id in MembersOf(all) {
      var i :| 0 <= i < |live| && id in live[i].members;
      assert id in all[i].members;
    }
    forall id | id in MembersOf(units) ensures id in MembersOf(all) {
      var j :| 0 <= j < |units| && id in units[j].members;
      assert id in all[|live| + j].members;
    }
    if CollectedOnce(all) {
      JoinedOnce(live, units);
    }
    if CollectedOnce(live) && CollectedOnce(units) && MembersOf(live) !! MembersOf(units) {
      forall i, j, id | 0 <= i < j < |all| && id in all[i].members ensures id !in all[j].members {
        if i < |live| <= j {
          assert id in MembersOf(live);
          assert id !in units[j - |live|].members;
        }
      }
    }
  }

  lemma JoinedOnce(live: seq<Unit>, units: seq<Unit>)
    requires CollectedOnce(live + units)
    ensures CollectedOnce(live) && CollectedOnce(units) && MembersOf(live) !! MembersOf(units)
  {
    var all := live + units;
    assert forall i :: 0 <= i < |live| ==> all[i] == live[i];
    assert forall j :: 0 <= j < |units| ==> all[|live| + j] == units[j];
    forall i, j, id | 0 <= i < j < |units| && id in units[i].members ensures id !in units[j].members {
      assert id in all[|live| + i].members;
      assert id !in all[|live| + j].members;
    }
    forall id | id in MembersOf(live) ensures id !in MembersOf(units) {
      var i :| 0 <= i < |live| && id in live[i].members;
      forall j | 0 <= j < |units| ensures id !in units[j].members {
        assert id in all[i].members && id !in all[|live| + j].members;
      }
    }
  }

  lemma OneLess(live: seq<Unit>, u: nat)
    requires u < |live| && CollectedOnce(live)
    ensures CollectedOnce(live[..u] + live[u + 1..])
    ensures MembersOf(live[..u] + live[u + 1..]) == MembersOf(live) - MemberSet(live[u])
  {
    var rest := live[..u] + live[u + 1..];
    assert forall i :: 0 <= i < |rest| ==> rest[i] == live[if i < u then i else i + 1];
    forall id | id in MembersOf(live) && id !in live[u].members ensures id in MembersOf(rest) {
      var i :| 0 <= i < |live| && id in live[i].members;
      assert id in rest[if i < u then i else i - 1].members;
    }
  }

  /** Launching keeps every config collected once exactly if none the pass holds
      for due is in flight by now. */
  lemma LaunchSafeIff(registry: set<string>, s: State, p: nat)
    requires p in s.passes && Ascending(s.passes[p].rows)
    requires CollectedOnce(s.live) && s.inflight == MembersOf(s.live)
    ensures CollectedOnce(Apply(registry, s, Launch(p)).live) <==>
      s.inflight !! MembersOf(UnitsOf(registry, s.passes[p]))
    ensures Apply(registry, s, Launch(p)).inflight == MembersOf(Apply(registry, s, Launch(p)).live)
  {
    hide Ascending, MembersOf, CollectedOnce, UnitsOf;
    PlannedWereFound(registry, s.passes[p]);
    Joined(s.live, UnitsOf(registry, s.passes[p]));
  }

  lemma StepKeepsValid(owner: int -> int, registry: set<string>, s: State, step: Step)
    requires Valid(owner, s) && Enabled(owner, registry, s, step) && OnePassPerTenant(s, step)
    ensures Valid(owner, Apply(registry, s, step))
  {
    hide Ascending, MembersOf, CollectedOnce, UnitsOf;
    if step.Launch? {
      var pass := s.passes[step.pass];
      var units := UnitsOf(registry, pass);
      PlannedWereFound(registry, pass);
      LaunchSafeIff(registry, s, step.pass);
      assert PassValid(owner, s.inflight, pass) && !pass.launched;
      forall id | id in MembersOf(units) ensures id !in s.inflight {
        assert id in pass.found;
      }
      var next := Apply(registry, s, step);
      assert next.inflight == s.inflight + MembersOf(units);
      forall q | q in next.passes ensures PassValid(owner, next.inflight, next.passes[q]) {
        assert q != step.pass ==> next.passes[q] == s.passes[q] && s.passes[q].tenant != pass.tenant;
      }
    } else if step.UnitEnds? {
      OneLess(s.live, step.unit);
    }
  }

  // ── Whole runs ─────────────────────────────────────────────────────────────

  const START := State({}, [], map[])

  function After(registry: set<string>, steps: seq<Step>): State {
    if steps == [] then START else Apply(registry, After(registry, steps[..|steps| - 1]), steps[|steps| - 1])
  }

  predicate Possible(owner: int -> int, registry: set<string>, steps: seq<Step>) {
    forall n :: 0 <= n < |steps| ==> Enabled(owner, registry, After(registry, steps[..n]), steps[n])
  }

  predicate Serial(registry: set<string>, steps: seq<Step>) {
    forall n :: 0 <= n < |steps| ==> OnePassPerTenant(After(registry, steps[..n]), steps[n])
  }

  lemma {:induction false} RunKeepsValid(owner: int -> int, registry: set<string>, steps: seq<Step>)
    requires Possible(owner, registry, steps) && Serial(registry, steps)
    ensures Valid(owner, After(registry, steps))
  {
    hide Enabled, OnePassPerTenant, Apply;
    if steps != [] {
      var n := |steps| - 1;
      assert forall m :: 0 <= m <= n ==> steps[..n][..m] == steps[..m];
      RunKeepsValid(owner, registry, steps[..n]);
      StepKeepsValid(owner, registry, After(registry, steps[..n]), steps[n]);
    } else {
      assert MembersOf([]) == {};
    }
  }

  /** With one pass per tenant at a time, however passes and units overlap: no
      config is ever collected by two units at once, the configs marked in flight
      are exactly those some unit is collecting, and none is left marked when no
      unit runs. */
  lemma {:induction false} NeverCollectedTwice(owner: int -> int, registry: set<string>, steps: seq<Step>)
    requires Possible(owner, registry, steps) && Serial(registry, steps)
    ensures var s := After(registry, steps);
      && (forall i, j, id :: 0 <= i < |s.live| && 0 <= j < |s.live| && id in s.live[i].members && id in s.live[j].members ==> i == j)
      && (forall id :: id in s.inflight <==> exists i :: 0 <= i < |s.live| && id in s.live[i].members)
      && (s.live == [] ==> s.inflight == {})
  {
    RunKeepsValid(owner, registry, steps);
  }

  // ── What a launch collects ─────────────────────────────────────────────────

  /** The pass began at `b` with these rows and has neither launched nor ended since. */
  ghost predicate OpenSince(steps: seq<Step>, b: nat, p: nat, rows: seq<Row>) {
    && b < |steps| && steps[b].Begin? && steps[b].pass == p && steps[b].rows == rows
    && forall n :: b < n < |steps| ==>
         !((steps[n].Begin? || steps[n].Launch? || steps[n].PassEnds?) && steps[n].pass == p)
  }

  /** At step `m` the pass found the config due, and no unit was collecting it. */
  ghost predicate FoundFree(registry: set<string>, steps: seq<Step>, m: nat, p: nat, id: int, group: string) {
    m < |steps| && steps[m] == Consider(p, id, Due(group)) && id !in After(registry, steps[..m]).inflight
  }

  ghost predicate EverFound(registry: set<string>, steps: seq<Step>, b: nat, p: nat, id: int, group: string) {
    exists m: nat :: b < m && FoundFree(registry, steps, m, p, id, group)
  }

  ghost predicate FoundSoFar(registry: set<string>, steps: seq<Step>, b: nat, p: nat, found: map<int, Finding>) {
    forall id, group :: (id in found && found[id] == Due(group)) <==> EverFound(registry, steps, b, p, id, group)
  }

  lemma {:induction false} OpenPass(owner: int -> int, registry: set<string>, steps: seq<Step>, b: nat, p: nat, rows: seq<Row>)
    requires Possible(owner, registry, steps) && OpenSince(steps, b, p, rows)
    ensures var passes := After(registry, steps).passes;
      && p in passes && passes[p].rows == rows && !passes[p].launched
      && FoundSoFar(registry, steps, b, p, passes[p].found)
  {
    var n := |steps| - 1;
    var init := steps[..n];
    hide UnitsOf, MembersOf, Ascending, Enabled, EverFound, FoundFree;
    if b == n {
      NothingFound(registry, steps, p);
    } else {
      hide After;
      assert forall m :: 0 <= m <= n ==> init[..m] == steps[..m];
      OpenPass(owner, registry, init, b, p, rows);
      OpenNext(registry, steps, p);
      assert Enabled(owner, registry, After(registry, steps[..n]), steps[n]);
      hide Possible, OpenSince, FoundSoFar;
      FoundMore(owner, registry, steps, b, p, After(registry, init).passes[p].found, After(registry, steps).passes[p].found);
    }
  }

  lemma NothingFound(registry: set<string>, steps: seq<Step>, p: nat)
    requires steps != []
    ensures FoundSoFar(registry, steps, |steps| - 1, p, map[])
  {
    hide After;
  }

  lemma FoundMore(owner: int -> int, registry: set<string>, steps: seq<Step>, b: nat, p: nat,
                  before: map<int, Finding>, after: map<int, Finding>)
    requires b < |steps| - 1 && FoundSoFar(registry, steps[..|steps| - 1], b, p, before)
    requires var s, step := After(registry, steps[..|steps| - 1]), steps[|steps| - 1];
      && Enabled(owner, registry, s, step) && p in s.passes && s.passes[p].found == before
      && after == if step.Consider? && step.pass == p
                  then before[step.id := if step.id in s.inflight then Skipped else step.checked] else before
    ensures FoundSoFar(registry, steps, b, p, after)
  {
    var n := |steps| - 1;
    hide After, EverFound;
    forall id, group
      ensures EverFound(registry, steps, b, p, id, group) <==>
        FoundFree(registry, steps, n, p, id, group) || EverFound(registry, steps[..n], b, p, id, group)
    {
      FoundNext(registry, steps, steps[..n], b, p, id, group);
    }
  }

  lemma FoundNext(registry: set<string>, steps: seq<Step>, init: seq<Step>, b: nat, p: nat, id: int, group: string)
    requires b < |steps| - 1 && init == steps[..|steps| - 1]
    ensures EverFound(registry, steps, b, p, id, group) <==>
      FoundFree(registry, steps, |steps| - 1, p, id, group) || EverFound(registry, init, b, p, id, group)
  {
    var n := |steps| - 1;
    hide After;
    assert forall m :: 0 <= m <= n ==> init[..m] == steps[..m];
    assert forall m: nat :: m < n ==> (FoundFree(registry, steps, m, p, id, group) <==> FoundFree(registry, init, m, p, id, group));
  }

  /** Only the pass itself changes what it has found. */
  lemma OpenNext(registry: set<string>, steps: seq<Step>, p: nat)
    requires steps != []
    requires var step := steps[|steps| - 1]; !((step.Begin? || step.Launch? || step.PassEnds?) && step.pass == p)
    ensures var before, after, step := After(registry, steps[..|steps| - 1]), After(registry, steps), steps[|steps| - 1];
      p in before.passes ==>
        && p in after.passes && after.passes[p].rows == before.passes[p].rows
        && after.passes[p].launched == before.passes[p].launched
        && after.passes[p].found ==
             if step.Consider? && step.pass == p
             then before.passes[p].found[step.id := if step.id in before.inflight then Skipped else step.checked]
             else before.passes[p].found
  {
    hide UnitsOf, MembersOf;
  }

  /** A launch collects exactly what the pass found due while no unit was collecting
      it, among its rows of known types; nothing due is lost. */
  lemma LaunchCollects(owner: int -> int, registry: set<string>, steps: seq<Step>, b: nat, p: nat, rows: seq<Row>)
    requires Possible(owner, registry, steps) && OpenSince(steps, b, p, rows)
    ensures var s := After(registry, steps);
      && p in s.passes
      && Apply(registry, s, Launch(p)).live == s.live + UnitsOf(registry, s.passes[p])
      && forall id :: Together(UnitsOf(registry, s.passes[p]), id, id) <==>
           exists r, group :: r in rows && r.id == id && r.kind in registry && EverFound(registry, steps, b, p, id, group)
  {
    OpenPass(owner, registry, steps, b, p, rows);
    assert Ascending(rows) by { hide After, Ascending; assert Enabled(owner, registry, After(registry, steps[..b]), steps[b]); }
    hide After, Possible, OpenSince, EverFound, Plan, Ascending, MembersOf, Together;
    var pass := After(registry, steps).passes[p];
    UnitsPartitionTheDue(rows, registry, FindingOf(pass.found));
    var units := UnitsOf(registry, pass);
    assert units == Plan(rows, registry, FindingOf(pass.found));
    forall id ensures Together(units, id, id) <==>
      exists r, group :: r in rows && r.id == id && r.kind in registry && EverFound(registry, steps, b, p, id, group)
    {
      DueIffFound(registry, steps, b, p, rows, pass.found, id);
    }
  }

  lemma DueIffFound(registry: set<string>, steps: seq<Step>, b: nat, p: nat, rows: seq<Row>, found: map<int, Finding>, id: int)
    requires FoundSoFar(registry, steps, b, p, found)
    ensures (exists r :: r in rows && r.id == id && IsDue(registry, FindingOf(found), r)) <==>
      exists r, group :: r in rows && r.id == id && r.kind in registry && EverFound(registry, steps, b, p, id, group)
  {
    hide EverFound;
    if r :| r in rows && r.id == id && IsDue(registry, FindingOf(found), r) {
      assert found[id] == Due(found[id].group);
      assert EverFound(registry, steps, b, p, id, found[id].group);
    }
  }

  // ── Why a tenant may have only one pass ────────────────────────────────────

  /** Two passes of one tenant that both consider a config before either launches. */
  function Overlap(tenant: int, r: Row): seq<Step> {
    [Begin(0, tenant, [r]), Begin(1, tenant, [r]), Consider(0, r.id, Due("")), Consider(1, r.id, Due("")), Launch(0), Launch(1)]
  }

  lemma AfterNext(registry: set<string>, steps: seq<Step>, n: nat)
    requires n < |steps|
    ensures After(registry, steps[..n + 1]) == Apply(registry, After(registry, steps[..n]), steps[n])
  {
    assert steps[..n + 1][..n] == steps[..n];
  }

  lemma NothingLive()
    ensures CollectedOnce([]) && MembersOf([]) == {}
  {
  }

  lemma OverlapStates(owner: int -> int, registry: set<string>, r: Row)
    requires r.kind in registry
    ensures var steps := Overlap(owner(r.id), r);
      var pass := Pass(owner(r.id), [r], map[r.id := Due("")], false);
      && Possible(owner, registry, steps[..4])
      && After(registry, steps[..4]) == State({}, [], map[0 := pass, 1 := pass])
  {
    var steps := Overlap(owner(r.id), r);
    var begun := Pass(owner(r.id), [r], map[], false);
    hide Plan;
    assert After(registry, steps[..0]) == START;
    AfterNext(registry, steps, 0);
    assert After(registry, steps[..1]) == State({}, [], map[0 := begun]);
    AfterNext(registry, steps, 1);
    assert After(registry, steps[..2]) == State({}, [], map[0 := begun, 1 := begun]);
    AfterNext(registry, steps, 2);
    AfterNext(registry, steps, 3);
    assert forall n :: 0 <= n < 4 ==> steps[..4][..n] == steps[..n];
  }

  lemma BothLaunch(registry: set<string>, s: State, pass: Pass, r: Row)
    requires s == State({}, [], map[0 := pass, 1 := pass])
    requires pass.rows == [r] && pass.found == map[r.id := Due("")] && r.kind in registry
    ensures !CollectedOnce(Apply(registry, Apply(registry, s, Launch(0)), Launch(1)).live)
  {
    var units := UnitsOf(registry, pass);
    var next := Apply(registry, s, Launch(0));
    UnitsPartitionTheDue([r], registry, FindingOf(pass.found));
    assert IsDue(registry, FindingOf(pass.found), r) && r in [r];
    assert Together(units, r.id, r.id);
    assert r.id in MembersOf(units);
    NothingLive();
    hide Plan, CollectedOnce, UnitsOf, Together, MembersOf;
    LaunchSafeIff(registry, s, 0);
    assert next.passes[1].found == pass.found && next.passes[1].rows == pass.rows && next.passes[1].tenant == pass.tenant;
    assert UnitsOf(registry, next.passes[1]) == units;
    LaunchSafeIff(registry, next, 1);
  }

  lemma LaunchesEnabled(owner: int -> int, registry: set<string>, s: State, pass: Pass, r: Row)
    requires s == State({}, [], map[0 := pass, 1 := pass])
    requires pass == Pass(owner(r.id), [r], map[r.id := Due("")], false)
    ensures Enabled(owner, registry, s, Launch(0)) && Enabled(owner, registry, Apply(registry, s, Launch(0)), Launch(1))
  {
    hide UnitsOf, MembersOf;
  }

  lemma OneStepMore(owner: int -> int, registry: set<string>, steps: seq<Step>, n: nat)
    requires n < |steps| && Possible(owner, registry, steps[..n])
    requires Enabled(owner, registry, After(registry, steps[..n]), steps[n])
    ensures Possible(owner, registry, steps[..n + 1])
  {
    hide Enabled, After;
    var done, more := steps[..n], steps[..n + 1];
    forall m | 0 <= m < |more| ensures Enabled(owner, registry, After(registry, more[..m]), more[m]) {
      assert more[..m] == steps[..m] && more[m] == steps[m];
      if m < n { assert done[..m] == steps[..m] && done[m] == steps[m]; }
    }
  }

  /** Without the restriction the guarantee fails: after this run one config is in
      two live units. */
  lemma OverlappingPassesCollectTwice(owner: int -> int, registry: set<string>, r: Row)
    requires r.kind in registry
    ensures var steps := Overlap(owner(r.id), r);
      Possible(owner, registry, steps) && !CollectedOnce(After(registry, steps).live)
  {
    hide After, CollectedOnce, Enabled, Apply, Possible;
    var steps := Overlap(owner(r.id), r);
    var pass := Pass(owner(r.id), [r], map[r.id := Due("")], false);
    OverlapStates(owner, registry, r);
    AfterNext(registry, steps, 4);
    AfterNext(registry, steps, 5);
    BothLaunch(registry, After(registry, steps[..4]), pass, r);
    LaunchesEnabled(owner, registry, After(registry, steps[..4]), pass, r);
    OneStepMore(owner, registry, steps, 4);
    OneStepMore(owner, registry, steps, 5);
    assert steps[..6] == steps;
  }
}
