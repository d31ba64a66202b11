/**
  What a ping cycle remembers about each host (backend/scheduler.py,
  `run_ping_checks`): the `port_error` hysteresis and the grace period of offline
  notifications.

  `PortStep` and `GraceStep` are what one cycle does to one host. Each is proved
  over whole histories against a description of the history itself; the cycle
  over all hosts is proved to apply them host by host.
 */
module PingChecks {
  import opened Wrappers

  const SET_THRESHOLD: nat := 3
  const CLEAR_THRESHOLD: nat := 2

  /** The result of checking one host in one cycle; `kinds` are the checks that ran. */
  datatype Check = Check(host: int, online: bool, kinds: set<string>, portError: bool) {
    predicate ServiceChecked() { exists k :: k in kinds && k != "icmp" }
  }

  // ── The port_error flag ────────────────────────────────────────────────────

  /** The two streaks, in memory, and the stored flag. */
  datatype Port = Port(fails: nat, passes: nat, flag: bool)

  /** What happens to one host: the check of a cycle, a change of its check
      configuration (which clears flag and streaks), a manual check (which stores its
      raw result in the flag and leaves the streaks alone), or a restart of the
      process (which loses the streaks only). */
  datatype Event = Checked(check: Check) | ConfigChanged | ManualCheck(portError: bool) | Restart

  function Latch(p: Port): Port {
    if !p.flag && p.fails >= SET_THRESHOLD then p.(flag := true)
    else if p.flag && p.passes >= CLEAR_THRESHOLD then p.(flag := false)
    else p
  }

  function PortStep(p: Port, e: Event): Port {
    match e
    case Checked(c) => CheckStep(p, c)
    case ConfigChanged => Port(0, 0, false)
    case ManualCheck(found) => p.(flag := found)
    case Restart => Port(0, 0, p.flag)
  }

  function CheckStep(p: Port, c: Check): Port {
    if !c.ServiceChecked() then Port(0, 0, false)
    else if !c.online then Latch(p)
    else if c.portError then Latch(Port(p.fails + 1, 0, p.flag))
    else Latch(Port(0, p.passes + 1, p.flag))
  }

  function PortAfter(start: bool, trace: seq<Event>): Port {
    if trace == [] then Port(0, 0, start) else PortStep(PortAfter(start, trace[..|trace| - 1]), trace[|trace| - 1])
  }

  /** Failed service checks in a row at the end of a history: cycles that found the
      host online and its service in error. Cycles that found the host offline and
      manual checks are passed over; a passed check, the absence of any service
      check, a changed configuration and a restart end the run. */
  function FailRun(trace: seq<Event>): nat {
    if trace == [] then 0
    else
      var init := trace[..|trace| - 1];
      match trace[|trace| - 1]
      case Checked(c) =>
        if c.ServiceChecked() && c.online && c.portError then 1 + FailRun(init)
        else if c.ServiceChecked() && !c.online then FailRun(init)
        else 0
      case ManualCheck(_) => FailRun(init)
      case _ => 0
  }

  /** The same for passed service checks: host online, service not in error. */
  function PassRun(trace: seq<Event>): nat {
    if trace == [] then 0
    else
      var init := trace[..|trace| - 1];
      match trace[|trace| - 1]
      case Checked(c) =>
        if c.ServiceChecked() && c.online && !c.portError then 1 + PassRun(init)
        else if c.ServiceChecked() && !c.online then PassRun(init)
        else 0
      case ManualCheck(_) => PassRun(init)
      case _ => 0
  }

  /** The event at `i` reports an error: a manual check does, or a cycle at the end
      of three failures in a row. An offline cycle does not add to the run, but
      still applies it. */
  predicate SetsAt(trace: seq<Event>, i: nat)
    requires i < |trace|
  {
    trace[i] == ManualCheck(true) || (trace[i].Checked? && FailRun(trace[..i + 1]) >= 3)
  }

  /** The event at `i` reports that there is no error: a manual check does, or a
      cycle at the end of two passes in a row, or there is nothing left to be in
      error. */
  predicate ClearsAt(trace: seq<Event>, i: nat)
    requires i < |trace|
  {
    || trace[i] == ManualCheck(false) || trace[i] == ConfigChanged
    || (trace[i].Checked? && (!trace[i].check.ServiceChecked() || PassRun(trace[..i + 1]) >= 2))
  }

  /** Reported as an error, or in error from the start, and not cleared since. */
  ghost predicate InError(start: bool, trace: seq<Event>) {
    || (start && forall j :: 0 <= j < |trace| ==> !ClearsAt(trace, j))
    || exists i :: 0 <= i < |trace| && SetsAt(trace, i) && forall j :: i < j < |trace| ==> !ClearsAt(trace, j)
  }

  lemma {:induction false} StreaksAreRuns(start: bool, trace: seq<Event>)
    ensures var p := PortAfter(start, trace);
      && p.fails == FailRun(trace) && p.passes == PassRun(trace)
      && (p.fails == 0 || p.passes == 0)
  {
    if trace != [] { StreaksAreRuns(start, trace[..|trace| - 1]); }
  }

  lemma EarlierAlike(trace: seq<Event>, i: nat)
    requires i + 1 < |trace|
    ensures SetsAt(trace, i) == SetsAt(trace[..|trace| - 1], i)
    ensures ClearsAt(trace, i) == ClearsAt(trace[..|trace| - 1], i)
  {
    assert trace[..|trace| - 1][..i + 1] == trace[..i + 1];
  }

  lemma InErrorStep(start: bool, trace: seq<Event>)
    requires trace != []
    ensures var n := |trace| - 1;
      InError(start, trace) <==> SetsAt(trace, n) || (!ClearsAt(trace, n) && InError(start, trace[..n]))
  {
    hide SetsAt, ClearsAt;
    var n := |trace| - 1;
    var init := trace[..n];
    forall i | 0 <= i < n ensures SetsAt(trace, i) == SetsAt(init, i) && ClearsAt(trace, i) == ClearsAt(init, i) {
      EarlierAlike(trace, i);
    }
    if i :| 0 <= i < |init| && SetsAt(init, i) && forall j :: i < j < |init| ==> !ClearsAt(init, j) {
      assert SetsAt(trace, i);
    }
    if i :| 0 <= i < |trace| && SetsAt(trace, i) && forall j :: i < j < |trace| ==> !ClearsAt(trace, j) {
      if i < n { assert SetsAt(init, i); }
    }
  }

  /** The flag in the code is the one the history defines: what the last decisive
      run or manual check says, since the checks were last absent or changed. At
      most one streak is ever running. */
  lemma {:induction false} FlagFollowsHistory(start: bool, trace: seq<Event>)
    ensures PortAfter(start, trace).flag <==> InError(start, trace)
    ensures PortAfter(start, trace).fails == 0 || PortAfter(start, trace).passes == 0
  {
    StreaksAreRuns(start, trace);
    if trace != [] {
      var n := |trace| - 1;
      FlagFollowsHistory(start, trace[..n]);
      StreaksAreRuns(start, trace[..n]);
      InErrorStep(start, trace);
      hide InError, FailRun, PassRun;
      assert trace[..n + 1] == trace;
    }
  }

  // ── Manual checks against the hysteresis ───────────────────────────────────

  function WithoutManual(trace: seq<Event>): seq<Event> {
    if trace == [] then []
    else
      var last := trace[|trace| - 1];
      WithoutManual(trace[..|trace| - 1]) + if last.ManualCheck? then [] else [last]
  }

  /** The cycle or change at `i` decides the flag, whatever it was. */
  predicate DecidesAt(trace: seq<Event>, i: nat)
    requires i < |trace|
  {
    !trace[i].ManualCheck? && (SetsAt(trace, i) || ClearsAt(trace, i))
  }

  /** Nothing after the manual check at `m` has had a say. */
  ghost predicate HasLastWord(trace: seq<Event>, m: nat) {
    && m < |trace| && trace[m].ManualCheck?
    && forall j :: m < j < |trace| ==> !trace[j].ManualCheck? && !DecidesAt(trace, j)
  }

  lemma PortNext(start: bool, trace: seq<Event>, e: Event)
    ensures PortAfter(start, trace + [e]) == PortStep(PortAfter(start, trace), e)
  {
    assert (trace + [e])[..|trace|] == trace;
  }

  lemma WithoutManualNext(trace: seq<Event>, e: Event)
    ensures WithoutManual(trace + [e]) == WithoutManual(trace) + if e.ManualCheck? then [] else [e]
  {
    assert (trace + [e])[..|trace|] == trace;
  }

  /** While a manual check has the last word, the flag is its raw result; else the
      flag is what it would be had nobody checked by hand. */
  lemma {:induction false} ManualCheckOverrides(start: bool, trace: seq<Event>)
    ensures forall m: nat :: HasLastWord(trace, m) ==> PortAfter(start, trace).flag == trace[m].portError
    ensures (forall m: nat :: !HasLastWord(trace, m)) ==>
      PortAfter(start, trace).flag == PortAfter(start, WithoutManual(trace)).flag
    ensures PortAfter(start, trace).fails == PortAfter(start, WithoutManual(trace)).fails
    ensures PortAfter(start, trace).passes == PortAfter(start, WithoutManual(trace)).passes
  {
    if trace == [] {
      assert WithoutManual(trace) == trace;
    } else {
      var n := |trace| - 1;
      var init, e := trace[..n], trace[n];
      assert trace == init + [e];
      ManualCheckOverrides(start, init);
      LastWordNext(trace);
      PortNext(start, init, e);
      WithoutManualNext(init, e);
      if e.ManualCheck? {
        assert WithoutManual(trace) == WithoutManual(init);
        assert HasLastWord(trace, n);
      } else {
        PortNext(start, WithoutManual(init), e);
        StepDecides(start, trace);
        SameStep(PortAfter(start, init), PortAfter(start, WithoutManual(init)), e);
        hide PortAfter, WithoutManual, HasLastWord, PortStep, DecidesAt, SetsAt;
        assert forall m: nat :: HasLastWord(trace, m) ==> HasLastWord(init, m) && trace[m] == init[m];
      }
    }
  }

  /** A cycle or change that decides gives the flag its value, one that does not
      leaves it. */
  lemma StepDecides(start: bool, trace: seq<Event>)
    requires trace != [] && !trace[|trace| - 1].ManualCheck?
    ensures var n := |trace| - 1;
      && (DecidesAt(trace, n) ==> PortStep(PortAfter(start, trace[..n]), trace[n]).flag == SetsAt(trace, n))
      && (!DecidesAt(trace, n) ==> PortStep(PortAfter(start, trace[..n]), trace[n]).flag == PortAfter(start, trace[..n]).flag)
      && (DecidesAt(trace, n) ==> forall q: Port ::
            q.fails == PortAfter(start, trace[..n]).fails && q.passes == PortAfter(start, trace[..n]).passes ==>
            PortStep(q, trace[n]).flag == SetsAt(trace, n))
  {
    var n := |trace| - 1;
    StreaksAreRuns(start, trace);
    StreaksAreRuns(start, trace[..n]);
    assert trace[..n + 1] == trace;
    hide FailRun, PassRun;
  }

  lemma SameStep(p: Port, q: Port, e: Event)
    requires p.fails == q.fails && p.passes == q.passes
    ensures PortStep(p, e).fails == PortStep(q, e).fails && PortStep(p, e).passes == PortStep(q, e).passes
    ensures p.flag == q.flag ==> PortStep(p, e) == PortStep(q, e)
  {}

  lemma LastWordNext(trace: seq<Event>)
    requires trace != []
    ensures var n := |trace| - 1;
      forall m: nat :: HasLastWord(trace, m) <==>
        if trace[n].ManualCheck? then m == n else !DecidesAt(trace, n) && HasLastWord(trace[..n], m)
  {
    var n := |trace| - 1;
    hide SetsAt, ClearsAt;
    forall j | 0 <= j < n ensures DecidesAt(trace, j) == DecidesAt(trace[..n], j) {
      EarlierAlike(trace, j);
    }
  }

  /** A manual check that finds a host well does not end a run of failures: the next
      cycle sets the flag again, even one that finds the host offline. */
  lemma ManualCheckUndone(fail: Check, offline: Check)
    requires fail.ServiceChecked() && fail.online && fail.portError && offline.ServiceChecked() && !offline.online
    ensures var f := Checked(fail);
      && !PortAfter(false, [f, f, f, ManualCheck(false)]).flag
      && PortAfter(false, [f, f, f, ManualCheck(false), Checked(offline)]).flag
  {
    var f := Checked(fail);
    PortNext(false, [], f);
    PortNext(false, [f], f);
    PortNext(false, [f, f], f);
    PortNext(false, [f, f, f], ManualCheck(false));
    PortNext(false, [f, f, f, ManualCheck(false)], Checked(offline));
    hide PortAfter;
    assert [] + [f] == [f] && [f] + [f] == [f, f] && [f, f] + [f] == [f, f, f];
    assert [f, f, f] + [ManualCheck(false)] == [f, f, f, ManualCheck(false)];
    assert [f, f, f, ManualCheck(false)] + [Checked(offline)] == [f, f, f, ManualCheck(false), Checked(offline)];
    assert PortAfter(false, []) == Port(0, 0, false) by { NothingChecked(false); }
  }

  lemma NothingChecked(start: bool)
    ensures PortAfter(start, []) == Port(0, 0, start)
  {}

  // ── The grace period ───────────────────────────────────────────────────────

  /** `_offline_since` and `_grace_notified` for one host. */
  datatype Grace = Grace(offlineSince: Option<real>, notified: bool)

  /** One cycle as far as notifications go: when, the result, whether the last
      stored result was offline, the grace period in minutes, and whether the
      process was restarted since the cycle before. */
  datatype Cycle = Cycle(at: real, online: bool, prevOffline: bool, graceMinutes: nat, restarted: bool)

  datatype Alert = Silent | WentOffline | CameOnline

  function Minutes(from: real, to: real): real { (to - from) / 60.0 }

  /** A restart forgets both. */
  function Known(g: Grace, c: Cycle): Grace { if c.restarted then Grace(None, false) else g }

  function GraceStep(g: Grace, c: Cycle): Grace {
    if c.online then Grace(None, false)
    else
      var k := Known(g, c);
      var since := if k.offlineSince.Some? then k.offlineSince.value else c.at;
      Grace(Some(since), k.notified || Minutes(since, c.at) >= c.graceMinutes as real)
  }

  function AlertOf(g: Grace, c: Cycle): Alert {
    if c.online then (if c.prevOffline && Known(g, c).notified then CameOnline else Silent)
    else if !Known(g, c).notified && GraceStep(g, c).notified then WentOffline
    else Silent
  }

  function GraceAfter(trace: seq<Cycle>): Grace {
    if trace == [] then Grace(None, false) else GraceStep(GraceAfter(trace[..|trace| - 1]), trace[|trace| - 1])
  }

  /** The alert of the cycle at `n`. */
  function AlertAt(trace: seq<Cycle>, n: nat): Alert
    requires n < |trace|
  {
    AlertOf(GraceAfter(trace[..n]), trace[n])
  }

  /** An outage as one process sees it: cycles `i` to `n` found the host offline
      without a restart in between, and before `i` it was online, or not yet
      checked by this process. */
  ghost predicate Outage(trace: seq<Cycle>, i: nat, n: nat)
    requires n < |trace|
  {
    && i <= n && (forall k :: i <= k <= n ==> !trace[k].online)
    && (forall k :: i < k <= n ==> !trace[k].restarted)
    && (i > 0 ==> trace[i - 1].online || trace[i].restarted)
  }

  /** At cycle `m` the grace time has passed since cycle `i`. */
  predicate Reached(trace: seq<Cycle>, i: nat, m: nat)
    requires i <= m < |trace|
  {
    trace[m].at - trace[i].at >= 60.0 * trace[m].graceMinutes as real
  }

  ghost predicate ReachedBefore(trace: seq<Cycle>, i: nat, n: nat)
    requires i <= n <= |trace|
  {
    exists m :: i <= m < n && Reached(trace, i, m)
  }

  /** What is tracked after `n` cycles: the start of the running outage, and
      whether it has lasted the grace time. */
  ghost predicate Tracks(trace: seq<Cycle>, n: nat)
    requires n <= |trace|
  {
    var g := GraceAfter(trace[..n]);
    if n == 0 || trace[n - 1].online then g == Grace(None, false)
    else exists i :: 0 <= i < n && Outage(trace, i, n - 1)
           && g.offlineSince == Some(trace[i].at) && g.notified == ReachedBefore(trace, i, n)
  }

  lemma OutageBegins(trace: seq<Cycle>, n: nat)
    requires n < |trace| && !trace[n].online && (n == 0 || trace[n - 1].online || trace[n].restarted)
    ensures Outage(trace, n, n)
  {
  }

  lemma OutageGoesOn(trace: seq<Cycle>, i: nat, n: nat)
    requires 0 < n < |trace| && !trace[n].online && !trace[n].restarted && Outage(trace, i, n - 1)
    ensures Outage(trace, i, n)
  {
  }

  lemma ReachedNext(trace: seq<Cycle>, i: nat, n: nat)
    requires i <= n < |trace|
    ensures ReachedBefore(trace, i, n + 1) <==> ReachedBefore(trace, i, n) || Reached(trace, i, n)
    ensures !ReachedBefore(trace, i, i)
  {
    hide Reached;
    if m :| i <= m < n && Reached(trace, i, m) {
      assert ReachedBefore(trace, i, n + 1);
    }
  }

  lemma ReachedInMinutes(trace: seq<Cycle>, i: nat, m: nat)
    requires i <= m < |trace|
    ensures Reached(trace, i, m) <==> Minutes(trace[i].at, trace[m].at) >= trace[m].graceMinutes as real
  {}

  lemma {:induction false} TracksOutage(trace: seq<Cycle>, n: nat)
    requires n <= |trace|
    ensures Tracks(trace, n)
  {
    if n == 0 {
      assert trace[..0] == [];
    } else {
      var last := n - 1;
      TracksOutage(trace, last);
      assert trace[..n][..last] == trace[..last];
      var before := GraceAfter(trace[..last]);
      assert GraceAfter(trace[..n]) == GraceStep(before, trace[last]);
      hide GraceAfter, Outage, ReachedBefore, Reached, Minutes;
      if !trace[last].online {
        if last == 0 || trace[last - 1].online || trace[last].restarted {
          OutageBegins(trace, last);
          ReachedNext(trace, last, last);
          ReachedInMinutes(trace, last, last);
        } else {
          var i :| 0 <= i < last && Outage(trace, i, last - 1) && before.offlineSince == Some(trace[i].at)
            && before.notified == ReachedBefore(trace, i, last);
          ReachedNext(trace, i, last);
          ReachedInMinutes(trace, i, last);
          OutageGoesOn(trace, i, last);
        }
      }
    }
  }

  /** An outage that starts at `i` does not start later. */
  lemma StartsOnce(trace: seq<Cycle>, i: nat, j: nat, n: nat)
    requires n < |trace| && Outage(trace, i, n) && i < j
    ensures !Outage(trace, j, n)
  {
    if j <= n { assert !trace[j - 1].online && !trace[j].restarted; }
  }

  lemma OutageUnique(trace: seq<Cycle>, i: nat, j: nat, n: nat)
    requires n < |trace| && Outage(trace, i, n) && Outage(trace, j, n)
    ensures i == j
  {
    assert forall k :: i < k ==> !Outage(trace, k, n) by {
      forall k: nat | i < k ensures !Outage(trace, k, n) { StartsOnce(trace, i, k, n); }
    }
    assert forall k :: j < k ==> !Outage(trace, k, n) by {
      forall k: nat | j < k ensures !Outage(trace, k, n) { StartsOnce(trace, j, k, n); }
    }
  }

  /** Cycle `n` is the first of the outage from `i` at which the grace time has
      passed. */
  ghost predicate FirstReached(trace: seq<Cycle>, i: nat, n: nat)
    requires i <= n < |trace|
  {
    Reached(trace, i, n) && forall m :: i <= m < n ==> !Reached(trace, i, m)
  }

  /** A host is announced offline in exactly the first cycle at which the outage has
      lasted the grace time, counted from the first offline cycle this process saw. */
  lemma OfflineAlertIff(trace: seq<Cycle>, n: nat)
    requires n < |trace|
    ensures AlertAt(trace, n) == WentOffline <==> exists i :: 0 <= i <= n && Outage(trace, i, n) && FirstReached(trace, i, n)
  {
    TracksOutage(trace, n);
    assert GraceAfter(trace[..n + 1]) == GraceStep(GraceAfter(trace[..n]), trace[n]) by {
      assert trace[..n + 1][..n] == trace[..n];
    }
    hide GraceAfter;
    if !trace[n].online {
      var i := RunningOutage(trace, n);
      forall j | 0 <= j <= n && Outage(trace, j, n) ensures j == i { OutageUnique(trace, j, i, n); }
      hide Outage, Tracks, Reached, Minutes;
      ReachedNext(trace, i, n);
      ReachedInMinutes(trace, i, n);
    }
  }

  /** The outage an offline cycle belongs to, and what the process knows of it. */
  lemma RunningOutage(trace: seq<Cycle>, n: nat) returns (i: nat)
    requires n < |trace| && !trace[n].online
    ensures i <= n && Outage(trace, i, n)
    ensures var k := Known(GraceAfter(trace[..n]), trace[n]);
      && k.notified == ReachedBefore(trace, i, n)
      && (if k.offlineSince.Some? then k.offlineSince.value == trace[i].at else i == n)
  {
    TracksOutage(trace, n);
    hide GraceAfter, Outage, ReachedBefore;
    if n == 0 || trace[n - 1].online || trace[n].restarted {
      OutageBegins(trace, n);
      ReachedNext(trace, n, n);
      i := n;
    } else {
      i :| 0 <= i < n && Outage(trace, i, n - 1) && GraceAfter(trace[..n]).offlineSince == Some(trace[i].at)
        && GraceAfter(trace[..n]).notified == ReachedBefore(trace, i, n);
      OutageGoesOn(trace, i, n);
    }
  }

  /** A host stays down from `m` to `n`, as the world sees it: restarts do not count. */
  ghost predicate DownThrough(trace: seq<Cycle>, m: nat, n: nat) {
    m <= n < |trace| && forall k :: m <= k <= n ==> !trace[k].online
  }

  /** One process announces an outage once. */
  lemma NotFirstAgain(trace: seq<Cycle>, i: nat, m: nat, j: nat, n: nat)
    requires i <= m < n < |trace| && Outage(trace, i, m) && FirstReached(trace, i, m) && j <= m
    ensures !(Outage(trace, j, n) && FirstReached(trace, j, n))
  {
    if Outage(trace, j, n) {
      assert Outage(trace, j, m);
      OutageUnique(trace, i, j, m);
      assert Reached(trace, i, m);
    }
  }

  /** So one stretch of offline cycles is announced again exactly after a restart:
      once the grace time has passed from the first cycle after the last restart. */
  lemma AnnouncedAgainIff(trace: seq<Cycle>, m: nat, n: nat)
    requires m < n && DownThrough(trace, m, n) && AlertAt(trace, m) == WentOffline
    ensures AlertAt(trace, n) == WentOffline <==>
      exists r :: m < r <= n && LastRestart(trace, r, n) && FirstReached(trace, r, n)
  {
    hide AlertAt, FirstReached;
    OfflineAlertIff(trace, m);
    OfflineAlertIff(trace, n);
    var i :| 0 <= i <= m && Outage(trace, i, m) && FirstReached(trace, i, m);
    if r :| m < r <= n && LastRestart(trace, r, n) && FirstReached(trace, r, n) {
      assert Outage(trace, r, n);
    }
    forall j | 0 <= j <= m ensures !(Outage(trace, j, n) && FirstReached(trace, j, n)) {
      NotFirstAgain(trace, i, m, j, n);
    }
    forall j | m < j <= n && Outage(trace, j, n) ensures LastRestart(trace, j, n) {
      assert !trace[j - 1].online;
    }
  }

  ghost predicate LastRestart(trace: seq<Cycle>, r: nat, n: nat)
    requires r <= n < |trace|
  {
    trace[r].restarted && forall k :: r < k <= n ==> !trace[k].restarted
  }

  /** A back-online alert is raised exactly at the end of an outage that was
      announced by the same process, if the stored previous result was offline. */
  lemma OnlineAlertIff(trace: seq<Cycle>, n: nat)
    requires n < |trace|
    ensures AlertAt(trace, n) == CameOnline <==>
      && trace[n].online && trace[n].prevOffline && !trace[n].restarted
      && n > 0 && exists i :: 0 <= i < n && Outage(trace, i, n - 1) && ReachedBefore(trace, i, n)
  {
    TracksOutage(trace, n);
    hide GraceAfter;
    if n > 0 && !trace[n - 1].online {
      var g := GraceAfter(trace[..n]);
      var i :| 0 <= i < n && Outage(trace, i, n - 1) && g.offlineSince == Some(trace[i].at)
        && g.notified == ReachedBefore(trace, i, n);
      var last := n - 1;
      forall j | 0 <= j < n && Outage(trace, j, last) ensures j == i { OutageUnique(trace, j, i, last); }
    }
  }

  /** Notified hosts are always tracked as offline. */
  lemma {:induction false} NotifiedIsTracked(trace: seq<Cycle>)
    ensures GraceAfter(trace).notified ==> GraceAfter(trace).offlineSince.Some?
  {
    TracksOutage(trace, |trace|);
    assert trace[..|trace|] == trace;
    hide GraceAfter;
  }

  // ── One cycle over all hosts ───────────────────────────────────────────────

  predicate DistinctHosts(results: seq<Check>) {
    forall i, j :: 0 <= i < j < |results| ==> results[i].host != results[j].host
  }

  /** What a cycle adds to the history of one host: its check, if it was checked. */
  function ChecksOf(results: seq<Check>, h: int): seq<Event> {
    if results == [] then []
    else
      var c := results[|results| - 1];
      ChecksOf(results[..|results| - 1], h) + if c.host == h then [Checked(c)] else []
  }

  function CyclesOf(results: seq<Check>, h: int, now: real, previous: map<int, bool>, graceMinutes: nat): seq<Cycle> {
    if results == [] then []
    else
      var c := results[|results| - 1];
      CyclesOf(results[..|results| - 1], h, now, previous, graceMinutes) +
      if c.host == h then [CycleOf(c, now, previous, graceMinutes)] else []
  }

  lemma {:induction false} NoCheck(results: seq<Check>, h: int, now: real, previous: map<int, bool>, graceMinutes: nat)
    requires forall i :: 0 <= i < |results| ==> results[i].host != h
    ensures ChecksOf(results, h) == [] && CyclesOf(results, h, now, previous, graceMinutes) == []
  {
    if results != [] { NoCheck(results[..|results| - 1], h, now, previous, graceMinutes); }
  }

  lemma {:induction false} OnlyCheck(results: seq<Check>, i: nat, now: real, previous: map<int, bool>, graceMinutes: nat)
    requires i < |results| && DistinctHosts(results)
    ensures ChecksOf(results, results[i].host) == [Checked(results[i])]
    ensures CyclesOf(results, results[i].host, now, previous, graceMinutes) == [CycleOf(results[i], now, previous, graceMinutes)]
  {
    hide CycleOf;
    var n := |results| - 1;
    if i == n {
      NoCheck(results[..n], results[i].host, now, previous, graceMinutes);
    } else {
      OnlyCheck(results[..n], i, now, previous, graceMinutes);
    }
  }

  lemma GraceNext(trace: seq<Cycle>, c: Cycle)
    ensures GraceAfter(trace + [c]) == GraceStep(GraceAfter(trace), c)
  {
    assert (trace + [c])[..|trace|] == trace;
  }

  lemma AlertOfLast(trace: seq<Cycle>, c: Cycle)
    ensures AlertAt(trace + [c], |trace|) == AlertOf(GraceAfter(trace), c)
  {
    assert (trace + [c])[..|trace|] == trace;
  }

  function Get(m: map<int, nat>, h: int): nat { if h in m then m[h] else 0 }

  class Monitor {
    var failStreak: map<int, nat>
    var passStreak: map<int, nat>
    /** The stored `port_error` of every host row. */
    var portError: map<int, bool>
    var offlineSince: map<int, real>
    var graceNotified: set<int>

    /** What has happened to each host row in this process, from the flag it started
        with, and the cycles each host was checked in. */
    ghost const started: map<int, bool>
    ghost var events: int -> seq<Event>
    ghost var cycles: int -> seq<Cycle>

    ghost predicate Valid()
      reads this
    {
      started.Keys == portError.Keys && forall h :: Knows(h)
    }

    ghost predicate Knows(h: int)
      requires started.Keys == portError.Keys
      reads this
    {
      && (h in portError ==> PortOf(h) == PortAfter(started[h], events(h)))
      && GraceOf(h) == GraceAfter(cycles(h))
    }

    constructor (portError: map<int, bool>)
      ensures Valid() && this.portError == portError == started
      ensures forall h :: events(h) == [] && cycles(h) == []
    {
      this.portError, started := portError, portError;
      failStreak, passStreak, offlineSince, graceNotified := map[], map[], map[], {};
      events, cycles := (h: int) => [], (h: int) => [];
    }

    ghost function PortOf(h: int): Port
      reads this
    {
      Port(Get(failStreak, h), Get(passStreak, h), h in portError && portError[h])
    }

    ghost function GraceOf(h: int): Grace
      reads this
    {
      Grace(if h in offlineSince then Some(offlineSince[h]) else None, h in graceNotified)
    }

    /** `reset_port_error_state` together with the flag its callers clear. */
    method ConfigChange(h: int)
      requires Valid()
      modifies this
      ensures Valid() && cycles == old(cycles) && portError.Keys == old(portError.Keys)
      ensures h in portError ==> !portError[h]
      ensures forall k :: k != h && k in portError ==> portError[k] == old(portError[k])
      ensures events(h) == old(events)(h) + [ConfigChanged] && forall k :: k != h ==> events(k) == old(events)(k)
    {
      hide PortAfter, GraceAfter;
      failStreak := failStreak - {h};
      passStreak := passStreak - {h};
      if h in portError {
        portError := portError[h := false];
        PortNext(started[h], events(h), ConfigChanged);
      }
      ghost var past := events;
      events := k => if k == h then past(k) + [ConfigChanged] else past(k);
      forall k ensures Knows(k) { assert old(Knows(k)); }
    }

    /** A manual check stores its raw result and knows nothing of the streaks. */
    method ManualCheck(h: int, found: bool)
      requires Valid()
      modifies this
      ensures Valid() && cycles == old(cycles) && portError.Keys == old(portError.Keys)
      ensures h in portError ==> portError[h] == found
      ensures forall k :: k != h && k in portError ==> portError[k] == old(portError[k])
      ensures events(h) == old(events)(h) + [Event.ManualCheck(found)] && forall k :: k != h ==> events(k) == old(events)(k)
    {
      hide PortAfter, GraceAfter;
      if h in portError {
        portError := portError[h := found];
        PortNext(started[h], events(h), Event.ManualCheck(found));
      }
      ghost var past := events;
      events := k => if k == h then past(k) + [Event.ManualCheck(found)] else past(k);
      forall k ensures Knows(k) { assert old(Knows(k)); }
    }

    /** A cycle: the flag of every checked host with a row is what its whole history
        of checks, changes and manual checks says; and exactly the hosts are announced
        whose cycle raises the alert. Hosts that were not checked keep everything. */
    method RunCycle(results: seq<Check>, now: real, previous: map<int, bool>, graceMinutes: nat)
      returns (wentOffline: seq<int>, cameOnline: seq<int>)
      requires Valid() && DistinctHosts(results)
      modifies this
      ensures Valid() && portError.Keys == old(portError.Keys)
      ensures forall h :: events(h) == old(events)(h) + ChecksOf(results, h)
      ensures forall h :: cycles(h) == old(cycles)(h) + CyclesOf(results, h, now, previous, graceMinutes)
      ensures forall h :: h in portError ==> (portError[h] <==> InError(started[h], events(h)))
      ensures forall i :: 0 <= i < |results| ==>
        var past := cycles(results[i].host);
        && past != []
        && (results[i].host in wentOffline <==> AlertAt(past, |past| - 1) == WentOffline)
        && (results[i].host in cameOnline <==> AlertAt(past, |past| - 1) == CameOnline)
      ensures forall h :: (forall i :: 0 <= i < |results| ==> results[i].host != h) ==> h !in wentOffline && h !in cameOnline
    {
      hide PortAfter, GraceAfter, InError, HostStep, Announced, CycleOf, ChecksOf, CyclesOf, AlertAt, AlertOf;
      ghost var before, past := Before(results), cycles;
      forall i | 0 <= i < |results|
        ensures before[i].hasRow == (results[i].host in portError)
        ensures results[i].host in portError ==> before[i].port == PortAfter(started[results[i].host], events(results[i].host))
        ensures before[i].grace == GraceAfter(cycles(results[i].host))
      {
        assert Knows(results[i].host);
      }
      wentOffline, cameOnline := BothPasses(results, now, previous, graceMinutes);
      forall h | forall i :: 0 <= i < |results| ==> results[i].host != h ensures Knows(h) {
        assert HostOf(h) == old(HostOf(h)) && old(Knows(h));
      }
      Remember(results, now, previous, graceMinutes, before);
      hide HostOf, PortOf, GraceOf, Valid, Knows;
      FlagsTell();
      forall i | 0 <= i < |results|
        ensures var past := cycles(results[i].host);
          && past != []
          && (results[i].host in wentOffline <==> AlertAt(past, |past| - 1) == WentOffline)
          && (results[i].host in cameOnline <==> AlertAt(past, |past| - 1) == CameOnline)
      {
        AlertsTell(results, before, i, now, previous, graceMinutes, past(results[i].host));
      }
      forall h | forall i :: 0 <= i < |results| ==> results[i].host != h ensures h !in wentOffline && h !in cameOnline {
        NotAnnounced(results, before, h, now, previous, graceMinutes, WentOffline);
        NotAnnounced(results, before, h, now, previous, graceMinutes, CameOnline);
      }
    }

    /** The cycle enters the history of the hosts it checked. */
    ghost method Remember(results: seq<Check>, now: real, previous: map<int, bool>, graceMinutes: nat, before: seq<Host>)
      requires DistinctHosts(results) && |before| == |results| && started.Keys == portError.Keys
      requires forall i :: 0 <= i < |results| ==>
        var h := results[i].host;
        && before[i].hasRow == (h in portError)
        && (h in portError ==> before[i].port == PortAfter(started[h], events(h)))
        && before[i].grace == GraceAfter(cycles(h))
        && HostOf(h) == HostStep(before[i], results[i], CycleOf(results[i], now, previous, graceMinutes))
      requires forall h :: (forall i :: 0 <= i < |results| ==> results[i].host != h) ==> Knows(h)
      modifies this`events, this`cycles
      ensures Valid()
      ensures forall h :: events(h) == old(events)(h) + ChecksOf(results, h)
      ensures forall h :: cycles(h) == old(cycles)(h) + CyclesOf(results, h, now, previous, graceMinutes)
    {
      hide PortAfter, GraceAfter, HostStep, CycleOf, ChecksOf, CyclesOf;
      var wasEvents, wasCycles := events, cycles;
      events := h => wasEvents(h) + ChecksOf(results, h);
      cycles := h => wasCycles(h) + CyclesOf(results, h, now, previous, graceMinutes);
      forall h ensures Knows(h) {
        if i :| 0 <= i < |results| && results[i].host == h {
          OnlyCheck(results, i, now, previous, graceMinutes);
          assert HostOf(h) == old(HostOf(h));
          HostGoesOn(before[i], HostOf(h), results[i], CycleOf(results[i], now, previous, graceMinutes),
                     if h in started then started[h] else false, wasEvents(h), wasCycles(h));
          assert events(h) == wasEvents(h) + [Checked(results[i])];
          assert cycles(h) == wasCycles(h) + [CycleOf(results[i], now, previous, graceMinutes)];
          assert HostOf(h).grace == GraceAfter(cycles(h));
          assert h in portError ==> HostOf(h).port == PortAfter(started[h], events(h));
        } else {
          assert old(Knows(h));
          NoCheck(results, h, now, previous, graceMinutes);
          assert events(h) == wasEvents(h) + [] == wasEvents(h);
          assert cycles(h) == wasCycles(h) + [] == wasCycles(h);
        }
      }
    }

    /** What the stored flags say, in terms of the history. */
    lemma FlagsTell()
      requires Valid()
      ensures forall h :: h in portError ==> (portError[h] <==> InError(started[h], events(h)))
    {
      hide InError, PortAfter, GraceAfter;
      forall h | h in portError ensures portError[h] <==> InError(started[h], events(h)) {
        assert Knows(h);
        FlagFollowsHistory(started[h], events(h));
      }
    }

    /** The flag and streaks of one host row. */
    method UpdatePort(c: Check)
      requires c.host in portError
      modifies this`failStreak, this`passStreak, this`portError
      ensures PortOf(c.host) == PortStep(old(PortOf(c.host)), Checked(c))
      ensures forall k :: k != c.host ==> PortOf(k) == old(PortOf(k))
      ensures portError.Keys == old(portError.Keys)
    {
      var latched := false;
      if !c.ServiceChecked() {
        failStreak := failStreak - {c.host};
        passStreak := passStreak - {c.host};
      } else {
        if c.online {
          if c.portError {
            passStreak := passStreak - {c.host};
            failStreak := failStreak[c.host := Get(failStreak, c.host) + 1];
          } else {
            failStreak := failStreak - {c.host};
            passStreak := passStreak[c.host := Get(passStreak, c.host) + 1];
          }
        }
        latched := portError[c.host];
        if !latched && Get(failStreak, c.host) >= SET_THRESHOLD {
          latched := true;
        } else if latched && Get(passStreak, c.host) >= CLEAR_THRESHOLD {
          latched := false;
        }
      }
      portError := portError[c.host := latched];
    }

    /** Grace tracking in the first pass over the results; whether to announce the
        host as back online. */
    method TrackGrace(c: Check, now: real, prevOffline: bool) returns (cameOnline: bool)
      modifies this`offlineSince, this`graceNotified
      ensures forall k :: k != c.host ==> GraceOf(k) == old(GraceOf(k))
      ensures GraceOf(c.host) ==
        if c.online then Grace(None, false)
        else Grace(Some(if c.host in old(offlineSince) then old(offlineSince)[c.host] else now), c.host in old(graceNotified))
      ensures cameOnline <==> c.online && prevOffline && c.host in old(graceNotified)
    {
      cameOnline := false;
      if !c.online {
        if c.host !in offlineSince {
          offlineSince := offlineSince[c.host := now];
        }
      } else {
        var wasNotified := c.host in graceNotified;
        offlineSince := offlineSince - {c.host};
        graceNotified := graceNotified - {c.host};
        cameOnline := prevOffline && wasNotified;
      }
    }

    ghost function HostOf(h: int): Host
      reads this
    {
      Host(PortOf(h), GraceOf(h), h in portError)
    }

    ghost function Before(results: seq<Check>): (hosts: seq<Host>)
      reads this
      ensures |hosts| == |results| && forall i :: 0 <= i < |results| ==> hosts[i] == HostOf(results[i].host)
    {
      if results == [] then [] else Before(results[..|results| - 1]) + [HostOf(results[|results| - 1].host)]
    }

    /** Both passes of a cycle: every checked host takes its port step, if it has
        a row, and its grace step; no other host changes; and exactly the hosts
        whose grace step says so are announced, in the order of the results. */
    method BothPasses(results: seq<Check>, now: real, previous: map<int, bool>, graceMinutes: nat)
      returns (wentOffline: seq<int>, cameOnline: seq<int>)
      requires DistinctHosts(results)
      modifies this`failStreak, this`passStreak, this`portError, this`offlineSince, this`graceNotified
      ensures portError.Keys == old(portError.Keys)
      ensures forall i :: 0 <= i < |results| ==>
        HostOf(results[i].host) == HostStep(old(HostOf(results[i].host)), results[i], CycleOf(results[i], now, previous, graceMinutes))
      ensures forall h :: (forall i :: 0 <= i < |results| ==> results[i].host != h) ==> HostOf(h) == old(HostOf(h))
      ensures wentOffline == Announced(results, old(Before(results)), now, previous, graceMinutes, WentOffline)
      ensures cameOnline == Announced(results, old(Before(results)), now, previous, graceMinutes, CameOnline)
    {
      hide HostOf, HostStep, Tracking, Notifying, Announced;
      ghost var before := Before(results);
      cameOnline := FirstPass(results, now, previous, graceMinutes);
      wentOffline := SecondPass(results, now, previous, graceMinutes, before);
      forall i | 0 <= i < |results|
        ensures HostOf(results[i].host) == HostStep(before[i], results[i], CycleOf(results[i], now, previous, graceMinutes))
      {
        TwoVisits(before[i], results[i], now, previous, graceMinutes);
      }
    }

    method FirstPass(results: seq<Check>, now: real, previous: map<int, bool>, ghost graceMinutes: nat)
      returns (cameOnline: seq<int>)
      requires DistinctHosts(results)
      modifies this`failStreak, this`passStreak, this`portError, this`offlineSince, this`graceNotified
      ensures portError.Keys == old(portError.Keys)
      ensures forall i :: 0 <= i < |results| ==>
        HostOf(results[i].host) == Tracking(old(HostOf(results[i].host)), results[i], now)
      ensures forall h :: (forall i :: 0 <= i < |results| ==> results[i].host != h) ==> HostOf(h) == old(HostOf(h))
      ensures cameOnline == Announced(results, old(Before(results)), now, previous, graceMinutes, CameOnline)
    {
      hide HostOf, Tracking, Announced;
      ghost var before := Before(results);
      cameOnline := [];
      AnnouncedNone(results, before, now, previous, graceMinutes, CameOnline);
      for n := 0 to |results|
        invariant portError.Keys == old(portError.Keys)
        invariant forall i :: 0 <= i < n ==> HostOf(results[i].host) == Tracking(before[i], results[i], now)
        invariant forall i :: n <= i < |results| ==> HostOf(results[i].host) == before[i]
        invariant forall h :: (forall i :: 0 <= i < |results| ==> results[i].host != h) ==> HostOf(h) == old(HostOf(h))
        invariant cameOnline == Announced(results[..n], before[..n], now, previous, graceMinutes, CameOnline)
      {
        var c := results[n];
        var back := FirstVisit(c, now, c.host in previous && !previous[c.host]);
        TwoVisits(before[n], c, now, previous, graceMinutes);
        AnnouncedNext(results, before, n, now, previous, graceMinutes, CameOnline);
        if back {
          cameOnline := cameOnline + [c.host];
        }
      }
      assert results[..|results|] == results && before[..|results|] == before;
    }

    method FirstVisit(c: Check, now: real, prevOffline: bool) returns (back: bool)
      modifies this`failStreak, this`passStreak, this`portError, this`offlineSince, this`graceNotified
      ensures portError.Keys == old(portError.Keys)
      ensures HostOf(c.host) == Tracking(old(HostOf(c.host)), c, now)
      ensures forall k :: k != c.host ==> HostOf(k) == old(HostOf(k))
      ensures back <==> c.online && prevOffline && old(HostOf(c.host)).grace.notified
    {
      hide PortStep;
      if c.host in portError {
        UpdatePort(c);
      }
      back := TrackGrace(c, now, prevOffline);
    }

    method SecondPass(results: seq<Check>, now: real, ghost previous: map<int, bool>, graceMinutes: nat, ghost before: seq<Host>)
      returns (wentOffline: seq<int>)
      requires DistinctHosts(results)
      requires |before| == |results|
      requires forall i :: 0 <= i < |results| ==> HostOf(results[i].host) == Tracking(before[i], results[i], now)
      modifies this`graceNotified
      ensures forall i :: 0 <= i < |results| ==>
        HostOf(results[i].host) == Notifying(Tracking(before[i], results[i], now), results[i], now, graceMinutes)
      ensures forall h :: (forall i :: 0 <= i < |results| ==> results[i].host != h) ==> HostOf(h) == old(HostOf(h))
      ensures wentOffline == Announced(results, before, now, previous, graceMinutes, WentOffline)
    {
      hide HostOf, Tracking, Announced, Notifying, Due;
      wentOffline := [];
      AnnouncedNone(results, before, now, previous, graceMinutes, WentOffline);
      for n := 0 to |results|
        invariant forall i :: 0 <= i < n ==>
          HostOf(results[i].host) == Notifying(Tracking(before[i], results[i], now), results[i], now, graceMinutes)
        invariant forall i :: n <= i < |results| ==> HostOf(results[i].host) == Tracking(before[i], results[i], now)
        invariant forall h :: (forall i :: 0 <= i < |results| ==> results[i].host != h) ==> HostOf(h) == old(HostOf(h))
        invariant wentOffline == Announced(results[..n], before[..n], now, previous, graceMinutes, WentOffline)
      {
        var c := results[n];
        var down := SecondVisit(c, now, graceMinutes);
        TwoVisits(before[n], c, now, previous, graceMinutes);
        AnnouncedNext(results, before, n, now, previous, graceMinutes, WentOffline);
        if down {
          wentOffline := wentOffline + [c.host];
        }
      }
      assert results[..|results|] == results && before[..|results|] == before;
    }

    method SecondVisit(c: Check, now: real, graceMinutes: nat) returns (down: bool)
      modifies this`graceNotified
      ensures HostOf(c.host) == Notifying(old(HostOf(c.host)), c, now, graceMinutes)
      ensures forall k :: k != c.host ==> HostOf(k) == old(HostOf(k))
      ensures down <==> Due(old(HostOf(c.host)).grace, c, now, graceMinutes)
    {
      down := false;
      if !c.online && c.host in offlineSince && c.host !in graceNotified {
        if Minutes(offlineSince[c.host], now) >= graceMinutes as real {
          down := true;
          graceNotified := graceNotified + {c.host};
        }
      }
    }
  }

  /** All a cycle keeps about one host. */
  datatype Host = Host(port: Port, grace: Grace, hasRow: bool)

  function CycleOf(c: Check, now: real, previous: map<int, bool>, graceMinutes: nat): Cycle {
    Cycle(now, c.online, c.host in previous && !previous[c.host], graceMinutes, false)
  }

  function HostStep(h: Host, c: Check, cycle: Cycle): Host {
    Host(if h.hasRow then PortStep(h.port, Checked(c)) else h.port, GraceStep(h.grace, cycle), h.hasRow)
  }

  /** What the first pass does to one host. */
  function Tracking(h: Host, c: Check, now: real): Host {
    var grace :=
      if c.online then Grace(None, false)
      else Grace(Some(if h.grace.offlineSince.Some? then h.grace.offlineSince.value else now), h.grace.notified);
    Host(if h.hasRow then PortStep(h.port, Checked(c)) else h.port, grace, h.hasRow)
  }

  predicate Due(g: Grace, c: Check, now: real, graceMinutes: nat) {
    !c.online && g.offlineSince.Some? && !g.notified && Minutes(g.offlineSince.value, now) >= graceMinutes as real
  }

  /** What the second pass does to one host. */
  function Notifying(h: Host, c: Check, now: real, graceMinutes: nat): Host {
    if Due(h.grace, c, now, graceMinutes) then h.(grace := h.grace.(notified := true)) else h
  }

  /** The two passes together are the grace step and raise its alerts. */
  lemma TwoVisits(h: Host, c: Check, now: real, previous: map<int, bool>, graceMinutes: nat)
    ensures var cycle := CycleOf(c, now, previous, graceMinutes);
      && Notifying(Tracking(h, c, now), c, now, graceMinutes) == HostStep(h, c, cycle)
      && (AlertOf(h.grace, cycle) == WentOffline <==> Due(Tracking(h, c, now).grace, c, now, graceMinutes))
      && (AlertOf(h.grace, cycle) == CameOnline <==>
            c.online && c.host in previous && !previous[c.host] && h.grace.notified)
  {
    hide PortStep;
  }

  /** The hosts whose grace step raises this alert, in the order of the results. */
  function Announced(results: seq<Check>, before: seq<Host>, now: real, previous: map<int, bool>,
                     graceMinutes: nat, alert: Alert): seq<int>
    requires |before| == |results|
    decreases |results|
  {
    if results == [] then []
    else
      var n := |results| - 1;
      Announced(results[..n], before[..n], now, previous, graceMinutes, alert) +
      if AlertOf(before[n].grace, CycleOf(results[n], now, previous, graceMinutes)) == alert then [results[n].host] else []
  }

  lemma AnnouncedNone(results: seq<Check>, before: seq<Host>, now: real, previous: map<int, bool>, graceMinutes: nat, alert: Alert)
    requires |before| == |results|
    ensures Announced(results[..0], before[..0], now, previous, graceMinutes, alert) == []
  {
  }

  lemma AnnouncedNext(results: seq<Check>, before: seq<Host>, n: nat, now: real, previous: map<int, bool>,
                      graceMinutes: nat, alert: Alert)
    requires |before| == |results| && n < |results|
    ensures Announced(results[..n + 1], before[..n + 1], now, previous, graceMinutes, alert) ==
      Announced(results[..n], before[..n], now, previous, graceMinutes, alert) +
      if AlertOf(before[n].grace, CycleOf(results[n], now, previous, graceMinutes)) == alert then [results[n].host] else []
  {
    assert results[..n + 1][..n] == results[..n] && before[..n + 1][..n] == before[..n];
  }

  /** The alerts of a cycle, in terms of the history of each host. */
  lemma AlertsTell(results: seq<Check>, before: seq<Host>, i: nat, now: real, previous: map<int, bool>, graceMinutes: nat,
                   past: seq<Cycle>)
    requires |before| == |results| && i < |results| && DistinctHosts(results) && before[i].grace == GraceAfter(past)
    ensures var all := past + CyclesOf(results, results[i].host, now, previous, graceMinutes);
      && all != []
      && (results[i].host in Announced(results, before, now, previous, graceMinutes, WentOffline) <==>
            AlertAt(all, |all| - 1) == WentOffline)
      && (results[i].host in Announced(results, before, now, previous, graceMinutes, CameOnline) <==>
            AlertAt(all, |all| - 1) == CameOnline)
  {
    hide Announced, AlertAt, AlertOf, CycleOf, CyclesOf, GraceAfter;
    OnlyCheck(results, i, now, previous, graceMinutes);
    AlertOfLast(past, CycleOf(results[i], now, previous, graceMinutes));
    AnnouncedIff(results, before, i, now, previous, graceMinutes, WentOffline);
    AnnouncedIff(results, before, i, now, previous, graceMinutes, CameOnline);
  }

  /** One host, through a cycle that checked it. */
  lemma HostGoesOn(was: Host, next: Host, c: Check, cycle: Cycle, start: bool, events: seq<Event>, cycles: seq<Cycle>)
    requires next == HostStep(was, c, cycle) && was.grace == GraceAfter(cycles)
    requires was.hasRow ==> was.port == PortAfter(start, events)
    ensures next.hasRow == was.hasRow && next.grace == GraceAfter(cycles + [cycle])
    ensures was.hasRow ==> next.port == PortAfter(start, events + [Checked(c)])
  {
    hide PortAfter, GraceAfter, PortStep, GraceStep;
    PortNext(start, events, Checked(c));
    GraceNext(cycles, cycle);
  }

  lemma {:induction false} NotAnnounced(results: seq<Check>, before: seq<Host>, h: int, now: real, previous: map<int, bool>,
                                        graceMinutes: nat, alert: Alert)
    requires |before| == |results| && forall i :: 0 <= i < |results| ==> results[i].host != h
    ensures h !in Announced(results, before, now, previous, graceMinutes, alert)
    decreases |results|
  {
    hide AlertOf, CycleOf;
    if results != [] {
      var n := |results| - 1;
      NotAnnounced(results[..n], before[..n], h, now, previous, graceMinutes, alert);
    }
  }

  /** A checked host is announced exactly if its own cycle raises the alert. */
  lemma {:induction false} AnnouncedIff(results: seq<Check>, before: seq<Host>, i: nat, now: real, previous: map<int, bool>,
                                        graceMinutes: nat, alert: Alert)
    requires |before| == |results| && i < |results| && DistinctHosts(results)
    ensures results[i].host in Announced(results, before, now, previous, graceMinutes, alert) <==>
      AlertOf(before[i].grace, CycleOf(results[i], now, previous, graceMinutes)) == alert
    decreases |results|
  {
    hide AlertOf, CycleOf;
    var n := |results| - 1;
    if i == n {
      NotAnnounced(results[..n], before[..n], results[i].host, now, previous, graceMinutes, alert);
    } else {
      AnnouncedIff(results[..n], before[..n], i, now, previous, graceMinutes, alert);
    }
  }
}
