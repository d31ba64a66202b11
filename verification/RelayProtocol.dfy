/**
  The running relay (agent/src/syslog_relay.rs): any number of receiver tasks and
  one forwarder, interleaved step by step around the shared buffer and counters.

  Every step is one action another task can observe: one atomic counter update,
  one buffer operation under its lock, or one answer of the backend. The fields
  after `backoff` are history: they say where every arrival went.
 */
module RelayProtocol {
  import opened Wrappers
  import opened Subsequences
  import opened RelayQueue
  import opened SyslogFraming

  const BATCH_SIZE: nat := 500
  const BATCH_MAX_BYTES: nat := 1024 * 1024
  const MAX_BUFFERED_ENTRIES: nat := 20000
  const MAX_BUFFERED_BYTES: nat := 16 * 1024 * 1024
  const FLUSH_INTERVAL: nat := 2
  const RETRY_BACKOFF_MAX: nat := 60

  const LIMITS := Limits(MAX_BUFFERED_ENTRIES, MAX_BUFFERED_BYTES)

  // ── What the backend answered (agent/src/client.rs) ────────────────────────

  /** `count` is the stored count the body names, if it names one. */
  datatype Answer = Http(status: nat, count: Option<nat>) | NoAnswer

  datatype Sent = Done(accepted: nat, rejected: nat) | Refused | Failed

  /** A 4xx that resending cannot fix. */
  predicate IsPermanent(status: nat) {
    400 <= status < 500 && status !in {401, 403, 404, 408, 425, 429}
  }

  function FromResponse(sent: nat, count: Option<nat>): Sent {
    var accepted := match count
      case Some(c) => if c < sent then c else sent
      case None => sent;
    Done(accepted, sent - accepted)
  }

  function Interpret(answer: Answer, sent: nat): Sent {
    match answer
    case NoAnswer => Failed
    case Http(status, count) =>
      if 200 <= status < 300 then FromResponse(sent, count)
      else if IsPermanent(status) then Refused
      else Failed
  }

  /** What an answer means for a batch of `sent` entries. A success stored the named
      count of them, never more than were sent, and all if it names none; the rest
      is rejected. A 4xx outside the list refuses them all. Everything else is sent
      again: no answer, authentication, a missing endpoint, a timeout, too early, too
      many requests, and every status outside 2xx and 4xx. */
  lemma AnswerAccountsForBatch(answer: Answer, sent: nat)
    ensures var r := Interpret(answer, sent);
      && (r.Done? <==> answer.Http? && 200 <= answer.status <= 299)
      && (r.Done? ==> r.accepted + r.rejected == sent)
      && (r.Done? && answer.count.None? ==> r.accepted == sent)
      && (r.Done? && answer.count.Some? && answer.count.value <= sent ==> r.accepted == answer.count.value)
      && (r.Done? && answer.count.Some? && answer.count.value > sent ==> r.accepted == sent)
      && (r.Failed? <==>
            answer.NoAnswer? || answer.status in {401, 403, 404, 408, 425, 429} || answer.status < 200 || 300 <= answer.status < 400
            || answer.status >= 500)
  {}

  // ── State ──────────────────────────────────────────────────────────────────

  /** A receiver between counting a message, pushing it, and counting evictions. */
  datatype Receiver = Listening | Counted(entry: RelayEntry) | Evicted(dropped: nat)

  /** Where the forwarder is between taking a batch and finishing with it. */
  datatype Forwarder =
    | Waiting
    | Sending(batch: Entries)
    | Accepting(accepted: nat, thenRejected: nat)
    | Rejecting(rejected: nat)
    | SendFailed(failed: Entries)
    | Requeuing(lost: nat)

  datatype State = State(
    received: nat,
    forwarded: nat,
    rejected: nat,
    dropped: nat,
    sendFailures: nat,
    buffer: Entries,
    receivers: seq<Receiver>,
    forwarder: Forwarder,
    failing: bool,
    backoff: nat,
    arrivals: Entries,
    delivered: Entries,
    evicted: nat,
    refused: nat,
    failuresInARow: nat)

  const START := State(0, 0, 0, 0, 0, [], [], Waiting, false, FLUSH_INTERVAL, [], [], 0, 0, 0)

  function InFlight(f: Forwarder): Entries {
    match f
    case Sending(batch) => batch
    case SendFailed(batch) => batch
    case _ => []
  }

  /** Entries answered but not yet in the forwarded or rejected counter. */
  function Answered(f: Forwarder): nat {
    match f
    case Accepting(a, r) => a + r
    case Rejecting(r) => r
    case _ => 0
  }

  function LostUncounted(f: Forwarder): nat { if f.Requeuing? then f.lost else 0 }

  /** Messages counted as received but not yet pushed. */
  function Unpushed(rs: seq<Receiver>): nat {
    if rs == [] then 0 else (if rs[0].Counted? then 1 else 0) + Unpushed(rs[1..])
  }

  /** Evictions that happened but are not in the dropped counter yet. */
  function Uncounted(rs: seq<Receiver>): nat {
    if rs == [] then 0 else (if rs[0].Evicted? then rs[0].dropped else 0) + Uncounted(rs[1..])
  }

  lemma {:induction false} UpdateReceiver(rs: seq<Receiver>, i: nat, r: Receiver)
    requires i < |rs|
    ensures Unpushed(rs[i := r]) ==
      Unpushed(rs) - (if rs[i].Counted? then 1 else 0) + (if r.Counted? then 1 else 0)
    ensures Uncounted(rs[i := r]) ==
      Uncounted(rs) - (if rs[i].Evicted? then rs[i].dropped else 0) + (if r.Evicted? then r.dropped else 0)
  {
    if i == 0 {
      assert rs[0 := r][1..] == rs[1..];
    } else {
      assert rs[i := r][1..] == rs[1..][i - 1 := r];
      UpdateReceiver(rs[1..], i - 1, r);
    }
  }

  lemma {:induction false} AddReceiver(rs: seq<Receiver>)
    ensures Unpushed(rs + [Listening]) == Unpushed(rs)
    ensures Uncounted(rs + [Listening]) == Uncounted(rs)
  {
    if rs == [] {
      assert rs + [Listening] == [Listening];
      assert [Listening][1..] == [];
    } else {
      assert (rs + [Listening])[1..] == rs[1..] + [Listening];
      AddReceiver(rs[1..]);
    }
  }

  // ── Steps ──────────────────────────────────────────────────────────────────

  datatype Step =
    | Spawn
    | Refuse(messages: nat)
    | Count(i: nat, entry: RelayEntry)
    | Push(i: nat)
    | CountEvicted(i: nat)
    | TakeBatch
    | Reply(answer: Answer)
    | CountAccepted
    | CountRejected
    | Requeue
    | CountLost

  predicate Enabled(s: State, step: Step) {
    match step
    case Spawn => true
    case Refuse(_) => true
    case Count(i, _) => i < |s.receivers| && s.receivers[i].Listening?
    case Push(i) => i < |s.receivers| && s.receivers[i].Counted?
    case CountEvicted(i) => i < |s.receivers| && s.receivers[i].Evicted?
    case TakeBatch => s.forwarder.Waiting?
    case Reply(_) => s.forwarder.Sending?
    case CountAccepted => s.forwarder.Accepting?
    case CountRejected => s.forwarder.Rejecting?
    case Requeue => s.forwarder.SendFailed?
    case CountLost => s.forwarder.Requeuing?
  }

  /** The backoff after another failure. */
  function NextBackoff(failing: bool, backoff: nat): nat {
    if !failing then FLUSH_INTERVAL
    else if 2 * backoff < RETRY_BACKOFF_MAX then 2 * backoff else RETRY_BACKOFF_MAX
  }

  function Apply(s: State, step: Step): State
    requires Enabled(s, step)
  {
    match step
    case Spawn => s.(receivers := s.receivers + [Listening])
    case Refuse(n) => s.(dropped := s.dropped + n, refused := s.refused + n)
    case Count(i, e) => s.(received := s.received + 1, receivers := s.receivers[i := Counted(e)])
    case Push(i) => PushStep(s, i)
    case CountEvicted(i) =>
      s.(dropped := s.dropped + s.receivers[i].dropped, receivers := s.receivers[i := Listening])
    case TakeBatch => TakeStep(s)
    case Reply(answer) => ReplyStep(s, answer)
    case CountAccepted =>
      s.(forwarded := s.forwarded + s.forwarder.accepted, forwarder := Rejecting(s.forwarder.thenRejected))
    case CountRejected =>
      s.(rejected := s.rejected + s.forwarder.rejected, forwarder := Waiting,
         failing := false, backoff := FLUSH_INTERVAL, failuresInARow := 0)
    case Requeue => RequeueStep(s)
    case CountLost =>
      s.(dropped := s.dropped + s.forwarder.lost, forwarder := Waiting,
         backoff := NextBackoff(s.failing, s.backoff), failing := true, failuresInARow := s.failuresInARow + 1)
  }

  function PushStep(s: State, i: nat): State
    requires i < |s.receivers| && s.receivers[i].Counted?
  {
    var entry := s.receivers[i].entry;
    var buffer := Pushed(s.buffer, entry, LIMITS);
    PushKeepsLongestSuffix(s.buffer, entry, LIMITS);
    var gone := |s.buffer| + 1 - |buffer|;
    s.(buffer := buffer, receivers := s.receivers[i := Evicted(gone)],
       arrivals := s.arrivals + [entry], evicted := s.evicted + gone)
  }

  function TakeStep(s: State): State {
    BatchIsLongestPrefix(s.buffer, BATCH_SIZE, BATCH_MAX_BYTES, 0);
    var n := BatchCount(s.buffer, BATCH_SIZE, BATCH_MAX_BYTES, 0);
    if n == 0 then s else s.(buffer := s.buffer[n..], forwarder := Sending(s.buffer[..n]))
  }

  function ReplyStep(s: State, answer: Answer): State
    requires s.forwarder.Sending?
  {
    var batch := s.forwarder.batch;
    match Interpret(answer, |batch|)
    case Done(a, r) => s.(forwarder := Accepting(a, r), delivered := s.delivered + batch)
    case Refused => s.(forwarder := Rejecting(|batch|), delivered := s.delivered + batch)
    case Failed => s.(sendFailures := s.sendFailures + 1, forwarder := SendFailed(batch))
  }

  function RequeueStep(s: State): State
    requires s.forwarder.SendFailed?
  {
    var buffer := Requeued(s.forwarder.failed, s.buffer, LIMITS);
    RequeueLength(s.forwarder.failed, s.buffer, LIMITS);
    var lost := |s.forwarder.failed| + |s.buffer| - |buffer|;
    s.(buffer := buffer, forwarder := Requeuing(lost), evicted := s.evicted + lost)
  }

  /** The state after a run of steps, if each was enabled when it was taken. */
  function After(steps: seq<Step>): Option<State> {
    if steps == [] then Some(START)
    else
      var before := After(steps[..|steps| - 1]);
      var step := steps[|steps| - 1];
      if before.Some? && Enabled(before.value, step) then Some(Apply(before.value, step)) else None
  }

  // ── The invariant ──────────────────────────────────────────────────────────

  /** 2 s after one failure in a row, doubling up to 60 s. */
  function ExpectedBackoff(failures: nat): nat {
    if failures <= 1 then FLUSH_INTERVAL else NextBackoff(true, ExpectedBackoff(failures - 1))
  }

  /** Delivered, then in flight, then buffered. */
  function Pipeline(s: State): Entries { s.delivered + InFlight(s.forwarder) + s.buffer }

  predicate Invariant(s: State) {
    && s.received == |s.arrivals| + Unpushed(s.receivers)
    && |s.arrivals| == |Pipeline(s)| + s.evicted
    && |s.delivered| == s.forwarded + s.rejected + Answered(s.forwarder)
    && s.evicted + s.refused == s.dropped + Uncounted(s.receivers) + LostUncounted(s.forwarder)
    && IsSubsequence(Pipeline(s), s.arrivals)
    && WithinLimits(s.buffer, LIMITS)
    && |InFlight(s.forwarder)| <= BATCH_SIZE
    && s.failing == (s.failuresInARow > 0)
    && s.backoff == ExpectedBackoff(s.failuresInARow)
  }

  /** Evicting from the front of the buffer and appending the new arrival. */
  lemma OrderedAfterPush(ahead: Entries, buffer: Entries, gone: nat, entry: RelayEntry, arrivals: Entries)
    requires gone <= |buffer| && IsSubsequence(ahead + buffer, arrivals)
    ensures IsSubsequence(ahead + (buffer[gone..] + [entry]), arrivals + [entry])
  {
    hide IsSubsequence;
    Suffix(buffer, gone);
    Reflexive(ahead);
    Concat(ahead, ahead, buffer[gone..], buffer);
    Transitive(ahead + buffer[gone..], ahead + buffer, arrivals);
    Reflexive([entry]);
    Concat(ahead + buffer[gone..], arrivals, [entry], [entry]);
    assert ahead + buffer[gone..] + [entry] == ahead + (buffer[gone..] + [entry]);
  }

  lemma PushKeepsInvariant(s: State, i: nat)
    requires Invariant(s) && i < |s.receivers| && s.receivers[i].Counted?
    ensures Invariant(PushStep(s, i))
  {
    hide WithinLimits, IsSubsequence, Fits, ExpectedBackoff, Unpushed, Uncounted;
    var entry := s.receivers[i].entry;
    PushKeepsLongestSuffix(s.buffer, entry, LIMITS);
    PushWithinLimits(s.buffer, entry, LIMITS);
    hide Pushed;
    var gone := |s.buffer| + 1 - |Pushed(s.buffer, entry, LIMITS)|;
    UpdateReceiver(s.receivers, i, Evicted(gone));
    OrderedAfterPush(s.delivered + InFlight(s.forwarder), s.buffer, gone, entry, s.arrivals);
  }

  lemma TakeKeepsInvariant(s: State)
    requires Invariant(s) && s.forwarder.Waiting?
    ensures Invariant(TakeStep(s))
  {
    BatchIsLongestPrefix(s.buffer, BATCH_SIZE, BATCH_MAX_BYTES, 0);
    hide BatchCount, IsSubsequence, WithinLimits;
    var n := BatchCount(s.buffer, BATCH_SIZE, BATCH_MAX_BYTES, 0);
    TakeWithinLimits(s.buffer, n, LIMITS);
    assert s.delivered + [] + s.buffer == s.delivered + s.buffer[..n] + s.buffer[n..];
  }

  lemma ReplyKeepsInvariant(s: State, answer: Answer)
    requires Invariant(s) && s.forwarder.Sending?
    ensures Invariant(ReplyStep(s, answer))
  {
    hide IsSubsequence, WithinLimits;
    AnswerAccountsForBatch(answer, |s.forwarder.batch|);
    assert s.delivered + s.forwarder.batch + [] == s.delivered + s.forwarder.batch;
  }

  lemma RequeueKeepsInvariant(s: State)
    requires Invariant(s) && s.forwarder.SendFailed?
    ensures Invariant(RequeueStep(s))
  {
    hide IsSubsequence, WithinLimits, Requeued;
    var batch := s.forwarder.failed;
    RequeueLength(batch, s.buffer, LIMITS);
    var kept := RequeueSurvivors(batch, s.buffer, LIMITS);
    OrderedAfterRequeue(s.delivered, kept, batch, s.buffer, s.arrivals);
    assert s.delivered + [] + (kept + s.buffer) == s.delivered + kept + s.buffer;
  }

  lemma OrderedAfterRequeue(delivered: Entries, kept: Entries, batch: Entries, buffer: Entries, arrivals: Entries)
    requires IsSubsequence(kept, batch) && IsSubsequence(delivered + batch + buffer, arrivals)
    ensures IsSubsequence(delivered + kept + buffer, arrivals)
  {
    hide IsSubsequence;
    Reflexive(delivered);
    Reflexive(buffer);
    Concat(delivered, delivered, kept, batch);
    Concat(delivered + kept, delivered + batch, buffer, buffer);
    Transitive(delivered + kept + buffer, delivered + batch + buffer, arrivals);
  }

  lemma ReceiverStepKeepsInvariant(s: State, step: Step)
    requires Invariant(s) && Enabled(s, step)
    requires step.Spawn? || step.Refuse? || step.Count? || step.CountEvicted?
    ensures Invariant(Apply(s, step))
  {
    hide IsSubsequence, WithinLimits, ExpectedBackoff, Unpushed, Uncounted;
    match step
    case Spawn => AddReceiver(s.receivers);
    case Refuse(_) =>
    case Count(i, e) => UpdateReceiver(s.receivers, i, Counted(e));
    case CountEvicted(i) => UpdateReceiver(s.receivers, i, Listening);
  }

  lemma CountAnswerKeepsInvariant(s: State, step: Step)
    requires Invariant(s) && Enabled(s, step) && (step.CountAccepted? || step.CountRejected?)
    ensures Invariant(Apply(s, step))
  {
    hide IsSubsequence, WithinLimits, Unpushed, Uncounted;
    assert Pipeline(Apply(s, step)) == Pipeline(s);
    BackoffAtFirst();
    hide ExpectedBackoff, Pipeline;
  }

  lemma BackoffAtFirst()
    ensures ExpectedBackoff(0) == ExpectedBackoff(1) == FLUSH_INTERVAL
  {}

  lemma BackoffNext(failures: nat)
    ensures ExpectedBackoff(failures + 1) == NextBackoff(failures > 0, ExpectedBackoff(failures))
  {}

  lemma CountLostKeepsInvariant(s: State)
    requires Invariant(s) && Enabled(s, CountLost)
    ensures Invariant(Apply(s, CountLost))
  {
    hide IsSubsequence, WithinLimits, Unpushed, Uncounted;
    assert Pipeline(Apply(s, CountLost)) == Pipeline(s);
    BackoffNext(s.failuresInARow);
    hide ExpectedBackoff, Pipeline, NextBackoff;
  }

  /** Every step of every task keeps the invariant. */
  lemma StepKeepsInvariant(s: State, step: Step)
    requires Invariant(s) && Enabled(s, step)
    ensures Invariant(Apply(s, step))
  {
    hide Invariant, PushStep, TakeStep, ReplyStep, RequeueStep;
    match step
    case Push(i) => PushKeepsInvariant(s, i);
    case TakeBatch => TakeKeepsInvariant(s);
    case Reply(answer) => ReplyKeepsInvariant(s, answer);
    case Requeue => RequeueKeepsInvariant(s);
    case Spawn => ReceiverStepKeepsInvariant(s, step);
    case Refuse(_) => ReceiverStepKeepsInvariant(s, step);
    case Count(_, _) => ReceiverStepKeepsInvariant(s, step);
    case CountEvicted(_) => ReceiverStepKeepsInvariant(s, step);
    case CountAccepted => CountAnswerKeepsInvariant(s, step);
    case CountRejected => CountAnswerKeepsInvariant(s, step);
    case CountLost => CountLostKeepsInvariant(s);
  }

  lemma {:induction false} RunKeepsInvariant(steps: seq<Step>)
    ensures After(steps).Some? ==> Invariant(After(steps).value)
  {
    if steps != [] {
      RunKeepsInvariant(steps[..|steps| - 1]);
      hide Invariant, Apply;
      var before := After(steps[..|steps| - 1]);
      if before.Some? && Enabled(before.value, steps[|steps| - 1]) {
        StepKeepsInvariant(before.value, steps[|steps| - 1]);
      }
    } else {
      assert [] + [] + [] == START.buffer;
    }
  }

  // ── Results over every run ─────────────────────────────────────────────────

  /** Conservation: each received message is forwarded, rejected, being counted
      as one of them, evicted, buffered, in flight, or about to be pushed; and
      the dropped counter is what was evicted or refused, up to drops whose
      counting is still under way. */
  lemma Conservation(steps: seq<Step>)
    requires After(steps).Some?
    ensures var s := After(steps).value;
      && s.received == s.forwarded + s.rejected + Answered(s.forwarder) + s.evicted
                     + |s.buffer| + |InFlight(s.forwarder)| + Unpushed(s.receivers)
      && s.dropped + Uncounted(s.receivers) + LostUncounted(s.forwarder) == s.evicted + s.refused
  {
    RunKeepsInvariant(steps);
    hide After, IsSubsequence, WithinLimits;
  }

  /** With no step under way, the heartbeat counters balance by themselves. */
  lemma CountersBalanceAtRest(steps: seq<Step>)
    requires After(steps).Some?
    requires After(steps).value.forwarder.Waiting?
    requires forall i :: 0 <= i < |After(steps).value.receivers| ==> After(steps).value.receivers[i].Listening?
    ensures var s := After(steps).value;
      s.received + s.refused == s.forwarded + s.rejected + s.dropped + |s.buffer|
  {
    Conservation(steps);
    hide After;
    AllListening(After(steps).value.receivers);
  }

  lemma {:induction false} AllListening(rs: seq<Receiver>)
    requires forall i :: 0 <= i < |rs| ==> rs[i].Listening?
    ensures Unpushed(rs) == 0 && Uncounted(rs) == 0
  {
    if rs != [] { AllListening(rs[1..]); }
  }

  /** Order and no duplication: what was delivered, then what is in flight, then
      what is buffered, sit at strictly increasing positions of the arrival log. */
  lemma OrderedWithoutDuplicates(steps: seq<Step>) returns (at: seq<nat>)
    requires After(steps).Some?
    ensures var s := After(steps).value;
      && |at| == |Pipeline(s)|
      && (forall i :: 0 <= i < |at| ==> at[i] < |s.arrivals| && s.arrivals[at[i]] == Pipeline(s)[i])
      && (forall i, j :: 0 <= i < j < |at| ==> at[i] < at[j])
  {
    RunKeepsInvariant(steps);
    hide After, WithinLimits, IsSubsequence;
    at := Positions(Pipeline(After(steps).value), After(steps).value.arrivals);
  }

  function PowerOfTwo(n: nat): nat { if n == 0 then 1 else 2 * PowerOfTwo(n - 1) }

  lemma {:induction false} CappedDoubling(failures: nat)
    requires failures >= 1
    ensures ExpectedBackoff(failures) ==
      if PowerOfTwo(failures) < RETRY_BACKOFF_MAX then PowerOfTwo(failures) else RETRY_BACKOFF_MAX
  {
    if failures == 1 {
      assert PowerOfTwo(1) == 2 * PowerOfTwo(0);
    } else {
      CappedDoubling(failures - 1);
    }
  }

  /** The retry delay depends on the failures in a row only: 2^n seconds after the
      n-th, at most a minute, and the flush interval again after any answer. */
  lemma {:induction false} RetryDelay(steps: seq<Step>)
    requires After(steps).Some?
    ensures var s := After(steps).value; var n := s.failuresInARow;
      && s.failing == (n > 0)
      && s.backoff == if n == 0 then 2 else if PowerOfTwo(n) < 60 then PowerOfTwo(n) else 60
  {
    RunKeepsInvariant(steps);
    hide After, WithinLimits, IsSubsequence;
    var n := After(steps).value.failuresInARow;
    if n > 0 { CappedDoubling(n); }
  }

  /** What one batch is: the longest front of the buffer with at most 500 entries and
      1 MiB, at least one entry if there is any. */
  lemma BatchTaken(s: State)
    requires s.forwarder.Waiting?
    ensures var after := Apply(s, TakeBatch); var n := |InFlight(after.forwarder)|;
      && n <= |s.buffer| && InFlight(after.forwarder) == s.buffer[..n] && after.buffer == s.buffer[n..]
      && (n == 0 <==> s.buffer == []) && n <= 500 && (n > 1 ==> TotalSize(s.buffer[..n]) <= 1048576)
      && (n < |s.buffer| ==> n == 500 || TotalSize(s.buffer[..n + 1]) > 1048576)
  {
    BatchIsLongestPrefix(s.buffer, BATCH_SIZE, BATCH_MAX_BYTES, 0);
    hide BatchCount, TotalSize;
  }

  /** What one push does: a full buffer, of 20000 entries or 16 MiB, gives up its
      oldest entries for the new one, and no entry more than it must. */
  lemma PushMakesRoom(s: State, i: nat)
    requires i < |s.receivers| && s.receivers[i].Counted?
    ensures var entry := s.receivers[i].entry; var after := Apply(s, Push(i)).buffer; var d := |s.buffer| + 1 - |after|;
      && 0 <= d <= |s.buffer| && after == s.buffer[d..] + [entry]
      && (|after| > 1 ==> |after| <= 20000 && TotalSize(after) <= 16777216)
      && forall j :: 0 <= j < d ==> |s.buffer[j..] + [entry]| > 20000 || TotalSize(s.buffer[j..] + [entry]) > 16777216
  {
    PushEvictsLeast(s.buffer, s.receivers[i].entry, LIMITS);
    hide Pushed, TotalSize;
  }

  // ── A failed send alone loses nothing ──────────────────────────────────────

  /** What `accept` can build from a frame within the limit: lossy decoding turns one
      byte into at most three, addresses and times are short. */
  predicate FromFrame(e: RelayEntry) {
    |e.raw| <= 3 * MAX_MESSAGE_BYTES && |e.sourceIp| <= 64 && |e.receivedAt| <= 64
  }

  predicate AllFromFrames(q: Entries) { forall i :: 0 <= i < |q| ==> FromFrame(q[i]) }

  predicate CountsFrames(steps: seq<Step>) {
    forall n :: 0 <= n < |steps| && steps[n].Count? ==> FromFrame(steps[n].entry)
  }

  predicate HoldsFrames(s: State) {
    && AllFromFrames(s.arrivals)
    && forall i :: 0 <= i < |s.receivers| && s.receivers[i].Counted? ==> FromFrame(s.receivers[i].entry)
  }

  lemma {:induction false} ArrivalsFromFrames(steps: seq<Step>)
    requires CountsFrames(steps) && After(steps).Some?
    ensures HoldsFrames(After(steps).value)
  {
    if steps != [] {
      var n := |steps| - 1;
      ArrivalsFromFrames(steps[..n]);
      assert steps[n].Count? ==> FromFrame(steps[n].entry);
      hide FromFrame, Pushed, Requeued, BatchCount, After;
      StepHoldsFrames(After(steps[..n]).value, steps[n]);
      AfterLast(steps);
    }
  }

  lemma AfterLast(steps: seq<Step>)
    requires steps != [] && After(steps).Some?
    ensures var before := After(steps[..|steps| - 1]);
      before.Some? && Enabled(before.value, steps[|steps| - 1])
      && After(steps).value == Apply(before.value, steps[|steps| - 1])
  {}

  lemma StepHoldsFrames(s: State, step: Step)
    requires Enabled(s, step) && HoldsFrames(s) && (step.Count? ==> FromFrame(step.entry))
    ensures HoldsFrames(Apply(s, step))
  {
    hide FromFrame, Pushed, Requeued, BatchCount;
  }

  /** The buffer of the running relay is always within its byte cap: no single entry
      exceeds it. */
  lemma BufferWithinBytes(steps: seq<Step>)
    requires CountsFrames(steps) && After(steps).Some?
    ensures TotalSize(After(steps).value.buffer) <= MAX_BUFFERED_BYTES
  {
    RunKeepsInvariant(steps);
    ArrivalsFromFrames(steps);
    hide After, IsSubsequence;
    var s := After(steps).value;
    if |s.buffer| == 1 {
      var at := Positions(Pipeline(s), s.arrivals);
      var last := |Pipeline(s)| - 1;
      assert Pipeline(s)[last] == s.buffer[0];
      assert FromFrame(s.arrivals[at[last]]);
      assert s.buffer[1..] == [] && TotalSize(s.buffer) == s.buffer[0].Size();
    }
  }

  /** Nothing is pushed, taken or put back: the forwarder is in the middle of a send. */
  predicate MidSend(step: Step) { !step.Push? && !step.TakeBatch? && !step.Requeue? }

  /** The batch and the rest of the queue stay as they are until the send ends; once
      it has ended another way, it does not fail. */
  lemma {:induction false} SendKeepsQueue(steps: seq<Step>, mid: seq<Step>)
    requires After(steps).Some? && After(steps + mid).Some?
    requires forall i :: 0 <= i < |mid| ==> MidSend(mid[i])
    ensures var a, b := After(steps).value, After(steps + mid).value;
      (b.forwarder.Sending? || b.forwarder.SendFailed?) ==>
        InFlight(b.forwarder) == InFlight(a.forwarder) && b.buffer == a.buffer
        && (a.forwarder.Sending? || a.forwarder.SendFailed?)
    decreases |mid|
  {
    if mid == [] {
      assert steps + mid == steps;
    } else {
      var n := |mid| - 1;
      var all := steps + mid;
      assert all[..|all| - 1] == steps + mid[..n] && all[|all| - 1] == mid[n];
      AfterLast(all);
      SendKeepsQueue(steps, mid[..n]);
    }
  }

  lemma PutBackWhatWasTaken(s: State, t: State)
    requires WithinLimits(s.buffer, LIMITS) && TotalSize(s.buffer) <= MAX_BUFFERED_BYTES
    requires TakeStep(s).forwarder.Sending? && t.forwarder == SendFailed(InFlight(TakeStep(s).forwarder))
    requires t.buffer == TakeStep(s).buffer && s.forwarder.Waiting?
    ensures RequeueStep(t).buffer == s.buffer && RequeueStep(t).forwarder == Requeuing(0)
    ensures RequeueStep(t).evicted == t.evicted
  {
    BatchIsLongestPrefix(s.buffer, BATCH_SIZE, BATCH_MAX_BYTES, 0);
    hide TotalSize, Requeued, WithinLimits, BatchCount;
    RequeueRestoresIff(s.buffer, BatchCount(s.buffer, BATCH_SIZE, BATCH_MAX_BYTES, 0), LIMITS);
  }

  /** A batch is taken, anything but a push happens meanwhile, the send fails, the
      batch is put back: the buffer is what it was, and no entry is lost. */
  lemma FailedSendLosesNothing(before: seq<Step>, mid: seq<Step>)
    requires CountsFrames(before) && forall i :: 0 <= i < |mid| ==> MidSend(mid[i])
    requires After(before + [TakeBatch] + mid + [Requeue]).Some?
    ensures After(before).Some?
    ensures var a, b := After(before).value, After(before + [TakeBatch] + mid + [Requeue]).value;
      b.buffer == a.buffer && b.forwarder == Requeuing(0) && b.evicted == a.evicted
  {
    hide After, IsSubsequence, TotalSize, WithinLimits, TakeStep, RequeueStep, CountsFrames, Invariant;
    var taken := before + [TakeBatch];
    var failed := taken + mid;
    var all := failed + [Requeue];
    assert all[..|all| - 1] == failed && taken[..|taken| - 1] == before;
    assert all[|all| - 1] == Requeue && taken[|taken| - 1] == TakeBatch;
    AfterLast(all);
    PrefixRuns(taken, mid);
    AfterLast(taken);
    SendKeepsQueue(taken, mid);
    EvictedKept(taken, mid);
    BufferWithinBytes(before);
    var s := After(before).value;
    WithinLimitsAlways(before);
    TakeKeepsRest(s);
    PutBackWhatWasTaken(s, After(failed).value);
  }

  lemma WithinLimitsAlways(steps: seq<Step>)
    requires After(steps).Some?
    ensures WithinLimits(After(steps).value.buffer, LIMITS)
  {
    RunKeepsInvariant(steps);
    hide After, IsSubsequence, WithinLimits;
  }

  lemma TakeKeepsRest(s: State)
    ensures TakeStep(s).evicted == s.evicted
    ensures s.forwarder.Waiting? ==> TakeStep(s).forwarder.Waiting? || TakeStep(s).forwarder.Sending?
  {}

  lemma {:induction false} PrefixRuns(steps: seq<Step>, more: seq<Step>)
    requires After(steps + more).Some?
    ensures After(steps).Some?
    decreases |more|
  {
    if more == [] {
      assert steps + more == steps;
    } else {
      var all := steps + more;
      assert all[..|all| - 1] == steps + more[..|more| - 1];
      AfterLast(all);
      PrefixRuns(steps, more[..|more| - 1]);
    }
  }

  lemma {:induction false} EvictedKept(steps: seq<Step>, mid: seq<Step>)
    requires After(steps).Some? && After(steps + mid).Some?
    requires forall i :: 0 <= i < |mid| ==> MidSend(mid[i])
    ensures After(steps + mid).value.evicted == After(steps).value.evicted
    decreases |mid|
  {
    if mid == [] {
      assert steps + mid == steps;
    } else {
      var all := steps + mid;
      assert all[..|all| - 1] == steps + mid[..|mid| - 1] && all[|all| - 1] == mid[|mid| - 1];
      AfterLast(all);
      EvictedKept(steps, mid[..|mid| - 1]);
    }
  }

  // ── A requeue that discards the newest ─────────────────────────────────────

  /** The largest entry a frame can become. */
  function Largest(): RelayEntry {
    RelayEntry(seq(3 * MAX_MESSAGE_BYTES, _ => 65), "", "", Tcp)
  }

  function Copies(e: RelayEntry, n: nat): (q: Entries)
    ensures |q| == n && forall i :: 0 <= i < n ==> q[i] == e
  {
    if n == 0 then [] else [e] + Copies(e, n - 1)
  }

  lemma {:induction false} CopiesSize(e: RelayEntry, n: nat)
    ensures TotalSize(Copies(e, n)) == n * e.Size()
  {
    if n > 0 {
      CopiesSize(e, n - 1);
      assert Copies(e, n)[1..] == Copies(e, n - 1);
      assert n * e.Size() == e.Size() + (n - 1) * e.Size();
    }
  }

  lemma LargestSize()
    ensures Largest().Size() == 196672 && FromFrame(Largest())
  {}

  lemma NearlyFull()
    ensures var q := Copies(Largest(), 85); AllFromFrames(q) && |q| == 85 && TotalSize(q) == 16717120
  {
    hide Copies, TotalSize, Largest, FromFrame;
    LargestSize();
    CopiesSize(Largest(), 85);
    assert TotalSize(Copies(Largest(), 85)) == 85 * 196672;
  }

  /** An ASCII message of the maximum length. */
  function FullLength(): RelayEntry {
    RelayEntry(seq(MAX_MESSAGE_BYTES, _ => 65), "", "", Udp)
  }

  lemma FullLengthSize()
    ensures FullLength().Size() == 65600 && FromFrame(FullLength())
  {}

  lemma OneByteSize()
    ensures var e := RelayEntry([65], "", "", Udp); e.Size() == 65 && FromFrame(e)
  {}

  /** In the running relay: 85 of the largest entries leave too little room for the
      newer entry of a failed batch, and enough for the older one. */
  lemma NewestDiscarded() returns (small: RelayEntry, big: RelayEntry, q: Entries)
    ensures FromFrame(small) && FromFrame(big) && AllFromFrames(q) && WithinLimits(q, LIMITS)
    ensures Requeued([small, big], q, LIMITS) == [small] + q
    ensures !exists n :: 0 <= n <= 2 && Requeued([small, big], q, LIMITS) == [small, big][n..] + q
  {
    hide TotalSize, Copies, Largest, FullLength, AllFromFrames, FromFrame, Requeued;
    small, big, q := RelayEntry([65], "", "", Udp), FullLength(), Copies(Largest(), 85);
    OneByteSize();
    FullLengthSize();
    NearlyFull();
    assert !Fits(q, big.Size(), LIMITS) && Fits(q, small.Size(), LIMITS);
    OlderGoesBack(small, big, q, LIMITS);
  }

  // ── What the counters count ────────────────────────────────────────────────

  /** How much of a batch an answer says was stored. */
  function Stored(answer: Answer, sent: nat): nat {
    if answer.Http? && 200 <= answer.status <= 299 then
      if answer.count.Some? && answer.count.value < sent then answer.count.value else sent
    else 0
  }

  /** How much of a batch an answer disposes of without storing it. */
  function NotStored(answer: Answer, sent: nat): nat {
    if answer.NoAnswer? then 0
    else if 200 <= answer.status <= 299 then sent - Stored(answer, sent)
    else if 400 <= answer.status <= 499 && answer.status !in {401, 403, 404, 408, 425, 429} then sent
    else 0
  }

  /** The totals of a run, read off its steps. */
  datatype Ledger = Ledger(counted: nat, stored: nat, notStored: nat, failures: nat, refused: nat)

  function LedgerNext(l: Ledger, s: State, step: Step): Ledger {
    match step
    case Count(_, _) => l.(counted := l.counted + 1)
    case Refuse(n) => l.(refused := l.refused + n)
    case Reply(answer) =>
      var sent := |InFlight(s.forwarder)|;
      l.(stored := l.stored + Stored(answer, sent), notStored := l.notStored + NotStored(answer, sent),
         failures := l.failures + if Stored(answer, sent) + NotStored(answer, sent) == 0 then 1 else 0)
    case _ => l
  }

  function LedgerOf(steps: seq<Step>): Ledger
    requires After(steps).Some?
  {
    if steps == [] then Ledger(0, 0, 0, 0, 0)
    else
      var before := steps[..|steps| - 1];
      LedgerNext(LedgerOf(before), After(before).value, steps[|steps| - 1])
  }

  /** Accepted entries not yet in the forwarded counter, and rejected ones not yet in
      theirs. */
  function Unforwarded(f: Forwarder): nat { if f.Accepting? then f.accepted else 0 }

  function Unrejected(f: Forwarder): nat {
    if f.Accepting? then f.thenRejected else if f.Rejecting? then f.rejected else 0
  }

  predicate CountersMatch(s: State, l: Ledger) {
    && s.received == l.counted && s.refused == l.refused && s.sendFailures == l.failures
    && s.forwarded + Unforwarded(s.forwarder) == l.stored
    && s.rejected + Unrejected(s.forwarder) == l.notStored
    && (s.forwarder.Sending? ==> s.forwarder.batch != [])
  }

  lemma StepMatches(s: State, l: Ledger, step: Step)
    requires CountersMatch(s, l) && Enabled(s, step)
    ensures CountersMatch(Apply(s, step), LedgerNext(l, s, step))
  {
    BatchIsLongestPrefix(s.buffer, BATCH_SIZE, BATCH_MAX_BYTES, 0);
    hide Pushed, Requeued, BatchCount, TotalSize;
    if step.Reply? {
      AnswerAccountsForBatch(step.answer, |InFlight(s.forwarder)|);
    }
  }

  /** Over every run each counter is the total of what it is named after: messages
      counted, entries the answers stored, entries they disposed of otherwise, sends
      that failed, and messages refused before reception; up to the one update under
      way. */
  lemma {:induction false} CountersTell(steps: seq<Step>)
    requires After(steps).Some?
    ensures CountersMatch(After(steps).value, LedgerOf(steps))
  {
    if steps != [] {
      var before := steps[..|steps| - 1];
      AfterLast(steps);
      CountersTell(before);
      StepMatches(After(before).value, LedgerOf(before), steps[|steps| - 1]);
    }
    hide After, Enabled, Apply, CountersMatch, LedgerNext;
  }
}
