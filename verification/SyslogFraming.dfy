/**
  TCP syslog framing of the probe relay (agent/src/syslog_relay.rs).

  `Parse` is what one `push` does to everything buffered so far; `Framer` is the
  incremental object, proved against it. The main results: a stream is cut into
  the same messages however TCP splits it, exactly when it holds no overlong
  text run; and framed messages come back unchanged (RFC 6587, sections 3.4.1
  and 3.4.2).
 */
module SyslogFraming {
  import opened Wrappers

  type Byte = b: int | 0 <= b < 256
  type Bytes = seq<Byte>

  const MAX_MESSAGE_BYTES: nat := 65536
  const NUL: Byte := 0
  const LF: Byte := 10
  const CR: Byte := 13
  const SPACE: Byte := 32
  const ZERO: Byte := 48
  const LESS: Byte := 60

  predicate IsDigit(b: Byte) { ZERO <= b <= ZERO + 9 }

  predicate IsTerminator(b: Byte) { b == LF || b == NUL }

  // ── Octet counting ─────────────────────────────────────────────────────────

  datatype Octets = Frame(start: nat, len: nat) | NeedMore | NotOctetCounted | LengthTooLarge

  /** How many of the first `limit` bytes are digits before the first non-digit. */
  function LeadingDigits(b: Bytes, limit: nat): (n: nat)
    ensures n <= limit && n <= |b|
    ensures forall i :: 0 <= i < n ==> IsDigit(b[i])
    ensures n < limit && n < |b| ==> !IsDigit(b[n])
  {
    if limit == 0 || b == [] || !IsDigit(b[0]) then 0 else 1 + LeadingDigits(b[1..], limit - 1)
  }

  function DecimalValue(ds: Bytes): nat
    requires forall i :: 0 <= i < |ds| ==> IsDigit(ds[i])
  {
    if ds == [] then 0
    else
      assert IsDigit(ds[|ds| - 1]);
      10 * DecimalValue(ds[..|ds| - 1]) + (ds[|ds| - 1] - ZERO)
  }

  /** Whether the buffer starts with `"<len> <"`, and if so the frame it announces. */
  function OctetCounted(b: Bytes): (octets: Octets)
    requires b != []
    ensures octets.Frame? ==> octets.start >= 2 && octets.start + octets.len <= |b|
  {
    if !(ZERO + 1 <= b[0] <= ZERO + 9) then NotOctetCounted
    else
      var digits := LeadingDigits(b, 7);
      if digits == |b| then (if digits < 7 then NeedMore else NotOctetCounted)
      else if b[digits] != SPACE || digits > 6 then NotOctetCounted
      else if |b| == digits + 1 then NeedMore
      else if b[digits + 1] != LESS then NotOctetCounted
      else
        var len := DecimalValue(b[..digits]);
        if len > MAX_MESSAGE_BYTES then LengthTooLarge
        else if |b| < digits + 1 + len then NeedMore
        else Frame(digits + 1, len)
  }

  /** On the bytes alone: `k` digits, the first not 0, a space and `<`. */
  predicate CountedHead(b: Bytes, k: nat) {
    && 1 <= k <= 6 && k + 1 < |b|
    && 49 <= b[0] <= 57 && (forall i :: 0 <= i < k ==> 48 <= b[i] <= 57)
    && b[k] == 32 && b[k + 1] == 60
  }

  ghost predicate LooksCounted(b: Bytes) { exists k: nat :: CountedHead(b, k) }

  lemma HeadHasDigits(b: Bytes, k: nat)
    requires CountedHead(b, k)
    ensures LeadingDigits(b, 7) == k
  {
    var n := LeadingDigits(b, 7);
    assert IsDigit(b[0]) && !IsDigit(b[k]);
    assert !(n < k) && !(k < n);
  }

  lemma CountedHasHead(b: Bytes)
    requires b != [] && IsTerminator(b[|b| - 1]) && OctetCounted(b) != NotOctetCounted
    ensures CountedHead(b, LeadingDigits(b, 7))
  {
    assert !IsDigit(b[|b| - 1]) && b[|b| - 1] != SPACE;
  }

  /** A line is text exactly if it does not begin like a counted message: a number
      alone, as in `10 failed logins`, is not a length. */
  lemma TextIffNotCounted(b: Bytes)
    requires b != [] && IsTerminator(b[|b| - 1])
    ensures OctetCounted(b) == NotOctetCounted <==> !LooksCounted(b)
  {
    if OctetCounted(b) != NotOctetCounted { CountedHasHead(b); }
    if k: nat :| CountedHead(b, k) { HeadHasDigits(b, k); }
  }

  function PowerOfTen(n: nat): nat {
    if n == 0 then 1 else 10 * PowerOfTen(n - 1)
  }

  /** A number written in d digits, the first not 0, is at least 10^(d-1). */
  lemma {:induction false} DecimalLowerBound(ds: Bytes)
    requires forall i :: 0 <= i < |ds| ==> IsDigit(ds[i])
    requires ds != [] && ds[0] != ZERO
    ensures DecimalValue(ds) >= PowerOfTen(|ds| - 1) >= 1
  {
    if |ds| > 1 {
      assert IsDigit(ds[|ds| - 1]);
      DecimalLowerBound(ds[..|ds| - 1]);
    } else {
      assert IsDigit(ds[0]) && DecimalValue(ds[..0]) == 0;
    }
  }

  lemma {:induction false} LeadingDigitsStable(a: Bytes, c: Bytes, limit: nat)
    requires LeadingDigits(a, limit) < |a| || LeadingDigits(a, limit) == limit
    ensures LeadingDigits(a + c, limit) == LeadingDigits(a, limit)
  {
    if limit == 0 || a == [] || !IsDigit(a[0]) {
    } else {
      assert (a + c)[1..] == a[1..] + c;
      LeadingDigitsStable(a[1..], c, limit - 1);
    }
  }

  /** A decided answer never changes when more bytes arrive. */
  lemma OctetCountedStable(a: Bytes, c: Bytes)
    requires a != [] && OctetCounted(a) != NeedMore
    ensures OctetCounted(a + c) == OctetCounted(a)
  {
    var digits := LeadingDigits(a, 7);
    if ZERO + 1 <= a[0] <= ZERO + 9 {
      LeadingDigitsStable(a, c, 7);
      assert (a + c)[..digits] == a[..digits];
    }
  }

  /** Conversely, a text run is already recognised as text in any prefix that
      either ends its line or is longer than every length header. */
  lemma TextPrefixIsText(a: Bytes, c: Bytes)
    requires a != [] && OctetCounted(a + c) == NotOctetCounted
    requires |a| >= 9 || IsTerminator(a[|a| - 1])
    ensures OctetCounted(a) == NotOctetCounted
  {
    if OctetCounted(a) != NeedMore {
      OctetCountedStable(a, c);
    } else {
      LeadingDigitsStable(a, c, 7);
    }
  }

  // ── Cutting a buffer into messages ─────────────────────────────────────────

  /** Index of the first LF or NUL, or the length if there is none. */
  function TerminatorAt(b: Bytes): (pos: nat)
    ensures pos <= |b|
    ensures forall i :: 0 <= i < pos ==> !IsTerminator(b[i])
    ensures pos < |b| ==> IsTerminator(b[pos])
  {
    if b == [] || IsTerminator(b[0]) then 0 else 1 + TerminatorAt(b[1..])
  }

  lemma TerminatorUnique(b: Bytes, pos: nat)
    requires pos <= |b|
    requires forall i :: 0 <= i < pos ==> !IsTerminator(b[i])
    requires pos < |b| ==> IsTerminator(b[pos])
    ensures TerminatorAt(b) == pos
  {
    var p := TerminatorAt(b);
    assert !(p < pos) && !(pos < p);
  }

  function ChopCr(line: Bytes): Bytes {
    if line != [] && line[|line| - 1] == CR then line[..|line| - 1] else line
  }

  /** Messages completed, oversized messages discarded, bytes kept for later, and
      whether framing broke down. */
  datatype Outcome = Outcome(frames: seq<Bytes>, oversized: nat, rest: Bytes, bad: bool) {
    function After(frame: seq<Bytes>, discarded: nat): Outcome {
      this.(frames := frame + frames, oversized := discarded + oversized)
    }

    /** This outcome followed by one on the bytes kept plus `chunk`. */
    function Then(chunk: Bytes): Outcome {
      if bad then this.(rest := rest + chunk) else Parse(rest + chunk).After(frames, oversized)
    }
  }

  /** What the head of a buffer amounts to: cut off a message (or an empty or
      oversized line), or stop with `rest` kept. */
  datatype Step =
    | Cut(frames: seq<Bytes>, discarded: nat, consumed: nat)
    | Stop(discarded: nat, rest: Bytes, bad: bool)

  function CutLine(line: Bytes, consumed: nat): Step {
    if |line| > MAX_MESSAGE_BYTES then Cut([], 1, consumed)
    else if line != [] then Cut([line], 0, consumed)
    else Cut([], 0, consumed)
  }

  function NextStep(b: Bytes): (step: Step)
    requires b != []
    ensures step.Cut? ==> 1 <= step.consumed <= |b|
  {
    match OctetCounted(b)
    case Frame(start, len) => Cut([b[start..start + len]], 0, start + len)
    case NeedMore => Stop(0, b, false)
    case LengthTooLarge => Stop(0, b, true)
    case NotOctetCounted =>
      var pos := TerminatorAt(b);
      if pos < |b| then CutLine(ChopCr(b[..pos]), pos + 1)
      else if |b| > MAX_MESSAGE_BYTES then Stop(1, [], false)
      else Stop(0, b, false)
  }

  function Parse(b: Bytes): Outcome
    decreases |b|
  {
    if b == [] then Outcome([], 0, [], false)
    else match NextStep(b)
      case Cut(frames, discarded, consumed) => Parse(b[consumed..]).After(frames, discarded)
      case Stop(discarded, rest, bad) => Outcome([], discarded, rest, bad)
  }

  lemma ResidueBound(b: Bytes)
    ensures Parse([]) == Outcome([], 0, [], false)
    ensures !Parse(b).bad ==> |Parse(b).rest| <= MAX_MESSAGE_BYTES + 5
  {
    ParseBounds(b);
  }

  /** Outcomes compose: what was cut off before stays in front. */
  lemma AppendCut(b: Bytes, done: seq<Bytes>, oversized: nat, cut: Step)
    requires b != [] && cut.Cut? && NextStep(b) == cut
    ensures Parse(b).After(done, oversized)
         == Parse(b[cut.consumed..]).After(done + cut.frames, oversized + cut.discarded)
  {
    hide NextStep;
    var o := Parse(b[cut.consumed..]);
    assert done + (cut.frames + o.frames) == (done + cut.frames) + o.frames;
  }

  lemma StopHere(b: Bytes, done: seq<Bytes>, oversized: nat)
    requires b != [] && NextStep(b).Stop?
    ensures var s := NextStep(b);
      Parse(b).After(done, oversized) == Outcome(done, oversized + s.discarded, s.rest, s.bad)
  {
    hide NextStep;
  }

  lemma AfterThen(o: Outcome, frames: seq<Bytes>, discarded: nat, chunk: Bytes)
    ensures o.After(frames, discarded).Then(chunk) == o.Then(chunk).After(frames, discarded)
  {
    if !o.bad {
      var p := Parse(o.rest + chunk);
      assert (frames + o.frames) + p.frames == frames + (o.frames + p.frames);
    }
  }

  /** Every message handed on is non-empty and within the limit, and an open
      stream never keeps more than the longest octet-counted frame in progress. */
  lemma {:induction false} ParseBounds(b: Bytes)
    ensures forall i :: 0 <= i < |Parse(b).frames| ==> 1 <= |Parse(b).frames[i]| <= MAX_MESSAGE_BYTES
    ensures !Parse(b).bad ==> |Parse(b).rest| <= MAX_MESSAGE_BYTES + 5
    decreases |b|
  {
    if b != [] {
      StepBounds(b);
      match NextStep(b)
      case Cut(frames, discarded, consumed) => ParseBounds(b[consumed..]);
      case Stop(discarded, rest, bad) =>
    }
  }

  lemma StepBounds(b: Bytes)
    requires b != []
    ensures var s := NextStep(b);
      if s.Cut? then forall i :: 0 <= i < |s.frames| ==> 1 <= |s.frames[i]| <= MAX_MESSAGE_BYTES
      else !s.bad ==> |s.rest| <= MAX_MESSAGE_BYTES + 5
  {
    hide LeadingDigits, DecimalValue, TerminatorAt;
    var digits := LeadingDigits(b, 7);
    if 0 < digits < |b| && b[0] != ZERO {
      DecimalLowerBound(b[..digits]);
      LargePowers();
    }
  }

  lemma LargePowers()
    ensures PowerOfTen(5) == 100000 && PowerOfTen(6) == 1000000
  {
    assert PowerOfTen(1) == 10 && PowerOfTen(3) == 1000;
  }

  // ── The incremental object ─────────────────────────────────────────────────

  datatype PushResult = Frames(frames: seq<Bytes>, oversized: nat) | FramingError

  class Framer {
    var buf: Bytes

    constructor ()
      ensures buf == []
    {
      buf := [];
    }

    /** Non-transparent framing: cut the first line off, or keep waiting for its
        terminator, or discard a run that has outgrown the limit. */
    method CutText() returns (step: Step)
      requires buf != [] && OctetCounted(buf) == NotOctetCounted
      modifies this
      ensures step == NextStep(old(buf))
      ensures buf == if step.Cut? then old(buf)[step.consumed..] else step.rest
    {
      hide OctetCounted, TerminatorAt;
      var pos := TerminatorAt(buf);
      if pos < |buf| {
        var line := ChopCr(buf[..pos]);
        buf := buf[pos + 1..];
        if |line| > MAX_MESSAGE_BYTES {
          return Cut([], 1, pos + 1);
        } else if line != [] {
          return Cut([line], 0, pos + 1);
        }
        return Cut([], 0, pos + 1);
      }
      if |buf| > MAX_MESSAGE_BYTES {
        buf := [];
        return Stop(1, buf, false);
      }
      return Stop(0, buf, false);
    }

    /** One turn of the loop in `push`: the octet-counted frame at the head of
        the buffer, else its first line. */
    method CutHead() returns (step: Step)
      requires buf != []
      modifies this
      ensures step == NextStep(old(buf))
      ensures buf == if step.Cut? then old(buf)[step.consumed..] else step.rest
    {
      hide OctetCounted, TerminatorAt;
      match OctetCounted(buf) {
        case Frame(start, len) =>
          step := Cut([buf[start..start + len]], 0, start + len);
          buf := buf[start + len..];
        case NeedMore => step := Stop(0, buf, false);
        case LengthTooLarge => step := Stop(0, buf, true);
        case NotOctetCounted => step := CutText();
      }
    }

    /** Feed bytes; the messages they finished, or a framing error, which loses
        the messages already finished in the same call. */
    method Push(data: Bytes) returns (result: PushResult)
      modifies this
      ensures buf == Parse(old(buf) + data).rest
      ensures var o := Parse(old(buf) + data);
        result == if o.bad then FramingError else Frames(o.frames, o.oversized)
      ensures result.Frames? ==> |buf| <= MAX_MESSAGE_BYTES + 5
    {
      hide NextStep, Parse;
      buf := buf + data;
      ghost var whole := Parse(buf);
      ResidueBound(buf);
      var frames: seq<Bytes>, oversized: nat := [], 0;
      while buf != []
        invariant whole == Parse(buf).After(frames, oversized)
        decreases |buf|
      {
        ghost var before := buf;
        var step := CutHead();
        if step.Stop? {
          StopHere(before, frames, oversized);
          return if step.bad then FramingError else Frames(frames, oversized + step.discarded);
        }
        AppendCut(before, frames, oversized, step);
        frames, oversized := frames + step.frames, oversized + step.discarded;
      }
      return Frames(frames, oversized);
    }

    /** End of the connection: what is left, without trailing line ends, is the
        last message unless it is empty or too long. */
    method Finish() returns (last: Option<Bytes>)
      modifies this
      ensures buf == [] && last == LastMessage(old(buf))
    {
      var rest := buf;
      buf := [];
      while rest != [] && (IsTerminator(rest[|rest| - 1]) || rest[|rest| - 1] == CR)
        invariant TrimLineEnds(rest) == TrimLineEnds(old(buf))
      {
        rest := rest[..|rest| - 1];
      }
      if rest == [] || |rest| > MAX_MESSAGE_BYTES {
        return None;
      }
      return Some(rest);
    }
  }

  function TrimLineEnds(b: Bytes): Bytes {
    if b != [] && (IsTerminator(b[|b| - 1]) || b[|b| - 1] == CR) then TrimLineEnds(b[..|b| - 1]) else b
  }

  function LastMessage(b: Bytes): Option<Bytes> {
    var rest := TrimLineEnds(b);
    if rest == [] || |rest| > MAX_MESSAGE_BYTES then None else Some(rest)
  }

  // ── Independence of how TCP splits the stream ──────────────────────────────

  /** A text run at the head of the buffer does not outgrow the limit before
      its terminator is seen. It may reach one byte more: unterminated, or
      terminated without a CR, it is discarded and counted once either way. */
  predicate RunFits(b: Bytes)
    requires b != []
  {
    OctetCounted(b) == NotOctetCounted ==>
      var pos := TerminatorAt(b);
      pos <= MAX_MESSAGE_BYTES
      || (pos == MAX_MESSAGE_BYTES + 1 && (pos < |b| ==> b[pos - 1] != CR))
  }

  predicate NoOverlongRun(b: Bytes)
    decreases |b|
  {
    b != [] ==> RunFits(b) && (NextStep(b).Cut? ==> NoOverlongRun(b[NextStep(b).consumed..]))
  }

  /** One connection: what was delivered and dropped, the framer's buffer, and
      whether a framing error closed it. */
  datatype Connection = Connection(frames: seq<Bytes>, dropped: nat, rest: Bytes, closed: bool) {
    function Read(chunk: Bytes): Connection {
      if closed then this
      else
        var o := Parse(rest + chunk);
        if o.bad then this.(dropped := dropped + 1, closed := true)
        else Connection(frames + o.frames, dropped + o.oversized, o.rest, false)
    }
  }

  function Receive(chunks: seq<Bytes>): Connection {
    if chunks == [] then Connection([], 0, [], false)
    else Receive(chunks[..|chunks| - 1]).Read(chunks[|chunks| - 1])
  }

  function Flatten(chunks: seq<Bytes>): Bytes {
    if chunks == [] then [] else Flatten(chunks[..|chunks| - 1]) + chunks[|chunks| - 1]
  }

  /** The connection saw what one push of the whole stream yields. On a framing
      error both are closed, and the connection delivered a part of it. */
  predicate Agrees(c: Connection, whole: Outcome) {
    && c.closed == whole.bad
    && c.frames <= whole.frames
    && (!whole.bad ==> c.frames == whole.frames && c.dropped == whole.oversized && c.rest == whole.rest)
  }

  lemma DropAppend(a: Bytes, c: Bytes, n: nat)
    requires n <= |a|
    ensures (a + c)[n..] == a[n..] + c
  {}

  /** A message cut off the head is cut off the same whatever follows. */
  lemma CutStable(a: Bytes, c: Bytes)
    requires a != [] && NextStep(a).Cut?
    ensures NextStep(a + c) == NextStep(a)
    ensures RunFits(a + c) == RunFits(a)
    ensures (a + c)[NextStep(a).consumed..] == a[NextStep(a).consumed..] + c
  {
    OctetCountedStable(a, c);
    hide OctetCounted;
    DropAppend(a, c, NextStep(a).consumed);
    match OctetCounted(a)
    case Frame(start, len) =>
      Slice(a, c, start, start + len);
    case NotOctetCounted =>
      var pos := TerminatorAt(a);
      TerminatorUnique(a + c, pos);
      hide TerminatorAt;
      Prefix(a, c, pos);
  }

  lemma Slice(a: Bytes, c: Bytes, from: nat, to: nat)
    requires from <= to <= |a|
    ensures (a + c)[from..to] == a[from..to]
  {}

  lemma Prefix(a: Bytes, c: Bytes, n: nat)
    requires n <= |a|
    ensures (a + c)[..n] == a[..n]
  {}

  /** Parsing a stream in two reads is parsing it in one. */
  lemma {:induction false} ParseInTwo(a: Bytes, c: Bytes)
    requires NoOverlongRun(a + c)
    ensures Parse(a + c) == Parse(a).Then(c)
    ensures NoOverlongRun(a)
    decreases |a|
  {
    hide NextStep, RunFits;
    if a == [] {
      assert a + c == c && Parse(a) == Outcome([], 0, [], false);
      NothingBefore(Parse(c));
    } else if NextStep(a).Cut? {
      var s := NextStep(a);
      CutStable(a, c);
      ParseInTwo(a[s.consumed..], c);
      AfterThen(Parse(a[s.consumed..]), s.frames, s.discarded, c);
    } else {
      StopInTwo(a, c);
    }
  }

  lemma StopInTwo(a: Bytes, c: Bytes)
    requires a != [] && NextStep(a).Stop? && NoOverlongRun(a + c)
    ensures Parse(a + c) == Parse(a).Then(c)
    ensures NoOverlongRun(a)
  {
    if OctetCounted(a) == LengthTooLarge {
      OctetCountedStable(a, c);
      hide OctetCounted;
    } else if OctetCounted(a) == NotOctetCounted && |a| > MAX_MESSAGE_BYTES {
      FullRunInTwo(a, c);
    } else {
      ShortRunFits(a);
      hide OctetCounted, TerminatorAt, RunFits;
      WaitsInTwo(a, c);
    }
  }

  lemma ShortRunFits(a: Bytes)
    requires a != [] && (OctetCounted(a) != NotOctetCounted || |a| <= MAX_MESSAGE_BYTES)
    ensures RunFits(a)
  {
    hide OctetCounted;
  }

  lemma WaitsInTwo(a: Bytes, c: Bytes)
    requires a != [] && NextStep(a) == Stop(0, a, false)
    ensures Parse(a + c) == Parse(a).Then(c)
  {
    hide NextStep;
    assert Parse(a) == Outcome([], 0, a, false);
    hide Parse;
    NothingBefore(Parse(a + c));
  }

  lemma ParseTerminatorFirst(c: Bytes)
    requires c != [] && IsTerminator(c[0])
    ensures Parse(c) == Parse(c[1..])
  {
    TerminatorUnique(c, 0);
    assert c[..0] == [];
    assert NextStep(c) == Cut([], 0, 1);
  }

  /** A line one byte over the limit is discarded whole. */
  lemma ParseFullRun(a: Bytes, c: Bytes)
    requires a != [] && OctetCounted(a) == NotOctetCounted && TerminatorAt(a) == |a| > MAX_MESSAGE_BYTES
    requires c != [] && IsTerminator(c[0]) && a[|a| - 1] != CR
    ensures Parse(a + c) == Parse(c[1..]).After([], 1)
  {
    hide Parse, NextStep, TerminatorAt, OctetCounted;
    FullRunStep(a, c);
    var cut := Cut([], 1, |a| + 1);
    AppendCut(a + c, [], 0, cut);
    assert (a + c)[cut.consumed..] == c[1..];
    NothingBefore(Parse(a + c));
  }

  lemma NothingBefore(o: Outcome)
    ensures o.After([], 0) == o
  {}

  lemma FullRunStep(a: Bytes, c: Bytes)
    requires a != [] && OctetCounted(a) == NotOctetCounted && TerminatorAt(a) == |a| > MAX_MESSAGE_BYTES
    requires c != [] && IsTerminator(c[0]) && a[|a| - 1] != CR
    ensures NextStep(a + c) == Cut([], 1, |a| + 1)
  {
    OctetCountedStable(a, c);
    TerminatorBehind(a, c);
    hide OctetCounted, TerminatorAt, IsTerminator;
    Prefix(a, c, |a|);
    assert a[..|a|] == a && ChopCr(a) == a;
  }

  lemma TerminatorBehind(a: Bytes, c: Bytes)
    requires TerminatorAt(a) == |a| && c != [] && IsTerminator(c[0])
    ensures TerminatorAt(a + c) == |a|
  {
    hide IsTerminator;
    TerminatorUnique(a + c, |a|);
  }

  /** The one run that is both discarded early and still agrees. */
  lemma FullRunInTwo(a: Bytes, c: Bytes)
    requires a != [] && OctetCounted(a) == NotOctetCounted && TerminatorAt(a) == |a| > MAX_MESSAGE_BYTES
    requires NoOverlongRun(a + c)
    ensures Parse(a + c) == Parse(a).Then(c)
    ensures NoOverlongRun(a)
  {
    OctetCountedStable(a, c);
    FullRunShape(a, c);
    assert Parse(a) == Outcome([], 1, [], false);
    if c == [] {
      assert a + c == a && [] + c == [];
    } else {
      ParseFullRun(a, c);
      ParseTerminatorFirst(c);
      assert [] + c == c;
    }
  }

  lemma FullRunShape(a: Bytes, c: Bytes)
    requires a != [] && OctetCounted(a) == OctetCounted(a + c) == NotOctetCounted
    requires TerminatorAt(a) == |a| > MAX_MESSAGE_BYTES && NoOverlongRun(a + c)
    ensures |a| == MAX_MESSAGE_BYTES + 1 && RunFits(a)
    ensures c != [] ==> IsTerminator(c[0]) && a[|a| - 1] != CR
  {
    hide OctetCounted;
    var pos := TerminatorAt(a + c);
    assert pos >= |a| by {
      assert forall i :: 0 <= i < |a| ==> (a + c)[i] == a[i];
    }
    assert RunFits(a + c);
    if c != [] { assert c[0] == (a + c)[|a|]; }
  }

  /** Sufficiency: without an overlong run every split yields the same result. */
  lemma {:induction false} AnySplitAgrees(chunks: seq<Bytes>)
    requires NoOverlongRun(Flatten(chunks))
    ensures Agrees(Receive(chunks), Parse(Flatten(chunks)))
  {
    if chunks != [] {
      var init, last := chunks[..|chunks| - 1], chunks[|chunks| - 1];
      ParseInTwo(Flatten(init), last);
      AnySplitAgrees(init);
    }
  }

  /** Reading `a`, then `c`, does not give what reading both at once gives. */
  predicate SplitMatters(a: Bytes, c: Bytes) {
    var two, one := Parse(a).Then(c), Parse(a + c);
    && !Parse(a).bad && !two.bad && !one.bad
    && (|two.frames| != |one.frames| || two.rest != one.rest)
  }

  /** Necessity: an overlong run has a prefix and a split point that matter. */
  lemma {:induction false} OverlongRunDisagrees(b: Bytes) returns (a: Bytes, c: Bytes)
    requires !NoOverlongRun(b)
    ensures a + c <= b && SplitMatters(a, c)
    decreases |b|
  {
    hide OctetCounted, Parse;
    if !RunFits(b) {
      a, c := OverlongRunBreaks(b, MAX_MESSAGE_BYTES + 1);
    } else {
      var head, tail := b[..NextStep(b).consumed], b[NextStep(b).consumed..];
      HeadCutsAlike(b);
      var a1, c1 := OverlongRunDisagrees(tail);
      SplitMattersBehind(head, a1, c1);
      a, c := head + a1, c1;
      assert a + c == head + (a1 + c1);
      assert b == head + tail;
    }
  }

  lemma SplitMattersBehind(head: Bytes, a: Bytes, c: Bytes)
    requires head != [] && NextStep(head).Cut? && NextStep(head).consumed == |head|
    requires SplitMatters(a, c)
    ensures SplitMatters(head + a, c)
  {
    hide NextStep, OctetCounted;
    var s := NextStep(head);
    ParseBehind(head, a);
    ParseBehind(head, a + c);
    AfterThen(Parse(a), s.frames, s.discarded, c);
    assert head + a + c == head + (a + c);
  }

  lemma ParseBehind(head: Bytes, x: Bytes)
    requires head != [] && NextStep(head).Cut? && NextStep(head).consumed == |head|
    ensures Parse(head + x) == Parse(x).After(NextStep(head).frames, NextStep(head).discarded)
  {
    CutStable(head, x);
    assert head[|head|..] + x == x;
  }

  lemma HeadCutsAlike(b: Bytes)
    requires b != [] && NextStep(b).Cut?
    ensures NextStep(b[..NextStep(b).consumed]) == NextStep(b)
  {
    hide OctetCounted, TerminatorAt;
    if OctetCounted(b).Frame? {
      HeadIsFrame(b);
      var o := OctetCounted(b);
      assert b[..o.start + o.len][o.start..o.start + o.len] == b[o.start..o.start + o.len];
    } else {
      HeadIsLine(b, TerminatorAt(b));
    }
  }

  lemma HeadIsLine(b: Bytes, pos: nat)
    requires b != [] && OctetCounted(b) == NotOctetCounted
    requires pos == TerminatorAt(b) < |b|
    ensures var head := b[..pos + 1];
      OctetCounted(head) == NotOctetCounted && TerminatorAt(head) == pos && head[..pos] == b[..pos]
  {
    hide OctetCounted, TerminatorAt;
    var head := b[..pos + 1];
    SplitAt(b, pos + 1);
    TextPrefixIsText(head, b[pos + 1..]);
    TerminatorUnique(head, pos);
  }

  lemma HeadIsFrame(b: Bytes)
    requires b != [] && OctetCounted(b).Frame?
    ensures var o := OctetCounted(b); 0 < o.start + o.len <= |b| && OctetCounted(b[..o.start + o.len]) == o
  {
    var o := OctetCounted(b);
    var head := b[..o.start + o.len];
    DecimalLowerBound(b[..o.start - 1]);
    LeadingDigitsOfHead(b, o.start - 1, o.start + o.len, 7);
    hide LeadingDigits, DecimalValue;
    assert head[..o.start - 1] == b[..o.start - 1];
  }

  lemma {:induction false} LeadingDigitsOfHead(b: Bytes, n: nat, m: nat, limit: nat)
    requires n < m <= |b| && LeadingDigits(b, limit) == n
    ensures LeadingDigits(b[..m], limit) == n
  {
    if n > 0 {
      assert b[..m][1..] == b[1..][..m - 1];
      LeadingDigitsOfHead(b[1..], n - 1, m - 1, limit - 1);
    }
  }

  lemma SplitAt(b: Bytes, n: nat)
    requires n <= |b|
    ensures b == b[..n] + b[n..]
  {}

  lemma OverlongRunBreaks(b: Bytes, n: nat) returns (a: Bytes, c: Bytes)
    requires n == MAX_MESSAGE_BYTES + 1
    requires b != [] && !RunFits(b)
    ensures a + c <= b && SplitMatters(a, c)
  {
    hide OctetCounted, Parse, TerminatorAt;
    a, c := b[..n], [b[n]];
    var ac := b[..n + 1];
    SplitAt(b, n);
    SplitAt(b, n + 1);
    assert a + c == ac;
    TextPrefixIsText(a, b[n..]);
    TextPrefixIsText(ac, b[n + 1..]);
    TerminatorUnique(a, n);
    if IsTerminator(b[n]) {
      TerminatorUnique(ac, n);
      assert ac[..n] == a;
      LineSplitMatters(a, c);
    } else {
      TerminatorUnique(ac, n + 1);
      RunSplitMatters(a, c);
    }
  }

  /** A line of the maximum length ended by CR LF: split after the CR it is lost. */
  lemma LineSplitMatters(a: Bytes, c: Bytes)
    requires |a| == MAX_MESSAGE_BYTES + 1 && OctetCounted(a) == OctetCounted(a + c) == NotOctetCounted
    requires |c| == 1 && IsTerminator(c[0]) && a[|a| - 1] == CR
    requires TerminatorAt(a) == TerminatorAt(a + c) == |a|
    ensures SplitMatters(a, c)
  {
    hide OctetCounted, TerminatorAt;
    assert Parse(a) == Outcome([], 1, [], false);
    ParseTerminatorFirst(c);
    assert [] + c == c && c[1..] == [];
    var line := a[..|a| - 1];
    assert (a + c)[..|a|] == a && (a + c)[|a| + 1..] == [];
    assert NextStep(a + c) == Cut([line], 0, |a| + 1);
  }

  /** A run still open one byte past the limit: split there, that byte survives. */
  lemma RunSplitMatters(a: Bytes, c: Bytes)
    requires |a| == MAX_MESSAGE_BYTES + 1 && OctetCounted(a) == OctetCounted(a + c) == NotOctetCounted
    requires |c| == 1 && !IsTerminator(c[0])
    requires TerminatorAt(a) == |a| && TerminatorAt(a + c) == |a + c|
    ensures SplitMatters(a, c)
  {
    TerminatorUnique(c, 1);
    assert NextStep(c) == Stop(0, c, false);
    hide OctetCounted, TerminatorAt;
    assert Parse(a) == Outcome([], 1, [], false);
    assert Parse(a + c) == Outcome([], 1, [], false);
    assert [] + c == c;
  }

  /** Framing does not depend on how TCP splits a stream, at any point of it,
      exactly when the stream holds no overlong text run. */
  lemma {:induction false} SplitIndependence(stream: Bytes)
    ensures NoOverlongRun(stream) <==>
            forall chunks: seq<Bytes> :: Flatten(chunks) <= stream ==> Agrees(Receive(chunks), Parse(Flatten(chunks)))
  {
    if NoOverlongRun(stream) {
      forall chunks: seq<Bytes> | Flatten(chunks) <= stream
        ensures Agrees(Receive(chunks), Parse(Flatten(chunks)))
      {
        var f := Flatten(chunks);
        assert stream == f + stream[|f|..];
        ParseInTwo(f, stream[|f|..]);
        AnySplitAgrees(chunks);
      }
    } else {
      var a, c := OverlongRunDisagrees(stream);
      TwoReads(a, c);
      hide Parse;
      assert !Agrees(Receive([a, c]), Parse(Flatten([a, c])));
    }
  }

  lemma OneRead(a: Bytes)
    ensures Flatten([a]) == a
    ensures var o := Parse(a);
      Receive([a]) == if o.bad then Connection([], 1, [], true) else Connection(o.frames, o.oversized, o.rest, false)
  {
    hide Parse;
    var chunks := [a];
    assert chunks[..0] == [] && chunks[0] == a;
    assert [] + a == a;
    var none: seq<Bytes> := [];
    assert none + Parse(a).frames == Parse(a).frames;
  }

  lemma TwoReads(a: Bytes, c: Bytes)
    ensures Flatten([a, c]) == a + c
    ensures !Parse(a).bad ==>
      var two := Parse(a).Then(c);
      if two.bad then Receive([a, c]).closed && Receive([a, c]).frames == Parse(a).frames
      else Receive([a, c]) == Connection(two.frames, two.oversized, two.rest, false)
  {
    hide Parse;
    OneRead(a);
    var chunks := [a, c];
    assert chunks[..1] == [a] && chunks[1] == c;
  }
}
