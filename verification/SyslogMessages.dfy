/**
  The sender's side of RFC 6587: messages framed by octet counting (section
  3.4.1) or by a terminator (section 3.4.2), and what the relay makes of them.
 */
module SyslogMessages {
  import opened Wrappers
  import opened SyslogFraming

  datatype Framing = Counted | Lf | CrLf | Nul

  datatype Message = Message(body: Bytes, framing: Framing) {
    /** What a sender may frame this way. Text framing cannot carry its own
        terminators, a trailing CR would be taken for half of CR LF, and the text
        must not begin with a number, a space and `<`. */
    ghost predicate Valid() {
      && 1 <= |body| <= MAX_MESSAGE_BYTES
      && if framing == Counted then body[0] == LESS else IsText(body, framing) && !LooksCounted(body)
    }

    /** The one line the relay may lose: at the limit, ended by CR LF. */
    predicate AtLimit() { framing == CrLf && |body| == MAX_MESSAGE_BYTES }
  }

  predicate IsText(body: Bytes, framing: Framing)
    requires body != []
  {
    && (forall i :: 0 <= i < |body| ==> !IsTerminator(body[i]))
    && (framing != CrLf ==> body[|body| - 1] != CR)
  }

  /** Terminating a line does not make it look counted. */
  lemma EncodedIsText(m: Message)
    requires m.Valid() && m.framing != Counted
    ensures OctetCounted(Encode(m)) == NotOctetCounted
  {
    var e := Encode(m);
    if k: nat :| CountedHead(e, k) {
      assert e[k + 1] == 60 && e[|m.body|] != 60 && e[|e| - 1] != 60;
      assert e[..|m.body|] == m.body;
      assert CountedHead(m.body, k);
    }
    TextIffNotCounted(e);
  }

  function Decimal(n: nat): (ds: Bytes)
    ensures ds != [] && forall i :: 0 <= i < |ds| ==> IsDigit(ds[i])
    ensures DecimalValue(ds) == n
    ensures n >= 1 ==> ds[0] != ZERO
    ensures n < 1000000 ==> |ds| <= 6
    ensures n < 100000 ==> |ds| <= 5
    ensures n < 10000 ==> |ds| <= 4
    ensures n < 1000 ==> |ds| <= 3
    ensures n < 100 ==> |ds| <= 2
    ensures n < 10 ==> |ds| == 1
  {
    if n < 10 then
      assert DecimalValue([]) == 0 && [ZERO + n][..0] == [];
      [ZERO + n]
    else
      var init, last: Byte := Decimal(n / 10), ZERO + n % 10;
      assert (init + [last])[..|init|] == init;
      init + [last]
  }

  function Encode(m: Message): (e: Bytes)
    ensures e != []
  {
    match m.framing
    case Counted => Decimal(|m.body|) + [SPACE] + m.body
    case Lf => m.body + [LF]
    case CrLf => m.body + [CR, LF]
    case Nul => m.body + [NUL]
  }

  function EncodeAll(ms: seq<Message>): Bytes {
    if ms == [] then [] else Encode(ms[0]) + EncodeAll(ms[1..])
  }

  function Bodies(ms: seq<Message>): seq<Bytes> {
    if ms == [] then [] else [ms[0].body] + Bodies(ms[1..])
  }

  // ── One framed message is cut off exactly ──────────────────────────────────

  lemma {:induction false} LeadingDigitsOf(ds: Bytes, x: Bytes, limit: nat)
    requires forall i :: 0 <= i < |ds| ==> IsDigit(ds[i])
    requires |ds| < limit && x != [] && !IsDigit(x[0])
    ensures LeadingDigits(ds + x, limit) == |ds|
  {
    if ds == [] {
      assert ds + x == x;
    } else {
      assert (ds + x)[1..] == ds[1..] + x;
      LeadingDigitsOf(ds[1..], x, limit - 1);
    }
  }

  lemma CountedIsFrame(m: Message)
    requires m.Valid() && m.framing == Counted
    ensures OctetCounted(Encode(m)) == Frame(|Decimal(|m.body|)| + 1, |m.body|)
  {
    var ds := Decimal(|m.body|);
    var e := Encode(m);
    assert e == ds + ([SPACE] + m.body);
    LeadingDigitsOf(ds, [SPACE] + m.body, 7);
    assert e[..|ds|] == ds && e[|ds|] == SPACE && e[|ds| + 1] == LESS;
    assert IsDigit(ds[0]);
    hide Decimal, DecimalValue, LeadingDigits;
  }

  lemma CutsExactly(m: Message)
    requires m.Valid()
    ensures NextStep(Encode(m)) == Cut([m.body], 0, |Encode(m)|)
  {
    hide OctetCounted, Decimal;
    if m.framing == Counted { CutsCounted(m); } else { CutsLine(m); }
  }

  lemma CutsCounted(m: Message)
    requires m.Valid() && m.framing == Counted
    ensures NextStep(Encode(m)) == Cut([m.body], 0, |Encode(m)|)
  {
    hide OctetCounted, Decimal, TerminatorAt, LooksCounted, IsText;
    CountedIsFrame(m);
    var e, n := Encode(m), |Decimal(|m.body|)|;
    assert e[n + 1..n + 1 + |m.body|] == m.body;
  }

  lemma CutsLine(m: Message)
    requires m.Valid() && m.framing != Counted
    ensures NextStep(Encode(m)) == Cut([m.body], 0, |Encode(m)|)
  {
    LineOf(m);
    hide OctetCounted, Decimal, TerminatorAt;
    var e := Encode(m);
    var pos := |e| - 1;
    assert e[..pos] == if m.framing == CrLf then m.body + [CR] else m.body;
    assert ChopCr(e[..pos]) == m.body;
  }

  lemma LineOf(m: Message)
    requires m.Valid() && m.framing != Counted
    ensures OctetCounted(Encode(m)) == NotOctetCounted
    ensures TerminatorAt(Encode(m)) == |Encode(m)| - 1
  {
    var e := Encode(m);
    EncodedIsText(m);
    TerminatorUnique(e, |e| - 1);
  }

  // ── What is not handed on ──────────────────────────────────────────────────

  /** A line without its terminator and one CR. */
  predicate LineOfText(line: Bytes, content: Bytes) {
    if line != [] && line[|line| - 1] == 13 then content + [13] == line else content == line
  }

  /** Any line of text, whatever its length: handed on if it has 1 to 65536 bytes,
      passed over if it is empty, discarded and counted if it is longer. */
  lemma LineOfAnyLength(line: Bytes, content: Bytes, end: Byte, tail: Bytes)
    requires (forall i :: 0 <= i < |line| ==> line[i] != 10 && line[i] != 0) && (end == 10 || end == 0)
    requires !LooksCounted(line + [end]) && LineOfText(line, content)
    ensures Parse(line + [end] + tail) == Parse(tail).After(
      if 1 <= |content| <= 65536 then [content] else [], if |content| > 65536 then 1 else 0)
  {
    var b := line + [end];
    TextIffNotCounted(b);
    TerminatorUnique(b, |line|);
    hide OctetCounted, TerminatorAt, LooksCounted, Parse;
    assert b[..|line|] == line && ChopCr(line) == content;
    ParseBehind(b, tail);
  }

  /** Text without a terminator stays buffered up to the limit and is discarded and
      counted beyond it. */
  lemma OpenLine(b: Bytes)
    requires b != [] && (forall i :: 0 <= i < |b| ==> b[i] != 10 && b[i] != 0) && OctetCounted(b) == NotOctetCounted
    ensures Parse(b) == if |b| <= 65536 then Outcome([], 0, b, false) else Outcome([], 1, [], false)
  {
    TerminatorUnique(b, |b|);
    hide OctetCounted, TerminatorAt;
  }

  /** An announced length over the limit breaks the stream. */
  lemma CountedTooLong(n: nat, tail: Bytes)
    requires 65536 < n < 1000000
    ensures Parse(Decimal(n) + [SPACE, LESS] + tail).bad
  {
    var ds := Decimal(n);
    var b := ds + [SPACE, LESS] + tail;
    assert b == ds + ([SPACE, LESS] + tail);
    LeadingDigitsOf(ds, [SPACE, LESS] + tail, 7);
    assert b[..|ds|] == ds && b[|ds|] == SPACE && b[|ds| + 1] == LESS;
    assert IsDigit(ds[0]) && b[0] == ds[0];
    hide Decimal, DecimalValue, LeadingDigits, TerminatorAt;
    assert OctetCounted(b) == LengthTooLarge;
    hide OctetCounted;
  }

  /** What the end of a connection hands on: the rest without the line ends behind
      it, if that has 1 to 65536 bytes. */
  lemma LastMessageIff(b: Bytes, m: Bytes)
    ensures LastMessage(b) == Some(m) <==>
      && 1 <= |m| <= 65536 && m[|m| - 1] !in {13, 10, 0} && m <= b
      && forall i :: |m| <= i < |b| ==> b[i] in {13, 10, 0}
  {
    TrimExact(b);
    var t := TrimLineEnds(b);
    hide TrimLineEnds;
    if m <= b && m != [] && m[|m| - 1] !in {13, 10, 0} && forall i :: |m| <= i < |b| ==> b[i] in {13, 10, 0} {
      assert m[|m| - 1] == b[|m| - 1];
      assert |m| <= |t|;
      assert |t| > 0 && t[|t| - 1] == b[|t| - 1];
      assert |t| == |m|;
      assert t == b[..|t|] == m;
    }
  }

  lemma {:induction false} TrimExact(b: Bytes)
    ensures var t := TrimLineEnds(b);
      && t <= b && (t != [] ==> t[|t| - 1] !in {13, 10, 0})
      && forall i :: |t| <= i < |b| ==> b[i] in {13, 10, 0}
  {
    if b != [] && (IsTerminator(b[|b| - 1]) || b[|b| - 1] == CR) { TrimExact(b[..|b| - 1]); }
  }

  // ── Round trip ─────────────────────────────────────────────────────────────

  /** Framed messages come back unchanged and in order, whatever follows them. */
  lemma {:induction false} RoundTripBefore(ms: seq<Message>, tail: Bytes)
    requires forall i :: 0 <= i < |ms| ==> ms[i].Valid()
    ensures Parse(EncodeAll(ms) + tail) == Parse(tail).After(Bodies(ms), 0)
  {
    hide NextStep, Encode, Parse;
    if ms == [] {
      assert EncodeAll(ms) + tail == tail;
      NothingBefore(Parse(tail));
    } else {
      CutsExactly(ms[0]);
      var rest := EncodeAll(ms[1..]) + tail;
      assert EncodeAll(ms) + tail == Encode(ms[0]) + rest;
      ParseBehind(Encode(ms[0]), rest);
      RoundTripBefore(ms[1..], tail);
      AfterTwice(Parse(tail), [ms[0].body], Bodies(ms[1..]));
    }
  }

  lemma AfterTwice(o: Outcome, a: seq<Bytes>, b: seq<Bytes>)
    ensures o.After(b, 0).After(a, 0) == o.After(a + b, 0)
  {
    assert a + (b + o.frames) == (a + b) + o.frames;
  }

  /** Text without a terminator, not (the start of) a complete counted frame. */
  predicate Unterminated(last: Bytes) {
    last != [] ==>
      |last| <= MAX_MESSAGE_BYTES && IsText(last, Lf) && OctetCounted(last) in {NotOctetCounted, NeedMore}
  }

  /** Pushing framed messages yields exactly their bodies and an empty buffer;
      an unterminated last line stays buffered and is returned at the end. */
  lemma {:induction false} RoundTrip(ms: seq<Message>, last: Bytes)
    requires forall i :: 0 <= i < |ms| ==> ms[i].Valid()
    requires Unterminated(last)
    ensures Parse(EncodeAll(ms) + last) == Outcome(Bodies(ms), 0, last, false)
    ensures LastMessage(last) == if last == [] then None else Some(last)
  {
    hide EncodeAll, Parse, OctetCounted, Encode;
    RoundTripBefore(ms, last);
    UnterminatedStays(last);
    assert Bodies(ms) + [] == Bodies(ms);
  }

  lemma UnterminatedStays(last: Bytes)
    requires Unterminated(last)
    ensures Parse(last) == Outcome([], 0, last, false)
    ensures LastMessage(last) == if last == [] then None else Some(last)
  {
    hide OctetCounted, Parse;
    if last == [] {
      NothingToParse();
    } else {
      TerminatorUnique(last, |last|);
      hide TerminatorAt;
      StopAlone(last);
    }
  }

  lemma NothingToParse()
    ensures Parse([]) == Outcome([], 0, [], false)
  {}

  lemma StopAlone(b: Bytes)
    requires b != [] && NextStep(b) == Stop(0, b, false)
    ensures Parse(b) == Outcome([], 0, b, false)
  {
    hide NextStep;
  }

  // ── Round trip under every split of the stream ─────────────────────────────

  lemma {:induction false} EncodedRuns(ms: seq<Message>)
    requires forall i :: 0 <= i < |ms| ==> ms[i].Valid() && !ms[i].AtLimit()
    ensures NoOverlongRun(EncodeAll(ms))
  {
    hide Encode, NextStep, OctetCounted;
    if ms != [] {
      var e := Encode(ms[0]);
      CutsExactly(ms[0]);
      EncodedRunFits(ms[0]);
      CutStable(e, EncodeAll(ms[1..]));
      assert e[|e|..] + EncodeAll(ms[1..]) == EncodeAll(ms[1..]);
      EncodedRuns(ms[1..]);
    }
  }

  lemma EncodedRunFits(m: Message)
    requires m.Valid() && !m.AtLimit()
    ensures RunFits(Encode(m))
  {
    if m.framing == Counted { CountedIsFrame(m); } else { LineOf(m); }
    hide OctetCounted, TerminatorAt, Decimal;
  }

  lemma {:induction false} BodiesSplit(ms: seq<Message>, i: nat)
    requires i < |ms|
    ensures EncodeAll(ms) == EncodeAll(ms[..i]) + Encode(ms[i]) + EncodeAll(ms[i + 1..])
    ensures |Bodies(ms)| == |ms|
  {
    hide Encode;
    if i == 0 {
      assert ms[..0] == [];
    } else {
      BodiesSplit(ms[1..], i - 1);
      assert ms[1..][..i - 1] == ms[..i][1..] && ms[1..][i..] == ms[i + 1..];
    }
    BodiesLength(ms);
  }

  lemma {:induction false} BodiesLength(ms: seq<Message>)
    ensures |Bodies(ms)| == |ms|
  {
    if ms != [] { BodiesLength(ms[1..]); }
  }

  /** Split between its CR and its LF, a line at the limit is discarded. */
  lemma LineAtLimitIsLost(before: seq<Message>, m: Message)
    requires forall j :: 0 <= j < |before| ==> before[j].Valid()
    requires m.Valid() && m.AtLimit()
    ensures Parse(EncodeAll(before) + (m.body + [CR])) == Outcome(Bodies(before), 1, [], false)
  {
    var a := m.body + [CR];
    EncodedIsText(m);
    assert a + [LF] == Encode(m);
    TextPrefixIsText(a, [LF]);
    TerminatorUnique(a, |a|);
    hide TerminatorAt, OctetCounted;
    assert Parse(a) == Outcome([], 1, [], false);
    hide Parse;
    RoundTripBefore(before, a);
    assert Bodies(before) + [] == Bodies(before);
  }

  lemma EmptyLineBefore(after: seq<Message>)
    requires forall j :: 0 <= j < |after| ==> after[j].Valid()
    ensures Parse([LF] + EncodeAll(after)) == Outcome(Bodies(after), 0, [], false)
  {
    hide Parse;
    var c := [LF] + EncodeAll(after);
    assert c[1..] == EncodeAll(after);
    ParseTerminatorFirst(c);
    RoundTrip(after, []);
    assert EncodeAll(after) + [] == EncodeAll(after);
  }

  lemma LostUnderSomeSplit(ms: seq<Message>, i: nat) returns (chunks: seq<Bytes>)
    requires forall j :: 0 <= j < |ms| ==> ms[j].Valid()
    requires i < |ms| && ms[i].AtLimit()
    ensures Flatten(chunks) == EncodeAll(ms)
    ensures |Receive(chunks).frames| == |ms| - 1
  {
    hide Parse, Receive, Flatten, EncodeAll, Bodies;
    var before, m, after := ms[..i], ms[i], ms[i + 1..];
    var a, c := EncodeAll(before) + (m.body + [CR]), [LF] + EncodeAll(after);
    BodiesSplit(ms, i);
    assert a + c == EncodeAll(before) + Encode(m) + EncodeAll(after);
    hide Encode;
    LineAtLimitIsLost(before, m);
    EmptyLineBefore(after);
    assert [] + c == c;
    BodiesLength(before);
    BodiesLength(after);
    TwoReads(a, c);
    chunks := [a, c];
  }

  lemma ArriveUnderSplit(ms: seq<Message>, chunks: seq<Bytes>)
    requires forall i :: 0 <= i < |ms| ==> ms[i].Valid() && !ms[i].AtLimit()
    requires Flatten(chunks) == EncodeAll(ms)
    ensures Receive(chunks) == Connection(Bodies(ms), 0, [], false)
  {
    EncodedRuns(ms);
    AnySplitAgrees(chunks);
    RoundTrip(ms, []);
    assert EncodeAll(ms) + [] == EncodeAll(ms);
  }

  /** However TCP splits the stream, exactly the framed messages arrive and
      nothing is dropped, provided no CR LF line is as long as the limit, and
      only then. */
  lemma FramedMessagesArrive(ms: seq<Message>)
    requires forall i :: 0 <= i < |ms| ==> ms[i].Valid()
    ensures (forall i :: 0 <= i < |ms| ==> !ms[i].AtLimit()) <==>
            forall chunks: seq<Bytes> :: Flatten(chunks) == EncodeAll(ms) ==>
              Receive(chunks) == Connection(Bodies(ms), 0, [], false)
  {
    if i :| 0 <= i < |ms| && ms[i].AtLimit() {
      var chunks := LostUnderSomeSplit(ms, i);
      BodiesLength(ms);
    } else {
      forall chunks: seq<Bytes> | Flatten(chunks) == EncodeAll(ms)
        ensures Receive(chunks) == Connection(Bodies(ms), 0, [], false)
      {
        ArriveUnderSplit(ms, chunks);
      }
    }
  }

  // ── Framing errors ─────────────────────────────────────────────────────────

  /** However it is split, a stream without an overlong run delivers what reading it
      at once would frame, exactly if it holds no framing error, or no message in
      front of one: an error loses the messages completed in the same read. */
  lemma FramingErrorLosesFrames(stream: Bytes)
    requires NoOverlongRun(stream)
    ensures (forall chunks: seq<Bytes> :: Flatten(chunks) == stream ==> Receive(chunks).frames == Parse(stream).frames)
      <==> !Parse(stream).bad || Parse(stream).frames == []
  {
    hide Parse, NoOverlongRun, Receive, Flatten;
    OneRead(stream);
    if !Parse(stream).bad || Parse(stream).frames == [] {
      forall chunks: seq<Bytes> | Flatten(chunks) == stream
        ensures Receive(chunks).frames == Parse(stream).frames
      {
        AnySplitAgrees(chunks);
      }
    } else {
      assert Flatten([stream]) == stream && Receive([stream]).frames == [];
    }
  }

  const NINE: Byte := ZERO + 9

  /** `<A` and a line feed. */
  const LINE_READ: Bytes := [LESS, 65, LF]

  /** `999999 <`: a length over the limit. */
  const BAD_READ: Bytes := [NINE, NINE, NINE, NINE, NINE, NINE, SPACE, LESS]

  lemma BadReadIsFramingError()
    ensures OctetCounted(BAD_READ) == LengthTooLarge
  {
    LeadingDigitsOf(BAD_READ[..6], BAD_READ[6..], 7);
    assert BAD_READ == BAD_READ[..6] + BAD_READ[6..];
    DecimalLowerBound(BAD_READ[..6]);
    assert PowerOfTen(5) == 100000 by {
      assert PowerOfTen(1) == 10 && PowerOfTen(2) == 100 && PowerOfTen(3) == 1000 && PowerOfTen(4) == 10000;
    }
  }

  lemma LineReadIsCut()
    ensures OctetCounted(LINE_READ) != NeedMore && NextStep(LINE_READ) == Cut([[LESS, 65]], 0, 3)
  {
    var m := Message([LESS, 65], Lf);
    assert m.Valid();
    assert Encode(m) == LINE_READ;
    CutsExactly(m);
  }

  lemma BothReads()
    ensures Parse(LINE_READ) == Outcome([[LESS, 65]], 0, [], false)
    ensures Parse(BAD_READ) == Outcome([], 0, BAD_READ, true)
    ensures Parse(LINE_READ + BAD_READ) == Outcome([[LESS, 65]], 0, BAD_READ, true)
  {
    LineReadIsCut();
    BadReadIsFramingError();
    assert NextStep(BAD_READ) == Stop(0, BAD_READ, true);
    hide OctetCounted, NextStep;
    ParseBehind(LINE_READ, BAD_READ);
    ParseBehind(LINE_READ, []);
    assert LINE_READ + [] == LINE_READ && Parse([]) == Outcome([], 0, [], false);
  }

  lemma NoRunToOutgrow()
    ensures NoOverlongRun(LINE_READ + BAD_READ)
  {
    var m := Message([LESS, 65], Lf);
    assert m.Valid();
    assert Encode(m) == LINE_READ;
    EncodedRunFits(m);
    LineReadIsCut();
    BadReadIsFramingError();
    assert NextStep(BAD_READ).Stop?;
    hide OctetCounted, NextStep, Encode;
    CutStable(LINE_READ, BAD_READ);
    assert LINE_READ[3..] + BAD_READ == BAD_READ;
  }

  /** In two reads the first message arrives, in one read it is lost. */
  lemma FramingErrorExample()
    ensures NoOverlongRun(LINE_READ + BAD_READ)
    ensures Receive([LINE_READ, BAD_READ]) == Connection([[LESS, 65]], 1, [], true)
    ensures Receive([LINE_READ + BAD_READ]) == Connection([], 1, [], true)
  {
    NoRunToOutgrow();
    BothReads();
    OneRead(LINE_READ);
    OneRead(LINE_READ + BAD_READ);
    var both := [LINE_READ, BAD_READ];
    assert both[..1] == [LINE_READ] && [] + BAD_READ == BAD_READ;
    hide Parse, NoOverlongRun;
  }
}
