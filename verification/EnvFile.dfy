/**
  Reading and pinning one value in a dotenv file (sidecar/image_update.py,
  `read_env_value` and `write_env_value`).
 */
module EnvFile {
  import opened Wrappers
  import opened PythonText

  const EXPORT := "export "

  /** A variable name: no white space and no `=`. */
  predicate ValidKey(key: string) {
    key != [] && forall i :: 0 <= i < |key| ==> !IsSpace(key[i]) && key[i] != '='
  }

  /** A line without surrounding white space and without a leading `export`. */
  function Body(line: string): string {
    var stripped := Strip(line);
    if StartsWith(stripped, EXPORT) then LStrip(stripped[|EXPORT|..]) else stripped
  }

  predicate Assigns(line: string, key: string) { StartsWith(Body(line), key + "=") }

  predicate QuoteWrapped(v: string) {
    |v| >= 2 && v[0] == v[|v| - 1] && (v[0] == '"' || v[0] == '\'')
  }

  function Unquote(v: string): string { if QuoteWrapped(v) then v[1..|v| - 1] else v }

  function ValueOf(line: string, key: string): string
    requires Assigns(line, key)
  {
    Unquote(Strip(Body(line)[|key| + 1..]))
  }

  function Assignment(key: string, value: string): string { key + "=" + value }

  /** The value of the last assignment, or the empty string. */
  function ReadLines(lines: seq<string>, key: string): string {
    if lines == [] then ""
    else
      var last := lines[|lines| - 1];
      if Assigns(last, key) then ValueOf(last, key) else ReadLines(lines[..|lines| - 1], key)
  }

  /** The first assignment is replaced, later ones dropped, a missing one added. */
  function WriteLines(lines: seq<string>, key: string, value: string, done: bool): seq<string> {
    if lines == [] then (if done then [] else [Assignment(key, value)])
    else if !Assigns(lines[0], key) then [lines[0]] + WriteLines(lines[1..], key, value, done)
    else if done then WriteLines(lines[1..], key, value, true)
    else [Assignment(key, value)] + WriteLines(lines[1..], key, value, true)
  }

  /** The text of a file, or nothing if there is no file. */
  type File = Option<string>

  function LinesOf(file: File): seq<string> {
    if file.Some? then SplitLines(file.value) else []
  }

  function ReadValue(file: File, key: string): string { ReadLines(LinesOf(file), key) }

  function WriteValue(file: File, key: string, value: string): string {
    JoinLines(WriteLines(LinesOf(file), key, value, false))
  }

  // ── One line ───────────────────────────────────────────────────────────────

  lemma AssignmentBody(key: string, value: string)
    requires ValidKey(key)
    ensures Body(Assignment(key, value)) == key + "=" + RStrip(value)
    ensures Assigns(Assignment(key, value), key)
  {
    var head := key + "=";
    RStripAfter(head, value);
    assert !IsSpace(key[0]);
    assert Strip(Assignment(key, value)) == head + RStrip(value);
    hide Strip, LStrip, RStrip;
    NoExport(key, RStrip(value));
  }

  lemma NoExport(key: string, rest: string)
    requires ValidKey(key)
    ensures !StartsWith(key + "=" + rest, EXPORT) && StartsWith(key + "=" + rest, key + "=")
  {
    var body := key + "=" + rest;
    if |key| > 6 { assert body[6] == key[6]; } else { assert body[|key|] == '='; }
    assert EXPORT[6] == ' ' && IsSpace(' ');
  }

  lemma AssignmentValue(key: string, value: string)
    requires ValidKey(key)
    ensures Assigns(Assignment(key, value), key)
    ensures ValueOf(Assignment(key, value), key) == Unquote(Strip(value))
  {
    AssignmentBody(key, value);
    var body := key + "=" + RStrip(value);
    assert body[|key| + 1..] == RStrip(value);
    StripsCommute(value);
    RStripTwice(value);
    StripsCommute(RStrip(value));
  }

  lemma {:induction false} RStripTwice(s: string)
    ensures RStrip(RStrip(s)) == RStrip(s)
  {
    if s != [] && IsSpace(s[|s| - 1]) { RStripTwice(s[..|s| - 1]); }
  }

  /** A line assigns at most one variable. */
  lemma OneKeyPerLine(line: string, a: string, b: string)
    requires ValidKey(a) && ValidKey(b)
    requires Assigns(line, a) && Assigns(line, b)
    ensures a == b
  {
    var body := Body(line);
    assert body[|a|] == (a + "=")[|a|] == '=' && body[|b|] == (b + "=")[|b|] == '=';
    assert forall i :: 0 <= i < |a| ==> body[i] == (a + "=")[i] == a[i];
    assert forall i :: 0 <= i < |b| ==> body[i] == (b + "=")[i] == b[i];
  }

  // ── Put and get ────────────────────────────────────────────────────────────

  lemma {:induction false} NoneWritten(lines: seq<string>, key: string, value: string)
    ensures forall i :: 0 <= i < |WriteLines(lines, key, value, true)| ==> !Assigns(WriteLines(lines, key, value, true)[i], key)
  {
    hide Assigns, Assignment;
    if lines != [] { NoneWritten(lines[1..], key, value); }
  }

  ghost predicate OnlyAt(lines: seq<string>, key: string, n: nat) {
    n < |lines| && forall i :: 0 <= i < |lines| ==> (Assigns(lines[i], key) <==> i == n)
  }

  lemma OnlyFirst(first: string, rest: seq<string>, key: string)
    requires Assigns(first, key) && forall i :: 0 <= i < |rest| ==> !Assigns(rest[i], key)
    ensures OnlyAt([first] + rest, key, 0)
  {
    hide Assigns;
    assert forall i :: 0 < i < |rest| + 1 ==> ([first] + rest)[i] == rest[i - 1];
  }

  lemma OnlyLater(first: string, rest: seq<string>, key: string, n: nat)
    requires !Assigns(first, key) && OnlyAt(rest, key, n)
    ensures OnlyAt([first] + rest, key, n + 1)
  {
    hide Assigns;
    assert forall i :: 0 < i < |rest| + 1 ==> ([first] + rest)[i] == rest[i - 1];
  }

  /** Exactly one assignment of the key is left, and it is the one written. */
  lemma {:induction false} OneAssignmentLeft(lines: seq<string>, key: string, value: string) returns (n: nat)
    requires ValidKey(key)
    ensures OnlyAt(WriteLines(lines, key, value, false), key, n)
    ensures WriteLines(lines, key, value, false)[n] == Assignment(key, value)
  {
    AssignmentBody(key, value);
    hide Assigns, Assignment, ValidKey, Body, OnlyAt;
    n := 0;
    if lines == [] {
      OnlyFirst(Assignment(key, value), [], key);
      assert [Assignment(key, value)] + [] == [Assignment(key, value)];
    } else if Assigns(lines[0], key) {
      NoneWritten(lines[1..], key, value);
      OnlyFirst(Assignment(key, value), WriteLines(lines[1..], key, value, true), key);
    } else {
      n := OneAssignmentLeft(lines[1..], key, value);
      OnlyLater(lines[0], WriteLines(lines[1..], key, value, false), key, n);
      n := n + 1;
    }
    InRange(WriteLines(lines, key, value, false), key, n);
  }

  lemma InRange(lines: seq<string>, key: string, n: nat)
    requires OnlyAt(lines, key, n)
    ensures n < |lines|
  {}

  lemma {:induction false} ReadOnly(lines: seq<string>, key: string, n: nat)
    requires n < |lines| && Assigns(lines[n], key)
    requires forall i :: n < i < |lines| ==> !Assigns(lines[i], key)
    ensures ReadLines(lines, key) == ValueOf(lines[n], key)
  {
    hide Assigns, ValueOf;
    if n < |lines| - 1 { ReadOnly(lines[..|lines| - 1], key, n); }
  }

  lemma {:induction false} WrittenLinesAreLineFree(lines: seq<string>, key: string, value: string, done: bool)
    requires ValidKey(key) && LineFree(value)
    requires forall i :: 0 <= i < |lines| ==> LineFree(lines[i])
    ensures forall i :: 0 <= i < |WriteLines(lines, key, value, done)| ==> LineFree(WriteLines(lines, key, value, done)[i])
  {
    hide Assigns;
    assert LineFree(Assignment(key, value)) by {
      assert forall i :: 0 <= i < |key| ==> !IsSpace(key[i]);
    }
    hide LineFree, Assignment;
    if lines != [] {
      WrittenLinesAreLineFree(lines[1..], key, value, done);
      WrittenLinesAreLineFree(lines[1..], key, value, true);
    }
  }

  lemma ReadBack(file: File, key: string, value: string)
    requires ValidKey(key) && LineFree(value)
    ensures LinesOf(Some(WriteValue(file, key, value))) == WriteLines(LinesOf(file), key, value, false)
    ensures ReadValue(Some(WriteValue(file, key, value)), key) == Unquote(Strip(value))
  {
    hide Assigns, Assignment, ValueOf, SplitLines, JoinLines, WriteLines, Unquote, ReadLines;
    var lines := LinesOf(file);
    var out := WriteLines(lines, key, value, false);
    WrittenLinesAreLineFree(lines, key, value, false);
    SplitJoin(out);
    var n := OneAssignmentLeft(lines, key, value);
    ReadOnly(out, key, n);
    AssignmentValue(key, value);
  }

  lemma {:induction false} WrittenOthersAreLineFree(lines: seq<string>, key: string, value: string, done: bool)
    requires forall i :: 0 <= i < |lines| ==> LineFree(lines[i])
    ensures var out := WriteLines(lines, key, value, done);
      forall x :: x in out ==> x == Assignment(key, value) || LineFree(x)
  {
    hide Assigns, Assignment, LineFree;
    if lines != [] {
      WrittenOthersAreLineFree(lines[1..], key, value, done);
      WrittenOthersAreLineFree(lines[1..], key, value, true);
    }
  }

  /** Stripping a text or its start only leaves characters of it. */
  lemma BodyIsPart(line: string)
    ensures forall c :: c in Body(line) ==> c in line
  {
    LStripBare(line);
    RStripBare(LStrip(line));
    var stripped := Strip(line);
    if StartsWith(stripped, EXPORT) { LStripBare(stripped[|EXPORT|..]); }
    hide LStrip, RStrip, Strip;
    assert forall c :: c in stripped ==> c in line;
  }

  /** A line without `=` assigns nothing. */
  lemma NoEqualsSign(line: string, key: string)
    requires '=' !in line
    ensures !Assigns(line, key)
  {
    BodyIsPart(line);
    hide Body;
    assert (key + "=")[|key|] == '=';
  }

  lemma {:induction false} PartsHaveNoEqualsSign(s: string)
    requires '=' !in s
    ensures forall i :: 0 <= i < |SplitLines(s)| ==> '=' !in SplitLines(s)[i]
    decreases |s|
  {
    if s != [] && LineEnd(s) < |s| {
      var n := LineEnd(s);
      PartsHaveNoEqualsSign(s[n + BreakLength(s, n)..]);
    }
  }

  /** An assignment written with line breaks in the value comes back as several
      lines, of which the first is an assignment. */
  lemma AssignmentLines(key: string, value: string)
    requires ValidKey(key) && '=' !in value
    ensures var parts := SplitLines(Assignment(key, value) + "\n");
      && parts != [] && parts[0] == Assignment(key, FirstLine(value))
      && forall i :: 0 < i < |parts| ==> '=' !in parts[i]
  {
    hide SplitLines, IsLineBreak, LineEnd;
    var head, text := key + "=", value + "\n";
    var n := |head| + LineEnd(value);
    BreakAfter(head, value);
    assert LineFree(head) by { KeyIsLineFree(key); }
    assert Assignment(key, value) + "\n" == head + text;
    assert forall i :: 0 <= i < n ==> !IsLineBreak((head + text)[i]);
    SplitNext(head + text, n);
    assert (head + text)[..n] == Assignment(key, FirstLine(value));
    var k := n + BreakLength(head + text, n);
    assert (head + text)[k..] == text[k - |head|..];
    PartsHaveNoEqualsSign(text[k - |head|..]);
  }

  lemma KeyIsLineFree(key: string)
    requires ValidKey(key)
    ensures LineFree(key + "=")
  {
    assert forall i :: 0 <= i < |key| ==> !IsSpace(key[i]);
  }

  /** The first line break after a head, in the value or at its end. */
  lemma BreakAfter(head: string, value: string)
    ensures var e := LineEnd(value); var s := head + (value + "\n");
      IsLineBreak(s[|head| + e]) && forall i :: |head| <= i < |head| + e ==> !IsLineBreak(s[i])
  {
    var e := LineEnd(value);
    assert IsLineBreak('\n');
    hide IsLineBreak;
    var s := head + (value + "\n");
    assert forall i :: 0 <= i < |value| ==> s[|head| + i] == value[i];
    assert forall i :: |head| <= i < |head| + e ==> s[i] == value[i - |head|];
  }

  /** Whatever line breaks a value without `=` holds, its first line is read back. */
  lemma ReadBackFirstLine(file: File, key: string, value: string)
    requires ValidKey(key) && '=' !in value
    ensures ReadValue(Some(WriteValue(file, key, value)), key) == Unquote(Strip(FirstLine(value)))
  {
    hide Assigns, Assignment, ValueOf, SplitLines, JoinLines, WriteLines, Unquote, ReadLines, Strip, LineFree, FirstLine;
    var lines := LinesOf(file);
    var out := WriteLines(lines, key, value, false);
    var n := OneAssignmentLeft(lines, key, value);
    assert AllLineFree(lines);
    WrittenOthersAreLineFree(lines, key, value, false);
    AssignmentValue(key, value);
    assert out == out[..n] + [out[n]] + out[n + 1..];
    JoinAround(out[..n], out[n], out[n + 1..]);
    AssignmentLines(key, value);
    AssignmentValue(key, FirstLine(value));
    var parts := SplitLines(Assignment(key, value) + "\n");
    var back := out[..n] + parts + out[n + 1..];
    forall i | n < i < |back| ensures !Assigns(back[i], key) {
      if i < n + |parts| {
        assert back[i] == parts[i - n];
        NoEqualsSign(back[i], key);
      } else {
        assert back[i] == out[i - |parts| + 1];
      }
    }
    assert back[n] == parts[0];
    ReadOnly(back, key, n);
  }

  predicate AllLineFree(lines: seq<string>) { forall i :: 0 <= i < |lines| ==> LineFree(lines[i]) }

  lemma {:induction false} ReadIsLineFree(lines: seq<string>, key: string)
    requires forall i :: 0 <= i < |lines| ==> LineFree(lines[i])
    ensures LineFree(ReadLines(lines, key))
  {
    if lines != [] {
      var last := lines[|lines| - 1];
      StripIsPart(last);
      var stripped := Strip(last);
      if StartsWith(stripped, EXPORT) { LStripBare(stripped[|EXPORT|..]); }
      assert LineFree(Body(last));
      if Assigns(last, key) {
        StripIsPart(Body(last)[|key| + 1..]);
        hide Body, Strip;
      } else {
        hide Assigns;
        ReadIsLineFree(lines[..|lines| - 1], key);
      }
    }
  }

  lemma StripIsPart(s: string)
    ensures LineFree(s) ==> LineFree(Strip(s))
  {
    LStripBare(s);
    RStripBare(LStrip(s));
    hide LStrip, RStrip;
    if LineFree(s) { assert LineFree(LStrip(s)); }
  }

  /** Reading back what was written gives the value, exactly when the value holds
      no line break, no surrounding white space and no surrounding quotes. */
  lemma PutThenGet(file: File, key: string, value: string)
    requires ValidKey(key)
    ensures ReadValue(Some(WriteValue(file, key, value)), key) == value
        <==> LineFree(value) && Trimmed(value) && !QuoteWrapped(value)
  {
    hide ReadLines, WriteLines, SplitLines, JoinLines, Strip, Trimmed;
    StripTrims(value);
    if LineFree(value) {
      ReadBack(file, key, value);
      StripNotLonger(value);
    } else {
      ReadIsLineFree(LinesOf(Some(WriteValue(file, key, value))), key);
    }
  }

  lemma StripNotLonger(s: string)
    ensures |Strip(s)| <= |s|
  {
    LStripBare(s);
    RStripBare(LStrip(s));
  }

  lemma {:induction false} ReadFront(first: string, rest: seq<string>, key: string)
    requires !Assigns(first, key)
    ensures ReadLines([first] + rest, key) == ReadLines(rest, key)
  {
    hide Assigns, ValueOf;
    var all := [first] + rest;
    if rest == [] {
      assert all[..0] == [];
    } else {
      assert all[..|all| - 1] == [first] + rest[..|rest| - 1];
      ReadFront(first, rest[..|rest| - 1], key);
    }
  }

  lemma {:induction false} ReadFrontSame(first: string, a: seq<string>, b: seq<string>, key: string)
    requires ReadLines(a, key) == ReadLines(b, key)
    requires HasAssignment(a, key) == HasAssignment(b, key)
    ensures ReadLines([first] + a, key) == ReadLines([first] + b, key)
    ensures HasAssignment([first] + a, key) == HasAssignment([first] + b, key)
  {
    hide Assigns, ValueOf;
    ReadCons(first, a, key);
    ReadCons(first, b, key);
  }

  predicate HasAssignment(lines: seq<string>, key: string) {
    exists i :: 0 <= i < |lines| && Assigns(lines[i], key)
  }

  lemma HasCons(first: string, rest: seq<string>, key: string)
    ensures HasAssignment([first] + rest, key) == (Assigns(first, key) || HasAssignment(rest, key))
  {
    hide Assigns;
    var all := [first] + rest;
    assert all[0] == first && forall i :: 0 <= i < |rest| ==> all[i + 1] == rest[i];
  }

  lemma HasLast(rest: seq<string>, last: string, key: string)
    ensures HasAssignment(rest + [last], key) == (HasAssignment(rest, key) || Assigns(last, key))
  {
    hide Assigns;
    var all := rest + [last];
    assert all[|rest|] == last && forall i :: 0 <= i < |rest| ==> all[i] == rest[i];
  }

  lemma {:induction false} ReadCons(first: string, rest: seq<string>, key: string)
    ensures HasAssignment([first] + rest, key) == (Assigns(first, key) || HasAssignment(rest, key))
    ensures ReadLines([first] + rest, key) ==
      if HasAssignment(rest, key) || !Assigns(first, key) then ReadLines(rest, key) else ValueOf(first, key)
  {
    HasCons(first, rest, key);
    hide Assigns, ValueOf;
    if !Assigns(first, key) {
      ReadFront(first, rest, key);
    } else if rest != [] {
      hide HasAssignment;
      var init := rest[..|rest| - 1];
      assert ([first] + rest)[..|rest|] == [first] + init && rest == init + [rest[|rest| - 1]];
      HasLast(init, rest[|rest| - 1], key);
      ReadCons(first, init, key);
    }
  }

  /** No other variable changes. */
  lemma {:induction false} OthersKept(lines: seq<string>, key: string, value: string, done: bool, other: string)
    requires ValidKey(key) && ValidKey(other) && key != other
    ensures ReadLines(WriteLines(lines, key, value, done), other) == ReadLines(lines, other)
    ensures HasAssignment(WriteLines(lines, key, value, done), other) == HasAssignment(lines, other)
  {
    hide Assigns, ValueOf, Assignment, ReadLines, HasAssignment;
    AssignmentBody(key, value);
    if Assigns(Assignment(key, value), other) { OneKeyPerLine(Assignment(key, value), key, other); }
    if lines == [] {
      ReadCons(Assignment(key, value), [], other);
      assert [Assignment(key, value)] + [] == [Assignment(key, value)];
    } else {
      assert [lines[0]] + lines[1..] == lines;
      if !Assigns(lines[0], key) {
        OthersKept(lines[1..], key, value, done, other);
        ReadFrontSame(lines[0], WriteLines(lines[1..], key, value, done), lines[1..], other);
      } else {
        if Assigns(lines[0], other) { OneKeyPerLine(lines[0], key, other); }
        OthersKept(lines[1..], key, value, true, other);
        ReadCons(lines[0], lines[1..], other);
        ReadCons(Assignment(key, value), WriteLines(lines[1..], key, value, true), other);
      }
    }
  }

  /** After pinning a line-free value in a file, every other variable reads as
      before. */
  lemma OtherVariablesKept(file: File, key: string, value: string, other: string)
    requires ValidKey(key) && ValidKey(other) && key != other && LineFree(value)
    ensures ReadValue(Some(WriteValue(file, key, value)), other) == ReadValue(file, other)
  {
    hide ReadLines, WriteLines, HasAssignment, LinesOf;
    ReadBack(file, key, value);
    OthersKept(LinesOf(file), key, value, false, other);
  }

  /** The lines that do not assign the key. */
  function Unrelated(lines: seq<string>, key: string): seq<string> {
    if lines == [] then []
    else (if Assigns(lines[0], key) then [] else [lines[0]]) + Unrelated(lines[1..], key)
  }

  /** Unrelated lines keep their content and order. */
  lemma {:induction false} UnrelatedKept(lines: seq<string>, key: string, value: string, done: bool)
    requires ValidKey(key)
    ensures Unrelated(WriteLines(lines, key, value, done), key) == Unrelated(lines, key)
  {
    hide Assigns, Assignment;
    AssignmentBody(key, value);
    if lines != [] {
      UnrelatedKept(lines[1..], key, value, done);
      UnrelatedKept(lines[1..], key, value, true);
    }
  }

  /** Writing twice leaves what the second write alone would have left. */
  lemma {:induction false} PutPut(lines: seq<string>, key: string, first: string, second: string, done: bool)
    requires ValidKey(key)
    ensures WriteLines(WriteLines(lines, key, first, done), key, second, done) == WriteLines(lines, key, second, done)
  {
    hide Assigns, Assignment;
    AssignmentBody(key, first);
    if lines != [] {
      PutPut(lines[1..], key, first, second, done);
      PutPut(lines[1..], key, first, second, true);
    } else {
      assert [Assignment(key, first)][1..] == [];
    }
  }

  /** At file level: overwriting a pinned value equals pinning it at once. */
  lemma OverwritePin(file: File, key: string, first: string, second: string)
    requires ValidKey(key) && LineFree(first)
    ensures WriteValue(Some(WriteValue(file, key, first)), key, second) == WriteValue(file, key, second)
  {
    hide WriteLines, JoinLines, LinesOf;
    ReadBack(file, key, first);
    PutPut(LinesOf(file), key, first, second, false);
  }

  // ── The loops ──────────────────────────────────────────────────────────────

  method ReadEnvValue(file: File, key: string) returns (value: string)
    ensures value == ReadValue(file, key)
  {
    hide Assigns;
    if file.None? {
      return "";
    }
    var lines := SplitLines(file.value);
    value := "";
    for n := 0 to |lines|
      invariant value == ReadLines(lines[..n], key)
    {
      assert lines[..n + 1][..n] == lines[..n];
      if !Assigns(lines[n], key) {
        continue;
      }
      value := ValueOf(lines[n], key);
    }
    assert lines[..|lines|] == lines;
  }

  /** What is still to be written once `out` is. */
  ghost predicate Remains(file: File, key: string, value: string, out: seq<string>, lines: seq<string>, done: bool) {
    WriteLines(LinesOf(file), key, value, false) == out + WriteLines(lines, key, value, done)
  }

  lemma RemainsAll(file: File, key: string, value: string)
    ensures Remains(file, key, value, [], LinesOf(file), false)
  {
    hide WriteLines;
  }

  lemma RemainsNext(file: File, key: string, value: string, out: seq<string>, lines: seq<string>, n: nat, done: bool)
    requires n < |lines| && Remains(file, key, value, out, lines[n..], done)
    ensures if !Assigns(lines[n], key) then Remains(file, key, value, out + [lines[n]], lines[n + 1..], done)
      else if done then Remains(file, key, value, out, lines[n + 1..], true)
      else Remains(file, key, value, out + [Assignment(key, value)], lines[n + 1..], true)
  {
    hide Assigns, Assignment, LinesOf;
    assert lines[n..][1..] == lines[n + 1..];
  }

  lemma RemainsNothing(file: File, key: string, value: string, out: seq<string>, lines: seq<string>, done: bool)
    requires Remains(file, key, value, out, lines[|lines|..], done)
    ensures WriteLines(LinesOf(file), key, value, false) == if done then out else out + [Assignment(key, value)]
  {
    hide Assigns, Assignment, LinesOf;
    assert lines[|lines|..] == [] && out + [] == out;
  }

  method WriteEnvValue(file: File, key: string, value: string) returns (text: string)
    ensures text == WriteValue(file, key, value)
  {
    var lines := if file.Some? then SplitLines(file.value) else [];
    var out: seq<string>, done := [], false;
    hide Assigns, Assignment, WriteLines, SplitLines, JoinLines, Remains;
    assert lines[0..] == lines == LinesOf(file);
    RemainsAll(file, key, value);
    for n := 0 to |lines|
      invariant Remains(file, key, value, out, lines[n..], done)
    {
      RemainsNext(file, key, value, out, lines, n, done);
      if Assigns(lines[n], key) {
        if !done {
          out := out + [Assignment(key, value)];
          done := true;
        }
        continue;
      }
      out := out + [lines[n]];
    }
    RemainsNothing(file, key, value, out, lines, done);
    if !done {
      out := out + [Assignment(key, value)];
    }
    return JoinLines(out);
  }
}
