/** The string operations of Python the sidecar's parsers are built from. */
module PythonText {

  /** `str.isspace` for one character. */
  predicate IsSpace(c: char) {
    var n := c as int;
    || 0x09 <= n <= 0x0D || 0x1C <= n <= 0x20 || n == 0x85 || n == 0xA0 || n == 0x1680
    || 0x2000 <= n <= 0x200A || n in {0x2028, 0x2029, 0x202F, 0x205F, 0x3000}
  }

  predicate IsDigit(c: char) { '0' <= c <= '9' }

  function LStrip(s: string): string {
    if s != [] && IsSpace(s[0]) then LStrip(s[1..]) else s
  }

  function RStrip(s: string): string {
    if s != [] && IsSpace(s[|s| - 1]) then RStrip(s[..|s| - 1]) else s
  }

  function Strip(s: string): string { RStrip(LStrip(s)) }

  /** No white space at either end. */
  predicate Trimmed(s: string) {
    s == [] || (!IsSpace(s[0]) && !IsSpace(s[|s| - 1]))
  }

  /** Nothing but white space. */
  predicate Blank(s: string) { forall i :: 0 <= i < |s| ==> IsSpace(s[i]) }

  predicate StartsWith(s: string, prefix: string) { prefix <= s }

  lemma {:induction false} LStripBare(s: string)
    ensures LStrip(s) == [] || !IsSpace(LStrip(s)[0])
    ensures |LStrip(s)| <= |s| && LStrip(s) == s[|s| - |LStrip(s)|..]
  {
    if s != [] && IsSpace(s[0]) { LStripBare(s[1..]); }
  }

  lemma {:induction false} RStripBare(s: string)
    ensures RStrip(s) == [] || !IsSpace(RStrip(s)[|RStrip(s)| - 1])
    ensures RStrip(s) <= s
  {
    if s != [] && IsSpace(s[|s| - 1]) { RStripBare(s[..|s| - 1]); }
  }

  lemma StripTrims(s: string)
    ensures Trimmed(Strip(s))
    ensures Trimmed(s) ==> Strip(s) == s
  {
    LStripBare(s);
    RStripBare(LStrip(s));
  }

  /** Stripping the right end leaves a prefix that ends in no white space alone. */
  lemma {:induction false} RStripAfter(a: string, b: string)
    requires a != [] && !IsSpace(a[|a| - 1])
    ensures RStrip(a + b) == a + RStrip(b)
  {
    if b == [] {
      assert a + b == a;
    } else if IsSpace(b[|b| - 1]) {
      assert (a + b)[..|a + b| - 1] == a + b[..|b| - 1];
      RStripAfter(a, b[..|b| - 1]);
    } else {
      assert (a + b)[|a + b| - 1] == b[|b| - 1];
    }
  }

  lemma {:induction false} StripsCommute(s: string)
    ensures RStrip(LStrip(s)) == LStrip(RStrip(s))
  {
    if s == [] {
    } else if IsSpace(s[0]) {
      StripsCommute(s[1..]);
      RStripTail(s);
    } else {
      RStripAfter([s[0]], s[1..]);
      assert [s[0]] + s[1..] == s;
    }
  }

  lemma {:induction false} RStripTail(s: string)
    requires s != [] && IsSpace(s[0])
    ensures if RStrip(s[1..]) == [] then RStrip(s) == [] else RStrip(s) == [s[0]] + RStrip(s[1..])
  {
    if IsSpace(s[|s| - 1]) {
      if |s| == 1 {
        assert s[..0] == [];
      } else {
        var init := s[..|s| - 1];
        assert init[1..] == s[1..][..|s| - 2];
        RStripTail(init);
      }
    } else {
      assert s == [s[0]] + s[1..];
    }
  }

  /** The white space in front. */
  function Lead(s: string): string {
    LStripBare(s);
    s[..|s| - |LStrip(s)|]
  }

  lemma {:induction false} LeadIsSpace(s: string)
    ensures Blank(Lead(s))
  {
    if s != [] && IsSpace(s[0]) {
      LeadIsSpace(s[1..]);
      LStripBare(s[1..]);
      assert Lead(s) == [s[0]] + Lead(s[1..]);
    } else {
      assert Lead(s) == [];
    }
  }

  lemma {:induction false} TrailIsSpace(s: string)
    ensures RStrip(s) <= s && forall i :: |RStrip(s)| <= i < |s| ==> IsSpace(s[i])
  {
    RStripBare(s);
    if s != [] && IsSpace(s[|s| - 1]) { TrailIsSpace(s[..|s| - 1]); }
  }

  lemma {:induction false} OnlySpace(s: string)
    requires Blank(s)
    ensures LStrip(s) == [] && RStrip(s) == []
  {
    if s != [] {
      OnlySpace(s[1..]);
      OnlySpace(s[..|s| - 1]);
    }
  }

  lemma {:induction false} LStripAfter(space: string, s: string)
    requires Blank(space)
    requires s != [] && !IsSpace(s[0])
    ensures LStrip(space + s) == s
  {
    if space == [] {
      assert space + s == s;
    } else {
      assert (space + s)[1..] == space[1..] + s;
      LStripAfter(space[1..], s);
    }
  }

  /** White space, what stripping leaves, white space. */
  lemma StripParts(s: string) returns (trail: string)
    requires Strip(s) != []
    ensures s == Lead(s) + Strip(s) + trail
    ensures Blank(trail)
    ensures !IsSpace(Strip(s)[0]) && !IsSpace(Strip(s)[|Strip(s)| - 1])
  {
    LStripBare(s);
    TrailIsSpace(LStrip(s));
    StripTrims(s);
    trail := LStrip(s)[|Strip(s)|..];
    assert LStrip(s) == Strip(s) + trail;
    assert s == Lead(s) + LStrip(s);
  }

  lemma StripAround(lead: string, s: string, trail: string)
    requires Blank(lead) && Blank(trail)
    requires s != [] && !IsSpace(s[0]) && !IsSpace(s[|s| - 1])
    ensures Strip(lead + (s + trail)) == s
  {
    LStripAfter(lead, s + trail);
    RStripAfter(s, trail);
    OnlySpace(trail);
    assert s + [] == s;
  }

  lemma StripEmpty(s: string)
    requires LStrip(s) == []
    ensures Strip(s) == ""
  {}

  lemma NothingButSpace(s: string)
    ensures Strip(s) == "" <==> Blank(s)
  {
    if Strip(s) == "" {
      LStripBare(s);
      TrailIsSpace(LStrip(s));
      LeadIsSpace(s);
      assert LStrip(s) == [];
      assert s == Lead(s);
    } else if Blank(s) {
      OnlySpace(s);
    }
  }

  // ── Lines ──────────────────────────────────────────────────────────────────

  /** The characters `str.splitlines` breaks at. */
  predicate IsLineBreak(c: char) {
    var n := c as int;
    0x0A <= n <= 0x0D || 0x1C <= n <= 0x1E || n in {0x85, 0x2028, 0x2029}
  }

  predicate LineFree(s: string) { forall i :: 0 <= i < |s| ==> !IsLineBreak(s[i]) }

  function LineEnd(s: string): (n: nat)
    ensures n <= |s| && forall i :: 0 <= i < n ==> !IsLineBreak(s[i])
    ensures n < |s| ==> IsLineBreak(s[n])
  {
    if s == [] || IsLineBreak(s[0]) then 0 else 1 + LineEnd(s[1..])
  }

  /** `str.splitlines` */
  function SplitLines(s: string): (lines: seq<string>)
    ensures forall i :: 0 <= i < |lines| ==> LineFree(lines[i])
    decreases |s|
  {
    if s == [] then []
    else
      var n := LineEnd(s);
      if n == |s| then
        assert s[..n] == s;
        [s]
      else
        [s[..n]] + SplitLines(AfterBreak(s, n))
  }

  function AfterBreak(s: string, n: nat): (rest: string)
    requires n < |s|
    ensures |rest| < |s|
  {
    s[n + BreakLength(s, n)..]
  }

  /** CR LF is one break. */
  function BreakLength(s: string, n: nat): (k: nat)
    requires n < |s|
    ensures 1 <= k && n + k <= |s|
  {
    if s[n] == '\r' && n + 1 < |s| && s[n + 1] == '\n' then 2 else 1
  }

  function JoinLines(lines: seq<string>): string {
    if lines == [] then "" else lines[0] + "\n" + JoinLines(lines[1..])
  }

  lemma {:induction false} SplitJoin(lines: seq<string>)
    requires forall i :: 0 <= i < |lines| ==> LineFree(lines[i])
    ensures SplitLines(JoinLines(lines)) == lines
  {
    if lines != [] {
      FirstLineSplits(lines[0], JoinLines(lines[1..]));
      hide SplitLines, LineFree;
      SplitJoin(lines[1..]);
    }
  }

  lemma FirstLineSplits(line: string, rest: string)
    requires LineFree(line)
    ensures SplitLines(line + "\n" + rest) == [line] + SplitLines(rest)
  {
    var text := line + "\n" + rest;
    var n := |line|;
    assert text[n] == '\n' && forall i :: 0 <= i < n ==> text[i] == line[i];
    hide SplitLines;
    SplitNext(text, n);
    assert text[..n] == line && text[n + 1..] == rest;
  }

  lemma SplitNext(s: string, n: nat)
    requires n < |s| && IsLineBreak(s[n]) && forall i :: 0 <= i < n ==> !IsLineBreak(s[i])
    ensures SplitLines(s) == [s[..n]] + SplitLines(s[n + BreakLength(s, n)..])
  {
    LineEndUnique(s, n);
    hide LineEnd, IsLineBreak, BreakLength, LineFree, AfterBreak;
    assert SplitLines(s) == [s[..n]] + SplitLines(AfterBreak(s, n));
    hide SplitLines;
    BreakEnds(s, n);
  }

  /** The text of one line break. */
  predicate IsBreak(b: string) { b == "\r\n" || (|b| == 1 && IsLineBreak(b[0])) }

  /** A line, its break (CR LF is one), and what follows, which is split for itself. */
  lemma SplitLinesExactly(line: string, b: string, rest: string)
    requires LineFree(line) && IsBreak(b)
    requires b == "\r" && rest != "" ==> rest[0] != '\n'
    ensures SplitLines(line + (b + rest)) == [line] + SplitLines(rest)
  {
    BreakAt(line, b, rest);
    LineBreakRest(line, b, rest);
    hide *;
    SplitWhere(line + (b + rest), line, |b|, rest);
  }

  lemma SplitWhere(s: string, line: string, k: nat, rest: string)
    requires |line| + k <= |s| && |line| < |s| && s[..|line|] == line && s[|line| + k..] == rest
    requires IsLineBreak(s[|line|]) && BreakLength(s, |line|) == k
    requires forall i :: 0 <= i < |line| ==> !IsLineBreak(s[i])
    ensures SplitLines(s) == [line] + SplitLines(rest)
  {
    hide *;
    SplitNext(s, |line|);
  }

  lemma LineBreakRest(line: string, b: string, rest: string)
    ensures (line + (b + rest))[..|line|] == line && (line + (b + rest))[|line| + |b|..] == rest
  {}

  lemma BreakAt(line: string, b: string, rest: string)
    requires LineFree(line) && IsBreak(b)
    requires b == "\r" && rest != "" ==> rest[0] != '\n'
    ensures var s := line + (b + rest); var n := |line|;
      && IsLineBreak(s[n]) && (forall i :: 0 <= i < n ==> !IsLineBreak(s[i])) && BreakLength(s, n) == |b|
  {
    assert IsLineBreak('\r');
    hide IsLineBreak;
    var s := line + (b + rest);
    var n := |line|;
    assert s[n] == b[0] && forall i :: 0 <= i < n ==> s[i] == line[i];
    if |b| == 2 {
      assert s[n + 1] == b[1];
    } else if rest != "" {
      assert s[n + 1] == rest[0];
    }
  }

  /** A text without a break is one line, unless it is empty. */
  lemma SplitLastLine(line: string)
    requires LineFree(line)
    ensures SplitLines(line) == if line == "" then [] else [line]
  {
    if line != "" {
      assert LineEnd(line) == |line|;
    }
  }

  lemma BreakEnds(s: string, n: nat)
    requires n < |s|
    ensures AfterBreak(s, n) == s[n + BreakLength(s, n)..]
  {}

  lemma LineEndUnique(s: string, n: nat)
    requires n < |s| && IsLineBreak(s[n]) && forall i :: 0 <= i < n ==> !IsLineBreak(s[i])
    ensures LineEnd(s) == n
  {
    var m := LineEnd(s);
    assert !(m < n) && !(n < m);
  }

  lemma SliceConcat(s: string, rest: string, k: nat)
    requires k <= |s|
    ensures (s + rest)[..k] == s[..k] && (s + rest)[k..] == s[k..] + rest
  {}

  /** Where the first line break of a text that ends in a line feed is, whatever
      follows. */
  lemma BreakStays(s: string, rest: string)
    requires s != [] && s[|s| - 1] == '\n'
    ensures var n := LineEnd(s);
      && n < |s| && IsLineBreak(s[n]) && (forall i :: 0 <= i < n ==> !IsLineBreak(s[i]))
      && IsLineBreak((s + rest)[n]) && (forall i :: 0 <= i < n ==> !IsLineBreak((s + rest)[i]))
      && BreakLength(s + rest, n) == BreakLength(s, n)
  {
    var n := LineEnd(s);
    assert IsLineBreak(s[|s| - 1]);
    hide IsLineBreak;
    assert forall i :: 0 <= i < |s| ==> (s + rest)[i] == s[i];
  }

  /** A text that ends in a line feed is split for itself. */
  lemma {:induction false} SplitAfterLine(s: string, rest: string)
    requires s != [] && s[|s| - 1] == '\n'
    ensures SplitLines(s + rest) == SplitLines(s) + SplitLines(rest)
    decreases |s|
  {
    hide SplitLines, LineEnd, IsLineBreak, BreakLength;
    var n := LineEnd(s);
    BreakStays(s, rest);
    SplitNext(s, n);
    SplitNext(s + rest, n);
    var k := n + BreakLength(s, n);
    SliceConcat(s, rest, n);
    SliceConcat(s, rest, k);
    if k == |s| {
      assert s[k..] + rest == rest && s[k..] == [];
      NothingToSplit();
    } else {
      SplitAfterLine(s[k..], rest);
    }
  }

  lemma NothingToSplit()
    ensures SplitLines([]) == []
  {}

  lemma {:induction false} JoinAround(before: seq<string>, line: string, after: seq<string>)
    requires forall i :: 0 <= i < |before| ==> LineFree(before[i])
    requires forall i :: 0 <= i < |after| ==> LineFree(after[i])
    ensures SplitLines(JoinLines(before + [line] + after)) == before + SplitLines(line + "\n") + after
  {
    hide SplitLines, LineFree;
    var all := before + [line] + after;
    if before == [] {
      assert all[0] == line && all[1..] == after;
      SplitAfterLine(line + "\n", JoinLines(after));
      SplitJoin(after);
    } else {
      assert all[0] == before[0] && all[1..] == before[1..] + [line] + after;
      JoinAround(before[1..], line, after);
      SplitAfterLine(before[0] + "\n", JoinLines(all[1..]));
      OneLine(before[0]);
    }
  }

  lemma OneLine(line: string)
    requires LineFree(line)
    ensures SplitLines(line + "\n") == [line]
  {
    var s := line + "\n";
    LineEndUnique(s, |line|);
    assert s[..|line|] == line && s[|line| + 1..] == [];
  }

  /** The first line of a text, all of it if it has no line break. */
  function FirstLine(s: string): string { s[..LineEnd(s)] }

  /** Lexicographic order by code point: -1, 0 or 1, as Python compares `str`. */
  function CompareText(x: string, y: string): int {
    if x == [] && y == [] then 0
    else if x == [] then -1
    else if y == [] then 1
    else if x[0] != y[0] then (if x[0] < y[0] then -1 else 1)
    else CompareText(x[1..], y[1..])
  }
}
