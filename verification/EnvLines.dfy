/**
  How the lines of a dotenv file assign variables (sidecar/image_update.py,
  `read_env_value` and `write_env_value`), written from the assignment outwards.

  The main results: a line assigns a value exactly if it spells that assignment,
  the last assignment is the one read, and a write replaces the first in place.
 */
module EnvLines {
  import opened Wrappers
  import opened PythonText
  import opened EnvFile

  /** White space, perhaps `export` and more of it, then `key=`, white space, the
      value with or without quotes, white space. */
  datatype Spelling = Spelling(
    lead: string,
    exported: Option<string>,
    before: string,
    quote: Option<char>,
    value: string,
    after: string)
  {
    predicate Valid() {
      && Blank(lead) && (exported.Some? ==> Blank(exported.value)) && Blank(before) && Blank(after)
      && (quote.Some? ==> quote.value == '"' || quote.value == '\'')
      && (quote.None? ==> Plain(value))
    }

    function Quoted(): string {
      if quote.Some? then [quote.value] + value + [quote.value] else value
    }

    function Value(): string { before + (Quoted() + after) }

    function Front(): string { if exported.Some? then "export " + exported.value else "" }

    function Text(key: string): string { lead + (Front() + (key + "=" + Value())) }
  }

  /** Unquoted, a value has no white space at its ends and no two quotes of one kind. */
  predicate Plain(value: string) {
    value == "" ||
    var first, last := value[0], value[|value| - 1];
    && !IsSpace(first) && !IsSpace(last)
    && !(|value| > 1 && first == last && first in {'"', '\''})
  }

  /** The line is an assignment of this value. */
  ghost predicate Says(line: string, key: string, value: string) {
    exists spelling: Spelling :: spelling.Valid() && spelling.Text(key) == line && spelling.value == value
  }

  // ── A spelled line is read ─────────────────────────────────────────────────

  lemma FrontLess(key: string, gap: string, rest: string)
    requires ValidKey(key) && Blank(gap)
    ensures var s := EXPORT + (gap + (key + "=" + rest));
      StartsWith(s, EXPORT) && LStrip(s[|EXPORT|..]) == key + "=" + rest
  {
    var tail := key + "=" + rest;
    assert tail[0] == key[0];
    LStripAfter(gap, tail);
    assert (EXPORT + (gap + tail))[|EXPORT|..] == gap + tail;
  }

  lemma StripsTo(lead: string, head: string, v: string)
    requires Blank(lead) && head != "" && !IsSpace(head[0]) && !IsSpace(head[|head| - 1])
    ensures Strip(lead + (head + v)) == head + RStrip(v)
  {
    hide LStrip, RStrip, IsSpace;
    LStripAfter(lead, head + v);
    RStripAfter(head, v);
  }

  lemma HeadEnds(sp: Spelling, key: string)
    requires ValidKey(key)
    ensures var head := sp.Front() + (key + "=");
      head != "" && !IsSpace(head[0]) && !IsSpace(head[|head| - 1])
  {
    var head := sp.Front() + (key + "=");
    assert head[0] == if sp.exported.Some? then 'e' else key[0];
    assert head[|head| - 1] == '=';
  }

  lemma Regroup(a: string, b: string, c: string)
    ensures a + (b + c) == (a + b) + c
  {}

  /** Stripping takes off what is around the assignment. */
  lemma Bared(sp: Spelling, key: string)
    requires ValidKey(key) && sp.Valid()
    ensures Strip(sp.Text(key)) == sp.Front() + (key + "=" + RStrip(sp.Value()))
  {
    HeadEnds(sp, key);
    hide Strip, RStrip, IsSpace, Spelling.Value, Spelling.Front;
    var head, v := sp.Front() + (key + "="), sp.Value();
    StripsTo(sp.lead, head, v);
    Regroup(sp.Front(), key + "=", v);
    Regroup(sp.Front(), key + "=", RStrip(v));
  }

  lemma BodyAfterFront(exported: Option<string>, key: string, rest: string)
    requires ValidKey(key) && (exported.Some? ==> Blank(exported.value))
    ensures var stripped := (if exported.Some? then "export " + exported.value else "") + (key + "=" + rest);
      (if StartsWith(stripped, EXPORT) then LStrip(stripped[|EXPORT|..]) else stripped) == key + "=" + rest
  {
    if exported.Some? {
      FrontLess(key, exported.value, rest);
      hide LStrip, Blank, IsSpace;
      Regroup(EXPORT, exported.value, key + "=" + rest);
    } else {
      NoExport(key, rest);
      hide LStrip, Blank, IsSpace;
      assert "" + (key + "=" + rest) == key + "=" + rest;
    }
  }

  lemma BodyOfSpelled(sp: Spelling, key: string)
    requires ValidKey(key) && sp.Valid()
    ensures Body(sp.Text(key)) == key + "=" + RStrip(sp.Value())
  {
    hide Strip, LStrip, RStrip, Blank, IsSpace, Spelling.Value, Spelling.Text;
    Bared(sp, key);
    BodyAfterFront(sp.exported, key, RStrip(sp.Value()));
  }

  lemma StripOfValue(sp: Spelling)
    requires sp.Valid()
    ensures Strip(RStrip(sp.Value())) == sp.Quoted()
  {
    var v, q := sp.Value(), sp.Quoted();
    StripsCommute(v);
    RStripTwice(v);
    StripsCommute(RStrip(v));
    assert Strip(RStrip(v)) == Strip(v);
    if q != "" {
      assert !IsSpace('"') && !IsSpace('\'');
      assert sp.quote.Some? ==> q[|q| - 1] == sp.quote.value;
      hide IsSpace;
      StripAround(sp.before, q, sp.after);
    } else {
      NothingButSpace(v);
    }
  }

  lemma UnquoteOfSpelled(sp: Spelling)
    requires sp.Valid()
    ensures Unquote(sp.Quoted()) == sp.value
  {
    var q := sp.Quoted();
    if sp.quote.Some? {
      assert q[|q| - 1] == q[0] == sp.quote.value;
      assert q[1..|q| - 1] == sp.value;
    }
  }

  lemma SpelledIsRead(sp: Spelling, key: string)
    requires ValidKey(key) && sp.Valid()
    ensures Assigns(sp.Text(key), key) && ValueOf(sp.Text(key), key) == sp.value
  {
    BodyOfSpelled(sp, key);
    StripOfValue(sp);
    UnquoteOfSpelled(sp);
    hide Body, Strip, RStrip, Unquote, Spelling.Value, Spelling.Quoted, Spelling.Text;
    var rest := RStrip(sp.Value());
    assert (key + "=" + rest)[|key| + 1..] == rest;
  }

  // ── A line that is read is spelled ─────────────────────────────────────────

  lemma BareIsPlain(q: string)
    requires Trimmed(q) && !QuoteWrapped(q)
    ensures Plain(q)
  {}

  /** A value text taken apart. */
  lemma ValueParts(u: string) returns (sp: Spelling)
    ensures sp.Valid() && sp.lead == "" && sp.exported == None
    ensures sp.Value() == u && sp.value == Unquote(Strip(u))
  {
    hide Strip, IsSpace, Trimmed, Plain, Lead, Blank;
    var q := Strip(u);
    NothingButSpace(u);
    NothingButSpace("");
    StripTrims(u);
    assert Strip("") == "" by { StripEmpty(""); }
    if q == "" {
      BareIsPlain("");
      sp := Spelling("", None, u, None, "", "");
      assert u + ("" + "") == u;
    } else {
      LeadIsSpace(u);
      var after := StripParts(u);
      var quote, value := UnquoteParts(q);
      sp := Spelling("", None, Lead(u), quote, value, after);
      assert u == Lead(u) + (q + after);
    }
  }

  lemma UnquoteParts(q: string) returns (quote: Option<char>, value: string)
    requires Trimmed(q)
    ensures value == Unquote(q)
    ensures quote.Some? ==> (quote.value == '"' || quote.value == '\'') && q == [quote.value] + value + [quote.value]
    ensures quote.None? ==> Plain(value) && q == value
  {
    value := Unquote(q);
    if QuoteWrapped(q) {
      quote := Some(q[0]);
      assert q == [q[0]] + q[1..|q| - 1] + [q[|q| - 1]];
    } else {
      quote := None;
      BareIsPlain(q);
    }
  }

  lemma MoreSpaceAfter(sp: Spelling, lead: string, exported: Option<string>, trail: string)
    requires sp.Valid() && Blank(lead) && Blank(trail) && (exported.Some? ==> Blank(exported.value))
    ensures var all := sp.(lead := lead, exported := exported, after := sp.after + trail);
      all.Valid() && all.Value() == sp.Value() + trail && all.value == sp.value
  {
    var all := sp.(lead := lead, exported := exported, after := sp.after + trail);
    assert all.Quoted() == sp.Quoted();
  }

  /** The body of a line and what is around it. */
  lemma LineParts(line: string) returns (lead: string, exported: Option<string>, trail: string)
    requires Body(line) != ""
    ensures Blank(lead) && Blank(trail) && (exported.Some? ==> Blank(exported.value))
    ensures line == lead + ((if exported.Some? then "export " + exported.value else "") + (Body(line) + trail))
  {
    assert LStrip("") == "";
    hide Strip, LStrip, IsSpace, Blank, Lead;
    var stripped, body := Strip(line), Body(line);
    lead := Lead(line);
    LeadIsSpace(line);
    trail := StripParts(line);
    var front := "";
    if StartsWith(stripped, EXPORT) {
      var t := stripped[|EXPORT|..];
      LeadIsSpace(t);
      LeadAndRest(t);
      exported := Some(Lead(t));
      front := EXPORT + Lead(t);
      Regroup(EXPORT, Lead(t), body);
      assert stripped == EXPORT + t;
    } else {
      exported := None;
      assert stripped == "" + body;
    }
    assert stripped == front + body;
    Regroup(front, body, trail);
    Regroup(lead, front + body, trail);
  }

  lemma LeadAndRest(s: string)
    ensures s == Lead(s) + LStrip(s)
  {
    LStripBare(s);
  }

  lemma ReadIsSpelled(line: string, key: string)
    requires ValidKey(key) && Assigns(line, key)
    ensures Says(line, key, ValueOf(line, key))
  {
    hide Body, Strip, Unquote, Blank, Spelling.Valid, Spelling.Value, Says;
    var lead, exported, trail := LineParts(line);
    var u := Body(line)[|key| + 1..];
    assert Body(line) == key + "=" + u;
    var sp := ValueParts(u);
    MoreSpaceAfter(sp, lead, exported, trail);
    var all := sp.(lead := lead, exported := exported, after := sp.after + trail);
    SpelledSays(all, key);
    assert key + "=" + (u + trail) == Body(line) + trail;
    assert all.Text(key) == line;
  }

  lemma SpelledSays(sp: Spelling, key: string)
    requires sp.Valid()
    ensures Says(sp.Text(key), key, sp.value)
  {
    hide Spelling.Valid, Spelling.Text;
  }

  /** A line assigns a value to the key exactly if it spells that assignment. */
  lemma AssignsIffSaid(line: string, key: string)
    requires ValidKey(key)
    ensures forall value :: Says(line, key, value) <==> Assigns(line, key) && ValueOf(line, key) == value
  {
    hide Assigns, ValueOf;
    if Assigns(line, key) { ReadIsSpelled(line, key); }
    forall value | Says(line, key, value) ensures Assigns(line, key) && ValueOf(line, key) == value {
      var sp: Spelling :| sp.Valid() && sp.Text(key) == line && sp.value == value;
      hide Spelling.Valid, Spelling.Text;
      SpelledIsRead(sp, key);
    }
  }

  // ── Which assignment is read, and which is replaced ────────────────────────

  ghost predicate Silent(line: string, key: string) { forall value :: !Says(line, key, value) }

  lemma SilentIff(line: string, key: string)
    requires ValidKey(key)
    ensures Silent(line, key) <==> !Assigns(line, key)
  {
    AssignsIffSaid(line, key);
    hide Says, Assigns, ValueOf;
    if Assigns(line, key) { assert Says(line, key, ValueOf(line, key)); }
  }

  /** What is read is what the last assignment says, or nothing without one. */
  lemma {:induction false} LastAssignmentWins(lines: seq<string>, key: string, n: nat, value: string)
    requires ValidKey(key)
    requires n <= |lines| && forall i :: n <= i < |lines| ==> Silent(lines[i], key)
    ensures n > 0 && Says(lines[n - 1], key, value) ==> ReadLines(lines, key) == value
    ensures n == 0 ==> ReadLines(lines, key) == ""
  {
    hide Silent, Says, Assigns, ValueOf;
    if lines != [] {
      var last := |lines| - 1;
      SilentIff(lines[last], key);
      if n <= last {
        LastAssignmentWins(lines[..last], key, n, value);
      } else {
        AssignsIffSaid(lines[last], key);
      }
    }
  }

  /** The first assignment is replaced where it stands and the later ones go; if
      there is none, one is added at the end. Nothing else changes. */
  lemma {:induction false} ReplacedInPlace(lines: seq<string>, key: string, value: string, n: nat)
    requires ValidKey(key) && n <= |lines|
    requires forall i :: 0 <= i < n ==> Silent(lines[i], key)
    requires n < |lines| ==> !Silent(lines[n], key)
    ensures WriteLines(lines, key, value, false) ==
      lines[..n] + [key + "=" + value] + if n < |lines| then Unrelated(lines[n + 1..], key) else []
  {
    hide Silent, Assigns, Unrelated;
    if lines != [] { SilentIff(lines[0], key); }
    if n > 0 {
      var later := if n < |lines| then Unrelated(lines[n + 1..], key) else [];
      ReplacedInPlace(lines[1..], key, value, n - 1);
      assert lines[..n] == [lines[0]] + lines[1..][..n - 1];
      assert n < |lines| ==> lines[1..][n..] == lines[n + 1..];
      assert WriteLines(lines[1..], key, value, false) == lines[1..][..n - 1] + [key + "=" + value] + later;
    } else if lines != [] {
      LaterGo(lines[1..], key, value);
    }
  }

  lemma {:induction false} LaterGo(lines: seq<string>, key: string, value: string)
    ensures WriteLines(lines, key, value, true) == Unrelated(lines, key)
  {
    hide Assigns;
    if lines != [] { LaterGo(lines[1..], key, value); }
  }

  /** The other lines, in order: a line stays exactly if it says nothing about the key. */
  lemma UnrelatedExactly(before: seq<string>, line: string, after: seq<string>, key: string)
    requires ValidKey(key)
    ensures Unrelated(before + [line] + after, key) ==
      Unrelated(before, key) + (if Silent(line, key) then [line] else []) + Unrelated(after, key)
  {
    SilentIff(line, key);
    hide Assigns, Silent;
    UnrelatedJoins(before, [line], key);
    UnrelatedJoins(before + [line], after, key);
    assert [line][1..] == [];
  }

  lemma {:induction false} UnrelatedJoins(a: seq<string>, b: seq<string>, key: string)
    ensures Unrelated(a + b, key) == Unrelated(a, key) + Unrelated(b, key)
  {
    hide Assigns;
    if a == [] {
      assert a + b == b;
    } else {
      assert (a + b)[1..] == a[1..] + b;
      UnrelatedJoins(a[1..], b, key);
    }
  }
}
