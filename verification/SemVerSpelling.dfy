/**
  How versions are spelled (sidecar/image_update.py, `_SEMVER_RE`), written down
  from the version outwards: a parser of its own is nowhere involved.

  The main result: a text parses to a version exactly if it spells that version.
 */
module SemVerSpelling {
  import opened Wrappers
  import opened PythonText
  import opened SemVer

  function Zeros(n: nat): string { seq(n, _ => '0') }

  function Digit(d: nat): char
    requires d < 10
  {
    "0123456789"[d]
  }

  function Decimal(n: nat): string {
    if n < 10 then [Digit(n)] else Decimal(n / 10) + [Digit(n % 10)]
  }

  /** A number with any zeros in front. */
  datatype Numeral = Numeral(zeros: nat, value: nat) {
    function Text(): string { Zeros(zeros) + Decimal(value) }
  }

  /** Dot-separated identifiers, empty ones included: `[0-9A-Za-z.-]*`. */
  predicate Identifiers(s: string) {
    forall i :: 0 <= i < |s| ==>
      || '0' <= s[i] <= '9' || 'A' <= s[i] <= 'Z' || 'a' <= s[i] <= 'z' || s[i] in {'.', '-'}
  }

  function BuildText(build: Option<string>): string { if build.None? then "" else "+" + build.value }

  function SuffixText(pre: string, build: Option<string>): string {
    (if pre == "" then "" else "-" + pre) + BuildText(build)
  }

  predicate ValidBuild(build: Option<string>) { build.None? || (build.value != "" && Identifiers(build.value)) }

  datatype Spelling = Spelling(
    lead: string,
    prefixed: bool,
    major: Numeral,
    minor: Numeral,
    patch: Numeral,
    pre: string,
    build: Option<string>,
    trail: string)
  {
    predicate Valid() { Blank(lead) && Blank(trail) && Identifiers(pre) && ValidBuild(build) }

    function Core(): string {
      major.Text() + ("." + (minor.Text() + ("." + (patch.Text() + SuffixText(pre, build)))))
    }

    function Text(): string { lead + ((if prefixed then "v" else "") + Core() + trail) }

    function Version(): Version { SemVer.Version(major.value, minor.value, patch.value, pre) }
  }

  /** The text is one of the spellings of the version. */
  ghost predicate Spells(s: string, v: Version) {
    exists spelling: Spelling :: spelling.Valid() && spelling.Text() == s && spelling.Version() == v
  }

  // ── Numbers ────────────────────────────────────────────────────────────────

  predicate Digits(s: string) { forall i :: 0 <= i < |s| ==> IsDigit(s[i]) }

  lemma DigitIs(d: nat)
    requires d < 10
    ensures IsDigit(Digit(d)) && Digit(d) as int - '0' as int == d
  {
    assert Digit(d) == ('0' as int + d) as char;
  }

  lemma NumberOfLast(ds: string, last: char)
    requires Digits(ds) && IsDigit(last)
    ensures Digits(ds + [last])
    ensures NumberOf(ds + [last]) == 10 * NumberOf(ds) + (last as int - '0' as int)
  {
    assert (ds + [last])[..|ds|] == ds;
  }

  lemma {:induction false} ZerosCountNothing(n: nat)
    ensures Digits(Zeros(n)) && NumberOf(Zeros(n)) == 0
  {
    if n > 0 {
      ZerosCountNothing(n - 1);
      assert Zeros(n) == Zeros(n - 1) + ['0'];
      NumberOfLast(Zeros(n - 1), '0');
    }
  }

  /** Reading the digits of a number, after any zeros, gives the number. */
  lemma {:induction false} NumeralReadsBack(zeros: nat, n: nat)
    ensures var text := Numeral(zeros, n).Text();
      text != [] && Digits(text) && NumberOf(text) == n
  {
    hide NumberOf, Digit;
    ZerosCountNothing(zeros);
    if n < 10 {
      DigitIs(n);
      NumberOfLast(Zeros(zeros), Digit(n));
    } else {
      NumeralReadsBack(zeros, n / 10);
      DigitIs(n % 10);
      NumberOfLast(Numeral(zeros, n / 10).Text(), Digit(n % 10));
      assert Numeral(zeros, n).Text() == Numeral(zeros, n / 10).Text() + [Digit(n % 10)];
    }
  }

  /** Every digit string is a numeral. */
  lemma {:induction false} DigitsAreNumeral(ds: string) returns (zeros: nat)
    requires ds != [] && Digits(ds)
    ensures Numeral(zeros, NumberOf(ds)).Text() == ds
  {
    hide NumberOf, Digit;
    var init, last := ds[..|ds| - 1], ds[|ds| - 1];
    assert ds == init + [last];
    NumberOfLast(init, last);
    var d := last as int - '0' as int;
    DigitIs(d);
    assert Digit(d) == last;
    if init == [] {
      zeros := 0;
      ZerosCountNothing(0);
      assert init == Zeros(0);
    } else {
      zeros := DigitsAreNumeral(init);
      if NumberOf(init) == 0 {
        assert Decimal(0) == [Digit(0)];
        DigitIs(0);
        assert Decimal(d) == [last];
        assert Digit(0) == '0';
        zeros := zeros + 1;
        assert Zeros(zeros) == Zeros(zeros - 1) + ['0'];
      }
    }
  }

  lemma {:induction false} DigitRunStops(ds: string, rest: string)
    requires Digits(ds) && (rest == [] || !IsDigit(rest[0]))
    ensures DigitRun(ds + rest) == |ds|
  {
    if ds == [] {
      assert ds + rest == rest;
    } else {
      assert (ds + rest)[1..] == ds[1..] + rest;
      DigitRunStops(ds[1..], rest);
    }
  }

  lemma {:induction false} DigitRunEnds(s: string)
    ensures DigitRun(s) == |s| || !IsDigit(s[DigitRun(s)])
  {
    if s != [] && IsDigit(s[0]) { DigitRunEnds(s[1..]); }
  }

  lemma NumeralParses(n: Numeral, rest: string)
    requires rest == [] || !IsDigit(rest[0])
    ensures ParseNumber(n.Text() + rest) == Some(Number(n.value, rest))
  {
    NumeralReadsBack(n.zeros, n.value);
    hide NumberOf, Decimal, DigitRun;
    var ds := n.Text();
    DigitRunStops(ds, rest);
    assert (ds + rest)[..|ds|] == ds && (ds + rest)[|ds|..] == rest;
  }

  lemma ParsedNumeral(s: string) returns (n: Numeral)
    requires ParseNumber(s).Some?
    ensures n.value == ParseNumber(s).value.value && s == n.Text() + ParseNumber(s).value.rest
    ensures var rest := ParseNumber(s).value.rest; rest == [] || !IsDigit(rest[0])
  {
    hide NumberOf, Decimal;
    var k := DigitRun(s);
    DigitRunEnds(s);
    var zeros := DigitsAreNumeral(s[..k]);
    n := Numeral(zeros, NumberOf(s[..k]));
    assert s == s[..k] + s[k..];
  }

  // ── Pre-release and build ──────────────────────────────────────────────────

  lemma {:induction false} IdentifierRunStops(id: string, rest: string)
    requires Identifiers(id) && (rest == [] || rest[0] == '+')
    ensures IdentifierRun(id + rest) == |id|
  {
    if id == [] {
      assert id + rest == rest;
    } else {
      assert (id + rest)[1..] == id[1..] + rest;
      IdentifierRunStops(id[1..], rest);
    }
  }

  lemma {:induction false} IdentifierRunIs(s: string)
    ensures Identifiers(s[..IdentifierRun(s)])
  {
    if s != [] && IsIdentifierChar(s[0]) {
      IdentifierRunIs(s[1..]);
      assert s[..IdentifierRun(s)] == [s[0]] + s[1..][..IdentifierRun(s[1..])];
    }
  }

  lemma BuildEnds(build: Option<string>)
    requires ValidBuild(build)
    ensures EndsAfterBuild(BuildText(build))
  {
    if build.Some? {
      assert ("+" + build.value)[1..] == build.value + [];
      IdentifierRunStops(build.value, []);
    }
  }

  lemma ParsedBuild(s: string) returns (build: Option<string>)
    requires EndsAfterBuild(s)
    ensures ValidBuild(build) && BuildText(build) == s
  {
    if s == [] {
      build := None;
    } else {
      build := Some(s[1..]);
      IdentifierRunIs(s[1..]);
      assert s[1..][..|s| - 1] == s[1..];
      assert "+" + s[1..] == s;
    }
  }

  lemma PreParses(pre: string, rest: string)
    requires pre != "" && Identifiers(pre) && EndsAfterBuild(rest)
    ensures ParseSuffix("-" + pre + rest) == Some(pre)
  {
    IdentifierRunStops(pre, rest);
    hide IdentifierRun, Identifiers, EndsAfterBuild;
    var s := "-" + pre + rest;
    assert s[1..] == pre + rest;
    assert s[1 + |pre|..] == rest && s[1..1 + |pre|] == pre;
  }

  lemma NoPreParses(rest: string)
    requires EndsAfterBuild(rest)
    ensures ParseSuffix(rest) == Some("")
  {
    hide IdentifierRun;
  }

  lemma SuffixParses(pre: string, build: Option<string>)
    requires Identifiers(pre) && ValidBuild(build)
    ensures ParseSuffix(SuffixText(pre, build)) == Some(pre)
  {
    BuildEnds(build);
    hide ParseSuffix, Identifiers, EndsAfterBuild, ValidBuild, BuildText;
    if pre != "" {
      PreParses(pre, BuildText(build));
    } else {
      NoPreParses(BuildText(build));
      assert "" + BuildText(build) == BuildText(build);
    }
  }

  lemma DashFirst(s: string, n: nat)
    requires n < |s| && s[0] == '-'
    ensures s == "-" + s[1..1 + n] + s[1 + n..] && s[1..][..n] == s[1..1 + n]
  {
    assert [s[0]] + s[1..1 + n] + s[1 + n..] == s;
  }

  lemma ParsedSuffix(s: string) returns (build: Option<string>)
    requires ParseSuffix(s).Some?
    ensures Identifiers(ParseSuffix(s).value) && ValidBuild(build)
    ensures SuffixText(ParseSuffix(s).value, build) == s
  {
    hide IdentifierRun, EndsAfterBuild, ValidBuild;
    if s != [] && s[0] == '-' {
      var n := IdentifierRun(s[1..]);
      IdentifierRunIs(s[1..]);
      build := ParsedBuild(s[1 + n..]);
      DashFirst(s, n);
    } else {
      build := ParsedBuild(s);
    }
  }

  // ── The whole version ──────────────────────────────────────────────────────

  lemma AfterDotOf(s: string)
    ensures AfterDot("." + s) == Some(s)
  {
    assert ("." + s)[1..] == s;
  }

  lemma DottedParses(n: Numeral, s: string)
    ensures ParseNumber(n.Text() + ("." + s)) == Some(Number(n.value, "." + s))
    ensures AfterDot("." + s) == Some(s)
  {
    AfterDotOf(s);
    hide ParseNumber, AfterDot, Numeral.Text;
    NumeralParses(n, "." + s);
  }

  lemma CoreParses(sp: Spelling)
    requires sp.Valid()
    ensures ParseCore(sp.Core()) == Some(sp.Version())
  {
    hide ParseNumber, ParseSuffix, AfterDot, SuffixText, Numeral.Text, Identifiers, ValidBuild, Blank;
    SuffixParses(sp.pre, sp.build);
    SuffixStart(sp.pre, sp.build);
    var suffix := SuffixText(sp.pre, sp.build);
    NumeralParses(sp.patch, suffix);
    var s2 := sp.patch.Text() + suffix;
    DottedParses(sp.minor, s2);
    var s1 := sp.minor.Text() + ("." + s2);
    DottedParses(sp.major, s1);
  }

  lemma SuffixStart(pre: string, build: Option<string>)
    ensures var s := SuffixText(pre, build); s == [] || !IsDigit(s[0])
  {}

  /** A number with a dot after it. */
  lemma ParsedDotted(s: string) returns (n: Numeral, after: string)
    requires ParseNumber(s).Some? && AfterDot(ParseNumber(s).value.rest).Some?
    ensures n.value == ParseNumber(s).value.value && after == AfterDot(ParseNumber(s).value.rest).value
    ensures s == n.Text() + ("." + after)
  {
    n := ParsedNumeral(s);
    hide ParseNumber, Numeral.Text;
    var rest := ParseNumber(s).value.rest;
    after := AfterDot(rest).value;
    assert rest == "." + after;
  }

  /** A text the parser accepts, taken apart into a spelling. */
  lemma ParsedCore(s: string) returns (sp: Spelling)
    requires ParseCore(s).Some?
    ensures sp.Valid() && sp.lead == sp.trail == "" && !sp.prefixed
    ensures sp.Core() == s && ParseCore(s) == Some(sp.Version())
  {
    hide ParseNumber, ParseSuffix, AfterDot, Identifiers, ValidBuild, SuffixText, Numeral.Text;
    var major, s1 := ParsedDotted(s);
    var minor, s2 := ParsedDotted(s1);
    var patch := ParsedNumeral(s2);
    var suffix := ParseNumber(s2).value.rest;
    var build := ParsedSuffix(suffix);
    sp := Spelling("", false, major, minor, patch, ParseSuffix(suffix).value, build, "");
  }

  lemma CoreEnds(sp: Spelling)
    requires sp.Valid()
    ensures sp.Core() != [] && IsDigit(sp.Core()[0]) && !IsSpace(sp.Core()[|sp.Core()| - 1])
  {
    NumeralReadsBack(sp.major.zeros, sp.major.value);
    NumeralReadsBack(sp.patch.zeros, sp.patch.value);
    hide NumberOf, Decimal, IsSpace;
    SuffixEnd(sp.pre, sp.build);
    var patch, suffix := sp.patch.Text(), SuffixText(sp.pre, sp.build);
    var last := (patch + suffix)[|patch + suffix| - 1];
    assert sp.Core()[|sp.Core()| - 1] == last;
    if suffix == [] {
      assert IsDigit(last);
      DigitIsNoSpace(last);
    }
  }

  lemma DigitIsNoSpace(c: char)
    requires IsDigit(c)
    ensures !IsSpace(c)
  {}

  lemma SuffixEnd(pre: string, build: Option<string>)
    requires Identifiers(pre) && ValidBuild(build)
    ensures var s := SuffixText(pre, build); s == [] || !IsSpace(s[|s| - 1])
  {
    var s := SuffixText(pre, build);
    if build.Some? {
      assert s[|s| - 1] == build.value[|build.value| - 1];
    } else if pre != "" {
      assert s[|s| - 1] == pre[|pre| - 1];
    }
  }

  lemma SpellingStrips(sp: Spelling)
    requires sp.Valid()
    ensures Strip(sp.Text()) == (if sp.prefixed then "v" else "") + sp.Core()
    ensures sp.Core() != [] && sp.Core()[0] != 'v'
  {
    CoreEnds(sp);
    DigitIsNoSpace(sp.Core()[0]);
    assert !IsSpace('v');
    hide Strip, Spelling.Core, Identifiers, ValidBuild, IsSpace;
    var core := (if sp.prefixed then "v" else "") + sp.Core();
    assert core[|core| - 1] == sp.Core()[|sp.Core()| - 1];
    StripAround(sp.lead, core, sp.trail);
    assert sp.Text() == sp.lead + (core + sp.trail);
  }

  /** Every spelling parses to the version it spells. */
  lemma SpellingParses(sp: Spelling)
    requires sp.Valid()
    ensures ParseSemver(sp.Text()) == Some(sp.Version())
  {
    hide Strip, ParseCore, Spelling.Core, Spelling.Valid, Spelling.Text;
    CoreParses(sp);
    SpellingStrips(sp);
    assert sp.prefixed ==> ("v" + sp.Core())[1..] == sp.Core();
    assert !sp.prefixed ==> "" + sp.Core() == sp.Core();
  }

  /** A bare spelling with an optional `v` and white space around it. */
  lemma Wrapped(sp: Spelling, lead: string, prefixed: bool, trail: string)
    requires sp.Valid() && Blank(lead) && Blank(trail)
    ensures Spells(lead + ((if prefixed then "v" else "") + sp.Core() + trail), sp.Version())
  {
    var whole := sp.(lead := lead, prefixed := prefixed, trail := trail);
    SameCore(sp, whole);
    hide Spelling.Core, Identifiers, ValidBuild;
    assert whole.Valid() && whole.Version() == sp.Version();
    assert whole.Text() == lead + ((if prefixed then "v" else "") + sp.Core() + trail);
  }

  lemma SameCore(a: Spelling, b: Spelling)
    requires a.major == b.major && a.minor == b.minor && a.patch == b.patch && a.pre == b.pre && a.build == b.build
    ensures a.Core() == b.Core()
  {}

  /** Every text that parses is a spelling. */
  lemma ParsedIsSpelled(s: string)
    requires ParseSemver(s).Some?
    ensures Spells(s, ParseSemver(s).value)
  {
    hide ParseCore, Spells, Spelling.Core, Spelling.Valid, Strip, Lead;
    var bare := Strip(s);
    var prefixed := bare != [] && bare[0] == 'v';
    var core := if prefixed then bare[1..] else bare;
    var sp := ParsedCore(core);
    NotEmpty(core);
    LeadIsSpace(s);
    var trail := StripParts(s);
    Wrapped(sp, Lead(s), prefixed, trail);
    assert bare == (if prefixed then "v" else "") + core;
    assert s == Lead(s) + (bare + trail);
  }

  lemma NotEmpty(s: string)
    requires ParseCore(s).Some?
    ensures s != []
  {}

  /** The parser answers a version for exactly the texts that spell it; so it
      answers nothing exactly for the texts that spell no version. */
  lemma ParsesIffSpelled(s: string)
    ensures forall v: Version :: ParseSemver(s) == Some(v) <==> Spells(s, v)
    ensures ParseSemver(s) == None <==> !exists v: Version :: Spells(s, v)
  {
    hide ParseSemver;
    if ParseSemver(s).Some? { ParsedIsSpelled(s); }
    forall v: Version | Spells(s, v) ensures ParseSemver(s) == Some(v) {
      var sp: Spelling :| sp.Valid() && sp.Text() == s && sp.Version() == v;
      hide Spelling.Valid, Spelling.Text, Spelling.Version;
      SpellingParses(sp);
    }
  }
}
