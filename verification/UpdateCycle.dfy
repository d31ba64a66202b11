/**
  What a completed image update means for the next one: the version pinned in
  `.env` is read back as the current version of the next check
  (sidecar/image_update.py, `make_step_resolve`, `step_install` and
  `current_version`).
 */
module UpdateCycle {
  import opened Wrappers
  import opened PythonText
  import opened SemVer
  import opened Releases
  import opened UpdateRun
  import opened ImageInstall
  import EnvFile

  predicate IsVersionChar(c: char) { IsIdentifierChar(c) || c == '+' }

  predicate AllVersionChars(s: string) { forall i :: 0 <= i < |s| ==> IsVersionChar(s[i]) }

  lemma {:induction false} IdentifierRunChars(s: string)
    ensures AllVersionChars(s[..IdentifierRun(s)])
  {
    if s != [] && IsIdentifierChar(s[0]) {
      IdentifierRunChars(s[1..]);
      var n := IdentifierRun(s);
      assert forall i :: 0 < i < n ==> s[..n][i] == s[1..][..n - 1][i - 1];
    }
  }

  lemma BuildChars(s: string)
    requires EndsAfterBuild(s)
    ensures AllVersionChars(s)
  {
    if s != [] {
      IdentifierRunChars(s[1..]);
      assert s[1..][..|s| - 1] == s[1..];
      assert forall i :: 0 < i < |s| ==> s[i] == s[1..][i - 1];
    }
  }

  lemma SuffixChars(s: string)
    requires ParseSuffix(s).Some?
    ensures AllVersionChars(s)
  {
    if s != [] && s[0] == '-' {
      var n := IdentifierRun(s[1..]);
      IdentifierRunChars(s[1..]);
      BuildChars(s[1 + n..]);
      assert s == [s[0]] + s[1..][..n] + s[1 + n..];
    } else {
      BuildChars(s);
    }
  }

  /** What follows a number (and its dot) decides; the digits are version characters. */
  lemma NumberChars(s: string)
    requires ParseNumber(s).Some?
    ensures AllVersionChars(ParseNumber(s).value.rest) ==> AllVersionChars(s)
    ensures AfterDot(ParseNumber(s).value.rest).Some? && AllVersionChars(AfterDot(ParseNumber(s).value.rest).value) ==>
      AllVersionChars(s)
  {
    hide NumberOf;
    var n := DigitRun(s);
    assert s == s[..n] + s[n..];
    if s[n..] != [] { assert s[n..] == [s[n]] + s[n..][1..]; }
  }

  lemma CoreChars(s: string)
    requires ParseCore(s).Some?
    ensures AllVersionChars(s)
  {
    hide ParseNumber, AfterDot, ParseSuffix, AllVersionChars;
    var s1 := AfterDot(ParseNumber(s).value.rest).value;
    var s2 := AfterDot(ParseNumber(s1).value.rest).value;
    SuffixChars(ParseNumber(s2).value.rest);
    NumberChars(s2);
    NumberChars(s1);
    NumberChars(s);
  }

  /** A version without the white space around it is plain: not empty, and free of
      white space, line breaks, quotes and `=`. */
  lemma StrippedIsPlain(version: string)
    requires ParseSemver(version).Some?
    ensures var s := Strip(version);
      && s != [] && LineFree(s) && !EnvFile.QuoteWrapped(s) && '=' !in s
      && Strip(s) == s && ParseSemver(s) == ParseSemver(version)
  {
    hide ParseCore;
    var s := Strip(version);
    var core := if s != [] && s[0] == 'v' then s[1..] else s;
    CoreChars(core);
    CoreStartsWithDigit(core);
    assert forall i :: 0 < i < |s| && s[0] == 'v' ==> s[i] == core[i - 1];
    assert AllVersionChars(s);
    assert LineFree(s);
    StripTrims(version);
    StripTrims(s);
  }

  /** The first line holds the whole version exactly if no line break is in front. */
  lemma FirstLineOfVersion(version: string)
    requires Strip(version) != [] && LineFree(Strip(version))
    ensures Strip(FirstLine(version)) == if LineFree(Lead(version)) then Strip(version) else ""
  {
    var trail := StripParts(version);
    var lead, s := Lead(version), Strip(version);
    LeadIsSpace(version);
    hide Lead, LStrip, RStrip, Strip, IsSpace, IsLineBreak;
    var e := LineEnd(version);
    assert forall i :: 0 <= i < |lead| ==> version[i] == lead[i];
    assert forall i :: 0 <= i < |s| ==> version[|lead| + i] == s[i];
    if LineFree(lead) {
      var m := |lead| + |s|;
      assert forall i :: 0 <= i < m ==> version[i] == (lead + s)[i] && !IsLineBreak(version[i]);
      assert e >= m;
      var rest := trail[..e - m];
      assert FirstLine(version) == lead + (s + rest);
      StripAround(lead, s, rest);
    } else {
      var i :| 0 <= i < |lead| && IsLineBreak(lead[i]);
      assert e <= i;
      assert FirstLine(version) == lead[..e];
      OnlySpace(lead[..e]);
      OnlySpace(LStrip(lead[..e]));
      StripEmpty(lead[..e]);
    }
  }

  lemma NoVersion()
    ensures ParseSemver("") == None
  {}

  /** The pinned version reads back as the same text exactly if it has no white
      space around it, and as the same version exactly if no line break is in front
      of it; otherwise nothing is read back. */
  lemma PinnedVersionReadsBack(file: EnvFile.File, key: string, version: string)
    requires EnvFile.ValidKey(key) && ParseSemver(version).Some?
    ensures var now := EnvFile.ReadValue(Some(EnvFile.WriteValue(file, key, version)), key);
      && (now == version <==> Trimmed(version))
      && ParseSemver(now) == if LineFree(Lead(version)) then ParseSemver(version) else None
  {
    hide ParseSemver, EnvFile.ReadValue, EnvFile.WriteValue, Lead, FirstLine;
    StrippedIsPlain(version);
    StripTrims(version);
    EnvFile.PutThenGet(file, key, version);
    NoEqualsSignAround(version);
    EnvFile.ReadBackFirstLine(file, key, version);
    FirstLineOfVersion(version);
    NoVersion();
  }

  lemma NoEqualsSignAround(version: string)
    requires Strip(version) != [] && '=' !in Strip(version)
    ensures '=' !in version
  {
    var trail := StripParts(version);
    LeadIsSpace(version);
    assert !IsSpace('=');
    hide Strip, Lead;
  }

  function PinnedIn(files: Files): string { EnvFile.ReadValue(FileAt(files, Live(DotEnv)), VERSION_KEY) }

  predicate GotToRestart(f: Finished<World>) { f.failed.None? || f.failed.value > MIGRATE }

  /** A run that gets to `restart`, for the first of the newer releases, ends with a
      pinned version that parses exactly if its tag has no line break in front; and
      then it lies strictly above the old one, and the same release list holds
      nothing newer. */
  lemma UpdateRaisesPinnedVersion(s: Scenario, start: World, releases: seq<Option<Release>>, current: Version, allowPrerelease: bool)
    requires Newer(releases, current, allowPrerelease) != []
    requires s.version == Newer(releases, current, allowPrerelease)[0].version
    requires GotToRestart(RunFrom(ImageSteps(s), 0, start))
    ensures var now := ParseSemver(PinnedIn(RunFrom(ImageSteps(s), 0, start).world.files));
      && (now.Some? <==> LineFree(Lead(s.version)))
      && (now.Some? ==> Precedes(current, now.value) && Newer(releases, now.value, allowPrerelease) == [])
    ensures PinnedIn(RunFrom(ImageSteps(s), 0, start).world.files) == s.version <==> Trimmed(s.version)
  {
    hide ParseSemver, Newer, RunFrom, ImageSteps, EnvFile.ReadValue, EnvFile.WriteValue, Lead;
    ImageUpdateFiles(s, start);
    VersionKeyIsValid();
    var target := Newer(releases, current, allowPrerelease)[0];
    NewerIsEligible(releases, current, allowPrerelease, target);
    PinnedVersionReadsBack(FileAt(start.files, Live(DotEnv)), VERSION_KEY, s.version);
    UpdatesMakeProgress(releases, current, allowPrerelease);
  }

  /** What can be the tag of an image: nothing else can be pulled. */
  predicate ImageTag(s: string) {
    1 <= |s| <= 128 && forall i :: 0 <= i < |s| ==>
      IsDigit(s[i]) || 'a' <= s[i] <= 'z' || 'A' <= s[i] <= 'Z' || s[i] == '_' || (i > 0 && s[i] in {'.', '-'})
  }

  /** Where the version can be an image tag, the pinned text always reads back, and
      the update has raised the version. */
  lemma PulledUpdateRaisesVersion(s: Scenario, start: World, releases: seq<Option<Release>>, current: Version, allowPrerelease: bool)
    requires Newer(releases, current, allowPrerelease) != []
    requires s.version == Newer(releases, current, allowPrerelease)[0].version && ImageTag(s.version)
    requires GotToRestart(RunFrom(ImageSteps(s), 0, start))
    ensures var now := PinnedIn(RunFrom(ImageSteps(s), 0, start).world.files);
      && now == s.version && ParseSemver(now).Some?
      && Precedes(current, ParseSemver(now).value) && Newer(releases, ParseSemver(now).value, allowPrerelease) == []
  {
    UpdateRaisesPinnedVersion(s, start, releases, current, allowPrerelease);
    TagHasNoSpace(s.version);
    hide Newer, RunFrom, ImageSteps, ParseSemver;
  }

  lemma TagHasNoSpace(tag: string)
    requires ImageTag(tag)
    ensures Trimmed(tag) && LineFree(Lead(tag))
  {
    assert forall i :: 0 <= i < |tag| ==> !IsSpace(tag[i]);
    assert Lead(tag) == [];
  }

  /** A tag the parser accepts and no registry does: pinned, it would not be read back. */
  lemma LineBreakInFront(file: EnvFile.File)
    ensures ParseSemver("\n1.0.0") == Some(Version(1, 0, 0, ""))
    ensures !ImageTag("\n1.0.0")
    ensures ParseSemver(EnvFile.ReadValue(Some(EnvFile.WriteValue(file, VERSION_KEY, "\n1.0.0")), VERSION_KEY)) == None
  {
    StrippedLineBreak();
    PlainVersion();
    VersionKeyIsValid();
    hide ParseCore, Strip, Lead, ImageTag, IsLineBreak, EnvFile.ReadValue, EnvFile.WriteValue, EnvFile.ValidKey;
    assert ParseSemver("\n1.0.0") == Some(Version(1, 0, 0, ""));
    hide ParseSemver;
    PinnedVersionReadsBack(file, VERSION_KEY, "\n1.0.0");
  }

  lemma StrippedLineBreak()
    ensures Strip("\n1.0.0") == "1.0.0" && !LineFree(Lead("\n1.0.0")) && !ImageTag("\n1.0.0")
  {
    var v := "\n1.0.0";
    assert v[1..] == "1.0.0" && LStrip(v) == "1.0.0";
    assert Lead(v) == "\n" && IsLineBreak(Lead(v)[0]);
    assert v[0] == '\n';
  }

  lemma PlainVersion()
    ensures ParseCore("1.0.0") == Some(Version(1, 0, 0, ""))
  {
    var s, t, u := "1.0.0", "0.0", "0";
    assert DigitRun(s) == 1 && s[..1] == "1" && s[1..] == ".0.0" && s[1..][1..] == t;
    assert DigitRun(t) == 1 && t[..1] == "0" && t[1..] == ".0" && t[1..][1..] == u;
    assert DigitRun(u) == 1 && u[..1] == "0" && u[1..] == "";
    assert "1"[..0] == "" && "0"[..0] == "";
    assert NumberOf("1") == 1 && NumberOf("0") == 0;
    assert ParseNumber(s) == Some(Number(1, ".0.0")) && ParseNumber(t) == Some(Number(0, ".0")) && ParseNumber(u) == Some(Number(0, ""));
    assert AfterDot(".0.0") == Some(t) && AfterDot(".0") == Some(u);
    hide ParseNumber, AfterDot;
  }

  lemma VersionKeyIsValid()
    ensures EnvFile.ValidKey(VERSION_KEY)
  {}
}
