/**
  Release versions of the self-updater (sidecar/image_update.py): parsing, the
  sort key, and the choice of the release to install.

  `Precedes` states section 11 of SemVer 2.0.0 on its own; the sort key is proved
  to order versions exactly like it.
 */
module SemVer {
  import opened Wrappers
  import opened PythonText

  datatype Version = Version(major: nat, minor: nat, patch: nat, pre: string)

  // ── Parsing ────────────────────────────────────────────────────────────────

  /** The number spelled by ASCII digits. */
  function NumberOf(ds: string): nat
    requires forall i :: 0 <= i < |ds| ==> IsDigit(ds[i])
  {
    if ds == [] then 0
    else
      assert IsDigit(ds[|ds| - 1]);
      10 * NumberOf(ds[..|ds| - 1]) + (ds[|ds| - 1] as int - '0' as int)
  }

  function DigitRun(s: string): (n: nat)
    ensures n <= |s| && forall i :: 0 <= i < n ==> IsDigit(s[i])
  {
    if s == [] || !IsDigit(s[0]) then 0 else 1 + DigitRun(s[1..])
  }

  predicate IsIdentifierChar(c: char) {
    IsDigit(c) || 'A' <= c <= 'Z' || 'a' <= c <= 'z' || c == '.' || c == '-'
  }

  function IdentifierRun(s: string): (n: nat)
    ensures n <= |s|
  {
    if s == [] || !IsIdentifierChar(s[0]) then 0 else 1 + IdentifierRun(s[1..])
  }

  /** The digits at the front, then `stop` (or nothing more to check). */
  datatype Number = Number(value: nat, rest: string)

  function ParseNumber(s: string): Option<Number> {
    var n := DigitRun(s);
    if n == 0 then None else Some(Number(NumberOf(s[..n]), s[n..]))
  }

  function AfterDot(s: string): Option<string> {
    if s != [] && s[0] == '.' then Some(s[1..]) else None
  }

  /** The optional `-pre` and `+build`, which must reach the end. */
  function ParseSuffix(s: string): Option<string> {
    if s != [] && s[0] == '-' then
      var n := IdentifierRun(s[1..]);
      if n > 0 && EndsAfterBuild(s[1 + n..]) then Some(s[1..1 + n]) else None
    else if EndsAfterBuild(s) then Some("") else None
  }

  predicate EndsAfterBuild(s: string) {
    s == [] || (s[0] == '+' && |s| > 1 && IdentifierRun(s[1..]) == |s| - 1)
  }

  function ParseCore(s: string): Option<Version> {
    match ParseNumber(s)
    case None => None
    case Some(major) =>
      match AfterDot(major.rest)
      case None => None
      case Some(s1) =>
        match ParseNumber(s1)
        case None => None
        case Some(minor) =>
          match AfterDot(minor.rest)
          case None => None
          case Some(s2) =>
            match ParseNumber(s2)
            case None => None
            case Some(patch) =>
              match ParseSuffix(patch.rest)
              case None => None
              case Some(pre) => Some(Version(major.value, minor.value, patch.value, pre))
  }

  /** `"v1.2.3-rc.1"`, with any white space around it. */
  function ParseSemver(value: string): Option<Version> {
    var s := Strip(value);
    ParseCore(if s != [] && s[0] == 'v' then s[1..] else s)
  }

  function StripV(tag: string): string {
    if tag != [] && tag[0] == 'v' then StripV(tag[1..]) else tag
  }

  /** Dropping the leading `v` of a release tag does not change its version. */
  lemma TagAndVersionAgree(tag: string)
    requires ParseSemver(tag).Some?
    ensures ParseSemver(StripV(tag)) == ParseSemver(tag)
  {
    hide ParseCore;
    if tag != [] && tag[0] == 'v' {
      LStripBare(tag);
      RStripAfter(['v'], tag[1..]);
      assert ['v'] + tag[1..] == tag;
      var s := RStrip(tag[1..]);
      assert Strip(tag)[1..] == s;
      assert s != [] && IsDigit(s[0]) by { CoreStartsWithDigit(s); }
      RStripBare(tag[1..]);
      assert tag[1] == s[0];
      assert Strip(tag[1..]) == s;
    }
  }

  lemma CoreStartsWithDigit(s: string)
    requires ParseCore(s).Some?
    ensures s != [] && IsDigit(s[0])
  {}

  // ── The sort key ───────────────────────────────────────────────────────────

  /** The dot-separated parts, at least one. */
  function SplitDots(s: string): (parts: seq<string>)
    ensures parts != []
  {
    if s == [] then [""]
    else
      var rest := SplitDots(s[1..]);
      if s[0] == '.' then [""] + rest else [[s[0]] + rest[0]] + rest[1..]
  }

  function JoinDots(parts: seq<string>): string {
    if |parts| == 0 then "" else if |parts| == 1 then parts[0] else parts[0] + "." + JoinDots(parts[1..])
  }

  lemma JoinEmptyFirst(rest: seq<string>)
    requires rest != []
    ensures JoinDots([""] + rest) == "." + JoinDots(rest)
  {
    assert ([""] + rest)[1..] == rest;
    hide JoinDots;
    assert "" + "." == ".";
  }

  lemma JoinLongerFirst(c: char, rest: seq<string>)
    requires rest != []
    ensures JoinDots([[c] + rest[0]] + rest[1..]) == [c] + JoinDots(rest)
  {
    var parts := [[c] + rest[0]] + rest[1..];
    assert parts[1..] == rest[1..];
    if |rest| > 1 {
      var tail := JoinDots(rest[1..]);
      assert JoinDots(parts) == [c] + rest[0] + "." + tail && JoinDots(rest) == rest[0] + "." + tail;
      hide *;
      Prepended(c, rest[0], tail);
    }
  }

  lemma Prepended(c: char, part: string, tail: string)
    ensures [c] + part + "." + tail == [c] + (part + "." + tail)
  {}

  /** No dot is left in a part, and nothing but the dots between them is lost. */
  lemma {:induction false} SplitDotsExact(s: string)
    ensures JoinDots(SplitDots(s)) == s
    ensures forall i :: 0 <= i < |SplitDots(s)| ==> '.' !in SplitDots(s)[i]
  {
    if s != [] {
      SplitDotsExact(s[1..]);
      var rest := SplitDots(s[1..]);
      var c := s[0];
      assert s == [c] + s[1..];
      assert SplitDots(s) == if c == '.' then [""] + rest else [[c] + rest[0]] + rest[1..];
      hide SplitDots;
      if c == '.' { JoinEmptyFirst(rest); } else { JoinLongerFirst(c, rest); }
    }
  }

  predicate IsNumeric(p: string) { p != [] && forall i :: 0 <= i < |p| ==> IsDigit(p[i]) }

  datatype PartKey = PartKey(rank: nat, number: nat, text: string)

  function KeyOfPart(p: string): PartKey {
    if IsNumeric(p) then PartKey(0, NumberOf(p), "") else PartKey(1, 0, p)
  }

  datatype Key = Key(major: nat, minor: nat, patch: nat, release: nat, pre: seq<PartKey>)

  function KeysOf(parts: seq<string>): seq<PartKey> {
    if parts == [] then [] else [KeyOfPart(parts[0])] + KeysOf(parts[1..])
  }

  function KeyOf(v: Version): Key {
    Key(v.major, v.minor, v.patch, if v.pre == "" then 1 else 0,
        if v.pre == "" then [] else KeysOf(SplitDots(v.pre)))
  }

  function CompareNat(x: nat, y: nat): int { if x < y then -1 else if x > y then 1 else 0 }

  /** The first difference decides, as for Python tuples. */
  function First(a: int, b: int): int { if a != 0 then a else b }

  function ComparePart(a: PartKey, b: PartKey): int {
    First(CompareNat(a.rank, b.rank), First(CompareNat(a.number, b.number), CompareText(a.text, b.text)))
  }

  function CompareParts(a: seq<PartKey>, b: seq<PartKey>): int {
    if a == [] && b == [] then 0
    else if a == [] then -1
    else if b == [] then 1
    else First(ComparePart(a[0], b[0]), CompareParts(a[1..], b[1..]))
  }

  function CompareKeys(a: Key, b: Key): int {
    First(CompareNat(a.major, b.major), First(CompareNat(a.minor, b.minor), First(CompareNat(a.patch, b.patch),
      First(CompareNat(a.release, b.release), CompareParts(a.pre, b.pre)))))
  }

  function Compare(a: Version, b: Version): int { CompareKeys(KeyOf(a), KeyOf(b)) }

  // ── SemVer 2.0.0, section 11 ───────────────────────────────────────────────

  /** ASCII order: at the first difference, or as a proper prefix. */
  ghost predicate TextPrecedes(x: string, y: string) {
    exists k: nat :: TextDiffersAt(x, y, k)
  }

  ghost predicate TextDiffersAt(x: string, y: string, k: nat) {
    && k <= |x| && k < |y| && x[..k] == y[..k]
    && (k == |x| || x[k] < y[k])
  }

  /** Numeric identifiers compare as numbers and rank below the others. */
  ghost predicate IdentifierPrecedes(x: string, y: string) {
    if IsNumeric(x) && IsNumeric(y) then NumberOf(x) < NumberOf(y)
    else if IsNumeric(x) || IsNumeric(y) then IsNumeric(x)
    else TextPrecedes(x, y)
  }

  ghost predicate SameIdentifier(x: string, y: string) {
    if IsNumeric(x) && IsNumeric(y) then NumberOf(x) == NumberOf(y) else x == y
  }

  /** Left to right, the first differing identifier decides; if all are the
      same, the version with fewer of them precedes. */
  ghost predicate IdentifiersPrecede(x: seq<string>, y: seq<string>) {
    exists k: nat :: IdentifiersDifferAt(x, y, k)
  }

  ghost predicate IdentifiersDifferAt(x: seq<string>, y: seq<string>, k: nat) {
    && k <= |x| && k < |y|
    && (forall i :: 0 <= i < k ==> SameIdentifier(x[i], y[i]))
    && (k == |x| || IdentifierPrecedes(x[k], y[k]))
  }

  ghost predicate Precedes(a: Version, b: Version) {
    if a.major != b.major then a.major < b.major
    else if a.minor != b.minor then a.minor < b.minor
    else if a.patch != b.patch then a.patch < b.patch
    else a.pre != "" && (b.pre == "" || IdentifiersPrecede(SplitDots(a.pre), SplitDots(b.pre)))
  }

  // ── The key orders versions by precedence ──────────────────────────────────

  lemma SameFront(x: string, y: string, k: nat)
    requires x != [] && y != [] && TextDiffersAt(x, y, k)
    ensures k == 0 || x[0] == y[0]
  {
    if k > 0 { assert x[..k][0] == y[..k][0]; }
  }

  lemma {:induction false} CompareTextIsPrecedence(x: string, y: string)
    ensures CompareText(x, y) < 0 <==> TextPrecedes(x, y)
    ensures CompareText(x, y) == 0 <==> x == y
    ensures CompareText(y, x) == -CompareText(x, y)
  {
    if x == [] {
      if y != [] { assert TextDiffersAt(x, y, 0); }
    } else if y != [] && x[0] == y[0] {
      CompareTextIsPrecedence(x[1..], y[1..]);
      if k: nat :| TextDiffersAt(x[1..], y[1..], k) {
        assert x[..k + 1] == [x[0]] + x[1..][..k] && y[..k + 1] == [y[0]] + y[1..][..k];
        assert TextDiffersAt(x, y, k + 1);
      }
      if k: nat :| TextDiffersAt(x, y, k) {
        assert k > 0;
        assert x[1..][..k - 1] == x[..k][1..] && y[1..][..k - 1] == y[..k][1..];
        assert TextDiffersAt(x[1..], y[1..], k - 1);
      }
      assert x == [x[0]] + x[1..] && y == [y[0]] + y[1..];
    } else if y != [] {
      if x[0] < y[0] { assert x[..0] == y[..0]; assert TextDiffersAt(x, y, 0); }
      forall k: nat | TextDiffersAt(x, y, k) ensures k == 0 { SameFront(x, y, k); }
    }
  }

  lemma ComparePartIsPrecedence(x: string, y: string)
    ensures ComparePart(KeyOfPart(x), KeyOfPart(y)) < 0 <==> IdentifierPrecedes(x, y)
    ensures ComparePart(KeyOfPart(x), KeyOfPart(y)) == 0 <==> SameIdentifier(x, y)
    ensures ComparePart(KeyOfPart(y), KeyOfPart(x)) == -ComparePart(KeyOfPart(x), KeyOfPart(y))
  {
    CompareTextIsPrecedence(x, y);
    CompareTextIsPrecedence("", "");
    hide CompareText, TextPrecedes, NumberOf;
  }

  lemma {:induction false} ComparePartsIsPrecedence(x: seq<string>, y: seq<string>)
    ensures CompareParts(KeysOf(x), KeysOf(y)) < 0 <==> IdentifiersPrecede(x, y)
    ensures CompareParts(KeysOf(y), KeysOf(x)) == -CompareParts(KeysOf(x), KeysOf(y))
  {
    hide ComparePart, KeyOfPart, SameIdentifier, IdentifierPrecedes;
    if x == [] {
      if y != [] { assert IdentifiersDifferAt(x, y, 0); }
    } else if y != [] {
      ComparePartIsPrecedence(x[0], y[0]);
      var kx, ky := KeysOf(x), KeysOf(y);
      assert kx[1..] == KeysOf(x[1..]) && ky[1..] == KeysOf(y[1..]);
      ComparePartsIsPrecedence(x[1..], y[1..]);
      LaterDifference(x, y);
    }
  }

  /** A list of identifiers precedes another by its head, or its tail does. */
  lemma LaterDifference(x: seq<string>, y: seq<string>)
    requires x != [] && y != []
    requires IdentifierPrecedes(x[0], y[0]) ==> !SameIdentifier(x[0], y[0])
    ensures IdentifiersPrecede(x, y) <==>
      IdentifierPrecedes(x[0], y[0]) || (SameIdentifier(x[0], y[0]) && IdentifiersPrecede(x[1..], y[1..]))
  {
    hide SameIdentifier, IdentifierPrecedes;
    if IdentifierPrecedes(x[0], y[0]) { assert IdentifiersDifferAt(x, y, 0); }
    if SameIdentifier(x[0], y[0]) && IdentifiersPrecede(x[1..], y[1..]) {
      var k: nat :| IdentifiersDifferAt(x[1..], y[1..], k);
      forall i | 0 <= i < k + 1 ensures SameIdentifier(x[i], y[i]) {
        if i > 0 { assert x[1..][i - 1] == x[i] && y[1..][i - 1] == y[i]; }
      }
      assert IdentifiersDifferAt(x, y, k + 1);
    }
    if k: nat :| IdentifiersDifferAt(x, y, k) {
      if k > 0 {
        forall i | 0 <= i < k - 1 ensures SameIdentifier(x[1..][i], y[1..][i]) {
          assert SameIdentifier(x[i + 1], y[i + 1]);
        }
        assert IdentifiersDifferAt(x[1..], y[1..], k - 1);
      }
    }
  }

  /** The sort key is SemVer precedence, and it is antisymmetric and total: of two
      versions one precedes, the other precedes, or neither and the keys tie. */
  lemma KeyOrderIsPrecedence(a: Version, b: Version)
    ensures Compare(a, b) < 0 <==> Precedes(a, b)
    ensures Compare(a, b) > 0 <==> Precedes(b, a)
    ensures Compare(a, b) == 0 <==> !Precedes(a, b) && !Precedes(b, a)
    ensures Compare(b, a) == -Compare(a, b)
  {
    ComparePartsIsPrecedence(SplitDots(a.pre), SplitDots(b.pre));
    ComparePartsIsPrecedence(SplitDots(b.pre), SplitDots(a.pre));
    hide KeysOf, SplitDots, IdentifiersPrecede;
  }

  lemma {:induction false} CompareTextTransitive(x: string, y: string, z: string)
    requires CompareText(x, y) <= 0 && CompareText(y, z) <= 0
    ensures CompareText(x, z) <= 0
    ensures CompareText(x, z) == 0 ==> CompareText(x, y) == 0 && CompareText(y, z) == 0
  {
    if x != [] && y != [] && z != [] && x[0] == y[0] == z[0] {
      CompareTextTransitive(x[1..], y[1..], z[1..]);
    }
  }

  lemma ComparePartTransitive(x: PartKey, y: PartKey, z: PartKey)
    requires ComparePart(x, y) <= 0 && ComparePart(y, z) <= 0
    ensures ComparePart(x, z) <= 0
    ensures ComparePart(x, z) == 0 ==> ComparePart(x, y) == 0 && ComparePart(y, z) == 0
  {
    hide CompareText;
    if CompareText(x.text, y.text) <= 0 && CompareText(y.text, z.text) <= 0 {
      CompareTextTransitive(x.text, y.text, z.text);
    }
  }

  lemma {:induction false} ComparePartsTransitive(x: seq<PartKey>, y: seq<PartKey>, z: seq<PartKey>)
    requires CompareParts(x, y) <= 0 && CompareParts(y, z) <= 0
    ensures CompareParts(x, z) <= 0
    ensures CompareParts(x, z) == 0 ==> CompareParts(x, y) == 0 && CompareParts(y, z) == 0
  {
    hide ComparePart;
    if x != [] && y != [] && z != [] {
      ComparePartTransitive(x[0], y[0], z[0]);
      if ComparePart(x[0], y[0]) == 0 && ComparePart(y[0], z[0]) == 0 {
        ComparePartsTransitive(x[1..], y[1..], z[1..]);
      }
    }
  }

  /** Precedence is transitive, also through ties. */
  lemma CompareTransitive(a: Version, b: Version, c: Version)
    requires Compare(a, b) <= 0 && Compare(b, c) <= 0
    ensures Compare(a, c) <= 0
    ensures Compare(a, c) == 0 ==> Compare(a, b) == 0 && Compare(b, c) == 0
  {
    var ka, kb, kc := KeyOf(a), KeyOf(b), KeyOf(c);
    hide KeyOf, CompareParts;
    if CompareParts(ka.pre, kb.pre) <= 0 && CompareParts(kb.pre, kc.pre) <= 0 {
      ComparePartsTransitive(ka.pre, kb.pre, kc.pre);
    }
  }
}
