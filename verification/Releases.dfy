/**
  Which releases are newer than the running version, newest first
  (sidecar/image_update.py, `newer_releases`), and why updates make progress.
 */
module Releases {
  import opened Wrappers
  import opened SemVer
  import opened SemVerSpelling

  /** What the release list says about one release; `None` in the list stands for
      an element that is not an object. */
  datatype Release = Release(tag: string, draft: bool, prerelease: bool)

  datatype Found = Found(version: string, tag: string, prerelease: bool)

  predicate IsPrerelease(tag: string) {
    ParseSemver(tag).Some? && ParseSemver(tag).value.pre != ""
  }

  /** A published release above `current` on the allowed channel. */
  predicate Eligible(r: Option<Release>, current: Version, allowPrerelease: bool) {
    && r.Some? && !r.value.draft
    && ParseSemver(r.value.tag).Some?
    && (allowPrerelease || !(r.value.prerelease || IsPrerelease(r.value.tag)))
    && SortsBelow(current, ParseSemver(r.value.tag).value)
  }

  /** Precedence as the code decides it, by comparing keys. */
  predicate SortsBelow(a: Version, b: Version) { Compare(a, b) < 0 }

  function ToFound(r: Release): Found {
    Found(StripV(r.tag), r.tag, r.prerelease || IsPrerelease(r.tag))
  }

  function Filtered(releases: seq<Option<Release>>, current: Version, allowPrerelease: bool): seq<Found> {
    if releases == [] then []
    else
      var init, last := releases[..|releases| - 1], releases[|releases| - 1];
      Filtered(init, current, allowPrerelease) +
      if Eligible(last, current, allowPrerelease) then [ToFound(last.value)] else []
  }

  function VersionOf(f: Found): Version {
    match ParseSemver(f.version) case Some(v) => v case None => Version(0, 0, 0, "")
  }

  predicate NewestFirst(found: seq<Found>) {
    forall i, j :: 0 <= i < j < |found| ==> Compare(VersionOf(found[i]), VersionOf(found[j])) >= 0
  }

  /** Python's stable descending sort: a new element goes after its equals. */
  function Insert(sorted: seq<Found>, x: Found): seq<Found> {
    if sorted == [] then [x]
    else
      var init, last := sorted[..|sorted| - 1], sorted[|sorted| - 1];
      if Compare(VersionOf(last), VersionOf(x)) >= 0 then sorted + [x] else Insert(init, x) + [last]
  }

  function SortNewestFirst(found: seq<Found>): seq<Found> {
    if found == [] then [] else Insert(SortNewestFirst(found[..|found| - 1]), found[|found| - 1])
  }

  lemma {:induction false} InsertSorts(sorted: seq<Found>, x: Found)
    requires NewestFirst(sorted)
    ensures NewestFirst(Insert(sorted, x))
    ensures multiset(Insert(sorted, x)) == multiset(sorted) + multiset{x}
  {
    hide Compare, VersionOf;
    if sorted != [] {
      var init, last := sorted[..|sorted| - 1], sorted[|sorted| - 1];
      assert sorted == init + [last];
      if Compare(VersionOf(last), VersionOf(x)) >= 0 {
        forall i | 0 <= i < |sorted| ensures Compare(VersionOf(sorted[i]), VersionOf(x)) >= 0 {
          AtLeastThrough(sorted, i, x);
        }
      } else {
        InsertSorts(init, x);
        var r := Insert(init, x);
        forall i | 0 <= i < |r| ensures Compare(VersionOf(r[i]), VersionOf(last)) >= 0 {
          assert r[i] in multiset(r);
          if r[i] == x {
            KeyOrderIsPrecedence(VersionOf(last), VersionOf(x));
          } else {
            assert r[i] in init;
          }
        }
      }
    }
  }

  lemma AtLeastThrough(sorted: seq<Found>, i: nat, x: Found)
    requires NewestFirst(sorted) && i < |sorted|
    requires Compare(VersionOf(sorted[|sorted| - 1]), VersionOf(x)) >= 0
    ensures Compare(VersionOf(sorted[i]), VersionOf(x)) >= 0
  {
    hide Compare, VersionOf;
    var a, b, c := VersionOf(sorted[i]), VersionOf(sorted[|sorted| - 1]), VersionOf(x);
    KeyOrderIsPrecedence(a, b);
    KeyOrderIsPrecedence(b, c);
    KeyOrderIsPrecedence(a, c);
    if i < |sorted| - 1 { CompareTransitive(c, b, a); }
  }

  lemma {:induction false} SortSorts(found: seq<Found>)
    ensures NewestFirst(SortNewestFirst(found))
    ensures multiset(SortNewestFirst(found)) == multiset(found)
  {
    hide Insert, NewestFirst;
    if found != [] {
      assert found == found[..|found| - 1] + [found[|found| - 1]];
      SortSorts(found[..|found| - 1]);
      InsertSorts(SortNewestFirst(found[..|found| - 1]), found[|found| - 1]);
    } else {
      EmptyIsSorted();
    }
  }

  lemma EmptyIsSorted()
    ensures NewestFirst([])
  {}

  /** Those of `found` that tie with `v`, in order. */
  function TiedWith(found: seq<Found>, v: Version): seq<Found> {
    if found == [] then []
    else
      var init, last := found[..|found| - 1], found[|found| - 1];
      TiedWith(init, v) + if Compare(VersionOf(last), v) == 0 then [last] else []
  }

  lemma {:induction false} InsertIsStable(sorted: seq<Found>, x: Found, v: Version)
    ensures TiedWith(Insert(sorted, x), v) == TiedWith(sorted + [x], v)
  {
    hide Compare, VersionOf;
    assert (sorted + [x])[..|sorted|] == sorted;
    if sorted == [] {
    } else {
      var init, last := sorted[..|sorted| - 1], sorted[|sorted| - 1];
      if Compare(VersionOf(last), VersionOf(x)) < 0 {
        InsertIsStable(init, x, v);
        assert (init + [x])[..|init|] == init;
        assert (Insert(init, x) + [last])[..|Insert(init, x)|] == Insert(init, x);
        if Compare(VersionOf(last), v) == 0 && Compare(VersionOf(x), v) == 0 {
          TiesAreEqual(VersionOf(last), VersionOf(x), v);
        }
      }
    }
  }

  lemma TiesAreEqual(a: Version, b: Version, v: Version)
    requires Compare(a, v) == 0 && Compare(b, v) == 0
    ensures Compare(a, b) == 0
  {
    hide Compare;
    KeyOrderIsPrecedence(a, v);
    KeyOrderIsPrecedence(b, v);
    KeyOrderIsPrecedence(a, b);
    CompareTransitive(a, v, b);
    CompareTransitive(b, v, a);
  }

  /** Releases of equal precedence keep the order of the release list. */
  lemma {:induction false} SortIsStable(found: seq<Found>, v: Version)
    ensures TiedWith(SortNewestFirst(found), v) == TiedWith(found, v)
  {
    hide Compare, VersionOf, Insert;
    if found != [] {
      var init, last := found[..|found| - 1], found[|found| - 1];
      assert found == init + [last];
      SortIsStable(init, v);
      InsertIsStable(SortNewestFirst(init), last, v);
      TiedWithLast(SortNewestFirst(init), last, v);
      TiedWithLast(init, last, v);
    }
  }

  lemma TiedWithLast(found: seq<Found>, last: Found, v: Version)
    ensures TiedWith(found + [last], v) ==
      TiedWith(found, v) + if Compare(VersionOf(last), v) == 0 then [last] else []
  {
    hide Compare, VersionOf;
    assert (found + [last])[..|found|] == found;
  }

  function Newer(releases: seq<Option<Release>>, current: Version, allowPrerelease: bool): seq<Found> {
    SortNewestFirst(Filtered(releases, current, allowPrerelease))
  }

  lemma {:induction false} FilteredExactly(releases: seq<Option<Release>>, current: Version, allowPrerelease: bool, f: Found)
    ensures f in Filtered(releases, current, allowPrerelease) <==>
      exists i :: 0 <= i < |releases| && Eligible(releases[i], current, allowPrerelease) && ToFound(releases[i].value) == f
  {
    hide ToFound, ParseSemver, Compare;
    if releases != [] {
      var init, last := releases[..|releases| - 1], releases[|releases| - 1];
      FilteredExactly(init, current, allowPrerelease, f);
      if i :| 0 <= i < |releases| && Eligible(releases[i], current, allowPrerelease) && ToFound(releases[i].value) == f {
        if i < |init| { assert init[i] == releases[i]; }
      }
      if i :| 0 <= i < |init| && Eligible(init[i], current, allowPrerelease) && ToFound(init[i].value) == f {
        assert releases[i] == init[i];
      }
      assert releases[|releases| - 1] == last;
    }
  }

  lemma NewerIsEligible(releases: seq<Option<Release>>, current: Version, allowPrerelease: bool, f: Found)
    ensures f in Newer(releases, current, allowPrerelease) <==>
      exists i :: 0 <= i < |releases| && Eligible(releases[i], current, allowPrerelease) && ToFound(releases[i].value) == f
    ensures f in Newer(releases, current, allowPrerelease) ==>
      ParseSemver(f.version).Some? && Precedes(current, VersionOf(f))
    ensures NewestFirst(Newer(releases, current, allowPrerelease))
  {
    hide SortNewestFirst, Filtered, Compare, ParseSemver, NewestFirst;
    var found := Filtered(releases, current, allowPrerelease);
    FilteredExactly(releases, current, allowPrerelease, f);
    SortSorts(found);
    assert f in Newer(releases, current, allowPrerelease) <==> f in multiset(SortNewestFirst(found));
    assert f in found <==> f in multiset(found);
    if f in found {
      var i :| 0 <= i < |releases| && Eligible(releases[i], current, allowPrerelease) && ToFound(releases[i].value) == f;
      TagAndVersionAgree(releases[i].value.tag);
      KeyOrderIsPrecedence(current, VersionOf(f));
    }
  }

  /** `version` is the tag without its leading `v`s. */
  ghost predicate WithoutVs(tag: string, version: string) {
    && |version| <= |tag| && version == tag[|tag| - |version|..]
    && (forall i :: 0 <= i < |tag| - |version| ==> tag[i] == 'v')
    && (version == "" || version[0] != 'v')
  }

  lemma {:induction false} StripVIsWithoutVs(tag: string)
    ensures WithoutVs(tag, StripV(tag))
  {
    if tag != [] && tag[0] == 'v' {
      StripVIsWithoutVs(tag[1..]);
      assert forall i :: 0 < i < |tag| ==> tag[i] == tag[1..][i - 1];
    }
  }

  lemma NoLonger(tag: string, version: string, other: string)
    requires WithoutVs(tag, version) && WithoutVs(tag, other)
    ensures |other| <= |version|
  {
    if other != "" { assert other[0] == tag[|tag| - |other|]; }
  }

  lemma StripVIs(tag: string, version: string)
    ensures WithoutVs(tag, version) <==> version == StripV(tag)
  {
    StripVIsWithoutVs(tag);
    if WithoutVs(tag, version) {
      NoLonger(tag, version, StripV(tag));
      NoLonger(tag, StripV(tag), version);
    }
  }

  /** The release is published, on the allowed channel, and its tag spells a version
      that comes after `current` by section 11 of SemVer 2.0.0; `f` describes it. */
  ghost predicate Offers(r: Option<Release>, v: Version, current: Version, allowPrerelease: bool, f: Found) {
    && r.Some? && !r.value.draft
    && Spells(r.value.tag, v) && Precedes(current, v)
    && f.tag == r.value.tag && WithoutVs(f.tag, f.version)
    && (f.prerelease <==> r.value.prerelease || v.pre != "")
    && (f.prerelease ==> allowPrerelease)
  }

  lemma EligibleIffOffered(r: Option<Release>, current: Version, allowPrerelease: bool, f: Found)
    ensures (r.Some? && Eligible(r, current, allowPrerelease) && ToFound(r.value) == f) <==>
      exists v :: Offers(r, v, current, allowPrerelease, f)
  {
    hide Spells, ParseSemver, Compare, Precedes, WithoutVs;
    if r.Some? {
      var tag := r.value.tag;
      ParsesIffSpelled(tag);
      StripVIs(tag, f.version);
      forall v ensures Precedes(current, v) <==> SortsBelow(current, v) { KeyOrderIsPrecedence(current, v); }
      if Eligible(r, current, allowPrerelease) && ToFound(r.value) == f {
        assert Offers(r, ParseSemver(tag).value, current, allowPrerelease, f);
      }
    }
  }

  lemma OfferedAmong(releases: seq<Option<Release>>, current: Version, allowPrerelease: bool, f: Found)
    ensures (exists i :: 0 <= i < |releases| && Eligible(releases[i], current, allowPrerelease) && ToFound(releases[i].value) == f) <==>
      exists i, v :: 0 <= i < |releases| && Offers(releases[i], v, current, allowPrerelease, f)
  {
    hide ToFound, Offers, ParseSemver, Compare;
    if i :| 0 <= i < |releases| && Eligible(releases[i], current, allowPrerelease) && ToFound(releases[i].value) == f {
      EligibleIffOffered(releases[i], current, allowPrerelease, f);
      var v :| Offers(releases[i], v, current, allowPrerelease, f);
    }
    if i, v :| 0 <= i < |releases| && Offers(releases[i], v, current, allowPrerelease, f) {
      EligibleIffOffered(releases[i], current, allowPrerelease, f);
    }
  }

  /** Exactly the releases on offer come back, newest first. */
  lemma NewerIsExact(releases: seq<Option<Release>>, current: Version, allowPrerelease: bool, f: Found)
    ensures f in Newer(releases, current, allowPrerelease) <==>
      exists i, v :: 0 <= i < |releases| && Offers(releases[i], v, current, allowPrerelease, f)
    ensures f in Newer(releases, current, allowPrerelease) ==> Spells(f.version, VersionOf(f)) && Precedes(current, VersionOf(f))
    ensures var newer := Newer(releases, current, allowPrerelease);
      forall i, j :: 0 <= i < j < |newer| ==> !Precedes(VersionOf(newer[i]), VersionOf(newer[j]))
  {
    OfferedAmong(releases, current, allowPrerelease, f);
    hide Newer, Offers, Precedes, ParseSemver, Spells, Compare;
    NewerIsEligible(releases, current, allowPrerelease, f);
    ParsesIffSpelled(f.version);
    forall x, y ensures Compare(x, y) >= 0 <==> !Precedes(x, y) { KeyOrderIsPrecedence(x, y); }
  }

  /** Installing the first of them strictly raises the version and leaves nothing
      newer in the same list: repeating the update ends. */
  lemma UpdatesMakeProgress(releases: seq<Option<Release>>, current: Version, allowPrerelease: bool)
    requires Newer(releases, current, allowPrerelease) != []
    ensures var target := VersionOf(Newer(releases, current, allowPrerelease)[0]);
      Precedes(current, target) && Newer(releases, target, allowPrerelease) == []
  {
    hide SortNewestFirst, Filtered, Compare, ParseSemver, ToFound, Eligible, NewestFirst, VersionOf;
    var newer := Newer(releases, current, allowPrerelease);
    var target := VersionOf(newer[0]);
    NewerIsEligible(releases, current, allowPrerelease, newer[0]);
    var later := Newer(releases, target, allowPrerelease);
    if later != [] {
      NothingAbove(releases, current, allowPrerelease, later[0]);
    }
  }

  lemma NothingAbove(releases: seq<Option<Release>>, current: Version, allowPrerelease: bool, g: Found)
    requires Newer(releases, current, allowPrerelease) != []
    ensures g !in Newer(releases, VersionOf(Newer(releases, current, allowPrerelease)[0]), allowPrerelease)
  {
    hide SortNewestFirst, Filtered, Compare, ParseSemver, VersionOf;
    var newer := Newer(releases, current, allowPrerelease);
    var target := VersionOf(newer[0]);
    NewerIsEligible(releases, current, allowPrerelease, newer[0]);
    if g in Newer(releases, target, allowPrerelease) {
      NewerIsEligible(releases, target, allowPrerelease, g);
      var i :| 0 <= i < |releases| && Eligible(releases[i], target, allowPrerelease) && ToFound(releases[i].value) == g;
      KeyOrderIsPrecedence(current, target);
      KeyOrderIsPrecedence(target, ParseSemver(releases[i].value.tag).value);
      CompareTransitive(current, target, ParseSemver(releases[i].value.tag).value);
      assert Eligible(releases[i], current, allowPrerelease);
      NewerIsEligible(releases, current, allowPrerelease, g);
      var j :| 0 <= j < |newer| && newer[j] == g;
      KeyOrderIsPrecedence(target, VersionOf(g));
    }
  }

  /** `None` stands for the ValueError of a current version that is none. */
  method NewerReleases(releases: seq<Option<Release>>, current: string, allowPrerelease: bool)
    returns (result: Option<seq<Found>>)
    ensures result.None? <==> !exists v :: Spells(current, v)
    ensures forall v :: Spells(current, v) ==> result == Some(Newer(releases, v, allowPrerelease))
  {
    ParsesIffSpelled(current);
    hide ParseSemver, Compare, Spells;
    var parsed := ParseSemver(current);
    if parsed.None? {
      return None;
    }
    var found: seq<Found> := [];
    for n := 0 to |releases|
      invariant found == Filtered(releases[..n], parsed.value, allowPrerelease)
    {
      var rel := releases[n];
      assert releases[..n + 1][..n] == releases[..n];
      if rel.None? || rel.value.draft {
        continue;
      }
      var tag := rel.value.tag;
      if ParseSemver(tag).None? {
        continue;
      }
      var pre := rel.value.prerelease || IsPrerelease(tag);
      if pre && !allowPrerelease {
        continue;
      }
      if Compare(ParseSemver(tag).value, parsed.value) <= 0 {
        KeyOrderIsPrecedence(parsed.value, ParseSemver(tag).value);
        continue;
      }
      KeyOrderIsPrecedence(parsed.value, ParseSemver(tag).value);
      found := found + [Found(StripV(tag), tag, pre)];
    }
    assert releases[..|releases|] == releases;
    return Some(SortNewestFirst(found));
  }
}
