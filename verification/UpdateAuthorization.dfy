/**
  Which downloaded update the agent may apply (agent/src/updater.rs,
  `authorize_update`). Hashing and signature checks stay uninterpreted: they are
  the functions of a `Crypto` value, and every statement holds for all of them.
 */
module UpdateAuthorization {
  import opened Wrappers

  type Data = seq<bv8>

  /** `releaseVerifies(key, message, signature)` and `localVerifies(key, signature,
      data)`: whether decoding and checking succeed. `sha256` is in hex. */
  datatype Crypto = Crypto(
    sha256: Data -> string,
    releaseVerifies: (string, string, string) -> bool,
    localVerifies: (string, string, Data) -> bool)

  datatype TrustedKey = TrustedKey(id: string, key: string)

  datatype Mode = ReleaseOnly | Probe | Standard

  datatype Offer = Offer(platform: string, releaseSignature: Option<string>, releaseKeyId: Option<string>, legacySignature: Option<string>)

  datatype Verdict = Release(id: string) | LocalKey | HashOnly | Refused

  // ── Text ───────────────────────────────────────────────────────────────────

  /** The Unicode property White_Space. */
  predicate IsSpace(c: char) {
    var n := c as int;
    || 0x09 <= n <= 0x0D || n == 0x20 || n == 0x85 || n == 0xA0 || n == 0x1680
    || 0x2000 <= n <= 0x200A || n in {0x2028, 0x2029, 0x202F, 0x205F, 0x3000}
  }

  function Trim(s: string): string {
    if s == [] then s
    else if IsSpace(s[0]) then Trim(s[1..])
    else if IsSpace(s[|s| - 1]) then Trim(s[..|s| - 1])
    else s
  }

  function Lower(c: char): char {
    if 'A' <= c <= 'Z' then (c as int + 32) as char else c
  }

  function LowerCase(s: string): string {
    seq(|s|, i requires 0 <= i < |s| => Lower(s[i]))
  }

  predicate SameIgnoringCase(a: string, b: string) { LowerCase(a) == LowerCase(b) }

  function NonEmpty(v: Option<string>): Option<string> {
    if v.Some? && Trim(v.value) != "" then Some(Trim(v.value)) else None
  }

  function OrEmpty(v: Option<string>): string { if v.Some? then v.value else "" }

  const PREFIX := "nodeglow-agent-binary:v1"

  function ReleaseMessage(platform: string, hash: string): string {
    PREFIX + ":" + platform + ":" + LowerCase(hash)
  }

  predicate Blank(s: string) { forall i :: 0 <= i < |s| ==> IsSpace(s[i]) }

  lemma SpaceAround(lead: string, s: string, trail: string, all: string)
    requires all == lead + s + trail && Blank(lead) && Blank(trail)
    ensures Blank(all) <==> Blank(s)
  {
    hide IsSpace;
    assert forall i :: 0 <= i < |s| ==> s[i] == all[|lead| + i];
  }

  /** Trimming takes white space off both ends and nothing more. */
  lemma {:induction false} TrimExact(s: string) returns (lead: string, trail: string)
    ensures s == lead + Trim(s) + trail && Blank(lead) && Blank(trail)
    ensures var t := Trim(s); t == "" || (!IsSpace(t[0]) && !IsSpace(t[|t| - 1]))
    ensures Trim(s) == "" <==> Blank(s)
  {
    hide IsSpace;
    lead, trail := "", "";
    if s == [] {
    } else if IsSpace(s[0]) {
      lead, trail := TrimExact(s[1..]);
      SpaceAround([s[0]], s[1..], [], s);
      lead := [s[0]] + lead;
    } else if IsSpace(s[|s| - 1]) {
      lead, trail := TrimExact(s[..|s| - 1]);
      SpaceAround([], s[..|s| - 1], [s[|s| - 1]], s);
      trail := trail + [s[|s| - 1]];
    }
  }

  predicate SameLetter(a: char, b: char) {
    a == b || ('A' <= a <= 'Z' && b as int == a as int + 32) || ('A' <= b <= 'Z' && a as int == b as int + 32)
  }

  /** Only the case of ASCII letters is ignored. */
  lemma SameIgnoringCaseIff(a: string, b: string)
    ensures SameIgnoringCase(a, b) <==> |a| == |b| && forall i :: 0 <= i < |a| ==> SameLetter(a[i], b[i])
  {
    if SameIgnoringCase(a, b) {
      assert |LowerCase(a)| == |LowerCase(b)|;
      forall i | 0 <= i < |a| ensures SameLetter(a[i], b[i]) {
        assert LowerCase(a)[i] == LowerCase(b)[i];
      }
    }
  }

  /** Lower case is the spelling without upper-case ASCII letters. */
  lemma LowerCaseIs(s: string)
    ensures SameIgnoringCase(s, LowerCase(s))
    ensures forall i :: 0 <= i < |LowerCase(s)| ==> !('A' <= LowerCase(s)[i] <= 'Z')
  {
    assert LowerCase(LowerCase(s)) == LowerCase(s);
  }

  // ── The decision ───────────────────────────────────────────────────────────

  predicate Known(keys: seq<TrustedKey>, id: string) {
    exists i :: 0 <= i < |keys| && SameIgnoringCase(keys[i].id, id)
  }

  function Find(keys: seq<TrustedKey>, id: string): (k: Option<TrustedKey>)
    ensures k.Some? <==> Known(keys, id)
    ensures k.Some? ==> k.value in keys && SameIgnoringCase(k.value.id, id)
  {
    if keys == [] then None
    else if SameIgnoringCase(keys[0].id, id) then Some(keys[0])
    else
      var rest := Find(keys[1..], id);
      assert Known(keys[1..], id) <==> Known(keys, id) by {
        assert forall i :: 0 < i < |keys| ==> keys[i] == keys[1..][i - 1];
        assert forall i :: 0 <= i < |keys| - 1 ==> keys[1..][i] == keys[i + 1];
      }
      rest
  }

  function VerifyRelease(c: Crypto, keys: seq<TrustedKey>, id: string, signature: string, platform: string, data: Data): Verdict {
    var k := Find(keys, Trim(id));
    if k.Some? && c.releaseVerifies(k.value.key, ReleaseMessage(platform, c.sha256(data)), Trim(signature))
    then Release(k.value.id) else Refused
  }

  function Authorize(c: Crypto, mode: Mode, keys: seq<TrustedKey>, localKey: string, offer: Offer, data: Data): Verdict {
    var signature, id := NonEmpty(offer.releaseSignature), OrEmpty(NonEmpty(offer.releaseKeyId));
    if signature.Some? && Known(keys, id) then
      VerifyRelease(c, keys, id, signature.value, offer.platform, data)
    else if mode == ReleaseOnly then Refused
    else if Trim(localKey) != "" then
      var legacy := NonEmpty(offer.legacySignature);
      if legacy.Some? && c.localVerifies(Trim(localKey), legacy.value, data) then LocalKey else Refused
    else if mode == Standard then HashOnly
    else Refused
  }

  // ── What it guarantees ─────────────────────────────────────────────────────

  /** How much a mode allows: rule 1 always, rule 2 but for `ReleaseOnly`, rule 3
      in `Standard` only. */
  predicate Allows(mode: Mode, v: Verdict) {
    match v
    case Release(_) => true
    case LocalKey => mode != ReleaseOnly
    case HashOnly => mode == Standard
    case Refused => false
  }

  function Strictness(mode: Mode): nat {
    match mode
    case Standard => 0
    case Probe => 1
    case ReleaseOnly => 2
  }

  /** A compiled-in key vouches for these bytes on this platform. */
  ghost predicate ReleaseSigned(c: Crypto, keys: seq<TrustedKey>, offer: Offer, data: Data, id: string) {
    exists k, s :: k in keys && k.id == id && offer.releaseSignature == Some(s)
      && c.releaseVerifies(k.key, ReleaseMessage(offer.platform, c.sha256(data)), Trim(s))
  }

  lemma {:induction false} TrimOnce(s: string)
    ensures Trim(Trim(s)) == Trim(s)
  {
    if s == [] {
    } else if IsSpace(s[0]) {
      TrimOnce(s[1..]);
    } else if IsSpace(s[|s| - 1]) {
      TrimOnce(s[..|s| - 1]);
    }
  }

  /** Every verdict is one the mode allows, and its evidence holds. */
  lemma VerdictHasEvidence(c: Crypto, mode: Mode, keys: seq<TrustedKey>, localKey: string, offer: Offer, data: Data)
    ensures var v := Authorize(c, mode, keys, localKey, offer, data);
      && (v != Refused ==> Allows(mode, v))
      && (v.Release? ==> ReleaseSigned(c, keys, offer, data, v.id))
      && (v == LocalKey ==> exists s :: offer.legacySignature == Some(s) && c.localVerifies(Trim(localKey), Trim(s), data))
      && (v == HashOnly ==> Trim(localKey) == "")
  {
    var v := Authorize(c, mode, keys, localKey, offer, data);
    var signature, id := NonEmpty(offer.releaseSignature), OrEmpty(NonEmpty(offer.releaseKeyId));
    if v.Release? {
      var s := offer.releaseSignature.value;
      TrimOnce(s);
      assert v == VerifyRelease(c, keys, id, signature.value, offer.platform, data);
      var k := Find(keys, Trim(id)).value;
      assert k in keys && k.id == v.id;
      assert c.releaseVerifies(k.key, ReleaseMessage(offer.platform, c.sha256(data)), Trim(s));
    } else if v == LocalKey {
      var s := offer.legacySignature.value;
      assert c.localVerifies(Trim(localKey), Trim(s), data);
    }
  }

  /** There is text in it. */
  predicate Given(v: Option<string>) { v.Some? && !Blank(v.value) }

  /** Trimmed, with nothing given the same as nothing in it. */
  function TextOf(v: Option<string>): string { if v.Some? then Trim(v.value) else "" }

  /** The update is signed in the name of a key this agent trusts; `i` is the first
      of that name. */
  ghost predicate NamesKey(keys: seq<TrustedKey>, offer: Offer, i: nat) {
    && Given(offer.releaseSignature) && i < |keys|
    && SameIgnoringCase(keys[i].id, TextOf(offer.releaseKeyId))
    && forall j :: 0 <= j < i ==> !SameIgnoringCase(keys[j].id, TextOf(offer.releaseKeyId))
  }

  ghost predicate NamesTrustedKey(keys: seq<TrustedKey>, offer: Offer) { exists i: nat :: NamesKey(keys, offer, i) }

  /** Which rule decides, exactly: a named trusted key if there is one; otherwise the
      local key if one is configured, except where only releases are allowed; and the
      hash alone only without either, in the standard mode. */
  lemma VerdictExactly(c: Crypto, mode: Mode, keys: seq<TrustedKey>, localKey: string, offer: Offer, data: Data)
    ensures var v := Authorize(c, mode, keys, localKey, offer, data);
      && (forall i: nat | NamesKey(keys, offer, i) ::
            v ==
            if c.releaseVerifies(keys[i].key, "nodeglow-agent-binary:v1:" + offer.platform + ":" + LowerCase(c.sha256(data)),
                                 TextOf(offer.releaseSignature))
            then Release(keys[i].id) else Refused)
      && (v.Release? ==> NamesTrustedKey(keys, offer))
      && (v == LocalKey <==>
            && !NamesTrustedKey(keys, offer) && mode != ReleaseOnly && !Blank(localKey) && Given(offer.legacySignature)
            && c.localVerifies(Trim(localKey), TextOf(offer.legacySignature), data))
      && (v == HashOnly <==> !NamesTrustedKey(keys, offer) && mode == Standard && Blank(localKey))
  {
    var lead, trail := TrimExact(localKey);
    NonEmptyIs(offer.releaseSignature);
    NonEmptyIs(offer.releaseKeyId);
    NonEmptyIs(offer.legacySignature);
    NamedIffKnown(keys, offer);
    hide Trim, Blank, NonEmpty, OrEmpty, TextOf, Known, SameIgnoringCase, LowerCase;
    forall i: nat | NamesKey(keys, offer, i) ensures Find(keys, TextOf(offer.releaseKeyId)) == Some(keys[i]) {
      FindsFirst(keys, TextOf(offer.releaseKeyId), i);
    }
    MessageText(offer.platform, c.sha256(data));
    hide ReleaseMessage, Find;
  }

  lemma NonEmptyIs(v: Option<string>)
    ensures NonEmpty(v) == if Given(v) then Some(TextOf(v)) else None
    ensures OrEmpty(NonEmpty(v)) == TextOf(v) && Trim(TextOf(v)) == TextOf(v)
  {
    if v.Some? {
      var lead, trail := TrimExact(v.value);
      TrimOnce(v.value);
    }
  }

  lemma MessageText(platform: string, hash: string)
    ensures ReleaseMessage(platform, hash) == "nodeglow-agent-binary:v1:" + platform + ":" + LowerCase(hash)
  {
    assert PREFIX + ":" == "nodeglow-agent-binary:v1:";
  }

  lemma NamedIffKnown(keys: seq<TrustedKey>, offer: Offer)
    ensures NamesTrustedKey(keys, offer) <==> Given(offer.releaseSignature) && Known(keys, TextOf(offer.releaseKeyId))
  {
    hide Given, TextOf, SameIgnoringCase;
    if Given(offer.releaseSignature) && Known(keys, TextOf(offer.releaseKeyId)) {
      var i := FirstNamed(keys, TextOf(offer.releaseKeyId));
      assert NamesKey(keys, offer, i);
    }
  }

  lemma FirstNamed(keys: seq<TrustedKey>, id: string) returns (i: nat)
    requires Known(keys, id)
    ensures i < |keys| && SameIgnoringCase(keys[i].id, id)
    ensures forall j :: 0 <= j < i ==> !SameIgnoringCase(keys[j].id, id)
  {
    hide SameIgnoringCase;
    i := 0;
    while !SameIgnoringCase(keys[i].id, id)
      invariant i < |keys| && forall j :: 0 <= j < i ==> !SameIgnoringCase(keys[j].id, id)
      decreases |keys| - i
    {
      i := i + 1;
    }
  }

  /** The modes only cut one decision down: the stricter mode has the looser mode's
      verdict if it allows it, and refuses otherwise. So whatever a stricter mode
      accepts, a looser one accepts with the same authorisation. */
  lemma StricterAllowsLess(c: Crypto, strict: Mode, loose: Mode, keys: seq<TrustedKey>, localKey: string, offer: Offer, data: Data)
    requires Strictness(strict) >= Strictness(loose)
    ensures var s, l := Authorize(c, strict, keys, localKey, offer, data), Authorize(c, loose, keys, localKey, offer, data);
      && s == (if Allows(strict, l) then l else Refused)
      && (s != Refused ==> l == s)
  {
    hide Known, Trim, VerifyRelease;
    VerdictHasEvidence(c, loose, keys, localKey, offer, data);
    VerifyReleaseVerdict(c, keys, OrEmpty(NonEmpty(offer.releaseKeyId)), OrEmpty(NonEmpty(offer.releaseSignature)), offer.platform, data);
  }

  lemma VerifyReleaseVerdict(c: Crypto, keys: seq<TrustedKey>, id: string, signature: string, platform: string, data: Data)
    ensures VerifyRelease(c, keys, id, signature, platform, data).Release? || VerifyRelease(c, keys, id, signature, platform, data).Refused?
  {
  }

  /** A release signature that names a trusted key is judged by the first key of that
      name alone, in every mode: if it verifies the update is release-authorised, if
      not the update is refused, whatever another key or a weaker rule would say. */
  lemma NoFallback(c: Crypto, mode: Mode, keys: seq<TrustedKey>, localKey: string, offer: Offer, data: Data)
    requires NonEmpty(offer.releaseSignature).Some? && Known(keys, OrEmpty(NonEmpty(offer.releaseKeyId)))
    ensures var k := Find(keys, OrEmpty(NonEmpty(offer.releaseKeyId))).value;
      Authorize(c, mode, keys, localKey, offer, data) ==
        if c.releaseVerifies(k.key, ReleaseMessage(offer.platform, c.sha256(data)), Trim(offer.releaseSignature.value))
        then Release(k.id) else Refused
  {
    TrimOnce(offer.releaseSignature.value);
    if offer.releaseKeyId.Some? { TrimOnce(offer.releaseKeyId.value); }
  }

  /** The key that judges is the first whose id matches. */
  lemma {:induction false} FindsFirst(keys: seq<TrustedKey>, id: string, i: nat)
    requires i < |keys| && SameIgnoringCase(keys[i].id, id)
    requires forall j :: 0 <= j < i ==> !SameIgnoringCase(keys[j].id, id)
    ensures Find(keys, id) == Some(keys[i])
  {
    hide SameIgnoringCase;
    if i > 0 { FindsFirst(keys[1..], id, i - 1); }
  }

  /** During a key rotation: an update signed with the new key but named after the old
      one is refused, although this agent trusts both. */
  lemma WrongNameRefused(c: Crypto, mode: Mode, named: TrustedKey, other: TrustedKey, localKey: string, offer: Offer, data: Data)
    requires NonEmpty(offer.releaseSignature).Some? && NonEmpty(offer.releaseKeyId) == Some(named.id)
    requires var m := ReleaseMessage(offer.platform, c.sha256(data)); var s := Trim(offer.releaseSignature.value);
      c.releaseVerifies(other.key, m, s) && !c.releaseVerifies(named.key, m, s)
    ensures Authorize(c, mode, [other, named], localKey, offer, data) == if SameIgnoringCase(other.id, named.id) then Release(other.id) else Refused
  {
    var keys := [other, named];
    assert SameIgnoringCase(keys[1].id, named.id);
    NoFallback(c, mode, keys, localKey, offer, data);
    FindsFirst(keys, named.id, if SameIgnoringCase(other.id, named.id) then 0 else 1);
  }

  /** The message a release key signs tells platform and hash apart: for platforms
      without a colon, two messages agree only if both parts do. */
  lemma MessageBinds(p: string, h: string, q: string, g: string)
    requires ':' !in p && ':' !in q && ReleaseMessage(p, h) == ReleaseMessage(q, g)
    ensures p == q && LowerCase(h) == LowerCase(g)
  {
    var m, k := ReleaseMessage(p, h), ReleaseMessage(q, g);
    var at := |PREFIX| + 1;
    assert m[at..] == p + ":" + LowerCase(h) && k[at..] == q + ":" + LowerCase(g);
    var a, b := p + ":" + LowerCase(h), q + ":" + LowerCase(g);
    assert forall i :: 0 <= i < |p| ==> a[i] == p[i] && p[i] in p;
    assert forall i :: 0 <= i < |q| ==> b[i] == q[i] && q[i] in q;
    assert a == b && a[|p|] == ':' && b[|q|] == ':';
    assert |p| == |q|;
    assert a[..|p|] == p && b[..|q|] == q;
    assert a[|p| + 1..] == LowerCase(h) && b[|q| + 1..] == LowerCase(g);
  }
}
