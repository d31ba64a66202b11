/**
  The latched trust state of the agent's self-update (agent/src/updater.rs,
  `TrustState` and `check_and_update`; agent/src/main.rs, the heartbeat that feeds
  it), over whole runs of server answers, update checks and restarts.
 */
module UpdateTrust {
  import opened Wrappers
  import opened UpdateAuthorization

  /** The two bits; once set, a bit stays set. */
  datatype Latched = Latched(multiTenant: bool, probe: bool)

  /** The state file. */
  datatype Content = Missing | Unreadable | Stored(state: Latched)

  /** How a save ends: on disk, not at all, or as a fragment that does not parse. */
  datatype SaveOutcome = Saved | Untouched | Torn

  const TIGHTEST := Latched(true, true)

  function LoadOf(file: Content): Latched {
    match file
    case Missing => Latched(false, false)
    case Unreadable => TIGHTEST
    case Stored(state) => state
  }

  function LatchOf(l: Latched, multiTenant: bool, probe: bool): Latched {
    Latched(l.multiTenant || multiTenant, l.probe || probe)
  }

  function SaveOf(file: Content, l: Latched, outcome: SaveOutcome): Content {
    match outcome
    case Saved => Stored(l)
    case Untouched => file
    case Torn => Unreadable
  }

  /** The file after `observe`: written only if the state changed. */
  function FileAfterObserve(file: Content, before: Latched, after: Latched, outcome: SaveOutcome): Content {
    if after != before then SaveOf(file, after, outcome) else file
  }

  function ModeOf(l: Latched, requireRelease: bool): Mode {
    if requireRelease || l.multiTenant then ReleaseOnly else if l.probe then Probe else Standard
  }

  // ── One update check ───────────────────────────────────────────────────────

  /** What does not change over a run: the compiled-in keys, the local
      configuration, and the platform. */
  datatype Setup = Setup(crypto: Crypto, keys: seq<TrustedKey>, platform: string, localKey: string, requireRelease: bool)

  datatype Version = Version(hash: string, signature: Option<string>, releaseSignature: Option<string>,
                             releaseKeyId: Option<string>, multiTenant: Option<bool>)

  /** What one check meets: the server's answers, `None` where a call or a read
      fails, and whether replacing the binary works. */
  datatype CheckInput = CheckInput(version: Option<Version>, ownBinary: Option<Data>, download: Option<Data>, applies: bool)

  datatype CheckResult = Failed | UpToDate | Updated(verdict: Verdict)

  predicate IsHexDigit(c: char) { '0' <= c <= '9' || 'a' <= c <= 'f' || 'A' <= c <= 'F' }

  predicate IsHex(s: string) { s != [] && |s| % 2 == 0 && forall i :: 0 <= i < |s| ==> IsHexDigit(s[i]) }

  function OfferOf(platform: string, v: Version): Offer {
    Offer(platform, v.releaseSignature, v.releaseKeyId, v.signature)
  }

  function ReportsMulti(v: Option<Version>): bool { v.Some? && v.value.multiTenant == Some(true) }

  /** The decision of a check, with the trust state after its own answer was latched. */
  function Decide(setup: Setup, l: Latched, input: CheckInput): CheckResult {
    if input.version.None? then Failed
    else
      var v := input.version.value;
      var hash := LowerCase(Trim(v.hash));
      if !IsHex(hash) || input.ownBinary.None? then Failed
      else if setup.crypto.sha256(input.ownBinary.value) == hash then UpToDate
      else if input.download.None? || setup.crypto.sha256(input.download.value) != hash then Failed
      else
        var verdict := Authorize(setup.crypto, ModeOf(l, setup.requireRelease), setup.keys, setup.localKey,
                                 OfferOf(setup.platform, v), input.download.value);
        if verdict == Refused || !input.applies then Failed else Updated(verdict)
  }

  class StateFile {
    var content: Content

    constructor (content: Content)
      ensures this.content == content
    {
      this.content := content;
    }

    method Save(l: Latched, outcome: SaveOutcome)
      modifies this
      ensures content == SaveOf(old(content), l, outcome)
    {
      match outcome
      case Saved => content := Stored(l);
      case Untouched =>
      case Torn => content := Unreadable;
    }
  }

  class TrustState {
    var multiTenant: bool
    var probe: bool

    constructor Load(file: StateFile)
      ensures Value() == LoadOf(file.content)
    {
      match file.content
      case Missing => multiTenant, probe := false, false;
      case Unreadable => multiTenant, probe := true, true;
      case Stored(state) => multiTenant, probe := state.multiTenant, state.probe;
    }

    function Value(): Latched
      reads this
    {
      Latched(multiTenant, probe)
    }

    method Latch(multiTenant: bool, probe: bool) returns (changed: bool)
      modifies this
      ensures Value() == LatchOf(old(Value()), multiTenant, probe)
      ensures changed <==> Value() != old(Value())
    {
      var before := Value();
      this.multiTenant := this.multiTenant || multiTenant;
      this.probe := this.probe || probe;
      changed := Value() != before;
    }

    /** What the server said is in force at once; the file follows if it can. */
    method Observe(file: StateFile, multiTenant: bool, probe: bool, outcome: SaveOutcome)
      modifies this, file
      ensures Value() == LatchOf(old(Value()), multiTenant, probe)
      ensures file.content == FileAfterObserve(old(file.content), old(Value()), Value(), outcome)
    {
      var changed := Latch(multiTenant, probe);
      if changed {
        file.Save(Value(), outcome);
      }
    }

    /** The answer is latched before anything is decided, also when the check
        comes to nothing. */
    method CheckAndUpdate(setup: Setup, file: StateFile, input: CheckInput, outcome: SaveOutcome) returns (r: CheckResult)
      modifies this, file
      ensures Value() == LatchOf(old(Value()), ReportsMulti(input.version), false)
      ensures file.content == FileAfterObserve(old(file.content), old(Value()), Value(), outcome)
      ensures r == Decide(setup, Value(), input)
    {
      if input.version.None? {
        return Failed;
      }
      var v := input.version.value;
      Observe(file, if v.multiTenant.Some? then v.multiTenant.value else false, false, outcome);
      var hash := LowerCase(Trim(v.hash));
      if !IsHex(hash) || input.ownBinary.None? {
        return Failed;
      }
      var localHash := setup.crypto.sha256(input.ownBinary.value);
      if localHash == hash {
        return UpToDate;
      }
      if input.download.None? {
        return Failed;
      }
      var data := input.download.value;
      var downloadHash := setup.crypto.sha256(data);
      if downloadHash != hash {
        return Failed;
      }
      var verdict := Authorize(setup.crypto, ModeOf(Value(), setup.requireRelease), setup.keys, setup.localKey,
                               OfferOf(setup.platform, v), data);
      if verdict == Refused || !input.applies {
        return Failed;
      }
      return Updated(verdict);
    }
  }

  // ── Runs ───────────────────────────────────────────────────────────────────

  /** A heartbeat answer: how many checks it assigns, and, if it carries a
      configuration, what that says about tenancy, probes and the relay. */
  datatype ServerConfig = ServerConfig(multiTenant: Option<bool>, probe: Option<bool>, relay: bool)

  datatype Event =
    | Heartbeat(checks: nat, config: Option<ServerConfig>, outcome: SaveOutcome)
    | Check(input: CheckInput, outcome: SaveOutcome)
    | FileDamaged
    | Restart

  datatype Agent = Agent(trust: Latched, file: Content)

  /** What an event tells the latch: multi-tenant, probe. */
  function Reported(e: Event): (bool, bool) {
    match e
    case Heartbeat(checks, config, _) =>
      (config.Some? && config.value.multiTenant == Some(true),
       checks > 0 || (config.Some? && (config.value.probe == Some(true) || config.value.relay)))
    case Check(input, _) => (ReportsMulti(input.version), false)
    case _ => (false, false)
  }

  function Observed(a: Agent, r: (bool, bool), outcome: SaveOutcome): Agent {
    var l := LatchOf(a.trust, r.0, r.1);
    Agent(l, FileAfterObserve(a.file, a.trust, l, outcome))
  }

  function Apply(a: Agent, e: Event): Agent {
    match e
    case Heartbeat(_, _, outcome) => Observed(a, Reported(e), outcome)
    case Check(_, outcome) => Observed(a, Reported(e), outcome)
    case FileDamaged => a.(file := Unreadable)
    case Restart => a.(trust := LoadOf(a.file))
  }

  /** A process that starts with this file on disk and meets these events. */
  function After(start: Content, trace: seq<Event>): Agent {
    if trace == [] then Agent(LoadOf(start), start) else Apply(After(start, trace[..|trace| - 1]), trace[|trace| - 1])
  }

  /** The result of the check at `n`. */
  function ResultAt(setup: Setup, start: Content, trace: seq<Event>, n: nat): CheckResult
    requires n < |trace| && trace[n].Check?
  {
    Decide(setup, After(start, trace[..n + 1]).trust, trace[n].input)
  }

  predicate Tighter(a: Latched, b: Latched) {
    (b.multiTenant ==> a.multiTenant) && (b.probe ==> a.probe)
  }

  /** A restart now would forget something. */
  predicate Loosens(a: Agent) { !Tighter(LoadOf(a.file), a.trust) }

  /** No restart forgets anything. */
  predicate Remembers(start: Content, trace: seq<Event>) {
    forall n :: 0 <= n < |trace| && trace[n] == Restart ==> !Loosens(After(start, trace[..n]))
  }

  /** No save leaves the old file behind. */
  predicate SavesTake(trace: seq<Event>) {
    forall n :: 0 <= n < |trace| && (trace[n].Heartbeat? || trace[n].Check?) ==> trace[n].outcome != Untouched
  }

  /** If every save takes, what is on disk is never looser than what is in memory. */
  lemma {:induction false} FileKeepsUp(start: Content, trace: seq<Event>)
    requires SavesTake(trace)
    ensures !Loosens(After(start, trace))
  {
    if trace != [] {
      FileKeepsUp(start, trace[..|trace| - 1]);
    }
  }

  /** So then no restart forgets. */
  lemma SavesTakeRemembers(start: Content, trace: seq<Event>)
    requires SavesTake(trace)
    ensures Remembers(start, trace)
  {
    hide After, Loosens;
    forall n | 0 <= n < |trace| && trace[n] == Restart ensures !Loosens(After(start, trace[..n])) {
      FileKeepsUp(start, trace[..n]);
    }
  }

  /** Trust never loosens, across restarts and damage to the file alike, unless a
      restart forgets. */
  lemma {:induction false} TrustOnlyTightens(start: Content, trace: seq<Event>, n: nat)
    requires Remembers(start, trace) && n <= |trace|
    ensures Tighter(After(start, trace).trust, After(start, trace[..n]).trust)
    decreases |trace|
  {
    if n == |trace| {
      assert trace[..n] == trace;
    } else {
      var last := |trace| - 1;
      var init := trace[..last];
      hide After;
      assert forall m :: 0 <= m <= last ==> init[..m] == trace[..m];
      TrustOnlyTightens(start, init, n);
      AfterNext(start, trace);
      hide Remembers, Reported;
      assert trace[last] == Restart ==> !Loosens(After(start, init)) by { RemembersLast(start, trace); }
    }
  }

  lemma RemembersLast(start: Content, trace: seq<Event>)
    requires trace != [] && Remembers(start, trace)
    ensures trace[|trace| - 1] == Restart ==> !Loosens(After(start, trace[..|trace| - 1]))
  {
    hide After, Loosens;
  }

  /** That is the exact condition: trust is never looser than it was exactly if no
      restart forgets. */
  lemma TrustOnlyTightensIff(start: Content, trace: seq<Event>)
    ensures Remembers(start, trace) <==>
      forall m, n :: 0 <= m <= n <= |trace| ==> Tighter(After(start, trace[..n]).trust, After(start, trace[..m]).trust)
  {
    if Remembers(start, trace) {
      forall m, n | 0 <= m <= n <= |trace| ensures Tighter(After(start, trace[..n]).trust, After(start, trace[..m]).trust) {
        assert trace[..n][..m] == trace[..m];
        RemembersPart(start, trace, n);
        TrustOnlyTightens(start, trace[..n], m);
      }
    } else {
      var n :| 0 <= n < |trace| && trace[n] == Restart && Loosens(After(start, trace[..n]));
      var after := trace[..n + 1];
      assert after[..n] == trace[..n] && after[n] == Restart;
      AfterNext(start, after);
      hide After;
      assert !Tighter(After(start, after).trust, After(start, trace[..n]).trust);
    }
  }

  lemma RemembersPart(start: Content, trace: seq<Event>, n: nat)
    requires Remembers(start, trace) && n <= |trace|
    ensures Remembers(start, trace[..n])
  {
    hide After, Loosens;
    assert forall m :: 0 <= m <= n ==> trace[..n][..m] == trace[..m];
  }

  lemma AfterNext(start: Content, trace: seq<Event>)
    requires trace != []
    ensures After(start, trace) == Apply(After(start, trace[..|trace| - 1]), trace[|trace| - 1])
  {
  }

  lemma TighterMode(a: Latched, b: Latched, requireRelease: bool)
    requires Tighter(a, b)
    ensures Strictness(ModeOf(a, requireRelease)) >= Strictness(ModeOf(b, requireRelease))
  {
  }

  /** What an applied update carries: the announced hash, and authorisation. */
  lemma UpdatedMeans(setup: Setup, l: Latched, input: CheckInput)
    requires Decide(setup, l, input).Updated?
    ensures input.version.Some? && input.download.Some?
    ensures setup.crypto.sha256(input.download.value) == LowerCase(Trim(input.version.value.hash))
    ensures Allows(ModeOf(l, setup.requireRelease), Decide(setup, l, input).verdict)
    ensures var v := Decide(setup, l, input).verdict;
      v.Release? ==> ReleaseSigned(setup.crypto, setup.keys, OfferOf(setup.platform, input.version.value), input.download.value, v.id)
  {
    hide ReleaseSigned, Authorize, IsHex;
    VerdictHasEvidence(setup.crypto, ModeOf(l, setup.requireRelease), setup.keys, setup.localKey,
                       OfferOf(setup.platform, input.version.value), input.download.value);
  }

  /** The announced binary is not the one that runs, was downloaded with exactly the
      announced hash, and can be put in place. */
  ghost predicate Replaceable(setup: Setup, input: CheckInput) {
    && input.version.Some? && input.ownBinary.Some? && input.download.Some? && input.applies
    && var hash := LowerCase(Trim(input.version.value.hash));
       && hash != "" && |hash| % 2 == 0
       && (forall i :: 0 <= i < |hash| ==> '0' <= hash[i] <= '9' || 'a' <= hash[i] <= 'f' || 'A' <= hash[i] <= 'F')
       && setup.crypto.sha256(input.ownBinary.value) != hash && setup.crypto.sha256(input.download.value) == hash
  }

  /** When a check applies an update, exactly, and by what right: with a release
      signature; with the local key, unless only releases are allowed here; or on
      its hash alone, which a probe and a multi-tenant agent never accept. */
  lemma UpdatedExactly(setup: Setup, l: Latched, input: CheckInput)
    ensures var r := Decide(setup, l, input);
      match input.version
      case None => r == Failed
      case Some(v) =>
        var offer := Offer(setup.platform, v.releaseSignature, v.releaseKeyId, v.signature);
        && (r.Updated? ==> Replaceable(setup, input))
        && (Replaceable(setup, input) ==> forall i: nat | NamesKey(setup.keys, offer, i) ::
              r ==
              if setup.crypto.releaseVerifies(setup.keys[i].key,
                   "nodeglow-agent-binary:v1:" + setup.platform + ":" + LowerCase(setup.crypto.sha256(input.download.value)),
                   TextOf(v.releaseSignature))
              then Updated(Release(setup.keys[i].id)) else Failed)
        && (r == Updated(LocalKey) <==>
              && Replaceable(setup, input) && !NamesTrustedKey(setup.keys, offer)
              && !setup.requireRelease && !l.multiTenant
              && !Blank(setup.localKey) && Given(v.signature)
              && setup.crypto.localVerifies(Trim(setup.localKey), TextOf(v.signature), input.download.value))
        && (r == Updated(HashOnly) <==>
              && Replaceable(setup, input) && !NamesTrustedKey(setup.keys, offer)
              && !setup.requireRelease && !l.multiTenant && !l.probe && Blank(setup.localKey))
  {
    hide Authorize, NamesKey, NamesTrustedKey, Given, TextOf, Blank, Trim, LowerCase;
    if Replaceable(setup, input) {
      VerdictExactly(setup.crypto, ModeOf(l, setup.requireRelease), setup.keys, setup.localKey,
                     OfferOf(setup.platform, input.version.value), input.download.value);
    }
  }

  /** The server says "multi-tenant": in the configuration of a heartbeat or in the
      answer to a check. */
  ghost predicate SaidMultiTenant(e: Event) {
    || (e.Heartbeat? && e.config.Some? && e.config.value.multiTenant == Some(true))
    || (e.Check? && e.input.version.Some? && e.input.version.value.multiTenant == Some(true))
  }

  /** The server treats the agent as a probe: it assigns checks, or its configuration
      names it a probe or has it relay. */
  ghost predicate SaidProbe(e: Event) {
    && e.Heartbeat?
    && (e.checks > 0 || (e.config.Some? && (e.config.value.probe == Some(true) || e.config.value.relay)))
  }

  /** The last start of the process was at `r`. */
  ghost predicate StartedAt(trace: seq<Event>, r: nat) {
    r <= |trace| && (r == 0 || trace[r - 1] == Restart) && forall i :: r <= i < |trace| ==> trace[i] != Restart
  }

  /** What the agent holds true after any run is exactly what the file said when it
      last started, or what the server has said since. */
  lemma {:induction false} TrustTellsHistory(start: Content, trace: seq<Event>, r: nat)
    requires StartedAt(trace, r)
    ensures var file, l := After(start, trace[..r]).file, After(start, trace).trust;
      && (l.multiTenant <==> file == Unreadable || (file.Stored? && file.state.multiTenant)
                             || exists i :: r <= i < |trace| && SaidMultiTenant(trace[i]))
      && (l.probe <==> file == Unreadable || (file.Stored? && file.state.probe)
                       || exists i :: r <= i < |trace| && SaidProbe(trace[i]))
  {
    var last := |trace| - 1;
    if r == |trace| {
      assert trace[..r] == trace;
      if trace != [] { AfterNext(start, trace); }
    } else {
      var init := trace[..last];
      assert init[..r] == trace[..r];
      TrustTellsHistory(start, init, r);
      AfterNext(start, trace);
      hide After;
      ReportSays(After(start, init), trace[last]);
      hide Apply, SaidMultiTenant, SaidProbe;
      assert forall i :: r <= i < last ==> trace[i] == init[i];
      SomeNext(trace, r);
    }
  }

  lemma SomeNext(trace: seq<Event>, r: nat)
    requires r < |trace|
    ensures var last := |trace| - 1; var init := trace[..last];
      && ((exists i :: r <= i < |trace| && SaidMultiTenant(trace[i])) <==>
            SaidMultiTenant(trace[last]) || exists i :: r <= i < last && SaidMultiTenant(init[i]))
      && ((exists i :: r <= i < |trace| && SaidProbe(trace[i])) <==>
            SaidProbe(trace[last]) || exists i :: r <= i < last && SaidProbe(init[i]))
  {
    hide SaidMultiTenant, SaidProbe;
    var last := |trace| - 1;
    var init := trace[..last];
    if i :| r <= i < |trace| && SaidMultiTenant(trace[i]) && i < last { assert SaidMultiTenant(init[i]); }
    if i :| r <= i < |trace| && SaidProbe(trace[i]) && i < last { assert SaidProbe(init[i]); }
    if i :| r <= i < last && SaidMultiTenant(init[i]) { assert SaidMultiTenant(trace[i]); }
    if i :| r <= i < last && SaidProbe(init[i]) { assert SaidProbe(trace[i]); }
  }

  lemma ReportSays(a: Agent, e: Event)
    requires e != Restart
    ensures Apply(a, e).trust.multiTenant <==> a.trust.multiTenant || SaidMultiTenant(e)
    ensures Apply(a, e).trust.probe <==> a.trust.probe || SaidProbe(e)
  {}

  /** What was said at `i` is known from `i` on. */
  lemma StillKnown(start: Content, trace: seq<Event>, i: nat, n: nat)
    requires Remembers(start, trace) && i <= n < |trace|
    ensures var l := After(start, trace[..n + 1]).trust;
      (SaidMultiTenant(trace[i]) ==> l.multiTenant) && (SaidProbe(trace[i]) ==> l.probe)
  {
    var before, now := trace[..i + 1], trace[..n + 1];
    assert before[..i] == trace[..i] && now[..i + 1] == before;
    AfterNext(start, before);
    if trace[i] != Restart { ReportSays(After(start, trace[..i]), trace[i]); }
    hide After, Reported, Remembers;
    RemembersPart(start, trace, n + 1);
    TrustOnlyTightens(start, now, i + 1);
  }

  /** Once the server has said "multi-tenant", in a heartbeat or in the very answer
      of the check, every update applied from then on is signed by a compiled-in
      release key over this platform and these bytes, whatever the server says
      later and however often the agent restarts, as long as no restart forgets. */
  lemma MultiTenantIsForGood(setup: Setup, start: Content, trace: seq<Event>, i: nat, n: nat)
    requires Remembers(start, trace) && i <= n < |trace| && SaidMultiTenant(trace[i])
    requires trace[n].Check? && ResultAt(setup, start, trace, n).Updated?
    ensures var input := trace[n].input;
      && input.version.Some? && input.download.Some?
      && setup.crypto.sha256(input.download.value) == LowerCase(Trim(input.version.value.hash))
      && exists id :: ReleaseSigned(setup.crypto, setup.keys, OfferOf(setup.platform, input.version.value), input.download.value, id)
  {
    hide Decide, ReleaseSigned, SaidMultiTenant, After, Remembers;
    StillKnown(start, trace, i, n);
    UpdatedMeans(setup, After(start, trace[..n + 1]).trust, trace[n].input);
    assert Decide(setup, After(start, trace[..n + 1]).trust, trace[n].input).verdict.Release?;
  }

  /** A probe, once known as one, never again applies an update on its hash alone. */
  lemma ProbeIsForGood(setup: Setup, start: Content, trace: seq<Event>, i: nat, n: nat)
    requires Remembers(start, trace) && i <= n < |trace| && SaidProbe(trace[i])
    requires trace[n].Check? && ResultAt(setup, start, trace, n).Updated?
    ensures ResultAt(setup, start, trace, n).verdict != HashOnly
  {
    hide Decide, ReleaseSigned, SaidProbe, After, Remembers;
    StillKnown(start, trace, i, n);
    UpdatedMeans(setup, After(start, trace[..n + 1]).trust, trace[n].input);
  }

  /** So the offers an agent accepts only become fewer: what it would apply now it
      would have applied, with the same authorisation, at any earlier point. */
  lemma AcceptanceShrinks(setup: Setup, start: Content, trace: seq<Event>, n: nat, input: CheckInput)
    requires Remembers(start, trace) && n <= |trace|
    requires Decide(setup, After(start, trace).trust, input).Updated?
    ensures Decide(setup, After(start, trace[..n]).trust, input) == Decide(setup, After(start, trace).trust, input)
  {
    TrustOnlyTightens(start, trace, n);
    hide After, Authorize, IsHex;
    var now, earlier := After(start, trace).trust, After(start, trace[..n]).trust;
    TighterMode(now, earlier, setup.requireRelease);
    StricterAllowsLess(setup.crypto, ModeOf(now, setup.requireRelease), ModeOf(earlier, setup.requireRelease), setup.keys,
                       setup.localKey, OfferOf(setup.platform, input.version.value), input.download.value);
  }

  /** A file that cannot be read means the strictest mode after the next start. */
  lemma {:induction false} DamageTightens(start: Content, trace: seq<Event>)
    ensures After(start, trace + [FileDamaged, Restart]).trust == TIGHTEST
  {
    var damaged := trace + [FileDamaged];
    var all := trace + [FileDamaged, Restart];
    assert all[..|all| - 1] == damaged && damaged[..|damaged| - 1] == trace;
    AfterNext(start, all);
    AfterNext(start, damaged);
  }

  // ── When the latch does not survive ────────────────────────────────────────

  /** The event at `n` changes the state in memory, so it saves. */
  predicate ChangesAt(start: Content, trace: seq<Event>, n: nat)
    requires n < |trace|
  {
    && (trace[n].Heartbeat? || trace[n].Check?)
    && var before := After(start, trace[..n]).trust;
       LatchOf(before, Reported(trace[n]).0, Reported(trace[n]).1) != before
  }

  /** The save at `k` left a readable old file behind, and since then the state was
      not saved again, the file not damaged, and the process not restarted. A failed
      save is tried again only with the next change. */
  ghost predicate LeftBehind(start: Content, trace: seq<Event>, k: nat) {
    && k < |trace| && ChangesAt(start, trace, k) && trace[k].outcome == Untouched
    && After(start, trace[..k]).file != Unreadable
    && forall j :: k < j < |trace| ==>
         trace[j] != Restart && trace[j] != FileDamaged && (ChangesAt(start, trace, j) ==> trace[j].outcome == Untouched)
  }

  /** A readable file never holds more than memory does. */
  lemma {:induction false} ReadableFileBehind(start: Content, trace: seq<Event>)
    ensures var a := After(start, trace); a.file != Unreadable ==> Tighter(a.trust, LoadOf(a.file))
  {
    if trace != [] { ReadableFileBehind(start, trace[..|trace| - 1]); }
  }

  lemma LooseNext(a: Agent, e: Event)
    requires a.file != Unreadable ==> Tighter(a.trust, LoadOf(a.file))
    ensures var changes := (e.Heartbeat? || e.Check?) && LatchOf(a.trust, Reported(e).0, Reported(e).1) != a.trust;
      Loosens(Apply(a, e)) <==>
        if e.Restart? || e.FileDamaged? then false
        else if !changes then Loosens(a)
        else e.outcome == Untouched && a.file != Unreadable
  {
    hide Reported;
  }

  lemma EarlierChange(start: Content, trace: seq<Event>, j: nat)
    requires j + 1 < |trace|
    ensures ChangesAt(start, trace, j) == ChangesAt(start, trace[..|trace| - 1], j)
    ensures After(start, trace[..j]) == After(start, trace[..|trace| - 1][..j])
  {
    assert trace[..|trace| - 1][..j] == trace[..j];
  }

  lemma LeftBehindNext(start: Content, trace: seq<Event>, k: nat)
    requires trace != []
    ensures var n := |trace| - 1;
      LeftBehind(start, trace, k) <==>
        if k == n then ChangesAt(start, trace, n) && trace[n].outcome == Untouched && After(start, trace[..n]).file != Unreadable
        else LeftBehind(start, trace[..n], k) && trace[n] != Restart && trace[n] != FileDamaged
             && (ChangesAt(start, trace, n) ==> trace[n].outcome == Untouched)
  {
    hide ChangesAt, After;
    var n := |trace| - 1;
    forall j: nat | j < n
      ensures ChangesAt(start, trace, j) == ChangesAt(start, trace[..n], j)
      ensures After(start, trace[..j]) == After(start, trace[..n][..j])
    {
      EarlierChange(start, trace, j);
    }
  }

  /** The file is looser than memory exactly if a save left a readable old file
      behind and nothing since made up for it. */
  lemma {:induction false} FileLooserIff(start: Content, trace: seq<Event>)
    ensures Loosens(After(start, trace)) <==> exists k: nat :: LeftBehind(start, trace, k)
  {
    if trace != [] {
      var n := |trace| - 1;
      FileLooserIff(start, trace[..n]);
      ReadableFileBehind(start, trace[..n]);
      LooseNext(After(start, trace[..n]), trace[n]);
      AfterNext(start, trace);
      forall k: nat ensures LeftBehind(start, trace, k) <==>
        if k == n then ChangesAt(start, trace, n) && trace[n].outcome == Untouched && After(start, trace[..n]).file != Unreadable
        else LeftBehind(start, trace[..n], k) && trace[n] != Restart && trace[n] != FileDamaged
             && (ChangesAt(start, trace, n) ==> trace[n].outcome == Untouched)
      {
        LeftBehindNext(start, trace, k);
      }
      UnreadableIsTight(After(start, trace[..n]));
      hide After, LeftBehind, Loosens, Apply, Reported;
      if trace[n].Heartbeat? || trace[n].Check? {
        var a := After(start, trace[..n]);
        if ChangesAt(start, trace, n) && trace[n].outcome == Untouched {
          if a.file != Unreadable {
            assert LeftBehind(start, trace, n);
          } else {
            assert !Loosens(a);
          }
        }
      }
    }
  }

  lemma UnreadableIsTight(a: Agent)
    ensures a.file == Unreadable ==> !Loosens(a)
  {}

  /** After any run whatever, a restart keeps all that was learnt exactly if no save
      left a readable old file behind that nothing since made up for. */
  lemma SurvivesRestartIff(start: Content, trace: seq<Event>)
    ensures Tighter(After(start, trace + [Restart]).trust, After(start, trace).trust) <==>
      forall k: nat :: !LeftBehind(start, trace, k)
  {
    FileLooserIff(start, trace);
    var all := trace + [Restart];
    assert all[..|all| - 1] == trace;
    AfterNext(start, all);
    hide After, LeftBehind;
  }

  /** For example: a probe whose first save fails knows it until it restarts. */
  lemma ProbeForgets(outcome: SaveOutcome)
    ensures After(Missing, [Heartbeat(1, None, outcome), Restart]).trust.probe <==> outcome != Untouched
  {
    var first := [Heartbeat(1, None, outcome)];
    var both := [Heartbeat(1, None, outcome), Restart];
    assert both[..1] == first && first[..0] == [];
    AfterNext(Missing, first);
    AfterNext(Missing, both);
    assert After(Missing, first) == Agent(Latched(false, true), SaveOf(Missing, Latched(false, true), outcome));
  }
}
