/**
  The soft lock of the login (backend/routers/auth.py): two sliding windows over
  a stored log of failures that is pruned to 24 hours and to the newest 100.

  Times are real seconds. The main results: the pruned log decides like the full
  history, the announced waiting time is exact, and without trusted devices no
  window ever holds more failures than its limit.
 */
module LoginLock {

  datatype Rule = Rule(limit: nat, window: real)

  const SHORT := Rule(5, 900.0)
  const LONG := Rule(20, 86400.0)
  const RULES := [SHORT, LONG]
  const MAX_STORED_FAILURES: nat := 100

  type Times = seq<real>

  predicate Sorted(s: Times) { forall i, j :: 0 <= i < j < |s| ==> s[i] <= s[j] }

  function Since(s: Times, t: real): Times {
    if s == [] then [] else if s[0] > t then [s[0]] + Since(s[1..], t) else Since(s[1..], t)
  }

  function Insert(s: Times, x: real): Times {
    if s == [] || x <= s[0] then [x] + s else [s[0]] + Insert(s[1..], x)
  }

  /** Python's `sorted`. */
  function Sort(s: Times): Times {
    if s == [] then [] else Insert(Sort(s[1..]), s[0])
  }

  /** The failures still in the window of a rule, oldest first. */
  function Recent(attempts: Times, now: real, rule: Rule): Times {
    Sort(Since(attempts, now - rule.window))
  }

  /** The instant the rule stops locking, if it locks now. */
  function UnlockAt(attempts: Times, now: real, rule: Rule): real {
    var recent := Recent(attempts, now, rule);
    if 0 < rule.limit <= |recent| then recent[|recent| - rule.limit] + rule.window else now
  }

  function RuleRemaining(attempts: Times, now: real, rule: Rule): int {
    var recent := Recent(attempts, now, rule);
    if 0 < rule.limit <= |recent| then (recent[|recent| - rule.limit] + rule.window - now).Floor + 1 else 0
  }

  function Max(a: int, b: int): int { if a >= b then a else b }

  /** How long a client has to wait, in seconds. */
  function LockRemaining(attempts: Times, now: real): int {
    Max(Max(0, RuleRemaining(attempts, now, SHORT)), RuleRemaining(attempts, now, LONG))
  }

  // ── What counting means ────────────────────────────────────────────────────

  /** Failures after an instant. */
  function CountAfter(s: Times, t: real): nat {
    if s == [] then 0 else (if s[0] > t then 1 else 0) + CountAfter(s[1..], t)
  }

  /** The rule as documented: at least `limit` failures in the last `window`. */
  predicate LockedBy(attempts: Times, now: real, rule: Rule) {
    CountAfter(attempts, now - rule.window) >= rule.limit
  }

  /** 5 failures in 15 minutes, or 20 in 24 hours. */
  predicate Locked(attempts: Times, now: real) {
    CountAfter(attempts, now - 900.0) >= 5 || CountAfter(attempts, now - 86400.0) >= 20
  }

  lemma {:induction false} InsertSorts(s: Times, x: real)
    requires Sorted(s)
    ensures Sorted(Insert(s, x)) && |Insert(s, x)| == |s| + 1
    ensures forall y :: y in Insert(s, x) <==> y == x || y in s
  {
    if s != [] && x > s[0] {
      InsertSorts(s[1..], x);
      assert forall y :: y in s <==> y == s[0] || y in s[1..];
      var r := Insert(s[1..], x);
      forall i | 0 <= i < |r| ensures s[0] <= r[i] {
        assert r[i] in r;
      }
    }
  }

  lemma {:induction false} InsertCounts(s: Times, x: real, t: real)
    ensures CountAfter(Insert(s, x), t) == CountAfter(s, t) + if x > t then 1 else 0
  {
    if s == [] || x <= s[0] {
      assert ([x] + s)[1..] == s;
    } else {
      InsertCounts(s[1..], x, t);
      assert ([s[0]] + Insert(s[1..], x))[1..] == Insert(s[1..], x);
    }
  }

  lemma {:induction false} SortSorts(s: Times, t: real)
    ensures Sorted(Sort(s)) && |Sort(s)| == |s|
    ensures CountAfter(Sort(s), t) == CountAfter(s, t)
  {
    if s != [] {
      SortSorts(s[1..], t);
      InsertSorts(Sort(s[1..]), s[0]);
      InsertCounts(Sort(s[1..]), s[0], t);
    }
  }

  lemma {:induction false} SinceCounts(s: Times, t: real, later: real)
    requires later >= t
    ensures CountAfter(Since(s, t), later) == CountAfter(s, later)
    ensures |Since(s, t)| == CountAfter(s, t)
  {
    if s != [] {
      SinceCounts(s[1..], t, later);
      if s[0] > t { assert ([s[0]] + Since(s[1..], t))[1..] == Since(s[1..], t); }
    }
  }

  lemma {:induction false} CountBound(s: Times, t: real)
    ensures CountAfter(s, t) <= |s|
  {
    if s != [] { CountBound(s[1..], t); }
  }

  lemma {:induction false} NoneAfter(s: Times, t: real)
    requires forall i :: 0 <= i < |s| ==> s[i] <= t
    ensures CountAfter(s, t) == 0
  {
    if s != [] { NoneAfter(s[1..], t); }
  }

  lemma {:induction false} CountSplit(s: Times, n: nat, t: real)
    requires n <= |s|
    ensures CountAfter(s, t) == CountAfter(s[..n], t) + CountAfter(s[n..], t)
  {
    if n == 0 {
      assert s[..0] == [] && s[0..] == s;
    } else {
      CountSplit(s[1..], n - 1, t);
      assert s[..n][1..] == s[1..][..n - 1] && s[n..] == s[1..][n - 1..];
    }
  }

  /** In a sorted log, at least `limit` entries are newer than `t` exactly when
      the `limit`-th newest is. */
  lemma CountIsNthNewest(s: Times, limit: nat, t: real)
    requires Sorted(s) && limit > 0
    ensures CountAfter(s, t) >= limit <==> |s| >= limit && s[|s| - limit] > t
  {
    CountBound(s, t);
    if |s| >= limit {
      var n := |s| - limit;
      if s[n] > t {
        CountSplit(s, n, t);
        AllAfter(s[n..], t);
      } else {
        CountSplit(s, n + 1, t);
        NoneAfter(s[..n + 1], t);
        CountBound(s[n + 1..], t);
      }
    }
  }

  lemma {:induction false} AllAfter(s: Times, t: real)
    requires forall i :: 0 <= i < |s| ==> s[i] > t
    ensures CountAfter(s, t) == |s|
  {
    if s != [] { AllAfter(s[1..], t); }
  }

  lemma {:induction false} CountAntitone(s: Times, t: real, u: real)
    requires t <= u
    ensures CountAfter(s, u) <= CountAfter(s, t)
  {
    if s != [] { CountAntitone(s[1..], t, u); }
  }

  // ── The announced waiting time is exact ────────────────────────────────────

  lemma RecentCounts(attempts: Times, now: real, later: real, rule: Rule)
    requires later >= now
    ensures var recent := Recent(attempts, now, rule);
      && Sorted(recent)
      && |recent| == CountAfter(recent, now - rule.window) == CountAfter(attempts, now - rule.window)
      && CountAfter(recent, later - rule.window) == CountAfter(attempts, later - rule.window)
  {
    var t := now - rule.window;
    SinceCounts(attempts, t, later - rule.window);
    SinceCounts(attempts, t, t);
    SortSorts(Since(attempts, t), later - rule.window);
    SortSorts(Since(attempts, t), t);
    hide Sort, Since, CountAfter;
  }

  /** One rule: it locks at a later instant exactly when it locks now and that
      instant is before its unlock time. */
  lemma RuleIsExact(attempts: Times, now: real, later: real, rule: Rule)
    requires later >= now && rule.limit > 0
    ensures LockedBy(attempts, later, rule) <==>
      LockedBy(attempts, now, rule) && later < UnlockAt(attempts, now, rule)
    ensures LockedBy(attempts, now, rule) ==> UnlockAt(attempts, now, rule) > now
    ensures RuleRemaining(attempts, now, rule) ==
      if LockedBy(attempts, now, rule) then (UnlockAt(attempts, now, rule) - now).Floor + 1 else 0
  {
    hide Recent, CountAfter, Sorted;
    var recent := Recent(attempts, now, rule);
    RecentCounts(attempts, now, later, rule);
    CountIsNthNewest(recent, rule.limit, later - rule.window);
    CountIsNthNewest(recent, rule.limit, now - rule.window);
    CountAntitone(attempts, now - rule.window, later - rule.window);
  }

  /** The waiting time is positive exactly while locked; the lock holds until the
      latest unlock time and not after it; and the announced seconds are that
      time rounded up to the next whole second. */
  lemma LockIsExact(attempts: Times, now: real, later: real)
    requires later >= now
    ensures LockRemaining(attempts, now) > 0 <==> Locked(attempts, now)
    ensures LockRemaining(attempts, now) >= 0
    ensures var short, long := UnlockAt(attempts, now, SHORT), UnlockAt(attempts, now, LONG);
      Locked(attempts, later) <==>
        (LockedBy(attempts, now, SHORT) && later < short) || (LockedBy(attempts, now, LONG) && later < long)
    ensures later >= now + LockRemaining(attempts, now) as real ==> !Locked(attempts, later)
    ensures Locked(attempts, now) && later < now + (LockRemaining(attempts, now) - 1) as real ==> Locked(attempts, later)
  {
    RuleIsExact(attempts, now, later, SHORT);
    RuleIsExact(attempts, now, later, LONG);
    hide UnlockAt, RuleRemaining, LockedBy;
  }

  // ── The stored log and the full history ────────────────────────────────────

  /** What is written back after a failure. */
  function Recorded(stored: Times, now: real): Times {
    var kept := Since(stored, now - LONG.window) + [now];
    if |kept| > MAX_STORED_FAILURES then kept[|kept| - MAX_STORED_FAILURES..] else kept
  }

  /** Of a sorted log, the entries of the last 24 hours stay, the newest 99 at most,
      and the new failure comes last. */
  lemma RecordedKeeps(stored: Times, now: real)
    requires Sorted(stored)
    ensures var kept := |Recorded(stored, now)| - 1;
      && 0 <= kept <= |stored| && kept <= 99
      && Recorded(stored, now) == stored[|stored| - kept..] + [now]
      && (forall i :: |stored| - kept <= i < |stored| ==> stored[i] > now - 86400.0)
      && (kept == 99 || forall i :: 0 <= i < |stored| - kept ==> stored[i] <= now - 86400.0)
  {
    SinceIsSuffix(stored, now - LONG.window);
    hide Since, Sorted;
    var recent := Since(stored, now - LONG.window);
    if |recent| > 99 {
      assert (recent + [now])[|recent| - 99..] == recent[|recent| - 99..] + [now];
      assert recent[|recent| - 99..] == stored[|stored| - 99..];
    }
  }

  /** `stored` is the end of the history `full`; what was cut off had expired by
      `clock`, or is followed by enough newer entries. */
  ghost predicate Represents(stored: Times, full: Times, clock: real) {
    && |stored| <= |full| && stored == full[|full| - |stored|..]
    && Sorted(full)
    && (forall i :: 0 <= i < |full| ==> full[i] <= clock)
    && (|stored| >= MAX_STORED_FAILURES
        || forall i :: 0 <= i < |full| - |stored| ==> full[i] <= clock - LONG.window)
  }

  lemma {:induction false} SinceAll(s: Times, t: real)
    requires forall i :: 0 <= i < |s| ==> s[i] > t
    ensures Since(s, t) == s
  {
    if s != [] { SinceAll(s[1..], t); }
  }

  lemma {:induction false} SinceIsSuffix(s: Times, t: real)
    requires Sorted(s)
    ensures |Since(s, t)| <= |s| && Since(s, t) == s[|s| - |Since(s, t)|..]
    ensures forall i :: 0 <= i < |s| - |Since(s, t)| ==> s[i] <= t
    ensures forall i :: |s| - |Since(s, t)| <= i < |s| ==> s[i] > t
  {
    if s != [] && s[0] > t {
      SinceAll(s, t);
    } else if s != [] {
      SinceIsSuffix(s[1..], t);
      var n := |Since(s[1..], t)|;
      assert s[1..][|s| - 1 - n..] == s[|s| - n..];
      forall i | 0 <= i < |s| - n ensures s[i] <= t {
        if i > 0 { assert s[1..][i - 1] == s[i]; }
      }
      forall i | |s| - n <= i < |s| ensures s[i] > t {
        assert s[1..][i - 1] == s[i];
      }
    }
  }

  lemma {:induction false} SortOfSorted(s: Times)
    requires Sorted(s)
    ensures Sort(s) == s
  {
    if s != [] {
      SortOfSorted(s[1..]);
      if |s| > 1 { assert s[0] <= s[1]; }
    }
  }

  lemma RecentOfSorted(s: Times, now: real, rule: Rule)
    requires Sorted(s)
    ensures var recent := Recent(s, now, rule);
      && |recent| <= |s| && recent == s[|s| - |recent|..]
      && (forall i :: 0 <= i < |s| ==> (i >= |s| - |recent| <==> s[i] > now - rule.window))
  {
    var t := now - rule.window;
    SinceIsSuffix(s, t);
    hide Sort, Since;
    assert Sorted(Since(s, t));
    SortOfSorted(Since(s, t));
  }

  /** For a sorted log a rule looks at one entry only, the `limit`-th newest. */
  lemma RuleOnSorted(s: Times, now: real, rule: Rule)
    requires Sorted(s) && rule.limit > 0
    ensures RuleRemaining(s, now, rule) ==
      if |s| >= rule.limit && s[|s| - rule.limit] > now - rule.window
      then (s[|s| - rule.limit] + rule.window - now).Floor + 1 else 0
  {
    hide Recent, Sorted;
    RecentOfSorted(s, now, rule);
    var recent := Recent(s, now, rule);
    if |recent| >= rule.limit {
      assert recent[|recent| - rule.limit] == s[|s| - rule.limit];
    }
  }

  /** The pruned log decides like the whole history, from the last write on. */
  lemma PrunedLogDecidesAlike(stored: Times, full: Times, clock: real, now: real)
    requires Represents(stored, full, clock) && now >= clock
    ensures LockRemaining(stored, now) == LockRemaining(full, now)
  {
    assert Sorted(stored);
    SameRule(stored, full, clock, now, SHORT);
    SameRule(stored, full, clock, now, LONG);
    hide RuleRemaining;
  }

  lemma SameRule(stored: Times, full: Times, clock: real, now: real, rule: Rule)
    requires Represents(stored, full, clock) && now >= clock && Sorted(stored)
    requires 0 < rule.limit <= MAX_STORED_FAILURES && rule.window <= LONG.window
    ensures RuleRemaining(stored, now, rule) == RuleRemaining(full, now, rule)
  {
    RuleOnSorted(stored, now, rule);
    RuleOnSorted(full, now, rule);
    hide RuleRemaining;
    if |stored| >= rule.limit {
      assert stored[|stored| - rule.limit] == full[|full| - rule.limit];
    }
  }

  lemma RecordRepresents(stored: Times, full: Times, clock: real, now: real)
    requires Represents(stored, full, clock) && now >= clock
    ensures Represents(Recorded(stored, now), full + [now], now)
  {
    assert Sorted(stored);
    SinceIsSuffix(stored, now - LONG.window);
    hide Since;
    var n := |Since(stored, now - LONG.window)|;
    assert Since(stored, now - LONG.window) == full[|full| - n..];
    if n < |stored| || |stored| < MAX_STORED_FAILURES {
      DroppedExpired(stored, full, clock, now, n);
    }
    assert Since(stored, now - LONG.window) + [now] == (full + [now])[|full| - n..];
    hide Recorded;
    CappedRepresents(full, clock, now, n);
    assert Recorded(stored, now) == Capped(full, now, n) by { CappedIsRecorded(stored, full, now, n); }
  }

  function Capped(full: Times, now: real, n: nat): Times
    requires n <= |full|
  {
    (full + [now])[|full| - (if n + 1 > MAX_STORED_FAILURES then MAX_STORED_FAILURES - 1 else n)..]
  }

  lemma CappedIsRecorded(stored: Times, full: Times, now: real, n: nat)
    requires n <= |full| && |Since(stored, now - LONG.window)| == n
    requires Since(stored, now - LONG.window) + [now] == (full + [now])[|full| - n..]
    ensures Recorded(stored, now) == Capped(full, now, n)
  {
    hide Since;
  }

  lemma CappedRepresents(full: Times, clock: real, now: real, n: nat)
    requires n <= |full| && Sorted(full) && now >= clock
    requires forall i :: 0 <= i < |full| ==> full[i] <= clock
    requires n >= MAX_STORED_FAILURES || forall i :: 0 <= i < |full| - n ==> full[i] <= now - LONG.window
    ensures Represents(Capped(full, now, n), full + [now], now)
  {}

  lemma DroppedExpired(stored: Times, full: Times, clock: real, now: real, n: nat)
    requires Represents(stored, full, clock) && now >= clock && n <= |stored|
    requires n < |stored| || |stored| < MAX_STORED_FAILURES
    requires forall i :: 0 <= i < |stored| - n ==> stored[i] <= now - LONG.window
    ensures forall i :: 0 <= i < |full| - n ==> full[i] <= now - LONG.window
  {
    var cut := |full| - |stored|;
    forall i | 0 <= i < |full| - n ensures full[i] <= now - LONG.window {
      if i >= cut {
        assert full[i] == stored[i - cut];
      } else if n < |stored| {
        assert full[i] <= full[cut] == stored[0];
      }
    }
  }

  // ── Login attempts ─────────────────────────────────────────────────────────

  datatype Credentials = Wrong | NoAccess | Accepted

  /** One login request: throttled by address, the lock check at `now`, a trusted
      device cookie (and whether it used up its own budget), what the credentials
      turn out to be, and the later clock reading of the record. */
  datatype Attempt = Attempt(
    throttled: bool,
    now: real,
    trusted: bool,
    exhausted: bool,
    credentials: Credentials,
    recordedAt: real)

  datatype Reply = TooManyRequests | RetryAfter(seconds: int) | Unauthorized | Forbidden | SignedIn

  datatype Handled = Handled(stored: Times, reply: Reply)

  function Login(stored: Times, a: Attempt): Handled {
    if a.throttled then Handled(stored, TooManyRequests)
    else
      var exempt := a.trusted && !a.exhausted;
      var remaining := LockRemaining(stored, a.now);
      if remaining != 0 && !exempt then Handled(stored, RetryAfter(remaining))
      else match a.credentials
        case Wrong => Handled(Recorded(stored, a.recordedAt), Unauthorized)
        case NoAccess => Handled(stored, Forbidden)
        case Accepted => Handled(if remaining == 0 then [] else stored, SignedIn)
  }

  /** The same with nothing ever pruned: every failure since the last clear. */
  function FullLogin(full: Times, a: Attempt): Handled {
    if a.throttled then Handled(full, TooManyRequests)
    else
      var remaining := LockRemaining(full, a.now);
      if remaining != 0 && !(a.trusted && !a.exhausted) then Handled(full, RetryAfter(remaining))
      else match a.credentials
        case Wrong => Handled(full + [a.recordedAt], Unauthorized)
        case NoAccess => Handled(full, Forbidden)
        case Accepted => Handled(if remaining == 0 then [] else full, SignedIn)
  }

  /** The policy, from the fields of the attempt and whether the account is locked:
      nothing about the credentials is told, and nothing recorded, to a locked-out
      client without a usable device cookie. `added` is `before` with this failure. */
  ghost predicate ByPolicy(a: Attempt, locked: bool, before: Times, added: Times, reply: Reply, after: Times) {
    var refused := locked && (!a.trusted || a.exhausted);
    && (reply == TooManyRequests <==> a.throttled)
    && (reply.RetryAfter? <==> !a.throttled && refused)
    && (reply == Unauthorized <==> !a.throttled && !refused && a.credentials == Wrong)
    && (reply == Forbidden <==> !a.throttled && !refused && a.credentials == NoAccess)
    && (reply == SignedIn <==> !a.throttled && !refused && a.credentials == Accepted)
    && after == if reply == Unauthorized then added else if reply == SignedIn && !locked then [] else before
  }

  /** A client told to wait finds the account open after that many seconds, and
      locked until less than a second before. */
  ghost predicate WaitIsExact(log: Times, now: real, reply: Reply) {
    reply.RetryAfter? ==> reply.seconds > 0 && forall later: real | later >= now ::
      && (later >= now + reply.seconds as real ==> !Locked(log, later))
      && (later < now + (reply.seconds - 1) as real ==> Locked(log, later))
  }

  /** Over the whole history: who is refused is decided by counting failures and by
      the device cookie, whatever the credentials. */
  lemma RefusedIffLocked(full: Times, a: Attempt)
    ensures var h := FullLogin(full, a);
      && ByPolicy(a, Locked(full, a.now), full, full + [a.recordedAt], h.reply, h.stored)
      && WaitIsExact(full, a.now, h.reply)
  {
    LockIsExact(full, a.now, a.now);
    forall later: real | later >= a.now
      ensures later >= a.now + LockRemaining(full, a.now) as real ==> !Locked(full, later)
      ensures Locked(full, a.now) && later < a.now + (LockRemaining(full, a.now) - 1) as real ==> Locked(full, later)
    {
      LockIsExact(full, a.now, later);
    }
    hide LockRemaining, Locked;
  }

  /** The same over the pruned log. */
  lemma StoredRefusedIffLocked(stored: Times, a: Attempt)
    ensures var h := Login(stored, a);
      && ByPolicy(a, Locked(stored, a.now), stored, Recorded(stored, a.recordedAt), h.reply, h.stored)
      && WaitIsExact(stored, a.now, h.reply)
  {
    RefusedIffLocked(stored, a);
    hide LockRemaining, Locked, Recorded, WaitIsExact;
  }

  /** The clock never runs backwards, within an attempt or between two. */
  predicate ClockForward(attempts: seq<Attempt>, from: real)
    decreases |attempts|
  {
    attempts == [] ||
    (from <= attempts[0].now <= attempts[0].recordedAt && ClockForward(attempts[1..], attempts[0].recordedAt))
  }

  function Replies(stored: Times, attempts: seq<Attempt>): seq<Reply>
    decreases |attempts|
  {
    if attempts == [] then []
    else
      var h := Login(stored, attempts[0]);
      [h.reply] + Replies(h.stored, attempts[1..])
  }

  function FullReplies(full: Times, attempts: seq<Attempt>): seq<Reply>
    decreases |attempts|
  {
    if attempts == [] then []
    else
      var h := FullLogin(full, attempts[0]);
      [h.reply] + FullReplies(h.stored, attempts[1..])
  }

  lemma OneLoginAlike(stored: Times, full: Times, clock: real, a: Attempt)
    requires Represents(stored, full, clock) && clock <= a.now <= a.recordedAt
    ensures Login(stored, a).reply == FullLogin(full, a).reply
    ensures Represents(Login(stored, a).stored, FullLogin(full, a).stored, a.recordedAt)
  {
    PrunedLogDecidesAlike(stored, full, clock, a.now);
    RecordRepresents(stored, full, clock, a.recordedAt);
    hide Recorded, LockRemaining;
    assert Represents(stored, full, a.recordedAt);
    assert Represents([], [], a.recordedAt);
  }

  /** Over any run of attempts, every reply (including the announced seconds) is
      the one the unpruned history would have given. */
  lemma {:induction false} PruningNeverShows(stored: Times, full: Times, clock: real, attempts: seq<Attempt>)
    requires Represents(stored, full, clock) && ClockForward(attempts, clock)
    ensures Replies(stored, attempts) == FullReplies(full, attempts)
    decreases |attempts|
  {
    hide Login, FullLogin, Represents;
    if attempts != [] {
      OneLoginAlike(stored, full, clock, attempts[0]);
      PruningNeverShows(Login(stored, attempts[0]).stored, FullLogin(full, attempts[0]).stored,
                        attempts[0].recordedAt, attempts[1..]);
    }
  }

  // ── The failure budget ─────────────────────────────────────────────────────

  /** Any `limit` + 1 failures in a row span at least the window. */
  ghost predicate Spaced(full: Times, rule: Rule) {
    forall i :: 0 <= i && i + rule.limit < |full| ==> full[i + rule.limit] >= full[i] + rule.window
  }

  function HistoryAfter(full: Times, attempts: seq<Attempt>): Times
    decreases |attempts|
  {
    if attempts == [] then full else HistoryAfter(FullLogin(full, attempts[0]).stored, attempts[1..])
  }

  /** A failure recorded at `at` keeps the spacing exactly if the rule does not lock
      at that instant. */
  lemma RecordKeepsSpacingIff(full: Times, at: real, rule: Rule)
    requires Sorted(full) && Spaced(full, rule) && rule.limit > 0
    ensures Spaced(full + [at], rule) <==> RuleRemaining(full, at, rule) <= 0
  {
    RuleOnSorted(full, at, rule);
    hide RuleRemaining;
    var all := full + [at];
    var n := |full| - rule.limit;
    if n >= 0 {
      assert all[n + rule.limit] == at && all[n] == full[n];
    }
  }

  /** Failures at most `window` old at instant `t`. */
  function InWindow(s: Times, t: real, window: real): nat {
    if s == [] then 0 else (if t - window < s[0] <= t then 1 else 0) + InWindow(s[1..], t, window)
  }

  lemma {:induction false} SpacedWindows(s: Times, t: real, rule: Rule)
    requires Sorted(s) && Spaced(s, rule)
    ensures InWindow(s, t, rule.window) <= rule.limit
  {
    if s != [] {
      if t - rule.window < s[0] <= t {
        WindowFromHead(s, t, rule);
      } else {
        forall i | 0 <= i && i + rule.limit < |s[1..]|
          ensures s[1..][i + rule.limit] >= s[1..][i] + rule.window
        {
          assert s[1..][i + rule.limit] == s[i + 1 + rule.limit] && s[1..][i] == s[i + 1];
        }
        SpacedWindows(s[1..], t, rule);
      }
    }
  }

  lemma WindowFromHead(s: Times, t: real, rule: Rule)
    requires Sorted(s) && Spaced(s, rule) && s != [] && t - rule.window < s[0]
    ensures InWindow(s, t, rule.window) <= rule.limit
  {
    if |s| > rule.limit {
      assert s[0 + rule.limit] >= s[0] + rule.window;
      forall i | rule.limit <= i < |s| ensures s[i] > t {
        if i > rule.limit { assert s[rule.limit] <= s[i]; }
      }
      WindowSplit(s, rule.limit, t, rule.window);
    }
    WindowBound(if |s| > rule.limit then s[..rule.limit] else s, t, rule.window);
  }

  lemma {:induction false} WindowSplit(s: Times, n: nat, t: real, window: real)
    requires n <= |s| && forall i :: n <= i < |s| ==> s[i] > t
    ensures InWindow(s, t, window) == InWindow(s[..n], t, window)
  {
    if s == [] {
      assert s[..n] == s;
    } else if n == 0 {
      WindowSplit(s[1..], 0, t, window);
      assert s[..0] == [] && s[1..][..0] == [];
    } else {
      WindowSplit(s[1..], n - 1, t, window);
      assert s[..n][1..] == s[1..][..n - 1];
    }
  }

  lemma {:induction false} WindowBound(s: Times, t: real, window: real)
    ensures InWindow(s, t, window) <= |s|
  {
    if s != [] { WindowBound(s[1..], t, window); }
  }

  lemma {:induction false} WindowAtLeast(s: Times, i: nat, n: nat, t: real, window: real)
    requires i + n <= |s| && forall j :: i <= j < i + n ==> t - window < s[j] <= t
    ensures InWindow(s, t, window) >= n
    decreases |s|
  {
    if n > 0 {
      if i > 0 {
        WindowAtLeast(s[1..], i - 1, n, t, window);
      } else {
        WindowAtLeast(s[1..], 0, n - 1, t, window);
      }
    }
  }

  ghost predicate WithinRule(s: Times, rule: Rule) {
    forall t: real :: InWindow(s, t, rule.window) <= rule.limit
  }

  /** No window of either length ever holds more recorded failures than allowed. */
  ghost predicate WithinBudget(s: Times) { WithinRule(s, Rule(5, 900.0)) && WithinRule(s, Rule(20, 86400.0)) }

  /** One failure too many in the window that ends with it. */
  lemma Crowded(s: Times, i: nat, rule: Rule)
    requires Sorted(s) && i + rule.limit < |s| && s[i + rule.limit] < s[i] + rule.window
    ensures InWindow(s, s[i + rule.limit], rule.window) > rule.limit
  {
    hide InWindow;
    var t := s[i + rule.limit];
    forall j | i <= j < i + rule.limit + 1 ensures t - rule.window < s[j] <= t {
      assert j > i ==> s[i] <= s[j];
      assert j < i + rule.limit ==> s[j] <= s[i + rule.limit];
    }
    WindowAtLeast(s, i, rule.limit + 1, t, rule.window);
  }

  lemma WithinRuleIffSpaced(s: Times, rule: Rule)
    requires Sorted(s)
    ensures WithinRule(s, rule) <==> Spaced(s, rule)
  {
    hide InWindow, Sorted, Spaced;
    if Spaced(s, rule) {
      forall t: real ensures InWindow(s, t, rule.window) <= rule.limit { SpacedWindows(s, t, rule); }
    } else {
      var i := NotSpaced(s, rule);
      Crowded(s, i, rule);
      assert !(InWindow(s, s[i + rule.limit], rule.window) <= rule.limit);
    }
  }

  lemma NotSpaced(s: Times, rule: Rule) returns (i: nat)
    requires !Spaced(s, rule)
    ensures i + rule.limit < |s| && s[i + rule.limit] < s[i] + rule.window
  {
    i :| 0 <= i && i + rule.limit < |s| && s[i + rule.limit] < s[i] + rule.window;
  }

  /** The attempt records a failure although the account is locked at that instant. */
  predicate RecordsLocked(full: Times, a: Attempt) {
    !a.throttled && a.credentials == Wrong && FullLogin(full, a).reply == Unauthorized && LockRemaining(full, a.recordedAt) > 0
  }

  /** Only a client with a usable device cookie can: the others are refused. */
  lemma RecordsLockedNeedsDevice(full: Times, a: Attempt)
    requires a.now <= a.recordedAt && RecordsLocked(full, a)
    ensures a.trusted && !a.exhausted
  {
    LockIsExact(full, a.now, a.recordedAt);
    LockIsExact(full, a.recordedAt, a.recordedAt);
    hide LockRemaining, LockedBy, UnlockAt;
  }

  predicate NeverWhileLocked(full: Times, attempts: seq<Attempt>)
    decreases |attempts|
  {
    attempts == [] || (!RecordsLocked(full, attempts[0]) && NeverWhileLocked(FullLogin(full, attempts[0]).stored, attempts[1..]))
  }

  ghost predicate AlwaysWithinBudget(full: Times, attempts: seq<Attempt>)
    decreases |attempts|
  {
    WithinBudget(full) && (attempts == [] || AlwaysWithinBudget(FullLogin(full, attempts[0]).stored, attempts[1..]))
  }

  lemma LoginEffect(full: Times, a: Attempt)
    ensures var h := FullLogin(full, a);
      if !a.throttled && a.credentials == Wrong && h.reply == Unauthorized then h.stored == full + [a.recordedAt]
      else h.stored == full || h.stored == []
  {
    hide LockRemaining;
  }

  lemma RecordBudget(full: Times, at: real)
    requires Sorted(full) && WithinBudget(full) && forall i :: 0 <= i < |full| ==> full[i] <= at
    ensures Sorted(full + [at])
    ensures WithinBudget(full + [at]) <==> LockRemaining(full, at) <= 0
  {
    assert Sorted(full + [at]);
    WithinRuleIffSpaced(full, SHORT);
    WithinRuleIffSpaced(full, LONG);
    WithinRuleIffSpaced(full + [at], SHORT);
    WithinRuleIffSpaced(full + [at], LONG);
    hide WithinRule;
    RecordKeepsSpacingIff(full, at, SHORT);
    RecordKeepsSpacingIff(full, at, LONG);
    hide Spaced, RuleRemaining, Sorted;
  }

  lemma NothingRecorded()
    ensures Sorted([]) && WithinBudget([])
  {
    WithinRuleIffSpaced([], SHORT);
    WithinRuleIffSpaced([], LONG);
    hide WithinRule;
  }

  lemma OneLoginBudget(full: Times, a: Attempt, clock: real)
    requires Sorted(full) && WithinBudget(full)
    requires forall i :: 0 <= i < |full| ==> full[i] <= clock
    requires clock <= a.now <= a.recordedAt
    ensures var next := FullLogin(full, a).stored;
      && Sorted(next) && (forall i :: 0 <= i < |next| ==> next[i] <= a.recordedAt)
      && (WithinBudget(next) <==> !RecordsLocked(full, a))
  {
    hide WithinBudget, Sorted, LockRemaining, FullLogin;
    LoginEffect(full, a);
    NothingRecorded();
    RecordBudget(full, a.recordedAt);
  }

  /** The budget, exactly: over any run of attempts, no 15 minutes ever hold more than
      5 recorded failures since the last clear and no 24 hours more than 20, if and
      only if no failure is recorded while the account is locked. */
  lemma {:induction false} FailureBudgetIff(full: Times, clock: real, attempts: seq<Attempt>)
    requires Sorted(full) && WithinBudget(full) && forall i :: 0 <= i < |full| ==> full[i] <= clock
    requires ClockForward(attempts, clock)
    ensures AlwaysWithinBudget(full, attempts) <==> NeverWhileLocked(full, attempts)
    decreases |attempts|
  {
    hide FullLogin, WithinBudget, Sorted, RecordsLocked;
    if attempts != [] {
      OneLoginBudget(full, attempts[0], clock);
      var next := FullLogin(full, attempts[0]).stored;
      if WithinBudget(next) {
        FailureBudgetIff(next, attempts[0].recordedAt, attempts[1..]);
      }
    }
  }

  lemma {:induction false} UntrustedNeverWhileLocked(full: Times, clock: real, attempts: seq<Attempt>)
    requires ClockForward(attempts, clock)
    requires forall i :: 0 <= i < |attempts| ==> !(attempts[i].trusted && !attempts[i].exhausted)
    ensures NeverWhileLocked(full, attempts)
    decreases |attempts|
  {
    hide FullLogin, RecordsLocked;
    if attempts != [] {
      if RecordsLocked(full, attempts[0]) { RecordsLockedNeedsDevice(full, attempts[0]); }
      UntrustedNeverWhileLocked(FullLogin(full, attempts[0]).stored, attempts[0].recordedAt, attempts[1..]);
    }
  }

  /** So the budget always holds against clients without a usable device cookie,
      however many attempts they make. */
  lemma FailureBudget(attempts: seq<Attempt>, clock: real)
    requires ClockForward(attempts, clock)
    requires forall i :: 0 <= i < |attempts| ==> !(attempts[i].trusted && !attempts[i].exhausted)
    ensures AlwaysWithinBudget([], attempts)
    ensures WithinBudget(HistoryAfter([], attempts))
  {
    NothingRecorded();
    UntrustedNeverWhileLocked([], clock, attempts);
    FailureBudgetIff([], clock, attempts);
    EndWithinBudget([], attempts);
  }

  lemma {:induction false} EndWithinBudget(full: Times, attempts: seq<Attempt>)
    requires AlwaysWithinBudget(full, attempts)
    ensures WithinBudget(HistoryAfter(full, attempts))
    decreases |attempts|
  {
    hide FullLogin, WithinBudget;
    if attempts != [] { EndWithinBudget(FullLogin(full, attempts[0]).stored, attempts[1..]); }
  }

  // ── The code over the stored setting ───────────────────────────────────────

  /** The loop over the two windows. */
  method ComputeLockRemaining(attempts: Times, now: real) returns (remaining: int)
    ensures remaining == LockRemaining(attempts, now)
    ensures remaining > 0 <==> Locked(attempts, now)
  {
    LockIsExact(attempts, now, now);
    hide LockedBy;
    remaining := 0;
    for n := 0 to |RULES|
      invariant remaining == if n == 0 then 0
        else if n == 1 then Max(0, RuleRemaining(attempts, now, SHORT)) else LockRemaining(attempts, now)
    {
      var rule := RULES[n];
      var recent := Sort(Since(attempts, now - rule.window));
      if |recent| >= rule.limit {
        var unlockAt := recent[|recent| - rule.limit] + rule.window;
        remaining := Max(remaining, (unlockAt - now).Floor + 1);
      } else {
        RuleIsExact(attempts, now, now, rule);
      }
    }
  }

  /** The failure log of one account as the settings table holds it. */
  class FailureLog {
    var stored: Times
    ghost var full: Times
    ghost var clock: real

    ghost predicate Valid()
      reads this
    {
      Represents(stored, full, clock)
    }

    constructor (ghost start: real)
      ensures Valid() && stored == [] && full == [] && clock == start
    {
      stored, full, clock := [], [], start;
    }

    method Handle(a: Attempt) returns (reply: Reply)
      requires Valid() && clock <= a.now <= a.recordedAt
      modifies this
      ensures Valid() && clock == a.recordedAt
      ensures Handled(stored, reply) == Login(old(stored), a)
      ensures Handled(full, reply) == FullLogin(old(full), a)
      ensures ByPolicy(a, Locked(old(stored), a.now), old(stored), Recorded(old(stored), a.recordedAt), reply, stored)
      ensures ByPolicy(a, Locked(old(full), a.now), old(full), old(full) + [a.recordedAt], reply, full)
      ensures WaitIsExact(old(full), a.now, reply)
    {
      OneLoginAlike(stored, full, clock, a);
      RefusedIffLocked(full, a);
      StoredRefusedIffLocked(stored, a);
      full := FullLogin(full, a).stored;
      clock := a.recordedAt;
      hide LockRemaining, Locked, Represents, ByPolicy, WaitIsExact, Recorded;
      if a.throttled {
        return TooManyRequests;
      }
      var exempt := a.trusted && !a.exhausted;
      var remaining := ComputeLockRemaining(stored, a.now);
      if remaining != 0 && !exempt {
        return RetryAfter(remaining);
      }
      match a.credentials {
        case Wrong =>
          stored := Recorded(stored, a.recordedAt);
          reply := Unauthorized;
        case NoAccess => reply := Forbidden;
        case Accepted =>
          if remaining == 0 {
            stored := [];
          }
          reply := SignedIn;
      }
    }
  }
}
