/**
  The relay's bounded FIFO (agent/src/syslog_relay.rs, `RelayBuffer`): capped by
  entry count and by bytes, dropping the oldest when full.
 */
module RelayQueue {
  import opened SyslogFraming
  import opened Subsequences

  datatype Transport = Udp | Tcp

  datatype RelayEntry = RelayEntry(raw: Bytes, sourceIp: string, receivedAt: string, transport: Transport) {
    /** Approximate size on the wire; 64 stands for the JSON overhead. */
    function Size(): nat { |raw| + |sourceIp| + |receivedAt| + 64 }
  }

  type Entries = seq<RelayEntry>

  datatype Limits = Limits(maxEntries: nat, maxBytes: nat)

  function TotalSize(q: Entries): nat {
    if q == [] then 0 else q[0].Size() + TotalSize(q[1..])
  }

  lemma {:induction false} TotalSizeConcat(a: Entries, b: Entries)
    ensures TotalSize(a + b) == TotalSize(a) + TotalSize(b)
  {
    if a == [] {
      assert a + b == b;
    } else {
      assert (a + b)[1..] == a[1..] + b;
      TotalSizeConcat(a[1..], b);
    }
  }

  lemma TotalSizeSplit(q: Entries, n: nat)
    requires n <= |q|
    ensures TotalSize(q) == TotalSize(q[..n]) + TotalSize(q[n..])
  {
    assert q == q[..n] + q[n..];
    TotalSizeConcat(q[..n], q[n..]);
  }

  predicate Fits(q: Entries, size: nat, limits: Limits) {
    |q| < limits.maxEntries && TotalSize(q) + size <= limits.maxBytes
  }

  /** Within both caps, except that one entry alone may exceed the byte cap. */
  predicate WithinLimits(q: Entries, limits: Limits) {
    |q| <= limits.maxEntries && (TotalSize(q) <= limits.maxBytes || |q| == 1)
  }

  // ── What the three operations do to the queue ──────────────────────────────

  function Evict(q: Entries, size: nat, limits: Limits): Entries {
    if q == [] || Fits(q, size, limits) then q else Evict(q[1..], size, limits)
  }

  function Pushed(q: Entries, e: RelayEntry, limits: Limits): Entries {
    Evict(q, e.Size(), limits) + [e]
  }

  /** How many entries one request takes, having taken `k` already. */
  function BatchCount(q: Entries, maxEntries: nat, maxBytes: nat, k: nat): nat
    requires k <= |q|
    decreases |q| - k
  {
    if k >= maxEntries || k == |q| then k
    else if k > 0 && TotalSize(q[..k + 1]) > maxBytes then k
    else BatchCount(q, maxEntries, maxBytes, k + 1)
  }

  /** Put a batch back in front, newest entry first, skipping what does not fit. */
  function Requeued(batch: Entries, q: Entries, limits: Limits): Entries {
    if batch == [] then q
    else
      var last := batch[|batch| - 1];
      Requeued(batch[..|batch| - 1], if Fits(q, last.Size(), limits) then [last] + q else q, limits)
  }

  // ── Properties ─────────────────────────────────────────────────────────────

  lemma {:induction false} EvictsFront(q: Entries, size: nat, limits: Limits)
    ensures var d := |q| - |Evict(q, size, limits)|;
      && 0 <= d <= |q| && Evict(q, size, limits) == q[d..]
      && (d < |q| ==> Fits(q[d..], size, limits))
      && forall j :: 0 <= j < d ==> !Fits(q[j..], size, limits)
  {
    hide Fits;
    assert q[0..] == q;
    if q != [] && !Fits(q, size, limits) {
      EvictsFront(q[1..], size, limits);
      var d := |q| - |Evict(q, size, limits)|;
      forall j | 1 <= j < d ensures !Fits(q[j..], size, limits) { assert q[1..][j - 1..] == q[j..]; }
    }
  }

  /** A push keeps the longest suffix of the queue that leaves room. */
  lemma {:induction false} PushKeepsLongestSuffix(q: Entries, e: RelayEntry, limits: Limits)
    ensures var d := |q| + 1 - |Pushed(q, e, limits)|;
      && 0 <= d <= |q| && Pushed(q, e, limits) == q[d..] + [e]
      && (d < |q| ==> Fits(q[d..], e.Size(), limits))
      && forall j :: 0 <= j < d ==> !Fits(q[j..], e.Size(), limits)
  {
    EvictsFront(q, e.Size(), limits);
    hide Evict, Fits;
  }

  /** Counted with the new entry, a push evicts no entry more than it must: the rest
      and the entry are within both caps, unless the entry is alone, and with any
      evicted one still there they would exceed one of them. */
  lemma PushEvictsLeast(q: Entries, e: RelayEntry, limits: Limits)
    ensures var d := |q| + 1 - |Pushed(q, e, limits)|; var after := Pushed(q, e, limits);
      && 0 <= d <= |q| && after == q[d..] + [e]
      && (|after| > 1 ==> |after| <= limits.maxEntries && TotalSize(after) <= limits.maxBytes)
      && forall j :: 0 <= j < d ==>
           |q[j..] + [e]| > limits.maxEntries || TotalSize(q[j..] + [e]) > limits.maxBytes
  {
    PushKeepsLongestSuffix(q, e, limits);
    hide Pushed;
    var d := |q| + 1 - |Pushed(q, e, limits)|;
    forall j | 0 <= j <= d
      ensures TotalSize(q[j..] + [e]) == TotalSize(q[j..]) + e.Size()
    {
      TotalSizeConcat(q[j..], [e]);
    }
  }

  /** A push never exceeds the caps, whatever the size of the new entry. */
  lemma PushWithinLimits(q: Entries, e: RelayEntry, limits: Limits)
    requires limits.maxEntries >= 1
    ensures WithinLimits(Pushed(q, e, limits), limits)
  {
    PushKeepsLongestSuffix(q, e, limits);
    var d := |q| + 1 - |Pushed(q, e, limits)|;
    TotalSizeConcat(q[d..], [e]);
  }

  /** A batch is the longest prefix within both request limits, and at least one
      entry whatever its size. */
  lemma {:induction false} BatchIsLongestPrefix(q: Entries, maxEntries: nat, maxBytes: nat, k: nat)
    requires k <= |q| && k <= maxEntries && (k > 1 ==> TotalSize(q[..k]) <= maxBytes)
    ensures var n := BatchCount(q, maxEntries, maxBytes, k);
      && k <= n <= |q| && n <= maxEntries
      && (n > 1 ==> TotalSize(q[..n]) <= maxBytes)
      && (n == 0 <==> q == [] || maxEntries == 0)
      && forall m :: n < m <= |q| && m <= maxEntries ==> TotalSize(q[..m]) > maxBytes
    decreases |q| - k
  {
    if k >= maxEntries || k == |q| {
    } else if k > 0 && TotalSize(q[..k + 1]) > maxBytes {
      forall m | k < m <= |q| && m <= maxEntries ensures TotalSize(q[..m]) > maxBytes {
        TotalSizeSplit(q[..m], k + 1);
        assert q[..m][..k + 1] == q[..k + 1];
      }
    } else {
      BatchIsLongestPrefix(q, maxEntries, maxBytes, k + 1);
    }
  }

  lemma TakeOneMore(q: Entries, n: nat)
    requires n < |q|
    ensures q[..n] + [q[n]] == q[..n + 1] && q[n..][1..] == q[n + 1..]
    ensures TotalSize(q[..n + 1]) == TotalSize(q[..n]) + q[n].Size()
    ensures TotalSize(q[n..]) == q[n].Size() + TotalSize(q[n + 1..])
  {
    TotalSizeConcat(q[..n], [q[n]]);
    assert q[..n] + [q[n]] == q[..n + 1];
  }

  lemma TakeWithinLimits(q: Entries, n: nat, limits: Limits)
    requires n <= |q| && WithinLimits(q, limits)
    ensures WithinLimits(q[n..], limits)
  {
    TotalSizeSplit(q, n);
    if n == 0 { assert q[0..] == q; }
    if |q| == 1 && n == 1 { assert q[n..] == []; }
  }

  lemma FrontWithinLimits(q: Entries, e: RelayEntry, limits: Limits)
    requires Fits(q, e.Size(), limits)
    ensures WithinLimits([e] + q, limits)
  {
    assert ([e] + q)[1..] == q;
  }

  /** What survives a requeue is a subsequence of the batch, in front. */
  lemma {:induction false} RequeueSurvivors(batch: Entries, q: Entries, limits: Limits) returns (kept: Entries)
    requires WithinLimits(q, limits)
    ensures Requeued(batch, q, limits) == kept + q
    ensures IsSubsequence(kept, batch)
    ensures WithinLimits(Requeued(batch, q, limits), limits)
  {
    if batch == [] {
      kept := [];
    } else {
      var init, last := batch[..|batch| - 1], batch[|batch| - 1];
      assert batch == init + [last];
      hide Fits, WithinLimits, IsSubsequence;
      if Fits(q, last.Size(), limits) {
        FrontWithinLimits(q, last, limits);
        var k := RequeueSurvivors(init, [last] + q, limits);
        kept := k + [last];
        assert k + ([last] + q) == kept + q;
        Reflexive([last]);
        Concat(k, init, [last], [last]);
      } else {
        kept := RequeueSurvivors(init, q, limits);
        Concat(kept, init, [], [last]);
        assert kept + [] == kept;
      }
    }
  }

  lemma {:induction false} RequeueLength(batch: Entries, q: Entries, limits: Limits)
    ensures |q| <= |Requeued(batch, q, limits)| <= |batch| + |q|
  {
    if batch != [] {
      var init, last := batch[..|batch| - 1], batch[|batch| - 1];
      RequeueLength(init, if Fits(q, last.Size(), limits) then [last] + q else q, limits);
    }
  }

  /** How many entries at the end of the batch go back before one does not fit. */
  function NewestFitting(batch: Entries, q: Entries, limits: Limits): (k: nat)
    ensures k <= |batch|
  {
    if batch == [] then 0
    else
      var last := batch[|batch| - 1];
      if Fits(q, last.Size(), limits) then 1 + NewestFitting(batch[..|batch| - 1], [last] + q, limits) else 0
  }

  lemma {:induction false} RequeueNewestFirst(batch: Entries, q: Entries, limits: Limits)
    ensures var k := NewestFitting(batch, q, limits); var m := |batch| - k;
      && Requeued(batch, q, limits) == Requeued(batch[..m], batch[m..] + q, limits)
      && (m > 0 ==> !Fits(batch[m..] + q, batch[m - 1].Size(), limits))
  {
    hide Fits, Requeued, NewestFitting;
    if batch == [] || NewestFitting(batch, q, limits) == 0 {
      NoneGoesBack(batch, q, limits);
      assert batch[..|batch|] == batch && batch[|batch|..] + q == q;
    } else {
      NewestGoesBack(batch, q, limits);
      var init, last := batch[..|batch| - 1], batch[|batch| - 1];
      RequeueNewestFirst(init, [last] + q, limits);
      var m := |batch| - NewestFitting(batch, q, limits);
      assert init[..m] == batch[..m];
      assert init[m..] + ([last] + q) == batch[m..] + q;
    }
  }

  lemma NoneGoesBack(batch: Entries, q: Entries, limits: Limits)
    requires NewestFitting(batch, q, limits) == 0
    ensures batch != [] ==> !Fits(q, batch[|batch| - 1].Size(), limits)
  {
    hide Fits;
  }

  lemma NewestGoesBack(batch: Entries, q: Entries, limits: Limits)
    requires batch != [] && NewestFitting(batch, q, limits) > 0
    ensures var init, rest := batch[..|batch| - 1], [batch[|batch| - 1]] + q;
      && Requeued(batch, q, limits) == Requeued(init, rest, limits)
      && NewestFitting(batch, q, limits) == 1 + NewestFitting(init, rest, limits)
  {
    hide Fits;
  }

  lemma {:induction false} NothingFits(batch: Entries, q: Entries, limits: Limits)
    requires forall i :: 0 <= i < |batch| ==> !Fits(q, batch[i].Size(), limits)
    ensures Requeued(batch, q, limits) == q
  {
    if batch != [] { NothingFits(batch[..|batch| - 1], q, limits); }
  }

  /** If some entry of the batch still fits, the first to go back in front of the
      queue is one that fits. */
  lemma {:induction false} SomethingFits(batch: Entries, q: Entries, limits: Limits) returns (i: nat, front: Entries)
    requires exists j :: 0 <= j < |batch| && Fits(q, batch[j].Size(), limits)
    ensures i < |batch| && Fits(q, batch[i].Size(), limits)
    ensures Requeued(batch, q, limits) == front + [batch[i]] + q
  {
    var init, last := batch[..|batch| - 1], batch[|batch| - 1];
    if Fits(q, last.Size(), limits) {
      i := |batch| - 1;
      front := RequeueFront(init, [last] + q, limits);
      assert front + ([last] + q) == front + [last] + q;
    } else {
      var j :| 0 <= j < |batch| && Fits(q, batch[j].Size(), limits);
      assert init[j] == batch[j];
      i, front := SomethingFits(init, q, limits);
    }
  }

  lemma {:induction false} RequeueFront(batch: Entries, q: Entries, limits: Limits) returns (front: Entries)
    ensures Requeued(batch, q, limits) == front + q
  {
    if batch == [] {
      front := [];
    } else {
      var init, last := batch[..|batch| - 1], batch[|batch| - 1];
      if Fits(q, last.Size(), limits) {
        var f := RequeueFront(init, [last] + q, limits);
        front := f + [last];
        assert f + ([last] + q) == front + q;
      } else {
        front := RequeueFront(init, q, limits);
      }
    }
  }

  /** The discarded entries are the oldest of the batch, as documented, exactly
      when no entry older than the first misfit would still fit. */
  lemma OldestDiscardedIff(batch: Entries, q: Entries, limits: Limits)
    ensures var m := |batch| - NewestFitting(batch, q, limits);
      (exists n :: 0 <= n <= |batch| && Requeued(batch, q, limits) == batch[n..] + q) <==>
      (forall i :: 0 <= i < m ==> !Fits(batch[m..] + q, batch[i].Size(), limits))
  {
    hide Requeued, Fits, NewestFitting;
    var m := |batch| - NewestFitting(batch, q, limits);
    var s := batch[m..] + q;
    RequeueNewestFirst(batch, q, limits);
    assert forall i :: 0 <= i < m ==> batch[..m][i] == batch[i];
    if j :| 0 <= j < m && Fits(s, batch[j].Size(), limits) {
      NoSuffixKept(batch, q, limits, m, j);
    } else {
      NothingFits(batch[..m], s, limits);
      assert Requeued(batch, q, limits) == batch[m..] + q;
    }
  }

  lemma NoSuffixKept(batch: Entries, q: Entries, limits: Limits, m: nat, j: nat)
    requires j < m <= |batch| && Fits(batch[m..] + q, batch[j].Size(), limits)
    requires !Fits(batch[m..] + q, batch[m - 1].Size(), limits)
    requires Requeued(batch, q, limits) == Requeued(batch[..m], batch[m..] + q, limits)
    ensures forall n :: 0 <= n <= |batch| ==> Requeued(batch, q, limits) != batch[n..] + q
  {
    hide Requeued, Fits;
    assert batch[..m][j] == batch[j];
    var i, front := SomethingFits(batch[..m], batch[m..] + q, limits);
    assert batch[..m][i] == batch[i];
    forall n | 0 <= n <= |batch| ensures Requeued(batch, q, limits) != batch[n..] + q {
      MisfitIsNotKept(batch, q, m, n, batch[i], front);
    }
  }

  lemma MisfitIsNotKept(batch: Entries, q: Entries, m: nat, n: nat, other: RelayEntry, front: Entries)
    requires 0 < m <= |batch| && n <= |batch| && other != batch[m - 1]
    ensures front + [other] + (batch[m..] + q) != batch[n..] + q
  {
    var f := |front|;
    var kept, suffix := front + [other] + (batch[m..] + q), batch[n..] + q;
    if |kept| == |suffix| {
      assert kept[f] == other;
      assert suffix[f] == batch[m - 1];
    }
  }

  /** Behind a newer entry that does not fit, an older one goes back: not the oldest
      is discarded, but the newest. */
  lemma OlderGoesBack(small: RelayEntry, big: RelayEntry, q: Entries, limits: Limits)
    requires Fits(q, small.Size(), limits) && !Fits(q, big.Size(), limits)
    ensures Requeued([small, big], q, limits) == [small] + q
    ensures !exists n :: 0 <= n <= 2 && Requeued([small, big], q, limits) == [small, big][n..] + q
  {
    hide Fits;
    var batch := [small, big];
    assert batch[..1] == [small] && [small][..0] == [];
    assert Requeued([small], q, limits) == [small] + q;
    assert Requeued(batch, q, limits) == [small] + q;
    hide Requeued;
    forall n | 0 <= n <= 2 ensures batch[n..] + q != [small] + q {
      assert |batch[n..] + q| == 2 - n + |q| && |[small] + q| == 1 + |q|;
      if n == 1 { assert (batch[n..] + q)[0] == big && ([small] + q)[0] == small; }
    }
  }

  /** Putting a batch back right after taking it restores the queue, exactly
      when nothing was taken or the queue was within its byte cap: an oversized
      entry that push admitted is lost on the way back. */
  lemma RequeueRestoresIff(q: Entries, n: nat, limits: Limits)
    requires n <= |q| && WithinLimits(q, limits)
    ensures Requeued(q[..n], q[n..], limits) == q <==> n == 0 || TotalSize(q) <= limits.maxBytes
  {
    if n == 0 {
      assert q[..0] == [] && q[0..] == q;
    } else if TotalSize(q) <= limits.maxBytes {
      RestoreWithin(q, n, limits);
    } else {
      assert q[..1][..0] == [] && q[1..] == [] && TotalSize([]) == 0;
      assert TotalSize(q) == q[0].Size();
    }
  }

  lemma {:induction false} RestoreWithin(q: Entries, n: nat, limits: Limits)
    requires n <= |q| <= limits.maxEntries && TotalSize(q) <= limits.maxBytes
    ensures Requeued(q[..n], q[n..], limits) == q
  {
    if n == 0 {
      assert q[..0] == [] && q[0..] == q;
    } else {
      TotalSizeSplit(q, n - 1);
      assert q[n - 1..] == [q[n - 1]] + q[n..];
      assert q[..n][..n - 1] == q[..n - 1];
      RestoreWithin(q, n - 1, limits);
    }
  }

  lemma RequeueNext(batch: Entries, i: nat, q: Entries, limits: Limits)
    requires i < |batch|
    ensures Requeued(batch[..i + 1], q, limits) ==
      Requeued(batch[..i], if Fits(q, batch[i].Size(), limits) then [batch[i]] + q else q, limits)
  {
    hide Fits;
    assert batch[..i + 1][..i] == batch[..i];
  }

  lemma NothingToRequeue(batch: Entries, q: Entries, limits: Limits)
    ensures Requeued(batch[..0], q, limits) == q
  {}

  lemma SizeInFront(e: RelayEntry, q: Entries)
    ensures TotalSize([e] + q) == e.Size() + TotalSize(q)
  {
    assert ([e] + q)[1..] == q;
  }

  // ── The buffer object ──────────────────────────────────────────────────────

  class RelayBuffer {
    var entries: Entries
    var bytes: nat
    const limits: Limits

    /** The byte counter is exact and the caps hold. */
    ghost predicate Valid()
      reads this
    {
      bytes == TotalSize(entries) && limits.maxEntries >= 1 && WithinLimits(entries, limits)
    }

    constructor (maxEntries: nat, maxBytes: nat)
      ensures Valid() && entries == []
      ensures limits == Limits(if maxEntries >= 1 then maxEntries else 1, if maxBytes >= 1 then maxBytes else 1)
    {
      entries, bytes := [], 0;
      limits := Limits(if maxEntries >= 1 then maxEntries else 1, if maxBytes >= 1 then maxBytes else 1);
    }

    /** The new entry goes to the end; old ones are evicted to make room for it. */
    method Push(entry: RelayEntry) returns (dropped: nat)
      requires Valid()
      modifies this
      ensures Valid()
      ensures entries == Pushed(old(entries), entry, limits)
      ensures dropped == |old(entries)| + 1 - |entries|
    {
      dropped := 0;
      while entries != [] && !(|entries| < limits.maxEntries && bytes + entry.Size() <= limits.maxBytes)
        invariant bytes == TotalSize(entries)
        invariant dropped == |old(entries)| - |entries|
        invariant Evict(entries, entry.Size(), limits) == Evict(old(entries), entry.Size(), limits)
        decreases |entries|
      {
        bytes := bytes - entries[0].Size();
        entries := entries[1..];
        dropped := dropped + 1;
      }
      bytes := bytes + entry.Size();
      TotalSizeConcat(entries, [entry]);
      entries := entries + [entry];
      PushWithinLimits(old(entries), entry, limits);
    }

    /** The next request's share of the queue, from its front. */
    method TakeBatch(maxEntries: nat, maxBytes: nat) returns (batch: Entries)
      requires Valid()
      modifies this
      ensures Valid()
      ensures var n := BatchCount(old(entries), maxEntries, maxBytes, 0);
        n <= |old(entries)| && batch == old(entries)[..n] && entries == old(entries)[n..]
    {
      ghost var all := entries;
      BatchIsLongestPrefix(all, maxEntries, maxBytes, 0);
      batch := [];
      var taken := 0;
      while |batch| < maxEntries && entries != []
        invariant |batch| <= |all| && batch == all[..|batch|] && entries == all[|batch|..]
        invariant bytes == TotalSize(entries) && taken == TotalSize(batch)
        invariant BatchCount(all, maxEntries, maxBytes, |batch|) == BatchCount(all, maxEntries, maxBytes, 0)
        decreases |entries|
      {
        var size := entries[0].Size();
        TakeOneMore(all, |batch|);
        if batch != [] && taken + size > maxBytes {
          break;
        }
        bytes := bytes - size;
        taken := taken + size;
        batch := batch + [entries[0]];
        entries := entries[1..];
      }
      TakeWithinLimits(all, |batch|, limits);
    }

    /** After a failed send: what fits of the batch precedes the queue again. */
    method RequeueFront(batch: Entries) returns (dropped: nat)
      requires Valid()
      modifies this
      ensures Valid()
      ensures entries == Requeued(batch, old(entries), limits)
      ensures dropped == |batch| + |old(entries)| - |entries|
    {
      ghost var kept := RequeueSurvivors(batch, entries, limits);
      dropped := 0;
      var i := |batch|;
      assert batch[..i] == batch;
      hide TotalSize, WithinLimits, Requeued;
      while i > 0
        invariant 0 <= i <= |batch|
        invariant bytes == TotalSize(entries)
        invariant dropped == |batch| - i + |old(entries)| - |entries|
        invariant Requeued(batch[..i], entries, limits) == Requeued(batch, old(entries), limits)
      {
        i := i - 1;
        RequeueNext(batch, i, entries, limits);
        var entry := batch[i];
        SizeInFront(entry, entries);
        if |entries| < limits.maxEntries && bytes + entry.Size() <= limits.maxBytes {
          bytes := bytes + entry.Size();
          entries := [entry] + entries;
        } else {
          dropped := dropped + 1;
        }
      }
      NothingToRequeue(batch, entries, limits);
    }
  }
}
