/** Subsequences: what remains of a queue when some entries have left it. Each
    entry of the longer sequence is used at most once, and order is kept. */
module Subsequences {

  predicate IsSubsequence<T(==)>(xs: seq<T>, ys: seq<T>)
    decreases |ys|
  {
    xs == [] ||
    (ys != [] &&
      ((xs[0] == ys[0] && IsSubsequence(xs[1..], ys[1..])) || IsSubsequence(xs, ys[1..])))
  }

  lemma {:induction false} Reflexive<T>(xs: seq<T>)
    ensures IsSubsequence(xs, xs)
  {
    if xs != [] { Reflexive(xs[1..]); }
  }

  lemma {:induction false} Transitive<T>(xs: seq<T>, ys: seq<T>, zs: seq<T>)
    requires IsSubsequence(xs, ys) && IsSubsequence(ys, zs)
    ensures IsSubsequence(xs, zs)
    decreases |ys| + |zs|
  {
    if xs == [] || ys == [] {
    } else if ys[0] == zs[0] && IsSubsequence(ys[1..], zs[1..]) {
      if xs[0] == ys[0] && IsSubsequence(xs[1..], ys[1..]) {
        Transitive(xs[1..], ys[1..], zs[1..]);
      } else {
        Transitive(xs, ys[1..], zs[1..]);
      }
    } else {
      Transitive(xs, ys, zs[1..]);
    }
  }

  lemma {:induction false} Concat<T>(a: seq<T>, b: seq<T>, c: seq<T>, d: seq<T>)
    requires IsSubsequence(a, b) && IsSubsequence(c, d)
    ensures IsSubsequence(a + c, b + d)
    decreases |b|
  {
    if b == [] {
      assert a + c == c && b + d == d;
    } else {
      assert (b + d)[1..] == b[1..] + d && (b + d)[0] == b[0];
      if a != [] && a[0] == b[0] && IsSubsequence(a[1..], b[1..]) {
        Concat(a[1..], b[1..], c, d);
        assert (a + c)[1..] == a[1..] + c;
      } else {
        Concat(a, b[1..], c, d);
      }
    }
  }

  /** A suffix is a subsequence, and so is nothing at all. */
  lemma {:induction false} Suffix<T>(xs: seq<T>, n: nat)
    requires n <= |xs|
    ensures IsSubsequence(xs[n..], xs)
  {
    if n == 0 {
      Reflexive(xs);
      assert xs[0..] == xs;
    } else {
      Suffix(xs[1..], n - 1);
      assert xs[1..][n - 1..] == xs[n..];
    }
  }

  /** A subsequence maps into the longer one by strictly increasing positions. */
  lemma {:induction false} Positions<T>(xs: seq<T>, ys: seq<T>) returns (at: seq<nat>)
    requires IsSubsequence(xs, ys)
    ensures |at| == |xs| <= |ys|
    ensures forall i :: 0 <= i < |xs| ==> at[i] < |ys| && ys[at[i]] == xs[i]
    ensures forall i, j :: 0 <= i < j < |xs| ==> at[i] < at[j]
    decreases |ys|
  {
    if xs == [] {
      at := [];
    } else if xs[0] == ys[0] && IsSubsequence(xs[1..], ys[1..]) {
      var rest := Positions(xs[1..], ys[1..]);
      at := [0] + seq(|rest|, i requires 0 <= i < |rest| => rest[i] + 1);
      forall i | 0 <= i < |xs| ensures at[i] < |ys| && ys[at[i]] == xs[i] {
        if i > 0 { assert ys[1..][rest[i - 1]] == xs[1..][i - 1]; }
      }
    } else {
      var rest := Positions(xs, ys[1..]);
      at := seq(|rest|, i requires 0 <= i < |rest| => rest[i] + 1);
      forall i | 0 <= i < |xs| ensures at[i] < |ys| && ys[at[i]] == xs[i] {
        assert ys[1..][rest[i]] == xs[i];
      }
    }
  }
}
