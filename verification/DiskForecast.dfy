/**
  The disk-full forecast (backend/scheduler.py, `compute_disk_forecast`): a least
  squares line through the usage history, over the reals.
 */
module DiskForecast {
  import opened Wrappers

  const MIN_SAMPLES := 6
  const SECONDS_PER_DAY := 86400.0
  const FLAT := 0.0000000001

  /** Time in days (or any unit) and usage in GB. */
  datatype Point = Point(x: real, y: real)

  /** The sums the code takes over the points. */
  datatype Moments = Moments(n: real, x: real, y: real, xy: real, xx: real)

  function Square(z: real): real { z * z }

  function Joined(m: Moments, p: Point): Moments {
    Moments(m.n + 1.0, m.x + p.x, m.y + p.y, m.xy + p.x * p.y, m.xx + p.x * p.x)
  }

  function Sums(ps: seq<Point>): Moments {
    if ps == [] then Moments(0.0, 0.0, 0.0, 0.0, 0.0)
    else
      Joined(Sums(ps[..|ps| - 1]), ps[|ps| - 1])
  }

  function Denominator(m: Moments): real { m.n * m.xx - m.x * m.x }

  function Numerator(m: Moments): real { m.n * m.xy - m.x * m.y }

  function Slope(m: Moments): real
    requires Denominator(m) != 0.0
  {
    Numerator(m) / Denominator(m)
  }

  function Intercept(m: Moments): real
    requires Denominator(m) != 0.0 && m.n != 0.0
  {
    (m.y - Slope(m) * m.x) / m.n
  }

  lemma {:induction false} CountsPoints(ps: seq<Point>)
    ensures Sums(ps).n == |ps| as real
  {
    if ps != [] { CountsPoints(ps[..|ps| - 1]); }
  }

  // ── The denominator ────────────────────────────────────────────────────────

  /** Squared distances of all points to one place. */
  function Spread(ps: seq<Point>, at: real): real {
    if ps == [] then 0.0
    else
      var p := ps[|ps| - 1];
      Spread(ps[..|ps| - 1], at) + Square(p.x - at)
  }

  /** Squared distances over all pairs of points. */
  function PairSpread(ps: seq<Point>): real {
    if ps == [] then 0.0 else PairSpread(ps[..|ps| - 1]) + Spread(ps[..|ps| - 1], ps[|ps| - 1].x)
  }

  function SpreadOf(m: Moments, at: real): real {
    m.xx - 2.0 * at * m.x + m.n * at * at
  }

  lemma OneMoreSpread(m: Moments, at: real, p: Point)
    ensures SpreadOf(Joined(m, p), at) == SpreadOf(m, at) + Square(p.x - at)
  {
  }

  lemma NothingSpread(at: real)
    ensures SpreadOf(Sums([]), at) == 0.0
  {
  }

  lemma {:induction false} SpreadClosed(ps: seq<Point>, at: real)
    ensures Spread(ps, at) == SpreadOf(Sums(ps), at)
  {
    hide SpreadOf, Joined, Square;
    if ps == [] {
      NothingSpread(at);
    } else {
      SpreadClosed(ps[..|ps| - 1], at);
      OneMoreSpread(Sums(ps[..|ps| - 1]), at, ps[|ps| - 1]);
    }
  }

  /** The sign of a product with a positive factor. */
  lemma Product(p: real, z: real)
    requires p > 0.0
    ensures p * z >= 0.0 <==> z >= 0.0
    ensures p * z == 0.0 <==> z == 0.0
  {
  }

  lemma SquareSign(z: real)
    ensures z * z >= 0.0
    ensures z * z == 0.0 <==> z == 0.0
  {
    if z > 0.0 {
      Product(z, z);
    } else if z < 0.0 {
      Product(-z, -z);
    }
  }

  lemma {:induction false} SpreadSign(ps: seq<Point>, at: real)
    ensures Spread(ps, at) >= 0.0
    ensures Spread(ps, at) == 0.0 <==> forall i :: 0 <= i < |ps| ==> ps[i].x == at
  {
    if ps != [] {
      var n := |ps| - 1;
      SpreadSign(ps[..n], at);
      SquareSign(ps[n].x - at);
      assert forall i :: 0 <= i < n ==> ps[..n][i] == ps[i];
    }
  }

  lemma OneMoreDenominator(m: Moments, p: Point)
    ensures Denominator(Joined(m, p)) == Denominator(m) + SpreadOf(m, p.x)
  {
  }

  /** The denominator of the slope is the sum of the squared distances of all
      pairs of samples in time. */
  lemma {:induction false} DenominatorIsPairSpread(ps: seq<Point>)
    ensures Denominator(Sums(ps)) == PairSpread(ps)
  {
    if ps != [] {
      var n := |ps| - 1;
      DenominatorIsPairSpread(ps[..n]);
      SpreadClosed(ps[..n], ps[n].x);
      OneMoreDenominator(Sums(ps[..n]), ps[n]);
      hide Denominator, SpreadOf;
    }
  }

  /** So it is never negative, and zero exactly if all samples have one time. */
  lemma {:induction false} DenominatorSign(ps: seq<Point>)
    ensures Denominator(Sums(ps)) >= 0.0
    ensures Denominator(Sums(ps)) == 0.0 <==> forall i, j :: 0 <= i < j < |ps| ==> ps[i].x == ps[j].x
  {
    DenominatorIsPairSpread(ps);
    PairSpreadSign(ps);
  }

  lemma {:induction false} PairSpreadSign(ps: seq<Point>)
    ensures PairSpread(ps) >= 0.0
    ensures PairSpread(ps) == 0.0 <==> forall i, j :: 0 <= i < j < |ps| ==> ps[i].x == ps[j].x
  {
    if ps != [] {
      var n := |ps| - 1;
      PairSpreadSign(ps[..n]);
      SpreadSign(ps[..n], ps[n].x);
      assert forall i :: 0 <= i < n ==> ps[..n][i] == ps[i];
    }
  }

  // ── The line is the least squares line ─────────────────────────────────────

  function Residual(p: Point, a: real, b: real): real { p.y - a - b * p.x }

  /** The squared error of the line `a + b * x`. */
  function Error(ps: seq<Point>, a: real, b: real): real {
    if ps == [] then 0.0
    else
      var p := ps[|ps| - 1];
      Error(ps[..|ps| - 1], a, b) + Square(Residual(p, a, b))
  }

  function SumYY(ps: seq<Point>): real {
    if ps == [] then 0.0 else SumYY(ps[..|ps| - 1]) + Square(ps[|ps| - 1].y)
  }

  function ErrorOf(m: Moments, yy: real, a: real, b: real): real {
    yy - 2.0 * a * m.y - 2.0 * b * m.xy + m.n * (a * a) + 2.0 * (a * b) * m.x + (b * b) * m.xx
  }

  lemma NoError(a: real, b: real)
    ensures ErrorOf(Sums([]), SumYY([]), a, b) == 0.0
  {
  }

  lemma {:induction false} ErrorClosed(ps: seq<Point>, a: real, b: real)
    ensures Error(ps, a, b) == ErrorOf(Sums(ps), SumYY(ps), a, b)
  {
    hide ErrorOf, Joined, Square, Residual;
    if ps == [] {
      NoError(a, b);
    } else {
      var n := |ps| - 1;
      ErrorClosed(ps[..n], a, b);
      OneMoreError(Sums(ps[..n]), SumYY(ps[..n]), ps[n], a, b);
    }
  }

  lemma OneMoreError(m: Moments, yy: real, p: Point, a: real, b: real)
    ensures ErrorOf(Joined(m, p), yy + Square(p.y), a, b) ==
      ErrorOf(m, yy, a, b) + Square(Residual(p, a, b))
  {
    SquaredResidual(p.x, p.y, a, b);
    Distributes(m.y, 2.0 * a, p.y);
    Distributes(m.xy, 2.0 * b, p.x * p.y);
    Distributes(m.n, a * a, 1.0);
    Distributes(m.x, 2.0 * (a * b), p.x);
    Distributes(m.xx, b * b, p.x * p.x);
  }

  lemma SquaredResidual(x: real, y: real, a: real, b: real)
    ensures (y - a - b * x) * (y - a - b * x) ==
      y * y - 2.0 * a * y - 2.0 * b * (x * y) + a * a + 2.0 * (a * b) * x + (b * b) * (x * x)
  {
  }

  /** The normal equations. */
  lemma NormalEquations(m: Moments)
    requires Denominator(m) != 0.0 && m.n != 0.0
    ensures m.n * Intercept(m) + Slope(m) * m.x == m.y
    ensures Intercept(m) * m.x + Slope(m) * m.xx == m.xy
  {
    var a, b, d := Intercept(m), Slope(m), Denominator(m);
    assert m.n * a == m.y - b * m.x;
    assert b * d == m.n * m.xy - m.x * m.y;
    Second(m.n, m.x, m.y, m.xy, m.xx, a, b);
  }

  lemma Second(n: real, x: real, y: real, xy: real, xx: real, a: real, b: real)
    requires n != 0.0 && n * a == y - b * x && b * (n * xx - x * x) == n * xy - x * y
    ensures a * x + b * xx == xy
  {
    assert n * (a * x + b * xx) == (n * a) * x + b * (n * xx);
    assert (n * a) * x == (y - b * x) * x == x * y - b * (x * x);
    assert b * (n * xx - x * x) == b * (n * xx) - b * (x * x);
    assert n * (a * x + b * xx) == n * xy;
    assert n * (a * x + b * xx - xy) == 0.0;
  }

  /** How much worse a line is that differs by `da` and `db` from one that meets
      the normal equations. */
  lemma ErrorGap(m: Moments, yy: real, a: real, b: real, da: real, db: real)
    requires m.n * a + b * m.x == m.y && a * m.x + b * m.xx == m.xy
    ensures ErrorOf(m, yy, a + da, b + db) - ErrorOf(m, yy, a, b) ==
      m.n * (da * da) + 2.0 * (da * db) * m.x + (db * db) * m.xx
  {
    assert (a + da) * (a + da) == a * a + 2.0 * (a * da) + da * da;
    assert (b + db) * (b + db) == b * b + 2.0 * (b * db) + db * db;
    assert (a + da) * (b + db) == a * b + a * db + da * b + da * db;
    assert da * m.y == m.n * (a * da) + (da * b) * m.x;
    assert db * m.xy == (a * db) * m.x + (b * db) * m.xx;
  }

  /** The gap, completed to squares. */
  lemma GapTimesCount(n: real, x: real, xx: real, da: real, db: real)
    ensures n * (n * (da * da) + 2.0 * (da * db) * x + (db * db) * xx) ==
      (n * da + x * db) * (n * da + x * db) + (n * xx - x * x) * (db * db)
  {
    var z := n * da + x * db;
    assert z * z == n * n * (da * da) + 2.0 * (da * db) * (n * x) + (x * x) * (db * db);
    assert (n * xx - x * x) * (db * db) == (n * xx) * (db * db) - (x * x) * (db * db);
  }

  lemma GapSign(n: real, x: real, xx: real, da: real, db: real)
    requires n > 0.0 && n * xx - x * x > 0.0
    ensures n * (da * da) + 2.0 * (da * db) * x + (db * db) * xx >= 0.0
    ensures n * (da * da) + 2.0 * (da * db) * x + (db * db) * xx == 0.0 <==> da == 0.0 && db == 0.0
  {
    var gap := n * (da * da) + 2.0 * (da * db) * x + (db * db) * xx;
    var d := n * xx - x * x;
    var z := n * da + x * db;
    GapTimesCount(n, x, xx, da, db);
    SquareSign(z);
    SquareSign(db);
    Product(d, db * db);
    Product(n, gap);
    if gap == 0.0 { SquareSign(da); Product(n, da); }
  }

  /** If the samples differ in time, the computed slope with its intercept is the
      one line with the least squared error. */
  lemma LeastSquares(ps: seq<Point>, a: real, b: real)
    requires Denominator(Sums(ps)) > 0.0
    ensures ps != []
    ensures Error(ps, Intercept(Sums(ps)), Slope(Sums(ps))) <= Error(ps, a, b)
    ensures Error(ps, Intercept(Sums(ps)), Slope(Sums(ps))) == Error(ps, a, b) <==>
      a == Intercept(Sums(ps)) && b == Slope(Sums(ps))
  {
    var m := Sums(ps);
    CountsPoints(ps);
    hide Sums, Error, SumYY;
    assert ps != [] by { NoPoints(ps); }
    var a0, b0 := Intercept(m), Slope(m);
    NormalEquations(m);
    ErrorClosed(ps, a0, b0);
    ErrorClosed(ps, a, b);
    ErrorGap(m, SumYY(ps), a0, b0, a - a0, b - b0);
    GapSign(m.n, m.x, m.xx, a - a0, b - b0);
  }

  lemma NoPoints(ps: seq<Point>)
    requires Denominator(Sums(ps)) > 0.0
    ensures ps != []
  {
  }

  /** Points on a line give that line's slope back. */
  lemma ExactOnLines(ps: seq<Point>, a: real, b: real)
    requires Denominator(Sums(ps)) > 0.0
    requires forall i :: 0 <= i < |ps| ==> ps[i].y == a + b * ps[i].x
    ensures Sums(ps).n != 0.0 && Slope(Sums(ps)) == b && Intercept(Sums(ps)) == a
  {
    NoErrorOnLine(ps, a, b);
    LeastSquares(ps, a, b);
    ErrorSign(ps, Intercept(Sums(ps)), Slope(Sums(ps)));
  }

  lemma {:induction false} NoErrorOnLine(ps: seq<Point>, a: real, b: real)
    requires forall i :: 0 <= i < |ps| ==> ps[i].y == a + b * ps[i].x
    ensures Error(ps, a, b) == 0.0
  {
    if ps != [] {
      NoErrorOnLine(ps[..|ps| - 1], a, b);
      assert Residual(ps[|ps| - 1], a, b) == 0.0;
    }
  }

  lemma {:induction false} ErrorSign(ps: seq<Point>, a: real, b: real)
    ensures Error(ps, a, b) >= 0.0
  {
    if ps != [] {
      ErrorSign(ps[..|ps| - 1], a, b);
      SquareSign(Residual(ps[|ps| - 1], a, b));
    }
  }

  // ── Origin, unit and order do not matter ───────────────────────────────────

  /** `qs` is `ps` on a clock that starts at `c` and counts units of `u`. */
  ghost predicate Reclocked(ps: seq<Point>, qs: seq<Point>, c: real, u: real) {
    |ps| == |qs| && forall i :: 0 <= i < |ps| ==> ps[i].y == qs[i].y && ps[i].x == c + u * qs[i].x
  }

  /** How the sums change with the clock. */
  ghost predicate SumsReclocked(m: Moments, k: Moments, c: real, u: real) {
    && m.n == k.n && m.y == k.y
    && m.x == m.n * c + u * k.x
    && m.xy == c * k.y + u * k.xy
    && m.xx == m.n * Square(c) + 2.0 * (c * u) * k.x + Square(u) * k.xx
  }

  lemma OneMoreReclocked(m: Moments, k: Moments, p: Point, q: Point, c: real, u: real)
    requires SumsReclocked(m, k, c, u) && p.y == q.y && p.x == c + u * q.x
    ensures SumsReclocked(Joined(m, p), Joined(k, q), c, u)
  {
    SquareOfSum(c, u, q.x);
    hide Square;
    Distributes(m.n, c, 1.0);
    Distributes(k.x, u, q.x);
    Distributes(k.y, c, q.y);
    Distributes(k.xy, u, q.x * q.y);
    Distributes(m.n, Square(c), 1.0);
    Distributes(k.x, 2.0 * (c * u), q.x);
    Distributes(k.xx, Square(u), q.x * q.x);
    SumTimes(c, u, q.x, q.y);
  }

  lemma Distributes(x: real, f: real, y: real)
    ensures f * (x + y) == f * x + f * y == (x + y) * f
  {
  }

  lemma SquareOfSum(c: real, u: real, x: real)
    ensures (c + u * x) * (c + u * x) == Square(c) + 2.0 * (c * u) * x + Square(u) * (x * x)
  {
  }

  lemma SumTimes(c: real, u: real, x: real, y: real)
    ensures (c + u * x) * y == c * y + u * (x * y)
  {
  }

  lemma {:induction false} SumsMove(ps: seq<Point>, qs: seq<Point>, c: real, u: real)
    requires Reclocked(ps, qs, c, u)
    ensures SumsReclocked(Sums(ps), Sums(qs), c, u)
    decreases |ps|
  {
    if ps == [] {
      NoSums(c, u);
    } else {
      var n := |ps| - 1;
      SumsMove(ps[..n], qs[..n], c, u);
      OneMoreReclocked(Sums(ps[..n]), Sums(qs[..n]), ps[n], qs[n], c, u);
      hide Joined, SumsReclocked;
    }
  }

  lemma NoSums(c: real, u: real)
    ensures SumsReclocked(Sums([]), Sums([]), c, u)
  {
  }

  lemma DenominatorMoves(m: Moments, k: Moments, c: real, u: real)
    requires SumsReclocked(m, k, c, u)
    ensures Denominator(m) == Square(u) * Denominator(k)
    ensures Numerator(m) == u * Numerator(k)
  {
    var n := m.n;
    assert m.x * m.x == n * n * Square(c) + 2.0 * (n * (c * u)) * k.x + Square(u) * (k.x * k.x) by {
      assert (n * c + u * k.x) * (n * c + u * k.x) == (n * c) * (n * c) + 2.0 * (n * c) * (u * k.x) + (u * k.x) * (u * k.x);
    }
    assert n * m.xx == n * n * Square(c) + 2.0 * (n * (c * u)) * k.x + Square(u) * (n * k.xx);
    assert n * m.xy == n * c * k.y + u * (n * k.xy);
    assert m.x * m.y == n * c * k.y + u * (k.x * k.y);
  }

  lemma SlopeOfMoved(m: Moments, k: Moments, u: real)
    requires u > 0.0 && Denominator(m) != 0.0
    requires Denominator(m) == Square(u) * Denominator(k) && Numerator(m) == u * Numerator(k)
    ensures Denominator(k) != 0.0 && Slope(k) == u * Slope(m)
  {
    hide Denominator, Numerator, Square;
    ZeroTimes(Square(u), Denominator(k));
    SlopeScales(u, Numerator(k), Denominator(k), Numerator(m), Denominator(m));
  }

  /** The slope does not depend on where the clock starts, and scales with its unit. */
  lemma {:induction false} SlopeMoves(ps: seq<Point>, qs: seq<Point>, c: real, u: real)
    requires Reclocked(ps, qs, c, u) && u > 0.0
    ensures Denominator(Sums(ps)) == Square(u) * Denominator(Sums(qs))
    ensures Denominator(Sums(ps)) != 0.0 ==>
      Denominator(Sums(qs)) != 0.0 && Slope(Sums(qs)) == u * Slope(Sums(ps))
  {
    hide Sums, SumsReclocked, Square, Denominator, Numerator, Slope;
    SumsMove(ps, qs, c, u);
    DenominatorMoves(Sums(ps), Sums(qs), c, u);
    if Denominator(Sums(ps)) != 0.0 {
      SlopeOfMoved(Sums(ps), Sums(qs), u);
    }
  }

  lemma ZeroTimes(f: real, z: real)
    requires f * z != 0.0
    ensures z != 0.0
  {
  }

  lemma SlopeScales(u: real, num: real, d: real, movedNum: real, movedD: real)
    requires u > 0.0 && d != 0.0 && movedNum == u * num && movedD == Square(u) * d
    ensures movedD != 0.0 && num / d == u * (movedNum / movedD)
  {
    Product(u, u);
    Product(Square(u), d);
    var q, r := num / d, movedNum / movedD;
    assert r * movedD == movedNum;
    assert u * ((u * r) * d) == r * movedD;
    Cancel((u * r) * d, num, u);
    assert q * d == num;
    Cancel(u * r, q, d);
  }

  lemma Cancel(x: real, y: real, d: real)
    requires d != 0.0 && d * x == d * y
    ensures x == y
  {
    assert d * (x - y) == 0.0;
  }

  lemma {:induction false} SumsRemove(ps: seq<Point>, k: nat)
    requires k < |ps|
    ensures Sums(ps) == Joined(Sums(ps[..k] + ps[k + 1..]), ps[k])
    decreases |ps|
  {
    var n := |ps| - 1;
    if k == n {
      assert ps[..k] + ps[k + 1..] == ps[..n];
    } else {
      SumsRemove(ps[..n], k);
      var rest := ps[..k] + ps[k + 1..];
      assert rest[..|rest| - 1] == ps[..n][..k] + ps[..n][k + 1..];
      Swap(Sums(rest[..|rest| - 1]), ps[k], ps[n]);
      hide Joined;
    }
  }

  lemma Swap(m: Moments, p: Point, q: Point)
    ensures Joined(Joined(m, p), q) == Joined(Joined(m, q), p)
  {
  }

  /** Where the last of `ps` is in a rearrangement, and what remains without it. */
  lemma LastElsewhere(ps: seq<Point>, qs: seq<Point>) returns (k: nat)
    requires multiset(ps) == multiset(qs) && ps != []
    ensures k < |qs| && qs[k] == ps[|ps| - 1]
    ensures multiset(ps[..|ps| - 1]) == multiset(qs[..k] + qs[k + 1..])
  {
    var n := |ps| - 1;
    assert ps == ps[..n] + [ps[n]];
    assert ps[n] in multiset(qs);
    k :| 0 <= k < |qs| && qs[k] == ps[n];
    assert qs == qs[..k] + [qs[k]] + qs[k + 1..];
    assert multiset(qs[..k] + qs[k + 1..]) == multiset(qs) - multiset{ps[n]};
    assert multiset(ps[..n]) == multiset(ps) - multiset{ps[n]};
  }

  /** The sums, so also slope and intercept, do not depend on the order. */
  lemma {:induction false} SumsIgnoreOrder(ps: seq<Point>, qs: seq<Point>)
    requires multiset(ps) == multiset(qs)
    ensures Sums(ps) == Sums(qs)
    decreases |ps|
  {
    hide Joined;
    if ps == [] {
      assert |multiset(qs)| == 0;
    } else {
      var k := LastElsewhere(ps, qs);
      SumsIgnoreOrder(ps[..|ps| - 1], qs[..k] + qs[k + 1..]);
      SumsRemove(qs, k);
    }
  }

  // ── The forecast ───────────────────────────────────────────────────────────

  /** One history entry: one that cannot be read is passed over. */
  datatype Sample = Unreadable | Reading(at: real, usedGb: real)

  datatype Trend = Stable | Critical | Warning | Normal

  datatype Forecast = Forecast(growth: real, daysUntilFull: Option<real>, trend: Trend)

  function Readable(history: seq<Sample>): seq<Point> {
    if history == [] then []
    else
      var s := history[|history| - 1];
      Readable(history[..|history| - 1]) + if s.Reading? then [Point(s.at, s.usedGb)] else []
  }

  lemma ReadableLast(a: seq<Sample>, s: Sample)
    ensures Readable(a + [s]) == Readable(a) + if s.Reading? then [Point(s.at, s.usedGb)] else []
  {
    assert (a + [s])[..|a|] == a;
  }

  lemma ReadableOne(s: Sample)
    ensures Readable([s]) == if s.Reading? then [Point(s.at, s.usedGb)] else []
    ensures Readable([]) == []
  {
    assert [s][..0] == [];
  }

  /** The readings in their order, and nothing else. */
  lemma {:induction false} ReadableSplits(a: seq<Sample>, b: seq<Sample>)
    ensures Readable(a + b) == Readable(a) + Readable(b)
    ensures forall s :: Readable([s]) == if s.Reading? then [Point(s.at, s.usedGb)] else []
    ensures Readable([]) == []
  {
    hide Readable;
    forall s ensures Readable([s]) == if s.Reading? then [Point(s.at, s.usedGb)] else [] { ReadableOne(s); }
    ReadableOne(Unreadable);
    if b == [] {
      assert a + b == a;
    } else {
      var init, last := b[..|b| - 1], b[|b| - 1];
      ReadableSplits(a, init);
      ReadableLast(a + init, last);
      ReadableLast(init, last);
      assert a + b == (a + init) + [last] && b == init + [last];
    }
  }

  /** Rounding to an integer, ties to even. */
  function RoundHalfEven(y: real): int {
    var f := y.Floor;
    if y - f as real < 0.5 then f
    else if y - f as real > 0.5 then f + 1
    else if f % 2 == 0 then f else f + 1
  }

  function RoundTo1(y: real): real { RoundHalfEven(y * 10.0) as real / 10.0 }

  function RoundTo3(y: real): real { RoundHalfEven(y * 1000.0) as real / 1000.0 }

  /** `k` is the integer nearest to `y`, the even one of two. */
  predicate IsNearest(k: int, y: real) {
    var d := y - k as real;
    -0.5 <= d <= 0.5 && (d == 0.5 || d == -0.5 ==> k % 2 == 0)
  }

  /** Rounding to tenths and thousandths finds the nearest. */
  lemma RoundsToNearest(y: real, k: int)
    ensures RoundTo1(y) == k as real / 10.0 <==> IsNearest(k, 10.0 * y)
    ensures RoundTo3(y) == k as real / 1000.0 <==> IsNearest(k, 1000.0 * y)
  {
    NearestIff(10.0 * y, k);
    NearestIff(1000.0 * y, k);
    hide RoundHalfEven, IsNearest;
  }

  lemma NearestIff(y: real, k: int)
    ensures RoundHalfEven(y) == k <==> IsNearest(k, y)
  {
    var f := y.Floor;
    assert f as real <= y < f as real + 1.0;
    if k < f {
      assert k as real + 1.0 <= f as real;
    } else if k > f + 1 {
      assert k as real >= f as real + 2.0;
    }
  }

  lemma RoundAtMost(y: real, n: int)
    requires n % 2 == 0
    ensures RoundHalfEven(y) <= n <==> y <= n as real + 0.5
  {
    var f := y.Floor;
    assert f as real <= y < f as real + 1.0;
    if f < n {
      assert y < n as real;
    } else if f > n {
      assert y >= n as real + 1.0;
    }
  }

  /** No line has a smaller squared error. */
  ghost predicate BestLine(ps: seq<Point>, a: real, b: real) {
    forall c, d :: Error(ps, a, b) <= Error(ps, c, d)
  }

  /** What a forecast says about a growth per day and the room that is left.
      The thresholds of 7 and 30 days are applied to the rounded number of days. */
  predicate Extrapolates(f: Forecast, growth: real, remaining: real) {
    && f.growth == RoundTo3(growth)
    && if growth <= 0.001 then f.daysUntilFull == None && f.trend == Stable
       else
         && f.daysUntilFull == Some(RoundTo1(remaining / growth))
         && f.trend == if remaining / growth <= 7.05 then Critical else if remaining / growth <= 30.05 then Warning else Normal
  }

  /** What the forecast for these readings (time in seconds) has to be. */
  ghost predicate Predicts(ps: seq<Point>, totalGb: real, f: Forecast)
    requires ps != []
  {
    if PairSpread(ps) < 86400.0 * 86400.0 * 0.0000000001 then f == Forecast(0.0, None, Stable)
    else exists a, b :: BestLine(ps, a, b) && Extrapolates(f, 86400.0 * b, totalGb - ps[|ps| - 1].y)
  }

  function InDays(ps: seq<Point>, t0: real): (days: seq<Point>)
    ensures |days| == |ps|
    ensures forall i :: 0 <= i < |ps| ==> days[i] == Point((ps[i].x - t0) / SECONDS_PER_DAY, ps[i].y)
  {
    if ps == [] then []
    else InDays(ps[..|ps| - 1], t0) + [Point((ps[|ps| - 1].x - t0) / SECONDS_PER_DAY, ps[|ps| - 1].y)]
  }

  lemma {:induction false} ReadableNext(history: seq<Sample>, n: nat)
    requires n < |history|
    ensures Readable(history[..n + 1]) ==
      Readable(history[..n]) + if history[n].Reading? then [Point(history[n].at, history[n].usedGb)] else []
  {
    assert history[..n + 1][..n] == history[..n];
  }

  lemma {:induction false} ReadableNoLonger(history: seq<Sample>)
    ensures |Readable(history)| <= |history|
  {
    if history != [] { ReadableNoLonger(history[..|history| - 1]); }
  }

  /** The slope per day is the best growth per second, times the seconds of a day. */
  lemma SlopeInDays(ps: seq<Point>, t0: real)
    ensures var m := Sums(InDays(ps, t0));
      && (Denominator(m) >= FLAT <==> PairSpread(ps) >= Square(SECONDS_PER_DAY) * FLAT)
      && Denominator(m) >= 0.0
      && (Denominator(m) >= FLAT ==>
            exists a, b :: BestLine(ps, a, b) && SECONDS_PER_DAY * b == Slope(m))
  {
    var m, days := Sums(ps), Sums(InDays(ps, t0));
    hide Sums, PairSpread, Slope, Square, BestLine;
    assert Reclocked(ps, InDays(ps, t0), t0, SECONDS_PER_DAY);
    hide Reclocked, InDays;
    SlopeMoves(ps, InDays(ps, t0), t0, SECONDS_PER_DAY);
    DenominatorIsPairSpread(ps);
    DenominatorSign(InDays(ps, t0));
    DenominatorSign(ps);
    hide Denominator;
    SquareOfDay();
    if Denominator(days) >= FLAT {
      BestLineExists(ps);
    }
  }

  lemma SquareOfDay()
    ensures Square(SECONDS_PER_DAY) == 7464960000.0
  {
  }

  lemma BestLineExists(ps: seq<Point>)
    requires Denominator(Sums(ps)) > 0.0
    ensures Sums(ps).n != 0.0 && BestLine(ps, Intercept(Sums(ps)), Slope(Sums(ps)))
  {
    hide Sums, Error, Denominator, Numerator, Slope, Intercept;
    PointsNeeded(ps);
    var a, b := Intercept(Sums(ps)), Slope(Sums(ps));
    forall c, d ensures Error(ps, a, b) <= Error(ps, c, d) { LeastSquares(ps, c, d); }
    assert BestLine(ps, a, b);
  }

  lemma PointsNeeded(ps: seq<Point>)
    requires Denominator(Sums(ps)) > 0.0
    ensures ps != [] && Sums(ps).n != 0.0
  {
    NoPoints(ps);
    CountsPoints(ps);
  }

  lemma TrendOfRounded(days: real)
    ensures RoundTo1(days) <= 7.0 <==> days <= 7.05
    ensures RoundTo1(days) <= 30.0 <==> days <= 30.05
  {
    RoundAtMost(days * 10.0, 70);
    RoundAtMost(days * 10.0, 300);
  }

  /** There is a forecast exactly for six or more readable samples, and it is the
      extrapolation of the best line through them. */
  method ComputeDiskForecast(history: seq<Sample>, totalGb: real) returns (f: Option<Forecast>)
    ensures f.None? <==> |Readable(history)| < 6
    ensures f.Some? ==> Predicts(Readable(history), totalGb, f.value)
  {
    ReadableNoLonger(history);
    if |history| < MIN_SAMPLES {
      return None;
    }
    var points := [];
    for n := 0 to |history|
      invariant points == Readable(history[..n])
    {
      ReadableNext(history, n);
      match history[n]
      case Unreadable =>
      case Reading(at, usedGb) => points := points + [Point(at, usedGb)];
    }
    assert history[..|history|] == history;
    if |points| < MIN_SAMPLES {
      return None;
    }
    var m := Sums(InDays(points, points[0].x));
    SlopeInDays(points, points[0].x);
    hide Sums, InDays, PairSpread, BestLine, Square, RoundTo1, RoundTo3, Numerator;
    var denominator := Denominator(m);
    hide Denominator;
    if (if denominator < 0.0 then -denominator else denominator) < FLAT {
      return Some(Forecast(0.0, None, Stable));
    }
    var slope := Slope(m);
    hide Slope;
    if slope <= 0.001 {
      return Some(Forecast(RoundTo3(slope), None, Stable));
    }
    var remaining := totalGb - points[|points| - 1].y;
    var days := RoundTo1(remaining / slope);
    TrendOfRounded(remaining / slope);
    var trend := if days <= 7.0 then Critical else if days <= 30.0 then Warning else Normal;
    return Some(Forecast(RoundTo3(slope), Some(days), trend));
  }

  // ── What the forecast does not depend on ───────────────────────────────────

  /** Only the readings and the latest one's usage decide: any other order with the
      same last reading, on a clock with any other origin, has the same forecasts. */
  lemma ForecastIgnoresOrderAndOrigin(ps: seq<Point>, qs: seq<Point>, moved: seq<Point>, c: real, totalGb: real, f: Forecast)
    requires ps != [] && multiset(ps) == multiset(qs) && qs != [] && ps[|ps| - 1].y == qs[|qs| - 1].y
    requires Reclocked(qs, moved, c, 1.0)
    ensures Predicts(ps, totalGb, f) <==> Predicts(moved, totalGb, f)
  {
    SumsIgnoreOrder(ps, qs);
    SlopeMoves(qs, moved, c, 1.0);
    DenominatorIsPairSpread(ps);
    DenominatorIsPairSpread(moved);
    DenominatorSign(ps);
    assert Square(1.0) == 1.0;
    assert PairSpread(ps) == PairSpread(moved);
    if PairSpread(ps) >= Square(SECONDS_PER_DAY) * FLAT {
      hide Sums, Slope, PairSpread;
      PredictsSlope(ps, totalGb, f);
      PredictsSlope(moved, totalGb, f);
    }
  }

  /** The best line is the one the slope formula gives, so the forecast is determined. */
  lemma PredictsSlope(ps: seq<Point>, totalGb: real, f: Forecast)
    requires ps != [] && PairSpread(ps) >= Square(SECONDS_PER_DAY) * FLAT
    ensures Denominator(Sums(ps)) > 0.0
    ensures Predicts(ps, totalGb, f) <==>
      Extrapolates(f, SECONDS_PER_DAY * Slope(Sums(ps)), totalGb - ps[|ps| - 1].y)
  {
    var m := Sums(ps);
    SquareOfDay();
    DenominatorIsPairSpread(ps);
    hide Sums, Denominator, Error, Extrapolates, PairSpread, Square;
    BestLineExists(ps);
    var a0, b0 := Intercept(m), Slope(m);
    hide Slope, Intercept;
    forall a, b | BestLine(ps, a, b) ensures b == b0 {
      LeastSquares(ps, a, b);
      assert Error(ps, a, b) <= Error(ps, a0, b0);
    }
  }
}
