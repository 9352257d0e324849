/** The score of a candidate over the reals, its bounds and its monotonicity. */
module ScoreArithmetic {
  import opened RealArithmetic

  /** `Number(value.toFixed(6))`: the nearest multiple of one millionth, ties away from zero. */
  function RoundScore(x: real): real {
    if x >= 0.0 then (x * 1000000.0 + 0.5).Floor as real / 1000000.0
    else -((-x * 1000000.0 + 0.5).Floor as real / 1000000.0)
  }

  /** `support / Math.max(1, support + negative)`. */
  function PatternRate(support: nat, negative: nat): real {
    support as real / Max(1.0, (support + negative) as real)
  }

  function Lift(rate: real, baseline: real): real {
    rate / Max(0.000001, baseline)
  }

  datatype ScoreComponents = ScoreComponents(
    temporalWeight: real,
    supportFactor: real,
    liftFactor: real,
    negativePenalty: real,
    stabilityFactor: real)

  /** What the scorer relies on about `Math.log1p`. */
  ghost predicate LogCurve(log1p: real -> real) {
    && log1p(0.0) >= 0.0 && log1p(2.0) > 0.0
    && forall x, y :: 0.0 <= x <= y ==> log1p(x) <= log1p(y)
  }

  function Components(temporalWeight: real, support: nat, negative: nat, lift: real, minSupport: nat,
                      learningRate: real, log1p: real -> real): ScoreComponents
    requires minSupport > 0 && log1p(2.0) > 0.0
  {
    ScoreComponents(
      RoundScore(Min(1.0, temporalWeight * (1.0 + learningRate))),
      RoundScore(Min(1.0, support as real / minSupport as real)),
      RoundScore(Min(1.0, log1p(Max(0.0, lift)) / log1p(2.0))),
      RoundScore(PatternRate(support, negative)),
      1.0)
  }

  function Product(s: ScoreComponents): real {
    s.temporalWeight * s.supportFactor * s.liftFactor * s.negativePenalty * s.stabilityFactor
  }

  function PatternScore(s: ScoreComponents): real {
    RoundScore(Product(s))
  }

  // ---------- Rounding and rates ----------

  function Millionths(n: int): real {
    n as real / 1000000.0
  }

  /** The multiple of one millionth nearest to `x`; of two equally near ones the one farther from zero. */
  ghost predicate NearestMillionth(r: real, x: real) {
    && (exists n :: r == Millionths(n))
    && -0.0000005 <= r - x <= 0.0000005
    && (r - x == 0.0000005 ==> x > 0.0)
    && (x - r == 0.0000005 ==> x < 0.0)
  }

  lemma RoundScoreNearest(x: real)
    ensures NearestMillionth(RoundScore(x), x)
  {
    if x >= 0.0 {
      assert RoundScore(x) == Millionths((x * 1000000.0 + 0.5).Floor);
    } else {
      assert RoundScore(x) == Millionths(-(-x * 1000000.0 + 0.5).Floor);
    }
  }

  /** No other number is nearest. */
  lemma NearestMillionthUnique(r: real, r': real, x: real)
    requires NearestMillionth(r, x) && NearestMillionth(r', x)
    ensures r == r'
  {
    var n :| r == Millionths(n);
    var n' :| r' == Millionths(n');
    MillionthsApart(n, n');
  }

  lemma MillionthsApart(n: int, n': int)
    ensures n < n' ==> Millionths(n') >= Millionths(n) + 0.000001
    ensures n' < n ==> Millionths(n) >= Millionths(n') + 0.000001
  {
    assert n as real == Millionths(n) * 1000000.0 && n' as real == Millionths(n') * 1000000.0;
  }

  lemma RoundScoreMonotone(x: real, y: real)
    requires x <= y
    ensures RoundScore(x) <= RoundScore(y)
  {
    if x >= 0.0 {
      FloorMonotone(x * 1000000.0 + 0.5, y * 1000000.0 + 0.5);
    } else if y < 0.0 {
      FloorMonotone(-y * 1000000.0 + 0.5, -x * 1000000.0 + 0.5);
    } else {
      FloorMonotone(0.5, -x * 1000000.0 + 0.5);
      FloorMonotone(0.5, y * 1000000.0 + 0.5);
    }
  }

  lemma FloorMonotone(x: real, y: real)
    requires x <= y
    ensures x.Floor <= y.Floor
  {
  }

  lemma RoundScoreUnit(x: real)
    requires 0.0 <= x <= 1.0
    ensures 0.0 <= RoundScore(x) <= 1.0
  {
    RoundScoreMonotone(0.0, x);
    RoundScoreMonotone(x, 1.0);
    assert (0.5 as real).Floor == 0 && (1000000.5 as real).Floor == 1000000;
  }

  lemma RateInUnit(support: nat, negative: nat)
    ensures 0.0 <= PatternRate(support, negative) <= 1.0
  {
    var d := Max(1.0, (support + negative) as real);
    DivLe(0.0, support as real, d);
    DivLe(support as real, d, d);
  }

  lemma RateIsFraction(support: nat, negative: nat, all: nat)
    requires support + negative == all && all > 0
    ensures PatternRate(support, negative) == support as real / all as real
  {
  }

  lemma RateAntitone(support: nat, negative: nat, negative': nat)
    requires negative <= negative'
    ensures PatternRate(support, negative') <= PatternRate(support, negative)
  {
    DivAntitone(support as real, Max(1.0, (support + negative) as real), Max(1.0, (support + negative') as real));
  }

  // ---------- Bounds ----------

  lemma MinUnit(x: real)
    requires x >= 0.0
    ensures 0.0 <= RoundScore(Min(1.0, x)) <= 1.0
  {
    RoundScoreUnit(Min(1.0, x));
  }

  ghost predicate InUnit(s: ScoreComponents) {
    && 0.0 <= s.temporalWeight <= 1.0 && 0.0 <= s.supportFactor <= 1.0 && 0.0 <= s.liftFactor <= 1.0
    && 0.0 <= s.negativePenalty <= 1.0 && 0.0 <= s.stabilityFactor <= 1.0
  }

  lemma LiftFactorNonNegative(lift: real, log1p: real -> real)
    requires LogCurve(log1p)
    ensures log1p(Max(0.0, lift)) / log1p(2.0) >= 0.0
  {
    DivLe(0.0, log1p(Max(0.0, lift)), log1p(2.0));
  }

  lemma ComponentsInUnit(temporalWeight: real, support: nat, negative: nat, lift: real, minSupport: nat,
                         learningRate: real, log1p: real -> real)
    requires LogCurve(log1p) && minSupport > 0 && temporalWeight >= 0.0 && learningRate > 0.0
    ensures InUnit(Components(temporalWeight, support, negative, lift, minSupport, learningRate, log1p))
  {
    MulLe(0.0, temporalWeight, 1.0 + learningRate);
    MinUnit(temporalWeight * (1.0 + learningRate));
    DivLe(0.0, support as real, minSupport as real);
    MinUnit(support as real / minSupport as real);
    LiftFactorNonNegative(lift, log1p);
    MinUnit(log1p(Max(0.0, lift)) / log1p(2.0));
    RateInUnit(support, negative);
    RoundScoreUnit(PatternRate(support, negative));
  }

  lemma ProductOfUnits(s: ScoreComponents)
    requires InUnit(s)
    ensures 0.0 <= Product(s) <= 1.0
  {
    ProductInUnit(s.temporalWeight, s.supportFactor);
    ProductInUnit(s.temporalWeight * s.supportFactor, s.liftFactor);
    ProductInUnit(s.temporalWeight * s.supportFactor * s.liftFactor, s.negativePenalty);
    ProductInUnit(s.temporalWeight * s.supportFactor * s.liftFactor * s.negativePenalty, s.stabilityFactor);
  }

  /** Every score component and the score lie between zero and one. */
  lemma ScoreInUnit(temporalWeight: real, support: nat, negative: nat, lift: real, minSupport: nat,
                    learningRate: real, log1p: real -> real)
    requires LogCurve(log1p) && minSupport > 0 && temporalWeight >= 0.0 && learningRate > 0.0
    ensures var s := Components(temporalWeight, support, negative, lift, minSupport, learningRate, log1p);
            InUnit(s) && 0.0 <= PatternScore(s) <= 1.0
  {
    var s := Components(temporalWeight, support, negative, lift, minSupport, learningRate, log1p);
    ComponentsInUnit(temporalWeight, support, negative, lift, minSupport, learningRate, log1p);
    ProductOfUnits(s);
    RoundScoreUnit(Product(s));
  }

  /** The baseline rate lies in (0, 1] when there is a target window among the comparable outcomes. */
  lemma BaselineInUnit(windows: nat, comparable: nat)
    requires 1 <= windows <= comparable
    ensures 0.0 < windows as real / comparable as real <= 1.0
  {
    var q := windows as real / comparable as real;
    DivLe(windows as real, comparable as real, comparable as real);
    assert q * comparable as real == windows as real;
    DivLe(0.0, windows as real, comparable as real);
  }

  // ---------- Monotonicity in the negative count ----------

  lemma LiftFactorMonotone(lift: real, lift': real, log1p: real -> real)
    requires LogCurve(log1p) && lift' <= lift
    ensures RoundScore(Min(1.0, log1p(Max(0.0, lift')) / log1p(2.0)))
            <= RoundScore(Min(1.0, log1p(Max(0.0, lift)) / log1p(2.0)))
  {
    DivLe(log1p(Max(0.0, lift')), log1p(Max(0.0, lift)), log1p(2.0));
    RoundScoreMonotone(Min(1.0, log1p(Max(0.0, lift')) / log1p(2.0)), Min(1.0, log1p(Max(0.0, lift)) / log1p(2.0)));
  }

  lemma ProductIsMonotone(s': ScoreComponents, s: ScoreComponents)
    requires InUnit(s') && InUnit(s)
    requires s'.temporalWeight <= s.temporalWeight && s'.supportFactor <= s.supportFactor
    requires s'.liftFactor <= s.liftFactor && s'.negativePenalty <= s.negativePenalty
    requires s'.stabilityFactor <= s.stabilityFactor
    ensures Product(s') <= Product(s)
  {
    var a', a := s'.temporalWeight * s'.supportFactor, s.temporalWeight * s.supportFactor;
    var b', b := a' * s'.liftFactor, a * s.liftFactor;
    var c', c := b' * s'.negativePenalty, b * s.negativePenalty;
    ProductInUnit(s'.temporalWeight, s'.supportFactor);
    ProductMonotone(s'.temporalWeight, s.temporalWeight, s'.supportFactor, s.supportFactor);
    ProductInUnit(a', s'.liftFactor);
    ProductMonotone(a', a, s'.liftFactor, s.liftFactor);
    ProductInUnit(b', s'.negativePenalty);
    ProductMonotone(b', b, s'.negativePenalty, s.negativePenalty);
    ProductMonotone(c', c, s'.stabilityFactor, s.stabilityFactor);
  }

  /** More negative evidence alone never raises the score: rate, lift and penalty all fall. */
  lemma ScoreAntitone(temporalWeight: real, support: nat, negative: nat, negative': nat, baseline: real,
                      minSupport: nat, learningRate: real, log1p: real -> real)
    requires LogCurve(log1p) && minSupport > 0 && temporalWeight >= 0.0 && learningRate > 0.0
    requires negative <= negative'
    ensures var lift := Lift(PatternRate(support, negative), baseline);
            var lift' := Lift(PatternRate(support, negative'), baseline);
            lift' <= lift &&
            PatternScore(Components(temporalWeight, support, negative', lift', minSupport, learningRate, log1p)) <=
            PatternScore(Components(temporalWeight, support, negative, lift, minSupport, learningRate, log1p))
  {
    var lift := Lift(PatternRate(support, negative), baseline);
    var lift' := Lift(PatternRate(support, negative'), baseline);
    RateAntitone(support, negative, negative');
    DivLe(PatternRate(support, negative'), PatternRate(support, negative), Max(0.000001, baseline));
    ComponentsInUnit(temporalWeight, support, negative, lift, minSupport, learningRate, log1p);
    ComponentsInUnit(temporalWeight, support, negative', lift', minSupport, learningRate, log1p);
    LiftFactorMonotone(lift, lift', log1p);
    RoundScoreMonotone(PatternRate(support, negative'), PatternRate(support, negative));
    var s := Components(temporalWeight, support, negative, lift, minSupport, learningRate, log1p);
    var s' := Components(temporalWeight, support, negative', lift', minSupport, learningRate, log1p);
    ProductIsMonotone(s', s);
    RoundScoreMonotone(Product(s'), Product(s));
  }
}
