/**
  The statistics of `Algorithm`: the column arithmetic dispatched on an
  operator name, Pearson's coefficient (plain, NaN-aware by a loop and
  NaN-aware by masked vector sums), Spearman's coefficient through a rank
  vector, and Kendall's tau from concordant and discordant pair counts.
  `sqrt` is a parameter: its numeric value is not modelled.
*/
module Algorithm {
  import opened Values
  import opened Utils
  import opened Pairs
  import Frames

  // ------------------------------------------------------------ column_operate

  /** The operator a name selects; the four names are the only ones known. */
  function OperationNamed(name: string): Option<Operation> {
    if name == "add" then Some(Add)
    else if name == "subtract" then Some(Subtract)
    else if name == "multiply" then Some(Multiply)
    else if name == "divide" then Some(Divide)
    else None
  }

  /** The name that selects an operator. */
  function OperationName(op: Operation): string {
    match op
    case Add => "add"
    case Subtract => "subtract"
    case Multiply => "multiply"
    case Divide => "divide"
  }

  /** Each operator is selected by its own name and by no other string. */
  lemma OperationNamesRoundTrip(op: Operation, name: string)
    ensures OperationNamed(OperationName(op)) == Some(op)
    ensures OperationNamed(name) == Some(op) ==> name == OperationName(op)
  {
  }

  /** column_operate: the two columns combined row by row, invalid_argument
      for an unknown operator name; a column outside the grid is an access
      outside the matrix. */
  function ColumnOperate(m: Matrix, c1: int, c2: int, op: string): (r: Result<seq<Double>>)
    requires m.Valid()
    ensures r.Ok? ==> |r.value| == m.rows
  {
    match OperationNamed(op)
    case None => Err(InvalidArgument("Invalid operation"))
    case Some(o) =>
      if 0 <= c1 < m.cols && 0 <= c2 < m.cols then
        Ok(seq(m.rows, i requires 0 <= i < m.rows => Frames.ApplyOp(o, m.cells[i][c1], m.cells[i][c2])))
      else Err(OutOfRange)
  }

  /** Exactly the names "add", "subtract", "multiply" and "divide" are
      accepted; any other string is rejected with invalid_argument. */
  lemma ColumnOperateNames(m: Matrix, c1: int, c2: int, op: string)
    requires m.Valid()
    ensures ColumnOperate(m, c1, c2, op) == Err(InvalidArgument("Invalid operation"))
            <==> op !in ["add", "subtract", "multiply", "divide"]
  {
  }

  /** For known names and columns inside the grid, row i of the result is
      cell i of column c1 combined with cell i of column c2. */
  lemma ColumnOperateRows(m: Matrix, c1: nat, c2: nat, op: Operation)
    requires m.Valid() && c1 < m.cols && c2 < m.cols
    ensures ColumnOperate(m, c1, c2, OperationName(op)).Ok?
    ensures forall i :: 0 <= i < m.rows ==>
              ColumnOperate(m, c1, c2, OperationName(op)).value[i] == Frames.ApplyOp(op, m.Col(c1)[i], m.Col(c2)[i])
  {
  }

  // ------------------------------------------------------------ Pearson

  /** Sum of doubles, left to right; any NaN makes it NaN. */
  function DSum(s: seq<Double>): Double {
    if s == [] then Num(0.0) else DSum(s[..|s| - 1]).Plus(s[|s| - 1])
  }

  /** Eigen's mean(): the sum divided by the length. */
  function Mean(s: seq<Double>): Double {
    DSum(s).Over(Num(|s| as real))
  }

  /** The array expression `x.array() - m`. */
  function Deviations(x: seq<Double>, m: Double): (d: seq<Double>)
    ensures |d| == |x|
  {
    seq(|x|, i requires 0 <= i < |x| => x[i].Minus(m))
  }

  /** The coefficient-wise product of two arrays. */
  function Products(a: seq<Double>, b: seq<Double>): (p: seq<Double>)
    requires |a| == |b|
    ensures |p| == |a|
  {
    seq(|a|, i requires 0 <= i < |a| => a[i].Times(b[i]))
  }

  /** std::sqrt lifted to doubles; NaN stays NaN. */
  function SqrtD(d: Double, sqrt: real -> real): Double {
    if d.Num? then Num(sqrt(d.v)) else NaN
  }

  /** calculatePearsonCorrelation: the covariance of the deviations over the
      product of their standard deviations. Eigen's mean() needs at least
      one element. A NaN on either side makes it NaN. */
  function Pearson(x: seq<Double>, y: seq<Double>, sqrt: real -> real): (r: Double)
    requires |x| == |y| && |x| > 0
    ensures r.Num? ==> NoNaN(x) && NoNaN(y)
  {
    var dx := Deviations(x, Mean(x));
    var dy := Deviations(y, Mean(y));
    CovarianceNeedsNumbers(x, y, dx, dy);
    Mean(Products(dx, dy)).Over(SqrtD(Mean(Products(dx, dx)), sqrt).Times(SqrtD(Mean(Products(dy, dy)), sqrt)))
  }

  /** A NaN in x or y spreads through its mean into every deviation, and so
      into the mean of the products of the deviations. */
  lemma CovarianceNeedsNumbers(x: seq<Double>, y: seq<Double>, dx: seq<Double>, dy: seq<Double>)
    requires |x| == |y| && |x| > 0
    requires dx == Deviations(x, Mean(x)) && dy == Deviations(y, Mean(y))
    ensures !(NoNaN(x) && NoNaN(y)) ==> Mean(Products(dx, dy)).NaN?
  {
    if !NoNaN(x) {
      var k :| 0 <= k < |x| && !x[k].Num?;
      DSumNaN(x, k);
      DSumNaN(Products(dx, dy), 0);
    } else if !NoNaN(y) {
      var k :| 0 <= k < |y| && !y[k].Num?;
      DSumNaN(y, k);
      DSumNaN(Products(dx, dy), 0);
    }
  }

  lemma {:induction false} DSumNaN(s: seq<Double>, k: nat)
    requires k < |s| && s[k].NaN?
    ensures DSum(s).NaN?
  {
    var init := s[..|s| - 1];
    if k < |s| - 1 {
      assert init[k] == s[k];
      DSumNaN(init, k);
    }
  }

  /** The plain coefficient propagates NaN: one NaN in x makes it NaN. */
  lemma PearsonNaN(x: seq<Double>, y: seq<Double>, sqrt: real -> real, k: nat)
    requires |x| == |y| && k < |x| && x[k].NaN?
    ensures Pearson(x, y, sqrt).NaN?
  {
    DSumNaN(x, k);
    var dx := Deviations(x, Mean(x));
    var dy := Deviations(y, Mean(y));
    DSumNaN(Products(dx, dy), 0);
  }

  /** The plain coefficient is symmetric in its arguments. */
  lemma PearsonSymmetric(x: seq<Double>, y: seq<Double>, sqrt: real -> real)
    requires |x| == |y| && |x| > 0
    ensures Pearson(x, y, sqrt) == Pearson(y, x, sqrt)
  {
    var dx := Deviations(x, Mean(x));
    var dy := Deviations(y, Mean(y));
    assert Products(dx, dy) == Products(dy, dx);
  }

  // ------------------------------------------------------------ NaN-aware Pearson

  /** Index i holds a value on both sides. */
  predicate Complete(x: seq<Double>, y: seq<Double>, i: nat)
    requires i < |x| && i < |y|
  {
    !x[i].NaN? && !y[i].NaN?
  }

  /** The five quantities the NaN-aware loop accumulates. */
  datatype Quantity = ValueX | ValueY | SquareX | SquareY | CrossXY

  /** The contribution of one pair (a, b) = (x[i], y[i]) to a quantity. */
  function Term(q: Quantity, a: real, b: real): real {
    match q
    case ValueX => a
    case ValueY => b
    case SquareX => a * a
    case SquareY => b * b
    case CrossXY => a * b
  }

  /** The sum of g over the complete indices among the first k. */
  function LoopSum(x: seq<Double>, y: seq<Double>, k: nat, g: Quantity): real
    requires k <= |x| && k <= |y|
  {
    if k == 0 then 0.0
    else LoopSum(x, y, k - 1, g) + (if Complete(x, y, k - 1) then Term(g, x[k - 1].v, y[k - 1].v) else 0.0)
  }

  /** The number of complete indices among the first k. */
  function LoopCount(x: seq<Double>, y: seq<Double>, k: nat): nat
    requires k <= |x| && k <= |y|
  {
    if k == 0 then 0 else LoopCount(x, y, k - 1) + (if Complete(x, y, k - 1) then 1 else 0)
  }

  datatype Moments = Moments(count: nat, sumX: real, sumY: real, sumXSq: real, sumYSq: real, sumXY: real)

  /** What the loop of calculatePearsonCorrelationWithNaN has accumulated
      once it has skipped every index holding a NaN. */
  function LoopMoments(x: seq<Double>, y: seq<Double>): Moments
    requires |x| == |y|
  {
    var n := |x|;
    Moments(LoopCount(x, y, n), LoopSum(x, y, n, ValueX), LoopSum(x, y, n, ValueY),
            LoopSum(x, y, n, SquareX), LoopSum(x, y, n, SquareY), LoopSum(x, y, n, CrossXY))
  }

  /** Covariance and variances as the loop variant derives them from its
      sums: a mean of products less a product of means. */
  function Covariance(m: Moments): real
    requires m.count > 0
  {
    var n := m.count as real;
    m.sumXY / n - (m.sumX / n) * (m.sumY / n)
  }

  function VarianceX(m: Moments): real
    requires m.count > 0
  {
    var n := m.count as real;
    m.sumXSq / n - (m.sumX / n) * (m.sumX / n)
  }

  function VarianceY(m: Moments): real
    requires m.count > 0
  {
    var n := m.count as real;
    m.sumYSq / n - (m.sumY / n) * (m.sumY / n)
  }

  /** The common last step: NaN for a zero variance, else the covariance
      over the product of the standard deviations. */
  function Conclude(cov: real, varX: real, varY: real, sqrt: real -> real): Double {
    if varX == 0.0 || varY == 0.0 then NaN
    else Num(cov).Over(Num(sqrt(varX)).Times(Num(sqrt(varY))))
  }

  /** The loop variant's result from its accumulated sums. */
  function Correlate(m: Moments, sqrt: real -> real): Double {
    if m.count < 2 then NaN else Conclude(Covariance(m), VarianceX(m), VarianceY(m), sqrt)
  }

  /** calculatePearsonCorrelationWithNaN. */
  method PearsonWithNaN(x: seq<Double>, y: seq<Double>, sqrt: real -> real) returns (r: Double)
    requires |x| == |y|
    ensures r == Correlate(LoopMoments(x, y), sqrt)
  {
    var sumX, sumY, sumXSq, sumYSq, sumXY := 0.0, 0.0, 0.0, 0.0, 0.0;
    var count := 0;
    for i := 0 to |x|
      invariant count == LoopCount(x, y, i)
      invariant sumX == LoopSum(x, y, i, ValueX) && sumY == LoopSum(x, y, i, ValueY)
      invariant sumXSq == LoopSum(x, y, i, SquareX) && sumYSq == LoopSum(x, y, i, SquareY)
      invariant sumXY == LoopSum(x, y, i, CrossXY)
    {
      if !x[i].NaN? && !y[i].NaN? {
        sumX := sumX + x[i].v;
        sumY := sumY + y[i].v;
        sumXSq := sumXSq + x[i].v * x[i].v;
        sumYSq := sumYSq + y[i].v * y[i].v;
        sumXY := sumXY + x[i].v * y[i].v;
        count := count + 1;
      }
    }
    ghost var m := Moments(count, sumX, sumY, sumXSq, sumYSq, sumXY);
    assert m == LoopMoments(x, y);
    if count < 2 {
      return NaN;
    }
    var n := count as real;
    var meanX := sumX / n;
    var meanY := sumY / n;
    var covariance := sumXY / n - meanX * meanY;
    var varianceX := sumXSq / n - meanX * meanX;
    var varianceY := sumYSq / n - meanY * meanY;
    assert covariance == Covariance(m) && varianceX == VarianceX(m) && varianceY == VarianceY(m);
    if varianceX == 0.0 || varianceY == 0.0 {
      return NaN;
    }
    r := Num(covariance).Over(Num(sqrt(varianceX)).Times(Num(sqrt(varianceY))));
  }

  /** The mask `(isNaN(x) + isNaN(y)) == 0`. */
  function Mask(x: seq<Double>, y: seq<Double>): (mask: seq<bool>)
    requires |x| == |y|
    ensures |mask| == |x|
  {
    seq(|x|, i requires 0 <= i < |x| => !x[i].NaN? && !y[i].NaN?)
  }

  /** mask.count(). */
  function TrueCount(mask: seq<bool>): nat {
    if mask == [] then 0 else TrueCount(mask[..|mask| - 1]) + (if mask[|mask| - 1] then 1 else 0)
  }

  /** mask.select(x, 0). */
  function Select(mask: seq<bool>, x: seq<Double>): (s: seq<Double>)
    requires |mask| == |x|
    ensures |s| == |x|
  {
    seq(|x|, i requires 0 <= i < |x| => if mask[i] then x[i] else Num(0.0))
  }

  /** The five masked sums and the count, as doubles. */
  datatype Sums = Sums(count: nat, sumX: Double, sumY: Double, sumXSq: Double, sumYSq: Double, sumXY: Double)

  /** The masked sums of calculatePearsonCorrelationVectorized. */
  function VectorSums(x: seq<Double>, y: seq<Double>): Sums
    requires |x| == |y|
  {
    var mask := Mask(x, y);
    var nx := Select(mask, x);
    var ny := Select(mask, y);
    Sums(TrueCount(mask), DSum(nx), DSum(ny), DSum(Products(nx, nx)), DSum(Products(ny, ny)), DSum(Products(nx, ny)))
  }

  /** Covariance and variances as the vectorised variant derives them: a
      centred sum divided by the count. */
  function VectorCovariance(s: Sums): Double
    requires s.count > 0
  {
    var n := Num(s.count as real);
    s.sumXY.Minus(s.sumX.Times(s.sumY.Over(n))).Over(n)
  }

  function VectorVarianceX(s: Sums): Double
    requires s.count > 0
  {
    var n := Num(s.count as real);
    s.sumXSq.Minus(s.sumX.Times(s.sumX.Over(n))).Over(n)
  }

  function VectorVarianceY(s: Sums): Double
    requires s.count > 0
  {
    var n := Num(s.count as real);
    s.sumYSq.Minus(s.sumY.Times(s.sumY.Over(n))).Over(n)
  }

  /** calculatePearsonCorrelationVectorized: a number only when at least
      two indices hold a value on both sides. */
  function PearsonVectorized(x: seq<Double>, y: seq<Double>, sqrt: real -> real): (r: Double)
    requires |x| == |y|
    ensures r.Num? ==> |CompletePairs(x, y, |x|)| >= 2
  {
    VectorSumsAreLoopSums(x, y);
    LoopSumOverPairs(x, y, |x|, ValueX);
    var s := VectorSums(x, y);
    if s.count < 2 then NaN
    else
      var varX := VectorVarianceX(s);
      var varY := VectorVarianceY(s);
      if varX == Num(0.0) || varY == Num(0.0) then NaN
      else VectorCovariance(s).Over(SqrtD(varX, sqrt).Times(SqrtD(varY, sqrt)))
  }

  /** The loop's sums seen as doubles. */
  function AsSums(m: Moments): Sums {
    Sums(m.count, Num(m.sumX), Num(m.sumY), Num(m.sumXSq), Num(m.sumYSq), Num(m.sumXY))
  }

  /** A masked sum over the first k indices is the loop's sum of g. */
  lemma {:induction false} MaskedSum(x: seq<Double>, y: seq<Double>, s: seq<Double>, g: Quantity, k: nat)
    requires |x| == |y| == |s| && k <= |s|
    requires forall i :: 0 <= i < |s| ==> s[i] == Num(if Complete(x, y, i) then Term(g, x[i].v, y[i].v) else 0.0)
    ensures DSum(s[..k]) == Num(LoopSum(x, y, k, g))
  {
    if k > 0 {
      assert s[..k][..k - 1] == s[..k - 1];
      MaskedSum(x, y, s, g, k - 1);
    }
  }

  lemma {:induction false} MaskCount(x: seq<Double>, y: seq<Double>, k: nat)
    requires |x| == |y| && k <= |x|
    ensures TrueCount(Mask(x, y)[..k]) == LoopCount(x, y, k)
  {
    if k > 0 {
      assert Mask(x, y)[..k][..k - 1] == Mask(x, y)[..k - 1];
      MaskCount(x, y, k - 1);
    }
  }

  lemma MaskedSumAll(x: seq<Double>, y: seq<Double>, s: seq<Double>, g: Quantity)
    requires |x| == |y| == |s|
    requires forall i :: 0 <= i < |s| ==> s[i] == Num(if Complete(x, y, i) then Term(g, x[i].v, y[i].v) else 0.0)
    ensures DSum(s) == Num(LoopSum(x, y, |s|, g))
  {
    MaskedSum(x, y, s, g, |s|);
    assert s[..|s|] == s;
  }

  lemma SelectedSums(x: seq<Double>, y: seq<Double>)
    requires |x| == |y|
    ensures DSum(Select(Mask(x, y), x)) == Num(LoopSum(x, y, |x|, ValueX))
    ensures DSum(Select(Mask(x, y), y)) == Num(LoopSum(x, y, |x|, ValueY))
  {
    var nx := Select(Mask(x, y), x);
    var ny := Select(Mask(x, y), y);
    forall i | 0 <= i < |x|
      ensures nx[i] == Num(if Complete(x, y, i) then Term(ValueX, x[i].v, y[i].v) else 0.0)
      ensures ny[i] == Num(if Complete(x, y, i) then Term(ValueY, x[i].v, y[i].v) else 0.0)
    {
    }
    MaskedSumAll(x, y, nx, ValueX);
    MaskedSumAll(x, y, ny, ValueY);
  }

  lemma SquaredSums(x: seq<Double>, y: seq<Double>)
    requires |x| == |y|
    ensures DSum(Products(Select(Mask(x, y), x), Select(Mask(x, y), x))) == Num(LoopSum(x, y, |x|, SquareX))
    ensures DSum(Products(Select(Mask(x, y), y), Select(Mask(x, y), y))) == Num(LoopSum(x, y, |x|, SquareY))
  {
    SquaredSum(x, y, x, SquareX);
    SquaredSum(x, y, y, SquareY);
  }

  /** The masked squares of one side, z being x or y and g its square. */
  lemma SquaredSum(x: seq<Double>, y: seq<Double>, z: seq<Double>, g: Quantity)
    requires |x| == |y| == |z|
    requires forall i :: 0 <= i < |x| && Complete(x, y, i) ==> z[i].Num? && Term(g, x[i].v, y[i].v) == z[i].v * z[i].v
    ensures DSum(Products(Select(Mask(x, y), z), Select(Mask(x, y), z))) == Num(LoopSum(x, y, |x|, g))
  {
    var nz := Select(Mask(x, y), z);
    var p := Products(nz, nz);
    forall i | 0 <= i < |x|
      ensures p[i] == Num(if Complete(x, y, i) then Term(g, x[i].v, y[i].v) else 0.0)
    {
      if !Complete(x, y, i) {
        ZeroSquare();
      }
    }
    MaskedSumAll(x, y, p, g);
  }

  lemma ZeroSquare()
    ensures 0.0 * 0.0 == 0.0
  {
  }

  lemma CrossSum(x: seq<Double>, y: seq<Double>)
    requires |x| == |y|
    ensures DSum(Products(Select(Mask(x, y), x), Select(Mask(x, y), y))) == Num(LoopSum(x, y, |x|, CrossXY))
  {
    var nx := Select(Mask(x, y), x);
    var ny := Select(Mask(x, y), y);
    var pxy := Products(nx, ny);
    forall i | 0 <= i < |x|
      ensures pxy[i] == Num(if Complete(x, y, i) then Term(CrossXY, x[i].v, y[i].v) else 0.0)
    {
      CrossTerm(x, y, nx, ny, i);
    }
    MaskedSumAll(x, y, pxy, CrossXY);
  }

  lemma CrossTerm(x: seq<Double>, y: seq<Double>, nx: seq<Double>, ny: seq<Double>, i: nat)
    requires |x| == |y| && i < |x|
    requires nx == Select(Mask(x, y), x) && ny == Select(Mask(x, y), y)
    ensures nx[i].Times(ny[i]) == Num(if Complete(x, y, i) then Term(CrossXY, x[i].v, y[i].v) else 0.0)
  {
    if Complete(x, y, i) {
      assert nx[i] == x[i] && ny[i] == y[i];
    } else {
      assert nx[i] == Num(0.0) && ny[i] == Num(0.0);
      ZeroSquare();
    }
  }

  /** The vectorised sums are the loop's sums: the mask selects exactly the
      indices the loop does not skip, and the zeros it puts elsewhere add
      nothing. */
  lemma VectorSumsAreLoopSums(x: seq<Double>, y: seq<Double>)
    requires |x| == |y|
    ensures VectorSums(x, y) == AsSums(LoopMoments(x, y))
  {
    MaskCount(x, y, |x|);
    assert Mask(x, y)[..|x|] == Mask(x, y);
    SelectedSums(x, y);
    SquaredSums(x, y);
    CrossSum(x, y);
  }

  lemma CovarianceForms(a: real, b: real, c: real, n: real)
    requires n != 0.0
    ensures (a - b * (c / n)) / n == a / n - (b / n) * (c / n)
  {
    assert (a - b * (c / n)) / n == a / n - (b * (c / n)) / n;
    assert (b * (c / n)) / n == (b / n) * (c / n);
  }

  /** In exact arithmetic the loop and vectorised variants obtain the same
      count, covariance and variances. */
  lemma VariantsAgreeOnStatistics(x: seq<Double>, y: seq<Double>)
    requires |x| == |y|
    ensures VectorSums(x, y).count == LoopMoments(x, y).count
    ensures LoopMoments(x, y).count > 0 ==>
              VectorCovariance(VectorSums(x, y)) == Num(Covariance(LoopMoments(x, y)))
              && VectorVarianceX(VectorSums(x, y)) == Num(VarianceX(LoopMoments(x, y)))
              && VectorVarianceY(VectorSums(x, y)) == Num(VarianceY(LoopMoments(x, y)))
  {
    VectorSumsAreLoopSums(x, y);
    var m := LoopMoments(x, y);
    if m.count > 0 {
      StatisticsAgree(m);
    }
  }

  /** The two derivations agree on any sums with a positive count. */
  lemma StatisticsAgree(m: Moments)
    requires m.count > 0
    ensures VectorCovariance(AsSums(m)) == Num(Covariance(m))
    ensures VectorVarianceX(AsSums(m)) == Num(VarianceX(m))
    ensures VectorVarianceY(AsSums(m)) == Num(VarianceY(m))
  {
    CentredForm(m.sumXY, m.sumX, m.sumY, m.count);
    CentredForm(m.sumXSq, m.sumX, m.sumX, m.count);
    CentredForm(m.sumYSq, m.sumY, m.sumY, m.count);
  }

  /** (a - b (c / n)) / n in doubles is a / n - (b / n) (c / n). */
  lemma CentredForm(a: real, b: real, c: real, count: nat)
    requires count > 0
    ensures Num(a).Minus(Num(b).Times(Num(c).Over(Num(count as real)))).Over(Num(count as real))
            == Num(a / (count as real) - (b / (count as real)) * (c / (count as real)))
  {
    CovarianceForms(a, b, c, count as real);
  }

  /** Hence the two variants return the same value. */
  lemma VariantsAgree(x: seq<Double>, y: seq<Double>, sqrt: real -> real)
    requires |x| == |y|
    ensures PearsonVectorized(x, y, sqrt) == Correlate(LoopMoments(x, y), sqrt)
  {
    VariantsAgreeOnStatistics(x, y);
  }

  /** The pairs (x[i], y[i]) of the complete indices among the first k, in
      index order. */
  function CompletePairs(x: seq<Double>, y: seq<Double>, k: nat): seq<(real, real)>
    requires k <= |x| && k <= |y|
  {
    if k == 0 then []
    else CompletePairs(x, y, k - 1) + (if Complete(x, y, k - 1) then [(x[k - 1].v, y[k - 1].v)] else [])
  }

  /** The sum of g over a list of pairs. */
  function PairSum(ps: seq<(real, real)>, g: Quantity): real {
    if ps == [] then 0.0 else PairSum(ps[..|ps| - 1], g) + Term(g, ps[|ps| - 1].0, ps[|ps| - 1].1)
  }

  /** The sums over a list of pairs none of which is missing. */
  function PairMoments(ps: seq<(real, real)>): Moments {
    Moments(|ps|, PairSum(ps, ValueX), PairSum(ps, ValueY),
            PairSum(ps, SquareX), PairSum(ps, SquareY), PairSum(ps, CrossXY))
  }

  lemma {:induction false} LoopSumOverPairs(x: seq<Double>, y: seq<Double>, k: nat, g: Quantity)
    requires k <= |x| && k <= |y|
    ensures LoopSum(x, y, k, g) == PairSum(CompletePairs(x, y, k), g)
    ensures LoopCount(x, y, k) == |CompletePairs(x, y, k)|
  {
    if k > 0 {
      LoopSumOverPairs(x, y, k - 1, g);
      var front := CompletePairs(x, y, k - 1);
      if Complete(x, y, k - 1) {
        assert (front + [(x[k - 1].v, y[k - 1].v)])[..|front|] == front;
      } else {
        assert front + [] == front;
      }
    }
  }

  /** The indices holding a NaN on either side do not matter: what the loop
      accumulates is what it would accumulate from the list of complete
      pairs alone. */
  lemma NaNIndicesIgnored(x: seq<Double>, y: seq<Double>)
    requires |x| == |y|
    ensures LoopMoments(x, y) == PairMoments(CompletePairs(x, y, |x|))
  {
    var n := |x|;
    LoopSumOverPairs(x, y, n, ValueX);
    LoopSumOverPairs(x, y, n, ValueY);
    LoopSumOverPairs(x, y, n, SquareX);
    LoopSumOverPairs(x, y, n, SquareY);
    LoopSumOverPairs(x, y, n, CrossXY);
  }

  /** Both variants give NaN when fewer than two indices are complete. */
  lemma FewPairsGiveNaN(x: seq<Double>, y: seq<Double>, sqrt: real -> real)
    requires |x| == |y| && |CompletePairs(x, y, |x|)| < 2
    ensures Correlate(LoopMoments(x, y), sqrt) == NaN
    ensures PearsonVectorized(x, y, sqrt) == NaN
  {
    LoopSumOverPairs(x, y, |x|, ValueX);
    VariantsAgree(x, y, sqrt);
  }

  lemma {:induction false} ConstantPairSums(ps: seq<(real, real)>, c: real)
    requires forall k :: 0 <= k < |ps| ==> ps[k].0 == c
    ensures PairSum(ps, ValueX) == |ps| as real * c
    ensures PairSum(ps, SquareX) == |ps| as real * (c * c)
  {
    if ps != [] {
      var init := ps[..|ps| - 1];
      assert forall k :: 0 <= k < |init| ==> init[k] == ps[k];
      ConstantPairSums(init, c);
    }
  }

  /** Both variants give NaN when the complete x values are all one value c,
      that is, when the filtered variance of x is 0. */
  lemma ConstantGivesNaN(x: seq<Double>, y: seq<Double>, sqrt: real -> real, c: real)
    requires |x| == |y|
    requires forall k :: 0 <= k < |CompletePairs(x, y, |x|)| ==> CompletePairs(x, y, |x|)[k].0 == c
    ensures Correlate(LoopMoments(x, y), sqrt) == NaN
    ensures PearsonVectorized(x, y, sqrt) == NaN
  {
    var ps := CompletePairs(x, y, |x|);
    NaNIndicesIgnored(x, y);
    ConstantPairSums(ps, c);
    var m := LoopMoments(x, y);
    if m.count > 0 {
      var n := m.count as real;
      assert m.sumX / n == c;
      assert m.sumXSq / n == c * c;
      assert VarianceX(m) == 0.0;
    }
    VariantsAgree(x, y, sqrt);
  }

  /** Both variants give NaN whenever a filtered variance is exactly 0. */
  lemma ZeroVarianceGivesNaN(x: seq<Double>, y: seq<Double>, sqrt: real -> real)
    requires |x| == |y| && LoopMoments(x, y).count > 0
    requires VarianceX(LoopMoments(x, y)) == 0.0 || VarianceY(LoopMoments(x, y)) == 0.0
    ensures Correlate(LoopMoments(x, y), sqrt) == NaN
    ensures PearsonVectorized(x, y, sqrt) == NaN
  {
    VariantsAgree(x, y, sqrt);
  }

  // ------------------------------------------------------------ Spearman

  /** 0, 1, ..., n - 1. */
  function Iota(n: nat): (s: seq<nat>)
    ensures |s| == n && forall k :: 0 <= k < n ==> s[k] == k
  {
    seq(n, k => k)
  }

  /** rank is a ranking of x: a permutation of 0..n-1 (n distinct values
      below n) that puts a smaller value before a larger one. Ties may be
      ranked either way. */
  predicate IsRanking(x: seq<Double>, rank: seq<nat>) {
    |rank| == |x|
    && (forall a :: 0 <= a < |rank| ==> rank[a] < |x|)
    && (forall a, b :: 0 <= a < b < |rank| ==> rank[a] != rank[b])
    && (forall a, b :: 0 <= a < |x| && 0 <= b < |x| && x[a].Lt(x[b]) ==> rank[a] < rank[b])
  }

  /** A rank vector as the doubles stored in rank_x. */
  function AsDoubles(rank: seq<nat>): (d: seq<Double>)
    ensures |d| == |rank| && NoNaN(d)
  {
    seq(|rank|, a requires 0 <= a < |rank| => Num(rank[a] as real))
  }

  /** std::iota and std::sort with the comparator x(i) < x(j): the indices
      0..n-1 reordered so that their x values ascend. */
  method SortIndices(x: seq<Double>) returns (index: array<nat>)
    requires NoNaN(x)
    ensures fresh(index) && index.Length == |x|
    ensures forall k :: 0 <= k < |x| ==> index[k] < |x|
    ensures multiset(index[..]) == multiset(Iota(|x|))
    ensures forall a, b :: 0 <= a < b < |x| ==> x[index[a]].v <= x[index[b]].v
  {
    var n := |x|;
    index := new nat[n](k => k);
    assert index[..] == Iota(n);
    for i := 0 to n
      invariant forall k :: 0 <= k < n ==> index[k] < n
      invariant multiset(index[..]) == multiset(Iota(n))
      invariant forall a, b :: 0 <= a < b < i ==> x[index[a]].v <= x[index[b]].v
    {
      Insert(x, index, i);
    }
  }

  /** One round of insertion: index[i] moves left past every larger key. */
  method Insert(x: seq<Double>, index: array<nat>, i: nat)
    requires NoNaN(x) && index.Length == |x| && i < |x|
    requires forall k :: 0 <= k < |x| ==> index[k] < |x|
    requires forall a, b :: 0 <= a < b < i ==> x[index[a]].v <= x[index[b]].v
    modifies index
    ensures forall k :: 0 <= k < |x| ==> index[k] < |x|
    ensures multiset(index[..]) == multiset(old(index[..]))
    ensures forall a, b :: 0 <= a < b <= i ==> x[index[a]].v <= x[index[b]].v
  {
    var j := i;
    while j > 0 && x[index[j]].v < x[index[j - 1]].v
      invariant 0 <= j <= i
      invariant forall k :: 0 <= k < |x| ==> index[k] < |x|
      invariant multiset(index[..]) == multiset(old(index[..]))
      invariant forall a, b :: 0 <= a < b <= i && a != j && b != j ==> x[index[a]].v <= x[index[b]].v
      invariant forall b :: j < b <= i ==> x[index[j]].v < x[index[b]].v
    {
      Swap(index, j - 1, j);
      j := j - 1;
    }
  }

  method Swap(a: array<nat>, i: nat, j: nat)
    requires i < j < a.Length
    modifies a
    ensures a[i] == old(a[j]) && a[j] == old(a[i])
    ensures forall k :: 0 <= k < a.Length && k != i && k != j ==> a[k] == old(a[k])
    ensures multiset(a[..]) == multiset(old(a[..]))
  {
    a[i], a[j] := a[j], a[i];
  }

  /** The ranks of x: rank(index[i]) = i over the sorted indices. The vector
      starts as a copy of x, and every entry is overwritten. */
  method Rank(x: seq<Double>) returns (rank: seq<Double>)
    requires NoNaN(x)
    ensures exists r :: IsRanking(x, r) && rank == AsDoubles(r)
  {
    var n := |x|;
    var index := SortIndices(x);
    ghost var order := index[..];
    Onto(order, n);
    var values := new Double[n](k requires 0 <= k < n => x[k]);
    ghost var r: seq<nat> := seq(n, _ => 0);
    for i := 0 to n
      modifies values
      invariant |r| == n
      invariant forall v :: 0 <= v < n && v in order[..i] ==>
                  r[v] < i && order[r[v]] == v && values[v] == Num(r[v] as real)
    {
      assert order[..i + 1] == order[..i] + [index[i]];
      values[index[i]] := Num(i as real);
      r := r[index[i] := i];
    }
    assert order[..n] == order;
    rank := values[..];
    assert rank == AsDoubles(r);
    RankingFromOrder(x, order, r);
  }

  /** The positions in a sorted index order form a ranking. */
  lemma RankingFromOrder(x: seq<Double>, order: seq<nat>, r: seq<nat>)
    requires NoNaN(x) && |order| == |x| == |r|
    requires forall k :: 0 <= k < |x| ==> order[k] < |x|
    requires forall a, b :: 0 <= a < b < |x| ==> x[order[a]].v <= x[order[b]].v
    requires forall v :: 0 <= v < |x| ==> r[v] < |x| && order[r[v]] == v
    ensures IsRanking(x, r)
  {
    var n := |x|;
    forall a, b | 0 <= a < n && 0 <= b < n && x[a].Lt(x[b]) ensures r[a] < r[b] {
      assert order[r[a]] == a && order[r[b]] == b;
    }
    forall a, b | 0 <= a < b < n ensures r[a] != r[b] {
      assert order[r[a]] == a && order[r[b]] == b;
    }
  }

  /** A sequence with the multiset of 0..n-1 holds every v < n. */
  lemma Onto(order: seq<nat>, n: nat)
    requires multiset(order) == multiset(Iota(n))
    ensures forall v :: 0 <= v < n ==> v in order
  {
    forall v | 0 <= v < n ensures v in order {
      assert Iota(n)[v] == v;
      assert v in multiset(Iota(n));
    }
  }

  /** calculateSpearmanCorrelation: Pearson's coefficient of the two rank
      vectors. */
  method Spearman(x: seq<Double>, y: seq<Double>, sqrt: real -> real) returns (r: Double)
    requires |x| == |y| && |x| > 0 && NoNaN(x) && NoNaN(y)
    ensures exists rx, ry :: IsRanking(x, rx) && IsRanking(y, ry)
                             && r == Pearson(AsDoubles(rx), AsDoubles(ry), sqrt)
  {
    var rankX := Rank(x);
    var rankY := Rank(y);
    ghost var rx :| IsRanking(x, rx) && rankX == AsDoubles(rx);
    ghost var ry :| IsRanking(y, ry) && rankY == AsDoubles(ry);
    r := Pearson(rankX, rankY, sqrt);
  }

  // ------------------------------------------------------------ Kendall

  /** (x(i) - x(j)) * (y(i) - y(j)). */
  function PairProduct(x: seq<Double>, y: seq<Double>, p: Pair): Double
    requires p.0 < |x| && p.1 < |x| && p.0 < |y| && p.1 < |y|
  {
    x[p.0].Minus(x[p.1]).Times(y[p.0].Minus(y[p.1]))
  }

  predicate InRange(x: seq<Double>, y: seq<Double>, p: Pair) {
    p.0 < |x| && p.1 < |x| && p.0 < |y| && p.1 < |y|
  }

  /** The pairs that increment P. */
  function Concordant(x: seq<Double>, y: seq<Double>): Pair -> bool {
    p => InRange(x, y, p) && PairProduct(x, y, p).Gt(Num(0.0))
  }

  /** The pairs that increment Q: the else-if after the test for P. */
  function Discordant(x: seq<Double>, y: seq<Double>): Pair -> bool {
    p => InRange(x, y, p) && !PairProduct(x, y, p).Gt(Num(0.0)) && PairProduct(x, y, p).Lt(Num(0.0))
  }

  /** The pairs that count in neither. */
  function Neither(x: seq<Double>, y: seq<Double>): Pair -> bool {
    p => !Concordant(x, y)(p) && !Discordant(x, y)(p)
  }

  /** (P - Q) / (n (n - 1) / 2), the denominator in integer division. */
  function Tau(P: nat, Q: nat, n: nat): Double {
    Num((P - Q) as real).Over(Num((n * (n - 1) / 2) as real))
  }

  /** Kendall's tau over the pairs the nested loops visit. */
  function KendallTau(x: seq<Double>, y: seq<Double>): Double {
    Tau(CountIf(IndexPairs(|x|), Concordant(x, y)), CountIf(IndexPairs(|x|), Discordant(x, y)), |x|)
  }

  /** calculateKendallCorrelation; y(j) must exist for every j < x.size()
      once there is a pair to visit. */
  method Kendall(x: seq<Double>, y: seq<Double>) returns (tau: Double)
    requires |x| <= 1 || |x| <= |y|
    ensures tau == KendallTau(x, y)
  {
    var n := |x|;
    var P, Q := CountPairs(x, y);
    tau := Num((P - Q) as real).Over(Num((n * (n - 1) / 2) as real));
  }

  /** The nested loops: P and Q over all pairs i < j < n. */
  method CountPairs(x: seq<Double>, y: seq<Double>) returns (P: int, Q: int)
    requires |x| <= 1 || |x| <= |y|
    ensures P == CountIf(IndexPairs(|x|), Concordant(x, y))
    ensures Q == CountIf(IndexPairs(|x|), Discordant(x, y))
  {
    var n := |x|;
    P, Q := 0, 0;
    if n <= 1 {
      LoopEnd(n, 0);
      return;
    }
    var i := 0;
    while i < n - 1
      invariant i < n
      invariant P == CountIf(RowsBefore(n, i), Concordant(x, y))
      invariant Q == CountIf(RowsBefore(n, i), Discordant(x, y))
    {
      OuterStep(x, y, n, i);
      P, Q := KendallRow(x, y, i, P, Q);
      i := i + 1;
    }
    LoopEnd(n, i);
  }

  /** One round of the outer loop adds row i's pairs. */
  lemma OuterStep(x: seq<Double>, y: seq<Double>, n: nat, i: nat)
    ensures CountIf(RowsBefore(n, i + 1), Concordant(x, y))
            == CountIf(RowsBefore(n, i), Concordant(x, y)) + CountIf(RowPairs(i, n), Concordant(x, y))
    ensures CountIf(RowsBefore(n, i + 1), Discordant(x, y))
            == CountIf(RowsBefore(n, i), Discordant(x, y)) + CountIf(RowPairs(i, n), Discordant(x, y))
  {
    CountIfAppend(RowsBefore(n, i), RowPairs(i, n), Concordant(x, y));
    CountIfAppend(RowsBefore(n, i), RowPairs(i, n), Discordant(x, y));
  }

  /** The outer loop stops at i = n - 1 (or 0), having visited every pair. */
  lemma LoopEnd(n: nat, i: nat)
    requires i >= n - 1 && (i == 0 || i < n)
    ensures RowsBefore(n, i) == IndexPairs(n)
  {
    if n > 0 {
      assert RowPairs(n - 1, n) == [];
      assert RowsBefore(n, n) == RowsBefore(n, n - 1) + [];
    }
  }

  /** The inner loop for one i: the pairs (i, j), j = i + 1 .. n - 1. */
  method KendallRow(x: seq<Double>, y: seq<Double>, i: nat, P0: int, Q0: int) returns (P: int, Q: int)
    requires |x| <= |y| && i < |x|
    ensures P == P0 + CountIf(RowPairs(i, |x|), Concordant(x, y))
    ensures Q == Q0 + CountIf(RowPairs(i, |x|), Discordant(x, y))
  {
    P, Q := P0, Q0;
    for j := i + 1 to |x|
      invariant P == P0 + CountIf(RowPairs(i, j), Concordant(x, y))
      invariant Q == Q0 + CountIf(RowPairs(i, j), Discordant(x, y))
    {
      var xDiff := x[i].Minus(x[j]);
      var yDiff := y[i].Minus(y[j]);
      KendallStep(x, y, i, j, xDiff.Times(yDiff));
      if xDiff.Times(yDiff).Gt(Num(0.0)) {
        P := P + 1;
      } else if xDiff.Times(yDiff).Lt(Num(0.0)) {
        Q := Q + 1;
      }
    }
  }

  /** Extending the inner loop by the pair (i, j) adds that pair's verdicts. */
  lemma KendallStep(x: seq<Double>, y: seq<Double>, i: nat, j: nat, product: Double)
    requires |x| <= |y| && i < j < |x|
    requires product == x[i].Minus(x[j]).Times(y[i].Minus(y[j]))
    ensures CountIf(RowPairs(i, j + 1), Concordant(x, y))
            == CountIf(RowPairs(i, j), Concordant(x, y)) + (if product.Gt(Num(0.0)) then 1 else 0)
    ensures CountIf(RowPairs(i, j + 1), Discordant(x, y))
            == CountIf(RowPairs(i, j), Discordant(x, y)) + (if !product.Gt(Num(0.0)) && product.Lt(Num(0.0)) then 1 else 0)
  {
    assert RowPairs(i, j + 1) == RowPairs(i, j) + [(i, j)];
    CountIfSnoc(RowPairs(i, j), (i, j), Concordant(x, y));
    CountIfSnoc(RowPairs(i, j), (i, j), Discordant(x, y));
  }

  /** P + Q never exceeds the n (n - 1) / 2 pairs visited. */
  lemma KendallCountsBound(x: seq<Double>, y: seq<Double>)
    ensures CountIf(IndexPairs(|x|), Concordant(x, y)) + CountIf(IndexPairs(|x|), Discordant(x, y))
            <= |x| * (|x| - 1) / 2
  {
    CountIfExclusive(IndexPairs(|x|), Concordant(x, y), Discordant(x, y), Neither(x, y));
    IndexPairsLength(|x|);
  }

  /** A pair with equal x values or equal y values counts in neither P nor Q. */
  lemma TiesCountNeither(x: seq<Double>, y: seq<Double>, p: Pair)
    requires InRange(x, y, p)
    requires x[p.0] == x[p.1] || y[p.0] == y[p.1]
    ensures !Concordant(x, y)(p) && !Discordant(x, y)(p)
  {
  }

  /** Exchanging x and y leaves tau unchanged. */
  lemma KendallSymmetric(x: seq<Double>, y: seq<Double>)
    requires |x| == |y|
    ensures KendallTau(x, y) == KendallTau(y, x)
  {
    var ps := IndexPairs(|x|);
    forall k | 0 <= k < |ps| ensures Concordant(x, y)(ps[k]) == Concordant(y, x)(ps[k])
                                    && Discordant(x, y)(ps[k]) == Discordant(y, x)(ps[k]) {
      var p := ps[k];
      if InRange(x, y, p) {
        assert PairProduct(x, y, p) == PairProduct(y, x, p);
      }
    }
    CountIfSame(ps, Concordant(x, y), Concordant(y, x));
    CountIfSame(ps, Discordant(x, y), Discordant(y, x));
  }

  predicate StrictlyIncreasing(x: seq<Double>) {
    NoNaN(x) && forall a, b :: 0 <= a < b < |x| ==> x[a].v < x[b].v
  }

  predicate StrictlyDecreasing(x: seq<Double>) {
    NoNaN(x) && forall a, b :: 0 <= a < b < |x| ==> x[a].v > x[b].v
  }

  predicate Distinct(x: seq<Double>) {
    NoNaN(x) && forall a, b :: 0 <= a < b < |x| ==> x[a].v != x[b].v
  }

  /** A strictly increasing x against a strictly decreasing y gives -1. */
  lemma KendallOpposite(x: seq<Double>, y: seq<Double>)
    requires |x| == |y| >= 2 && StrictlyIncreasing(x) && StrictlyDecreasing(y)
    ensures KendallTau(x, y) == Num(-1.0)
  {
    var n := |x|;
    var ps := IndexPairs(n);
    IndexPairsExactly(n);
    IndexPairsLength(n);
    forall k | 0 <= k < |ps| ensures Discordant(x, y)(ps[k]) && !Concordant(x, y)(ps[k]) {
      assert ps[k] in ps;
      OppositePair(x, y, ps[k]);
    }
    CountIfAll(ps, Discordant(x, y));
    CountIfAll(ps, Concordant(x, y));
    TauExtremes(n);
  }

  lemma OppositePair(x: seq<Double>, y: seq<Double>, p: Pair)
    requires |x| == |y| && StrictlyIncreasing(x) && StrictlyDecreasing(y) && p.0 < p.1 < |x|
    ensures Discordant(x, y)(p) && !Concordant(x, y)(p)
  {
    NegativeProduct(x[p.0].v - x[p.1].v, y[p.0].v - y[p.1].v);
  }

  /** x and y order every pair i < j the same way, with no ties. */
  predicate SameOrder(x: seq<Double>, y: seq<Double>) {
    |x| == |y| && NoNaN(x) && NoNaN(y)
    && forall a, b :: 0 <= a < b < |x| ==>
         (x[a].v < x[b].v && y[a].v < y[b].v) || (x[a].v > x[b].v && y[a].v > y[b].v)
  }

  /** Inputs that order every pair the same way give +1. */
  lemma KendallSameOrder(x: seq<Double>, y: seq<Double>)
    requires |x| >= 2 && SameOrder(x, y)
    ensures KendallTau(x, y) == Num(1.0)
  {
    var n := |x|;
    var ps := IndexPairs(n);
    IndexPairsExactly(n);
    IndexPairsLength(n);
    forall k | 0 <= k < |ps| ensures Concordant(x, y)(ps[k]) && !Discordant(x, y)(ps[k]) {
      assert ps[k] in ps;
      SameOrderPair(x, y, ps[k]);
    }
    CountIfAll(ps, Discordant(x, y));
    CountIfAll(ps, Concordant(x, y));
    TauExtremes(n);
  }

  lemma SameOrderPair(x: seq<Double>, y: seq<Double>, p: Pair)
    requires SameOrder(x, y) && p.0 < p.1 < |x|
    ensures Concordant(x, y)(p) && !Discordant(x, y)(p)
  {
    var a := x[p.0].v - x[p.1].v;
    var b := y[p.0].v - y[p.1].v;
    if a < 0.0 {
      NegativeFactors(a, b);
    } else {
      PositiveFactors(a, b);
    }
  }

  /** Identical inputs with no repeated value give +1. */
  lemma KendallIdentical(x: seq<Double>)
    requires |x| >= 2 && Distinct(x)
    ensures KendallTau(x, x) == Num(1.0)
  {
    KendallSameOrder(x, x);
  }

  /** All pairs concordant gives +1, all discordant gives -1. */
  lemma TauExtremes(n: nat)
    requires n >= 2
    ensures Tau(n * (n - 1) / 2, 0, n) == Num(1.0)
    ensures Tau(0, n * (n - 1) / 2, n) == Num(-1.0)
  {
    var total := n * (n - 1) / 2;
    PositiveHalfProduct(n);
    UnitQuotients(total);
  }

  lemma UnitQuotients(total: int)
    requires total > 0
    ensures Num((total - 0) as real).Over(Num(total as real)) == Num(1.0)
    ensures Num((0 - total) as real).Over(Num(total as real)) == Num(-1.0)
  {
    var t := total as real;
    assert (total - 0) as real == t;
    assert (0 - total) as real == -t;
    assert t / t == 1.0;
    assert -t / t == -1.0;
  }

  lemma NegativeProduct(a: real, b: real)
    requires a < 0.0 && b > 0.0
    ensures a * b < 0.0
  {
  }

  lemma NegativeFactors(a: real, b: real)
    requires a < 0.0 && b < 0.0
    ensures a * b > 0.0
  {
  }

  lemma PositiveFactors(a: real, b: real)
    requires a > 0.0 && b > 0.0
    ensures a * b > 0.0
  {
  }

  lemma PositiveHalfProduct(n: nat)
    requires n >= 2
    ensures n * (n - 1) / 2 > 0
  {
    var m := n - 2;
    assert n * (n - 1) == m * m + 3 * m + 2;
    assert m * m >= 0;
  }
}
