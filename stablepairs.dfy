/**
  The stable-pair scanner (StablePairs): for every pair of expression
  columns i < j, the share of samples in which column i is above column j
  decides whether the pair is reported as "i over j", as "j over i", or not
  at all. In reverse mode a second table must show the opposite ordering in
  a large enough share of its samples too.
*/
module Stable {
  import opened Values
  import opened Pairs
  import Frames

  /** The options a scanner is built with: the expression and target file
      names, the output file name and the two share thresholds. */
  datatype StableOptions = StableOptions(
    expression: string,
    target: string,
    output: string,
    ratio: real,
    revRatio: real)

  /** One reported pair: the column that is above, the column below, the
      share of source samples in that order and the share of target samples
      in the opposite order (0 outside reverse mode). */
  datatype Record = Record(first: string, second: string, ratio: real, rev: real)

  // ---------------------------------------------------------------- shares

  /** How one sample orders two values: above, below, or neither (a tie, or
      a NaN on either side, where every comparison is false). */
  datatype Order = Above | Below | Unordered

  predicate InOrder(a: Double, b: Double, o: Order) {
    match o
    case Above => a.Gt(b)
    case Below => a.Lt(b)
    case Unordered => !a.Gt(b) && !a.Lt(b)
  }

  /** The samples r < k in which column i of m stands to column j as o
      says. */
  function CountOrder(m: Matrix, i: nat, j: nat, k: nat, o: Order): nat
    requires m.Valid() && i < m.cols && j < m.cols && k <= m.rows
  {
    if k == 0 then 0
    else CountOrder(m, i, j, k - 1, o) + (if InOrder(m.cells[k - 1][i], m.cells[k - 1][j], o) then 1 else 0)
  }

  /** The mean of the 0/1 indicator "column i stands to column j as o
      says" over all samples. Only taken with samples; 0 otherwise. */
  function Share(m: Matrix, i: nat, j: nat, o: Order): real
    requires m.Valid() && i < m.cols && j < m.cols
  {
    if m.rows == 0 then 0.0 else CountOrder(m, i, j, m.rows, o) as real / m.rows as real
  }

  lemma {:induction false} CountOrderBound(m: Matrix, i: nat, j: nat, k: nat, o: Order)
    requires m.Valid() && i < m.cols && j < m.cols && k <= m.rows
    ensures CountOrder(m, i, j, k, o) <= k
  {
    if k > 0 {
      CountOrderBound(m, i, j, k - 1, o);
    }
  }

  /** A share lies between 0 and 1. */
  lemma ShareBounds(m: Matrix, i: nat, j: nat, o: Order)
    requires m.Valid() && i < m.cols && j < m.cols
    ensures 0.0 <= Share(m, i, j, o) <= 1.0
  {
    CountOrderBound(m, i, j, m.rows, o);
    if m.rows > 0 {
      Proportion(CountOrder(m, i, j, m.rows, o) as real, m.rows as real);
    }
  }

  lemma DivSelf(n: real)
    requires n > 0.0
    ensures n / n == 1.0
  {
  }

  lemma DivSum(a: real, b: real, n: real)
    requires n > 0.0
    ensures (a + b) / n == a / n + b / n
  {
  }

  lemma DivComplement(a: real, n: real)
    requires n > 0.0
    ensures 1.0 - a / n == (n - a) / n
  {
    DivSum(n - a, a, n);
    DivSelf(n);
  }

  /** A part of a positive whole is a proportion between 0 and 1. */
  lemma Proportion(c: real, n: real)
    requires 0.0 <= c <= n && n > 0.0
    ensures 0.0 <= c / n <= 1.0
  {
    DivComplement(c, n);
    assert (n - c) / n >= 0.0;
  }

  /** Every sample is above, below or unordered, and only one of them. */
  lemma {:induction false} CountOrderPartition(m: Matrix, i: nat, j: nat, k: nat)
    requires m.Valid() && i < m.cols && j < m.cols && k <= m.rows
    ensures CountOrder(m, i, j, k, Above) + CountOrder(m, i, j, k, Below) + CountOrder(m, i, j, k, Unordered) == k
  {
    if k > 0 {
      CountOrderPartition(m, i, j, k - 1);
    }
  }

  /** The complement of "i above j" is made of the samples where i is below
      j together with the tied and NaN samples. */
  lemma ComplementShare(m: Matrix, i: nat, j: nat)
    requires m.Valid() && i < m.cols && j < m.cols && m.rows > 0
    ensures 1.0 - Share(m, i, j, Above) == Share(m, i, j, Below) + Share(m, i, j, Unordered)
  {
    CountOrderPartition(m, i, j, m.rows);
    var p := CountOrder(m, i, j, m.rows, Above) as real;
    var q := CountOrder(m, i, j, m.rows, Below) as real;
    var t := CountOrder(m, i, j, m.rows, Unordered) as real;
    var n := m.rows as real;
    assert p + q + t == n;
    DivComplement(p, n);
    DivSum(q, t, n);
  }

  /** When every sample stands as o says, all of them are counted. */
  lemma {:induction false} CountOrderAll(m: Matrix, i: nat, j: nat, k: nat, o: Order)
    requires m.Valid() && i < m.cols && j < m.cols && k <= m.rows
    requires forall r :: 0 <= r < k ==> InOrder(m.cells[r][i], m.cells[r][j], o)
    ensures CountOrder(m, i, j, k, o) == k
  {
    if k > 0 {
      CountOrderAll(m, i, j, k - 1, o);
    }
  }

  // ------------------------------------------------------------- decisions

  /** Columns i and j of f exist and are labelled. */
  predicate Addressable(f: Frames.Frame, p: Pair) {
    f.data.Valid() && p.0 < f.data.cols && p.1 < f.data.cols && f.data.cols <= |f.columns|
  }

  /** The share of samples in which column p.0 of f is above column p.1. */
  function Ratio(f: Frames.Frame, p: Pair): real
    requires Addressable(f, p)
  {
    Share(f.data, p.0, p.1, Above)
  }

  /** What the stable-only scan records for the pair p, with threshold t. */
  function StableDecision(f: Frames.Frame, t: real, p: Pair): Option<Record> {
    if !Addressable(f, p) then None
    else
      var ratio := Ratio(f, p);
      if ratio > t then Some(Record(f.columns[p.0], f.columns[p.1], ratio, 0.0))
      else if 1.0 - ratio > t then Some(Record(f.columns[p.1], f.columns[p.0], 1.0 - ratio, 0.0))
      else None
  }

  function StableRule(f: Frames.Frame, t: real): Pair -> Option<Record> {
    p => StableDecision(f, t, p)
  }

  /** Every record of the stable-only scan, in visiting order. */
  function StableRecords(f: Frames.Frame, t: real): seq<Record> {
    Keep(IndexPairs(f.data.cols), StableRule(f, t))
  }

  /** The share of target samples in which column p.0 is below column p.1. */
  function RevRatio(g: Frames.Frame, p: Pair): real
    requires g.data.Valid() && p.0 < g.data.cols && p.1 < g.data.cols
  {
    Share(g.data, p.0, p.1, Below)
  }

  /** What the reverse scan records for the pair p: the source order must
      clear t and the opposite target order must clear rt, in the same
      direction. */
  function ReverseDecision(f: Frames.Frame, g: Frames.Frame, t: real, rt: real, p: Pair): Option<Record> {
    if !Addressable(f, p) || !g.data.Valid() || g.data.cols < f.data.cols then None
    else
      var ratio := Ratio(f, p);
      var rev := RevRatio(g, p);
      if ratio > t && rev > rt then Some(Record(f.columns[p.0], f.columns[p.1], ratio, rev))
      else if 1.0 - ratio > t && 1.0 - rev > rt then
        Some(Record(f.columns[p.1], f.columns[p.0], 1.0 - ratio, 1.0 - rev))
      else None
  }

  function ReverseRule(f: Frames.Frame, g: Frames.Frame, t: real, rt: real): Pair -> Option<Record> {
    p => ReverseDecision(f, g, t, rt, p)
  }

  /** Every record of the reverse scan, in visiting order. */
  function ReverseRecords(f: Frames.Frame, g: Frames.Frame, t: real, rt: real): seq<Record> {
    Keep(IndexPairs(f.data.cols), ReverseRule(f, g, t, rt))
  }

  /** The target is read at every source column index that takes part in a
      pair; fewer target columns than that is an access outside the grid. */
  predicate TargetTooNarrow(f: Frames.Frame, g: Frames.Frame) {
    f.data.cols >= 2 && g.data.cols < f.data.cols
  }

  // --------------------------------------------------------------- outcomes

  /** What a scan answers and which records it appends. */
  datatype Outcome = Outcome(result: Result<bool>, added: seq<Record>)

  /** getPairsStable on its loaded expression table. */
  function StableScanSpec(f: Frames.Frame, t: real): Outcome {
    if f.data.rows == 0 then Outcome(Ok(false), []) else Outcome(Ok(true), StableRecords(f, t))
  }

  /** getPairsReverse on its loaded expression and target tables. */
  function ReverseScanSpec(f: Frames.Frame, g: Frames.Frame, t: real, rt: real): Outcome {
    if f.data.rows == 0 || g.data.rows == 0 then Outcome(Ok(false), [])
    else if TargetTooNarrow(f, g) then Outcome(Err(OutOfRange), [])
    else Outcome(Ok(true), ReverseRecords(f, g, t, rt))
  }

  /** getPairsStable: load the expression table, then scan it; an error
      while loading escapes. */
  function StableSpec(opts: StableOptions, file: Option<seq<string>>, reopened: bool,
                      stod: string -> Option<Double>): Outcome {
    match Frames.OpenSpec(opts.expression, file, reopened, stod)
    case Err(e) => Outcome(Err(e), [])
    case Ok(f) => StableScanSpec(f, opts.ratio)
  }

  /** getPairsReverse: load the expression table, then the target table,
      then scan both. */
  function ReverseSpec(opts: StableOptions, file: Option<seq<string>>, reopened: bool,
                       targetFile: Option<seq<string>>, targetReopened: bool,
                       stod: string -> Option<Double>): Outcome {
    match Frames.OpenSpec(opts.expression, file, reopened, stod)
    case Err(e) => Outcome(Err(e), [])
    case Ok(f) =>
      match Frames.OpenSpec(opts.target, targetFile, targetReopened, stod)
      case Err(e) => Outcome(Err(e), [])
      case Ok(g) => ReverseScanSpec(f, g, opts.ratio, opts.revRatio)
  }

  // ---------------------------------------------------------------- scanner

  class StablePairs {
    var pairs: seq<Record>
    var options: StableOptions
    var reverse: bool

    /** StablePairs(opts): reverse mode exactly when the target path
        exists. */
    constructor (opts: StableOptions, targetExists: bool)
      ensures options == opts && reverse == targetExists && pairs == []
    {
      options := opts;
      reverse := targetExists;
      pairs := [];
    }

    /** getPairs: the reverse scan in reverse mode, the stable-only scan
        otherwise. */
    method GetPairs(file: Option<seq<string>>, reopened: bool,
                    targetFile: Option<seq<string>>, targetReopened: bool,
                    stod: string -> Option<Double>) returns (r: Result<bool>)
      modifies this
      ensures options == old(options) && reverse == old(reverse)
      ensures var o := if reverse then ReverseSpec(options, file, reopened, targetFile, targetReopened, stod)
                       else StableSpec(options, file, reopened, stod);
              r == o.result && pairs == old(pairs) + o.added
    {
      if reverse {
        r := GetPairsReverse(file, reopened, targetFile, targetReopened, stod);
      } else {
        r := GetPairsStable(file, reopened, stod);
      }
    }

    method GetPairsStable(file: Option<seq<string>>, reopened: bool, stod: string -> Option<Double>)
      returns (r: Result<bool>)
      modifies this
      ensures options == old(options) && reverse == old(reverse)
      ensures var o := StableSpec(options, file, reopened, stod);
              r == o.result && pairs == old(pairs) + o.added
    {
      var source := Frames.DataFrame.Open(options.expression, file, reopened, stod);
      if source.Err? {
        assert pairs == pairs + [];
        return Err(source.error);
      }
      var f := source.value.State();
      Frames.OpenedLoaded(options.expression, file, reopened, stod);
      var ok := StableScan(f);
      r := Ok(ok);
    }

    method GetPairsReverse(file: Option<seq<string>>, reopened: bool,
                           targetFile: Option<seq<string>>, targetReopened: bool,
                           stod: string -> Option<Double>) returns (r: Result<bool>)
      modifies this
      ensures options == old(options) && reverse == old(reverse)
      ensures var o := ReverseSpec(options, file, reopened, targetFile, targetReopened, stod);
              r == o.result && pairs == old(pairs) + o.added
    {
      var source := Frames.DataFrame.Open(options.expression, file, reopened, stod);
      if source.Err? {
        assert pairs == pairs + [];
        return Err(source.error);
      }
      var target := Frames.DataFrame.Open(options.target, targetFile, targetReopened, stod);
      if target.Err? {
        assert pairs == pairs + [];
        return Err(target.error);
      }
      var f := source.value.State();
      var g := target.value.State();
      Frames.OpenedLoaded(options.expression, file, reopened, stod);
      Frames.OpenedLoaded(options.target, targetFile, targetReopened, stod);
      r := ReverseScan(f, g);
    }

    /** The body of getPairsStable once the table is loaded. */
    method StableScan(f: Frames.Frame) returns (ok: bool)
      requires Frames.Loaded(f)
      modifies this
      ensures options == old(options) && reverse == old(reverse)
      ensures var o := StableScanSpec(f, options.ratio);
              o.result == Ok(ok) && pairs == old(pairs) + o.added
    {
      if f.data.rows == 0 {
        assert pairs == pairs + [];
        return false;
      }
      var n := f.data.cols;
      ghost var rule := StableRule(f, options.ratio);
      var i := 0;
      while i < n
        invariant 0 <= i <= n
        invariant options == old(options) && reverse == old(reverse)
        invariant pairs == old(pairs) + Keep(RowsBefore(n, i), rule)
      {
        ghost var before := pairs;
        ScanStableRow(f, i);
        StableRowKeep(f, options.ratio, i, n);
        OuterStep(before, pairs, old(pairs), n, i, rule);
        i := i + 1;
      }
      return true;
    }

    /** One round of the outer loop: the pairs (i, j) for every j > i. */
    method ScanStableRow(f: Frames.Frame, i: nat)
      requires Frames.Loaded(f) && f.data.rows > 0 && i < f.data.cols
      modifies this
      ensures options == old(options) && reverse == old(reverse)
      ensures pairs == old(pairs) + StableRow(f, options.ratio, i, f.data.cols)
    {
      ghost var start, t := pairs, options.ratio;
      for j := i + 1 to f.data.cols
        invariant options == old(options) && reverse == old(reverse)
        invariant pairs == start + StableRow(f, t, i, j)
      {
        StableVisit(f, i, j, start);
      }
    }

    /** The inner loop's body for the pair (i, j): the pairs (i, i+1) ..
        (i, j-1) are behind it. */
    method StableVisit(f: Frames.Frame, i: nat, j: nat, ghost start: seq<Record>)
      requires Frames.Loaded(f) && f.data.rows > 0 && i < j < f.data.cols
      requires pairs == start + StableRow(f, options.ratio, i, j)
      modifies this
      ensures options == old(options) && reverse == old(reverse)
      ensures pairs == start + StableRow(f, options.ratio, i, j + 1)
    {
      var ratio := Share(f.data, i, j, Above);
      if ratio > options.ratio {
        pairs := pairs + [Record(f.columns[i], f.columns[j], ratio, 0.0)];
      } else if 1.0 - ratio > options.ratio {
        pairs := pairs + [Record(f.columns[j], f.columns[i], 1.0 - ratio, 0.0)];
      }
      StableRowStep(old(pairs), pairs, start, f, options.ratio, i, j);
    }

    /** The body of getPairsReverse once both tables are loaded. */
    method ReverseScan(f: Frames.Frame, g: Frames.Frame) returns (r: Result<bool>)
      requires Frames.Loaded(f) && Frames.Loaded(g)
      modifies this
      ensures options == old(options) && reverse == old(reverse)
      ensures var o := ReverseScanSpec(f, g, options.ratio, options.revRatio);
              o.result == r && pairs == old(pairs) + o.added
    {
      if f.data.rows == 0 || g.data.rows == 0 {
        assert pairs == pairs + [];
        return Ok(false);
      }
      if TargetTooNarrow(f, g) {
        assert pairs == pairs + [];
        return Err(OutOfRange);
      }
      ScanReverseRows(f, g);
      return Ok(true);
    }

    /** The nested loops of getPairsReverse. */
    method ScanReverseRows(f: Frames.Frame, g: Frames.Frame)
      requires Frames.Loaded(f) && f.data.rows > 0
      requires Frames.Loaded(g) && g.data.rows > 0 && !TargetTooNarrow(f, g)
      modifies this
      ensures options == old(options) && reverse == old(reverse)
      ensures pairs == old(pairs) + ReverseRecords(f, g, options.ratio, options.revRatio)
    {
      var n := f.data.cols;
      ghost var rule := ReverseRule(f, g, options.ratio, options.revRatio);
      var i := 0;
      while i < n
        invariant 0 <= i <= n
        invariant options == old(options) && reverse == old(reverse)
        invariant pairs == old(pairs) + Keep(RowsBefore(n, i), rule)
      {
        ghost var before := pairs;
        ScanReverseRow(f, g, i);
        ReverseRowKeep(f, g, options.ratio, options.revRatio, i, n);
        OuterStep(before, pairs, old(pairs), n, i, rule);
        i := i + 1;
      }
    }

    method ScanReverseRow(f: Frames.Frame, g: Frames.Frame, i: nat)
      requires Frames.Loaded(f) && f.data.rows > 0 && i < f.data.cols
      requires Frames.Loaded(g) && g.data.rows > 0 && !TargetTooNarrow(f, g)
      modifies this
      ensures options == old(options) && reverse == old(reverse)
      ensures pairs == old(pairs) + ReverseRow(f, g, options.ratio, options.revRatio, i, f.data.cols)
    {
      ghost var start, t, rt := pairs, options.ratio, options.revRatio;
      for j := i + 1 to f.data.cols
        invariant options == old(options) && reverse == old(reverse)
        invariant pairs == start + ReverseRow(f, g, t, rt, i, j)
      {
        ReverseVisit(f, g, i, j, start);
      }
    }

    method ReverseVisit(f: Frames.Frame, g: Frames.Frame, i: nat, j: nat, ghost start: seq<Record>)
      requires Frames.Loaded(f) && f.data.rows > 0 && i < j < f.data.cols
      requires Frames.Loaded(g) && g.data.rows > 0 && !TargetTooNarrow(f, g)
      requires pairs == start + ReverseRow(f, g, options.ratio, options.revRatio, i, j)
      modifies this
      ensures options == old(options) && reverse == old(reverse)
      ensures pairs == start + ReverseRow(f, g, options.ratio, options.revRatio, i, j + 1)
    {
      var ratio := Share(f.data, i, j, Above);
      var rev := Share(g.data, i, j, Below);
      if ratio > options.ratio && rev > options.revRatio {
        pairs := pairs + [Record(f.columns[i], f.columns[j], ratio, rev)];
      } else if 1.0 - ratio > options.ratio && 1.0 - rev > options.revRatio {
        pairs := pairs + [Record(f.columns[j], f.columns[i], 1.0 - ratio, 1.0 - rev)];
      }
      ReverseRowStep(old(pairs), pairs, start, f, g, options.ratio, options.revRatio, i, j);
    }
  }

  /** The records of the pairs (i, i+1) .. (i, j-1), one step at a time. */
  function StableRow(f: Frames.Frame, t: real, i: nat, j: nat): seq<Record>
    decreases j
  {
    if j <= i + 1 then [] else StableRow(f, t, i, j - 1) + Opt(StableDecision(f, t, (i, j - 1)))
  }

  lemma StableRowStep(before: seq<Record>, after: seq<Record>, start: seq<Record>,
                      f: Frames.Frame, t: real, i: nat, j: nat)
    requires i + 1 <= j
    requires before == start + StableRow(f, t, i, j)
    requires after == before + Opt(StableDecision(f, t, (i, j)))
    ensures after == start + StableRow(f, t, i, j + 1)
  {
    AppendAssoc(start, StableRow(f, t, i, j), Opt(StableDecision(f, t, (i, j))));
  }

  lemma {:induction false} StableRowKeep(f: Frames.Frame, t: real, i: nat, j: nat)
    ensures StableRow(f, t, i, j) == Keep(RowPairs(i, j), StableRule(f, t))
    decreases j
  {
    if j > i + 1 {
      StableRowKeep(f, t, i, j - 1);
      KeepSnoc(RowPairs(i, j - 1), (i, j - 1), StableRule(f, t));
    }
  }

  function ReverseRow(f: Frames.Frame, g: Frames.Frame, t: real, rt: real, i: nat, j: nat): seq<Record>
    decreases j
  {
    if j <= i + 1 then [] else ReverseRow(f, g, t, rt, i, j - 1) + Opt(ReverseDecision(f, g, t, rt, (i, j - 1)))
  }

  lemma ReverseRowStep(before: seq<Record>, after: seq<Record>, start: seq<Record>,
                       f: Frames.Frame, g: Frames.Frame, t: real, rt: real, i: nat, j: nat)
    requires i + 1 <= j
    requires before == start + ReverseRow(f, g, t, rt, i, j)
    requires after == before + Opt(ReverseDecision(f, g, t, rt, (i, j)))
    ensures after == start + ReverseRow(f, g, t, rt, i, j + 1)
  {
    AppendAssoc(start, ReverseRow(f, g, t, rt, i, j), Opt(ReverseDecision(f, g, t, rt, (i, j))));
  }

  lemma {:induction false} ReverseRowKeep(f: Frames.Frame, g: Frames.Frame, t: real, rt: real, i: nat, j: nat)
    ensures ReverseRow(f, g, t, rt, i, j) == Keep(RowPairs(i, j), ReverseRule(f, g, t, rt))
    decreases j
  {
    if j > i + 1 {
      ReverseRowKeep(f, g, t, rt, i, j - 1);
      KeepSnoc(RowPairs(i, j - 1), (i, j - 1), ReverseRule(f, g, t, rt));
    }
  }

  /** Scanning row i after the rows before it covers the rows up to i. */
  lemma OuterStep(before: seq<Record>, after: seq<Record>, start: seq<Record>, n: nat, i: nat,
                  rule: Pair -> Option<Record>)
    requires before == start + Keep(RowsBefore(n, i), rule)
    requires after == before + Keep(RowPairs(i, n), rule)
    ensures after == start + Keep(RowsBefore(n, i + 1), rule)
  {
    KeepAppend(RowsBefore(n, i), RowPairs(i, n), rule);
    AppendAssoc(start, Keep(RowsBefore(n, i), rule), Keep(RowPairs(i, n), rule));
  }

  // --------------------------------------------------------------- lemmas

  /** At most one record per unordered pair: no more than n(n-1)/2. */
  lemma StableRecordsBound(f: Frames.Frame, t: real, g: Frames.Frame, rt: real)
    ensures |StableRecords(f, t)| <= f.data.cols * (f.data.cols - 1) / 2
    ensures |ReverseRecords(f, g, t, rt)| <= f.data.cols * (f.data.cols - 1) / 2
  {
    KeepLength(IndexPairs(f.data.cols), StableRule(f, t));
    KeepLength(IndexPairs(f.data.cols), ReverseRule(f, g, t, rt));
    IndexPairsLength(f.data.cols);
  }

  /** Each record comes from its own pair i < j, and the pairs behind
      successive records increase lexicographically. */
  lemma StableRecordsOrdered(f: Frames.Frame, t: real) returns (origin: seq<Pair>)
    ensures |origin| == |StableRecords(f, t)|
    ensures forall k :: 0 <= k < |origin| ==>
              origin[k].0 < origin[k].1 < f.data.cols
              && StableDecision(f, t, origin[k]) == Some(StableRecords(f, t)[k])
    ensures forall a, b :: 0 <= a < b < |origin| ==> LexLess(origin[a], origin[b])
  {
    var ps := IndexPairs(f.data.cols);
    var pos := KeepOrigins(ps, StableRule(f, t));
    IndexPairsExactly(f.data.cols);
    IndexPairsSorted(f.data.cols);
    origin := seq(|pos|, k requires 0 <= k < |pos| => ps[pos[k]]);
    forall k | 0 <= k < |origin|
      ensures origin[k].0 < origin[k].1 < f.data.cols
    {
      assert ps[pos[k]] in ps;
    }
  }

  /** The same for the reverse scan. */
  lemma ReverseRecordsOrdered(f: Frames.Frame, g: Frames.Frame, t: real, rt: real) returns (origin: seq<Pair>)
    ensures |origin| == |ReverseRecords(f, g, t, rt)|
    ensures forall k :: 0 <= k < |origin| ==>
              origin[k].0 < origin[k].1 < f.data.cols
              && ReverseDecision(f, g, t, rt, origin[k]) == Some(ReverseRecords(f, g, t, rt)[k])
    ensures forall a, b :: 0 <= a < b < |origin| ==> LexLess(origin[a], origin[b])
  {
    var ps := IndexPairs(f.data.cols);
    var pos := KeepOrigins(ps, ReverseRule(f, g, t, rt));
    IndexPairsExactly(f.data.cols);
    IndexPairsSorted(f.data.cols);
    origin := seq(|pos|, k requires 0 <= k < |pos| => ps[pos[k]]);
    forall k | 0 <= k < |origin|
      ensures origin[k].0 < origin[k].1 < f.data.cols
    {
      assert ps[pos[k]] in ps;
    }
  }

  /** A record is reported exactly when some pair i < j decides it. */
  lemma StableRecordMembers(f: Frames.Frame, t: real, rec: Record)
    ensures rec in StableRecords(f, t) <==>
            exists i, j :: 0 <= i < j < f.data.cols && StableDecision(f, t, (i, j)) == Some(rec)
  {
    if rec in StableRecords(f, t) {
      var p := RecordSource(f, t, rec);
      assert StableDecision(f, t, (p.0, p.1)) == Some(rec);
    }
    if exists i, j :: 0 <= i < j < f.data.cols && StableDecision(f, t, (i, j)) == Some(rec) {
      var i, j :| 0 <= i < j < f.data.cols && StableDecision(f, t, (i, j)) == Some(rec);
      RecordReported(f, t, i, j);
    }
  }

  /** A record is reported by the reverse scan exactly when some pair i < j
      decides it. */
  lemma ReverseRecordMembers(f: Frames.Frame, g: Frames.Frame, t: real, rt: real, rec: Record)
    ensures rec in ReverseRecords(f, g, t, rt) <==>
            exists i, j :: 0 <= i < j < f.data.cols && ReverseDecision(f, g, t, rt, (i, j)) == Some(rec)
  {
    var ps := IndexPairs(f.data.cols);
    KeepMembers(ps, ReverseRule(f, g, t, rt), rec);
    IndexPairsExactly(f.data.cols);
    if rec in ReverseRecords(f, g, t, rt) {
      var k :| 0 <= k < |ps| && ReverseRule(f, g, t, rt)(ps[k]) == Some(rec);
      assert ps[k] in ps;
      assert ReverseDecision(f, g, t, rt, (ps[k].0, ps[k].1)) == Some(rec);
    }
    if exists i, j :: 0 <= i < j < f.data.cols && ReverseDecision(f, g, t, rt, (i, j)) == Some(rec) {
      var i, j :| 0 <= i < j < f.data.cols && ReverseDecision(f, g, t, rt, (i, j)) == Some(rec);
      assert (i, j) in ps;
      var k :| 0 <= k < |ps| && ps[k] == (i, j);
      assert ReverseRule(f, g, t, rt)(ps[k]) == Some(rec);
    }
  }

  /** The pair a reported record comes from. */
  lemma RecordSource(f: Frames.Frame, t: real, rec: Record) returns (p: Pair)
    requires rec in StableRecords(f, t)
    ensures p.0 < p.1 < f.data.cols && StableDecision(f, t, p) == Some(rec)
  {
    var ps := IndexPairs(f.data.cols);
    KeepMembers(ps, StableRule(f, t), rec);
    IndexPairsExactly(f.data.cols);
    var k :| 0 <= k < |ps| && StableRule(f, t)(ps[k]) == Some(rec);
    p := ps[k];
    assert p in ps;
  }

  /** The record a pair i < j decides is reported. */
  lemma RecordReported(f: Frames.Frame, t: real, i: nat, j: nat)
    requires i < j < f.data.cols && StableDecision(f, t, (i, j)).Some?
    ensures StableDecision(f, t, (i, j)).value in StableRecords(f, t)
  {
    var ps := IndexPairs(f.data.cols);
    IndexPairsExactly(f.data.cols);
    assert (i, j) in ps;
    var k :| 0 <= k < |ps| && ps[k] == (i, j);
    KeepContains(ps, StableRule(f, t), k);
  }

  /** The direction rule for a pair: i over j when the share is above the
      threshold (a share equal to it is not enough), j over i when it is not
      but its complement is, and no record otherwise. */
  lemma StableDirections(f: Frames.Frame, t: real, i: nat, j: nat)
    requires Frames.Loaded(f) && f.data.rows > 0 && i < j < f.data.cols
    ensures var d := StableDecision(f, t, (i, j));
            var ratio := Ratio(f, (i, j));
            && (ratio > t ==> d == Some(Record(f.columns[i], f.columns[j], ratio, 0.0)))
            && (ratio <= t && 1.0 - ratio > t ==> d == Some(Record(f.columns[j], f.columns[i], 1.0 - ratio, 0.0)))
            && (d.None? <==> ratio <= t && 1.0 - ratio <= t)
  {
  }

  /** A column that is above another in every sample is reported over it
      with share 1 whenever the threshold is below 1. */
  lemma DominantPairReported(f: Frames.Frame, t: real, i: nat, j: nat)
    requires Frames.Loaded(f) && f.data.rows > 0 && i < j < f.data.cols && t < 1.0
    requires forall r :: 0 <= r < f.data.rows ==> f.data.cells[r][i].Gt(f.data.cells[r][j])
    ensures StableDecision(f, t, (i, j)) == Some(Record(f.columns[i], f.columns[j], 1.0, 0.0))
  {
    CountOrderAll(f.data, i, j, f.data.rows, Above);
    DivSelf(f.data.rows as real);
  }

  /** In reverse mode a pair is reported i over j when both the source
      share and the target's opposite share clear their thresholds, j over i
      when that fails but both complements clear them, and not at all
      otherwise. */
  lemma ReverseNeedsBoth(f: Frames.Frame, g: Frames.Frame, t: real, rt: real, i: nat, j: nat)
    requires Frames.Loaded(f) && f.data.rows > 0 && i < j < f.data.cols
    requires Frames.Loaded(g) && g.data.rows > 0 && !TargetTooNarrow(f, g)
    ensures var d := ReverseDecision(f, g, t, rt, (i, j));
            var ratio := Ratio(f, (i, j));
            var rev := RevRatio(g, (i, j));
            && (ratio > t && rev > rt ==> d == Some(Record(f.columns[i], f.columns[j], ratio, rev)))
            && (!(ratio > t && rev > rt) && 1.0 - ratio > t && 1.0 - rev > rt
                ==> d == Some(Record(f.columns[j], f.columns[i], 1.0 - ratio, 1.0 - rev)))
            && (d.None? <==> !(ratio > t && rev > rt) && !(1.0 - ratio > t && 1.0 - rev > rt))
  {
  }

  /** A table without samples fails the scan and adds nothing; so does a
      reverse scan whose target has no samples. */
  lemma EmptyTablesFail(f: Frames.Frame, g: Frames.Frame, t: real, rt: real)
    ensures f.data.rows == 0 ==> StableScanSpec(f, t) == Outcome(Ok(false), [])
    ensures f.data.rows == 0 || g.data.rows == 0 ==> ReverseScanSpec(f, g, t, rt) == Outcome(Ok(false), [])
  {
  }
}
