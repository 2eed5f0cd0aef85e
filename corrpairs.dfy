/**
  The correlation scanner (CorrPairs): for every column of a target table
  and every pair of expression columns i < j, the two expression columns are
  combined by an arithmetic operator and the correlation of the combination
  with the target column is taken; the pair is reported for that target
  column when the correlation is a number of at least the threshold.
*/
module Correlation {
  import opened Values
  import opened Pairs
  import opened Utils
  import Frames
  import Algorithm

  /** The options a scanner is built with. */
  datatype CorrOptions = CorrOptions(
    expression: string,
    target: string,
    output: string,
    corrMethod: Method,
    operation: Operation,
    threshold: real)

  /** CorrOptions(): Pearson on the difference of the two columns, threshold
      0.3, output to "output.csv". */
  function DefaultOptions(): CorrOptions {
    CorrOptions("", "", "output.csv", Pearson, Subtract, 0.3)
  }

  /** One reported pair: the target column's name, the two expression
      columns' names and the correlation. */
  datatype Record = Record(feature: string, first: string, second: string, corr: real)

  /** Algorithm::correlation, which this model does not define. */
  type Correlator = (seq<Double>, seq<Double>, Method) -> Double

  // ------------------------------------------------------------- decisions

  /** column_operate applied to columns p.0 and p.1 of f with the
      configured operator. */
  function Combined(f: Frames.Frame, op: Operation, p: Pair): (c: seq<Double>)
    requires f.data.Valid() && p.0 < f.data.cols && p.1 < f.data.cols
    ensures |c| == f.data.rows
    ensures forall r :: 0 <= r < f.data.rows ==> c[r] == Frames.ApplyOp(op, f.data.cells[r][p.0], f.data.cells[r][p.1])
  {
    Algorithm.ColumnOperateRows(f.data, p.0, p.1, op);
    Algorithm.ColumnOperate(f.data, p.0, p.1, Algorithm.OperationName(op)).value
  }

  /** The correlation is kept when it is a number at least the threshold. */
  predicate Kept(c: Double, threshold: real) {
    !(c.NaN? || c.Lt(Num(threshold)))
  }

  /** What getPairsOne records for the pair p against the target column
      vec named name. */
  function OneDecision(f: Frames.Frame, vec: seq<Double>, name: string, opts: CorrOptions,
                       correlation: Correlator, p: Pair): Option<Record> {
    if !(Frames.Loaded(f) && p.0 < f.data.cols && p.1 < f.data.cols) then None
    else
      var c := correlation(Combined(f, opts.operation, p), vec, opts.corrMethod);
      if Kept(c, opts.threshold) then Some(Record(name, f.columns[p.0], f.columns[p.1], c.v)) else None
  }

  function OneRule(f: Frames.Frame, vec: seq<Double>, name: string, opts: CorrOptions,
                   correlation: Correlator): Pair -> Option<Record> {
    p => OneDecision(f, vec, name, opts, correlation, p)
  }

  /** Every record getPairsOne appends, in visiting order. */
  function OneRecords(f: Frames.Frame, vec: seq<Double>, name: string, opts: CorrOptions,
                      correlation: Correlator): seq<Record> {
    Keep(IndexPairs(f.data.cols), OneRule(f, vec, name, opts, correlation))
  }

  /** The records rule decides for one loop round of getPairsOne, (i, i+1) .. (i, j-1). */
  function OneRow(rule: Pair -> Option<Record>, i: nat, j: nat): seq<Record>
    decreases j
  {
    if j <= i + 1 then [] else OneRow(rule, i, j - 1) + Opt(rule((i, j - 1)))
  }

  /** The records for target columns 0 .. k-1, one target column after the
      other. */
  function TargetRecords(f: Frames.Frame, g: Frames.Frame, opts: CorrOptions,
                         correlation: Correlator, k: nat): seq<Record>
    requires Frames.Loaded(g) && k <= g.data.cols
  {
    if k == 0 then []
    else TargetRecords(f, g, opts, correlation, k - 1)
         + OneRecords(f, g.data.Col(k - 1), g.columns[k - 1], opts, correlation)
  }

  // --------------------------------------------------------------- outcomes

  datatype Outcome = Outcome(result: Result<bool>, added: seq<Record>)

  /** getPairs on its two loaded tables. */
  function ScanSpec(f: Frames.Frame, g: Frames.Frame, opts: CorrOptions, correlation: Correlator): Outcome
    requires Frames.Loaded(g)
  {
    if f.data.rows != g.data.rows then Outcome(Ok(false), [])
    else Outcome(Ok(true), TargetRecords(f, g, opts, correlation, g.data.cols))
  }

  /** getPairs: load the expression table, then the target table, then
      scan; an error while loading escapes. */
  function CorrSpec(opts: CorrOptions, file: Option<seq<string>>, reopened: bool,
                    targetFile: Option<seq<string>>, targetReopened: bool,
                    stod: string -> Option<Double>, correlation: Correlator): Outcome {
    match Frames.OpenSpec(opts.expression, file, reopened, stod)
    case Err(e) => Outcome(Err(e), [])
    case Ok(f) =>
      match Frames.OpenSpec(opts.target, targetFile, targetReopened, stod)
      case Err(e) => Outcome(Err(e), [])
      case Ok(g) =>
        Frames.OpenedLoaded(opts.target, targetFile, targetReopened, stod);
        ScanSpec(f, g, opts, correlation)
  }

  // ---------------------------------------------------------------- scanner

  class CorrPairs {
    var pairs: seq<Record>
    var options: CorrOptions

    constructor ()
      ensures options == DefaultOptions() && pairs == []
    {
      options := DefaultOptions();
      pairs := [];
    }

    constructor WithOptions(opts: CorrOptions)
      ensures options == opts && pairs == []
    {
      options := opts;
      pairs := [];
    }

    method GetPairs(file: Option<seq<string>>, reopened: bool,
                    targetFile: Option<seq<string>>, targetReopened: bool,
                    stod: string -> Option<Double>, correlation: Correlator) returns (r: Result<bool>)
      modifies this
      ensures options == old(options)
      ensures var o := CorrSpec(options, file, reopened, targetFile, targetReopened, stod, correlation);
              r == o.result && pairs == old(pairs) + o.added
    {
      var source := Frames.DataFrame.Open(options.expression, file, reopened, stod);
      if source.Err? {
        assert pairs == pairs + [];
        return Err(source.error);
      }
      var target := Frames.DataFrame.Open(options.target, targetFile, targetReopened, stod);
      if target.Err? {
        assert pairs == pairs + [];
        return Err(target.error);
      }
      var f := source.value.State();
      var g := target.value.State();
      Frames.OpenedLoaded(options.expression, file, reopened, stod);
      Frames.OpenedLoaded(options.target, targetFile, targetReopened, stod);
      r := Scan(f, g, correlation);
    }

    /** The body of getPairs once both tables are loaded. */
    method Scan(f: Frames.Frame, g: Frames.Frame, correlation: Correlator) returns (r: Result<bool>)
      requires Frames.Loaded(f) && Frames.Loaded(g)
      modifies this
      ensures options == old(options)
      ensures var o := ScanSpec(f, g, options, correlation);
              r == o.result && pairs == old(pairs) + o.added
    {
      if f.data.rows != g.data.rows {
        assert pairs == pairs + [];
        return Ok(false);
      }
      ScanTargets(f, g, correlation);
      return Ok(true);
    }

    /** The loop of getPairs over the target columns. */
    method ScanTargets(f: Frames.Frame, g: Frames.Frame, correlation: Correlator)
      requires Frames.Loaded(f) && Frames.Loaded(g)
      modifies this
      ensures options == old(options)
      ensures pairs == old(pairs) + TargetRecords(f, g, options, correlation, g.data.cols)
    {
      for k := 0 to g.data.cols
        invariant options == old(options)
        invariant pairs == old(pairs) + TargetRecords(f, g, options, correlation, k)
      {
        ghost var before := pairs;
        GetPairsOne(f, g.data.Col(k), g.columns[k], correlation);
        AppendAssoc(old(pairs), TargetRecords(f, g, options, correlation, k),
                    OneRecords(f, g.data.Col(k), g.columns[k], options, correlation));
      }
    }

    /** getPairsOne: every pair i < j of expression columns against the
        target column vec. */
    method GetPairsOne(f: Frames.Frame, vec: seq<Double>, name: string, correlation: Correlator)
      requires Frames.Loaded(f)
      modifies this
      ensures options == old(options)
      ensures pairs == old(pairs) + OneRecords(f, vec, name, options, correlation)
    {
      var n := f.data.cols;
      ghost var rule := OneRule(f, vec, name, options, correlation);
      for i := 0 to n
        invariant options == old(options)
        invariant pairs == old(pairs) + Keep(RowsBefore(n, i), rule)
      {
        ScanOneRow(f, vec, name, correlation, i, rule);
        OneRowKeep(rule, i, n);
        KeepAppend(RowsBefore(n, i), RowPairs(i, n), rule);
        AppendAssoc(old(pairs), Keep(RowsBefore(n, i), rule), Keep(RowPairs(i, n), rule));
      }
    }

    method ScanOneRow(f: Frames.Frame, vec: seq<Double>, name: string, correlation: Correlator, i: nat,
                      ghost rule: Pair -> Option<Record>)
      requires Frames.Loaded(f) && i < f.data.cols
      requires rule == OneRule(f, vec, name, options, correlation)
      modifies this
      ensures options == old(options)
      ensures pairs == old(pairs) + OneRow(rule, i, f.data.cols)
    {
      ghost var start := pairs;
      var j := i + 1;
      while j < f.data.cols
        invariant i + 1 <= j <= f.data.cols
        invariant options == old(options)
        invariant pairs == start + OneRow(rule, i, j)
      {
        Visit(f, vec, name, correlation, i, j, start, rule);
        j := j + 1;
      }
    }

    /** The inner loop's body for the pair (i, j): the pairs (i, i+1) ..
        (i, j-1) are behind it. */
    method Visit(f: Frames.Frame, vec: seq<Double>, name: string, correlation: Correlator, i: nat, j: nat,
                 ghost start: seq<Record>, ghost rule: Pair -> Option<Record>)
      requires Frames.Loaded(f) && i < j < f.data.cols
      requires rule == OneRule(f, vec, name, options, correlation)
      requires pairs == start + OneRow(rule, i, j)
      modifies this
      ensures options == old(options)
      ensures pairs == start + OneRow(rule, i, j + 1)
    {
      var res := Algorithm.ColumnOperate(f.data, i, j, Algorithm.OperationName(options.operation));
      Algorithm.ColumnOperateRows(f.data, i, j, options.operation);
      var corr := correlation(res.value, vec, options.corrMethod);
      if !(corr.NaN? || corr.Lt(Num(options.threshold))) {
        pairs := pairs + [Record(name, f.columns[i], f.columns[j], corr.v)];
      }
      OneRowStep(old(pairs), pairs, start, rule, i, j);
    }
  }

  lemma OneRowStep(before: seq<Record>, after: seq<Record>, start: seq<Record>,
                   rule: Pair -> Option<Record>, i: nat, j: nat)
    requires i + 1 <= j
    requires before == start + OneRow(rule, i, j)
    requires after == before + Opt(rule((i, j)))
    ensures after == start + OneRow(rule, i, j + 1)
  {
    AppendAssoc(start, OneRow(rule, i, j), Opt(rule((i, j))));
  }

  lemma {:induction false} OneRowKeep(rule: Pair -> Option<Record>, i: nat, j: nat)
    ensures OneRow(rule, i, j) == Keep(RowPairs(i, j), rule)
    decreases j
  {
    if j > i + 1 {
      OneRowKeep(rule, i, j - 1);
      KeepSnoc(RowPairs(i, j - 1), (i, j - 1), rule);
    }
  }

  // --------------------------------------------------------------- lemmas

  /** A pair is kept exactly when its correlation is a number and at least
      the threshold: a NaN is dropped, and so is a strong negative
      correlation, since no absolute value is taken. */
  lemma KeptExactly(f: Frames.Frame, vec: seq<Double>, name: string, opts: CorrOptions,
                    correlation: Correlator, i: nat, j: nat)
    requires Frames.Loaded(f) && i < j < f.data.cols
    ensures var c := correlation(Combined(f, opts.operation, (i, j)), vec, opts.corrMethod);
            && (OneDecision(f, vec, name, opts, correlation, (i, j)).Some? <==> c.Num? && c.v >= opts.threshold)
            && (c.Num? && c.v >= opts.threshold ==>
                OneDecision(f, vec, name, opts, correlation, (i, j)) == Some(Record(name, f.columns[i], f.columns[j], c.v)))
  {
  }

  /** getPairsOne appends at most one record per pair i < j. */
  lemma OneRecordsBound(f: Frames.Frame, vec: seq<Double>, name: string, opts: CorrOptions, correlation: Correlator)
    ensures |OneRecords(f, vec, name, opts, correlation)| <= f.data.cols * (f.data.cols - 1) / 2
  {
    KeepLength(IndexPairs(f.data.cols), OneRule(f, vec, name, opts, correlation));
    IndexPairsLength(f.data.cols);
  }

  /** The whole scan appends at most targetCols * s(s-1)/2 records, s being
      the number of expression columns. */
  lemma {:induction false} TargetRecordsBound(f: Frames.Frame, g: Frames.Frame, opts: CorrOptions,
                                              correlation: Correlator, k: nat)
    requires Frames.Loaded(g) && k <= g.data.cols
    ensures |TargetRecords(f, g, opts, correlation, k)| <= k * (f.data.cols * (f.data.cols - 1) / 2)
  {
    if k > 0 {
      TargetRecordsBound(f, g, opts, correlation, k - 1);
      OneRecordsBound(f, g.data.Col(k - 1), g.columns[k - 1], opts, correlation);
      var s := f.data.cols * (f.data.cols - 1) / 2;
      assert (k - 1) * s + s == k * s;
    }
  }

  /** Where a record comes from: a target column c and a pair i < j. */
  type Origin = (nat, Pair)

  /** Target column first, then the pair in lexicographic order. */
  predicate OriginLess(a: Origin, b: Origin) {
    a.0 < b.0 || (a.0 == b.0 && LexLess(a.1, b.1))
  }

  /** The record that the pair p decides against target column c. */
  function TargetDecision(f: Frames.Frame, g: Frames.Frame, opts: CorrOptions, correlation: Correlator,
                          o: Origin): Option<Record>
    requires Frames.Loaded(g) && o.0 < g.data.cols
  {
    OneDecision(f, g.data.Col(o.0), g.columns[o.0], opts, correlation, o.1)
  }

  /** Each record has its own origin: a target column c < k and a pair
      i < j that decides it, and origins increase by target column, then i,
      then j. */
  lemma {:induction false} TargetRecordsOrdered(f: Frames.Frame, g: Frames.Frame, opts: CorrOptions,
                                                correlation: Correlator, k: nat) returns (origin: seq<Origin>)
    requires Frames.Loaded(g) && k <= g.data.cols
    ensures |origin| == |TargetRecords(f, g, opts, correlation, k)|
    ensures forall n :: 0 <= n < |origin| ==>
              origin[n].0 < k && origin[n].1.0 < origin[n].1.1 < f.data.cols
              && TargetDecision(f, g, opts, correlation, origin[n]) == Some(TargetRecords(f, g, opts, correlation, k)[n])
    ensures forall a, b :: 0 <= a < b < |origin| ==> OriginLess(origin[a], origin[b])
  {
    if k == 0 {
      origin := [];
    } else {
      var front := TargetRecordsOrdered(f, g, opts, correlation, k - 1);
      var back := OneOrigins(f, g, opts, correlation, k - 1);
      origin := front + back;
      OriginsConcat(front, back, k - 1);
      RecordsConcat(f, g, opts, correlation, k, front, back, TargetRecords(f, g, opts, correlation, k - 1),
                    OneRecords(f, g.data.Col(k - 1), g.columns[k - 1], opts, correlation));
    }
  }

  /** The origins of the records getPairsOne appends for target column c. */
  lemma OneOrigins(f: Frames.Frame, g: Frames.Frame, opts: CorrOptions, correlation: Correlator, c: nat)
    returns (origin: seq<Origin>)
    requires Frames.Loaded(g) && c < g.data.cols
    ensures |origin| == |OneRecords(f, g.data.Col(c), g.columns[c], opts, correlation)|
    ensures forall n :: 0 <= n < |origin| ==>
              origin[n].0 == c && origin[n].1.0 < origin[n].1.1 < f.data.cols
              && TargetDecision(f, g, opts, correlation, origin[n])
                 == Some(OneRecords(f, g.data.Col(c), g.columns[c], opts, correlation)[n])
    ensures forall a, b :: 0 <= a < b < |origin| ==> LexLess(origin[a].1, origin[b].1)
  {
    var rule := OneRule(f, g.data.Col(c), g.columns[c], opts, correlation);
    var ps := IndexPairs(f.data.cols);
    var pos := KeepOrigins(ps, rule);
    IndexPairsExactly(f.data.cols);
    IndexPairsSorted(f.data.cols);
    origin := seq(|pos|, n requires 0 <= n < |pos| => (c, ps[pos[n]]));
    forall n | 0 <= n < |origin|
      ensures origin[n].1.0 < origin[n].1.1 < f.data.cols
    {
      assert ps[pos[n]] in ps;
    }
  }

  lemma OriginsConcat(front: seq<Origin>, back: seq<Origin>, c: nat)
    requires forall n :: 0 <= n < |front| ==> front[n].0 < c
    requires forall n :: 0 <= n < |back| ==> back[n].0 == c
    requires forall a, b :: 0 <= a < b < |front| ==> OriginLess(front[a], front[b])
    requires forall a, b :: 0 <= a < b < |back| ==> LexLess(back[a].1, back[b].1)
    ensures forall a, b :: 0 <= a < b < |front + back| ==> OriginLess((front + back)[a], (front + back)[b])
  {
    var all := front + back;
    forall a, b | 0 <= a < b < |all| ensures OriginLess(all[a], all[b]) {
      if b < |front| {
        assert all[a] == front[a] && all[b] == front[b];
      } else if a >= |front| {
        assert all[a] == back[a - |front|] && all[b] == back[b - |front|];
      } else {
        assert all[a] == front[a] && all[b] == back[b - |front|];
      }
    }
  }

  /** The origins of one target column's records, checked one at a time. */
  predicate Explains(f: Frames.Frame, g: Frames.Frame, opts: CorrOptions, correlation: Correlator, k: nat,
                     origin: seq<Origin>, recs: seq<Record>)
    requires Frames.Loaded(g) && k <= g.data.cols
  {
    |origin| == |recs|
    && forall n :: 0 <= n < |origin| ==>
         origin[n].0 < k && origin[n].1.0 < origin[n].1.1 < f.data.cols
         && TargetDecision(f, g, opts, correlation, origin[n]) == Some(recs[n])
  }

  lemma RecordsConcat(f: Frames.Frame, g: Frames.Frame, opts: CorrOptions, correlation: Correlator, k: nat,
                      front: seq<Origin>, back: seq<Origin>, early: seq<Record>, late: seq<Record>)
    requires Frames.Loaded(g) && 0 < k <= g.data.cols
    requires Explains(f, g, opts, correlation, k - 1, front, early)
    requires Explains(f, g, opts, correlation, k, back, late)
    ensures Explains(f, g, opts, correlation, k, front + back, early + late)
  {
    var all, recs := front + back, early + late;
    forall n | 0 <= n < |all|
      ensures all[n].0 < k && all[n].1.0 < all[n].1.1 < f.data.cols
              && TargetDecision(f, g, opts, correlation, all[n]) == Some(recs[n])
    {
      if n < |front| {
        assert all[n] == front[n] && recs[n] == early[n];
      } else {
        assert all[n] == back[n - |front|] && recs[n] == late[n - |front|];
      }
    }
  }

  /** A record is reported against target column c exactly when some pair
      i < j decides it. */
  lemma OneRecordMembers(f: Frames.Frame, g: Frames.Frame, opts: CorrOptions, correlation: Correlator,
                         c: nat, rec: Record)
    requires Frames.Loaded(g) && c < g.data.cols
    ensures rec in OneRecords(f, g.data.Col(c), g.columns[c], opts, correlation) <==>
            exists i, j :: 0 <= i < j < f.data.cols && TargetDecision(f, g, opts, correlation, (c, (i, j))) == Some(rec)
  {
    var ps := IndexPairs(f.data.cols);
    var rule := OneRule(f, g.data.Col(c), g.columns[c], opts, correlation);
    KeepMembers(ps, rule, rec);
    IndexPairsExactly(f.data.cols);
    if rec in OneRecords(f, g.data.Col(c), g.columns[c], opts, correlation) {
      var k :| 0 <= k < |ps| && rule(ps[k]) == Some(rec);
      assert ps[k] in ps;
      assert TargetDecision(f, g, opts, correlation, (c, (ps[k].0, ps[k].1))) == Some(rec);
    }
    if exists i, j :: 0 <= i < j < f.data.cols && TargetDecision(f, g, opts, correlation, (c, (i, j))) == Some(rec) {
      var i, j :| 0 <= i < j < f.data.cols && TargetDecision(f, g, opts, correlation, (c, (i, j))) == Some(rec);
      assert (i, j) in ps;
      var k :| 0 <= k < |ps| && ps[k] == (i, j);
      assert rule(ps[k]) == Some(rec);
    }
  }

  /** Some pair i < j decides rec against target column c. */
  predicate DecidedAt(f: Frames.Frame, g: Frames.Frame, opts: CorrOptions, correlation: Correlator,
                      c: nat, rec: Record)
    requires Frames.Loaded(g) && c < g.data.cols
  {
    exists i, j :: 0 <= i < j < f.data.cols && TargetDecision(f, g, opts, correlation, (c, (i, j))) == Some(rec)
  }

  /** Some target column c < k decides rec. */
  predicate DecidedBelow(f: Frames.Frame, g: Frames.Frame, opts: CorrOptions, correlation: Correlator,
                         k: nat, rec: Record)
    requires Frames.Loaded(g) && k <= g.data.cols
  {
    exists c :: 0 <= c < k && DecidedAt(f, g, opts, correlation, c, rec)
  }

  lemma {:induction false} DecidedBelowMembers(f: Frames.Frame, g: Frames.Frame, opts: CorrOptions,
                                               correlation: Correlator, k: nat, rec: Record)
    requires Frames.Loaded(g) && k <= g.data.cols
    ensures rec in TargetRecords(f, g, opts, correlation, k) <==> DecidedBelow(f, g, opts, correlation, k, rec)
  {
    if k > 0 {
      DecidedBelowMembers(f, g, opts, correlation, k - 1, rec);
      OneRecordMembers(f, g, opts, correlation, k - 1, rec);
      DecidedBelowStep(f, g, opts, correlation, k, rec);
    }
  }

  lemma DecidedBelowStep(f: Frames.Frame, g: Frames.Frame, opts: CorrOptions, correlation: Correlator,
                         k: nat, rec: Record)
    requires Frames.Loaded(g) && 0 < k <= g.data.cols
    ensures DecidedBelow(f, g, opts, correlation, k, rec) <==>
            DecidedBelow(f, g, opts, correlation, k - 1, rec) || DecidedAt(f, g, opts, correlation, k - 1, rec)
  {
    if DecidedBelow(f, g, opts, correlation, k, rec) {
      var c :| 0 <= c < k && DecidedAt(f, g, opts, correlation, c, rec);
      if c < k - 1 {
        assert DecidedBelow(f, g, opts, correlation, k - 1, rec);
      }
    }
  }

  /** A record is reported for the target columns below k exactly when some
      target column c < k and pair i < j decide it. */
  lemma TargetRecordMembers(f: Frames.Frame, g: Frames.Frame, opts: CorrOptions,
                            correlation: Correlator, k: nat, rec: Record)
    requires Frames.Loaded(g) && k <= g.data.cols
    ensures rec in TargetRecords(f, g, opts, correlation, k) <==>
            exists c, i, j :: 0 <= c < k && 0 <= i < j < f.data.cols
                              && TargetDecision(f, g, opts, correlation, (c, (i, j))) == Some(rec)
  {
    DecidedBelowMembers(f, g, opts, correlation, k, rec);
    if DecidedBelow(f, g, opts, correlation, k, rec) {
      var c :| 0 <= c < k && DecidedAt(f, g, opts, correlation, c, rec);
      var i, j :| 0 <= i < j < f.data.cols && TargetDecision(f, g, opts, correlation, (c, (i, j))) == Some(rec);
    }
    if exists c, i, j :: 0 <= c < k && 0 <= i < j < f.data.cols
                         && TargetDecision(f, g, opts, correlation, (c, (i, j))) == Some(rec) {
      var c, i, j :| 0 <= c < k && 0 <= i < j < f.data.cols
                     && TargetDecision(f, g, opts, correlation, (c, (i, j))) == Some(rec);
      assert DecidedAt(f, g, opts, correlation, c, rec);
    }
  }

  /** Every record names its target column and two expression columns
      i < j, and carries the correlation of the combined column i op j with
      that target column, a number at least the threshold. */
  lemma RecordShape(f: Frames.Frame, g: Frames.Frame, opts: CorrOptions, correlation: Correlator, n: nat)
    returns (c: nat, i: nat, j: nat)
    requires Frames.Loaded(f) && Frames.Loaded(g) && n < |TargetRecords(f, g, opts, correlation, g.data.cols)|
    ensures c < g.data.cols && i < j < f.data.cols
    ensures var corr := correlation(Combined(f, opts.operation, (i, j)), g.data.Col(c), opts.corrMethod);
            corr.Num? && corr.v >= opts.threshold
            && TargetRecords(f, g, opts, correlation, g.data.cols)[n] == Record(g.columns[c], f.columns[i], f.columns[j], corr.v)
  {
    var origin := TargetRecordsOrdered(f, g, opts, correlation, g.data.cols);
    c, i, j := origin[n].0, origin[n].1.0, origin[n].1.1;
    assert TargetDecision(f, g, opts, correlation, origin[n]) == Some(TargetRecords(f, g, opts, correlation, g.data.cols)[n]);
  }

  /** Tables with different numbers of samples fail the scan and add
      nothing. */
  lemma MismatchedRowsFail(f: Frames.Frame, g: Frames.Frame, opts: CorrOptions, correlation: Correlator)
    requires Frames.Loaded(g) && f.data.rows != g.data.rows
    ensures ScanSpec(f, g, opts, correlation) == Outcome(Ok(false), [])
  {
  }
}
