/**
  The table loader of src/dataframe.cpp: a DataFrame holds a grid of doubles
  with row labels (index) and column labels (columns). Loading a delimited
  text file takes two passes over its lines: getSize counts rows and columns
  and sizes the label vectors, then read_csv zeroes the grid and fills the
  index name, the column labels, the row labels and the cells.

  A file is its sequence of lines (None when it cannot be opened); whether
  the second opening succeeds is a parameter, and std::stod is an
  uninterpreted parse of a non-empty cell (None when it throws).
*/
module Frames {
  import opened Values
  import opened Utils

  function Max(a: int, b: int): int {
    if a < b then b else a
  }

  /** The longest label, 0 when there are none. */
  function MaxLength(labels: seq<string>): (m: nat)
    ensures forall k :: 0 <= k < |labels| ==> |labels[k]| <= m
    ensures labels == [] ==> m == 0
    ensures labels != [] ==> exists k :: 0 <= k < |labels| && |labels[k]| == m
  {
    if labels == [] then 0
    else
      var init := labels[..|labels| - 1];
      assert forall k :: 0 <= k < |init| ==> init[k] == labels[k];
      Max(MaxLength(init), |labels[|labels| - 1]|)
  }

  // -------------------------------------------------------------- tokenising

  /** The cells std::getline(ss, cell, d) reads from a stringstream over s:
      the fields between delimiters, except that a final delimiter ends the
      last cell instead of starting an empty one, and "" has no cells. */
  function StreamCells(s: string, d: char): (cells: seq<string>)
    ensures |cells| == CountIn(s, [d]) + (if s != [] && s[|s| - 1] != d then 1 else 0)
    ensures forall k :: 0 <= k < |cells| ==> NoneIn(cells[k], [d])
  {
    if s == [] then []
    else
      var fs := Fields(s, [d]);
      FieldsCount(s, [d]);
      FieldsAvoidSeparators(s, [d]);
      if s[|s| - 1] == d then fs[..|fs| - 1] else fs
  }

  /** The cells joined by d, and the final delimiter if there was one, give
      the line back. */
  lemma StreamCellsRebuild(s: string, d: char)
    requires s != []
    ensures s[|s| - 1] == d ==> JoinWith(StreamCells(s, d), [d]) + [d] == s
    ensures s[|s| - 1] != d ==> JoinWith(StreamCells(s, d), [d]) == s
  {
    var fs := Fields(s, [d]);
    JoinSplitRoundTrip(s, d);
    if s[|s| - 1] == d {
      FieldsAtEdges(s, [d]);
      FieldsCount(s, [d]);
      var cells := fs[..|fs| - 1];
      assert fs == cells + [""];
      JoinWithSnoc(cells, "", [d]);
    }
  }

  // ------------------------------------------------------------------ state

  /** Everything a DataFrame holds. nrows and ncols are the sizes getSize
      counts; data holds its own shape. */
  datatype Frame = Frame(
    data: Matrix,
    index: seq<string>,
    columns: seq<string>,
    indexName: string,
    maxColumnLength: int,
    maxIndexLength: int,
    nrows: nat,
    ncols: nat)

  /** A default-constructed DataFrame. */
  function Fresh(): Frame {
    Frame(Matrix(0, 0, []), [], [], "index", -1, |"index"|, 0, 0)
  }

  /** The DataFrame built from a grid and its labels. */
  function Parts(data: Matrix, index: seq<string>, columns: seq<string>): Frame {
    Frame(data, index, columns, "index", MaxLength(columns), MaxLength(index), 0, 0)
  }

  /** Two states whose grids and label vectors have the same sizes. */
  predicate SameShape(a: Frame, b: Frame) {
    a.data.SameShape(b.data) && |a.index| == |b.index| && |a.columns| == |b.columns|
    && a.nrows == b.nrows && a.ncols == b.ncols
  }

  /** The rows of b's grid other than row equal a's. */
  predicate OtherRowsKept(a: Matrix, b: Matrix, row: int) {
    |a.cells| == |b.cells| && forall r :: 0 <= r < |a.cells| && r != row ==> b.cells[r] == a.cells[r]
  }

  /** v cut or padded with "" to n labels, as vector::resize does. */
  function Resize(v: seq<string>, n: nat): (r: seq<string>)
    ensures |r| == n
    ensures forall k :: 0 <= k < n ==> r[k] == if k < |v| then v[k] else ""
  {
    if n <= |v| then v[..n] else v + seq(n - |v|, _ => "")
  }

  // ---------------------------------------------------------------- getSize

  /** The cells getSize counts on a line: those left once trailing
      whitespace is dropped. */
  function CellCount(line: string, d: char): nat {
    |StreamCells(RStrip(line, Whitespace), d)|
  }

  /** The cell count of each line. */
  function Counts(lines: seq<string>, d: char): (c: seq<nat>)
    ensures |c| == |lines|
    ensures forall k :: 0 <= k < |lines| ==> c[k] == CellCount(lines[k], d)
  {
    seq(|lines|, k requires 0 <= k < |lines| => CellCount(lines[k], d))
  }

  /** The largest of xs, 0 when there is none. */
  function MaxOf(xs: seq<nat>): (m: nat)
    ensures forall k :: 0 <= k < |xs| ==> xs[k] <= m
    ensures xs != [] ==> exists k :: 0 <= k < |xs| && xs[k] == m
  {
    if xs == [] then 0
    else
      var init := xs[..|xs| - 1];
      assert forall k :: 0 <= k < |init| ==> init[k] == xs[k];
      Max(MaxOf(init), xs[|xs| - 1])
  }

  /** The most cells any line has. */
  function MaxCells(lines: seq<string>, d: char): nat {
    MaxOf(Counts(lines, d))
  }

  /** getSize's own bound: no line has more cells than MaxCells, and some
      line has that many. */
  lemma MaxCellsBounds(lines: seq<string>, d: char)
    ensures forall k :: 0 <= k < |lines| ==> CellCount(lines[k], d) <= MaxCells(lines, d)
    ensures lines != [] ==> exists k :: 0 <= k < |lines| && CellCount(lines[k], d) == MaxCells(lines, d)
  {
    var c := Counts(lines, d);
    if lines != [] {
      var k :| 0 <= k < |c| && c[k] == MaxOf(c);
      assert CellCount(lines[k], d) == MaxCells(lines, d);
    }
  }

  /** getSize: whether it succeeded and the state it leaves. */
  function GetSizeSpec(st: Frame, file: Option<seq<string>>, d: char): (bool, Frame) {
    match file
    case None => (false, st)
    case Some(lines) => Trim(st.(nrows := st.nrows + |lines|, ncols := Max(st.ncols, MaxCells(lines, d))))
  }

  /** The end of getSize, once the counts are in: drop the header line and
      the index column and size the label vectors, or fail when the product
      of the counts is 0, that is when either is 0. */
  function Trim(st: Frame): (bool, Frame) {
    if st.nrows > 0 && st.ncols > 0 then
      (true, st.(nrows := st.nrows - 1, ncols := st.ncols - 1,
                 columns := Resize(st.columns, st.ncols - 1), index := Resize(st.index, st.nrows - 1)))
    else
      (false, st)
  }

  /** From a DataFrame that has counted nothing yet, getSize succeeds iff
      the file has a line and some line has a cell; the header line and the
      index column are then not counted. */
  lemma GetSizeCounts(st: Frame, lines: seq<string>, d: char)
    requires st.nrows == 0 && st.ncols == 0
    ensures GetSizeSpec(st, Some(lines), d).0 <==> |lines| > 0 && MaxCells(lines, d) > 0
    ensures GetSizeSpec(st, Some(lines), d).0 ==>
              var st' := GetSizeSpec(st, Some(lines), d).1;
              st'.nrows == |lines| - 1 && st'.ncols == MaxCells(lines, d) - 1
              && |st'.columns| == st'.ncols && |st'.index| == st'.nrows
              && st'.data == st.data && st'.indexName == st.indexName
  {
  }

  lemma PositiveProduct(a: nat, b: nat)
    requires a > 0 && b > 0
    ensures a * b > 0
  {
  }

  // --------------------------------------------------------------- read_csv

  /** What a non-empty cell, or an empty one, is stored as. */
  function CellValue(cell: string, stod: string -> Option<Double>): Option<Double> {
    if cell == "" then Some(NaN) else stod(cell)
  }

  /** Write x at (row, col) of the grid, or fail outside it. */
  function SetData(st: Frame, row: int, col: int, x: Double): (r: Result<Frame>)
    ensures r.Ok? <==> st.data.Has(row, col)
    ensures r.Ok? ==> SameShape(st, r.value) && OtherRowsKept(st.data, r.value.data, row)
  {
    if st.data.Has(row, col) then Ok(st.(data := st.data.Set(row, col, x))) else Err(OutOfRange)
  }

  /** Storing one cell read at (row, col); row -1 is the header line and
      col -1 the first cell of a line. In the header, each cell becomes the
      index name while that still reads "index", and a column label
      otherwise. */
  function StoreCell(st: Frame, cell: string, row: int, col: int, stod: string -> Option<Double>): (r: Result<Frame>)
    ensures r.Ok? ==> SameShape(st, r.value) && OtherRowsKept(st.data, r.value.data, row)
  {
    if row == -1 then
      var named :=
        if st.indexName == "index" then Ok(st.(indexName := cell))
        else if 0 <= col < |st.columns| then Ok(st.(columns := st.columns[col := cell]))
        else Err(OutOfRange);
      if named.Err? then named
      else Ok(named.value.(maxColumnLength := Max(named.value.maxColumnLength, |cell|)))
    else if col == -1 then
      if 0 <= row < |st.index| then
        Ok(st.(index := st.index[row := cell], maxIndexLength := Max(st.maxIndexLength, |cell|)))
      else Err(OutOfRange)
    else
      match CellValue(cell, stod)
      case None => Err(ParseError)
      case Some(x) => SetData(st, row, col, x)
  }

  /** The cells of one line, stored from column col on; the state reached
      and the first error, if any. */
  function ReadCells(st: Frame, cells: seq<string>, row: int, col: int, stod: string -> Option<Double>): (r: (Frame, Option<Error>))
    ensures SameShape(st, r.0) && OtherRowsKept(st.data, r.0.data, row)
    decreases |cells|
  {
    if cells == [] then (st, None)
    else
      match StoreCell(st, cells[0], row, col, stod)
      case Err(e) => (st, Some(e))
      case Ok(st') => ReadCells(st', cells[1..], row, col + 1, stod)
  }

  /** One non-empty line read as row `row`: its cells after "\n\r" is
      stripped from its end, then NaN after the last cell when the line ends
      with the delimiter (reading the last character of a line that was only
      "\n\r" characters is outside the string). */
  function ReadLine(st: Frame, line: string, row: int, d: char, stod: string -> Option<Double>): (r: (Frame, Option<Error>))
    ensures SameShape(st, r.0) && OtherRowsKept(st.data, r.0.data, row)
  {
    var striped := RStrip(line, "\n\r");
    var cells := StreamCells(striped, d);
    var res := ReadCells(st, cells, row, -1, stod);
    if res.1.Some? then res else LineEnd(res.0, striped, row, |cells| - 1, d)
  }

  /** After the cells of a line: NaN in column col for a final delimiter. */
  function LineEnd(st: Frame, striped: string, row: int, col: int, d: char): (r: (Frame, Option<Error>))
    ensures SameShape(st, r.0) && OtherRowsKept(st.data, r.0.data, row)
  {
    if striped == [] then (st, Some(OutOfRange))
    else if striped[|striped| - 1] == d then
      match SetData(st, row, col, NaN)
      case Err(e) => (st, Some(e))
      case Ok(st2) => (st2, None)
    else (st, None)
  }

  /** The lines from row `row` on, skipping empty ones. */
  function ReadLines(st: Frame, lines: seq<string>, row: int, d: char, stod: string -> Option<Double>): (r: (Frame, Option<Error>))
    ensures SameShape(st, r.0)
    ensures RowsOutsideKept(st.data, r.0.data, row, NonEmpty(lines))
    decreases |lines|
  {
    if lines == [] then (st, None)
    else if lines[0] == "" then ReadLines(st, lines[1..], row, d, stod)
    else
      var res := ReadLine(st, lines[0], row, d, stod);
      if res.1.Some? then res else ReadLines(res.0, lines[1..], row + 1, d, stod)
  }

  /** read_csv: getSize over the file, the second opening, the zeroed grid,
      every line from the header (row -1) on, and the index name's length
      as a lower bound of maxIndexLength. The outcome is Ok(false) when the
      file is empty or cannot be opened, an error when a cell cannot be
      stored, and Ok(true) otherwise. */
  function ReadCsvSpec(st: Frame, file: Option<seq<string>>, reopened: bool, d: char, stod: string -> Option<Double>): (Frame, Result<bool>) {
    var sized := GetSizeSpec(st, file, d);
    if !sized.0 || !reopened then (sized.1, Ok(false))
    else
      var st2 := sized.1.(data := Zero(sized.1.nrows, sized.1.ncols));
      var res := ReadLines(st2, file.value, -1, d, stod);
      if res.1.Some? then (res.0, Err(res.1.value))
      else (res.0.(maxIndexLength := Max(|res.0.indexName|, res.0.maxIndexLength)), Ok(true))
  }

  /** The file constructor: the delimiter from the file name, then read_csv
      on a fresh DataFrame; its outcome is dropped, only errors escape. */
  function OpenSpec(filename: string, file: Option<seq<string>>, reopened: bool, stod: string -> Option<Double>): Result<Frame> {
    match GetDelim(filename)
    case Err(e) => Err(e)
    case Ok(d) =>
      var res := ReadCsvSpec(Fresh(), file, reopened, d, stod);
      if res.1.Err? then Err(res.1.error) else Ok(res.0)
  }

  // ------------------------------------------------------- read_csv lemmas

  /** When getSize fails or the second opening fails, read_csv answers
      false and the grid, labels and lengths are those getSize left. */
  lemma ReadCsvFailsEarly(st: Frame, file: Option<seq<string>>, reopened: bool, d: char, stod: string -> Option<Double>)
    requires !GetSizeSpec(st, file, d).0 || !reopened
    ensures ReadCsvSpec(st, file, reopened, d, stod) == (GetSizeSpec(st, file, d).1, Ok(false))
    ensures var st' := ReadCsvSpec(st, file, reopened, d, stod).0;
            st'.data == st.data && st'.indexName == st.indexName
            && st'.maxColumnLength == st.maxColumnLength && st'.maxIndexLength == st.maxIndexLength
    ensures !GetSizeSpec(st, file, d).0 ==> ReadCsvSpec(st, file, reopened, d, stod).0.index == st.index
  {
  }

  /** A completed read leaves a valid nrows x ncols grid with one row label
      per row and one column label per column. */
  lemma ReadCsvShape(st: Frame, file: Option<seq<string>>, reopened: bool, d: char, stod: string -> Option<Double>)
    requires ReadCsvSpec(st, file, reopened, d, stod).1 == Ok(true)
    ensures var st' := ReadCsvSpec(st, file, reopened, d, stod).0;
            st'.data.Valid() && st'.data.rows == st'.nrows && st'.data.cols == st'.ncols
            && |st'.index| == st'.nrows && |st'.columns| == st'.ncols
            && st'.maxIndexLength >= |st'.indexName|
  {
    var st1 := GetSizeSpec(st, file, d).1;
    var st2 := st1.(data := Zero(st1.nrows, st1.ncols));
    SameShapeValid(st2.data, ReadLines(st2, file.value, -1, d, stod).0.data);
  }

  /** A table the pair scanners can read: a valid grid with a label for
      every column. */
  predicate Loaded(f: Frame) {
    f.data.Valid() && f.data.cols <= |f.columns|
  }

  /** Every table the file constructor produces is loaded: a completed read
      by the shape it leaves, a read that stops early by keeping the empty
      grid of a fresh DataFrame. */
  lemma OpenedLoaded(filename: string, file: Option<seq<string>>, reopened: bool, stod: string -> Option<Double>)
    requires OpenSpec(filename, file, reopened, stod).Ok?
    ensures Loaded(OpenSpec(filename, file, reopened, stod).value)
  {
    var d := GetDelim(filename).value;
    var st := Fresh();
    var res := ReadCsvSpec(st, file, reopened, d, stod);
    if res.1 == Ok(true) {
      ReadCsvShape(st, file, reopened, d, stod);
    } else {
      ReadCsvFailsEarly(st, file, reopened, d, stod);
    }
  }

  /** Header cells after the index name fill the column labels in order. */
  lemma {:induction false} HeaderLabels(st: Frame, cells: seq<string>, col: nat, stod: string -> Option<Double>)
    requires st.indexName != "index"
    requires col + |cells| <= |st.columns|
    ensures ReadCells(st, cells, -1, col, stod) ==
            (st.(columns := Splice(st.columns, col, cells),
                 maxColumnLength := if cells == [] then st.maxColumnLength
                                    else Max(st.maxColumnLength, MaxLength(cells))), None)
    decreases |cells|
  {
    if cells == [] {
      SpliceNothing(st.columns, col);
    } else {
      var st1 := st.(columns := st.columns[col := cells[0]], maxColumnLength := Max(st.maxColumnLength, |cells[0]|));
      assert StoreCell(st, cells[0], -1, col, stod) == Ok(st1);
      HeaderLabels(st1, cells[1..], col + 1, stod);
      MaxLengthCons(cells);
      SpliceStep(st.columns, col, cells);
    }
  }

  /** v with the labels from position col on replaced by cells. */
  function Splice(v: seq<string>, col: nat, cells: seq<string>): seq<string>
    requires col + |cells| <= |v|
  {
    v[..col] + cells + v[col + |cells|..]
  }

  lemma SpliceNothing(v: seq<string>, col: nat)
    requires col <= |v|
    ensures Splice(v, col, []) == v
  {
    assert v[..col] + v[col..] == v;
  }

  lemma SpliceStep(v: seq<string>, col: nat, cells: seq<string>)
    requires cells != [] && col + |cells| <= |v|
    ensures Splice(v[col := cells[0]], col + 1, cells[1..]) == Splice(v, col, cells)
  {
    var w := v[col := cells[0]];
    assert w[..col + 1] == v[..col] + [cells[0]];
    assert w[col + 1 + |cells[1..]|..] == v[col + |cells|..];
    AppendAssoc(v[..col], [cells[0]], cells[1..]);
    assert [cells[0]] + cells[1..] == cells;
  }

  lemma {:induction false} MaxLengthCons(labels: seq<string>)
    requires labels != []
    ensures MaxLength(labels) == Max(|labels[0]|, MaxLength(labels[1..]))
    decreases |labels|
  {
    if |labels| > 1 {
      var init := labels[..|labels| - 1];
      MaxLengthCons(init);
      assert init[1..] == labels[1..][..|labels[1..]| - 1];
    } else {
      assert labels[..0] == [];
    }
  }

  /** The header line of a fresh read: its first cell names the index and
      the rest label the columns from 0 on, unless the first cell is itself
      "index" (see HeaderNamedIndex). */
  lemma HeaderRow(st: Frame, cells: seq<string>, stod: string -> Option<Double>)
    requires st.indexName == "index"
    requires cells != [] && cells[0] != "index"
    requires |cells| - 1 <= |st.columns|
    ensures ReadCells(st, cells, -1, -1, stod) ==
            (st.(indexName := cells[0],
                 columns := Splice(st.columns, 0, cells[1..]),
                 maxColumnLength := Max(st.maxColumnLength, MaxLength(cells))), None)
  {
    var st1 := st.(indexName := cells[0], maxColumnLength := Max(st.maxColumnLength, |cells[0]|));
    assert StoreCell(st, cells[0], -1, -1, stod) == Ok(st1);
    HeaderLabels(st1, cells[1..], 0, stod);
    MaxLengthCons(cells);
  }

  /** A header whose first cell is "index" leaves the index name "index"
      for one more cell: the second header cell becomes the index name and
      the first column label is never written. */
  lemma HeaderNamedIndex(st: Frame, stod: string -> Option<Double>)
    requires st.indexName == "index" && |st.columns| == 2
    ensures var (st', err) := ReadCells(st, ["index", "a", "b"], -1, -1, stod);
            err == None && st'.indexName == "a" && st'.columns == [st.columns[0], "b"]
  {
    var cells := ["index", "a", "b"];
    var st1 := st.(maxColumnLength := Max(st.maxColumnLength, 5));
    assert StoreCell(st, "index", -1, -1, stod) == Ok(st1);
    assert cells[1..] == ["a", "b"];
    var st2 := st1.(indexName := "a", maxColumnLength := Max(st1.maxColumnLength, 1));
    assert StoreCell(st1, "a", -1, 0, stod) == Ok(st2);
    assert ["a", "b"][1..] == ["b"];
    HeaderLabels(st2, ["b"], 1, stod);
  }

  /** Data cells from column col on go to row `row` of the grid in order;
      nothing else changes. */
  lemma {:induction false} DataCells(st: Frame, cells: seq<string>, row: nat, col: nat, stod: string -> Option<Double>)
    requires row < |st.data.cells| && col + |cells| <= |st.data.cells[row]|
    requires forall k :: 0 <= k < |cells| ==> CellValue(cells[k], stod).Some?
    ensures var (st', err) := ReadCells(st, cells, row, col, stod);
            err == None && st' == st.(data := st'.data)
            && forall c :: 0 <= c < |st.data.cells[row]| ==>
                 st'.data.cells[row][c] == if col <= c < col + |cells| then CellValue(cells[c - col], stod).value
                                           else st.data.cells[row][c]
    decreases |cells|
  {
    if cells != [] {
      var x := CellValue(cells[0], stod).value;
      var st1 := st.(data := st.data.Set(row, col, x));
      assert StoreCell(st, cells[0], row, col, stod) == Ok(st1);
      DataCells(st1, cells[1..], row, col + 1, stod);
      forall k | 0 <= k < |cells| - 1 ensures cells[1..][k] == cells[k + 1] { }
    }
  }

  /** The cells of a data line: the first labels row `row`, and the k-th
      following cell is stored in column k. */
  lemma DataRow(st: Frame, cells: seq<string>, row: nat, stod: string -> Option<Double>)
    requires row < |st.index| && row < |st.data.cells|
    requires cells != [] && |cells| - 1 <= |st.data.cells[row]|
    requires forall k :: 1 <= k < |cells| ==> CellValue(cells[k], stod).Some?
    ensures var (st', err) := ReadCells(st, cells, row, -1, stod);
            err == None
            && st' == st.(data := st'.data, index := st.index[row := cells[0]],
                          maxIndexLength := Max(st.maxIndexLength, |cells[0]|))
            && forall c :: 0 <= c < |st.data.cells[row]| ==>
                 st'.data.cells[row][c] == if c < |cells| - 1 then CellValue(cells[c + 1], stod).value
                                           else st.data.cells[row][c]
  {
    var st1 := st.(index := st.index[row := cells[0]], maxIndexLength := Max(st.maxIndexLength, |cells[0]|));
    assert StoreCell(st, cells[0], row, -1, stod) == Ok(st1);
    var rest := cells[1..];
    forall k | 0 <= k < |rest| ensures CellValue(rest[k], stod).Some? {
      assert rest[k] == cells[k + 1];
    }
    DataCells(st1, rest, row, 0, stod);
    forall k | 0 <= k < |rest| ensures rest[k] == cells[k + 1] { }
  }

  /** A data line: DataRow for its cells once "\n\r" is stripped from its
      end, and a final delimiter stores NaN in the next column; the rest of
      the grid and every other label are unchanged. */
  lemma DataLine(st: Frame, line: string, row: nat, d: char, stod: string -> Option<Double>)
    requires row < |st.index| && row < |st.data.cells|
    requires var cells := StreamCells(RStrip(line, "\n\r"), d);
             cells != [] && |cells| - 1 + (if RStrip(line, "\n\r")[|RStrip(line, "\n\r")| - 1] == d then 1 else 0) <= |st.data.cells[row]|
             && forall k :: 1 <= k < |cells| ==> CellValue(cells[k], stod).Some?
    ensures var striped := RStrip(line, "\n\r");
            var cells := StreamCells(striped, d);
            var (st', err) := ReadLine(st, line, row, d, stod);
            err == None
            && st' == st.(data := st'.data, index := st.index[row := cells[0]],
                          maxIndexLength := Max(st.maxIndexLength, |cells[0]|))
            && OtherRowsKept(st.data, st'.data, row) && |st'.data.cells[row]| == |st.data.cells[row]|
            && (forall c :: 0 <= c < |cells| - 1 ==> st'.data.cells[row][c] == CellValue(cells[c + 1], stod).value)
            && (striped[|striped| - 1] == d ==> st'.data.cells[row][|cells| - 1] == NaN)
            && (forall c :: |cells| - 1 + (if striped[|striped| - 1] == d then 1 else 0) <= c < |st.data.cells[row]| ==>
                  st'.data.cells[row][c] == st.data.cells[row][c])
  {
    var striped := RStrip(line, "\n\r");
    var cells := StreamCells(striped, d);
    DataRow(st, cells, row, stod);
  }

  /** Lines that are not empty. */
  function NonEmpty(lines: seq<string>): nat {
    if lines == [] then 0 else (if lines[0] != "" then 1 else 0) + NonEmpty(lines[1..])
  }

  /** The rows of b's grid outside lo .. lo+n-1 equal a's. */
  predicate RowsOutsideKept(a: Matrix, b: Matrix, lo: int, n: nat) {
    |a.cells| == |b.cells| && forall r :: 0 <= r < |a.cells| && (r < lo || r >= lo + n) ==> b.cells[r] == a.cells[r]
  }

  /** getSize counts empty lines but read_csv skips them, so the rows past
      the last data line keep the 0.0 the grid was zeroed with. */
  lemma UnfilledRowsStayZero(st: Frame, lines: seq<string>, reopened: bool, d: char, stod: string -> Option<Double>, r: nat, c: nat)
    requires GetSizeSpec(st, Some(lines), d).0 && reopened
    requires NonEmpty(lines) <= r + 1 && r < GetSizeSpec(st, Some(lines), d).1.nrows
    requires c < GetSizeSpec(st, Some(lines), d).1.ncols
    ensures ReadCsvSpec(st, Some(lines), reopened, d, stod).0.data.cells[r][c] == Num(0.0)
  {
    var st1 := GetSizeSpec(st, Some(lines), d).1;
    var st2 := st1.(data := Zero(st1.nrows, st1.ncols));
    var res := ReadLines(st2, lines, -1, d, stod);
    assert res.0.data.cells[r] == st2.data.cells[r];
  }

  // ---------------------------------------------------------------- operators

  /** One cell of a binary operator; IEEE division by zero is NaN here. */
  function ApplyOp(op: Operation, a: Double, b: Double): Double {
    match op
    case Add => a.Plus(b)
    case Subtract => a.Minus(b)
    case Multiply => a.Times(b)
    case Divide => a.Over(b)
  }

  /** Two grids of one size combined cell by cell. */
  function Elementwise(op: Operation, a: Matrix, b: Matrix): (m: Matrix)
    requires a.Valid() && b.Valid() && a.rows == b.rows && a.cols == b.cols
    ensures m.Valid() && m.rows == a.rows && m.cols == a.cols
    ensures forall r, c :: 0 <= r < a.rows && 0 <= c < a.cols ==> m.cells[r][c] == ApplyOp(op, a.cells[r][c], b.cells[r][c])
  {
    Matrix(a.rows, a.cols,
           seq(a.rows, r requires 0 <= r < a.rows =>
             seq(a.cols, c requires 0 <= c < a.cols => ApplyOp(op, a.cells[r][c], b.cells[r][c]))))
  }

  /** operator+, -, * and /: the DataFrame of the combined grids with the
      left operand's labels, or invalid_argument when the shapes differ. */
  function Combine(op: Operation, df: Frame, other: Frame): (r: Result<Frame>)
    requires df.data.Valid() && other.data.Valid()
    ensures r.Err? <==> df.data.rows != other.data.rows || df.data.cols != other.data.cols
    ensures r.Err? ==> r.error.InvalidArgument?
    ensures r.Ok? ==> r.value.data.Valid() && r.value.data.rows == df.data.rows && r.value.data.cols == df.data.cols
                      && r.value.index == df.index && r.value.columns == df.columns
  {
    if df.data.rows == other.data.rows && df.data.cols == other.data.cols then
      Ok(Parts(Elementwise(op, df.data, other.data), df.index, df.columns))
    else
      Err(InvalidArgument("The shapes of the two DataFrame objects are different."))
  }

  /** The operators fail exactly on a shape mismatch; otherwise the result
      has the operands' shape, the left operand's labels with their longest
      lengths, and each cell combines the two operands' cells. */
  lemma CombineChecksShapes(op: Operation, df: Frame, other: Frame)
    requires df.data.Valid() && other.data.Valid()
    ensures Combine(op, df, other).Err? <==> df.data.rows != other.data.rows || df.data.cols != other.data.cols
    ensures Combine(op, df, other).Err? ==> Combine(op, df, other).error.InvalidArgument?
    ensures Combine(op, df, other).Ok? ==>
              var res := Combine(op, df, other).value;
              res.data.Valid() && res.data.rows == df.data.rows && res.data.cols == df.data.cols
              && res.index == df.index && res.columns == df.columns && res.indexName == "index"
              && res.maxIndexLength == MaxLength(df.index) && res.maxColumnLength == MaxLength(df.columns)
              && forall r, c :: 0 <= r < df.data.rows && 0 <= c < df.data.cols ==>
                   res.data.cells[r][c] == ApplyOp(op, df.data.cells[r][c], other.data.cells[r][c])
  {
  }

  /** No cell of the grid is NaN. */
  predicate AllNumbers(m: Matrix) {
    forall r, c :: 0 <= r < |m.cells| && 0 <= c < |m.cells[r]| ==> m.cells[r][c].Num?
  }

  lemma GridsEqual(a: Matrix, b: Matrix)
    requires a.Valid() && b.Valid() && a.rows == b.rows && a.cols == b.cols
    requires forall r, c :: 0 <= r < a.rows && 0 <= c < a.cols ==> a.cells[r][c] == b.cells[r][c]
    ensures a == b
  {
    forall r | 0 <= r < a.rows ensures a.cells[r] == b.cells[r] {
    }
  }

  /** Subtracting what was added gives the grid back when no cell is NaN. */
  lemma SubtractUndoesAdd(df: Frame, other: Frame)
    requires df.data.Valid() && other.data.Valid()
    requires df.data.rows == other.data.rows && df.data.cols == other.data.cols
    requires AllNumbers(df.data) && AllNumbers(other.data)
    ensures Combine(Add, df, other).Ok?
    ensures Combine(Subtract, Combine(Add, df, other).value, other) == Ok(Parts(df.data, df.index, df.columns))
  {
    var sum := Combine(Add, df, other).value;
    var back := Elementwise(Subtract, sum.data, other.data);
    GridsEqual(back, df.data);
  }

  /** Dividing what was multiplied gives the grid back when no cell is NaN
      and the divisor has no zero. */
  lemma DivideUndoesMultiply(df: Frame, other: Frame)
    requires df.data.Valid() && other.data.Valid()
    requires df.data.rows == other.data.rows && df.data.cols == other.data.cols
    requires AllNumbers(df.data) && AllNumbers(other.data)
    requires forall r, c :: 0 <= r < other.data.rows && 0 <= c < other.data.cols ==> other.data.cells[r][c].v != 0.0
    ensures Combine(Multiply, df, other).Ok?
    ensures Combine(Divide, Combine(Multiply, df, other).value, other) == Ok(Parts(df.data, df.index, df.columns))
  {
    var prod := Combine(Multiply, df, other).value;
    var back := Elementwise(Divide, prod.data, other.data);
    forall r, c | 0 <= r < df.data.rows && 0 <= c < df.data.cols
      ensures back.cells[r][c] == df.data.cells[r][c]
    {
      var x := df.data.cells[r][c].v;
      var y := other.data.cells[r][c].v;
      assert (x * y) / y == x;
    }
    GridsEqual(back, df.data);
  }

  /** Addition and multiplication give the same grid in either order. */
  lemma CombineCommutes(op: Operation, df: Frame, other: Frame)
    requires op == Add || op == Multiply
    requires df.data.Valid() && other.data.Valid()
    requires df.data.rows == other.data.rows && df.data.cols == other.data.cols
    ensures Combine(op, df, other).Ok? && Combine(op, other, df).Ok?
    ensures Combine(op, df, other).value.data == Combine(op, other, df).value.data
  {
    GridsEqual(Elementwise(op, df.data, other.data), Elementwise(op, other.data, df.data));
  }

  // ---------------------------------------------------------------- the class

  /** The longest label, as the constructor's loops compute it. */
  method LongestLabel(labels: seq<string>) returns (m: int)
    ensures m == MaxLength(labels)
  {
    m := 0;
    var k := 0;
    while k < |labels|
      invariant 0 <= k <= |labels|
      invariant m == MaxLength(labels[..k])
    {
      assert labels[..k + 1][..k] == labels[..k];
      m := Max(m, |labels[k]|);
      k := k + 1;
    }
    assert labels[..|labels|] == labels;
  }

  class DataFrame {
    var data: Matrix
    var index: seq<string>
    var columns: seq<string>
    var indexName: string
    var maxColumnLength: int
    var maxIndexLength: int
    var nrows: nat
    var ncols: nat

    function State(): Frame
      reads this
    {
      Frame(data, index, columns, indexName, maxColumnLength, maxIndexLength, nrows, ncols)
    }

    /** DataFrame(): no data and no labels. */
    constructor ()
      ensures State() == Fresh()
    {
      data := Matrix(0, 0, []);
      index := [];
      columns := [];
      indexName := "index";
      maxColumnLength := -1;
      maxIndexLength := |"index"|;
      nrows := 0;
      ncols := 0;
    }

    /** DataFrame(data, index, columns): the label lengths are the longest
        labels. */
    constructor FromParts(data: Matrix, index: seq<string>, columns: seq<string>)
      ensures State() == Parts(data, index, columns)
    {
      var li := LongestLabel(index);
      var lc := LongestLabel(columns);
      this.data := data;
      this.index := index;
      this.columns := columns;
      indexName := "index";
      maxIndexLength := li;
      maxColumnLength := lc;
      nrows := 0;
      ncols := 0;
    }

    /** The file constructor DataFrame(filename). */
    static method Open(filename: string, file: Option<seq<string>>, reopened: bool, stod: string -> Option<Double>)
      returns (r: Result<DataFrame>)
      ensures r.Ok? ==> fresh(r.value) && OpenSpec(filename, file, reopened, stod) == Ok(r.value.State())
      ensures r.Err? ==> OpenSpec(filename, file, reopened, stod) == Err(r.error)
    {
      var d := GetDelim(filename);
      if d.Err? {
        return Err(d.error);
      }
      var df := new DataFrame();
      var res := df.ReadCsv(file, reopened, d.value, stod);
      if res.Err? {
        return Err(res.error);
      }
      return Ok(df);
    }

    /** getSize: counts lines into nrows and the most cells into ncols,
        then drops the header line and the index column from both. */
    method GetSize(file: Option<seq<string>>, delim: char) returns (ok: bool)
      modifies this
      ensures (ok, State()) == GetSizeSpec(old(State()), file, delim)
    {
      if file.None? {
        return false;
      }
      ghost var st0 := State();
      CountLines(file.value, delim);
      ghost var counted := State();
      assert GetSizeSpec(st0, file, delim) == Trim(counted);
      ok := TrimCounts();
    }

    method TrimCounts() returns (ok: bool)
      modifies this
      ensures (ok, State()) == Trim(old(State()))
    {
      if nrows * ncols > 0 {
        ProductPositive(nrows, ncols);
        nrows := nrows - 1;
        ncols := ncols - 1;
        columns := Resize(columns, ncols);
        index := Resize(index, nrows);
        return true;
      } else {
        if nrows > 0 && ncols > 0 {
          PositiveProduct(nrows, ncols);
        }
        return false;
      }
    }

    /** The line loop of getSize. */
    method CountLines(lines: seq<string>, delim: char)
      modifies this
      ensures State() == old(State()).(nrows := old(nrows) + |lines|, ncols := Max(old(ncols), MaxCells(lines, delim)))
    {
      ghost var st0 := State();
      var i := 0;
      while i < |lines|
        invariant 0 <= i <= |lines|
        invariant State() == st0.(nrows := st0.nrows + i, ncols := Max(st0.ncols, MaxCells(lines[..i], delim)))
      {
        CountLine(lines[i], delim);
        MaxCellsSnoc(lines, i, delim);
        i := i + 1;
      }
      assert lines[..|lines|] == lines;
    }

    /** One round of getSize's line loop; the cells are those the getline
        loop over the right-stripped line counts. */
    method CountLine(line: string, delim: char)
      modifies this
      ensures State() == old(State()).(nrows := old(nrows) + 1, ncols := Max(old(ncols), CellCount(line, delim)))
    {
      nrows := nrows + 1;
      var temp := CellCount(line, delim);
      ncols := Max(ncols, temp);
    }

    /** read_csv with a header line and an index column. */
    method ReadCsv(file: Option<seq<string>>, reopened: bool, delim: char, stod: string -> Option<Double>)
      returns (r: Result<bool>)
      modifies this
      ensures (State(), r) == ReadCsvSpec(old(State()), file, reopened, delim, stod)
    {
      var ok := GetSize(file, delim);
      if !ok || !reopened {
        return Ok(false);
      }
      var lines := file.value;
      data := Zero(nrows, ncols);
      ghost var st2 := State();
      var row := -1;
      var i := 0;
      while i < |lines|
        invariant 0 <= i <= |lines|
        invariant ReadLines(State(), lines[i..], row, delim, stod) == ReadLines(st2, lines, -1, delim, stod)
      {
        assert lines[i..][0] == lines[i] && lines[i..][1..] == lines[i + 1..];
        if lines[i] != "" {
          var err := ReadLineInto(lines[i], row, delim, stod);
          if err.Some? {
            return Err(err.value);
          }
          row := row + 1;
        }
        i := i + 1;
      }
      maxIndexLength := Max(|indexName|, maxIndexLength);
      return Ok(true);
    }

    /** One non-empty line: the getline loop over its cells, then the NaN
        for a final delimiter. */
    method ReadLineInto(line: string, row: int, delim: char, stod: string -> Option<Double>)
      returns (err: Option<Error>)
      modifies this
      ensures (State(), err) == ReadLine(old(State()), line, row, delim, stod)
    {
      var striped := RStrip(line, "\n\r");
      var cells := StreamCells(striped, delim);
      err := StoreCells(cells, row, stod);
      if err.Some? {
        return;
      }
      var col := |cells| - 1;
      err := EndLine(striped, row, col, delim);
    }

    /** The check for a final delimiter after the cells of a line. */
    method EndLine(striped: string, row: int, col: int, delim: char) returns (err: Option<Error>)
      modifies this
      ensures (State(), err) == LineEnd(old(State()), striped, row, col, delim)
    {
      if striped == [] {
        return Some(OutOfRange);
      }
      if striped[|striped| - 1] == delim {
        if !data.Has(row, col) {
          return Some(OutOfRange);
        }
        data := data.Set(row, col, NaN);
      }
      return None;
    }

    /** The getline loop over the cells of one line. */
    method StoreCells(cells: seq<string>, row: int, stod: string -> Option<Double>)
      returns (err: Option<Error>)
      modifies this
      ensures (State(), err) == ReadCells(old(State()), cells, row, -1, stod)
    {
      ghost var st0 := State();
      var col := -1;
      var k := 0;
      while k < |cells|
        invariant 0 <= k <= |cells| && col == k - 1
        invariant ReadCells(State(), cells[k..], row, col, stod) == ReadCells(st0, cells, row, -1, stod)
      {
        assert cells[k..][0] == cells[k] && cells[k..][1..] == cells[k + 1..];
        err := StoreCellInto(cells[k], row, col, stod);
        if err.Some? {
          return;
        }
        col := col + 1;
        k := k + 1;
      }
      return None;
    }

    /** The body of the getline loop for one cell. */
    method StoreCellInto(cell: string, row: int, col: int, stod: string -> Option<Double>)
      returns (err: Option<Error>)
      modifies this
      ensures StoreCell(old(State()), cell, row, col, stod).Ok? ==>
                err == None && State() == StoreCell(old(State()), cell, row, col, stod).value
      ensures StoreCell(old(State()), cell, row, col, stod).Err? ==>
                err == Some(StoreCell(old(State()), cell, row, col, stod).error) && State() == old(State())
    {
      if row == -1 {
        if indexName == "index" {
          indexName := cell;
        } else if 0 <= col < |columns| {
          columns := columns[col := cell];
        } else {
          return Some(OutOfRange);
        }
        maxColumnLength := Max(maxColumnLength, |cell|);
      } else if col == -1 {
        if !(0 <= row < |index|) {
          return Some(OutOfRange);
        }
        index := index[row := cell];
        maxIndexLength := Max(maxIndexLength, |cell|);
      } else if cell == "" {
        if !data.Has(row, col) {
          return Some(OutOfRange);
        }
        data := data.Set(row, col, NaN);
      } else {
        var x := stod(cell);
        if x.None? {
          return Some(ParseError);
        }
        if !data.Has(row, col) {
          return Some(OutOfRange);
        }
        data := data.Set(row, col, x.value);
      }
      return None;
    }
  }

  lemma ProductPositive(a: nat, b: nat)
    requires a * b > 0
    ensures a > 0 && b > 0
  {
  }

  lemma MaxCellsSnoc(lines: seq<string>, i: nat, d: char)
    requires i < |lines|
    ensures MaxCells(lines[..i + 1], d) == Max(MaxCells(lines[..i], d), CellCount(lines[i], d))
  {
    var xs := Counts(lines[..i], d);
    var x := CellCount(lines[i], d);
    forall k | 0 <= k <= i ensures Counts(lines[..i + 1], d)[k] == (xs + [x])[k] {
      assert lines[..i + 1][k] == lines[k];
    }
    assert Counts(lines[..i + 1], d) == xs + [x];
    MaxOfSnoc(xs, x);
  }

  lemma MaxOfSnoc(xs: seq<nat>, x: nat)
    ensures MaxOf(xs + [x]) == Max(MaxOf(xs), x)
  {
    assert (xs + [x])[..|xs|] == xs;
  }
}
