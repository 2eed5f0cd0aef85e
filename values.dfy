/**
  Values shared by every part of the model: the error outcomes the program
  raises, doubles that may be NaN, and a dense row-major matrix with the
  shape queries of an Eigen `MatrixXd`.
*/
module Values {

  datatype Option<+T> = None | Some(value: T)

  /** The program's failure signals: exceptions it throws and places where
      the C++ code would read or write outside an object. */
  datatype Error =
    | InvalidArgument(what: string)   // std::invalid_argument
    | FileFormatError                  // Utils::FileFormatError
    | ParseError                       // std::stod found no number in a cell
    | OutOfRange                       // an index outside a vector or matrix

  datatype Result<+T> = Ok(value: T) | Err(error: Error)

  /** A double: a real value or NaN (infinities are not represented), with
      arithmetic and comparison that treat NaN as IEEE-754 does. */
  datatype Double = NaN | Num(v: real) {

    function Plus(b: Double): Double {
      if Num? && b.Num? then Num(v + b.v) else NaN
    }

    function Minus(b: Double): Double {
      if Num? && b.Num? then Num(v - b.v) else NaN
    }

    function Times(b: Double): Double {
      if Num? && b.Num? then Num(v * b.v) else NaN
    }

    /** Quotient; a zero divisor gives NaN here (IEEE gives an infinity
        unless the dividend is also zero). */
    function Over(b: Double): Double {
      if Num? && b.Num? && b.v != 0.0 then Num(v / b.v) else NaN
    }

    /** Ordered comparisons are false whenever either side is NaN. */
    predicate Gt(b: Double) {
      Num? && b.Num? && v > b.v
    }

    predicate Lt(b: Double) {
      Num? && b.Num? && v < b.v
    }
  }

  predicate NoNaN(s: seq<Double>) {
    forall k :: 0 <= k < |s| ==> s[k].Num?
  }

  lemma AppendAssoc<T>(a: seq<T>, b: seq<T>, c: seq<T>)
    ensures a + (b + c) == (a + b) + c
  {
  }

  /** Sum of a sequence of reals, accumulated front to back. */
  function Sum(s: seq<real>): real {
    if s == [] then 0.0 else Sum(s[..|s| - 1]) + s[|s| - 1]
  }

  /** A rows x cols grid of doubles, stored row by row. */
  datatype Matrix = Matrix(rows: nat, cols: nat, cells: seq<seq<Double>>) {

    predicate Valid() {
      |cells| == rows && forall r :: 0 <= r < rows ==> |cells[r]| == cols
    }

    /** Column c, top to bottom. */
    function Col(c: nat): (v: seq<Double>)
      requires Valid() && c < cols
      ensures |v| == rows
      ensures forall r :: 0 <= r < rows ==> v[r] == cells[r][c]
    {
      seq(rows, r requires 0 <= r < rows => cells[r][c])
    }

    /** (r, c) addresses a stored cell. */
    predicate Has(r: int, c: int) {
      0 <= r < |cells| && 0 <= c < |cells[r]|
    }

    /** The same grid with cell (r, c) replaced by x. */
    function Set(r: int, c: int, x: Double): (m: Matrix)
      requires Has(r, c)
      ensures m.SameShape(this)
      ensures m.cells[r][c] == x
      ensures forall j :: 0 <= j < |cells[r]| && j != c ==> m.cells[r][j] == cells[r][j]
      ensures forall i :: 0 <= i < |cells| && i != r ==> m.cells[i] == cells[i]
    {
      Matrix(rows, cols, cells[r := cells[r][c := x]])
    }

    /** The same declared size and the same stored row lengths. */
    predicate SameShape(other: Matrix) {
      rows == other.rows && cols == other.cols && |cells| == |other.cells|
      && forall r :: 0 <= r < |cells| ==> |cells[r]| == |other.cells[r]|
    }
  }

  /** Grids of one shape are valid together. */
  lemma SameShapeValid(a: Matrix, b: Matrix)
    requires a.SameShape(b)
    ensures a.Valid() <==> b.Valid()
  {
  }

  /** A rows x cols grid in which every cell is 0.0. */
  function Zero(rows: nat, cols: nat): (m: Matrix)
    ensures m.Valid() && m.rows == rows && m.cols == cols
    ensures forall r, c :: 0 <= r < rows && 0 <= c < cols ==> m.cells[r][c] == Num(0.0)
  {
    Matrix(rows, cols, seq(rows, _ => seq(cols, _ => Num(0.0))))
  }
}
