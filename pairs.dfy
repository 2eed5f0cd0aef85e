/**
  The column-pair enumeration shared by the Kendall counter and both pair
  scanners: the nested loops `for i in 0..n, for j in i+1..n`, and the two
  things those loops do with each pair, keeping a record for it or counting it.
*/
module Pairs {
  import opened Values

  type Pair = (nat, nat)

  /** The pairs (i, j) the inner loop visits before reaching j == hi. */
  function RowPairs(i: nat, hi: nat): (ps: seq<Pair>)
    decreases hi
    ensures |ps| == if hi > i + 1 then hi - i - 1 else 0
    ensures forall k :: 0 <= k < |ps| ==> ps[k] == (i, i + 1 + k)
  {
    if hi <= i + 1 then [] else RowPairs(i, hi - 1) + [(i, hi - 1)]
  }

  /** The pairs the outer loop has finished once it reaches i == rows. */
  function RowsBefore(n: nat, rows: nat): seq<Pair> {
    if rows == 0 then [] else RowsBefore(n, rows - 1) + RowPairs(rows - 1, n)
  }

  /** Every pair i < j < n, in the order the nested loops visit them. */
  function IndexPairs(n: nat): seq<Pair> {
    RowsBefore(n, n)
  }

  /** Lexicographic order on pairs. */
  predicate LexLess(p: Pair, q: Pair) {
    p.0 < q.0 || (p.0 == q.0 && p.1 < q.1)
  }

  lemma {:induction false} RowsBeforeMembers(n: nat, rows: nat)
    ensures forall p :: p in RowsBefore(n, rows) <==> p.0 < rows && p.0 < p.1 < n
  {
    if rows > 0 {
      RowsBeforeMembers(n, rows - 1);
      var row := RowPairs(rows - 1, n);
      forall p: Pair | p.0 == rows - 1 && p.0 < p.1 < n ensures p in row {
        assert row[p.1 - rows] == p;
      }
    }
  }

  /** The nested loops visit exactly the pairs i < j < n. */
  lemma IndexPairsExactly(n: nat)
    ensures forall p :: p in IndexPairs(n) <==> p.0 < p.1 < n
  {
    RowsBeforeMembers(n, n);
  }

  lemma {:induction false} RowsBeforeLength(n: nat, rows: nat)
    requires rows <= n
    ensures 2 * |RowsBefore(n, rows)| == rows * (2 * n - rows - 1)
  {
    if rows > 0 {
      RowsBeforeLength(n, rows - 1);
      assert |RowPairs(rows - 1, n)| == n - rows;
      StepArith(n, rows);
    }
  }

  lemma StepArith(n: int, r: int)
    ensures (r - 1) * (2 * n - r) + 2 * (n - r) == r * (2 * n - r - 1)
  {
    assert (r - 1) * (2 * n - r) == r * (2 * n - r) - (2 * n - r);
    assert r * (2 * n - r - 1) == r * (2 * n - r) - r;
  }

  /** The nested loops visit n(n-1)/2 pairs. */
  lemma IndexPairsLength(n: nat)
    ensures |IndexPairs(n)| == n * (n - 1) / 2
  {
    RowsBeforeLength(n, n);
  }

  /** Strictly increasing in lexicographic order. */
  predicate Sorted(ps: seq<Pair>) {
    forall a, b :: 0 <= a < b < |ps| ==> LexLess(ps[a], ps[b])
  }

  lemma SortedConcat(front: seq<Pair>, back: seq<Pair>)
    requires Sorted(front) && Sorted(back)
    requires forall p, q :: p in front && q in back ==> LexLess(p, q)
    ensures Sorted(front + back)
  {
    var all := front + back;
    forall a, b | 0 <= a < b < |all| ensures LexLess(all[a], all[b]) {
      if b < |front| {
        assert all[a] == front[a] && all[b] == front[b];
      } else if a >= |front| {
        assert all[a] == back[a - |front|] && all[b] == back[b - |front|];
      } else {
        assert all[a] == front[a] && all[b] == back[b - |front|];
        assert front[a] in front && back[b - |front|] in back;
      }
    }
  }

  lemma {:induction false} RowsBeforeSorted(n: nat, rows: nat)
    ensures Sorted(RowsBefore(n, rows))
  {
    if rows > 0 {
      var front := RowsBefore(n, rows - 1);
      var row := RowPairs(rows - 1, n);
      RowsBeforeSorted(n, rows - 1);
      RowSorted(rows - 1, n);
      RowAfterEarlierRows(n, rows - 1);
      SortedConcat(front, row);
      assert RowsBefore(n, rows) == front + row;
    }
  }

  lemma RowSorted(i: nat, hi: nat)
    ensures Sorted(RowPairs(i, hi))
  {
  }

  /** Every pair of row i comes after the pairs of the rows before it. */
  lemma RowAfterEarlierRows(n: nat, i: nat)
    ensures forall p, q :: p in RowsBefore(n, i) && q in RowPairs(i, n) ==> LexLess(p, q)
  {
    RowsBeforeMembers(n, i);
    var row := RowPairs(i, n);
    forall p, q | p in RowsBefore(n, i) && q in row ensures LexLess(p, q) {
      var k :| 0 <= k < |row| && row[k] == q;
    }
  }

  /** The nested loops visit the pairs in strictly increasing lexicographic
      order, so no pair is visited twice. */
  lemma IndexPairsSorted(n: nat)
    ensures Sorted(IndexPairs(n))
  {
    RowsBeforeSorted(n, n);
  }

  // ------------------------------------------------------------ keeping

  function Opt<T>(o: Option<T>): seq<T> {
    if o.Some? then [o.value] else []
  }

  /** What a loop that appends f(x) for each x with f(x) != None collects. */
  function Keep<A, T>(xs: seq<A>, f: A -> Option<T>): seq<T> {
    if xs == [] then [] else Keep(xs[..|xs| - 1], f) + Opt(f(xs[|xs| - 1]))
  }

  lemma KeepSnoc<A, T>(xs: seq<A>, x: A, f: A -> Option<T>)
    ensures Keep(xs + [x], f) == Keep(xs, f) + Opt(f(x))
  {
    assert (xs + [x])[..|xs|] == xs;
  }

  lemma {:induction false} KeepAppend<A, T>(xs: seq<A>, ys: seq<A>, f: A -> Option<T>)
    ensures Keep(xs + ys, f) == Keep(xs, f) + Keep(ys, f)
    decreases |ys|
  {
    if ys != [] {
      var init := ys[..|ys| - 1];
      var last := ys[|ys| - 1];
      assert ys == init + [last];
      AppendAssoc(xs, init, [last]);
      KeepSnoc(xs + init, last, f);
      KeepAppend(xs, init, f);
      KeepSnoc(init, last, f);
      AppendAssoc(Keep(xs, f), Keep(init, f), Opt(f(last)));
    } else {
      assert xs + ys == xs;
    }
  }

  /** At most one record per element. */
  lemma {:induction false} KeepLength<A, T>(xs: seq<A>, f: A -> Option<T>)
    ensures |Keep(xs, f)| <= |xs|
  {
    if xs != [] {
      KeepLength(xs[..|xs| - 1], f);
    }
  }

  /** The records kept, each with the position of the element it came from:
      positions strictly increase, so records keep the elements' order. */
  lemma {:induction false} KeepOrigins<A, T>(xs: seq<A>, f: A -> Option<T>) returns (pos: seq<nat>)
    ensures |pos| == |Keep(xs, f)|
    ensures forall k :: 0 <= k < |pos| ==> pos[k] < |xs| && f(xs[pos[k]]) == Some(Keep(xs, f)[k])
    ensures forall a, b :: 0 <= a < b < |pos| ==> pos[a] < pos[b]
  {
    if xs == [] {
      pos := [];
    } else {
      var init := xs[..|xs| - 1];
      var p := KeepOrigins(init, f);
      assert forall k :: 0 <= k < |init| ==> xs[k] == init[k];
      if f(xs[|xs| - 1]).Some? {
        pos := p + [|xs| - 1];
      } else {
        pos := p;
      }
    }
  }

  /** A record is kept exactly when some element produces it. */
  lemma KeepMembers<A, T>(xs: seq<A>, f: A -> Option<T>, t: T)
    ensures t in Keep(xs, f) <==> exists k :: 0 <= k < |xs| && f(xs[k]) == Some(t)
  {
    var pos := KeepOrigins(xs, f);
    if t in Keep(xs, f) {
      var k :| 0 <= k < |Keep(xs, f)| && Keep(xs, f)[k] == t;
      assert f(xs[pos[k]]) == Some(t);
    }
    if k :| 0 <= k < |xs| && f(xs[k]) == Some(t) {
      KeepContains(xs, f, k);
    }
  }

  lemma {:induction false} KeepContains<A, T>(xs: seq<A>, f: A -> Option<T>, k: nat)
    requires k < |xs| && f(xs[k]).Some?
    ensures f(xs[k]).value in Keep(xs, f)
  {
    var init := xs[..|xs| - 1];
    if k < |xs| - 1 {
      assert xs[k] == init[k];
      KeepContains(init, f, k);
    }
  }

  // ------------------------------------------------------------ counting

  /** What a loop that increments a counter for each x satisfying p counts. */
  function CountIf<A>(xs: seq<A>, p: A -> bool): nat {
    if xs == [] then 0 else CountIf(xs[..|xs| - 1], p) + (if p(xs[|xs| - 1]) then 1 else 0)
  }

  lemma CountIfSnoc<A>(xs: seq<A>, x: A, p: A -> bool)
    ensures CountIf(xs + [x], p) == CountIf(xs, p) + (if p(x) then 1 else 0)
  {
    assert (xs + [x])[..|xs|] == xs;
  }

  lemma {:induction false} CountIfAppend<A>(xs: seq<A>, ys: seq<A>, p: A -> bool)
    ensures CountIf(xs + ys, p) == CountIf(xs, p) + CountIf(ys, p)
    decreases |ys|
  {
    if ys != [] {
      var init := ys[..|ys| - 1];
      var last := ys[|ys| - 1];
      assert ys == init + [last];
      AppendAssoc(xs, init, [last]);
      CountIfSnoc(xs + init, last, p);
      CountIfAppend(xs, init, p);
      CountIfSnoc(init, last, p);
    } else {
      assert xs + ys == xs;
    }
  }

  /** A count never exceeds the number of elements. */
  lemma {:induction false} CountIfBound<A>(xs: seq<A>, p: A -> bool)
    ensures CountIf(xs, p) <= |xs|
  {
    if xs != [] {
      CountIfBound(xs[..|xs| - 1], p);
    }
  }

  /** Two exclusive tests count no more than the elements there are, and
      together with the elements passing neither they count all of them. */
  lemma {:induction false} CountIfExclusive<A>(xs: seq<A>, p: A -> bool, q: A -> bool, r: A -> bool)
    requires forall x :: !(p(x) && q(x))
    requires forall x :: r(x) <==> !p(x) && !q(x)
    ensures CountIf(xs, p) + CountIf(xs, q) + CountIf(xs, r) == |xs|
  {
    if xs != [] {
      CountIfExclusive(xs[..|xs| - 1], p, q, r);
    }
  }

  /** A test that holds of every element counts them all; one that holds of
      none counts nothing. */
  lemma {:induction false} CountIfAll<A>(xs: seq<A>, p: A -> bool)
    ensures (forall k :: 0 <= k < |xs| ==> p(xs[k])) ==> CountIf(xs, p) == |xs|
    ensures (forall k :: 0 <= k < |xs| ==> !p(xs[k])) ==> CountIf(xs, p) == 0
  {
    if xs != [] {
      var init := xs[..|xs| - 1];
      assert forall k :: 0 <= k < |init| ==> init[k] == xs[k];
      CountIfAll(init, p);
    }
  }

  /** Tests that agree on every element count the same. */
  lemma {:induction false} CountIfSame<A>(xs: seq<A>, p: A -> bool, q: A -> bool)
    requires forall k :: 0 <= k < |xs| ==> (p(xs[k]) <==> q(xs[k]))
    ensures CountIf(xs, p) == CountIf(xs, q)
  {
    if xs != [] {
      var init := xs[..|xs| - 1];
      assert forall k :: 0 <= k < |init| ==> init[k] == xs[k];
      CountIfSame(init, p, q);
    }
  }
}
