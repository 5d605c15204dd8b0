/** `gaussian_elimination` of mathlib.c over exact reals: a linear system of `n` equations as
    `n` rows of `n + 1` numbers, the last one the right-hand side. */
module Gaussian {
  import Sequences

  type Row = seq<real>

  /** `row[k] * x[k] + ...` over the unknowns from `k` on. */
  ghost function Tail(row: Row, x: seq<real>, k: nat): real
    requires k <= |x| <= |row|
    decreases |x| - k
  {
    if k == |x| then 0.0 else row[k] * x[k] + Tail(row, x, k + 1)
  }

  ghost predicate Square(m: seq<Row>) {
    forall r | 0 <= r < |m| :: |m[r]| == |m| + 1
  }

  ghost predicate Meets(row: Row, x: seq<real>)
    requires |row| == |x| + 1
  {
    Tail(row, x, 0) == row[|x|]
  }

  ghost predicate Solves(m: seq<Row>, x: seq<real>)
    requires Square(m)
  {
    |x| == |m| && forall r | 0 <= r < |m| :: Meets(m[r], x)
  }

  ghost predicate Unique(m: seq<Row>, x: seq<real>)
    requires Square(m)
  {
    Solves(m, x) && forall y | Solves(m, y) :: y == x
  }

  /** Two systems with the same solutions. */
  ghost predicate Equivalent(m: seq<Row>, m': seq<Row>) {
    Square(m) && Square(m') && |m| == |m'| && forall x :: Solves(m, x) <==> Solves(m', x)
  }

  /** `t` times `row` minus `pivot`. */
  ghost function Reduced(row: Row, pivot: Row, t: real): Row
    requires |row| == |pivot|
  {
    seq(|row|, c requires 0 <= c < |row| => row[c] * t - pivot[c])
  }

  /** The columns before `j` are zero below the diagonal. */
  ghost predicate Cleared(m: seq<Row>, j: nat)
    requires Square(m)
  {
    forall r, c | 0 <= c < r < |m| && c < j :: m[r][c] == 0.0
  }

  // ---------- row operations ----------

  lemma {:induction false} TailReduced(row: Row, pivot: Row, t: real, x: seq<real>, k: nat)
    requires |row| == |pivot| && k <= |x| <= |row|
    ensures Tail(Reduced(row, pivot, t), x, k) == t * Tail(row, x, k) - Tail(pivot, x, k)
    decreases |x| - k
  {
    if k < |x| {
      TailReduced(row, pivot, t, x, k + 1);
      var a, b, v := row[k], pivot[k], x[k];
      assert (a * t - b) * v == t * (a * v) - b * v;
    }
  }

  /** Replacing a row by a non-zero multiple of it minus another one keeps the solutions. */
  lemma ReduceKeeps(m: seq<Row>, r: nat, p: nat, t: real)
    requires Square(m) && r < |m| && p < |m| && r != p && t != 0.0
    ensures Equivalent(m, m[r := Reduced(m[r], m[p], t)])
  {
    var m' := m[r := Reduced(m[r], m[p], t)];
    forall x | |x| == |m|
      ensures Solves(m, x) <==> Solves(m', x)
    {
      TailReduced(m[r], m[p], t, x, 0);
      ReducedMeets(Tail(m[r], x, 0), m[r][|x|], Tail(m[p], x, 0), m[p][|x|], t);
      assert Meets(m[p], x) ==> (Meets(m[r], x) <==> Meets(m'[r], x));
      assert m'[p] == m[p];
      assert forall q | 0 <= q < |m| && q != r :: m'[q] == m[q];
      if Solves(m', x) {
        forall q | 0 <= q < |m|
          ensures Meets(m[q], x)
        {
          assert Meets(m'[q], x) && Meets(m'[p], x);
        }
      }
    }
  }

  lemma ReducedMeets(a: real, b: real, c: real, d: real, t: real)
    requires t != 0.0
    ensures c == d ==> (t * a - c == b * t - d <==> a == b)
  {
    assert t * a == b * t ==> a == (t * a) / t == (b * t) / t == b;
  }

  lemma SwapKeeps(m: seq<Row>, r: nat, p: nat)
    requires Square(m) && r < |m| && p < |m|
    ensures Equivalent(m, m[r := m[p]][p := m[r]])
  {
    var m' := m[r := m[p]][p := m[r]];
    assert m == m'[r := m'[p]][p := m'[r]];
    forall x | |x| == |m|
      ensures Solves(m, x) <==> Solves(m', x)
    {
      if Solves(m, x) {
        assert forall q | 0 <= q < |m| :: Meets(m'[q], x);
      }
      if Solves(m', x) {
        assert Meets(m'[r], x) && Meets(m'[p], x);
        forall q | 0 <= q < |m|
          ensures Meets(m[q], x)
        {
          assert q != r && q != p ==> m[q] == m'[q] && Meets(m'[q], x);
        }
      }
    }
  }

  // ---------- triangular systems ----------

  lemma {:induction false} TailZeros(row: Row, x: seq<real>, k: nat)
    requires k <= |x| <= |row| && forall c | 0 <= c < k :: row[c] == 0.0
    ensures Tail(row, x, 0) == Tail(row, x, k)
  {
    if k > 0 {
      TailZeros(row, x, k - 1);
    }
  }

  lemma {:induction false} TailAgrees(row: Row, x: seq<real>, y: seq<real>, k: nat)
    requires k <= |x| == |y| <= |row| && forall c | k <= c < |x| :: x[c] == y[c]
    ensures Tail(row, x, k) == Tail(row, y, k)
    decreases |x| - k
  {
    if k < |x| {
      TailAgrees(row, x, y, k + 1);
    }
  }

  ghost function Sum(x: seq<real>, y: seq<real>): seq<real>
    requires |x| == |y|
  {
    seq(|x|, c requires 0 <= c < |x| => x[c] + y[c])
  }

  lemma {:induction false} TailSum(row: Row, x: seq<real>, y: seq<real>, k: nat)
    requires k <= |x| == |y| <= |row|
    ensures Tail(row, Sum(x, y), k) == Tail(row, x, k) + Tail(row, y, k)
    decreases |x| - k
  {
    if k < |x| {
      TailSum(row, x, y, k + 1);
      assert row[k] * (x[k] + y[k]) == row[k] * x[k] + row[k] * y[k];
    }
  }

  /** A vector, not zero, that every left-hand side maps to zero. */
  ghost predicate Null(m: seq<Row>, v: seq<real>)
    requires Square(m)
  {
    |v| == |m| && (exists c :: 0 <= c < |v| && v[c] != 0.0) && forall r | 0 <= r < |m| :: Tail(m[r], v, 0) == 0.0
  }

  /** The null vector whose last entry is a one in the column of the topmost zero of the
      diagonal: the entries from `r` on. */
  lemma {:induction false} NullFrom(m: seq<Row>, k: nat, r: nat) returns (v: seq<real>)
    requires Square(m) && r <= k < |m| && Cleared(m, |m|) && m[k][k] == 0.0
    requires forall q | 0 <= q < k :: m[q][q] != 0.0
    ensures |v| == |m| && v[k] == 1.0 && (forall c | k < c < |m| :: v[c] == 0.0)
    ensures forall q | r <= q < |m| :: Tail(m[q], v, q) == 0.0
    decreases k - r
  {
    if r == k {
      v := seq(|m|, c => if c == k then 1.0 else 0.0);
      forall q | k <= q < |m|
        ensures Tail(m[q], v, q) == 0.0
      {
        TailAllZero(m[q], v, q + 1);
      }
    } else {
      var w := NullFrom(m, k, r + 1);
      var d, rest := m[r][r], Tail(m[r], w, r + 1);
      v := w[r := -rest / d];
      forall q | r <= q < |m|
        ensures Tail(m[q], v, q) == 0.0
      {
        if q == r {
          TailAgrees(m[r], w, v, r + 1);
          assert d * (-rest / d) == -rest;
        } else {
          TailAgrees(m[q], w, v, q);
        }
      }
    }
  }

  lemma {:induction false} TailAllZero(row: Row, x: seq<real>, k: nat)
    requires k <= |x| <= |row| && forall c | k <= c < |x| :: x[c] == 0.0
    ensures Tail(row, x, k) == 0.0
    decreases |x| - k
  {
    if k < |x| {
      TailAllZero(row, x, k + 1);
    }
  }

  /** A zero on the diagonal of a triangular system: some null vector. */
  lemma Singular(m: seq<Row>, k: nat) returns (v: seq<real>)
    requires Square(m) && k < |m| && Cleared(m, |m|) && m[k][k] == 0.0
    ensures Null(m, v)
  {
    var top := FirstZero(m, 0);
    v := NullFrom(m, top, 0);
    forall r | 0 <= r < |m|
      ensures Tail(m[r], v, 0) == 0.0
    {
      TailZeros(m[r], v, r);
    }
  }

  lemma {:induction false} FirstZero(m: seq<Row>, from: nat) returns (k: nat)
    requires Square(m) && exists q :: from <= q < |m| && m[q][q] == 0.0
    ensures from <= k < |m| && m[k][k] == 0.0 && forall q | from <= q < k :: m[q][q] != 0.0
    decreases |m| - from
  {
    if m[from][from] == 0.0 {
      k := from;
    } else {
      k := FirstZero(m, from + 1);
    }
  }

  /** With a null vector no solution is the only one. */
  lemma NotUnique(m: seq<Row>, v: seq<real>, x: seq<real>)
    requires Square(m) && Null(m, v) && Solves(m, x)
    ensures Solves(m, Sum(x, v)) && Sum(x, v) != x
  {
    forall r | 0 <= r < |m|
      ensures Meets(m[r], Sum(x, v))
    {
      TailSum(m[r], x, v, 0);
      assert Meets(m[r], x);
    }
    var c :| 0 <= c < |v| && v[c] != 0.0;
    assert Sum(x, v)[c] != x[c];
  }

  // ---------- the matrix in the array ----------

  /** The offset of the number in row `r` and column `c`. */
  ghost function At(n: nat, r: nat, c: nat): int {
    r * (n + 1) + c
  }

  lemma RowInside(n: nat, r: nat)
    requires r < n
    ensures 0 <= At(n, r, 0) && At(n, r, 0) + n + 1 <= n * (n + 1)
    ensures forall c: nat :: At(n, r, c) == At(n, r, 0) + c
  {
    Sequences.TimesMonotone(r + 1, n, n + 1);
    Sequences.OneMoreTimes(r, n + 1);
  }

  lemma RowsApart(n: nat, r: nat, q: nat)
    requires r < q
    ensures At(n, r, 0) + n + 1 <= At(n, q, 0)
  {
    Sequences.TimesMonotone(r + 1, q, n + 1);
    Sequences.OneMoreTimes(r, n + 1);
  }

  lemma RowAfter(n: nat, r: nat, c: nat)
    ensures At(n, r + 1, c) == At(n, r, c) + n + 1
  {
  }

  ghost function RowAt(s: seq<real>, n: nat, r: nat): (row: Row)
    requires r < n && n * (n + 1) <= |s|
    ensures |row| == n + 1
  {
    RowInside(n, r);
    s[At(n, r, 0)..At(n, r, 0) + n + 1]
  }

  /** The system in the array. */
  ghost function Rows(s: seq<real>, n: nat): (m: seq<Row>)
    requires n * (n + 1) <= |s|
    ensures |m| == n && Square(m)
  {
    seq(n, r requires 0 <= r < n => RowAt(s, n, r))
  }

  lemma Entry(s: seq<real>, n: nat, r: nat, c: nat)
    requires r < n && c <= n && n * (n + 1) <= |s|
    ensures 0 <= At(n, r, c) < |s| && s[At(n, r, c)] == Rows(s, n)[r][c]
  {
    RowInside(n, r);
  }

  /** Outside rows `r` and `q` nothing changes. */
  lemma RowsChanged(s: seq<real>, s': seq<real>, n: nat, r: nat, q: nat)
    requires r < n && q < n && n * (n + 1) <= |s| == |s'|
    requires forall k | 0 <= k < |s| && !(At(n, r, 0) <= k < At(n, r, 0) + n + 1)
               && !(At(n, q, 0) <= k < At(n, q, 0) + n + 1) ::
               s'[k] == s[k]
    ensures Rows(s', n) == Rows(s, n)[r := RowAt(s', n, r)][q := RowAt(s', n, q)]
  {
    hide At;
    forall l | 0 <= l < n && l != r && l != q
      ensures RowAt(s', n, l) == RowAt(s, n, l)
    {
      RowInside(n, l);
      RowsApart(n, if l < r then l else r, if l < r then r else l);
      RowsApart(n, if l < q then l else q, if l < q then q else l);
    }
  }

  function Abs(x: real): real {
    if x < 0.0 then -x else x
  }

  /** Row `p` is the last row whose entry in column `j` beats that of row `j`, or row `j`. */
  ghost predicate Chosen(m: seq<Row>, j: nat, p: nat) {
    && Square(m) && j <= p < |m|
    && (p == j || Abs(m[p][j]) > Abs(m[j][j]))
    && forall r | p < r < |m| :: Abs(m[r][j]) <= Abs(m[j][j])
  }

  /** Entry `p` has the greatest absolute value among the candidates of column `j`. */
  ghost predicate Greatest(m: seq<Row>, j: nat, p: nat) {
    && Square(m) && j <= p < |m|
    && forall r | j <= r < |m| :: Abs(m[r][j]) <= Abs(m[p][j])
  }

  lemma ChosenOnce(m: seq<Row>, j: nat, p: nat, q: nat)
    requires Chosen(m, j, p) && Chosen(m, j, q)
    ensures p == q
  {
  }

  /** The comment at mathlib.c:53-54 takes the chosen row for the one with the greatest entry;
      that is right if and only if no row before it has a greater one. */
  lemma PivotGreatest(m: seq<Row>, j: nat, p: nat)
    requires Chosen(m, j, p)
    ensures Greatest(m, j, p) <==> forall r | j < r < p :: Abs(m[r][j]) <= Abs(m[p][j])
  {
  }

  /** Of a column 1, 3, 2 the 2 is chosen. */
  lemma PivotNotGreatest(p: nat)
    requires Chosen(OneThreeTwo(), 0, p)
    ensures OneThreeTwo()[p][0] == 2.0 && !Greatest(OneThreeTwo(), 0, p) && Greatest(OneThreeTwo(), 0, 1)
  {
    var m := OneThreeTwo();
    ChosenOnce(m, 0, p, 2);
    assert Abs(m[1][0]) > Abs(m[2][0]);
  }

  ghost function OneThreeTwo(): seq<Row> {
    [[1.0, 0.0, 0.0, 0.0], [3.0, 1.0, 0.0, 0.0], [2.0, 0.0, 1.0, 0.0]]
  }

  /** mathlib.c:48-61: the row whose entry in column `j` is to become the pivot. The comparison
      is with the entry of row `j` throughout. */
  method FindPivot(matrix: array<real>, n: nat, j: nat) returns (p: nat)
    requires n * (n + 1) <= matrix.Length && j < n
    ensures j <= p < n && Chosen(Rows(matrix[..], n), j, p)
  {
    p := j;
    var columns := n + 1;
    var offset := j * columns + j;
    assert offset == At(n, j, j);
    hide *;
    ghost var m := Rows(matrix[..], n);
    Entry(matrix[..], n, j, j);
    var element := Abs(matrix[offset]);
    var r := j + 1;
    RowAfter(n, j, j);
    offset := offset + columns;
    while r < n
      invariant j < r <= n && offset == At(n, r, j) && j <= p < r
      invariant element == Abs(m[j][j]) && (p == j || Abs(m[p][j]) > element)
      invariant forall q | p < q < r :: Abs(m[q][j]) <= element
    {
      Entry(matrix[..], n, r, j);
      if Abs(matrix[offset]) > element {
        p := r;
      }
      RowAfter(n, r, j);
      r, offset := r + 1, offset + columns;
    }
    ChosenIs(m, j, p);
  }

  lemma ChosenIs(m: seq<Row>, j: nat, p: nat)
    requires Square(m) && j <= p < |m| && (p == j || Abs(m[p][j]) > Abs(m[j][j]))
    requires forall r | p < r < |m| :: Abs(m[r][j]) <= Abs(m[j][j])
    ensures Chosen(m, j, p)
  {
  }

  /** The pivot is zero only if the whole column is. */
  lemma PivotNonzero(m: seq<Row>, j: nat, p: nat)
    requires Chosen(m, j, p)
    ensures m[p][j] == 0.0 ==> p == j && forall r | j <= r < |m| :: m[r][j] == 0.0
  {
  }

  /** mathlib.c:65-70. */
  method SwapSpans(matrix: array<real>, from: nat, to: nat, count: nat)
    requires from + count <= to && to + count <= matrix.Length
    modifies matrix
    ensures SpansSwapped(old(matrix[..]), matrix[..], from, to, count)
  {
    var i := 0;
    while i < count
      invariant i <= count && SpansSwapped(old(matrix[..]), matrix[..], from, to, i)
    {
      matrix[from + i], matrix[to + i] := matrix[to + i], matrix[from + i];
      i := i + 1;
    }
  }

  ghost predicate SpansSwapped(s: seq<real>, s': seq<real>, from: nat, to: nat, count: nat) {
    && |s'| == |s| && from + count <= to && to + count <= |s|
    && (forall k | 0 <= k < |s| && !(from <= k < from + count) && !(to <= k < to + count) :: s'[k] == s[k])
    && (forall k | from <= k < from + count :: s'[k] == s[k + (to - from)])
    && (forall k | to <= k < to + count :: s'[k] == s[k - (to - from)])
  }

  /** mathlib.c:64-71: the columns before `j`, zero in both rows, stay where they are. */
  method SwapRows(matrix: array<real>, n: nat, j: nat, p: nat)
    requires n * (n + 1) <= matrix.Length && j < p < n
    requires forall c | 0 <= c < j :: Rows(matrix[..], n)[j][c] == Rows(matrix[..], n)[p][c] == 0.0
    modifies matrix
    ensures var m := old(Rows(matrix[..], n)); Rows(matrix[..], n) == m[j := m[p]][p := m[j]]
  {
    ghost var s := matrix[..];
    RowInside(n, j);
    RowInside(n, p);
    RowsApart(n, j, p);
    SwapSpans(matrix, j * (n + 1) + j, p * (n + 1) + j, n + 1 - j);
    Swapped(s, matrix[..], n, j, p);
  }

  lemma Swapped(s: seq<real>, s': seq<real>, n: nat, j: nat, p: nat)
    requires j < p < n && n * (n + 1) <= |s|
    requires forall c | 0 <= c < j :: Rows(s, n)[j][c] == Rows(s, n)[p][c] == 0.0
    requires At(n, j, j) >= 0 && At(n, p, j) >= 0 && SpansSwapped(s, s', At(n, j, j), At(n, p, j), n + 1 - j)
    ensures var m := Rows(s, n); Rows(s', n) == m[j := m[p]][p := m[j]]
  {
    RowsApart(n, j, p);
    RowInside(n, j);
    RowInside(n, p);
    RowStarts(n, j, j);
    RowStarts(n, p, j);
    hide *;
    ZerosBefore(s, n, j, p);
    SwappedSpans(s, s', At(n, j, 0), At(n, p, 0), j, n + 1);
    RowsChanged(s, s', n, j, p);
  }

  lemma RowStarts(n: nat, r: nat, c: nat)
    ensures At(n, r, c) == At(n, r, 0) + c
  {
  }

  lemma ZerosBefore(s: seq<real>, n: nat, j: nat, p: nat)
    requires j < p < n && n * (n + 1) <= |s|
    requires forall c | 0 <= c < j :: Rows(s, n)[j][c] == Rows(s, n)[p][c] == 0.0
    ensures var from, to := At(n, j, 0), At(n, p, 0);
            && 0 <= from && from + n + 1 <= to && to + n + 1 <= |s|
            && forall k | from <= k < from + j :: s[k] == s[k + (to - from)]
  {
    RowInside(n, j);
    RowInside(n, p);
    RowsApart(n, j, p);
    hide At;
    var from, to, m := At(n, j, 0), At(n, p, 0), Rows(s, n);
    forall k | from <= k < from + j
      ensures s[k] == s[k + (to - from)]
    {
      assert m[j][k - from] == m[p][k - from];
    }
  }

  lemma SwappedSpans(s: seq<real>, s': seq<real>, from: nat, to: nat, j: nat, width: nat)
    requires j <= width && SpansSwapped(s, s', from + j, to + j, width - j) && from + width <= to
    requires forall k | from <= k < from + j :: s[k] == s[k + (to - from)]
    ensures s'[from..from + width] == s[to..to + width] && s'[to..to + width] == s[from..from + width]
  {
    assert forall k | to <= k < to + j :: s'[k] == s[k] && s[k - (to - from)] == s[k];
  }

  /** mathlib.c:80-85, at offsets. */
  method ReduceSpan(matrix: array<real>, current: nat, next: nat, count: nat)
    requires 0 < count && current + count <= next && next + count <= matrix.Length && matrix[next] != 0.0
    modifies matrix
    ensures SpanReduced(old(matrix[..]), matrix[..], current, next, count, old(matrix[current] / matrix[next]))
  {
    var temp := matrix[current] / matrix[next];
    matrix[next] := 0.0;
    var i := 1;
    while i < count
      invariant 1 <= i <= count && SpanReduced(old(matrix[..]), matrix[..], current, next, i, temp)
    {
      matrix[next + i] := matrix[next + i] * temp - matrix[current + i];
      i := i + 1;
    }
  }

  ghost predicate SpanReduced(s: seq<real>, s': seq<real>, current: nat, next: nat, count: nat, t: real) {
    && 0 < count && |s'| == |s| && current + count <= next && next + count <= |s|
    && (forall k | 0 <= k < |s| && !(next <= k < next + count) :: s'[k] == s[k])
    && s'[next] == 0.0
    && (forall k | next < k < next + count :: s'[k] == s[k] * t - s[k - (next - current)])
  }

  /** mathlib.c:80-85: row `r` becomes a multiple of itself minus row `j`. */
  method ReduceRow(matrix: array<real>, n: nat, j: nat, r: nat)
    requires n * (n + 1) <= matrix.Length && j < r < n
    requires forall c | 0 <= c < j :: Rows(matrix[..], n)[j][c] == Rows(matrix[..], n)[r][c] == 0.0
    requires Rows(matrix[..], n)[r][j] != 0.0
    modifies matrix
    ensures var m := old(Rows(matrix[..], n));
            Rows(matrix[..], n) == m[r := Reduced(m[r], m[j], m[j][j] / m[r][j])]
  {
    ghost var s := matrix[..];
    RowInside(n, j);
    RowInside(n, r);
    RowsApart(n, j, r);
    Entry(s, n, j, j);
    Entry(s, n, r, j);
    ReduceSpan(matrix, j * (n + 1) + j, r * (n + 1) + j, n + 1 - j);
    RowReduced(s, matrix[..], n, j, r);
  }

  lemma RowReduced(s: seq<real>, s': seq<real>, n: nat, j: nat, r: nat)
    requires j < r < n && n * (n + 1) <= |s|
    requires forall c | 0 <= c < j :: Rows(s, n)[j][c] == Rows(s, n)[r][c] == 0.0
    requires At(n, j, j) >= 0 && At(n, r, j) >= 0 && Rows(s, n)[r][j] != 0.0
    requires SpanReduced(s, s', At(n, j, j), At(n, r, j), n + 1 - j, Rows(s, n)[j][j] / Rows(s, n)[r][j])
    ensures var m := Rows(s, n); Rows(s', n) == m[r := Reduced(m[r], m[j], m[j][j] / m[r][j])]
  {
    hide At;
    RowInside(n, j);
    RowInside(n, r);
    RowsApart(n, j, r);
    var m := Rows(s, n);
    ReducedSpan(s, s', At(n, j, 0), At(n, r, 0), j, n + 1, m[j], m[r]);
    RowsChanged(s, s', n, r, r);
  }

  lemma ReducedSpan(s: seq<real>, s': seq<real>, current: nat, next: nat, j: nat, width: nat, pivot: Row, row: Row)
    requires j < width && current + width <= next && next + width <= |s|
    requires pivot == s[current..current + width] && row == s[next..next + width] && row[j] != 0.0
    requires SpanReduced(s, s', current + j, next + j, width - j, pivot[j] / row[j])
    requires forall c | 0 <= c < j :: pivot[c] == row[c] == 0.0
    ensures s'[next..next + width] == Reduced(row, pivot, pivot[j] / row[j])
  {
    var t := pivot[j] / row[j];
    var got := s'[next..next + width];
    forall c | 0 <= c < width
      ensures got[c] == Reduced(row, pivot, t)[c]
    {
      assert got[c] == s'[next + c];
      assert row[c] == s[next + c] && pivot[c] == s[current + c] && s[current + c] == s[next + c - (next - current)];
    }
  }

  // ---------- the whole elimination ----------

  /** One step of the elimination clears the entry below the pivot. */
  lemma ReduceClears(m: seq<Row>, j: nat, r: nat)
    requires Square(m) && j < r < |m| && Cleared(m, j) && m[r][j] != 0.0 && m[j][j] != 0.0
    ensures var m' := m[r := Reduced(m[r], m[j], m[j][j] / m[r][j])];
            && Square(m') && Cleared(m', j) && m'[r][j] == 0.0 && Equivalent(m, m')
  {
    var a, b := m[r][j], m[j][j];
    Quotient(a, b / a, b);
    ReduceKeeps(m, r, j, b / a);
    var m' := m[r := Reduced(m[r], m[j], b / a)];
    forall c | 0 <= c < j
      ensures m'[r][c] == 0.0
    {
      assert m[r][c] == m[j][c] == 0.0;
    }
  }

  /** mathlib.c:48-71: the chosen row becomes row `j`. */
  method MovePivot(matrix: array<real>, n: nat, j: nat)
    requires n * (n + 1) <= matrix.Length && j < n && Cleared(Rows(matrix[..], n), j)
    modifies matrix
    ensures PivotIn(old(Rows(matrix[..], n)), Rows(matrix[..], n), j)
  {
    ghost var m := Rows(matrix[..], n);
    var p := FindPivot(matrix, n, j);
    if p != j {
      ClearedRows(m, j, p);
      SwapRows(matrix, n, j, p);
    }
    hide *;
    PivotMoved(m, j, p);
    assert p == j ==> m[j := m[p]][p := m[j]] == m;
  }

  /** Row `j` has a pivot; if that is zero, there is nothing to clear. */
  ghost predicate PivotIn(m0: seq<Row>, m: seq<Row>, j: nat) {
    && Square(m) && j < |m| && Cleared(m, j) && Equivalent(m0, m)
    && (m[j][j] == 0.0 ==> forall q | j < q < |m| :: m[q][j] == 0.0)
  }

  lemma ClearedRows(m: seq<Row>, j: nat, p: nat)
    requires Square(m) && Cleared(m, j) && j < p < |m|
    ensures forall c | 0 <= c < j :: m[j][c] == m[p][c] == 0.0
  {
  }

  lemma PivotMoved(m: seq<Row>, j: nat, p: nat)
    requires Chosen(m, j, p) && Cleared(m, j)
    ensures PivotIn(m, m[j := m[p]][p := m[j]], j)
  {
    PivotNonzero(m, j, p);
    SwapKeeps(m, j, p);
    hide Equivalent;
    var m' := m[j := m[p]][p := m[j]];
    forall r, c | 0 <= c < r < |m'| && c < j
      ensures m'[r][c] == 0.0
    {
      assert m[r][c] == 0.0;
    }
  }

  /** mathlib.c:75-85: the entry in row `r` below the pivot is cleared. */
  method ClearRow(matrix: array<real>, n: nat, j: nat, r: nat, ghost m0: seq<Row>)
    requires n * (n + 1) <= matrix.Length && j < r < n && PivotIn(m0, Rows(matrix[..], n), j)
    modifies matrix
    ensures var m := Rows(matrix[..], n);
            && PivotIn(m0, m, j) && m[r][j] == 0.0
            && forall q | 0 <= q < n && q != r :: m[q] == old(Rows(matrix[..], n))[q]
  {
    ghost var m := Rows(matrix[..], n);
    Entry(matrix[..], n, r, j);
    if matrix[r * (n + 1) + j] != 0.0 {
      RowReduces(m0, m, j, r);
      ClearedRows(m, j, r);
      hide *;
      ReduceRow(matrix, n, j, r);
    }
  }

  lemma RowReduces(m0: seq<Row>, m: seq<Row>, j: nat, r: nat)
    requires PivotIn(m0, m, j) && j < r < |m| && m[r][j] != 0.0
    ensures var m' := m[r := Reduced(m[r], m[j], m[j][j] / m[r][j])]; PivotIn(m0, m', j) && m'[r][j] == 0.0
  {
    ReduceClears(m, j, r);
    var m' := m[r := Reduced(m[r], m[j], m[j][j] / m[r][j])];
    assert m'[j] == m[j];
  }

  /** mathlib.c:48-86: clears column `j` below the diagonal. */
  method ClearColumn(matrix: array<real>, n: nat, j: nat)
    requires n * (n + 1) <= matrix.Length && j < n && Cleared(Rows(matrix[..], n), j)
    modifies matrix
    ensures Cleared(Rows(matrix[..], n), j + 1) && Equivalent(old(Rows(matrix[..], n)), Rows(matrix[..], n))
  {
    hide PivotIn, Cleared, Equivalent, Rows;
    ghost var m0 := Rows(matrix[..], n);
    MovePivot(matrix, n, j);
    var r := j + 1;
    while r < n
      invariant j < r <= n && PivotIn(m0, Rows(matrix[..], n), j)
      invariant forall q | j < q < r :: Rows(matrix[..], n)[q][j] == 0.0
    {
      ClearRow(matrix, n, j, r, m0);
      r := r + 1;
    }
    ColumnCleared(m0, Rows(matrix[..], n), j);
  }

  lemma ColumnCleared(m0: seq<Row>, m: seq<Row>, j: nat)
    requires PivotIn(m0, m, j) && forall q | j < q < |m| :: m[q][j] == 0.0
    ensures Cleared(m, j + 1) && Equivalent(m0, m)
  {
  }

  /** mathlib.c:47-88: the matrix becomes triangular and keeps its solutions. */
  method Triangulate(matrix: array<real>, n: nat)
    requires n * (n + 1) <= matrix.Length
    modifies matrix
    ensures var m := Rows(matrix[..], n); Cleared(m, n) && Equivalent(old(Rows(matrix[..], n)), m)
  {
    ghost var m0 := Rows(matrix[..], n);
    var j := 0;
    while j < n
      invariant j <= n && Cleared(Rows(matrix[..], n), j) && Equivalent(m0, Rows(matrix[..], n))
    {
      ClearColumn(matrix, n, j);
      j := j + 1;
    }
  }

  /** `y` meets the rows from `j` on of a triangular system. */
  ghost predicate SolvesFrom(m: seq<Row>, y: seq<real>, j: nat)
    requires Square(m) && |y| == |m|
  {
    forall r | j <= r < |m| :: Tail(m[r], y, r) == m[r][|m|]
  }

  /** From column `j` on `x` is the only solution. */
  ghost predicate UniqueFrom(m: seq<Row>, x: seq<real>, j: nat)
    requires Square(m) && |x| == |m| && j <= |m|
  {
    && SolvesFrom(m, x, j)
    && forall y | |y| == |m| && SolvesFrom(m, y, j) :: y[j..] == x[j..]
  }

  lemma Triangular(m: seq<Row>, x: seq<real>)
    requires Square(m) && Cleared(m, |m|) && |x| == |m|
    ensures Solves(m, x) <==> SolvesFrom(m, x, 0)
  {
    forall r | 0 <= r < |m|
      ensures Meets(m[r], x) <==> Tail(m[r], x, r) == m[r][|m|]
    {
      TailZeros(m[r], x, r);
    }
  }

  /** `value` is what the row says of unknown `j`, given the later ones in `x`. */
  ghost predicate Determines(row: Row, x: seq<real>, j: nat, value: real)
    requires j < |x| && |row| == |x| + 1
  {
    row[j] * value + Tail(row, x, j + 1) == row[|x|]
  }

  /** One step of the back substitution determines one more unknown. */
  lemma OneMoreUnknown(m: seq<Row>, x: seq<real>, j: nat, value: real)
    requires Square(m) && j < |m| == |x| && m[j][j] != 0.0 && UniqueFrom(m, x, j + 1) && Determines(m[j], x, j, value)
    ensures UniqueFrom(m, x[j := value], j)
  {
    var x' := x[j := value];
    hide Determines, Tail;
    KeepsLater(m, x, x', j);
    DeterminedFits(m[j], x, j, value);
    forall y | |y| == |m| && SolvesFrom(m, y, j)
      ensures y[j..] == x'[j..]
    {
      assert SolvesFrom(m, y, j + 1);
      LaterAgree(x, y, j + 1);
      DeterminedIs(m[j], x, y, j, value);
    }
  }

  lemma DeterminedFits(row: Row, x: seq<real>, j: nat, value: real)
    requires j < |x| && |row| == |x| + 1 && Determines(row, x, j, value)
    ensures Tail(row, x[j := value], j) == row[|x|]
  {
    TailAgrees(row, x, x[j := value], j + 1);
    TailStep(row, x[j := value], j);
  }

  lemma DeterminedIs(row: Row, x: seq<real>, y: seq<real>, j: nat, value: real)
    requires j < |x| == |y| && |row| == |x| + 1 && row[j] != 0.0 && Determines(row, x, j, value)
    requires Tail(row, y, j) == row[|x|] && forall c | j < c < |x| :: y[c] == x[c]
    ensures y[j] == value
  {
    hide Tail;
    TailAgrees(row, x, y, j + 1);
    TailStep(row, y, j);
    SameUnknown(row[j], y[j], value, Tail(row, x, j + 1), row[|x|]);
  }

  lemma LaterAgree(x: seq<real>, y: seq<real>, j: nat)
    requires j <= |x| == |y| && y[j..] == x[j..]
    ensures forall c | j <= c < |x| :: x[c] == y[c]
  {
    assert forall c | j <= c < |x| :: x[c] == x[j..][c - j] && y[c] == y[j..][c - j];
  }

  lemma KeepsLater(m: seq<Row>, x: seq<real>, x': seq<real>, j: nat)
    requires Square(m) && |x| == |x'| == |m| && j < |m| && SolvesFrom(m, x, j + 1)
    requires forall c | j < c < |m| :: x'[c] == x[c]
    ensures SolvesFrom(m, x', j + 1)
  {
    forall r | j < r < |m|
      ensures Tail(m[r], x', r) == m[r][|m|]
    {
      TailAgrees(m[r], x, x', r);
    }
  }

  lemma SameUnknown(d: real, v: real, w: real, t: real, b: real)
    requires d != 0.0 && t + v * d == b && d * w + t == b
    ensures v == w
  {
    Cancel(d, v, w);
  }

  lemma Cancel(d: real, v: real, w: real)
    requires d != 0.0
    ensures d * v == d * w ==> v == w
  {
    assert d * v == d * w ==> v == (d * v) / d == (d * w) / d == w;
  }

  lemma Quotient(d: real, v: real, w: real)
    requires d != 0.0
    ensures v == w / d <==> d * v == w
  {
    assert d * v == w ==> v == (d * v) / d;
  }

  lemma TailStep(row: Row, x: seq<real>, i: nat)
    requires i < |x| <= |row|
    ensures Tail(row, x, i) == Tail(row, x, i + 1) + x[i] * row[i]
  {
  }

  lemma Inside(s: seq<real>, n: nat, r: nat, offset: nat)
    requires r < n && n * (n + 1) <= |s| && offset == r * (n + 1)
    ensures offset + n < |s| && forall c | 0 <= c <= n :: s[offset + c] == Rows(s, n)[r][c]
  {
    RowInside(n, r);
  }

  /** mathlib.c:98-103. */
  method SolveRow(matrix: array<real>, res: array<real>, n: nat, j: nat, offset: nat, ghost row: Row)
    requires offset + n < matrix.Length && |row| == n + 1 && forall c | 0 <= c <= n :: matrix[offset + c] == row[c]
    requires j < n <= res.Length && res != matrix && row[j] != 0.0
    modifies res
    ensures res[..n] == old(res[..n])[j := res[j]] && Determines(row, old(res[..n]), j, res[j])
  {
    var temp := 0.0;
    var i := n - 1;
    while i > j
      invariant j <= i < n && temp == Tail(row, res[..n], i + 1) && res[..] == old(res[..])
    {
      TailStep(row, res[..n], i);
      temp := temp + res[i] * matrix[offset + i];
      i := i - 1;
    }
    res[j] := (matrix[offset + n] - temp) / matrix[offset + j];
    Quotient(row[j], res[j], row[n] - temp);
  }

  /** mathlib.c:91-104. */
  method BackSubstitute(matrix: array<real>, res: array<real>, n: nat) returns (ret: int)
    requires n * (n + 1) <= matrix.Length && n <= res.Length && res != matrix
    requires Cleared(Rows(matrix[..], n), n)
    modifies res
    ensures ret == 0 || ret == -1
    ensures ret == 0 ==> Unique(Rows(matrix[..], n), res[..n])
    ensures ret == -1 ==> exists k | 0 <= k < n :: Rows(matrix[..], n)[k][k] == 0.0
  {
    hide Cleared, UniqueFrom, SolvesFrom, Unique, Determines, Rows;
    ghost var m := Rows(matrix[..], n);
    var j := n;
    NothingLeft(m, res[..n]);
    while j > 0
      invariant 0 <= j <= n && UniqueFrom(m, res[..n], j)
    {
      j := j - 1;
      var offset := j * (n + 1);
      Inside(matrix[..], n, j, offset);
      if matrix[offset + j] == 0.0 {
        assert m[j][j] == 0.0;
        return -1;
      }
      ghost var x := res[..n];
      SolveRow(matrix, res, n, j, offset, m[j]);
      OneMoreUnknown(m, x, j, res[j]);
    }
    OnlySolution(m, res[..n]);
    ret := 0;
  }

  lemma NothingLeft(m: seq<Row>, x: seq<real>)
    requires Square(m) && |x| == |m|
    ensures UniqueFrom(m, x, |m|)
  {
  }

  lemma OnlySolution(m: seq<Row>, x: seq<real>)
    requires Square(m) && Cleared(m, |m|) && |x| == |m| && UniqueFrom(m, x, 0)
    ensures Unique(m, x)
  {
    Triangular(m, x);
    forall y | Solves(m, y)
      ensures y == x
    {
      Triangular(m, y);
      assert y[0..] == y && x[0..] == x;
    }
  }

  lemma NoneUnique(m: seq<Row>, k: nat)
    requires Square(m) && Cleared(m, |m|) && k < |m| && m[k][k] == 0.0
    ensures forall x :: !Unique(m, x)
  {
    var v := Singular(m, k);
    forall x | Solves(m, x)
      ensures !Unique(m, x)
    {
      NotUnique(m, v, x);
    }
  }

  /** `gaussian_elimination`: 0 with the only solution of the system, or -1 if it has none or
      more than one. */
  method GaussianElimination(matrix: array?<real>, res: array?<real>, rows: nat) returns (ret: int)
    requires matrix != null && res != null ==> rows * (rows + 1) <= matrix.Length && rows <= res.Length && res != matrix
    modifies matrix, res
    ensures matrix == null || res == null || rows == 0 ==> ret == -1
    ensures matrix != null && (res == null || rows == 0) ==> matrix[..] == old(matrix[..])
    ensures res != null && (matrix == null || rows == 0) ==> res[..] == old(res[..])
    ensures matrix != null && res != null && rows > 0 ==>
              && (ret == 0 || ret == -1)
              && (ret == 0 ==> Unique(old(Rows(matrix[..], rows)), res[..rows]))
              && (ret == -1 ==> forall x :: !Unique(old(Rows(matrix[..], rows)), x))
  {
    if matrix == null || res == null || rows == 0 {
      return -1;
    }
    ghost var m0 := Rows(matrix[..], rows);
    Triangulate(matrix, rows);
    ghost var m := Rows(matrix[..], rows);
    ret := BackSubstitute(matrix, res, rows);
    assert forall x :: Unique(m0, x) <==> Unique(m, x);
    if ret == -1 {
      ghost var k :| 0 <= k < rows && m[k][k] == 0.0;
      NoneUnique(m, k);
    }
  }
}
