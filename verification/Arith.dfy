/** Small facts about products, quotients and remainders, and row-major flattening. */
module Arith {

  lemma MulMono(a: nat, b: nat, c: nat)
    requires a <= b
    ensures a * c <= b * c
  {
  }

  lemma DivModOf(q: nat, d: nat, r: nat)
    requires r < d
    ensures (q * d + r) / d == q
    ensures (q * d + r) % d == r
  {
    var n := q * d + r;
    var x := n / d - q;
    assert n == (n / d) * d + n % d;
    assert (n / d - q) * d == r - n % d;
    if x >= 1 {
      MulMono(1, x, d);
    } else if x <= -1 {
      assert (-x) * d == n % d - r;
      MulMono(1, -x, d);
    }
  }

  lemma DivMono(a: nat, b: nat, d: nat)
    requires a <= b && d > 0
    ensures a / d <= b / d
  {
    assert (b / d + 1) * d == (b / d) * d + d;
    if a / d > b / d {
      MulMono(b / d + 1, a / d, d);
    }
  }

  /** A quotient is pinned by the multiple it sits above. */
  lemma DivUnique(n: nat, d: nat, q: nat)
    requires d > 0
    ensures n / d == q <==> q * d <= n < q * d + d
  {
    if q * d <= n < q * d + d {
      DivModOf(q, d, n - q * d);
    }
  }

  function RowMajor(row: nat, width: nat, col: nat): nat {
    row * width + col
  }

  /** A row-major index below `rows * width` names one row and one column. */
  lemma RowMajorBound(y: nat, x: nat, width: nat, rows: nat)
    requires y < rows && x < width
    ensures y * width + x < rows * width
  {
    MulMono(y + 1, rows, width);
    assert (y + 1) * width == y * width + width;
  }

  lemma RowMajorInjective(y: nat, x: nat, y': nat, x': nat, width: nat)
    requires x < width && x' < width
    requires y * width + x == y' * width + x'
    ensures y == y' && x == x'
  {
    DivModOf(y, width, x);
    DivModOf(y', width, x');
  }

  /** Every position of a row-major buffer is one row and one column. */
  lemma RowMajorSplit(k: nat, width: nat, rows: nat)
    requires width > 0 && k < rows * width
    ensures k / width < rows && 0 <= k % width < width
    ensures k / width * width + k % width == k
  {
    if k / width >= rows {
      MulMono(rows, k / width, width);
    }
  }

  /** Concatenate rows in order. */
  function Flatten<T>(rows: seq<seq<T>>): seq<T> {
    if rows == [] then [] else Flatten(rows[..|rows| - 1]) + rows[|rows| - 1]
  }

  ghost predicate AllLen<T>(rows: seq<seq<T>>, width: nat) {
    forall i :: 0 <= i < |rows| ==> |rows[i]| == width
  }

  lemma {:induction false} FlattenLength<T>(rows: seq<seq<T>>, width: nat)
    requires AllLen(rows, width)
    ensures |Flatten(rows)| == |rows| * width
  {
    if rows == [] {
    } else {
      FlattenLength(rows[..|rows| - 1], width);
      assert |rows| * width == (|rows| - 1) * width + width;
    }
  }

  /** Sample (y, x) of the flattening is column x of row y. */
  lemma {:induction false} FlattenIndex<T>(rows: seq<seq<T>>, width: nat, y: nat, x: nat)
    requires AllLen(rows, width)
    requires y < |rows| && x < width
    ensures y * width + x < |Flatten(rows)|
    ensures Flatten(rows)[y * width + x] == rows[y][x]
  {
    var init := rows[..|rows| - 1];
    FlattenLength(init, width);
    FlattenLength(rows, width);
    RowMajorBound(y, x, width, |rows|);
    if y < |init| {
      FlattenIndex(init, width, y, x);
    }
  }

  /** Row `k` of a flattening. */
  lemma {:induction false} RowSlice<T>(rows: seq<seq<T>>, width: nat, k: nat)
    requires AllLen(rows, width) && k < |rows|
    ensures k * width + width <= |Flatten(rows)|
    ensures Flatten(rows)[k * width..k * width + width] == rows[k]
  {
    FlattenLength(rows, width);
    MulMono(k + 1, |rows|, width);
    assert (k + 1) * width == k * width + width;
    forall x | 0 <= x < width
      ensures Flatten(rows)[k * width + x] == rows[k][x]
    {
      FlattenIndex(rows, width, k, x);
    }
  }

  /** A slice of a slice. */
  lemma SubSlice<T>(s: seq<T>, base: nat, length: nat, at: nat, width: nat)
    requires base + length <= |s| && at + width <= length
    ensures s[base..base + length][at..at + width] == s[base + at..base + at + width]
  {
    var part := s[base..base + length][at..at + width];
    forall k | 0 <= k < width
      ensures part[k] == s[base + at..base + at + width][k]
    {
      assert s[base..base + length][at + k] == s[base + at + k];
    }
  }
}
