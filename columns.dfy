/** Column-level operations shared by every buffer column: the scatter update
    that fillMatchingRows applies to one column, and the row counts of a set
    of columns. */
module Columns {

  /** What a column accessor returns: the cached column, unless the buffer is
      bound to an iterator and the column's status flag is down, in which
      case the column is read from the iterator's current rows. A detached
      buffer never reads, whatever its flags say. */
  function Seen<T>(bound: bool, value: seq<T>, ok: bool, fetched: seq<T>): seq<T>
  {
    if bound && !ok then fetched else value
  }

  /** Every row index in `rows` addresses one of `n` rows. */
  predicate InRange(rows: seq<int>, n: int)
  {
    forall j :: 0 <= j < |rows| ==> 0 <= rows[j] < n
  }

  lemma InRangeWiden(rows: seq<int>, n: int, m: int)
    requires InRange(rows, n) && n <= m
    ensures InRange(rows, m)
  {
  }

  /** `x` written into column `xs` at each of `rows` in turn, as a loop over
      the matching rows does it. Duplicates and order do not matter. */
  function Scatter<T>(xs: seq<T>, rows: seq<int>, x: T): (r: seq<T>)
    requires InRange(rows, |xs|)
    ensures |r| == |xs|
    ensures forall i :: 0 <= i < |xs| ==> r[i] == if i in rows then x else xs[i]
    decreases |rows|
  {
    if rows == [] then xs
    else
      var k := |rows| - 1;
      assert rows == rows[..k] + [rows[k]];
      Scatter(xs, rows[..k], x)[rows[k] := x]
  }

  lemma {:induction false} ScatterIdempotent<T>(xs: seq<T>, rows: seq<int>, x: T)
    requires InRange(rows, |xs|)
    ensures Scatter(Scatter(xs, rows, x), rows, x) == Scatter(xs, rows, x)
  {
    var once := Scatter(xs, rows, x);
    var twice := Scatter(once, rows, x);
    assert forall i :: 0 <= i < |xs| ==> twice[i] == once[i];
  }

  /** A column of `n` copies of `x`. */
  function Repeat<T>(x: T, n: nat): (r: seq<T>)
    ensures |r| == n
    ensures forall i :: 0 <= i < n ==> r[i] == x
  {
    if n == 0 then [] else Repeat(x, n - 1) + [x]
  }

  function Max(a: nat, b: nat): nat { if a < b then b else a }

  function Min(a: nat, b: nat): nat { if a < b then a else b }

  /** The row count of a detached buffer built from explicit index values:
      the longest index value vector. */
  function IndexRows(indexValues: seq<seq<int>>): (n: nat)
    ensures forall k :: 0 <= k < |indexValues| ==> |indexValues[k]| <= n
    ensures |indexValues| > 0 ==> exists k :: 0 <= k < |indexValues| && |indexValues[k]| == n
    ensures |indexValues| == 0 ==> n == 0
  {
    if |indexValues| == 0 then 0
    else Max(|indexValues[0]|, IndexRows(indexValues[1..]))
  }
}
