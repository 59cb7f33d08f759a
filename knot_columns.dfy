/** The four knot columns a GJonesSplineMBuf caches on top of the polynomial
    ones, taken together as values. */
module KnotColumns {
  import opened CalTypes
  import opened Columns

  /** One value per row for each knot column. */
  datatype KnotCols = KnotCols(
    nKnotsAmp: seq<int>,
    nKnotsPhase: seq<int>,
    splineKnotsAmp: seq<seq<real>>,
    splineKnotsPhase: seq<seq<real>>)

  const EmptyKnotCols := KnotCols([], [], [], [])

  predicate SameKnotShape(a: KnotCols, b: KnotCols)
  {
    && |a.nKnotsAmp| == |b.nKnotsAmp| && |a.nKnotsPhase| == |b.nKnotsPhase|
    && |a.splineKnotsAmp| == |b.splineKnotsAmp| && |a.splineKnotsPhase| == |b.splineKnotsPhase|
  }

  /** One status flag per knot column. */
  datatype KnotFlags = KnotFlags(nKnotsAmp: bool, nKnotsPhase: bool, splineKnotsAmp: bool, splineKnotsPhase: bool)

  const NoKnotFlags := KnotFlags(false, false, false, false)
  const AllKnotFlags := KnotFlags(true, true, true, true)

  /** The knot columns the accessors return, given the cached knot columns
      `k`, their flags `ok`, and the knot columns `f` of the iterator's
      current rows. */
  function KnotView(bound: bool, k: KnotCols, ok: KnotFlags, f: KnotCols): (v: KnotCols)
    ensures !bound || ok == AllKnotFlags ==> v == k
    ensures bound && ok == NoKnotFlags ==> v == f
  {
    KnotCols(
      Seen(bound, k.nKnotsAmp, ok.nKnotsAmp, f.nKnotsAmp),
      Seen(bound, k.nKnotsPhase, ok.nKnotsPhase, f.nKnotsPhase),
      Seen(bound, k.splineKnotsAmp, ok.splineKnotsAmp, f.splineKnotsAmp),
      Seen(bound, k.splineKnotsPhase, ok.splineKnotsPhase, f.splineKnotsPhase))
  }

  /** Every knot column holds exactly `n` rows. */
  predicate KnotUniform(k: KnotCols, n: nat)
  {
    |k.nKnotsAmp| == n && |k.nKnotsPhase| == n && |k.splineKnotsAmp| == n && |k.splineKnotsPhase| == n
  }

  /** The longest knot column. */
  function KnotMaxRows(k: KnotCols): (n: nat)
    ensures |k.nKnotsAmp| <= n && |k.nKnotsPhase| <= n
    ensures |k.splineKnotsAmp| <= n && |k.splineKnotsPhase| <= n
    ensures forall m: nat :: KnotUniform(k, m) ==> n == m
  {
    Max(|k.nKnotsAmp|, Max(|k.nKnotsPhase|, Max(|k.splineKnotsAmp|, |k.splineKnotsPhase|)))
  }

  /** The rows every knot column reaches. */
  function KnotMinRows(k: KnotCols): (n: nat)
    ensures n <= |k.nKnotsAmp| && n <= |k.nKnotsPhase|
    ensures n <= |k.splineKnotsAmp| && n <= |k.splineKnotsPhase|
    ensures forall m: nat :: KnotUniform(k, m) ==> n == m
  {
    Min(|k.nKnotsAmp|, Min(|k.nKnotsPhase|, Min(|k.splineKnotsAmp|, |k.splineKnotsPhase|)))
  }

  /** The knot columns of a set of knot rows. */
  function FetchKnots(rows: seq<KnotRow>): (k: KnotCols)
    ensures KnotUniform(k, |rows|)
  {
    var n := |rows|;
    KnotCols(
      seq(n, i requires 0 <= i < n => rows[i].nKnotsAmp),
      seq(n, i requires 0 <= i < n => rows[i].nKnotsPhase),
      seq(n, i requires 0 <= i < n => rows[i].splineKnotsAmp),
      seq(n, i requires 0 <= i < n => rows[i].splineKnotsPhase))
  }

  /** The knot rows of a set of equally long knot columns, in row order. */
  function KnotRows(k: KnotCols, n: nat): (rows: seq<KnotRow>)
    requires KnotUniform(k, n)
    ensures |rows| == n
  {
    seq(n, i requires 0 <= i < n =>
      KnotRow(k.nKnotsAmp[i], k.nKnotsPhase[i], k.splineKnotsAmp[i], k.splineKnotsPhase[i]))
  }

  /** Reading back the knot rows written from a set of knot columns gives
      those columns. */
  lemma FetchKnotRows(k: KnotCols, n: nat)
    requires KnotUniform(k, n)
    ensures FetchKnots(KnotRows(k, n)) == k
  {
  }

  /** Writing back the knot columns read from a set of knot rows gives those
      rows. */
  lemma KnotRowsFetch(rows: seq<KnotRow>)
    ensures KnotRows(FetchKnots(rows), |rows|) == rows
  {
  }

  /** The knot columns after the spline fillMatchingRows has written knot set
      `s` into every row of `rows`. */
  function FillKnots(k: KnotCols, rows: seq<int>, s: KnotRow): (r: KnotCols)
    requires InRange(rows, KnotMinRows(k))
    ensures SameKnotShape(r, k)
  {
    var n := KnotMinRows(k);
    InRangeWiden(rows, n, |k.nKnotsAmp|);
    InRangeWiden(rows, n, |k.nKnotsPhase|);
    InRangeWiden(rows, n, |k.splineKnotsAmp|);
    InRangeWiden(rows, n, |k.splineKnotsPhase|);
    KnotCols(
      Scatter(k.nKnotsAmp, rows, s.nKnotsAmp),
      Scatter(k.nKnotsPhase, rows, s.nKnotsPhase),
      Scatter(k.splineKnotsAmp, rows, s.splineKnotsAmp),
      Scatter(k.splineKnotsPhase, rows, s.splineKnotsPhase))
  }

  /** Knot set `s` written into row `i` of every knot column. */
  function SetKnotRow(k: KnotCols, i: nat, s: KnotRow): (r: KnotCols)
    requires i < KnotMinRows(k)
    ensures SameKnotShape(r, k)
  {
    KnotCols(
      k.nKnotsAmp[i := s.nKnotsAmp], k.nKnotsPhase[i := s.nKnotsPhase],
      k.splineKnotsAmp[i := s.splineKnotsAmp], k.splineKnotsPhase[i := s.splineKnotsPhase])
  }

  /** Filling one more row is writing the knot set into that row of the knot
      columns filled so far. */
  lemma FillKnotsStep(k: KnotCols, rows: seq<int>, i: int, s: KnotRow)
    requires InRange(rows + [i], KnotMinRows(k))
    ensures InRange(rows, KnotMinRows(k))
    ensures 0 <= i < KnotMinRows(FillKnots(k, rows, s))
    ensures FillKnots(k, rows + [i], s) == SetKnotRow(FillKnots(k, rows, s), i, s)
  {
    assert forall j :: 0 <= j < |rows| ==> (rows + [i])[j] == rows[j];
    assert (rows + [i])[|rows|] == i;
    assert (rows + [i])[..|rows|] == rows;
  }

  /** The spline fillMatchingRows, row by row: a matching row holds the new
      knot set, every other row keeps its knots. */
  lemma FillKnotsRowAt(k: KnotCols, n: nat, rows: seq<int>, s: KnotRow, i: nat)
    requires KnotUniform(k, n) && InRange(rows, n) && i < n
    ensures KnotUniform(FillKnots(k, rows, s), n)
    ensures KnotRows(FillKnots(k, rows, s), n)[i] == if i in rows then s else KnotRows(k, n)[i]
  {
  }

  /** Every row of the knot columns holds as many knots as it counts. */
  predicate AllKnotShaped(k: KnotCols, n: nat)
    requires KnotUniform(k, n)
  {
    forall i :: 0 <= i < n ==> KnotShaped(KnotRows(k, n)[i])
  }

  /** The spline fillMatchingRows accepts only a well-shaped knot set, so it
      keeps every row's knot vectors as long as its knot counts. */
  lemma FillKnotsKeepsShape(k: KnotCols, n: nat, rows: seq<int>, s: KnotRow)
    requires KnotUniform(k, n) && InRange(rows, n)
    requires AllKnotShaped(k, n) && KnotShaped(s)
    ensures KnotUniform(FillKnots(k, rows, s), n)
    ensures AllKnotShaped(FillKnots(k, rows, s), n)
  {
    forall i | 0 <= i < n
      ensures KnotShaped(KnotRows(FillKnots(k, rows, s), n)[i])
    {
      FillKnotsRowAt(k, n, rows, s, i);
    }
  }
}
