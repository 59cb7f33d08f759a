/** The eleven columns a GJonesPolyMBuf caches, taken together as values:
    how they are read from a set of table rows, turned back into rows, and
    scatter-updated by fillMatchingRows. */
module PolyColumns {
  import opened CalTypes
  import opened Columns

  /** One value per row for each cached column. */
  datatype PolyCols = PolyCols(
    freqGrpName: seq<string>,
    polyType: seq<string>,
    polyMode: seq<string>,
    scaleFactor: seq<Complex>,
    nPolyAmp: seq<int>,
    nPolyPhase: seq<int>,
    polyCoeffAmp: seq<seq<real>>,
    polyCoeffPhase: seq<seq<real>>,
    phaseUnits: seq<string>,
    refFreq: seq<Frequency>,
    refAnt: seq<int>)

  const EmptyPolyCols := PolyCols([], [], [], [], [], [], [], [], [], [], [])

  /** The two sets of columns have the same number of rows, column by column. */
  predicate SameShape(a: PolyCols, b: PolyCols)
  {
    && |a.freqGrpName| == |b.freqGrpName| && |a.polyType| == |b.polyType|
    && |a.polyMode| == |b.polyMode| && |a.scaleFactor| == |b.scaleFactor|
    && |a.nPolyAmp| == |b.nPolyAmp| && |a.nPolyPhase| == |b.nPolyPhase|
    && |a.polyCoeffAmp| == |b.polyCoeffAmp| && |a.polyCoeffPhase| == |b.polyCoeffPhase|
    && |a.phaseUnits| == |b.phaseUnits| && |a.refFreq| == |b.refFreq| && |a.refAnt| == |b.refAnt|
  }

  /** One status flag per cached column: whether the column's field holds
      what the accessor should return. */
  datatype PolyFlags = PolyFlags(
    freqGrpName: bool,
    polyType: bool,
    polyMode: bool,
    scaleFactor: bool,
    nPolyAmp: bool,
    nPolyPhase: bool,
    polyCoeffAmp: bool,
    polyCoeffPhase: bool,
    phaseUnits: bool,
    refFreq: bool,
    refAnt: bool)

  const NoPolyFlags := PolyFlags(false, false, false, false, false, false, false, false, false, false, false)
  const AllPolyFlags := PolyFlags(true, true, true, true, true, true, true, true, true, true, true)

  /** The columns the accessors return, given the cached columns `c`, their
      flags `ok`, and the columns `f` of the iterator's current rows. */
  function PolyView(bound: bool, c: PolyCols, ok: PolyFlags, f: PolyCols): (v: PolyCols)
    ensures !bound || ok == AllPolyFlags ==> v == c
    ensures bound && ok == NoPolyFlags ==> v == f
  {
    PolyCols(
      Seen(bound, c.freqGrpName, ok.freqGrpName, f.freqGrpName),
      Seen(bound, c.polyType, ok.polyType, f.polyType),
      Seen(bound, c.polyMode, ok.polyMode, f.polyMode),
      Seen(bound, c.scaleFactor, ok.scaleFactor, f.scaleFactor),
      Seen(bound, c.nPolyAmp, ok.nPolyAmp, f.nPolyAmp),
      Seen(bound, c.nPolyPhase, ok.nPolyPhase, f.nPolyPhase),
      Seen(bound, c.polyCoeffAmp, ok.polyCoeffAmp, f.polyCoeffAmp),
      Seen(bound, c.polyCoeffPhase, ok.polyCoeffPhase, f.polyCoeffPhase),
      Seen(bound, c.phaseUnits, ok.phaseUnits, f.phaseUnits),
      Seen(bound, c.refFreq, ok.refFreq, f.refFreq),
      Seen(bound, c.refAnt, ok.refAnt, f.refAnt))
  }

  /** Every column holds exactly `n` rows. */
  predicate Uniform(c: PolyCols, n: nat)
  {
    && |c.freqGrpName| == n && |c.polyType| == n && |c.polyMode| == n
    && |c.scaleFactor| == n && |c.nPolyAmp| == n && |c.nPolyPhase| == n
    && |c.polyCoeffAmp| == n && |c.polyCoeffPhase| == n && |c.phaseUnits| == n
    && |c.refFreq| == n && |c.refAnt| == n
  }

  /** The row count nRow() reports: the longest column. */
  function MaxRows(c: PolyCols): (n: nat)
    ensures |c.freqGrpName| <= n && |c.polyType| <= n && |c.polyMode| <= n
    ensures |c.scaleFactor| <= n && |c.nPolyAmp| <= n && |c.nPolyPhase| <= n
    ensures |c.polyCoeffAmp| <= n && |c.polyCoeffPhase| <= n && |c.phaseUnits| <= n
    ensures |c.refFreq| <= n && |c.refAnt| <= n
    ensures forall m: nat :: Uniform(c, m) ==> n == m
  {
    Max(|c.freqGrpName|, Max(|c.polyType|, Max(|c.polyMode|, Max(|c.scaleFactor|,
    Max(|c.nPolyAmp|, Max(|c.nPolyPhase|, Max(|c.polyCoeffAmp|, Max(|c.polyCoeffPhase|,
    Max(|c.phaseUnits|, Max(|c.refFreq|, |c.refAnt|))))))))))
  }

  /** The rows that every column reaches: the shortest column. */
  function MinRows(c: PolyCols): (n: nat)
    ensures n <= |c.freqGrpName| && n <= |c.polyType| && n <= |c.polyMode|
    ensures n <= |c.scaleFactor| && n <= |c.nPolyAmp| && n <= |c.nPolyPhase|
    ensures n <= |c.polyCoeffAmp| && n <= |c.polyCoeffPhase| && n <= |c.phaseUnits|
    ensures n <= |c.refFreq| && n <= |c.refAnt|
    ensures forall m: nat :: Uniform(c, m) ==> n == m
  {
    Min(|c.freqGrpName|, Min(|c.polyType|, Min(|c.polyMode|, Min(|c.scaleFactor|,
    Min(|c.nPolyAmp|, Min(|c.nPolyPhase|, Min(|c.polyCoeffAmp|, Min(|c.polyCoeffPhase|,
    Min(|c.phaseUnits|, Min(|c.refFreq|, |c.refAnt|))))))))))
  }

  /** The columns of a set of rows, as a bound buffer reads them from its
      iterator. */
  function FetchPoly(rows: seq<PolyRow>): (c: PolyCols)
    ensures Uniform(c, |rows|)
  {
    var n := |rows|;
    PolyCols(
      seq(n, i requires 0 <= i < n => rows[i].freqGrpName),
      seq(n, i requires 0 <= i < n => rows[i].polyType),
      seq(n, i requires 0 <= i < n => rows[i].polyMode),
      seq(n, i requires 0 <= i < n => rows[i].scaleFactor),
      seq(n, i requires 0 <= i < n => rows[i].nPolyAmp),
      seq(n, i requires 0 <= i < n => rows[i].nPolyPhase),
      seq(n, i requires 0 <= i < n => rows[i].polyCoeffAmp),
      seq(n, i requires 0 <= i < n => rows[i].polyCoeffPhase),
      seq(n, i requires 0 <= i < n => rows[i].phaseUnits),
      seq(n, i requires 0 <= i < n => rows[i].refFreq),
      seq(n, i requires 0 <= i < n => rows[i].refAnt))
  }

  /** Row `i` across all columns. */
  function RowAt(c: PolyCols, i: nat): PolyRow
    requires i < MinRows(c)
  {
    PolyRow(c.freqGrpName[i], c.polyType[i], c.polyMode[i], c.scaleFactor[i],
            c.nPolyAmp[i], c.nPolyPhase[i], c.polyCoeffAmp[i], c.polyCoeffPhase[i],
            c.phaseUnits[i], c.refFreq[i], c.refAnt[i])
  }

  /** The rows of a set of equally long columns, in row order. */
  function PolyRows(c: PolyCols, n: nat): (rows: seq<PolyRow>)
    requires Uniform(c, n)
    ensures |rows| == n
  {
    seq(n, i requires 0 <= i < n => RowAt(c, i))
  }

  /** Reading back the rows written from a set of columns gives those columns. */
  lemma FetchPolyRows(c: PolyCols, n: nat)
    requires Uniform(c, n)
    ensures FetchPoly(PolyRows(c, n)) == c
  {
  }

  /** Writing back the columns read from a set of rows gives those rows. */
  lemma PolyRowsFetch(rows: seq<PolyRow>)
    ensures PolyRows(FetchPoly(rows), |rows|) == rows
  {
    var c := FetchPoly(rows);
    forall i | 0 <= i < |rows| ensures PolyRows(c, |rows|)[i] == rows[i] {
      assert RowAt(c, i) == rows[i];
    }
  }

  /** The columns after fillMatchingRows has written solution `s` into every
      row of `rows`. */
  function FillPoly(c: PolyCols, rows: seq<int>, s: PolyRow): (r: PolyCols)
    requires InRange(rows, MinRows(c))
    ensures SameShape(r, c)
  {
    var n := MinRows(c);
    InRangeWiden(rows, n, |c.freqGrpName|);
    InRangeWiden(rows, n, |c.polyType|);
    InRangeWiden(rows, n, |c.polyMode|);
    InRangeWiden(rows, n, |c.scaleFactor|);
    InRangeWiden(rows, n, |c.nPolyAmp|);
    InRangeWiden(rows, n, |c.nPolyPhase|);
    InRangeWiden(rows, n, |c.polyCoeffAmp|);
    InRangeWiden(rows, n, |c.polyCoeffPhase|);
    InRangeWiden(rows, n, |c.phaseUnits|);
    InRangeWiden(rows, n, |c.refFreq|);
    InRangeWiden(rows, n, |c.refAnt|);
    PolyCols(
      Scatter(c.freqGrpName, rows, s.freqGrpName),
      Scatter(c.polyType, rows, s.polyType),
      Scatter(c.polyMode, rows, s.polyMode),
      Scatter(c.scaleFactor, rows, s.scaleFactor),
      Scatter(c.nPolyAmp, rows, s.nPolyAmp),
      Scatter(c.nPolyPhase, rows, s.nPolyPhase),
      Scatter(c.polyCoeffAmp, rows, s.polyCoeffAmp),
      Scatter(c.polyCoeffPhase, rows, s.polyCoeffPhase),
      Scatter(c.phaseUnits, rows, s.phaseUnits),
      Scatter(c.refFreq, rows, s.refFreq),
      Scatter(c.refAnt, rows, s.refAnt))
  }

  /** Solution `s` written into row `i` of every column. */
  function SetRow(c: PolyCols, i: nat, s: PolyRow): (r: PolyCols)
    requires i < MinRows(c)
    ensures SameShape(r, c)
    ensures RowAt(r, i) == s
  {
    PolyCols(
      c.freqGrpName[i := s.freqGrpName], c.polyType[i := s.polyType],
      c.polyMode[i := s.polyMode], c.scaleFactor[i := s.scaleFactor],
      c.nPolyAmp[i := s.nPolyAmp], c.nPolyPhase[i := s.nPolyPhase],
      c.polyCoeffAmp[i := s.polyCoeffAmp], c.polyCoeffPhase[i := s.polyCoeffPhase],
      c.phaseUnits[i := s.phaseUnits], c.refFreq[i := s.refFreq], c.refAnt[i := s.refAnt])
  }

  /** Filling one more row is writing the solution into that row of the
      columns filled so far: the step of the loop over the matching rows. */
  lemma FillPolyStep(c: PolyCols, rows: seq<int>, i: int, s: PolyRow)
    requires InRange(rows + [i], MinRows(c))
    ensures InRange(rows, MinRows(c))
    ensures 0 <= i < MinRows(FillPoly(c, rows, s))
    ensures FillPoly(c, rows + [i], s) == SetRow(FillPoly(c, rows, s), i, s)
  {
    assert forall j :: 0 <= j < |rows| ==> (rows + [i])[j] == rows[j];
    assert (rows + [i])[|rows|] == i;
    assert (rows + [i])[..|rows|] == rows;
  }

  /** fillMatchingRows, row by row: a matching row holds the new solution in
      every column, and every other row is what it was. */
  lemma FillPolyRowAt(c: PolyCols, n: nat, rows: seq<int>, s: PolyRow, i: nat)
    requires Uniform(c, n) && InRange(rows, n) && i < n
    ensures Uniform(FillPoly(c, rows, s), n)
    ensures PolyRows(FillPoly(c, rows, s), n)[i] == if i in rows then s else PolyRows(c, n)[i]
  {
  }

  /** Filling the same rows with the same solution twice is the same as once. */
  lemma FillPolyIdempotent(c: PolyCols, rows: seq<int>, s: PolyRow)
    requires InRange(rows, MinRows(c))
    ensures SameShape(FillPoly(c, rows, s), c)
    ensures MinRows(FillPoly(c, rows, s)) == MinRows(c)
    ensures FillPoly(FillPoly(c, rows, s), rows, s) == FillPoly(c, rows, s)
  {
    var f := FillPoly(c, rows, s);
    var n := MinRows(c);
    InRangeWiden(rows, n, |c.freqGrpName|);
    InRangeWiden(rows, n, |c.polyType|);
    InRangeWiden(rows, n, |c.polyMode|);
    InRangeWiden(rows, n, |c.scaleFactor|);
    InRangeWiden(rows, n, |c.nPolyAmp|);
    InRangeWiden(rows, n, |c.nPolyPhase|);
    InRangeWiden(rows, n, |c.polyCoeffAmp|);
    InRangeWiden(rows, n, |c.polyCoeffPhase|);
    InRangeWiden(rows, n, |c.phaseUnits|);
    InRangeWiden(rows, n, |c.refFreq|);
    InRangeWiden(rows, n, |c.refAnt|);
    ScatterIdempotent(c.freqGrpName, rows, s.freqGrpName);
    ScatterIdempotent(c.polyType, rows, s.polyType);
    ScatterIdempotent(c.polyMode, rows, s.polyMode);
    ScatterIdempotent(c.scaleFactor, rows, s.scaleFactor);
    ScatterIdempotent(c.nPolyAmp, rows, s.nPolyAmp);
    ScatterIdempotent(c.nPolyPhase, rows, s.nPolyPhase);
    ScatterIdempotent(c.polyCoeffAmp, rows, s.polyCoeffAmp);
    ScatterIdempotent(c.polyCoeffPhase, rows, s.polyCoeffPhase);
    ScatterIdempotent(c.phaseUnits, rows, s.phaseUnits);
    ScatterIdempotent(c.refFreq, rows, s.refFreq);
    ScatterIdempotent(c.refAnt, rows, s.refAnt);
  }

  /** Every row of the columns is a well-shaped polynomial solution. */
  predicate AllPolyShaped(c: PolyCols, n: nat)
    requires Uniform(c, n)
  {
    forall i :: 0 <= i < n ==> PolyShaped(PolyRows(c, n)[i])
  }

  /** fillMatchingRows accepts only a well-shaped solution, so it keeps the
      invariant that every coefficient vector holds degree + 1 terms. */
  lemma FillPolyKeepsShape(c: PolyCols, n: nat, rows: seq<int>, s: PolyRow)
    requires Uniform(c, n) && InRange(rows, n)
    requires AllPolyShaped(c, n) && PolyShaped(s)
    ensures Uniform(FillPoly(c, rows, s), n)
    ensures AllPolyShaped(FillPoly(c, rows, s), n)
  {
    forall i | 0 <= i < n
      ensures Uniform(FillPoly(c, rows, s), n)
      ensures PolyShaped(PolyRows(FillPoly(c, rows, s), n)[i])
    {
      FillPolyRowAt(c, n, rows, s, i);
    }
  }
}
