/** The GJonesPoly and GJonesSpline calibration main table buffers: caches of
    the rows of a cal table, either detached or kept synchronised with a cal
    table iterator, that bring each column in on first access, read it
    afresh after invalidate(), scatter a new solution into chosen rows, and
    copy their rows out to the end of a cal table. */
module GJonesMBuf {
  import opened CalTypes
  import opened Columns
  import opened PolyColumns
  import opened KnotColumns
  import opened CalStorage

  /** Columns that append can write: at least one row, and every column as
      long as the others. */
  predicate Appendable(c: PolyCols)
  {
    MaxRows(c) > 0 && Uniform(c, MaxRows(c))
  }

  /** The same for a spline buffer, whose knot columns must match too. */
  predicate SplineAppendable(c: PolyCols, k: KnotCols)
  {
    Appendable(c) && KnotUniform(k, MaxRows(c))
  }

  /** A GJonesPoly buffer: the eight polynomial columns with their status
      flags, and the three inherited attribute columns that fillMatchingRows
      also writes. */
  class GJonesPolyMBuf {
    /** The iterator the buffer stays synchronised with, or null when detached. */
    const iter: CalIter?
    /** The buffer fields, one sequence per column. */
    var cols: PolyCols
    /** The buffer field status flags, one per column. */
    var ok: PolyFlags

    predicate ConnectedToIter()
    {
      iter != null
    }

    /** The columns of the iterator's current rows (none when detached). */
    function Fetched(): PolyCols
      reads iter
    {
      if iter == null then EmptyPolyCols else FetchPoly(PolyPart(iter.CurrentRows()))
    }

    /** The columns as the accessors would return them now. */
    ghost function Snapshot(): PolyCols
      reads this, iter
    {
      PolyView(iter != null, cols, ok, Fetched())
    }

    /** Default constructor: detached and empty. */
    constructor ()
      ensures !ConnectedToIter() && ok == NoPolyFlags
      ensures cols == EmptyPolyCols && Snapshot() == EmptyPolyCols
    {
      iter := null;
      cols := EmptyPolyCols;
      ok := NoPolyFlags;
    }

    /** Construct from cal buffer indices and their values: detached, with
        every row the index values define holding the default attributes. */
    constructor FromIndices(calIndices: seq<int>, indexValues: seq<seq<int>>)
      requires |calIndices| == |indexValues|
      ensures !ConnectedToIter() && ok == NoPolyFlags
      ensures cols == FetchPoly(Repeat(DefaultPolyRow, IndexRows(indexValues)))
      ensures Snapshot() == cols && Uniform(cols, IndexRows(indexValues))
      ensures PolyRows(cols, IndexRows(indexValues)) == Repeat(DefaultPolyRow, IndexRows(indexValues))
      ensures AllPolyShaped(cols, IndexRows(indexValues))
    {
      iter := null;
      var defaults := Repeat(DefaultPolyRow, IndexRows(indexValues));
      cols := FetchPoly(defaults);
      ok := NoPolyFlags;
      PolyRowsFetch(defaults);
    }

    /** Construct from a cal table iterator: bound, with every column still
        to be read from the iterator's current rows. */
    constructor FromIter(calIter: CalIter)
      ensures iter == calIter && ok == NoPolyFlags
      ensures cols == EmptyPolyCols && Snapshot() == Fetched()
    {
      iter := calIter;
      cols := EmptyPolyCols;
      ok := NoPolyFlags;
    }

    /** Invalidate the buffer: every status flag goes down, so a bound buffer
        reads each column afresh from the iterator's current position. */
    method Invalidate()
      modifies this`ok
      ensures ok == NoPolyFlags
      ensures ConnectedToIter() ==> Snapshot() == Fetched()
      ensures !ConnectedToIter() ==> Snapshot() == old(Snapshot())
    {
      ok := NoPolyFlags;
    }

    /** Bring every column into the buffer fields, as the accessors do one
        column at a time; what the accessors return does not change. */
    method Materialize()
      modifies this`cols, this`ok
      ensures cols == old(Snapshot()) && Snapshot() == old(Snapshot())
      ensures ok == if ConnectedToIter() then AllPolyFlags else old(ok)
    {
      if iter != null {
        cols, ok := PolyView(true, cols, ok, Fetched()), AllPolyFlags;
      }
    }

    /** The number of rows in the buffer: the longest column, every column
        being brought in on the way. */
    method NRow() returns (n: nat)
      modifies this`cols, this`ok
      ensures n == MaxRows(old(Snapshot()))
      ensures cols == old(Snapshot()) && Snapshot() == old(Snapshot())
      ensures ok == if ConnectedToIter() then AllPolyFlags else old(ok)
    {
      Materialize();
      n := MaxRows(cols);
    }

    /** Write solution `s` into each of the rows `matchingRows`. A solution
        whose coefficient vectors are not degree + 1 long is refused before
        anything happens; a row outside the buffer is refused after the
        columns are brought in and before any row is written. The result
        says whether any row was written. */
    method FillMatchingRows(matchingRows: seq<int>, s: PolyRow) returns (r: Result<bool>)
      modifies this`cols, this`ok
      ensures !PolyShaped(s) ==>
        r == Failure(ValidationError) && cols == old(cols) && ok == old(ok)
      ensures PolyShaped(s) && !InRange(matchingRows, MinRows(old(Snapshot()))) ==>
        r == Failure(IndexError) && cols == old(Snapshot())
      ensures PolyShaped(s) && InRange(matchingRows, MinRows(old(Snapshot()))) ==>
        r == Success(|matchingRows| > 0) && cols == FillPoly(old(Snapshot()), matchingRows, s)
      ensures PolyShaped(s) ==>
        Snapshot() == cols && ok == if ConnectedToIter() then AllPolyFlags else old(ok)
    {
      if !PolyShaped(s) {
        return Failure(ValidationError);
      }
      Materialize();
      var c := cols;
      if !InRange(matchingRows, MinRows(c)) {
        return Failure(IndexError);
      }
      var k := 0;
      while k < |matchingRows|
        invariant 0 <= k <= |matchingRows|
        invariant InRange(matchingRows[..k], MinRows(c))
        invariant cols == FillPoly(c, matchingRows[..k], s)
        modifies this`cols
      {
        var row := matchingRows[k];
        assert matchingRows[..k + 1] == matchingRows[..k] + [row];
        FillPolyStep(c, matchingRows[..k], row, s);
        cols := SetRow(cols, row, s);
        k := k + 1;
      }
      assert matchingRows[..k] == matchingRows;
      r := Success(|matchingRows| > 0);
    }

    /** Write the buffer's rows at the end of a GJonesPoly cal table and
        return the index of the first new row. The columns are brought in
        first; the buffer is not otherwise changed. A table of another kind
        is refused, and so is a buffer with no rows or with columns of
        unequal length; a refused append leaves the table as it was. */
    method Append(table: CalTable) returns (r: Result<int>)
      requires table.Valid()
      modifies this`cols, this`ok, table`rows
      ensures table.Valid()
      ensures cols == old(Snapshot()) && Snapshot() == old(Snapshot())
      ensures ok == if ConnectedToIter() then AllPolyFlags else old(ok)
      ensures table.schema != PolySchema ==>
        r == Failure(PersistenceError) && table.rows == old(table.rows)
      ensures table.schema == PolySchema && !Appendable(old(Snapshot())) ==>
        r == Failure(StateError) && table.rows == old(table.rows)
      ensures table.schema == PolySchema && Appendable(old(Snapshot())) ==>
        && r == Success(|old(table.rows)|)
        && table.rows == old(table.rows) + PolyTableRows(PolyRows(old(Snapshot()), MaxRows(old(Snapshot()))))
    {
      Materialize();
      if table.schema != PolySchema {
        return Failure(PersistenceError);
      }
      if !Appendable(cols) {
        return Failure(StateError);
      }
      r := Success(|table.rows|);
      table.AddRows(PolyTableRows(PolyRows(cols, MaxRows(cols))));
    }

    // Data field accessors: each brings its column in if the buffer is bound
    // and the column's flag is down, and returns the column.

    method PolyType() returns (v: seq<string>)
      modifies this`cols, this`ok
      ensures v == old(Snapshot()).polyType && cols == old(cols).(polyType := v)
      ensures ok == if ConnectedToIter() then old(ok).(polyType := true) else old(ok)
      ensures Snapshot() == old(Snapshot())
    {
      if iter != null && !ok.polyType {
        cols, ok := cols.(polyType := Fetched().polyType), ok.(polyType := true);
      }
      v := cols.polyType;
    }

    method PolyMode() returns (v: seq<string>)
      modifies this`cols, this`ok
      ensures v == old(Snapshot()).polyMode && cols == old(cols).(polyMode := v)
      ensures ok == if ConnectedToIter() then old(ok).(polyMode := true) else old(ok)
      ensures Snapshot() == old(Snapshot())
    {
      if iter != null && !ok.polyMode {
        cols, ok := cols.(polyMode := Fetched().polyMode), ok.(polyMode := true);
      }
      v := cols.polyMode;
    }

    method ScaleFactor() returns (v: seq<Complex>)
      modifies this`cols, this`ok
      ensures v == old(Snapshot()).scaleFactor && cols == old(cols).(scaleFactor := v)
      ensures ok == if ConnectedToIter() then old(ok).(scaleFactor := true) else old(ok)
      ensures Snapshot() == old(Snapshot())
    {
      if iter != null && !ok.scaleFactor {
        cols, ok := cols.(scaleFactor := Fetched().scaleFactor), ok.(scaleFactor := true);
      }
      v := cols.scaleFactor;
    }

    method NPolyAmp() returns (v: seq<int>)
      modifies this`cols, this`ok
      ensures v == old(Snapshot()).nPolyAmp && cols == old(cols).(nPolyAmp := v)
      ensures ok == if ConnectedToIter() then old(ok).(nPolyAmp := true) else old(ok)
      ensures Snapshot() == old(Snapshot())
    {
      if iter != null && !ok.nPolyAmp {
        cols, ok := cols.(nPolyAmp := Fetched().nPolyAmp), ok.(nPolyAmp := true);
      }
      v := cols.nPolyAmp;
    }

    method NPolyPhase() returns (v: seq<int>)
      modifies this`cols, this`ok
      ensures v == old(Snapshot()).nPolyPhase && cols == old(cols).(nPolyPhase := v)
      ensures ok == if ConnectedToIter() then old(ok).(nPolyPhase := true) else old(ok)
      ensures Snapshot() == old(Snapshot())
    {
      if iter != null && !ok.nPolyPhase {
        cols, ok := cols.(nPolyPhase := Fetched().nPolyPhase), ok.(nPolyPhase := true);
      }
      v := cols.nPolyPhase;
    }

    method PolyCoeffAmp() returns (v: seq<seq<real>>)
      modifies this`cols, this`ok
      ensures v == old(Snapshot()).polyCoeffAmp && cols == old(cols).(polyCoeffAmp := v)
      ensures ok == if ConnectedToIter() then old(ok).(polyCoeffAmp := true) else old(ok)
      ensures Snapshot() == old(Snapshot())
    {
      if iter != null && !ok.polyCoeffAmp {
        cols, ok := cols.(polyCoeffAmp := Fetched().polyCoeffAmp), ok.(polyCoeffAmp := true);
      }
      v := cols.polyCoeffAmp;
    }

    method PolyCoeffPhase() returns (v: seq<seq<real>>)
      modifies this`cols, this`ok
      ensures v == old(Snapshot()).polyCoeffPhase && cols == old(cols).(polyCoeffPhase := v)
      ensures ok == if ConnectedToIter() then old(ok).(polyCoeffPhase := true) else old(ok)
      ensures Snapshot() == old(Snapshot())
    {
      if iter != null && !ok.polyCoeffPhase {
        cols, ok := cols.(polyCoeffPhase := Fetched().polyCoeffPhase), ok.(polyCoeffPhase := true);
      }
      v := cols.polyCoeffPhase;
    }

    method PhaseUnits() returns (v: seq<string>)
      modifies this`cols, this`ok
      ensures v == old(Snapshot()).phaseUnits && cols == old(cols).(phaseUnits := v)
      ensures ok == if ConnectedToIter() then old(ok).(phaseUnits := true) else old(ok)
      ensures Snapshot() == old(Snapshot())
    {
      if iter != null && !ok.phaseUnits {
        cols, ok := cols.(phaseUnits := Fetched().phaseUnits), ok.(phaseUnits := true);
      }
      v := cols.phaseUnits;
    }
  }

  /** A GJonesSpline buffer: a GJonesPoly buffer extended with the knot
      counts and knot positions of the amplitude and phase splines. */
  class GJonesSplineMBuf {
    /** The polynomial part of the buffer, bound to the same iterator. */
    const poly: GJonesPolyMBuf
    /** The knot buffer fields, one sequence per column. */
    var knots: KnotCols
    /** The knot buffer field status flags, one per column. */
    var knotsOK: KnotFlags

    /** A bound spline buffer reads a spline table, whose rows carry knots. */
    ghost predicate Valid()
    {
      poly.iter != null ==> poly.iter.schema == SplineSchema && poly.iter.Conforming()
    }

    predicate ConnectedToIter()
    {
      poly.iter != null
    }

    /** The knot columns of the iterator's current rows (none when detached). */
    function KnotFetched(): KnotCols
      requires Valid()
      reads poly.iter
    {
      if poly.iter == null then EmptyKnotCols
      else
        var rows := poly.iter.CurrentRows();
        assert forall i :: 0 <= i < |rows| ==> Conforms(rows[i], SplineSchema);
        FetchKnots(KnotPart(rows))
    }

    /** The knot columns as the accessors would return them now. */
    ghost function KnotSnapshot(): KnotCols
      requires Valid()
      reads this, poly.iter
    {
      KnotView(poly.iter != null, knots, knotsOK, KnotFetched())
    }

    /** Default constructor: detached and empty. */
    constructor ()
      ensures Valid() && fresh(poly) && !ConnectedToIter()
      ensures poly.cols == EmptyPolyCols && poly.ok == NoPolyFlags
      ensures knots == EmptyKnotCols && knotsOK == NoKnotFlags
    {
      poly := new GJonesPolyMBuf();
      knots := EmptyKnotCols;
      knotsOK := NoKnotFlags;
    }

    /** Construct from cal buffer indices and their values: detached, with
        every row the index values define holding the default attributes
        and the default (empty) knots. */
    constructor FromIndices(calIndices: seq<int>, indexValues: seq<seq<int>>)
      requires |calIndices| == |indexValues|
      ensures Valid() && fresh(poly) && !ConnectedToIter()
      ensures poly.cols == FetchPoly(Repeat(DefaultPolyRow, IndexRows(indexValues)))
      ensures poly.ok == NoPolyFlags && knotsOK == NoKnotFlags
      ensures knots == FetchKnots(Repeat(DefaultKnotRow, IndexRows(indexValues)))
      ensures KnotRows(knots, IndexRows(indexValues)) == Repeat(DefaultKnotRow, IndexRows(indexValues))
      ensures KnotUniform(knots, IndexRows(indexValues)) && AllKnotShaped(knots, IndexRows(indexValues))
    {
      poly := new GJonesPolyMBuf.FromIndices(calIndices, indexValues);
      var defaults := Repeat(DefaultKnotRow, IndexRows(indexValues));
      knots := FetchKnots(defaults);
      knotsOK := NoKnotFlags;
      KnotRowsFetch(defaults);
    }

    /** Construct from an iterator over a spline table: bound, with every
        column still to be read from the iterator's current rows. */
    constructor FromIter(calIter: CalIter)
      requires calIter.schema == SplineSchema && calIter.Conforming()
      ensures Valid() && fresh(poly) && poly.iter == calIter
      ensures poly.cols == EmptyPolyCols && poly.ok == NoPolyFlags
      ensures knots == EmptyKnotCols && knotsOK == NoKnotFlags
      ensures poly.Snapshot() == poly.Fetched() && KnotSnapshot() == KnotFetched()
    {
      poly := new GJonesPolyMBuf.FromIter(calIter);
      knots := EmptyKnotCols;
      knotsOK := NoKnotFlags;
    }

    /** Invalidate the buffer: the polynomial flags and the four knot flags
        all go down. */
    method Invalidate()
      requires Valid()
      modifies poly`ok, this`knotsOK
      ensures poly.ok == NoPolyFlags && knotsOK == NoKnotFlags
      ensures ConnectedToIter() ==>
        poly.Snapshot() == poly.Fetched() && KnotSnapshot() == KnotFetched()
      ensures !ConnectedToIter() ==>
        poly.Snapshot() == old(poly.Snapshot()) && KnotSnapshot() == old(KnotSnapshot())
    {
      poly.Invalidate();
      knotsOK := NoKnotFlags;
    }

    /** Bring every knot column into the knot buffer fields. */
    method MaterializeKnots()
      requires Valid()
      modifies this`knots, this`knotsOK
      ensures knots == old(KnotSnapshot()) && KnotSnapshot() == old(KnotSnapshot())
      ensures knotsOK == if ConnectedToIter() then AllKnotFlags else old(knotsOK)
    {
      if poly.iter != null {
        knots, knotsOK := KnotView(true, knots, knotsOK, KnotFetched()), AllKnotFlags;
      }
    }

    /** The number of rows in the buffer: the longest column, polynomial or
        knot, every column being brought in on the way. */
    method NRow() returns (n: nat)
      requires Valid()
      modifies poly`cols, poly`ok, this`knots, this`knotsOK
      ensures n == Max(MaxRows(old(poly.Snapshot())), KnotMaxRows(old(KnotSnapshot())))
      ensures poly.cols == old(poly.Snapshot()) && poly.Snapshot() == old(poly.Snapshot())
      ensures knots == old(KnotSnapshot()) && KnotSnapshot() == old(KnotSnapshot())
      ensures poly.ok == if ConnectedToIter() then AllPolyFlags else old(poly.ok)
      ensures knotsOK == if ConnectedToIter() then AllKnotFlags else old(knotsOK)
    {
      var polyRows := poly.NRow();
      MaterializeKnots();
      n := Max(polyRows, KnotMaxRows(knots));
    }

    /** Write polynomial solution `s` and knot set `k` into each of the rows
        `matchingRows`. Shapes are checked first, then (with every column
        brought in) the rows, against the polynomial and the knot columns
        alike, so that a refused call writes no row at all. */
    method FillMatchingRows(matchingRows: seq<int>, s: PolyRow, k: KnotRow) returns (r: Result<bool>)
      requires Valid()
      modifies poly`cols, poly`ok, this`knots, this`knotsOK
      ensures !PolyShaped(s) || !KnotShaped(k) ==>
        && r == Failure(ValidationError)
        && poly.cols == old(poly.cols) && poly.ok == old(poly.ok)
        && knots == old(knots) && knotsOK == old(knotsOK)
      ensures PolyShaped(s) && KnotShaped(k) &&
              !(InRange(matchingRows, MinRows(old(poly.Snapshot()))) &&
                InRange(matchingRows, KnotMinRows(old(KnotSnapshot())))) ==>
        && r == Failure(IndexError)
        && poly.cols == old(poly.Snapshot()) && knots == old(KnotSnapshot())
      ensures PolyShaped(s) && KnotShaped(k) &&
              InRange(matchingRows, MinRows(old(poly.Snapshot()))) &&
              InRange(matchingRows, KnotMinRows(old(KnotSnapshot()))) ==>
        && r == Success(|matchingRows| > 0)
        && poly.cols == FillPoly(old(poly.Snapshot()), matchingRows, s)
        && knots == FillKnots(old(KnotSnapshot()), matchingRows, k)
      ensures PolyShaped(s) && KnotShaped(k) ==>
        && poly.Snapshot() == poly.cols && KnotSnapshot() == knots
        && poly.ok == (if ConnectedToIter() then AllPolyFlags else old(poly.ok))
        && knotsOK == (if ConnectedToIter() then AllKnotFlags else old(knotsOK))
    {
      if !PolyShaped(s) || !KnotShaped(k) {
        return Failure(ValidationError);
      }
      poly.Materialize();
      MaterializeKnots();
      var kc := knots;
      if !(InRange(matchingRows, MinRows(poly.cols)) && InRange(matchingRows, KnotMinRows(kc))) {
        return Failure(IndexError);
      }
      r := poly.FillMatchingRows(matchingRows, s);
      var j := 0;
      while j < |matchingRows|
        invariant 0 <= j <= |matchingRows|
        invariant InRange(matchingRows[..j], KnotMinRows(kc))
        invariant knots == FillKnots(kc, matchingRows[..j], k)
        modifies this`knots
      {
        var row := matchingRows[j];
        assert matchingRows[..j + 1] == matchingRows[..j] + [row];
        FillKnotsStep(kc, matchingRows[..j], row, k);
        knots := SetKnotRow(knots, row, k);
        j := j + 1;
      }
      assert matchingRows[..j] == matchingRows;
    }

    /** Write the buffer's rows, polynomial solution and knots together, at
        the end of a GJonesSpline cal table and return the index of the
        first new row. A table of another kind is refused, and so is a
        buffer with no rows or with columns of unequal length. */
    method Append(table: CalTable) returns (r: Result<int>)
      requires Valid() && table.Valid()
      modifies poly`cols, poly`ok, this`knots, this`knotsOK, table`rows
      ensures table.Valid()
      ensures poly.cols == old(poly.Snapshot()) && poly.Snapshot() == old(poly.Snapshot())
      ensures knots == old(KnotSnapshot()) && KnotSnapshot() == old(KnotSnapshot())
      ensures poly.ok == if ConnectedToIter() then AllPolyFlags else old(poly.ok)
      ensures knotsOK == if ConnectedToIter() then AllKnotFlags else old(knotsOK)
      ensures table.schema != SplineSchema ==>
        r == Failure(PersistenceError) && table.rows == old(table.rows)
      ensures table.schema == SplineSchema &&
              !SplineAppendable(old(poly.Snapshot()), old(KnotSnapshot())) ==>
        r == Failure(StateError) && table.rows == old(table.rows)
      ensures table.schema == SplineSchema &&
              SplineAppendable(old(poly.Snapshot()), old(KnotSnapshot())) ==>
        var n := MaxRows(old(poly.Snapshot()));
        && r == Success(|old(table.rows)|)
        && table.rows == old(table.rows) +
             SplineTableRows(PolyRows(old(poly.Snapshot()), n), KnotRows(old(KnotSnapshot()), n))
    {
      poly.Materialize();
      MaterializeKnots();
      if table.schema != SplineSchema {
        return Failure(PersistenceError);
      }
      if !SplineAppendable(poly.cols, knots) {
        return Failure(StateError);
      }
      var n := MaxRows(poly.cols);
      r := Success(|table.rows|);
      table.AddRows(SplineTableRows(PolyRows(poly.cols, n), KnotRows(knots, n)));
    }

    // Data field accessors for the knot columns.

    method NKnotsAmp() returns (v: seq<int>)
      requires Valid()
      modifies this`knots, this`knotsOK
      ensures v == old(KnotSnapshot()).nKnotsAmp && knots == old(knots).(nKnotsAmp := v)
      ensures knotsOK == if ConnectedToIter() then old(knotsOK).(nKnotsAmp := true) else old(knotsOK)
      ensures KnotSnapshot() == old(KnotSnapshot())
    {
      if poly.iter != null && !knotsOK.nKnotsAmp {
        knots, knotsOK := knots.(nKnotsAmp := KnotFetched().nKnotsAmp), knotsOK.(nKnotsAmp := true);
      }
      v := knots.nKnotsAmp;
    }

    method NKnotsPhase() returns (v: seq<int>)
      requires Valid()
      modifies this`knots, this`knotsOK
      ensures v == old(KnotSnapshot()).nKnotsPhase && knots == old(knots).(nKnotsPhase := v)
      ensures knotsOK == if ConnectedToIter() then old(knotsOK).(nKnotsPhase := true) else old(knotsOK)
      ensures KnotSnapshot() == old(KnotSnapshot())
    {
      if poly.iter != null && !knotsOK.nKnotsPhase {
        knots, knotsOK := knots.(nKnotsPhase := KnotFetched().nKnotsPhase), knotsOK.(nKnotsPhase := true);
      }
      v := knots.nKnotsPhase;
    }

    method SplineKnotsAmp() returns (v: seq<seq<real>>)
      requires Valid()
      modifies this`knots, this`knotsOK
      ensures v == old(KnotSnapshot()).splineKnotsAmp && knots == old(knots).(splineKnotsAmp := v)
      ensures knotsOK == if ConnectedToIter() then old(knotsOK).(splineKnotsAmp := true) else old(knotsOK)
      ensures KnotSnapshot() == old(KnotSnapshot())
    {
      if poly.iter != null && !knotsOK.splineKnotsAmp {
        knots, knotsOK := knots.(splineKnotsAmp := KnotFetched().splineKnotsAmp), knotsOK.(splineKnotsAmp := true);
      }
      v := knots.splineKnotsAmp;
    }

    method SplineKnotsPhase() returns (v: seq<seq<real>>)
      requires Valid()
      modifies this`knots, this`knotsOK
      ensures v == old(KnotSnapshot()).splineKnotsPhase && knots == old(knots).(splineKnotsPhase := v)
      ensures knotsOK == if ConnectedToIter() then old(knotsOK).(splineKnotsPhase := true) else old(knotsOK)
      ensures KnotSnapshot() == old(KnotSnapshot())
    {
      if poly.iter != null && !knotsOK.splineKnotsPhase {
        knots, knotsOK := knots.(splineKnotsPhase := KnotFetched().splineKnotsPhase), knotsOK.(splineKnotsPhase := true);
      }
      v := knots.splineKnotsPhase;
    }
  }

  /** The rows a poly append writes read back, through the iterator's
      column view, as the columns they were written from. */
  lemma AppendedPolyReadBack(c: PolyCols)
    requires Appendable(c)
    ensures |PolyTableRows(PolyRows(c, MaxRows(c)))| == MaxRows(c)
    ensures FetchPoly(PolyPart(PolyTableRows(PolyRows(c, MaxRows(c))))) == c
  {
    var ps := PolyRows(c, MaxRows(c));
    assert PolyPart(PolyTableRows(ps)) == ps;
    FetchPolyRows(c, MaxRows(c));
  }

  /** The rows a spline append writes read back as both the polynomial and
      the knot columns they were written from. */
  lemma AppendedSplineReadBack(c: PolyCols, k: KnotCols)
    requires SplineAppendable(c, k)
    ensures var rows := SplineTableRows(PolyRows(c, MaxRows(c)), KnotRows(k, MaxRows(c)));
      && |rows| == MaxRows(c)
      && (forall i :: 0 <= i < |rows| ==> Conforms(rows[i], SplineSchema))
      && FetchPoly(PolyPart(rows)) == c
      && FetchKnots(KnotPart(rows)) == k
  {
    var n := MaxRows(c);
    SplineTableRowsParts(PolyRows(c, n), KnotRows(k, n));
    FetchPolyRows(c, n);
    FetchKnotRows(k, n);
  }

  /** A spline fill followed by an append: the appended row `i` holds the
      new solution and knots when `i` is a matching row, and what an append
      before the fill would have written otherwise. */
  lemma FilledSplineRowAt(c: PolyCols, k: KnotCols, n: nat, rows: seq<int>, s: PolyRow, ks: KnotRow, i: nat)
    requires Uniform(c, n) && KnotUniform(k, n) && InRange(rows, n) && i < n
    ensures Uniform(FillPoly(c, rows, s), n) && KnotUniform(FillKnots(k, rows, ks), n)
    ensures SplineTableRows(PolyRows(FillPoly(c, rows, s), n), KnotRows(FillKnots(k, rows, ks), n))[i]
      == if i in rows then CalRow(s, Some(ks)) else SplineTableRows(PolyRows(c, n), KnotRows(k, n))[i]
  {
    FillPolyRowAt(c, n, rows, s, i);
    FillKnotsRowAt(k, n, rows, ks, i);
  }

  /** Two calls of an accessor with no invalidate between them return the
      same column, the one the buffer showed before the first call. */
  method PolyTypeTwice(b: GJonesPolyMBuf) returns (first: seq<string>, second: seq<string>)
    modifies b`cols, b`ok
    ensures first == second == old(b.Snapshot()).polyType
  {
    first := b.PolyType();
    second := b.PolyType();
  }

  /** A bound buffer that is invalidated after its iterator advances shows
      the rows at the iterator's new position, not the cached ones. */
  method RereadAfterNext(b: GJonesPolyMBuf) returns (v: seq<string>)
    requires b.ConnectedToIter()
    modifies b.iter`pos, b`cols, b`ok
    ensures v == FetchPoly(PolyPart(b.iter.rowsAt(old(b.iter.pos) + 1))).polyType
  {
    b.iter.Next();
    b.Invalidate();
    v := b.PolyType();
  }
}
