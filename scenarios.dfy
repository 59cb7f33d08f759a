/** Worked uses of the buffers: a fill of rows 0 and 2 of a 3-row buffer, a
    double append, and the knot-order check, on detached buffers built from
    explicit index values. */
module GJonesScenarios {
  import opened CalTypes
  import opened Columns
  import opened PolyColumns
  import opened KnotColumns
  import opened CalStorage
  import opened GJonesMBuf

  /** A solution with a degree-2 amplitude polynomial (three coefficients)
      and a degree-0 phase polynomial. */
  const Quadratic: PolyRow :=
    DefaultPolyRow.(polyType := "A&P", nPolyAmp := 2, polyCoeffAmp := [1.0, 0.5, 0.25])

  /** Filling rows 0 and 2 of a 3-row buffer writes those two rows and leaves
      row 1 as it was. */
  method FillRowsZeroAndTwo()
  {
    var b := new GJonesPolyMBuf.FromIndices([0], [[10, 11, 12]]);
    assert IndexRows([[10, 11, 12]]) == 3;
    var n := b.NRow();
    assert n == 3;
    var before := b.cols;
    var r := b.FillMatchingRows([0, 2], Quadratic);
    assert r == Success(true);
    FillPolyRowAt(before, 3, [0, 2], Quadratic, 0);
    FillPolyRowAt(before, 3, [0, 2], Quadratic, 1);
    FillPolyRowAt(before, 3, [0, 2], Quadratic, 2);
    assert PolyRows(b.cols, 3) == [Quadratic, DefaultPolyRow, Quadratic];
  }

  /** A degree-2 solution with only two coefficients, and a row past the
      end of a 3-row buffer, are both refused and change nothing. */
  method FillRefusals()
  {
    var b := new GJonesPolyMBuf.FromIndices([0], [[10, 11, 12]]);
    assert IndexRows([[10, 11, 12]]) == 3;
    var before := b.cols;
    var bad := b.FillMatchingRows([1], Quadratic.(polyCoeffAmp := [1.0, 0.5]));
    assert bad == Failure(ValidationError) && b.cols == before;

    var outside := b.FillMatchingRows([3], Quadratic);
    assert outside == Failure(IndexError) && b.cols == before;
  }

  /** Appending a 2-row buffer to an empty table gives 2 rows holding the
      buffer's rows; appending again gives 4 rows with the first 2 unchanged.
      An empty buffer and a table of the other kind are refused. */
  method AppendTwice()
  {
    var b := new GJonesPolyMBuf.FromIndices([0], [[7, 8]]);
    assert IndexRows([[7, 8]]) == 2;
    var t := new CalTable(PolySchema);
    var r1 := b.Append(t);
    assert r1 == Success(0) && |t.rows| == 2;
    assert t.rows == PolyTableRows([DefaultPolyRow, DefaultPolyRow]);
    var first := t.rows;
    var r2 := b.Append(t);
    assert r2 == Success(2) && |t.rows| == 4 && t.rows[..2] == first;

    var empty := new GJonesPolyMBuf();
    var r3 := empty.Append(t);
    assert r3 == Failure(StateError) && |t.rows| == 4;

    var splines := new CalTable(SplineSchema);
    var r4 := b.Append(splines);
    assert r4 == Failure(PersistenceError) && splines.rows == [];
  }

  /** A spline fill refuses knots out of order and accepts them in order. */
  method KnotOrder()
  {
    var b := new GJonesSplineMBuf.FromIndices([0], [[5]]);
    assert IndexRows([[5]]) == 1;
    var ordered := [0.0, 2.5, 5.0];
    var unordered := [0.0, 5.0, 3.0];
    assert unordered[1] > unordered[2];
    var r1 := b.FillMatchingRows([0], DefaultPolyRow, KnotRow(3, 3, unordered, ordered));
    assert r1 == Failure(ValidationError);
    var r2 := b.FillMatchingRows([0], DefaultPolyRow, KnotRow(3, 3, ordered, ordered));
    assert r2 == Success(true);
  }
}
