/** Value types shared by the GJonesPoly and GJonesSpline calibration main
    table buffers: the payload of one table row, the table kinds, and the
    error outcomes of the buffer operations. Numeric payloads (complex scale
    factors, coefficients, knots, reference frequencies) are carried through
    unchanged and never computed on. */
module CalTypes {

  datatype Option<T> = None | Some(value: T)

  /** The failure kinds of the buffer operations. */
  datatype CalError =
    | StateError        // required columns cannot be made valid (e.g. an empty buffer)
    | ValidationError   // a solution whose array shapes disagree with its counts
    | IndexError        // a matching row outside the buffer
    | PersistenceError  // a target table of the wrong kind

  datatype Result<T> = Success(value: T) | Failure(error: CalError)

  /** A complex number, as an opaque pair. */
  datatype Complex = Complex(re: real, im: real)

  /** A frequency measure, as an opaque value and reference frame. */
  datatype Frequency = Frequency(hz: real, frame: string)

  /** The parametrised solution of one row of a GJonesPoly table: the inherited
      attribute columns that fillMatchingRows writes (frequency group name,
      reference frequency, reference antenna) and the eight polynomial columns. */
  datatype PolyRow = PolyRow(
    freqGrpName: string,
    polyType: string,
    polyMode: string,
    scaleFactor: Complex,
    nPolyAmp: int,
    nPolyPhase: int,
    polyCoeffAmp: seq<real>,
    polyCoeffPhase: seq<real>,
    phaseUnits: string,
    refFreq: Frequency,
    refAnt: int)

  /** The spline knots of one row of a GJonesSpline table. */
  datatype KnotRow = KnotRow(
    nKnotsAmp: int,
    nKnotsPhase: int,
    splineKnotsAmp: seq<real>,
    splineKnotsPhase: seq<real>)

  /** The two kinds of cal table a buffer can be bound to or appended to. */
  datatype Schema = PolySchema | SplineSchema

  /** One persisted cal table row; a spline table row also carries knots. */
  datatype CalRow = CalRow(poly: PolyRow, knots: Option<KnotRow>)

  predicate Conforms(r: CalRow, schema: Schema)
  {
    r.knots.Some? <==> schema == SplineSchema
  }

  /** A polynomial solution whose coefficient vectors hold degree + 1 terms. */
  predicate PolyShaped(r: PolyRow)
  {
    |r.polyCoeffAmp| == r.nPolyAmp + 1 && |r.polyCoeffPhase| == r.nPolyPhase + 1
  }

  /** Knot positions that never decrease along the row. */
  predicate NonDecreasing(xs: seq<real>)
  {
    forall i, j :: 0 <= i < j < |xs| ==> xs[i] <= xs[j]
  }

  /** A knot set whose position vectors hold as many knots as counted, in
      order. */
  predicate KnotShaped(k: KnotRow)
  {
    && |k.splineKnotsAmp| == k.nKnotsAmp && |k.splineKnotsPhase| == k.nKnotsPhase
    && NonDecreasing(k.splineKnotsAmp) && NonDecreasing(k.splineKnotsPhase)
  }

  /** The attribute values a detached buffer gives each row of its non-index
      columns: empty labels, zero counts and a single zero coefficient. */
  const DefaultPolyRow: PolyRow :=
    PolyRow("", "", "", Complex(0.0, 0.0), 0, 0, [0.0], [0.0], "", Frequency(0.0, ""), 0)

  const DefaultKnotRow: KnotRow := KnotRow(0, 0, [], [])
}
