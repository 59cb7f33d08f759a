# GJonesPoly / GJonesSpline calibration main table buffers

This project models the GJonesPoly and GJonesSpline calibration main table buffers in Dafny. These buffers are in-memory caches of the rows of a calibration table. A GJonesPoly row holds an electronic-gain solution expressed as polynomials over time: polynomial type and mode, scale factor, amplitude and phase degrees, amplitude and phase coefficients, and phase units. It also holds the inherited attributes that `fillMatchingRows` writes: frequency group name, reference frequency and reference antenna. A GJonesSpline row adds the knot counts and knot positions of the amplitude and phase splines.

A buffer is either *detached* or *bound*:

- A detached buffer comes from the default constructor or from explicit index values. It only ever shows what was stored in it.
- A bound buffer comes from a cal table iterator. Each column has a buffer field and a status flag. While a column's flag is down, its accessor reads the column from the iterator's current rows, stores it and raises the flag. `invalidate()` lowers every flag, so the buffer re-reads once the iterator has moved.

The buffers have three further operations:

- `fillMatchingRows` writes one solution into a chosen set of rows.
- `append` copies the buffer's rows to the end of a cal table.
- `nRow` reports the number of rows.

Modules:

- `CalTypes` (`cal_types.dfy`) defines the row payloads, table kinds, error kinds and default attribute values.
- `Columns` (`columns.dfy`) defines the per-column building blocks. `Seen` is what an accessor returns for one column. `Scatter` is the row-by-row write of `fillMatchingRows`. It also defines the row count of an index-value construction.
- `PolyColumns` and `KnotColumns` (`poly_columns.dfy`, `knot_columns.dfy`) hold the buffer fields and status flags as records with one entry per column. They also define the column views, the row/column conversions with their round trips, and fill as a function with its row-by-row meaning.
- `CalStorage` (`cal_storage.dfy`) holds the collaborators as the buffers see them. The iterator is a fixed function from position to rows plus a movable position. The cal table is a schema plus an append-only row sequence.
- `GJonesMBuf` (`gjones_mbuf.dfy`) holds the two buffer classes and the lemmas that tie append and fill to read-back.
- `GJonesScenarios` (`scenarios.dfy`) works through a fill of rows 0 and 2 of a 3-row buffer, a double append and the knot-order check.

Inheritance becomes composition. `GJonesSplineMBuf` holds a `GJonesPolyMBuf` (`poly`) bound to the same iterator. The knot fields and flags are its own.

`Snapshot()` / `KnotSnapshot()` is what the accessors would return right now. Every accessor, `nRow`, `append` and a successful fill keeps it unchanged, or moves it exactly as stated.

## Model

| member | source | states |
|---|---|---|
| GJonesMBuf.GJonesPolyMBuf.constructor | code/synthesis/CalTables/GJonesMBuf.h:80-82 | Detached (no iterator connection), no columns, every flag down. |
| GJonesMBuf.GJonesPolyMBuf.FromIndices | code/synthesis/CalTables/GJonesMBuf.h:84-89 | Detached; the buffer has as many rows as the longest index value vector; every row holds the default attribute values, so every row's coefficient vectors are degree + 1 long. |
| GJonesMBuf.GJonesPolyMBuf.FromIter | code/synthesis/CalTables/GJonesMBuf.h:91-93 | Bound to the given iterator with every flag down, so every accessor shows the iterator's current rows. |
| GJonesMBuf.GJonesPolyMBuf.Invalidate | code/synthesis/CalTables/GJonesMBuf.h:95-97 | Every status flag is false afterwards. A bound buffer then shows the iterator's current rows instead of the cache. A detached buffer shows exactly what it showed before. |
| GJonesMBuf.GJonesPolyMBuf.Materialize | code/synthesis/CalTables/GJonesMBuf.h:153-171 | Brings every column into its buffer field and raises every flag of a bound buffer, without changing what the accessors show. |
| GJonesMBuf.GJonesPolyMBuf.NRow | code/synthesis/CalTables/GJonesMBuf.h:102-103 | Returns the length of the longest column as the accessors show it; the visible contents are unchanged. |
| GJonesMBuf.GJonesPolyMBuf.FillMatchingRows | code/synthesis/CalTables/GJonesMBuf.h:105-116 | A solution whose coefficient vectors are not degree + 1 long gives ValidationError and changes nothing. A row outside the buffer gives IndexError and writes no row. Otherwise the columns become `FillPoly` of the previous columns: the solution is in exactly the listed rows, and the result says whether any row was listed. |
| GJonesMBuf.GJonesPolyMBuf.Append | code/synthesis/CalTables/GJonesMBuf.h:99-100 | With a GJonesPoly table and a non-empty buffer whose columns have equal length, the buffer's rows are added after the existing table rows, in order, and the result is the index of the first new row. A table of another kind gives PersistenceError; an empty or ragged buffer gives StateError; in both cases the table is unchanged. The buffer's visible contents never change. |
| GJonesMBuf.GJonesPolyMBuf.PolyType | code/synthesis/CalTables/GJonesMBuf.h:119 | Returns the polyType column as the buffer shows it; only that column's field and flag may change, and the visible contents do not. |
| GJonesMBuf.GJonesPolyMBuf.PolyMode | code/synthesis/CalTables/GJonesMBuf.h:120 | As PolyType, for the polyMode column. |
| GJonesMBuf.GJonesPolyMBuf.ScaleFactor | code/synthesis/CalTables/GJonesMBuf.h:121 | As PolyType, for the scaleFactor column. |
| GJonesMBuf.GJonesPolyMBuf.NPolyAmp | code/synthesis/CalTables/GJonesMBuf.h:122 | As PolyType, for the nPolyAmp column. |
| GJonesMBuf.GJonesPolyMBuf.NPolyPhase | code/synthesis/CalTables/GJonesMBuf.h:123 | As PolyType, for the nPolyPhase column. |
| GJonesMBuf.GJonesPolyMBuf.PolyCoeffAmp | code/synthesis/CalTables/GJonesMBuf.h:124 | As PolyType, for the polyCoeffAmp column. |
| GJonesMBuf.GJonesPolyMBuf.PolyCoeffPhase | code/synthesis/CalTables/GJonesMBuf.h:125 | As PolyType, for the polyCoeffPhase column. |
| GJonesMBuf.GJonesPolyMBuf.PhaseUnits | code/synthesis/CalTables/GJonesMBuf.h:126 | As PolyType, for the phaseUnits column. |
| GJonesMBuf.GJonesSplineMBuf.constructor | code/synthesis/CalTables/GJonesMBuf.h:216-218 | Detached and empty, with every polynomial flag and knot flag down. |
| GJonesMBuf.GJonesSplineMBuf.FromIndices | code/synthesis/CalTables/GJonesMBuf.h:220-225 | Detached; every row the index values define holds the default attributes and the default (empty) knots, so every row's knots match their counts and are in order. |
| GJonesMBuf.GJonesSplineMBuf.FromIter | code/synthesis/CalTables/GJonesMBuf.h:227-229 | Bound to an iterator over a spline table with every flag down, so both the polynomial and the knot accessors show the iterator's current rows. |
| GJonesMBuf.GJonesSplineMBuf.Invalidate | code/synthesis/CalTables/GJonesMBuf.h:231-233 | Every polynomial flag and all four knot flags are false afterwards. A bound buffer shows the iterator's current rows; a detached one is unchanged. |
| GJonesMBuf.GJonesSplineMBuf.MaterializeKnots | code/synthesis/CalTables/GJonesMBuf.h:289-299 | Brings the four knot columns into their fields and raises their flags, without changing what the knot accessors show. |
| GJonesMBuf.GJonesSplineMBuf.NRow | code/synthesis/CalTables/GJonesMBuf.h:238-239 | Returns the longest column, polynomial or knot, as the accessors show them; the visible contents are unchanged. |
| GJonesMBuf.GJonesSplineMBuf.FillMatchingRows | code/synthesis/CalTables/GJonesMBuf.h:241-256 | An ill-shaped solution, a knot count that disagrees with its knot vector, or knots out of order gives ValidationError and changes nothing. A row outside either the polynomial or the knot columns gives IndexError and writes no row. Otherwise the solution and the knots go into exactly the listed rows. |
| GJonesMBuf.GJonesSplineMBuf.Append | code/synthesis/CalTables/GJonesMBuf.h:235-236 | With a GJonesSpline table and a non-empty buffer whose polynomial and knot columns all have one length, each buffer row is added after the existing rows, paired with its knots. Otherwise PersistenceError or StateError, and the table is unchanged. The buffer's visible contents never change. |
| GJonesMBuf.GJonesSplineMBuf.NKnotsAmp | code/synthesis/CalTables/GJonesMBuf.h:259 | Returns the nKnotsAmp column as the buffer shows it; only that column's field and flag may change, and the visible knots do not. |
| GJonesMBuf.GJonesSplineMBuf.NKnotsPhase | code/synthesis/CalTables/GJonesMBuf.h:260 | As NKnotsAmp, for the nKnotsPhase column. |
| GJonesMBuf.GJonesSplineMBuf.SplineKnotsAmp | code/synthesis/CalTables/GJonesMBuf.h:261 | As NKnotsAmp, for the splineKnotsAmp column. |
| GJonesMBuf.GJonesSplineMBuf.SplineKnotsPhase | code/synthesis/CalTables/GJonesMBuf.h:262 | As NKnotsAmp, for the splineKnotsPhase column. |
| GJonesMBuf.AppendedPolyReadBack | code/synthesis/CalTables/GJonesMBuf.h:99-100 | The rows a poly append writes number as many as the buffer's rows. Read back as columns, they equal the buffer's columns. |
| GJonesMBuf.AppendedSplineReadBack | code/synthesis/CalTables/GJonesMBuf.h:235-236 | The rows a spline append writes belong to a spline table. Read back, they give the buffer's polynomial columns and its knot columns. |
| GJonesMBuf.FilledSplineRowAt | code/synthesis/CalTables/GJonesMBuf.h:241-256 | After a spline fill, the appended row i holds the new solution and knots if i was listed. Otherwise it is the row an append before the fill would have written. |
| GJonesMBuf.PolyTypeTwice | code/synthesis/CalTables/GJonesMBuf.h:118-126 | Two accessor calls with no invalidate between them return the same column. |
| GJonesMBuf.RereadAfterNext | code/synthesis/CalTables/GJonesMBuf.h:95-97 | A bound buffer invalidated after its iterator advances shows the rows at the new position. |
| Columns.Scatter | code/synthesis/CalTables/GJonesMBuf.h:105-116 | Writing a value into a column at each listed row, in turn, leaves the column's length as it was. Afterwards each listed row holds the value and every other row keeps its entry. |
| Columns.ScatterIdempotent | code/synthesis/CalTables/GJonesMBuf.h:105-116 | Writing the same value into the same rows twice gives the same column as writing it once. |
| Columns.Repeat | code/synthesis/CalTables/GJonesMBuf.h:84-89 | A column of n copies of the default value: n long, every entry the default. |
| Columns.IndexRows | code/synthesis/CalTables/GJonesMBuf.h:84-89 | The row count of an index-value construction. It is the length of some index value vector, no vector is longer, and it is 0 when there are none. |
| PolyColumns.PolyView | code/synthesis/CalTables/GJonesMBuf.h:153-171 | What the accessors show. A detached buffer, or a bound one with every flag up, shows its buffer fields. A bound buffer with every flag down shows the iterator's current rows. |
| PolyColumns.MaxRows | code/synthesis/CalTables/GJonesMBuf.h:102-103 | No column is longer than the result, and on columns of equal length n it is n. |
| PolyColumns.MinRows | code/synthesis/CalTables/GJonesMBuf.h:105-116 | No column is shorter than the result, and on columns of equal length n it is n. This is the bound a matching row must stay under. |
| PolyColumns.FetchPoly | code/synthesis/CalTables/GJonesMBuf.h:91-93 | The columns of a set of rows have one entry per row. |
| PolyColumns.PolyRows | code/synthesis/CalTables/GJonesMBuf.h:99-100 | The rows of n-long columns number n. |
| PolyColumns.FetchPolyRows | code/synthesis/CalTables/GJonesMBuf.h:99-100 | Turning columns into rows and back gives the same columns. |
| PolyColumns.PolyRowsFetch | code/synthesis/CalTables/GJonesMBuf.h:84-89 | Turning rows into columns and back gives the same rows. |
| PolyColumns.FillPoly | code/synthesis/CalTables/GJonesMBuf.h:105-116 | The polynomial fill as a function: it keeps every column's length. |
| PolyColumns.SetRow | code/synthesis/CalTables/GJonesMBuf.h:105-116 | Writing one row keeps every column's length, and reading that row back gives the solution. |
| PolyColumns.FillPolyStep | code/synthesis/CalTables/GJonesMBuf.h:105-116 | Filling one more listed row is the same as writing the solution into that row of the columns filled so far. This is the step of the fill loop. |
| PolyColumns.FillPolyRowAt | code/synthesis/CalTables/GJonesMBuf.h:105-116 | After a fill, a listed row holds the solution and every other row is unchanged. |
| PolyColumns.FillPolyIdempotent | code/synthesis/CalTables/GJonesMBuf.h:105-116 | Filling the same rows with the same solution twice is the same as filling them once. |
| PolyColumns.FillPolyKeepsShape | code/synthesis/CalTables/GJonesMBuf.h:105-116 | If every row's coefficient vectors are degree + 1 long before a fill with a well-shaped solution, they still are after it. |
| KnotColumns.KnotView | code/synthesis/CalTables/GJonesMBuf.h:289-299 | What the knot accessors show: the knot fields when detached or fully cached, and the iterator's current knots when bound with every knot flag down. |
| KnotColumns.KnotMaxRows | code/synthesis/CalTables/GJonesMBuf.h:238-239 | No knot column is longer than the result, and on knot columns of equal length n it is n. |
| KnotColumns.KnotMinRows | code/synthesis/CalTables/GJonesMBuf.h:241-256 | No knot column is shorter than the result, and on knot columns of equal length n it is n. |
| KnotColumns.FetchKnots | code/synthesis/CalTables/GJonesMBuf.h:227-229 | The knot columns of a set of knot rows have one entry per row. |
| KnotColumns.KnotRows | code/synthesis/CalTables/GJonesMBuf.h:235-236 | The knot rows of n-long knot columns number n. |
| KnotColumns.FetchKnotRows | code/synthesis/CalTables/GJonesMBuf.h:235-236 | Turning knot columns into rows and back gives the same knot columns. |
| KnotColumns.KnotRowsFetch | code/synthesis/CalTables/GJonesMBuf.h:220-225 | Turning knot rows into columns and back gives the same rows. |
| KnotColumns.FillKnots | code/synthesis/CalTables/GJonesMBuf.h:241-256 | The knot fill as a function: it keeps every knot column's length. |
| KnotColumns.SetKnotRow | code/synthesis/CalTables/GJonesMBuf.h:241-256 | Writing one knot row keeps every knot column's length. |
| KnotColumns.FillKnotsStep | code/synthesis/CalTables/GJonesMBuf.h:241-256 | Filling one more listed row is the same as writing the knots into that row of the knot columns filled so far. |
| KnotColumns.FillKnotsRowAt | code/synthesis/CalTables/GJonesMBuf.h:241-256 | After a knot fill, a listed row holds the new knots and every other row keeps its knots. |
| KnotColumns.FillKnotsKeepsShape | code/synthesis/CalTables/GJonesMBuf.h:241-256 | If every row's knot vectors match their counts and are in order before a fill with well-shaped knots, they still are after it. |
| CalStorage.CalIter.Next | code/synthesis/CalTables/GJonesMBuf.h:95-97 | Advancing the iterator moves it to the next solution set. |
| CalStorage.CalTable.AddRows | code/synthesis/CalTables/GJonesMBuf.h:99-100 | The table grows by exactly the given rows, added after the existing ones, and keeps holding only rows of its kind. |
| CalStorage.PolyPart | code/synthesis/CalTables/GJonesMBuf.h:91-93 | The polynomial part of each row that a bound buffer reads, one per row and in order. |
| CalStorage.KnotPart | code/synthesis/CalTables/GJonesMBuf.h:227-229 | The knots of each spline table row that a bound spline buffer reads, one per row and in order. |
| CalStorage.PolyTableRows | code/synthesis/CalTables/GJonesMBuf.h:99-100 | One GJonesPoly table row per solution, in order, with no knots. |
| CalStorage.SplineTableRows | code/synthesis/CalTables/GJonesMBuf.h:235-236 | One GJonesSpline table row per solution, paired with the knots at the same position. |
| CalStorage.SplineTableRowsParts | code/synthesis/CalTables/GJonesMBuf.h:235-236 | Splitting spline table rows back into their polynomial parts and their knots gives the two sequences they were built from. |

## Left out

- GJonesMBuf.h declares these members without defining them, and the definitions are not part of this model. Where the header's comments are silent, this model chooses:
  - the error kinds StateError, ValidationError, IndexError and PersistenceError;
  - append's return value, the index of the first new row;
  - fillMatchingRows' boolean result, which says whether any row was listed;
  - the row count of an index-value construction: the length of the longest index value vector, 0 when there are none (one row per combination of index values would be another reading).
- The cal table iterator (`CalIterBase`), the cal tables (`CalTable`, `GJonesPolyTable`, `GJonesSplineTable`) and the column accessor factories `newCalMainCol` / `calMainCol` (GJonesMBuf.h:131-136, 267-272) are the storage engine. They are reduced to an iterator that maps positions to rows and to a table that is a schema plus an append-only row sequence. An append to a table of the wrong kind becomes PersistenceError.
- `fillAttributes(calIndices, VisBuffer)` (GJonesMBuf.h:145-146, 281-282) does nothing and is marked not yet implemented, so it is not modelled.
- `fillAttributes(calIndices)` (GJonesMBuf.h:148-149) supplies default attribute values that the header does not list. This model chooses these defaults:
  - empty strings and zero numbers;
  - degree-0 polynomials with one zero coefficient;
  - no knots.
- Accessors return the column as a value. The write-through aliasing of the returned mutable reference is not modelled. A caller changes buffer contents only through fillMatchingRows.
- Of the inherited and index columns, only frequency group name, reference frequency and reference antenna are modelled, because fillMatchingRows writes them. Their fields and flags live in the base classes, which are not part of this model; here they sit beside the eight polynomial columns. Index values only fix the row count of a detached buffer.
- The `Int` results of `nRow` and `append` are unbounded integers, so 32-bit limits are not modelled.
- `MFrequency` measures, `Complex` and `Double` are opaque payloads. They are carried through unchanged and only compared, never computed on.
- Coefficient and knot arrays are one vector per row. Their multi-dimensional `Array` layout is not modelled.
- GJonesSplineMBuf derives from GJonesPolyMBuf in the source; here it holds one. Virtual dispatch through a base-class reference is not modelled.
- GJonesMBuf.GJonesSplineMBuf.FillMatchingRows: the model's knot check accepts equal neighbouring knots and refuses a knot smaller than the one before it.
- GJonesMBuf.GJonesPolyMBuf.Append: a poly buffer refuses a GJonesSpline table with PersistenceError. In the source, GJonesSplineMCol derives from GJonesPolyMCol (GJonesMBuf.h:131-132, 267-268), so the cast to a poly table may well accept a spline table and write the polynomial columns into it. The model does not cover that case.
- GJonesMBuf.GJonesSplineMBuf.FromIter: the model requires an iterator over a GJonesSpline table whose rows all carry knots. The source accepts any `CalIterBase` (GJonesMBuf.h:229), and its casts to the spline column accessor (GJonesMBuf.h:268, 272) fail on any other table. The model does not cover binding to another kind of table.
