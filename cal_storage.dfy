/** The two collaborators the buffers talk to, reduced to what the buffers
    see of them: a cal table iterator, which exposes the rows of the solution
    set at its current position, and a cal table, which only grows by
    appended rows. */
module CalStorage {
  import opened CalTypes

  /** A cal table iterator. Which rows each position holds is fixed when the
      iterator is made; only the position moves. */
  class CalIter {
    const schema: Schema
    const rowsAt: nat -> seq<CalRow>
    var pos: nat

    /** Every row the iterator can expose belongs to a table of its kind. */
    ghost predicate Conforming()
    {
      forall p: nat, i :: 0 <= i < |rowsAt(p)| ==> Conforms(rowsAt(p)[i], schema)
    }

    constructor (schema: Schema, rowsAt: nat -> seq<CalRow>)
      ensures this.schema == schema && this.rowsAt == rowsAt && pos == 0
    {
      this.schema := schema;
      this.rowsAt := rowsAt;
      pos := 0;
    }

    /** The rows of the solution set at the current position. */
    function CurrentRows(): seq<CalRow>
      reads this
    {
      rowsAt(pos)
    }

    /** Advance to the next solution set. */
    method Next()
      modifies this`pos
      ensures pos == old(pos) + 1
    {
      pos := pos + 1;
    }
  }

  /** A cal table: its kind and its main-table rows. */
  class CalTable {
    const schema: Schema
    var rows: seq<CalRow>

    ghost predicate Valid()
      reads this
    {
      forall i :: 0 <= i < |rows| ==> Conforms(rows[i], schema)
    }

    constructor (schema: Schema)
      ensures this.schema == schema && rows == [] && Valid()
    {
      this.schema := schema;
      rows := [];
    }

    /** Add rows at the end of the main table. */
    method AddRows(newRows: seq<CalRow>)
      requires Valid()
      requires forall i :: 0 <= i < |newRows| ==> Conforms(newRows[i], schema)
      modifies this`rows
      ensures Valid()
      ensures rows == old(rows) + newRows
    {
      rows := rows + newRows;
    }
  }

  /** The polynomial part of each of a set of table rows. */
  function PolyPart(rows: seq<CalRow>): (ps: seq<PolyRow>)
    ensures |ps| == |rows|
    ensures forall i :: 0 <= i < |rows| ==> ps[i] == rows[i].poly
  {
    seq(|rows|, i requires 0 <= i < |rows| => rows[i].poly)
  }

  /** The knots of each of a set of spline table rows. */
  function KnotPart(rows: seq<CalRow>): (ks: seq<KnotRow>)
    requires forall i :: 0 <= i < |rows| ==> rows[i].knots.Some?
    ensures |ks| == |rows|
    ensures forall i :: 0 <= i < |rows| ==> Some(ks[i]) == rows[i].knots
  {
    seq(|rows|, i requires 0 <= i < |rows| => rows[i].knots.value)
  }

  /** Rows for a GJonesPoly table, one per polynomial solution. */
  function PolyTableRows(ps: seq<PolyRow>): (rows: seq<CalRow>)
    ensures |rows| == |ps|
    ensures forall i :: 0 <= i < |ps| ==> rows[i] == CalRow(ps[i], None)
  {
    seq(|ps|, i requires 0 <= i < |ps| => CalRow(ps[i], None))
  }

  /** Rows for a GJonesSpline table, pairing each polynomial solution with
      its knots. */
  function SplineTableRows(ps: seq<PolyRow>, ks: seq<KnotRow>): (rows: seq<CalRow>)
    requires |ps| == |ks|
    ensures |rows| == |ps|
    ensures forall i :: 0 <= i < |ps| ==> rows[i] == CalRow(ps[i], Some(ks[i]))
  {
    seq(|ps|, i requires 0 <= i < |ps| => CalRow(ps[i], Some(ks[i])))
  }

  /** Splitting rows written for a spline table gives back both halves. */
  lemma SplineTableRowsParts(ps: seq<PolyRow>, ks: seq<KnotRow>)
    requires |ps| == |ks|
    ensures PolyPart(SplineTableRows(ps, ks)) == ps
    ensures forall i :: 0 <= i < |ps| ==> SplineTableRows(ps, ks)[i].knots.Some?
    ensures KnotPart(SplineTableRows(ps, ks)) == ks
  {
    var rows := SplineTableRows(ps, ks);
    assert forall i :: 0 <= i < |ps| ==> PolyPart(rows)[i] == ps[i];
  }
}
