/** The Core Data side of MapViewModel.swift: the `ExploredCellVisitEntity` row
    and the managed object context, reduced to an append-only row sequence. */
module Persistence {
  import opened Wrappers
  import opened Grid

  /** An `ExploredCellVisitEntity`: 32-bit coordinates and an optional timestamp. */
  datatype Row = Row(x: int32, y: int32, timestamp: Option<Time>)

  /** The row `saveVisit` creates for a visit of `cell` at `t`. */
  function RowOf(cell: GridCell, t: Time): (r: Row)
    requires InInt32(cell)
    ensures CellOf(r) == cell
    ensures forall now :: TimeOf(r, now) == t
  {
    Row(cell.x as int32, cell.y as int32, Some(t))
  }

  /** `GridCell(x: Int(entity.x), y: Int(entity.y))`. */
  function CellOf(row: Row): (c: GridCell)
    ensures InInt32(c)
  {
    GridCell(row.x as int, row.y as int)
  }

  /** `entity.timestamp ?? Date()`, where `now` is the clock reading: the
      stored timestamp when there is one, otherwise `now`. */
  function TimeOf(row: Row, now: Time): (t: Time)
    ensures row.timestamp.Some? ==> t == row.timestamp.value
    ensures row.timestamp.None? ==> t == now
  {
    row.timestamp.GetOr(now)
  }

  /** The managed object context: every entity inserted into it, and how many
      of them (a prefix) the last successful `save()` made durable. */
  class Context {
    var rows: seq<Row>
    var saved: nat

    ghost predicate Valid()
      reads this
    {
      saved <= |rows|
    }

    /** A context opened on a store that already holds `persisted`. */
    constructor (persisted: seq<Row>)
      ensures Valid() && rows == persisted && saved == |persisted|
    {
      rows := persisted;
      saved := |persisted|;
    }

    /** `ExploredCellVisitEntity(context:)`: the new entity belongs to the
        context whether or not it is ever saved. */
    method Insert(row: Row)
      requires Valid()
      modifies this
      ensures Valid()
      ensures rows == old(rows) + [row] && saved == old(saved)
    {
      rows := rows + [row];
    }

    /** `try context.save()`; `succeeds` is the outcome of the store write.
        A failure keeps the pending rows in the context. */
    method Save(succeeds: bool) returns (ok: bool)
      requires Valid()
      modifies this
      ensures Valid() && ok == succeeds && rows == old(rows)
      ensures saved == if ok then |rows| else old(saved)
    {
      ok := succeeds;
      if ok {
        saved := |rows|;
      }
    }
  }
}
