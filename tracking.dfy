/** `MapViewModel`: the in-memory visit ledger, the session origin fixed by the
    first location event, and the persistence of every visit. */
module Tracking {
  import opened Wrappers
  import opened Grid
  import opened Persistence
  import opened Visits

  class MapViewModel {
    var exploredCells: set<GridCell>
    var cellVisitHistory: map<GridCell, seq<Time>>
    /** The session origin; `None` until the first location event. */
    var center: Option<Coordinate>
    const context: Context
    /** The grid index of a coordinate relative to the origin: rounded
        latitude and longitude differences divided by `CellSize`. */
    const indexer: (Coordinate, Coordinate) -> Int32Cell

    /** The origin itself lies in cell (0, 0): both differences are zero. */
    ghost predicate OriginIsCellZero()
      reads this
    {
      forall o :: indexer(o, o) == GridCell(0, 0)
    }

    /** The ledger the two published fields hold. */
    function State(): Ledger
      reads this
    {
      Ledger(exploredCells, cellVisitHistory)
    }

    ghost predicate Valid()
      reads this, context
    {
      State().Valid() && context.Valid() && OriginIsCellZero()
    }

    /** `init(context:)`: an empty ledger seeded by `loadData`. `fetched` is
        the result of the fetch request, `None` when it throws; having no
        sort descriptor, it may list the context's rows in any order. */
    constructor (context: Context, indexer: (Coordinate, Coordinate) -> Int32Cell,
                 fetched: Option<seq<Row>>, clock: nat -> Time)
      requires context.Valid()
      requires forall o :: indexer(o, o) == GridCell(0, 0)
      requires fetched.Some? ==> multiset(fetched.value) == multiset(context.rows)
      ensures Valid()
      ensures this.context == context && this.indexer == indexer && center == None
      ensures State() == if fetched.Some? then ReplayFrom(Empty, fetched.value, clock) else Empty
    {
      this.context := context;
      this.indexer := indexer;
      exploredCells := {};
      cellVisitHistory := map[];
      center := None;
      new;
      LoadData(fetched, clock);
    }

    /** `locationManager(_:didUpdateLocations:)`: only the last location of a
        batch is used; the first one ever received becomes the origin, which
        no later event changes; the visit is then indexed against the origin. */
    method DidUpdateLocations(locations: seq<Coordinate>, now: Time, saveSucceeds: bool)
      requires Valid()
      modifies this, context
      ensures Valid()
      ensures old(center).Some? ==> center == old(center)
      ensures old(center).None? && locations != [] ==>
        State() == old(State()).Record(GridCell(0, 0), now)
      ensures locations == [] ==>
        center == old(center) && State() == old(State()) && unchanged(context)
      ensures locations != [] ==>
        var loc := locations[|locations| - 1];
        && center == Some(old(center).GetOr(loc))
        && State() == old(State()).Record(indexer(loc, center.value), now)
        && context.rows == old(context.rows) + [RowOf(indexer(loc, center.value), now)]
        && context.saved == (if saveSucceeds then |context.rows| else old(context.saved))
    {
      if locations == [] {
        return;
      }
      var loc := locations[|locations| - 1];
      if center == None {
        center := Some(loc);
      }
      UpdateExplored(loc, now, saveSucceeds);
    }

    /** `simulateVisit(x:y:)`: records a visit of cell `(x, y)` at `now`.
        Saving converts the coordinates with `Int32(_)`, which traps outside
        the 32-bit range. A failed save leaves the in-memory record in place. */
    method SimulateVisit(x: int, y: int, now: Time, saveSucceeds: bool)
      requires Valid()
      requires InInt32(GridCell(x, y))
      modifies this`exploredCells, this`cellVisitHistory, context
      ensures Valid()
      ensures State() == old(State()).Record(GridCell(x, y), now)
      ensures IsExplored(x, y) && LastVisitTimestamp(x, y) == Some(now)
      ensures context.rows == old(context.rows) + [RowOf(GridCell(x, y), now)]
      ensures context.saved == if saveSucceeds then |context.rows| else old(context.saved)
    {
      var cell := GridCell(x, y);
      exploredCells := exploredCells + {cell};
      if cell in cellVisitHistory {
        cellVisitHistory := cellVisitHistory[cell := cellVisitHistory[cell] + [now]];
      } else {
        cellVisitHistory := cellVisitHistory[cell := [now]];
      }
      SaveVisit(cell, now, saveSucceeds);
    }

    /** `updateExplored(for:)`: nothing happens before the origin is set;
        afterwards the coordinate's cell is recorded and saved like a
        simulated visit. */
    method UpdateExplored(coordinate: Coordinate, now: Time, saveSucceeds: bool)
      requires Valid()
      modifies this`exploredCells, this`cellVisitHistory, context
      ensures Valid()
      ensures center.None? ==> State() == old(State()) && unchanged(context)
      ensures center.Some? ==>
        var cell := indexer(coordinate, center.value);
        && State() == old(State()).Record(cell, now)
        && context.rows == old(context.rows) + [RowOf(cell, now)]
        && context.saved == (if saveSucceeds then |context.rows| else old(context.saved))
    {
      if center == None {
        return;
      }
      var cell := indexer(coordinate, center.value);
      exploredCells := exploredCells + {cell};
      if cell in cellVisitHistory {
        cellVisitHistory := cellVisitHistory[cell := cellVisitHistory[cell] + [now]];
      } else {
        cellVisitHistory := cellVisitHistory[cell := [now]];
      }
      SaveVisit(cell, now, saveSucceeds);
    }

    /** `isExplored(x:y:)`: on a valid ledger, a cell is explored exactly
        when it has a visit history. */
    function IsExplored(x: int, y: int): (r: bool)
      reads this
      ensures State().Valid() ==> (r <==> GridCell(x, y) in cellVisitHistory)
    {
      GridCell(x, y) in exploredCells
    }

    /** `lastVisitTimestamp(x:y:)`: the most recently appended timestamp of
        the cell, or `None` for a cell never visited. */
    function LastVisitTimestamp(x: int, y: int): (r: Option<Time>)
      reads this
      ensures State().Valid() ==> (r.Some? <==> IsExplored(x, y))
      ensures r.Some? ==> GridCell(x, y) in cellVisitHistory && r.value in cellVisitHistory[GridCell(x, y)]
      ensures r.Some? ==> var h := cellVisitHistory[GridCell(x, y)]; h == h[..|h| - 1] + [r.value]
    {
      var cell := GridCell(x, y);
      if cell in cellVisitHistory && cellVisitHistory[cell] != [] then
        Some(cellVisitHistory[cell][|cellVisitHistory[cell]| - 1])
      else None
    }

    /** `saveVisit(cell:timestamp:)`: inserts one row into the context and
        tries to save it; failure is only reported. */
    method SaveVisit(cell: GridCell, timestamp: Time, saveSucceeds: bool)
      requires InInt32(cell) && context.Valid()
      modifies context
      ensures context.Valid()
      ensures context.rows == old(context.rows) + [RowOf(cell, timestamp)]
      ensures context.saved == if saveSucceeds then |context.rows| else old(context.saved)
    {
      context.Insert(RowOf(cell, timestamp));
      var _ := context.Save(saveSucceeds);
    }

    /** `loadData()`: replays the fetched rows, in fetch order, into the
        ledger; a failed fetch leaves the ledger as it was. */
    method LoadData(fetched: Option<seq<Row>>, clock: nat -> Time)
      requires Valid()
      modifies this`exploredCells, this`cellVisitHistory
      ensures Valid()
      ensures State() == if fetched.Some? then ReplayFrom(old(State()), fetched.value, clock) else old(State())
    {
      if fetched.None? {
        return;
      }
      var results := fetched.value;
      ReplayKeepsValid(State(), results, clock);
      for i := 0 to |results|
        invariant State() == ReplayFrom(old(State()), results[..i], clock)
      {
        var entity := results[i];
        ghost var before := State();
        var cell := GridCell(entity.x as int, entity.y as int);
        exploredCells := exploredCells + {cell};
        var ts := entity.timestamp.GetOr(clock(i));
        if cell in cellVisitHistory {
          cellVisitHistory := cellVisitHistory[cell := cellVisitHistory[cell] + [ts]];
        } else {
          cellVisitHistory := cellVisitHistory[cell := [ts]];
        }
        assert cell == CellOf(entity) && ts == TimeOf(entity, clock(i));
        assert State() == before.Record(cell, ts);
        ReplayPrefixStep(old(State()), results, i, clock);
      }
      assert results[..|results|] == results;
    }
  }
}
