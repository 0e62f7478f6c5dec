/** The visit ledger of MapViewModel.swift as a value: the explored set and the
    per-cell visit history, the one record step every visit path shares, and
    the replay of persisted rows that `loadData` performs. */
module Visits {
  import opened Wrappers
  import opened Grid
  import opened Persistence

  /** `exploredCells` and `cellVisitHistory` together. */
  datatype Ledger = Ledger(explored: set<GridCell>, history: map<GridCell, seq<Time>>) {

    /** The explored set is exactly the key set of the history, and no cell
        has an empty history. */
    ghost predicate Valid() {
      explored == history.Keys && forall c :: c in history ==> history[c] != []
    }

    /** The timestamps recorded for `c`, oldest first; empty when `c` was never visited. */
    function VisitsOf(c: GridCell): seq<Time> {
      if c in history then history[c] else []
    }

    /** `exploredCells.insert(cell)` followed by appending `t` to the cell's
        history, or starting it as `[t]` when the cell has none: `c` becomes
        explored, its history gains exactly `t` at the end, and every other
        cell's history is as it was. */
    function Record(c: GridCell, t: Time): (r: Ledger)
      ensures r.explored == explored + {c}
      ensures r.VisitsOf(c) == VisitsOf(c) + [t]
      ensures forall c' :: c' != c ==> r.VisitsOf(c') == VisitsOf(c')
    {
      Ledger(explored + {c}, history[c := if c in history then history[c] + [t] else [t]])
    }
  }

  /** The ledger of a freshly constructed view model. */
  const Empty: Ledger := Ledger({}, map[])

  /** A visit as the record step sees it (`ExploredCellVisit`). */
  datatype Visit = Visit(cell: GridCell, timestamp: Time)

  /** Records `visits` into `l` in order. */
  function RecordAll(l: Ledger, visits: seq<Visit>): Ledger
    decreases |visits|
  {
    if visits == [] then l
    else
      var n := |visits| - 1;
      RecordAll(l, visits[..n]).Record(visits[n].cell, visits[n].timestamp)
  }

  /** `loadData`'s loop over fetched rows: row `i` is recorded at its own
      timestamp, or at `clock(i)`, the value of `Date()` when the loop reached it,
      when the row has none. */
  function ReplayFrom(l: Ledger, rows: seq<Row>, clock: nat -> Time): (r: Ledger)
    ensures r.explored == l.explored + CellsOf(rows)
    decreases |rows|
  {
    if rows == [] then l
    else
      var n := |rows| - 1;
      CellsOfSnoc(rows);
      ReplayFrom(l, rows[..n], clock).Record(CellOf(rows[n]), TimeOf(rows[n], clock(n)))
  }

  /** The cells the rows name. */
  ghost function CellsOf(rows: seq<Row>): set<GridCell> {
    set i | 0 <= i < |rows| :: CellOf(rows[i])
  }

  lemma CellsOfSnoc(rows: seq<Row>)
    requires rows != []
    ensures CellsOf(rows) == CellsOf(rows[..|rows| - 1]) + {CellOf(rows[|rows| - 1])}
  {
    var n := |rows| - 1;
    forall c | c in CellsOf(rows) ensures c in CellsOf(rows[..n]) + {CellOf(rows[n])} {
      var i :| 0 <= i < |rows| && CellOf(rows[i]) == c;
      if i < n {
        assert rows[..n][i] == rows[i];
      }
    }
    forall c | c in CellsOf(rows[..n]) ensures c in CellsOf(rows) {
      var i :| 0 <= i < n && CellOf(rows[..n][i]) == c;
      assert rows[i] == rows[..n][i];
    }
  }

  /** The rows `saveVisit` writes for `visits`, one per visit, in order. */
  function SavedRows(visits: seq<Visit>): (rows: seq<Row>)
    requires forall i :: 0 <= i < |visits| ==> InInt32(visits[i].cell)
    ensures |rows| == |visits|
    ensures forall i :: 0 <= i < |rows| ==> CellOf(rows[i]) == visits[i].cell && rows[i].timestamp == Some(visits[i].timestamp)
  {
    seq(|visits|, i requires 0 <= i < |visits| => RowOf(visits[i].cell, visits[i].timestamp))
  }

  /** Number of rows that name `c`. */
  function RowCount(rows: seq<Row>, c: GridCell): nat
    decreases |rows|
  {
    if rows == [] then 0
    else RowCount(rows[..|rows| - 1], c) + (if CellOf(rows[|rows| - 1]) == c then 1 else 0)
  }

  // ----- the record step

  /** Recording keeps the ledger invariant. */
  lemma RecordKeepsValid(l: Ledger, c: GridCell, t: Time)
    requires l.Valid()
    ensures l.Record(c, t).Valid()
  {
  }

  /** Visiting an explored cell again leaves the explored set as it is and
      lengthens that cell's history by one. */
  lemma RevisitKeepsExplored(l: Ledger, c: GridCell, t: Time)
    requires l.Valid() && c in l.explored
    ensures l.Record(c, t).explored == l.explored
    ensures |l.Record(c, t).history[c]| == |l.history[c]| + 1
  {
  }

  // ----- replay

  /** Replaying rows keeps the ledger invariant. */
  lemma {:induction false} ReplayKeepsValid(l: Ledger, rows: seq<Row>, clock: nat -> Time)
    requires l.Valid()
    ensures ReplayFrom(l, rows, clock).Valid()
    decreases |rows|
  {
    if rows != [] {
      var n := |rows| - 1;
      ReplayKeepsValid(l, rows[..n], clock);
      RecordKeepsValid(ReplayFrom(l, rows[..n], clock), CellOf(rows[n]), TimeOf(rows[n], clock(n)));
    }
  }

  /** Each replayed row adds one timestamp to its cell and nothing else: a
      cell's history grows by exactly its number of rows, and it is explored
      after the replay exactly when it was before or some row names it. */
  lemma {:induction false} ReplayCounts(l: Ledger, rows: seq<Row>, clock: nat -> Time, c: GridCell)
    ensures |ReplayFrom(l, rows, clock).VisitsOf(c)| == |l.VisitsOf(c)| + RowCount(rows, c)
    ensures c in ReplayFrom(l, rows, clock).explored <==> c in l.explored || RowCount(rows, c) > 0
    decreases |rows|
  {
    if rows != [] {
      ReplayCounts(l, rows[..|rows| - 1], clock, c);
    }
  }

  lemma {:induction false} RowCountConcat(a: seq<Row>, b: seq<Row>, c: GridCell)
    ensures RowCount(a + b, c) == RowCount(a, c) + RowCount(b, c)
    decreases |b|
  {
    if b != [] {
      var n := |b| - 1;
      assert (a + b)[..|a + b| - 1] == a + b[..n];
      RowCountConcat(a, b[..n], c);
    } else {
      assert a + b == a;
    }
  }

  /** Dropping the last row of `a` and a matching row of its permutation `b`
      leaves two permutations of each other. */
  lemma RemoveMatching(a: seq<Row>, b: seq<Row>, k: nat)
    requires multiset(a) == multiset(b) && a != [] && k < |b| && b[k] == a[|a| - 1]
    ensures multiset(a[..|a| - 1]) == multiset(b[..k] + b[k + 1..])
  {
    var n := |a| - 1;
    assert a == a[..n] + [a[n]];
    assert b == b[..k] + [b[k]] + b[k + 1..];
    assert multiset(b[..k] + b[k + 1..]) == multiset(b) - multiset{b[k]};
    assert multiset(a[..n]) == multiset(a) - multiset{a[n]};
  }

  /** The number of rows naming a cell does not depend on their order. */
  lemma {:induction false} RowCountPermutation(a: seq<Row>, b: seq<Row>, c: GridCell)
    requires multiset(a) == multiset(b)
    ensures RowCount(a, c) == RowCount(b, c)
    decreases |a|
  {
    if a != [] {
      var n := |a| - 1;
      var r := a[n];
      assert a == a[..n] + [r];
      assert r in multiset(b);
      var k :| 0 <= k < |b| && b[k] == r;
      var b' := b[..k] + b[k + 1..];
      RemoveMatching(a, b, k);
      assert b == b[..k] + [r] + b[k + 1..];
      RowCountPermutation(a[..n], b', c);
      RowCountConcat(b[..k], [r], c);
      RowCountConcat(b[..k] + [r], b[k + 1..], c);
      RowCountConcat(b[..k], b[k + 1..], c);
      assert RowCount([r], c) == (if CellOf(r) == c then 1 else 0) by {
        assert [r][..0] == [];
      }
    }
  }

  /** Start-up from the store, whatever order the fetch lists its rows in:
      each cell's history holds one timestamp per stored row naming it, and
      the cell is explored exactly when such a row exists. */
  lemma LoadCountsAnyOrder(stored: seq<Row>, fetched: seq<Row>, clock: nat -> Time, c: GridCell)
    requires multiset(fetched) == multiset(stored)
    ensures |ReplayFrom(Empty, fetched, clock).VisitsOf(c)| == RowCount(stored, c)
    ensures c in ReplayFrom(Empty, fetched, clock).explored <==> RowCount(stored, c) > 0
  {
    ReplayCounts(Empty, fetched, clock, c);
    RowCountPermutation(fetched, stored, c);
  }

  /** Replaying rows `r1..rn` is recording each of them in order: the state
      after `rows + [r]` is the state after `rows` with `r` recorded. */
  lemma ReplayStep(l: Ledger, rows: seq<Row>, r: Row, clock: nat -> Time)
    ensures ReplayFrom(l, rows + [r], clock)
         == ReplayFrom(l, rows, clock).Record(CellOf(r), TimeOf(r, clock(|rows|)))
  {
    assert (rows + [r])[..|rows|] == rows;
  }

  /** `ReplayStep` for the prefixes a loop over `rows` visits. */
  lemma ReplayPrefixStep(l: Ledger, rows: seq<Row>, i: nat, clock: nat -> Time)
    requires i < |rows|
    ensures ReplayFrom(l, rows[..i + 1], clock)
         == ReplayFrom(l, rows[..i], clock).Record(CellOf(rows[i]), TimeOf(rows[i], clock(i)))
  {
    assert rows[..i + 1][..i] == rows[..i];
  }

  /** Round trip through the store: the rows saved for a sequence of visits,
      fetched back in the order they were written, rebuild the ledger that
      recording those visits produced, whatever the clock reads. */
  lemma {:induction false} ReplaySavedRows(l: Ledger, visits: seq<Visit>, clock: nat -> Time)
    requires forall i :: 0 <= i < |visits| ==> InInt32(visits[i].cell)
    ensures ReplayFrom(l, SavedRows(visits), clock) == RecordAll(l, visits)
    decreases |visits|
  {
    if visits != [] {
      var n := |visits| - 1;
      assert SavedRows(visits)[..n] == SavedRows(visits[..n]);
      ReplaySavedRows(l, visits[..n], clock);
    }
  }
  /** The clock as read from position `k` on. */
  function Shift(clock: nat -> Time, k: nat): (c: nat -> Time)
    ensures forall i: nat :: c(i) == clock(i + k)
  {
    (i: nat) => clock(i + k)
  }

  /** Replaying `a + b` is replaying `a`, then `b` with the clock read from
      position `|a|` on. */
  lemma {:induction false} ReplayConcat(l: Ledger, a: seq<Row>, b: seq<Row>, clock: nat -> Time)
    ensures ReplayFrom(l, a + b, clock) == ReplayFrom(ReplayFrom(l, a, clock), b, Shift(clock, |a|))
    decreases |b|
  {
    if b == [] {
      assert a + b == a;
    } else {
      var n := |b| - 1;
      var x, shifted := ReplayFrom(l, a, clock), Shift(clock, |a|);
      var a', b' := a + b[..n], b[..n];
      assert a + b == a' + [b[n]];
      assert b == b' + [b[n]];
      var t := TimeOf(b[n], clock(|a'|));
      assert shifted(n) == clock(|a'|);
      calc {
        ReplayFrom(l, a + b, clock);
        { ReplayStep(l, a', b[n], clock); }
        ReplayFrom(l, a', clock).Record(CellOf(b[n]), t);
        { ReplayConcat(l, a, b', clock); }
        ReplayFrom(x, b', shifted).Record(CellOf(b[n]), t);
        { ReplayStep(x, b', b[n], shifted); }
        ReplayFrom(x, b, shifted);
      }
    }
  }

  /** Round trip through a store that already held rows: at the next start-up,
      replaying the old rows followed by the rows saved for the session's
      visits, in the order they were written, rebuilds the ledger the session
      ended with, which recorded those visits onto the ledger loaded at its start. */
  lemma StoreRoundTrip(stored: seq<Row>, visits: seq<Visit>, clock: nat -> Time)
    requires forall i :: 0 <= i < |visits| ==> InInt32(visits[i].cell)
    ensures ReplayFrom(Empty, stored + SavedRows(visits), clock)
         == RecordAll(ReplayFrom(Empty, stored, clock), visits)
  {
    ReplayConcat(Empty, stored, SavedRows(visits), clock);
    ReplaySavedRows(ReplayFrom(Empty, stored, clock), visits, Shift(clock, |stored|));
  }
}
