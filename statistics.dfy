/** StatisticsView.swift: the ledger's per-cell history regrouped by calendar
    day, and the per-day figures derived from it. The `DateFormatter` that
    gives a timestamp its "yyyy-MM-dd" key is the parameter `key`. */
module Statistics {
  import opened Wrappers
  import opened Grid
  import opened Sums
  import opened Ordering

  /** `cellVisitHistory`'s type. */
  type History = map<GridCell, seq<Time>>

  // ----- what the two groupings mean

  /** The timestamps of `s` whose day key is `d`, in their original order. */
  function Filter(s: seq<Time>, key: Time -> string, d: string): seq<Time>
    decreases |s|
  {
    if s == [] then []
    else Filter(s[..|s| - 1], key, d) + (if key(s[|s| - 1]) == d then [s[|s| - 1]] else [])
  }

  /** `c` has a recorded visit on day `d` (see `FilterNonEmpty`). */
  ghost predicate VisitedOn(h: History, key: Time -> string, c: GridCell, d: string) {
    c in h && Filter(h[c], key, d) != []
  }

  /** Every day on which some visit was recorded. */
  ghost function Days(h: History, key: Time -> string): set<string> {
    set c, t | c in h && t in h[c] :: key(t)
  }

  /** The cells visited on day `d`. */
  ghost function CellsOn(h: History, key: Time -> string, d: string): set<GridCell> {
    set c | c in h && VisitedOn(h, key, c, d)
  }

  /** Each such cell's visits on day `d`. */
  ghost function VisitsOn(h: History, key: Time -> string, d: string): History {
    map c | c in CellsOn(h, key, d) :: Filter(h[c], key, d)
  }

  /** What `cellsDiscoveredByDay` is meant to hold. */
  ghost function DiscoveredSpec(h: History, key: Time -> string): map<string, set<GridCell>> {
    map d | d in Days(h, key) :: CellsOn(h, key, d)
  }

  /** What `visitsByDay` is meant to hold. */
  ghost function VisitsSpec(h: History, key: Time -> string): map<string, History> {
    map d | d in Days(h, key) :: VisitsOn(h, key, d)
  }

  function Len(s: seq<Time>): nat { |s| }

  /** The number of timestamps in a history. */
  ghost function TotalVisits(h: History): nat {
    MapSum(h, Len)
  }

  /** The number of timestamps across all day buckets. */
  ghost function TotalByDay(r: map<string, History>): nat {
    MapSum(r, TotalVisits)
  }

  /** The entries of `h` for the cells in `cells`. */
  ghost function Restrict(h: History, cells: set<GridCell>): History {
    map c | c in h && c in cells :: h[c]
  }

  /** Restricting to one more cell adds that cell's entry. */
  lemma RestrictAdd(h: History, done: set<GridCell>, c: GridCell)
    requires c in h
    ensures Restrict(h, done)[c := h[c]] == Restrict(h, done + {c})
  {
  }

  /** Restricting to no cell leaves nothing. */
  lemma RestrictNone(h: History, key: Time -> string)
    ensures Restrict(h, {}) == map[] && Days(map[], key) == {}
  {
  }

  /** Restricting to every cell leaves everything. */
  lemma RestrictAll(h: History, done: set<GridCell>)
    requires h.Keys <= done
    ensures Restrict(h, done) == h
  {
  }

  // ----- the in-place updates the two loops perform

  /** `result[day, default: []].insert(cell)` */
  function AddCell(r: map<string, set<GridCell>>, d: string, c: GridCell): (r': map<string, set<GridCell>>)
    ensures r'.Keys == r.Keys + {d} && c in r'[d]
    ensures d in r ==> r'[d] == r[d] + {c}
    ensures d !in r ==> r'[d] == {c}
    ensures forall d' :: d' in r && d' != d ==> r'[d'] == r[d']
  {
    r[d := (if d in r then r[d] else {}) + {c}]
  }

  /** `result[day, default: [:]][cell, default: []].append(date)` */
  function AddVisit(r: map<string, History>, d: string, c: GridCell, t: Time): (r': map<string, History>)
    ensures r'.Keys == r.Keys + {d} && c in r'[d]
    ensures r'[d].Keys == (if d in r then r[d].Keys else {}) + {c}
    ensures r'[d][c] == (if d in r && c in r[d] then r[d][c] else []) + [t]
    ensures forall c' :: c' in r'[d] && c' != c ==> d in r && r'[d][c'] == r[d][c']
    ensures forall d' :: d' in r && d' != d ==> r'[d'] == r[d']
  {
    var bucket := if d in r then r[d] else map[];
    r[d := bucket[c := (if c in bucket then bucket[c] else []) + [t]]]
  }

  // ----- lemmas

  lemma FilterSnoc(s: seq<Time>, t: Time, key: Time -> string, d: string)
    ensures Filter(s + [t], key, d) == Filter(s, key, d) + (if key(t) == d then [t] else [])
  {
    assert (s + [t])[..|s|] == s;
  }

  /** A cell's visits on day `d` are non-empty exactly when one of its
      timestamps falls on `d`. */
  lemma {:induction false} FilterNonEmpty(s: seq<Time>, key: Time -> string, d: string)
    ensures Filter(s, key, d) != [] <==> exists t :: t in s && key(t) == d
    decreases |s|
  {
    if s != [] {
      var n := |s| - 1;
      FilterNonEmpty(s[..n], key, d);
      assert s == s[..n] + [s[n]];
      assert forall t :: t in s <==> t in s[..n] || t == s[n];
    }
  }

  /** Every timestamp kept for day `d` has day key `d`, and comes from `s`. */
  lemma {:induction false} FilterKeepsDay(s: seq<Time>, key: Time -> string, d: string)
    ensures forall t :: t in Filter(s, key, d) ==> t in s && key(t) == d
    decreases |s|
  {
    if s != [] {
      var n := |s| - 1;
      FilterKeepsDay(s[..n], key, d);
      assert s == s[..n] + [s[n]];
    }
  }

  lemma InDays(h: History, key: Time -> string, c: GridCell, t: Time)
    requires c in h && t in h[c]
    ensures key(t) in Days(h, key)
  {
  }

  /** A day is a key of the groupings exactly when some cell was visited on it. */
  lemma DaysIff(h: History, key: Time -> string, d: string)
    ensures d in Days(h, key) <==> exists c :: VisitedOn(h, key, c, d)
  {
    if d in Days(h, key) {
      var c, t :| c in h && t in h[c] && key(t) == d;
      FilterNonEmpty(h[c], key, d);
      assert VisitedOn(h, key, c, d);
    }
    if exists c :: VisitedOn(h, key, c, d) {
      var c :| VisitedOn(h, key, c, d);
      FilterNonEmpty(h[c], key, d);
      var t :| t in h[c] && key(t) == d;
      InDays(h, key, c, t);
    }
  }

  /** How `VisitedOn` changes when one cell's history is replaced. */
  lemma VisitedOnUpdate(m: History, key: Time -> string, c: GridCell, v: seq<Time>, c': GridCell, d: string)
    ensures VisitedOn(m[c := v], key, c', d)
        <==> if c' == c then Filter(v, key, d) != [] else VisitedOn(m, key, c', d)
  {
  }

  /** A cell with an empty history is visited on no day. */
  lemma CellsOnEmptyEntry(m: History, c: GridCell, key: Time -> string, d: string)
    requires c !in m
    ensures CellsOn(m[c := []], key, d) == CellsOn(m, key, d)
  {
    forall c' ensures VisitedOn(m[c := []], key, c', d) <==> VisitedOn(m, key, c', d) {
      VisitedOnUpdate(m, key, c, [], c', d);
    }
  }

  /** A cell with an empty history adds no day. */
  lemma DaysEmptyEntry(m: History, c: GridCell, key: Time -> string)
    requires c !in m
    ensures Days(m[c := []], key) == Days(m, key)
  {
    forall d ensures d in Days(m[c := []], key) <==> d in Days(m, key) {
      DaysIff(m[c := []], key, d);
      DaysIff(m, key, d);
      forall c' ensures VisitedOn(m[c := []], key, c', d) <==> VisitedOn(m, key, c', d) {
        VisitedOnUpdate(m, key, c, [], c', d);
      }
    }
  }

  /** A cell with an empty history is not seen by `cellsDiscoveredByDay`. */
  lemma DiscoveredEmptyEntry(m: History, c: GridCell, key: Time -> string)
    requires c !in m
    ensures DiscoveredSpec(m[c := []], key) == DiscoveredSpec(m, key)
  {
    DaysEmptyEntry(m, c, key);
    forall d | d in Days(m, key) ensures CellsOn(m[c := []], key, d) == CellsOn(m, key, d) {
      CellsOnEmptyEntry(m, c, key, d);
    }
  }

  /** A cell with an empty history is not seen by `visitsByDay`. */
  lemma VisitsEmptyEntry(m: History, c: GridCell, key: Time -> string)
    requires c !in m
    ensures VisitsSpec(m[c := []], key) == VisitsSpec(m, key)
  {
    DaysEmptyEntry(m, c, key);
    forall d | d in Days(m, key) ensures VisitsOn(m[c := []], key, d) == VisitsOn(m, key, d) {
      CellsOnEmptyEntry(m, c, key, d);
    }
  }

  /** No cell is listed for a day on which nothing was visited. */
  lemma NoDayNoCells(h: History, key: Time -> string, d: string)
    requires d !in Days(h, key)
    ensures CellsOn(h, key, d) == {}
  {
    DaysIff(h, key, d);
  }

  /** Adding `t` to `c`'s history makes `c` visited on `key(t)` and changes nothing else. */
  lemma VisitedOnStep(m: History, c: GridCell, s: seq<Time>, t: Time, key: Time -> string, c': GridCell, d: string)
    ensures VisitedOn(m[c := s + [t]], key, c', d)
        <==> VisitedOn(m[c := s], key, c', d) || (c' == c && key(t) == d)
  {
    VisitedOnUpdate(m, key, c, s + [t], c', d);
    VisitedOnUpdate(m, key, c, s, c', d);
    FilterSnoc(s, t, key, d);
  }

  lemma DaysStep(m: History, c: GridCell, s: seq<Time>, t: Time, key: Time -> string)
    ensures Days(m[c := s + [t]], key) == Days(m[c := s], key) + {key(t)}
  {
    var m1, m2 := m[c := s], m[c := s + [t]];
    forall d ensures d in Days(m2, key) <==> d in Days(m1, key) || d == key(t) {
      DaysIff(m1, key, d);
      DaysIff(m2, key, d);
      forall c' ensures VisitedOn(m2, key, c', d) <==> VisitedOn(m1, key, c', d) || (c' == c && key(t) == d) {
        VisitedOnStep(m, c, s, t, key, c', d);
      }
      if d == key(t) {
        assert VisitedOn(m2, key, c, d);
      }
    }
  }

  lemma CellsOnStep(m: History, c: GridCell, s: seq<Time>, t: Time, key: Time -> string, d: string)
    ensures CellsOn(m[c := s + [t]], key, d)
         == CellsOn(m[c := s], key, d) + (if key(t) == d then {c} else {})
  {
    var m1, m2 := m[c := s], m[c := s + [t]];
    forall c' ensures VisitedOn(m2, key, c', d) <==> VisitedOn(m1, key, c', d) || (c' == c && key(t) == d) {
      VisitedOnStep(m, c, s, t, key, c', d);
    }
  }

  /** On day `key(t)`, adding `t` to `c`'s history adds `c` to that day's set. */
  lemma DiscoveredSameDay(m: History, c: GridCell, s: seq<Time>, t: Time, key: Time -> string)
    ensures key(t) in DiscoveredSpec(m[c := s + [t]], key)
    ensures DiscoveredSpec(m[c := s + [t]], key)[key(t)] == AddCell(DiscoveredSpec(m[c := s], key), key(t), c)[key(t)]
  {
    var m1 := m[c := s];
    DaysStep(m, c, s, t, key);
    CellsOnStep(m, c, s, t, key, key(t));
    if key(t) !in Days(m1, key) {
      NoDayNoCells(m1, key, key(t));
    }
  }

  /** One pass of the inner loop of `cellsDiscoveredByDay`: adding one
      timestamp to a cell's history adds that cell to that timestamp's day. */
  lemma DiscoveredStep(m: History, c: GridCell, s: seq<Time>, t: Time, key: Time -> string)
    ensures DiscoveredSpec(m[c := s + [t]], key) == AddCell(DiscoveredSpec(m[c := s], key), key(t), c)
  {
    var r1, r2 := DiscoveredSpec(m[c := s], key), DiscoveredSpec(m[c := s + [t]], key);
    var want := AddCell(r1, key(t), c);
    DaysStep(m, c, s, t, key);
    assert r2.Keys == want.Keys;
    DiscoveredSameDay(m, c, s, t, key);
    forall d | d in r2 && d != key(t) ensures r2[d] == want[d] {
      CellsOnStep(m, c, s, t, key, d);
    }
    MapExt(r2, want);
  }

  /** On a day other than `key(t)`, adding `t` changes no bucket. */
  lemma VisitsOnOtherDay(m: History, c: GridCell, s: seq<Time>, t: Time, key: Time -> string, d: string)
    requires d != key(t)
    ensures VisitsOn(m[c := s + [t]], key, d) == VisitsOn(m[c := s], key, d)
  {
    var m1, m2 := m[c := s], m[c := s + [t]];
    CellsOnStep(m, c, s, t, key, d);
    FilterSnoc(s, t, key, d);
    var v1, v2 := VisitsOn(m1, key, d), VisitsOn(m2, key, d);
    assert v1.Keys == v2.Keys;
    forall c' | c' in v2 ensures v2[c'] == v1[c'] {
      if c' != c {
        assert m2[c'] == m1[c'];
      }
    }
    MapExt(v2, v1);
  }

  /** A cell's bucket entry on day `d`, or nothing, is the cell's visits on `d`. */
  lemma BucketEntry(h: History, key: Time -> string, c: GridCell, d: string)
    requires c in h
    ensures (var bucket := VisitsOn(h, key, d); if c in bucket then bucket[c] else []) == Filter(h[c], key, d)
  {
    if c !in VisitsOn(h, key, d) {
      assert !VisitedOn(h, key, c, d);
    }
  }

  /** Two maps with the same keys and the same value at every key are equal. */
  lemma MapExt<K, V>(a: map<K, V>, b: map<K, V>)
    requires a.Keys == b.Keys && forall k :: k in a ==> a[k] == b[k]
    ensures a == b
  {
  }

  /** A map that agrees with `base[k := x]` on its keys and at every key is that map. */
  lemma MapFromParts<K, V>(v: map<K, V>, base: map<K, V>, k: K, x: V)
    requires v.Keys == base.Keys + {k} && v[k] == x
    requires forall k' :: k' in v && k' != k ==> v[k'] == base[k']
    ensures v == base[k := x]
  {
  }

  /** The cells of day `key(t)`'s bucket once `t` is added to `c`'s history. */
  lemma SameDayKeys(m: History, c: GridCell, s: seq<Time>, t: Time, key: Time -> string)
    ensures VisitsOn(m[c := s + [t]], key, key(t)).Keys == VisitsOn(m[c := s], key, key(t)).Keys + {c}
  {
    CellsOnStep(m, c, s, t, key, key(t));
  }

  /** `c`'s entry of day `key(t)`'s bucket once `t` is added to `c`'s history. */
  lemma SameDayEntry(m: History, c: GridCell, s: seq<Time>, t: Time, key: Time -> string)
    ensures var bucket := VisitsOn(m[c := s], key, key(t));
      c in VisitsOn(m[c := s + [t]], key, key(t))
      && VisitsOn(m[c := s + [t]], key, key(t))[c] == (if c in bucket then bucket[c] else []) + [t]
  {
    BucketEntry(m[c := s], key, c, key(t));
    CellsOnStep(m, c, s, t, key, key(t));
    FilterSnoc(s, t, key, key(t));
  }

  /** The other entries of day `key(t)`'s bucket are unchanged by adding `t` to `c`'s history. */
  lemma SameDayOthers(m: History, c: GridCell, s: seq<Time>, t: Time, key: Time -> string)
    ensures var v1, v2 := VisitsOn(m[c := s], key, key(t)), VisitsOn(m[c := s + [t]], key, key(t));
      forall c' :: c' in v2 && c' != c ==> c' in v1 && v2[c'] == v1[c']
  {
    CellsOnStep(m, c, s, t, key, key(t));
  }

  /** On day `key(t)`, adding `t` to `c`'s history appends it to `c`'s bucket. */
  lemma VisitsOnSameDay(m: History, c: GridCell, s: seq<Time>, t: Time, key: Time -> string)
    ensures var bucket := VisitsOn(m[c := s], key, key(t));
      VisitsOn(m[c := s + [t]], key, key(t)) == bucket[c := (if c in bucket then bucket[c] else []) + [t]]
  {
    var bucket := VisitsOn(m[c := s], key, key(t));
    SameDayKeys(m, c, s, t, key);
    SameDayEntry(m, c, s, t, key);
    SameDayOthers(m, c, s, t, key);
    MapFromParts(VisitsOn(m[c := s + [t]], key, key(t)), bucket, c, (if c in bucket then bucket[c] else []) + [t]);
  }

  /** On a day with no visit yet, adding `t` to `c`'s history opens a bucket holding only `[t]`. */
  lemma VisitsOnNewDay(m: History, c: GridCell, s: seq<Time>, t: Time, key: Time -> string)
    requires key(t) !in Days(m[c := s], key)
    ensures VisitsOn(m[c := s + [t]], key, key(t)) == map[c := [t]]
  {
    var m1, m2 := m[c := s], m[c := s + [t]];
    var day := key(t);
    NoDayNoCells(m1, key, day);
    CellsOnStep(m, c, s, t, key, day);
    FilterSnoc(s, t, key, day);
    assert !VisitedOn(m1, key, c, day);
    assert Filter(s, key, day) == [];
    assert CellsOn(m2, key, day) == {c};
    var v2 := VisitsOn(m2, key, day);
    assert v2[c] == Filter(s + [t], key, day) == [t];
    assert v2.Keys == {c};
    MapExt(v2, map[c := [t]]);
  }

  /** Adding one timestamp to a cell's history leaves the buckets of every
      other day exactly as they were. */
  lemma VisitsSpecOtherDay(m: History, c: GridCell, s: seq<Time>, t: Time, key: Time -> string, d: string)
    requires d in Days(m[c := s], key) && d != key(t)
    ensures d in VisitsSpec(m[c := s + [t]], key)
    ensures VisitsSpec(m[c := s + [t]], key)[d] == VisitsSpec(m[c := s], key)[d]
  {
    DaysStep(m, c, s, t, key);
    VisitsOnOtherDay(m, c, s, t, key, d);
  }

  lemma VisitsSpecSameDay(m: History, c: GridCell, s: seq<Time>, t: Time, key: Time -> string)
    ensures key(t) in VisitsSpec(m[c := s + [t]], key)
    ensures VisitsSpec(m[c := s + [t]], key)[key(t)] == AddVisit(VisitsSpec(m[c := s], key), key(t), c, t)[key(t)]
  {
    DaysStep(m, c, s, t, key);
    if key(t) in Days(m[c := s], key) {
      VisitsOnSameDay(m, c, s, t, key);
    } else {
      VisitsOnNewDay(m, c, s, t, key);
    }
  }

  /** One pass of the inner loop of `visitsByDay`: adding one timestamp to a
      cell's history appends it to that cell's bucket on that timestamp's day. */
  lemma VisitsStep(m: History, c: GridCell, s: seq<Time>, t: Time, key: Time -> string)
    ensures VisitsSpec(m[c := s + [t]], key) == AddVisit(VisitsSpec(m[c := s], key), key(t), c, t)
  {
    var r1, r2 := VisitsSpec(m[c := s], key), VisitsSpec(m[c := s + [t]], key);
    var want := AddVisit(r1, key(t), c, t);
    DaysStep(m, c, s, t, key);
    assert r2.Keys == r1.Keys + {key(t)};
    VisitsSpecSameDay(m, c, s, t, key);
    forall d | d in r2 && d != key(t) ensures r2[d] == r1[d] {
      VisitsSpecOtherDay(m, c, s, t, key, d);
    }
    MapFromParts(r2, r1, key(t), want[key(t)]);
  }

  // ----- counting timestamps

  lemma TotalEmptyEntry(m: History, c: GridCell)
    requires c !in m
    ensures TotalVisits(m[c := []]) == TotalVisits(m)
  {
    MapSumUpdate(m, Len, c, []);
    assert m - {c} == m;
  }

  lemma TotalStep(m: History, c: GridCell, s: seq<Time>, t: Time)
    ensures TotalVisits(m[c := s + [t]]) == TotalVisits(m[c := s]) + 1
  {
    MapSumUpdate(m, Len, c, s + [t]);
    MapSumUpdate(m, Len, c, s);
  }

  /** Appending one timestamp to a bucket adds one to the count across all buckets. */
  lemma TotalAddVisit(r: map<string, History>, d: string, c: GridCell, t: Time)
    ensures TotalByDay(AddVisit(r, d, c, t)) == TotalByDay(r) + 1
  {
    var bucket := if d in r then r[d] else map[];
    var v: seq<Time> := if c in bucket then bucket[c] else [];
    MapSumUpdate(r, TotalVisits, d, bucket[c := v + [t]]);
    MapSumUpdate(bucket, Len, c, v + [t]);
    if d in r {
      MapSumRemove(r, TotalVisits, d);
    } else {
      assert r - {d} == r;
    }
    if c in bucket {
      MapSumRemove(bucket, Len, c);
    } else {
      assert bucket - {c} == bucket;
    }
  }

  // ----- the two groupings, as the view computes them

  /** `cellsDiscoveredByDay`: for every cell and every one of its visits,
      the cell is added to the set of the visit's day. */
  method CellsDiscoveredByDay(h: History, key: Time -> string) returns (result: map<string, set<GridCell>>)
    ensures result == DiscoveredSpec(h, key)
  {
    result := map[];
    var remaining := h.Keys;
    ghost var done: set<GridCell> := {};
    RestrictNone(h, key);
    while remaining != {}
      invariant done <= h.Keys && remaining == h.Keys - done
      invariant result == DiscoveredSpec(Restrict(h, done), key)
      decreases remaining
    {
      var cell :| cell in remaining;
      result := AddCellForVisits(result, cell, h[cell], key, Restrict(h, done));
      RestrictAdd(h, done, cell);
      done := done + {cell};
      remaining := remaining - {cell};
    }
    RestrictAll(h, done);
  }

  /** One pass of the inner loop of `cellsDiscoveredByDay`, by index. */
  lemma DiscoveredAt(before: History, cell: GridCell, visits: seq<Time>, j: nat, key: Time -> string)
    requires j < |visits|
    ensures DiscoveredSpec(before[cell := visits[..j + 1]], key)
         == AddCell(DiscoveredSpec(before[cell := visits[..j]], key), key(visits[j]), cell)
  {
    assert visits[..j + 1] == visits[..j] + [visits[j]];
    DiscoveredStep(before, cell, visits[..j], visits[j], key);
  }

  /** Before the inner loop of `cellsDiscoveredByDay`, an empty entry for the new cell changes nothing. */
  lemma DiscoveredStart(before: History, cell: GridCell, visits: seq<Time>, key: Time -> string)
    requires cell !in before
    ensures DiscoveredSpec(before[cell := visits[..0]], key) == DiscoveredSpec(before, key)
  {
    assert visits[..0] == [];
    DiscoveredEmptyEntry(before, cell, key);
  }

  /** The inner loop of `cellsDiscoveredByDay`, over the visits of one cell
      not yet seen: afterwards the sets describe `before` with that cell added. */
  method AddCellForVisits(r: map<string, set<GridCell>>, cell: GridCell, visits: seq<Time>,
                          key: Time -> string, ghost before: History)
    returns (result: map<string, set<GridCell>>)
    requires cell !in before && r == DiscoveredSpec(before, key)
    ensures result == DiscoveredSpec(before[cell := visits], key)
  {
    result := r;
    DiscoveredStart(before, cell, visits, key);
    for j := 0 to |visits|
      invariant result == DiscoveredSpec(before[cell := visits[..j]], key)
    {
      DiscoveredAt(before, cell, visits, j, key);
      result := AddCell(result, key(visits[j]), cell);
    }
    assert visits[..|visits|] == visits;
  }

  /** `visitsByDay`: every visit of every cell is appended to that cell's
      list within the bucket of the visit's day. No timestamp is lost or
      counted twice. */
  method VisitsByDay(h: History, key: Time -> string) returns (result: map<string, History>)
    ensures result == VisitsSpec(h, key)
    ensures TotalByDay(result) == TotalVisits(h)
  {
    result := map[];
    var remaining := h.Keys;
    ghost var done: set<GridCell> := {};
    RestrictNone(h, key);
    while remaining != {}
      invariant done <= h.Keys && remaining == h.Keys - done
      invariant Grouped(result, Restrict(h, done), key)
      decreases remaining
    {
      var cell :| cell in remaining;
      result := AppendVisitsOfCell(result, cell, h[cell], key, Restrict(h, done));
      RestrictAdd(h, done, cell);
      done := done + {cell};
      remaining := remaining - {cell};
    }
    RestrictAll(h, done);
  }

  /** The invariant of the inner loop of `visitsByDay`: the buckets group
      `m`, and hold as many timestamps as `m` does. */
  ghost predicate Grouped(r: map<string, History>, m: History, key: Time -> string) {
    r == VisitsSpec(m, key) && TotalByDay(r) == TotalVisits(m)
  }

  /** One pass of the inner loop of `visitsByDay` keeps `Grouped`. */
  lemma AppendStep(r: map<string, History>, before: History, cell: GridCell, visits: seq<Time>, j: nat,
                   key: Time -> string)
    requires j < |visits|
    requires Grouped(r, before[cell := visits[..j]], key)
    ensures Grouped(AddVisit(r, key(visits[j]), cell, visits[j]), before[cell := visits[..j + 1]], key)
  {
    assert visits[..j + 1] == visits[..j] + [visits[j]];
    VisitsStep(before, cell, visits[..j], visits[j], key);
    TotalStep(before, cell, visits[..j], visits[j]);
    TotalAddVisit(r, key(visits[j]), cell, visits[j]);
  }

  /** Before the inner loop of `visitsByDay`, an empty entry for the new cell changes nothing. */
  lemma AppendStart(r: map<string, History>, before: History, cell: GridCell, visits: seq<Time>,
                    key: Time -> string)
    requires cell !in before && Grouped(r, before, key)
    ensures Grouped(r, before[cell := visits[..0]], key)
  {
    assert visits[..0] == [];
    VisitsEmptyEntry(before, cell, key);
    TotalEmptyEntry(before, cell);
  }

  /** The inner loop of `visitsByDay`, over the visits of one cell not yet
      grouped: afterwards the buckets group `before` with that cell added. */
  method AppendVisitsOfCell(r: map<string, History>, cell: GridCell, visits: seq<Time>,
                            key: Time -> string, ghost before: History)
    returns (result: map<string, History>)
    requires cell !in before && Grouped(r, before, key)
    ensures Grouped(result, before[cell := visits], key)
  {
    result := r;
    AppendStart(r, before, cell, visits, key);
    for j := 0 to |visits|
      invariant Grouped(result, before[cell := visits[..j]], key)
    {
      AppendStep(result, before, cell, visits, j, key);
      result := AddVisit(result, key(visits[j]), cell, visits[j]);
    }
    assert visits[..|visits|] == visits;
  }

  // ----- what the groupings promise

  /** A cell is listed under day `d` exactly when one of its timestamps has
      day key `d`. */
  lemma DiscoveredIff(h: History, key: Time -> string, d: string, c: GridCell)
    ensures (d in DiscoveredSpec(h, key) && c in DiscoveredSpec(h, key)[d])
        <==> c in h && exists t :: t in h[c] && key(t) == d
  {
    DaysIff(h, key, d);
    if c in h {
      FilterNonEmpty(h[c], key, d);
    }
  }

  /** The two groupings have the same days, and on each day the cells with
      visits are the cells discovered. */
  lemma GroupingsAgree(h: History, key: Time -> string)
    ensures VisitsSpec(h, key).Keys == DiscoveredSpec(h, key).Keys
    ensures forall d :: d in VisitsSpec(h, key) ==> VisitsSpec(h, key)[d].Keys == DiscoveredSpec(h, key)[d]
  {
  }

  /** Every bucket entry is non-empty, and holds exactly the visits of its
      cell that fall on its day, in the order they were recorded. */
  lemma BucketsAreDaySlices(h: History, key: Time -> string, d: string, c: GridCell)
    requires d in VisitsSpec(h, key) && c in VisitsSpec(h, key)[d]
    ensures c in h && VisitsSpec(h, key)[d][c] == Filter(h[c], key, d)
    ensures VisitsSpec(h, key)[d][c] != []
    ensures forall t :: t in VisitsSpec(h, key)[d][c] ==> t in h[c] && key(t) == d
  {
    FilterKeepsDay(h[c], key, d);
  }

  // ----- the selected day

  /** `selectedDayCells`: the cells visited on the selected date's day,
      and none when nothing was visited that day. */
  method SelectedDayCells(h: History, key: Time -> string, selectedDate: Time) returns (cells: set<GridCell>)
    ensures forall c :: c in cells <==> c in h && exists t :: t in h[c] && key(t) == key(selectedDate)
  {
    var byDay := CellsDiscoveredByDay(h, key);
    var day := key(selectedDate);
    cells := if day in byDay then byDay[day] else {};
    forall c ensures c in cells <==> c in h && exists t :: t in h[c] && key(t) == day {
      DiscoveredIff(h, key, day, c);
    }
  }

  /** `selectedDayVisits`: for each cell visited on the selected date's day,
      its visits on that day; an empty map when nothing was visited that day. */
  method SelectedDayVisits(h: History, key: Time -> string, selectedDate: Time) returns (visits: History)
    ensures visits == VisitsOn(h, key, key(selectedDate))
    ensures (forall c, t :: c in h && t in h[c] ==> key(t) != key(selectedDate)) ==> visits == map[]
  {
    var byDay := VisitsByDay(h, key);
    var day := key(selectedDate);
    visits := if day in byDay then byDay[day] else map[];
    if day !in byDay {
      NoDayNoCells(h, key, day);
    }
    if forall c, t :: c in h && t in h[c] ==> key(t) != day {
      assert day !in Days(h, key);
    }
  }

  // ----- distance walked on the selected day

  /** `dates.min()` */
  function Earliest(s: seq<Time>): (r: Option<Time>)
    ensures r.None? <==> s == []
    ensures r.Some? ==> r.value in s && forall t :: t in s ==> r.value <= t
    decreases |s|
  {
    if s == [] then None
    else
      var n := |s| - 1;
      assert s == s[..n] + [s[n]];
      var m := Earliest(s[..n]);
      if m.Some? && m.value <= s[n] then m else Some(s[n])
  }

  /** `dates.min() ?? Date.distantPast` */
  function EarliestOr(s: seq<Time>): (r: Time)
    ensures s == [] ==> r == DistantPast
    ensures s != [] ==> r in s && forall t :: t in s ==> r <= t
  {
    Earliest(s).GetOr(DistantPast)
  }

  /** The day's cells, each once, ascending by earliest visit that day. */
  ghost predicate OrderedByEarliest(order: seq<GridCell>, visits: History) {
    && |order| == |visits|
    && (forall i :: 0 <= i < |order| ==> order[i] in visits)
    && (forall c :: c in visits ==> c in order)
    && (forall i, j :: 0 <= i < j < |order| ==> order[i] != order[j])
    && (forall i, j :: 0 <= i < j < |order| ==> EarliestOr(visits[order[i]]) <= EarliestOr(visits[order[j]]))
  }

  /** The location of a cell's centre; `CLLocation()`, at (0, 0), when no origin is set. */
  function CellCenter(center: Option<Coordinate>, cell: GridCell): (p: Coordinate)
    ensures center.None? ==> p == Coordinate(0.0, 0.0)
    ensures center.Some? ==>
      && (p.latitude - center.value.latitude) / CellSize == cell.x as real
      && (p.longitude - center.value.longitude) / CellSize == cell.y as real
  {
    match center
    case None => Coordinate(0.0, 0.0)
    case Some(o) => Coordinate(o.latitude + (cell.x as real) * CellSize, o.longitude + (cell.y as real) * CellSize)
  }

  /** The centres of `order`'s cells, in order. Without an origin they all
      coincide at (0, 0). */
  function Centers(center: Option<Coordinate>, order: seq<GridCell>): (ps: seq<Coordinate>)
    ensures |ps| == |order| && forall i :: 0 <= i < |order| ==> ps[i] == CellCenter(center, order[i])
    ensures center.None? ==> forall i :: 0 <= i < |ps| ==> ps[i] == Coordinate(0.0, 0.0)
  {
    seq(|order|, i requires 0 <= i < |order| => CellCenter(center, order[i]))
  }

  /** With an origin, distinct cells have distinct centres. */
  lemma CentersDistinct(center: Option<Coordinate>, order: seq<GridCell>)
    requires center.Some?
    ensures forall i, j :: 0 <= i < |order| && 0 <= j < |order| && order[i] != order[j] ==>
      Centers(center, order)[i] != Centers(center, order)[j]
  {
    forall i, j | 0 <= i < |order| && 0 <= j < |order| && order[i] != order[j]
      ensures Centers(center, order)[i] != Centers(center, order)[j]
    {
      var p, q := CellCenter(center, order[i]), CellCenter(center, order[j]);
      assert order[i].x != order[j].x || order[i].y != order[j].y;
    }
  }

  /** The length of the path through `ps` in order: `dist(ps[i], ps[i - 1])`
      summed over consecutive points; 0 for fewer than two points. */
  function PathLength(ps: seq<Coordinate>, dist: (Coordinate, Coordinate) -> real): real
    decreases |ps|
  {
    if |ps| < 2 then 0.0
    else PathLength(ps[..|ps| - 1], dist) + dist(ps[|ps| - 1], ps[|ps| - 2])
  }

  /** With a non-negative distance, the path length is non-negative. */
  lemma {:induction false} PathLengthNonNegative(ps: seq<Coordinate>, dist: (Coordinate, Coordinate) -> real)
    requires forall p, q :: dist(p, q) >= 0.0
    ensures PathLength(ps, dist) >= 0.0
    decreases |ps|
  {
    if |ps| >= 2 {
      PathLengthNonNegative(ps[..|ps| - 1], dist);
    }
  }

  /** The `map` over `selectedDayVisits`: one (cell, earliest visit) pair per
      cell, in the dictionary's iteration order. */
  method CellDatePairs(visits: History) returns (pairs: seq<(GridCell, Time)>)
    ensures |pairs| == |visits|
    ensures forall i :: 0 <= i < |pairs| ==> pairs[i].0 in visits && pairs[i].1 == EarliestOr(visits[pairs[i].0])
    ensures forall c :: c in visits ==> exists i :: 0 <= i < |pairs| && pairs[i].0 == c
    ensures forall i, j :: 0 <= i < j < |pairs| ==> pairs[i].0 != pairs[j].0
  {
    pairs := [];
    var remaining := visits.Keys;
    while remaining != {}
      invariant remaining <= visits.Keys
      invariant |pairs| + |remaining| == |visits|
      invariant forall i :: 0 <= i < |pairs| ==>
        pairs[i].0 in visits && pairs[i].0 !in remaining && pairs[i].1 == EarliestOr(visits[pairs[i].0])
      invariant forall c :: c in visits && c !in remaining ==> exists i :: 0 <= i < |pairs| && pairs[i].0 == c
      invariant forall i, j :: 0 <= i < j < |pairs| ==> pairs[i].0 != pairs[j].0
      decreases remaining
    {
      var cell :| cell in remaining;
      ghost var before := pairs;
      pairs := pairs + [(cell, EarliestOr(visits[cell]))];
      remaining := remaining - {cell};
      forall c | c in visits && c !in remaining ensures exists i :: 0 <= i < |pairs| && pairs[i].0 == c {
        if c == cell {
          assert pairs[|pairs| - 1].0 == c;
        } else {
          var i :| 0 <= i < |before| && before[i].0 == c;
          assert pairs[i].0 == c;
        }
      }
    }
  }

  /** An element occurring at two positions is counted twice. */
  lemma {:induction false} TwiceInMultiset<T>(s: seq<T>, i: nat, j: nat)
    requires i < j < |s| && s[i] == s[j]
    ensures multiset(s)[s[i]] >= 2
  {
    assert s == s[..j] + [s[j]] + s[j + 1..];
    assert s[..j][i] == s[i];
    assert s[i] in multiset(s[..j]);
  }

  /** The facts `CellDatePairs` establishes about its pairs. */
  ghost predicate PairsOf(visits: History, pairs: seq<(GridCell, Time)>) {
    && |pairs| == |visits|
    && (forall i :: 0 <= i < |pairs| ==> pairs[i].0 in visits && pairs[i].1 == EarliestOr(visits[pairs[i].0]))
    && (forall c :: c in visits ==> exists i :: 0 <= i < |pairs| && pairs[i].0 == c)
    && (forall i, j :: 0 <= i < j < |pairs| ==> pairs[i].0 != pairs[j].0)
  }

  /** A permutation of such pairs still has a pair for every cell, and
      only pairs with the cell's earliest visit. */
  lemma PermutedPairs(visits: History, pairs: seq<(GridCell, Time)>, sorted: seq<(GridCell, Time)>)
    requires PairsOf(visits, pairs) && multiset(sorted) == multiset(pairs)
    ensures |sorted| == |visits|
    ensures forall i :: 0 <= i < |sorted| ==> sorted[i].0 in visits && sorted[i].1 == EarliestOr(visits[sorted[i].0])
    ensures forall c :: c in visits ==> exists i :: 0 <= i < |sorted| && sorted[i].0 == c
  {
    assert |multiset(sorted)| == |multiset(pairs)|;
    forall i | 0 <= i < |sorted|
      ensures sorted[i].0 in visits && sorted[i].1 == EarliestOr(visits[sorted[i].0])
    {
      assert sorted[i] in multiset(pairs);
    }
    forall c | c in visits ensures exists i :: 0 <= i < |sorted| && sorted[i].0 == c {
      var k :| 0 <= k < |pairs| && pairs[k].0 == c;
      assert pairs[k] in multiset(sorted);
    }
  }

  /** Pairs with pairwise distinct cells occur at most once each. */
  lemma {:induction false} DistinctCellsOnce(pairs: seq<(GridCell, Time)>, p: (GridCell, Time))
    requires forall i, j :: 0 <= i < j < |pairs| ==> pairs[i].0 != pairs[j].0
    ensures multiset(pairs)[p] <= 1
    decreases |pairs|
  {
    if pairs != [] {
      var n := |pairs| - 1;
      assert pairs == pairs[..n] + [pairs[n]];
      DistinctCellsOnce(pairs[..n], p);
    }
  }

  /** The sorted pairs give the day's cells ordered by earliest visit. */
  lemma SortedPairsOrder(visits: History, pairs: seq<(GridCell, Time)>, sorted: seq<(GridCell, Time)>,
                         order: seq<GridCell>)
    requires PairsOf(visits, pairs)
    requires multiset(sorted) == multiset(pairs) && SortedByTime(sorted)
    requires |order| == |sorted| && forall i :: 0 <= i < |sorted| ==> order[i] == sorted[i].0
    ensures OrderedByEarliest(order, visits)
  {
    PermutedPairs(visits, pairs, sorted);
    forall c | c in visits ensures c in order {
      var i :| 0 <= i < |sorted| && sorted[i].0 == c;
      assert order[i] == c;
    }
    SortedCellsDistinct(visits, pairs, sorted, order);
  }

  /** No cell occurs twice among the cells of a permutation of the pairs. */
  lemma SortedCellsDistinct(visits: History, pairs: seq<(GridCell, Time)>, sorted: seq<(GridCell, Time)>,
                            order: seq<GridCell>)
    requires PairsOf(visits, pairs)
    requires multiset(sorted) == multiset(pairs)
    requires forall i :: 0 <= i < |sorted| ==> sorted[i].0 in visits && sorted[i].1 == EarliestOr(visits[sorted[i].0])
    requires |order| == |sorted| && forall i :: 0 <= i < |sorted| ==> order[i] == sorted[i].0
    ensures forall i, j :: 0 <= i < j < |order| ==> order[i] != order[j]
  {
    forall i, j | 0 <= i < j < |order| ensures order[i] != order[j] {
      if order[i] == order[j] {
        assert sorted[i] == sorted[j];
        TwiceInMultiset(sorted, i, j);
        DistinctCellsOnce(pairs, sorted[i]);
      }
    }
  }

  /** The loop of `selectedDayDistance`: the sum of `dist(ps[i], ps[i - 1])`
      for `i` in `1..<ps.count`. */
  method SumOfSteps(ps: seq<Coordinate>, dist: (Coordinate, Coordinate) -> real) returns (distance: real)
    requires |ps| > 1
    ensures distance == PathLength(ps, dist)
  {
    distance := 0.0;
    for i := 1 to |ps|
      invariant distance == PathLength(ps[..i], dist)
    {
      assert ps[..i + 1][..i] == ps[..i];
      distance := distance + dist(ps[i], ps[i - 1]);
    }
    assert ps[..|ps|] == ps;
  }

  /** The distance for one day's visits: cells ordered by their earliest
      visit, then the distances between consecutive cell centres summed;
      0 when there are fewer than two cells. The order among cells whose
      earliest visits coincide is unspecified, hence the existential. */
  method DayDistance(visits: History, center: Option<Coordinate>, dist: (Coordinate, Coordinate) -> real)
    returns (distance: real)
    ensures exists order :: OrderedByEarliest(order, visits) && distance == PathLength(Centers(center, order), dist)
    ensures |visits| < 2 ==> distance == 0.0
    ensures (forall p, q :: dist(p, q) >= 0.0) ==> distance >= 0.0
  {
    var pairs := CellDatePairs(visits);
    var sorted := SortByTime(pairs);
    var cellCenters := seq(|sorted|, i requires 0 <= i < |sorted| => CellCenter(center, sorted[i].0));
    ghost var order := SortedCells(visits, pairs, sorted, center, cellCenters);
    if |cellCenters| > 1 {
      distance := SumOfSteps(cellCenters, dist);
    } else {
      distance := 0.0;
    }
    assert distance == PathLength(Centers(center, order), dist);
    if forall p, q :: dist(p, q) >= 0.0 {
      PathLengthNonNegative(cellCenters, dist);
    }
  }

  /** The cells of the sorted pairs are the day's cells ordered by earliest
      visit, and the centres computed from the pairs are theirs. */
  lemma SortedCells(visits: History, pairs: seq<(GridCell, Time)>, sorted: seq<(GridCell, Time)>,
                    center: Option<Coordinate>, cellCenters: seq<Coordinate>)
    returns (order: seq<GridCell>)
    requires PairsOf(visits, pairs)
    requires multiset(sorted) == multiset(pairs) && SortedByTime(sorted)
    requires |cellCenters| == |sorted| && forall i :: 0 <= i < |sorted| ==> cellCenters[i] == CellCenter(center, sorted[i].0)
    ensures OrderedByEarliest(order, visits) && cellCenters == Centers(center, order)
  {
    order := seq(|sorted|, i requires 0 <= i < |sorted| => sorted[i].0);
    SortedPairsOrder(visits, pairs, sorted, order);
  }

  /** `selectedDayDistance`: the distance for the selected date's visits. */
  method SelectedDayDistance(h: History, key: Time -> string, selectedDate: Time,
                             center: Option<Coordinate>, dist: (Coordinate, Coordinate) -> real)
    returns (distance: real)
    ensures exists order :: OrderedByEarliest(order, VisitsOn(h, key, key(selectedDate)))
                         && distance == PathLength(Centers(center, order), dist)
    ensures |CellsOn(h, key, key(selectedDate))| < 2 ==> distance == 0.0
    ensures (forall p, q :: dist(p, q) >= 0.0) ==> distance >= 0.0
  {
    var visits := SelectedDayVisits(h, key, selectedDate);
    assert |visits| == |CellsOn(h, key, key(selectedDate))| by {
      assert visits.Keys == CellsOn(h, key, key(selectedDate));
    }
    distance := DayDistance(visits, center, dist);
  }

  // ----- the list of all days

  /** `cellsDiscoveredByDay[day]?.count ?? 0` */
  function CellCount(byDay: map<string, set<GridCell>>, d: string): (n: nat)
    ensures d in byDay ==> n == |byDay[d]|
    ensures n > 0 <==> d in byDay && byDay[d] != {}
  {
    if d in byDay then |byDay[d]| else 0
  }

  /** `rows` lists every day of `byDay` once, ascending by day key, each
      with its number of cells. */
  ghost predicate ListsDays(rows: seq<(string, nat)>, byDay: map<string, set<GridCell>>) {
    && |rows| == |byDay|
    && (forall i, j :: 0 <= i < j < |rows| ==> LexLe(rows[i].0, rows[j].0) && rows[i].0 != rows[j].0)
    && (forall d :: d in byDay <==> exists i :: 0 <= i < |rows| && rows[i].0 == d)
    && (forall i :: 0 <= i < |rows| ==> rows[i].0 in byDay && rows[i].1 == |byDay[rows[i].0]|)
  }

  /** The list under the statistics: every day with discoveries, ascending
      by day key, with its number of cells. */
  ghost function DayList(byDay: map<string, set<GridCell>>): (rows: seq<(string, nat)>)
    ensures ListsDays(rows, byDay)
  {
    var days := SortedKeys(byDay.Keys);
    var rows := seq(|days|, i requires 0 <= i < |days| => (days[i], CellCount(byDay, days[i])));
    DayListFacts(byDay, days, rows);
    rows
  }

  lemma DayListFacts(byDay: map<string, set<GridCell>>, days: seq<string>, rows: seq<(string, nat)>)
    requires StrictlyAscending(days) && (forall k :: k in days <==> k in byDay) && |days| == |byDay|
    requires |rows| == |days| && forall i :: 0 <= i < |days| ==> rows[i] == (days[i], CellCount(byDay, days[i]))
    ensures ListsDays(rows, byDay)
  {
    forall i, j | 0 <= i < j < |rows| ensures LexLe(rows[i].0, rows[j].0) && rows[i].0 != rows[j].0 {
      assert rows[i].0 == days[i] && rows[j].0 == days[j];
    }
    forall d | d in byDay ensures exists i :: 0 <= i < |rows| && rows[i].0 == d {
      assert d in days;
      var i :| 0 <= i < |days| && days[i] == d;
      assert rows[i].0 == d;
    }
    forall i | 0 <= i < |rows| ensures rows[i].0 in byDay {
      assert days[i] in days;
    }
  }
}
