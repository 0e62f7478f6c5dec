/** The orders StatisticsView.swift sorts by: `String`'s `<` on day keys, and
    `Date`'s `<` on (cell, earliest visit) pairs. */
module Ordering {
  import opened Grid

  // ----- day keys

  /** `a <= b` for strings: lexicographic on character codes, which is how
      Swift compares the ASCII day keys the formatter produces. A prefix comes
      first, and otherwise the first differing character decides. */
  function LexLe(a: string, b: string): (r: bool)
    ensures a <= b ==> r
    ensures r && a != [] ==> b != [] && a[0] <= b[0]
    decreases |a|
  {
    a == [] || (b != [] && (a[0] < b[0] || (a[0] == b[0] && LexLe(a[1..], b[1..]))))
  }

  lemma {:induction false} LexLeTotal(a: string, b: string)
    ensures LexLe(a, b) || LexLe(b, a)
    decreases |a|
  {
    if a != [] && b != [] && a[0] == b[0] {
      LexLeTotal(a[1..], b[1..]);
    }
  }

  lemma {:induction false} LexLeAntisymmetric(a: string, b: string)
    requires LexLe(a, b) && LexLe(b, a)
    ensures a == b
    decreases |a|
  {
    if a != [] {
      LexLeAntisymmetric(a[1..], b[1..]);
      assert a == [a[0]] + a[1..] && b == [b[0]] + b[1..];
    }
  }

  lemma {:induction false} LexLeTransitive(a: string, b: string, c: string)
    requires LexLe(a, b) && LexLe(b, c)
    ensures LexLe(a, c)
    decreases |a|
  {
    if a != [] && a[0] == b[0] && b[0] == c[0] {
      LexLeTransitive(a[1..], b[1..], c[1..]);
    }
  }

  /** Strictly ascending, so also free of duplicates. */
  ghost predicate StrictlyAscending(s: seq<string>) {
    forall i, j :: 0 <= i < j < |s| ==> LexLe(s[i], s[j]) && s[i] != s[j]
  }

  lemma LexLeReflexive(a: string)
    ensures LexLe(a, a)
  {
    LexLeTotal(a, a);
  }

  /** The least element of a finite non-empty set of strings. */
  ghost function Least(s: set<string>): (m: string)
    requires s != {}
    ensures m in s && forall k :: k in s ==> LexLe(m, k)
    decreases |s|
  {
    var x :| x in s;
    if s == {x} then
      LexLeReflexive(x);
      x
    else
      var m := Least(s - {x});
      LexLeTotal(x, m);
      if LexLe(x, m) then
        assert forall k :: k in s ==> LexLe(x, k) by {
          forall k | k in s ensures LexLe(x, k) {
            if k == x { LexLeReflexive(x); } else { LexLeTransitive(x, m, k); }
          }
        }
        x
      else
        m
  }

  /** `keys.sorted()`: the keys in ascending order, each once. */
  ghost function SortedKeys(s: set<string>): (r: seq<string>)
    ensures StrictlyAscending(r)
    ensures forall k :: k in r <==> k in s
    ensures |r| == |s|
    decreases |s|
  {
    if s == {} then []
    else
      var m := Least(s);
      var rest := SortedKeys(s - {m});
      LeastFirst(s, m, rest);
      [m] + rest
  }

  /** The least key followed by the others in ascending order is the whole set in ascending order. */
  lemma LeastFirst(s: set<string>, m: string, rest: seq<string>)
    requires m in s && forall k :: k in s ==> LexLe(m, k)
    requires StrictlyAscending(rest) && (forall k :: k in rest <==> k in s - {m}) && |rest| == |s - {m}|
    ensures StrictlyAscending([m] + rest)
    ensures forall k :: k in [m] + rest <==> k in s
    ensures |[m] + rest| == |s|
  {
    var r := [m] + rest;
    assert r[0] == m && r[1..] == rest;
    forall j | 0 < j < |r| ensures LexLe(r[0], r[j]) && r[0] != r[j] {
      assert r[j] == rest[j - 1] && rest[j - 1] in rest;
    }
    forall i, j | 0 < i < j < |r| ensures LexLe(r[i], r[j]) && r[i] != r[j] {
      assert r[i] == rest[i - 1] && r[j] == rest[j - 1];
    }
    forall k ensures k in r <==> k in s {
      assert k in r <==> k == m || k in rest;
    }
  }

  // ----- cells by earliest visit

  /** Ascending (ties allowed) in the timestamp component. */
  predicate SortedByTime(s: seq<(GridCell, Time)>) {
    forall i, j :: 0 <= i < j < |s| ==> s[i].1 <= s[j].1
  }

  /** Puts `p` into the sorted `s` before the first pair with a later time. */
  function Insert(p: (GridCell, Time), s: seq<(GridCell, Time)>): (r: seq<(GridCell, Time)>)
    requires SortedByTime(s)
    ensures SortedByTime(r)
    ensures multiset(r) == multiset(s) + multiset{p}
    decreases |s|
  {
    if s == [] || p.1 <= s[0].1 then [p] + s
    else
      var tail := Insert(p, s[1..]);
      assert s == [s[0]] + s[1..];
      BoundedBelow(s[0].1, p, s[1..], tail);
      [s[0]] + tail
  }

  /** A permutation of `rest + [p]` keeps a lower bound of both. */
  lemma BoundedBelow(lo: Time, p: (GridCell, Time), rest: seq<(GridCell, Time)>, tail: seq<(GridCell, Time)>)
    requires lo <= p.1 && forall i :: 0 <= i < |rest| ==> lo <= rest[i].1
    requires multiset(tail) == multiset(rest) + multiset{p}
    ensures forall j :: 0 <= j < |tail| ==> lo <= tail[j].1
  {
    forall j | 0 <= j < |tail| ensures lo <= tail[j].1 {
      assert tail[j] in multiset(tail);
      if tail[j] != p {
        assert tail[j] in multiset(rest);
        var i :| 0 <= i < |rest| && rest[i] == tail[j];
      }
    }
  }

  /** `.sorted { $0.1 < $1.1 }`: a permutation of the pairs, ascending in
      time. Swift's sort does not promise an order among equal times, and
      neither does this contract. */
  function SortByTime(s: seq<(GridCell, Time)>): (r: seq<(GridCell, Time)>)
    ensures SortedByTime(r)
    ensures multiset(r) == multiset(s)
    decreases |s|
  {
    if s == [] then []
    else
      assert s == s[..|s| - 1] + [s[|s| - 1]];
      Insert(s[|s| - 1], SortByTime(s[..|s| - 1]))
  }
}
