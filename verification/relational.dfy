/**
 * The relational operators the catalog queries are built from: inner joins as nested
 * loops, the optional team filter (WHERE), and GROUP BY as the distinct keys in order of
 * first occurrence, each with the lines that carry it.
 */
module Relational {
  import opened Seqs

  /** Inner join as nested loops: every pair satisfying `on`, in left-major order. */
  function Join<A, B>(left: seq<A>, right: seq<B>, on: (A, B) -> bool): (r: seq<(A, B)>)
    ensures forall i | 0 <= i < |r| :: r[i].0 in left && r[i].1 in right && on(r[i].0, r[i].1)
    ensures forall i, j | 0 <= i < |left| && 0 <= j < |right| ::
              on(left[i], right[j]) ==> (left[i], right[j]) in r
  {
    if |left| == 0 then []
    else
      var here := PairsWith(left[0], right, on);
      var rest := Join(left[1..], right, on);
      forall i, j | 0 < i < |left| && 0 <= j < |right| && on(left[i], right[j])
        ensures (left[i], right[j]) in rest
      {
        assert left[i] == left[1..][i - 1];
      }
      forall i | 0 <= i < |here + rest|
        ensures (here + rest)[i].0 in left && (here + rest)[i].1 in right
      {
        if i >= |here| {
          assert (here + rest)[i] == rest[i - |here|];
          assert rest[i - |here|].0 in left[1..];
        }
      }
      here + rest
  }

  /** The pairs `(a, b)` with `b` from `right` that satisfy `on`, in the order of `right`. */
  function PairsWith<A, B>(a: A, right: seq<B>, on: (A, B) -> bool): (r: seq<(A, B)>)
    ensures forall i | 0 <= i < |r| :: r[i].0 == a && r[i].1 in right && on(r[i].0, r[i].1)
    ensures forall j | 0 <= j < |right| :: on(a, right[j]) ==> (a, right[j]) in r
  {
    var pairs := Map(right, PairWith(a));
    var here := Filter(pairs, Joins(on));
    forall j | 0 <= j < |right| && on(a, right[j])
      ensures (a, right[j]) in here
    {
      assert pairs[j] == (a, right[j]);
    }
    forall i | 0 <= i < |here|
      ensures here[i].0 == a && here[i].1 in right
    {
      var n :| 0 <= n < |pairs| && pairs[n] == here[i];
    }
    here
  }

  /** The pairing of `a` with a right-hand row. */
  function PairWith<A, B>(a: A): B -> (A, B)
  {
    b => (a, b)
  }

  /** The join condition, read on a pair. */
  function Joins<A, B>(on: (A, B) -> bool): ((A, B)) -> bool
  {
    (p: (A, B)) => on(p.0, p.1)
  }

  /**
   * The join is a bag, as in SQL: a pair satisfying `on` occurs as many times as its left row
   * occurs on the left times its right row occurs on the right, and any other pair never.
   */
  lemma {:induction false} JoinMultiplicity<A, B>(left: seq<A>, right: seq<B>, on: (A, B) -> bool, a: A, b: B)
    ensures multiset(Join(left, right, on))[(a, b)] == if on(a, b) then multiset(left)[a] * multiset(right)[b] else 0
  {
    if |left| > 0 {
      var here := PairsWith(left[0], right, on);
      var rest := Join(left[1..], right, on);
      assert Join(left, right, on) == here + rest;
      JoinMultiplicity(left[1..], right, on, a, b);
      PairsMultiplicity(left[0], right, on, a, b);
      CountStep(left, multiset(right)[b], here, rest, (a, b), on(a, b));
    }
  }

  /** The count of `p` in `here + rest`, when `here` holds the first left row's share. */
  lemma CountStep<A, B>(left: seq<A>, m: nat, here: seq<(A, B)>, rest: seq<(A, B)>, p: (A, B), on: bool)
    requires |left| > 0
    requires multiset(here)[p] == if left[0] == p.0 && on then m else 0
    requires multiset(rest)[p] == if on then multiset(left[1..])[p.0] * m else 0
    ensures multiset(here + rest)[p] == if on then multiset(left)[p.0] * m else 0
  {
    assert left == [left[0]] + left[1..];
    var d := if left[0] == p.0 then 1 else 0;
    var n := multiset(left[1..])[p.0];
    assert multiset(left)[p.0] == n + d;
    assert (n + d) * m == n * m + d * m;
  }

  /** The pairs of one left row: each right row it joins with, as often as that row occurs. */
  lemma PairsMultiplicity<A, B>(x: A, right: seq<B>, on: (A, B) -> bool, a: A, b: B)
    ensures multiset(PairsWith(x, right, on))[(a, b)] == if x == a && on(a, b) then multiset(right)[b] else 0
  {
    FilterMultisetCount(Map(right, PairWith(x)), Joins(on));
    MapPairMultiplicity(x, right, a, b);
  }

  lemma MapPairMultiplicity<A, B>(x: A, right: seq<B>, a: A, b: B)
    ensures multiset(Map(right, PairWith(x)))[(a, b)] == if x == a then multiset(right)[b] else 0
  {
    if x == a {
      assert PairWith(x)(b) == (a, b);
      MapInjective(right, PairWith(x), b);
    } else {
      assert (a, b) !in Map(right, PairWith(x));
    }
  }


  /** The team filter of a query: every team, or only the team with the given name. */
  datatype Selection = AllTeams | Team(name: string)

  /** The WHERE clause on the team name, applied to joined lines before any grouping. */
  function Where<L>(lines: seq<L>, team: L -> string, sel: Selection): (r: seq<L>)
    ensures sel.AllTeams? ==> r == lines
    ensures sel.Team? ==> forall i | 0 <= i < |r| :: r[i] in lines && team(r[i]) == sel.name
    ensures sel.Team? ==> forall i | 0 <= i < |lines| :: team(lines[i]) == sel.name ==> lines[i] in r
  {
    match sel
    case AllTeams => lines
    case Team(t) => Filter(lines, Is(team, t))
  }

  /** The GROUP BY keys: each key of a line once, in order of first occurrence. */
  function GroupKeys<L, K(==)>(lines: seq<L>, key: L -> K): (ks: seq<K>)
    ensures NoDuplicates(ks)
    ensures forall i | 0 <= i < |lines| :: key(lines[i]) in ks
    ensures forall i | 0 <= i < |ks| :: exists j :: 0 <= j < |lines| && key(lines[j]) == ks[i]
  {
    var keys := Map(lines, key);
    var ks := Distinct(keys);
    assert forall i | 0 <= i < |ks| :: exists j :: 0 <= j < |lines| && key(lines[j]) == ks[i] by {
      forall i | 0 <= i < |ks|
        ensures exists j :: 0 <= j < |lines| && key(lines[j]) == ks[i]
      {
        var j :| 0 <= j < |keys| && keys[j] == ks[i];
        assert key(lines[j]) == ks[i];
      }
    }
    ks
  }

  /** The lines of the group with key `k`. */
  function Group<L, K(==)>(lines: seq<L>, key: L -> K, k: K): (g: seq<L>)
    ensures forall i | 0 <= i < |g| :: g[i] in lines && key(g[i]) == k
    ensures forall i | 0 <= i < |lines| :: key(lines[i]) == k ==> lines[i] in g
  {
    Filter(lines, Is(key, k))
  }

  /**
   * One output row for each key that has lines.  `row` sees the group's first line (where
   * SQLite takes the columns that are neither grouped nor aggregated) and the whole group.
   */
  function RowsFor<L, K(==), R>(keys: seq<K>, lines: seq<L>, key: L -> K, row: (L, seq<L>) -> R): seq<R>
  {
    if |keys| == 0 then []
    else
      var g := Group(lines, key, keys[0]);
      (if |g| == 0 then [] else [row(g[0], g)]) + RowsFor(keys[1..], lines, key, row)
  }

  /** GROUP BY `key`: one row per distinct key, computed from exactly the lines with that key. */
  function GroupRows<L, K(==), R>(lines: seq<L>, key: L -> K, row: (L, seq<L>) -> R): (r: seq<R>)
    ensures |r| == |GroupKeys(lines, key)|
    ensures forall i | 0 <= i < |r| ::
              var g := Group(lines, key, GroupKeys(lines, key)[i]);
              |g| > 0 && r[i] == row(g[0], g)
  {
    var ks := GroupKeys(lines, key);
    forall i | 0 <= i < |ks|
      ensures |Group(lines, key, ks[i])| > 0
    {
      var j :| 0 <= j < |lines| && key(lines[j]) == ks[i];
    }
    RowsForAll(ks, lines, key, row);
    RowsFor(ks, lines, key, row)
  }

  lemma {:induction false} RowsForAll<L, K, R>(keys: seq<K>, lines: seq<L>, key: L -> K, row: (L, seq<L>) -> R)
    requires forall i | 0 <= i < |keys| :: |Group(lines, key, keys[i])| > 0
    ensures |RowsFor(keys, lines, key, row)| == |keys|
    ensures forall i | 0 <= i < |keys| ::
              var g := Group(lines, key, keys[i]);
              RowsFor(keys, lines, key, row)[i] == row(g[0], g)
  {
    if |keys| > 0 {
      RowsForAll(keys[1..], lines, key, row);
      var r := RowsFor(keys, lines, key, row);
      forall i | 0 < i < |keys|
        ensures r[i] == RowsFor(keys[1..], lines, key, row)[i - 1]
      {
      }
    }
  }

  /** Rows over the same keys are equal when every key's group is. */
  lemma {:induction false} RowsForSameGroups<L, K, R>(keys: seq<K>, a: seq<L>, b: seq<L>, key: L -> K, row: (L, seq<L>) -> R)
    requires forall i | 0 <= i < |keys| :: Group(a, key, keys[i]) == Group(b, key, keys[i])
    ensures RowsFor(keys, a, key, row) == RowsFor(keys, b, key, row)
  {
    if |keys| > 0 {
      RowsForSameGroups(keys[1..], a, b, key, row);
    }
  }

  /**
   * Filtering on the team before grouping keeps the groups intact when the team is a
   * function `proj` of the key: the filtered query has exactly the unfiltered groups whose
   * key belongs to team `t`, in the same order, each computed over the same lines.
   */
  lemma FilterBeforeGroup<L, K, R>(lines: seq<L>, key: L -> K, team: L -> string, proj: K -> string,
                                       row: (L, seq<L>) -> R, t: string)
    requires forall i | 0 <= i < |lines| :: team(lines[i]) == proj(key(lines[i]))
    ensures GroupKeys(Filter(lines, Is(team, t)), key) == Filter(GroupKeys(lines, key), Is(proj, t))
    ensures GroupRows(Filter(lines, Is(team, t)), key, row)
         == RowsFor(Filter(GroupKeys(lines, key), Is(proj, t)), lines, key, row)
  {
    var kept := Filter(lines, Is(team, t));
    MapFilter(lines, key, Is(team, t), Is(proj, t));
    DistinctFilter(Map(lines, key), Is(proj, t));
    var ks := Filter(GroupKeys(lines, key), Is(proj, t));
    forall i | 0 <= i < |ks|
      ensures Group(kept, key, ks[i]) == Group(lines, key, ks[i])
    {
      FilterNarrow(lines, Is(team, t), Is(key, ks[i]));
    }
    RowsForSameGroups(ks, kept, lines, key, row);
  }

  /** Taking the rows of the groups whose key belongs to `t` is keeping the rows of team `t`. */
  lemma {:induction false} RowsForFilter<L, K, R>(keys: seq<K>, lines: seq<L>, key: L -> K, row: (L, seq<L>) -> R,
                                                 proj: K -> string, rowTeam: R -> string, t: string)
    requires forall l, g | l in lines :: rowTeam(row(l, g)) == proj(key(l))
    ensures RowsFor(Filter(keys, Is(proj, t)), lines, key, row) == Filter(RowsFor(keys, lines, key, row), Is(rowTeam, t))
  {
    if |keys| > 0 {
      var k, rest := keys[0], keys[1..];
      RowsForFilter(rest, lines, key, row, proj, rowTeam, t);
      var g := Group(lines, key, k);
      var head := if |g| == 0 then [] else [row(g[0], g)];
      var tailRows := RowsFor(rest, lines, key, row);
      assert RowsFor(keys, lines, key, row) == head + tailRows;
      FilterAppend(head, tailRows, Is(rowTeam, t));
      HeadRowFilter(lines, key, row, proj, rowTeam, t, k);
      if proj(k) == t {
        var fk := Filter(keys, Is(proj, t));
        assert fk == [k] + Filter(rest, Is(proj, t));
        assert fk[0] == k && fk[1..] == Filter(rest, Is(proj, t));
      } else {
        assert Filter(keys, Is(proj, t)) == [] + Filter(rest, Is(proj, t)) == Filter(rest, Is(proj, t));
        assert Filter(head, Is(rowTeam, t)) + Filter(tailRows, Is(rowTeam, t)) == Filter(tailRows, Is(rowTeam, t));
      }
    }
  }

  lemma HeadRowFilter<L, K, R>(lines: seq<L>, key: L -> K, row: (L, seq<L>) -> R,
                               proj: K -> string, rowTeam: R -> string, t: string, k: K)
    requires forall l, g | l in lines :: rowTeam(row(l, g)) == proj(key(l))
    ensures var g := Group(lines, key, k);
            var head := if |g| == 0 then [] else [row(g[0], g)];
            Filter(head, Is(rowTeam, t)) == if proj(k) == t then head else []
  {
    var g := Group(lines, key, k);
    if |g| > 0 {
      assert key(g[0]) == k;
      assert rowTeam(row(g[0], g)) == proj(k);
    }
  }

  /**
   * The WHERE clause commutes with GROUP BY when a row's team is that of its key: grouping
   * the team's lines gives exactly the team's rows of the unfiltered grouping, in order.
   */
  lemma FilterBeforeGroupRows<L, K, R>(lines: seq<L>, key: L -> K, team: L -> string, proj: K -> string,
                                       row: (L, seq<L>) -> R, rowTeam: R -> string, t: string)
    requires forall i | 0 <= i < |lines| :: team(lines[i]) == proj(key(lines[i]))
    requires forall l, g | l in lines :: rowTeam(row(l, g)) == proj(key(l))
    ensures GroupRows(Filter(lines, Is(team, t)), key, row) == Filter(GroupRows(lines, key, row), Is(rowTeam, t))
  {
    FilterBeforeGroup(lines, key, team, proj, row, t);
    RowsForFilter(GroupKeys(lines, key), lines, key, row, proj, rowTeam, t);
  }

  /** A property every line has, and that a row inherits from its group's first line, holds of every row. */
  lemma RowsInherit<L, K, R>(lines: seq<L>, key: L -> K, row: (L, seq<L>) -> R, lineOk: L -> bool, rowOk: R -> bool)
    requires forall i | 0 <= i < |lines| :: lineOk(lines[i])
    requires forall l, g :: lineOk(l) ==> rowOk(row(l, g))
    ensures forall i | 0 <= i < |GroupRows(lines, key, row)| :: rowOk(GroupRows(lines, key, row)[i])
  {
  }

  /** Lines that all share one key form at most one group. */
  lemma SingleKey<L, K, R>(lines: seq<L>, key: L -> K, row: (L, seq<L>) -> R, k: K)
    requires forall i | 0 <= i < |lines| :: key(lines[i]) == k
    ensures |GroupRows(lines, key, row)| <= 1
  {
    DistinctConstant(Map(lines, key), k);
  }

  /**
   * The groups partition the lines: adding up a per-group sum over every key gives the
   * sum over all lines.
   */
  lemma {:induction false} SumOverGroups<L, K>(keys: seq<K>, lines: seq<L>, key: L -> K, f: L -> int, perKey: K -> int)
    requires NoDuplicates(keys)
    requires forall i | 0 <= i < |lines| :: key(lines[i]) in keys
    requires forall k :: perKey(k) == Sum(Group(lines, key, k), f)
    ensures Sum(keys, perKey) == Sum(lines, f)
    decreases |lines|
  {
    if |lines| == 0 {
      SumZero(keys, perKey);
    } else {
      var x, rest := lines[0], lines[1..];
      var here := (k: K) => if k == key(x) then f(x) else 0;
      var later := (k: K) => Sum(Group(rest, key, k), f);
      forall k
        ensures perKey(k) == here(k) + later(k)
      {
        var head := if key(x) == k then [x] else [];
        SumAppend(head, Group(rest, key, k), f);
      }
      SumPointwise(keys, here, later, perKey);
      SumIndicator(keys, here, key(x), f(x));
      SumOverGroups(keys, rest, key, f, later);
    }
  }

  lemma {:induction false} SumZero<T>(s: seq<T>, f: T -> int)
    requires forall i | 0 <= i < |s| :: f(s[i]) == 0
    ensures Sum(s, f) == 0
  {
    if |s| > 0 {
      SumZero(s[1..], f);
    }
  }

  /** Over a duplicate-free sequence containing `v`, the indicator of `v` sums to its weight. */
  lemma {:induction false} SumIndicator<T>(s: seq<T>, ind: T -> int, v: T, c: int)
    requires NoDuplicates(s) && v in s
    requires forall x :: ind(x) == if x == v then c else 0
    ensures Sum(s, ind) == c
  {
    if s[0] == v {
      assert v !in s[1..];
      SumZero(s[1..], ind);
    } else {
      SumIndicator(s[1..], ind, v, c);
    }
  }

  /** The rows' aggregate, added up over all rows, is the aggregate over all lines. */
  lemma {:induction false} SumRowsFor<L, K, R>(keys: seq<K>, lines: seq<L>, key: L -> K, row: (L, seq<L>) -> R,
                                                  total: R -> int, f: L -> int, perKey: K -> int)
    requires forall l, g :: total(row(l, g)) == Sum(g, f)
    requires forall k :: perKey(k) == Sum(Group(lines, key, k), f)
    ensures Sum(RowsFor(keys, lines, key, row), total) == Sum(keys, perKey)
  {
    if |keys| > 0 {
      var g := Group(lines, key, keys[0]);
      var head := if |g| == 0 then [] else [row(g[0], g)];
      SumRowsFor(keys[1..], lines, key, row, total, f, perKey);
      SumAppend(head, RowsFor(keys[1..], lines, key, row), total);
    }
  }

  /** A row aggregate that sums `f` over its group adds up, over all groups, to the sum over all lines. */
  lemma GroupTotals<L, K, R>(lines: seq<L>, key: L -> K, row: (L, seq<L>) -> R, total: R -> int, f: L -> int)
    requires forall l, g :: total(row(l, g)) == Sum(g, f)
    ensures Sum(GroupRows(lines, key, row), total) == Sum(lines, f)
  {
    var perKey := (k: K) => Sum(Group(lines, key, k), f);
    SumRowsFor(GroupKeys(lines, key), lines, key, row, total, f, perKey);
    SumOverGroups(GroupKeys(lines, key), lines, key, f, perKey);
  }
}
