/**
 * ORDER BY and LIMIT.  A comparator `le(a, b)` reads "a may be listed before b";
 * ties are allowed, so ORDER BY admits several results and `IsOrdered` / `IsTopN`
 * describe all of them.  `Sort` (an insertion sort) computes one.
 */
module Sorting {

  /** `le` is total and transitive, as every ORDER BY comparator is. */
  ghost predicate TotalPreorder<T(!new)>(le: (T, T) -> bool)
  {
    && (forall a, b :: le(a, b) || le(b, a))
    && (forall a, b, c :: le(a, b) && le(b, c) ==> le(a, c))
  }

  /** Two elements that may each precede the other are equal. */
  ghost predicate Antisymmetric<T(!new)>(le: (T, T) -> bool)
  {
    forall a, b :: le(a, b) && le(b, a) ==> a == b
  }

  predicate SortedBy<T>(s: seq<T>, le: (T, T) -> bool)
  {
    forall i, j | 0 <= i < j < |s| :: le(s[i], s[j])
  }

  /** `r` is a result ORDER BY `le` may give for `rows`. */
  ghost predicate IsOrdered<T>(r: seq<T>, rows: seq<T>, le: (T, T) -> bool)
  {
    SortedBy(r, le) && multiset(r) == multiset(rows)
  }

  /**
   * `r` is a result ORDER BY `le` LIMIT `n` may give for `rows`: the right number of rows,
   * in order, drawn from `rows`, and no row left out may come before a row kept.
   */
  ghost predicate IsTopN<T>(r: seq<T>, rows: seq<T>, le: (T, T) -> bool, n: nat)
  {
    && |r| == (if |rows| < n then |rows| else n)
    && SortedBy(r, le)
    && multiset(r) <= multiset(rows)
    && forall x, y | x in r && y in multiset(rows) - multiset(r) :: le(x, y)
  }

  /** Inserts `x` into the sorted `s` before the first element it may precede. */
  function Insert<T(!new)>(x: T, s: seq<T>, le: (T, T) -> bool): (r: seq<T>)
    requires TotalPreorder(le)
    requires SortedBy(s, le)
    ensures SortedBy(r, le)
    ensures multiset(r) == multiset(s) + multiset{x}
  {
    if |s| == 0 then [x]
    else if le(x, s[0]) then
      PrependSorted(x, s, le);
      [x] + s
    else
      var rest := Insert(x, s[1..], le);
      assert s == [s[0]] + s[1..];
      HeadPrecedesInsert(x, s, rest, le);
      PrependSorted(s[0], rest, le);
      [s[0]] + rest
  }

  lemma PrependSorted<T(!new)>(x: T, s: seq<T>, le: (T, T) -> bool)
    requires TotalPreorder(le)
    requires SortedBy(s, le)
    requires |s| == 0 || le(x, s[0])
    ensures SortedBy([x] + s, le)
  {
    assert forall j | 0 < j < |s| :: le(x, s[j]) by {
      forall j | 0 < j < |s| ensures le(x, s[j]) {
        assert le(s[0], s[j]);
      }
    }
  }

  lemma HeadPrecedesInsert<T(!new)>(x: T, s: seq<T>, rest: seq<T>, le: (T, T) -> bool)
    requires TotalPreorder(le)
    requires |s| > 0 && SortedBy(s, le) && !le(x, s[0])
    requires multiset(rest) == multiset(s[1..]) + multiset{x}
    requires SortedBy(rest, le)
    ensures |rest| == 0 || le(s[0], rest[0])
  {
    if |rest| > 0 {
      assert rest[0] in multiset(rest);
      if rest[0] != x {
        assert rest[0] in s[1..];
      }
    }
  }

  /** Insertion sort: one of the orders `le` admits. */
  function Sort<T(!new)>(s: seq<T>, le: (T, T) -> bool): (r: seq<T>)
    requires TotalPreorder(le)
    ensures IsOrdered(r, s, le)
  {
    if |s| == 0 then []
    else
      assert s == [s[0]] + s[1..];
      Insert(s[0], Sort(s[1..], le), le)
  }

  /** LIMIT n: the first `n` rows, or all of them when there are fewer. */
  function Limit<T>(s: seq<T>, n: nat): (r: seq<T>)
    ensures |r| == (if |s| < n then |s| else n)
    ensures r <= s
  {
    if |s| <= n then s else s[..n]
  }

  /** Cutting any admissible ORDER BY result at `n` rows is an admissible ORDER BY ... LIMIT n result. */
  lemma LimitOfOrderedIsTopN<T>(s: seq<T>, rows: seq<T>, le: (T, T) -> bool, n: nat)
    requires IsOrdered(s, rows, le)
    ensures IsTopN(Limit(s, n), rows, le, n)
  {
    var r := Limit(s, n);
    var k := |r|;
    assert r == s[..k];
    assert s == r + s[k..];
    assert multiset(s) == multiset(r) + multiset(s[k..]);
    assert multiset(rows) - multiset(r) == multiset(s[k..]);
    PrefixPrecedesRest(s, le, k);
  }

  /** In a sorted sequence, every element of a prefix may precede every element after it. */
  lemma PrefixPrecedesRest<T>(s: seq<T>, le: (T, T) -> bool, k: nat)
    requires SortedBy(s, le) && k <= |s|
    ensures forall x, y | x in s[..k] && y in multiset(s[k..]) :: le(x, y)
  {
    forall x, y | x in s[..k] && y in multiset(s[k..])
      ensures le(x, y)
    {
      var i :| 0 <= i < k && s[..k][i] == x;
      var j :| 0 <= j < |s| - k && s[k..][j] == y;
      assert s[i] == x && s[k + j] == y;
    }
  }

  /** ORDER BY `le` LIMIT `n`: the sorted rows cut at `n`. */
  function SortLimit<T(!new)>(rows: seq<T>, le: (T, T) -> bool, n: nat): (r: seq<T>)
    requires TotalPreorder(le)
    ensures IsTopN(r, rows, le, n)
  {
    LimitOfOrderedIsTopN(Sort(rows, le), rows, le, n);
    Limit(Sort(rows, le), n)
  }

  /** ORDER BY ... LIMIT `n` returns at most `n` rows, in order. */
  lemma TopNShape<T>(r: seq<T>, rows: seq<T>, le: (T, T) -> bool, n: nat)
    requires IsTopN(r, rows, le, n)
    ensures |r| <= n && SortedBy(r, le)
  {
  }

  /** ORDER BY returns its rows in order. */
  lemma OrderedSorted<T>(r: seq<T>, rows: seq<T>, le: (T, T) -> bool)
    requires IsOrdered(r, rows, le)
    ensures SortedBy(r, le)
  {
  }

  /** Every row ORDER BY ... LIMIT returns is one of the rows it ranked. */
  lemma TopNMembers<T>(r: seq<T>, rows: seq<T>, le: (T, T) -> bool, n: nat)
    requires IsTopN(r, rows, le, n)
    ensures forall i | 0 <= i < |r| :: r[i] in rows
  {
    forall i | 0 <= i < |r|
      ensures r[i] in rows
    {
      assert r[i] in multiset(r);
    }
  }

  /** A property every ranked row has holds of every row ORDER BY returns. */
  lemma OrderedInherit<T>(r: seq<T>, rows: seq<T>, le: (T, T) -> bool, ok: T -> bool)
    requires IsOrdered(r, rows, le)
    requires forall k | 0 <= k < |rows| :: ok(rows[k])
    ensures forall i | 0 <= i < |r| :: ok(r[i])
  {
    forall i | 0 <= i < |r|
      ensures ok(r[i])
    {
      assert r[i] in multiset(rows);
    }
  }

  /** A property every ranked row has holds of every row ORDER BY ... LIMIT returns. */
  lemma TopNInherit<T>(r: seq<T>, rows: seq<T>, le: (T, T) -> bool, n: nat, ok: T -> bool)
    requires IsTopN(r, rows, le, n)
    requires forall k | 0 <= k < |rows| :: ok(rows[k])
    ensures forall i | 0 <= i < |r| :: ok(r[i])
  {
    TopNMembers(r, rows, le, n);
    forall i | 0 <= i < |r|
      ensures ok(r[i])
    {
      var k :| 0 <= k < |rows| && rows[k] == r[i];
    }
  }

  /** With an antisymmetric comparator, ORDER BY has exactly one result. */
  lemma {:induction false} SortedUnique<T(!new)>(a: seq<T>, b: seq<T>, le: (T, T) -> bool)
    requires Antisymmetric(le)
    requires IsOrdered(a, b, le) && SortedBy(b, le)
    ensures a == b
  {
    if |a| > 0 {
      SameHead(a, b, le);
      SameTails(a, b);
      assert SortedBy(a[1..], le) && SortedBy(b[1..], le);
      SortedUnique(a[1..], b[1..], le);
      assert a == [a[0]] + a[1..] && b == [b[0]] + b[1..];
    }
  }

  /** Two permutations of each other with the same head have tails that are permutations of each other. */
  lemma SameTails<T>(a: seq<T>, b: seq<T>)
    requires multiset(a) == multiset(b) && |a| > 0 && |b| > 0 && a[0] == b[0]
    ensures multiset(a[1..]) == multiset(b[1..])
  {
    assert a == [a[0]] + a[1..] && b == [b[0]] + b[1..];
    assert multiset(a[1..]) == multiset(a) - multiset{a[0]};
    assert multiset(b[1..]) == multiset(b) - multiset{b[0]};
  }

  lemma SameHead<T(!new)>(a: seq<T>, b: seq<T>, le: (T, T) -> bool)
    requires Antisymmetric(le)
    requires IsOrdered(a, b, le) && SortedBy(b, le)
    requires |a| > 0
    ensures |b| > 0 && a[0] == b[0]
  {
    assert |b| == |multiset(b)| == |multiset(a)| == |a|;
    assert a[0] in multiset(b) && b[0] in multiset(a);
    var i :| 0 <= i < |b| && b[i] == a[0];
    var j :| 0 <= j < |a| && a[j] == b[0];
    if i > 0 && j > 0 {
      assert le(a[0], a[j]) && le(b[0], b[i]);
    }
  }
}
