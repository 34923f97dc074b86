/**
 * Generic sequence helpers shared by the query layer and the scraper model:
 * filtering, summing, counting, maxima and first-occurrence de-duplication.
 */
module Seqs {

  /** The predicate "f(x) == v", as a value that can be passed around unchanged. */
  function Is<T, V(==)>(f: T -> V, v: V): T -> bool
  {
    x => f(x) == v
  }

  /** The elements of `s` satisfying `p`, in their original order. */
  function Filter<T>(s: seq<T>, p: T -> bool): (r: seq<T>)
    ensures |r| <= |s|
    ensures forall i | 0 <= i < |r| :: r[i] in s && p(r[i])
    ensures forall i | 0 <= i < |s| :: p(s[i]) ==> s[i] in r
  {
    if |s| == 0 then [] else (if p(s[0]) then [s[0]] else []) + Filter(s[1..], p)
  }

  lemma {:induction false} FilterAppend<T>(a: seq<T>, b: seq<T>, p: T -> bool)
    ensures Filter(a + b, p) == Filter(a, p) + Filter(b, p)
  {
    if |a| == 0 {
      assert a + b == b;
    } else {
      assert (a + b)[1..] == a[1..] + b;
      FilterAppend(a[1..], b, p);
    }
  }

  /** Filtering twice by the same predicate is filtering once. */
  lemma {:induction false} FilterIdempotent<T>(s: seq<T>, p: T -> bool)
    ensures Filter(Filter(s, p), p) == Filter(s, p)
  {
    if |s| > 0 {
      FilterIdempotent(s[1..], p);
      var head := if p(s[0]) then [s[0]] else [];
      FilterAppend(head, Filter(s[1..], p), p);
    }
  }

  /** Filtering by `q` after `p` keeps what `q` alone keeps when, on `s`, `q` implies `p`. */
  lemma {:induction false} FilterNarrow<T>(s: seq<T>, p: T -> bool, q: T -> bool)
    requires forall i | 0 <= i < |s| :: q(s[i]) ==> p(s[i])
    ensures Filter(Filter(s, p), q) == Filter(s, q)
  {
    if |s| > 0 {
      FilterNarrow(s[1..], p, q);
      var head := if p(s[0]) then [s[0]] else [];
      FilterAppend(head, Filter(s[1..], p), q);
    }
  }

  /** Filters that agree on every element of `s` select the same elements. */
  lemma {:induction false} FilterCongruent<T>(s: seq<T>, p: T -> bool, q: T -> bool)
    requires forall i | 0 <= i < |s| :: p(s[i]) == q(s[i])
    ensures Filter(s, p) == Filter(s, q)
  {
    if |s| > 0 {
      FilterCongruent(s[1..], p, q);
    }
  }

  /** Filtering keeps multiset equality. */
  lemma {:induction false} FilterMultiset<T>(a: seq<T>, b: seq<T>, p: T -> bool)
    requires multiset(a) == multiset(b)
    ensures multiset(Filter(a, p)) == multiset(Filter(b, p))
  {
    FilterMultisetCount(a, p);
    FilterMultisetCount(b, p);
  }

  lemma {:induction false} FilterMultisetCount<T>(s: seq<T>, p: T -> bool)
    ensures forall x :: multiset(Filter(s, p))[x] == if p(x) then multiset(s)[x] else 0
  {
    if |s| > 0 {
      FilterMultisetCount(s[1..], p);
      assert s == [s[0]] + s[1..];
    }
  }

  /** The element-wise image of `s` under `f`. */
  function Map<T, U>(s: seq<T>, f: T -> U): (r: seq<U>)
    ensures |r| == |s|
    ensures forall i | 0 <= i < |s| :: r[i] == f(s[i])
  {
    seq(|s|, i requires 0 <= i < |s| => f(s[i]))
  }

  /** Filtering before or after taking images agrees when the filters correspond on `s`. */
  lemma {:induction false} MapFilter<T, U>(s: seq<T>, f: T -> U, q: T -> bool, p: U -> bool)
    requires forall i | 0 <= i < |s| :: q(s[i]) == p(f(s[i]))
    ensures Map(Filter(s, q), f) == Filter(Map(s, f), p)
  {
    if |s| > 0 {
      var head := if q(s[0]) then [s[0]] else [];
      var ms := Map(s, f);
      assert ms[0] == f(s[0]) && ms[1..] == Map(s[1..], f);
      assert Filter(ms, p) == (if p(ms[0]) then [ms[0]] else []) + Filter(ms[1..], p);
      assert Filter(s, q) == head + Filter(s[1..], q);
      MapFilter(s[1..], f, q, p);
      MapAppend(head, Filter(s[1..], q), f);
      assert Map(head, f) == if q(s[0]) then [f(s[0])] else [];
    }
  }

  /** An injective image occurs as often as what it is the image of. */
  lemma {:induction false} MapInjective<T, U>(s: seq<T>, f: T -> U, x: T)
    requires forall y, z :: f(y) == f(z) ==> y == z
    ensures multiset(Map(s, f))[f(x)] == multiset(s)[x]
  {
    if |s| > 0 {
      MapInjective(s[1..], f, x);
      MapCons(s, f);
      assert multiset(Map(s, f)) == multiset([f(s[0])]) + multiset(Map(s[1..], f));
      assert s == [s[0]] + s[1..];
    }
  }

  lemma MapCons<T, U>(s: seq<T>, f: T -> U)
    requires |s| > 0
    ensures Map(s, f) == [f(s[0])] + Map(s[1..], f)
  {
  }

  lemma MapAppend<T, U>(a: seq<T>, b: seq<T>, f: T -> U)
    ensures Map(a + b, f) == Map(a, f) + Map(b, f)
  {
  }

  /** SUM: the total of `f` over the elements of `s`. */
  function Sum<T>(s: seq<T>, f: T -> int): int
  {
    if |s| == 0 then 0 else f(s[0]) + Sum(s[1..], f)
  }

  lemma {:induction false} SumAppend<T>(a: seq<T>, b: seq<T>, f: T -> int)
    ensures Sum(a + b, f) == Sum(a, f) + Sum(b, f)
  {
    if |a| == 0 {
      assert a + b == b;
    } else {
      assert (a + b)[0] == a[0];
      assert (a + b)[1..] == a[1..] + b;
      SumAppend(a[1..], b, f);
    }
  }

  /** The sum of a pointwise sum is the sum of the two sums. */
  lemma {:induction false} SumPointwise<T>(s: seq<T>, f: T -> int, g: T -> int, h: T -> int)
    requires forall x :: h(x) == f(x) + g(x)
    ensures Sum(s, h) == Sum(s, f) + Sum(s, g)
  {
    if |s| > 0 {
      SumPointwise(s[1..], f, g, h);
    }
  }

  /** A sum of non-negative terms is non-negative. */
  lemma {:induction false} SumNonNegative<T>(s: seq<T>, f: T -> int)
    requires forall i | 0 <= i < |s| :: f(s[i]) >= 0
    ensures Sum(s, f) >= 0
  {
    if |s| > 0 {
      SumNonNegative(s[1..], f);
    }
  }

  /** A sum does not depend on the order of its terms. */
  lemma {:induction false} SumMultiset<T>(a: seq<T>, b: seq<T>, f: T -> int)
    requires multiset(a) == multiset(b)
    ensures Sum(a, f) == Sum(b, f)
    decreases |a|
  {
    assert |b| == |multiset(b)| == |multiset(a)| == |a|;
    if |a| > 0 {
      var x := a[0];
      assert x in multiset(b);
      var i := IndexOf(b, x);
      var rest := b[..i] + b[i + 1..];
      RemoveOne(a, b, i);
      SumMultiset(a[1..], rest, f);
      SumRemove(b, i, f);
    }
  }

  /** Taking the same element out of two permutations of each other leaves two permutations. */
  lemma RemoveOne<T>(a: seq<T>, b: seq<T>, i: nat)
    requires multiset(a) == multiset(b) && |a| > 0 && i < |b| && b[i] == a[0]
    ensures multiset(a[1..]) == multiset(b[..i] + b[i + 1..])
  {
    var x := a[0];
    var pre, post := b[..i], b[i + 1..];
    assert b == pre + [x] + post;
    assert a == [x] + a[1..];
    assert multiset(b) == multiset(pre) + multiset{x} + multiset(post);
    assert multiset(a) == multiset{x} + multiset(a[1..]);
    assert multiset(pre + post) == multiset(pre) + multiset(post);
    assert multiset(pre + post) == multiset(b) - multiset{x};
    assert multiset(a[1..]) == multiset(a) - multiset{x};
  }

  /** A sum is one term plus the sum of the others. */
  lemma SumRemove<T>(b: seq<T>, i: nat, f: T -> int)
    requires i < |b|
    ensures Sum(b, f) == f(b[i]) + Sum(b[..i] + b[i + 1..], f)
  {
    var pre, post := b[..i], b[i + 1..];
    SplitAround(b, i);
    SumAppend(pre, [b[i]] + post, f);
    SumCons(b[i], post, f);
    SumAppend(pre, post, f);
  }

  lemma SplitAround<T>(b: seq<T>, i: nat)
    requires i < |b|
    ensures b == b[..i] + ([b[i]] + b[i + 1..])
  {
  }

  lemma SumCons<T>(x: T, s: seq<T>, f: T -> int)
    ensures Sum([x] + s, f) == f(x) + Sum(s, f)
  {
    assert ([x] + s)[1..] == s;
  }

  /** COUNT with a condition: how many elements satisfy `p`. */
  function Count<T>(s: seq<T>, p: T -> bool): nat
  {
    |Filter(s, p)|
  }

  /** Three conditions of which every element meets exactly one count every element once. */
  lemma {:induction false} CountPartition<T>(s: seq<T>, p: T -> bool, q: T -> bool, r: T -> bool)
    requires forall i | 0 <= i < |s| ::
               if p(s[i]) then !q(s[i]) && !r(s[i]) else q(s[i]) != r(s[i])
    ensures Count(s, p) + Count(s, q) + Count(s, r) == |s|
  {
    if |s| > 0 {
      CountPartition(s[1..], p, q, r);
    }
  }

  /** A sum of ones counts the terms. */
  lemma {:induction false} SumOfOnes<T>(s: seq<T>, f: T -> int)
    requires forall i | 0 <= i < |s| :: f(s[i]) == 1
    ensures Sum(s, f) == |s|
  {
    if |s| > 0 {
      SumOfOnes(s[1..], f);
    }
  }

  /** MAX of `f` over `x` and the elements of `s`. */
  function MaxFrom<T>(x: T, s: seq<T>, f: T -> int): (m: int)
    ensures f(x) <= m
    ensures forall i | 0 <= i < |s| :: f(s[i]) <= m
    ensures m == f(x) || exists i :: 0 <= i < |s| && f(s[i]) == m
  {
    if |s| == 0 then f(x)
    else
      var m := MaxFrom(x, s[1..], f);
      assert forall i | 1 <= i < |s| :: s[i] == s[1..][i - 1];
      if f(s[0]) > m then f(s[0]) else m
  }

  predicate NoDuplicates<T(==)>(s: seq<T>)
  {
    forall i, j | 0 <= i < j < |s| :: s[i] != s[j]
  }

  /** A sequence has no duplicates exactly when no element occurs in it twice. */
  lemma NoDuplicatesIff<T>(s: seq<T>)
    ensures NoDuplicates(s) <==> forall x :: multiset(s)[x] <= 1
  {
    if NoDuplicates(s) {
      NoDuplicatesCount(s);
    } else {
      var i, j :| 0 <= i < j < |s| && s[i] == s[j];
      RepeatCount(s, i, j);
    }
  }

  lemma {:induction false} NoDuplicatesCount<T>(s: seq<T>)
    requires NoDuplicates(s)
    ensures forall x :: multiset(s)[x] <= 1
  {
    if |s| > 0 {
      NoDuplicatesCount(s[1..]);
      assert s == [s[0]] + s[1..];
      assert s[0] !in s[1..];
    }
  }

  lemma RepeatCount<T>(s: seq<T>, i: nat, j: nat)
    requires i < j < |s| && s[i] == s[j]
    ensures multiset(s)[s[i]] >= 2
  {
    assert s == s[..j] + s[j..];
    assert s[i] in s[..j] && s[j] == s[j..][0];
  }

  /** Reordering keeps a sequence free of duplicates. */
  lemma PermutationNoDuplicates<T>(a: seq<T>, b: seq<T>)
    requires multiset(a) == multiset(b) && NoDuplicates(a)
    ensures NoDuplicates(b)
  {
    NoDuplicatesIff(a);
    NoDuplicatesIff(b);
  }

  /** The position of the first occurrence of `x` in `s`. */
  function IndexOf<T(==)>(s: seq<T>, x: T): (i: nat)
    requires x in s
    ensures i < |s| && s[i] == x
    ensures forall j | 0 <= j < i :: s[j] != x
  {
    if s[0] == x then 0 else 1 + IndexOf(s[1..], x)
  }

  /**
   * The distinct elements of `s`, each kept at its first occurrence
   * (SELECT DISTINCT, pandas `unique`, and the keys a GROUP BY forms).
   */
  function Distinct<T(==)>(s: seq<T>): (r: seq<T>)
    ensures NoDuplicates(r)
    ensures forall i | 0 <= i < |r| :: r[i] in s
    ensures forall i | 0 <= i < |s| :: s[i] in r
    ensures |r| <= |s|
  {
    if |s| == 0 then []
    else
      var r := Distinct(s[..|s| - 1]);
      var x := s[|s| - 1];
      assert s == s[..|s| - 1] + [x];
      if x in r then r else r + [x]
  }

  /** Distinct has one entry per different value of `s`. */
  lemma {:induction false} DistinctCardinality<T>(s: seq<T>)
    ensures |Distinct(s)| == |set x | x in s|
  {
    if |s| > 0 {
      var init := s[..|s| - 1];
      var x := s[|s| - 1];
      DistinctCardinality(init);
      assert s == init + [x];
      DistinctSnoc(init, x);
      ElementsSnoc(init, x);
      CardinalityAdd((set y | y in init), x);
    }
  }

  lemma ElementsSnoc<T>(init: seq<T>, x: T)
    ensures (set y | y in init + [x]) == (set y | y in init) + {x}
  {
  }

  lemma CardinalityAdd<T>(seen: set<T>, x: T)
    ensures |seen + {x}| == if x in seen then |seen| else |seen| + 1
  {
    if x in seen {
      assert seen + {x} == seen;
    }
  }

  /** Appending a new last element either repeats a seen one or extends the result. */
  lemma DistinctSnoc<T>(s: seq<T>, x: T)
    ensures Distinct(s + [x]) == if x in s then Distinct(s) else Distinct(s) + [x]
  {
    assert (s + [x])[..|s + [x]| - 1] == s;
  }

  /** Distinct lists its elements in the order of their first occurrences in `s`. */
  lemma {:induction false} DistinctFirstOccurrence<T>(s: seq<T>)
    ensures forall i, j | 0 <= i < j < |Distinct(s)| ::
              IndexOf(s, Distinct(s)[i]) < IndexOf(s, Distinct(s)[j])
  {
    if |s| > 0 {
      var init := s[..|s| - 1];
      var x := s[|s| - 1];
      assert s == init + [x];
      DistinctFirstOccurrence(init);
      FirstOccurrenceSnoc(init, x);
    }
  }

  /** Appending one element keeps Distinct in the order of first occurrences. */
  lemma FirstOccurrenceSnoc<T>(init: seq<T>, x: T)
    requires forall i, j | 0 <= i < j < |Distinct(init)| ::
               IndexOf(init, Distinct(init)[i]) < IndexOf(init, Distinct(init)[j])
    ensures forall i, j | 0 <= i < j < |Distinct(init + [x])| ::
              IndexOf(init + [x], Distinct(init + [x])[i]) < IndexOf(init + [x], Distinct(init + [x])[j])
  {
    var s := init + [x];
    var d := Distinct(init);
    var r := Distinct(s);
    DistinctSnoc(init, x);
    forall y | y in init
      ensures IndexOf(s, y) == IndexOf(init, y)
    {
      IndexOfPrefix(init, [x], y);
    }
    forall i, j | 0 <= i < j < |r|
      ensures IndexOf(s, r[i]) < IndexOf(s, r[j])
    {
      assert r[i] == d[i];
      if j < |d| {
        assert r[j] == d[j];
      } else {
        assert r[j] == x && x !in init;
        IndexOfLast(init, x);
      }
    }
  }

  lemma IndexOfLast<T>(init: seq<T>, x: T)
    requires x !in init
    ensures IndexOf(init + [x], x) == |init|
  {
    var s := init + [x];
    assert s[|init|] == x;
    assert forall k | 0 <= k < |init| :: s[k] == init[k];
  }

  lemma {:induction false} IndexOfPrefix<T>(a: seq<T>, b: seq<T>, y: T)
    requires y in a
    ensures IndexOf(a + b, y) == IndexOf(a, y)
  {
    if a[0] != y {
      assert (a + b)[1..] == a[1..] + b;
      IndexOfPrefix(a[1..], b, y);
    }
  }

  /** Dropping the elements outside `p` before or after de-duplication gives the same list. */
  lemma {:induction false} DistinctFilter<T>(s: seq<T>, p: T -> bool)
    ensures Distinct(Filter(s, p)) == Filter(Distinct(s), p)
  {
    if |s| > 0 {
      DistinctFilter(s[..|s| - 1], p);
      DistinctFilterStep(s, p);
    }
  }

  lemma DistinctFilterStep<T>(s: seq<T>, p: T -> bool)
    requires |s| > 0
    requires Distinct(Filter(s[..|s| - 1], p)) == Filter(Distinct(s[..|s| - 1]), p)
    ensures Distinct(Filter(s, p)) == Filter(Distinct(s), p)
  {
    var init, x := s[..|s| - 1], s[|s| - 1];
    SplitLast(s);
    FilterAppend(init, [x], p);
    if p(x) {
      DistinctFilterKept(init, x, p);
    } else {
      DistinctFilterDropped(init, x, p);
    }
  }

  lemma DistinctFilterKept<T>(init: seq<T>, x: T, p: T -> bool)
    requires p(x)
    requires Distinct(Filter(init, p)) == Filter(Distinct(init), p)
    ensures Distinct(Filter(init, p) + Filter([x], p)) == Filter(Distinct(init + [x]), p)
  {
    assert Filter([x], p) == [x];
    DistinctSnoc(init, x);
    DistinctSnoc(Filter(init, p), x);
    if x in init {
      assert x in Filter(init, p);
    } else {
      FilterAppend(Distinct(init), [x], p);
    }
  }

  lemma DistinctFilterDropped<T>(init: seq<T>, x: T, p: T -> bool)
    requires !p(x)
    requires Distinct(Filter(init, p)) == Filter(Distinct(init), p)
    ensures Distinct(Filter(init, p) + Filter([x], p)) == Filter(Distinct(init + [x]), p)
  {
    assert Filter([x], p) == [];
    assert Filter(init, p) + [] == Filter(init, p);
    DistinctSnoc(init, x);
    if x !in init {
      FilterAppend(Distinct(init), [x], p);
      assert Filter(Distinct(init), p) + [] == Filter(Distinct(init), p);
    }
  }

  lemma SplitLast<T>(s: seq<T>)
    requires |s| > 0
    ensures s == s[..|s| - 1] + [s[|s| - 1]]
  {
  }

  /** De-duplicating a sequence of one repeated value leaves that value once. */
  lemma {:induction false} DistinctConstant<T>(s: seq<T>, v: T)
    requires forall i | 0 <= i < |s| :: s[i] == v
    ensures Distinct(s) == if |s| == 0 then [] else [v]
  {
    if |s| > 0 {
      DistinctConstant(s[..|s| - 1], v);
    }
  }

  /** A sequence with at most one element is determined by its multiset. */
  lemma ShortMultisetEqual<T>(a: seq<T>, b: seq<T>)
    requires multiset(a) == multiset(b)
    requires |a| <= 1
    ensures a == b
  {
    assert |b| == |multiset(b)| == |multiset(a)| == |a|;
    if |a| == 1 {
      assert a[0] in multiset(b);
    }
  }

  /** `a` is `b` with some elements left out, the rest in their original order. */
  predicate Subsequence<T(==)>(a: seq<T>, b: seq<T>)
    decreases |b|
  {
    if |a| == 0 then true
    else if |b| == 0 then false
    else if a[0] == b[0] then Subsequence(a[1..], b[1..])
    else Subsequence(a, b[1..])
  }

  /** Filtering keeps the order: its result is a subsequence of its input. */
  lemma {:induction false} FilterSubsequence<T>(s: seq<T>, p: T -> bool)
    ensures Subsequence(Filter(s, p), s)
  {
    if |s| > 0 {
      FilterSubsequence(s[1..], p);
      var rest := Filter(s[1..], p);
      if p(s[0]) {
        assert Filter(s, p) == [s[0]] + rest;
        assert Filter(s, p)[1..] == rest;
      } else {
        assert Filter(s, p) == rest;
        if |rest| > 0 {
          assert p(rest[0]);
          assert rest[0] != s[0];
        }
      }
    }
  }

  /** The indices 0 .. n - 1. */
  function Range(n: nat): (r: seq<nat>)
    ensures |r| == n
    ensures forall i | 0 <= i < n :: r[i] == i
  {
    seq(n, i requires 0 <= i < n => i)
  }

  /** Membership in `Range(n)` is being below `n`. */
  lemma RangeMember(n: nat)
    ensures forall x: nat :: x in Range(n) <==> x < n
  {
    forall x: nat | x < n
      ensures x in Range(n)
    {
      assert Range(n)[x] == x;
    }
  }

  /** Membership in a filtered sequence: in the sequence and passing the test. */
  lemma FilterMember<T>(s: seq<T>, p: T -> bool)
    ensures forall x :: x in Filter(s, p) <==> x in s && p(x)
  {
  }

  /** `n` copies of `x`. */
  function Repeat<T>(x: T, n: nat): (r: seq<T>)
    ensures |r| == n
    ensures forall i | 0 <= i < n :: r[i] == x
  {
    seq(n, i requires 0 <= i < n => x)
  }

  /** The sequences of `ss` one after the other. */
  function Flatten<T>(ss: seq<seq<T>>): seq<T>
  {
    if |ss| == 0 then [] else ss[0] + Flatten(ss[1..])
  }

  lemma {:induction false} FlattenAppend<T>(a: seq<seq<T>>, b: seq<seq<T>>)
    ensures Flatten(a + b) == Flatten(a) + Flatten(b)
  {
    if |a| == 0 {
      assert a + b == b;
    } else {
      assert (a + b)[1..] == a[1..] + b;
      FlattenAppend(a[1..], b);
    }
  }

  /** Summing the images of `s` is summing the composed measure over `s`. */
  lemma {:induction false} SumMap<T, U>(s: seq<T>, f: T -> U, g: U -> int, h: T -> int)
    requires forall x :: h(x) == g(f(x))
    ensures Sum(Map(s, f), g) == Sum(s, h)
  {
    if |s| > 0 {
      assert Map(s, f)[1..] == Map(s[1..], f);
      SumMap(s[1..], f, g, h);
    }
  }

  /** Taking images keeps a subsequence a subsequence. */
  lemma {:induction false} SubsequenceMap<T, U>(a: seq<T>, b: seq<T>, f: T -> U)
    requires Subsequence(a, b)
    ensures Subsequence(Map(a, f), Map(b, f))
    decreases |b|
  {
    if |a| > 0 && |b| > 0 {
      assert Map(b, f)[1..] == Map(b[1..], f);
      if a[0] == b[0] {
        assert Map(a, f)[1..] == Map(a[1..], f);
        SubsequenceMap(a[1..], b[1..], f);
      } else {
        SubsequenceMap(a, b[1..], f);
        SubsequenceCons(Map(a, f), Map(b, f));
      }
    }
  }

  /** A subsequence of the tail of `b` is a subsequence of `b`. */
  lemma {:induction false} SubsequenceCons<T>(a: seq<T>, b: seq<T>)
    requires |b| > 0 && Subsequence(a, b[1..])
    ensures Subsequence(a, b)
    decreases |b|, 0
  {
    if |a| > 0 && a[0] == b[0] {
      SubsequenceDrop(a, b[1..]);
    }
  }

  /** Dropping the head of a subsequence keeps it a subsequence. */
  lemma {:induction false} SubsequenceDrop<T>(a: seq<T>, b: seq<T>)
    requires |a| > 0 && Subsequence(a, b)
    ensures Subsequence(a[1..], b)
    decreases |b|, 1
  {
    if a[0] != b[0] {
      SubsequenceDrop(a, b[1..]);
    }
    SubsequenceCons(a[1..], b);
  }
}
