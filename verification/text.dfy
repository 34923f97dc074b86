/**
 * The string operations the scripts rely on, with Python's meaning:
 * `str.strip`, `str.lower` (on ASCII letters), `in` on strings, `str.split` on one
 * character, `str.join`, `str.replace`, `str.count`, and the code-point order that both
 * Python's `sorted` and SQLite's BINARY collation use.
 */
module Text {
  import opened Seqs
  import opened Sorting

  /** The characters Python's `str.isspace` accepts. */
  predicate IsSpace(c: char)
  {
    || c == ' '
    || '\t' <= c <= '\r'
    || '\U{1c}' <= c <= '\U{1f}'
    || c == '\U{85}' || c == '\U{a0}' || c == '\U{1680}'
    || '\U{2000}' <= c <= '\U{200a}'
    || c == '\U{2028}' || c == '\U{2029}' || c == '\U{202f}' || c == '\U{205f}' || c == '\U{3000}'
  }

  predicate IsUnderscore(c: char)
  {
    c == '_'
  }

  /** Length of the longest prefix of `s` made of `p`-characters. */
  function LeadingRun(s: string, p: char -> bool): (n: nat)
    ensures n <= |s|
    ensures forall i | 0 <= i < n :: p(s[i])
    ensures n < |s| ==> !p(s[n])
  {
    if |s| == 0 || !p(s[0]) then 0 else 1 + LeadingRun(s[1..], p)
  }

  /** Length of the longest suffix of `s` made of `p`-characters. */
  function TrailingRun(s: string, p: char -> bool): (n: nat)
    ensures n <= |s|
    ensures forall i | |s| - n <= i < |s| :: p(s[i])
    ensures n < |s| ==> !p(s[|s| - 1 - n])
  {
    if |s| == 0 || !p(s[|s| - 1]) then 0 else 1 + TrailingRun(s[..|s| - 1], p)
  }

  /**
   * Python's `str.strip(chars)` for the character class `p`: `s` without its longest
   * prefix and longest suffix of `p`-characters.
   */
  function StripWhere(s: string, p: char -> bool): (r: string)
    ensures |r| == 0 || (!p(r[0]) && !p(r[|r| - 1]))
    ensures exists i, j | 0 <= i <= j <= |s| :: r == s[i..j] && OnlyWhere(s[..i], p) && OnlyWhere(s[j..], p)
  {
    var i := LeadingRun(s, p);
    var rest := s[i..];
    var n := TrailingRun(rest, p);
    var r := rest[..|rest| - n];
    assert r == s[i..i + |r|];
    assert OnlyWhere(s[i + |r|..], p) by {
      assert s[i + |r|..] == rest[|rest| - n..];
    }
    r
  }

  predicate OnlyWhere(s: string, p: char -> bool)
  {
    forall i | 0 <= i < |s| :: p(s[i])
  }

  /** Python's `str.strip()`. */
  function Strip(s: string): (r: string)
    ensures |r| == 0 || (!IsSpace(r[0]) && !IsSpace(r[|r| - 1]))
  {
    StripWhere(s, IsSpace)
  }

  /** ASCII upper-case letters map to lower case; every other character is kept. */
  function LowerChar(c: char): char
  {
    if 'A' <= c <= 'Z' then (c as int + ('a' as int - 'A' as int)) as char else c
  }

  /**
   * ASCII lower-casing: `A`-`Z` become `a`-`z` and every other character is kept.  Python's
   * `str.lower()` also folds the non-ASCII letters.
   */
  function Lower(s: string): (r: string)
    ensures |r| == |s|
  {
    Map(s, LowerChar)
  }

  predicate StartsWith(s: string, prefix: string)
  {
    |prefix| <= |s| && s[..|prefix|] == prefix
  }

  /** Python's `pat in s`: `pat` occurs as a contiguous part of `s`. */
  predicate Contains(s: string, pat: string)
    decreases |s|
  {
    StartsWith(s, pat) || (|s| > 0 && Contains(s[1..], pat))
  }

  /** `pat` occurs in `s` starting at position `i`. */
  predicate OccursAt(s: string, pat: string, i: int)
  {
    0 <= i <= |s| - |pat| && s[i..i + |pat|] == pat
  }

  /** `Contains` finds exactly the positions where `pat` occurs. */
  lemma {:induction false} ContainsIff(s: string, pat: string)
    ensures Contains(s, pat) <==> exists i :: OccursAt(s, pat, i)
    decreases |s|
  {
    if StartsWith(s, pat) {
      assert OccursAt(s, pat, 0);
    } else if |s| > 0 {
      ContainsIff(s[1..], pat);
      if exists i :: OccursAt(s, pat, i) {
        var i :| OccursAt(s, pat, i);
        assert i > 0;
        assert OccursAt(s[1..], pat, i - 1);
      }
      if Contains(s[1..], pat) {
        var i :| OccursAt(s[1..], pat, i);
        assert OccursAt(s, pat, i + 1);
      }
    }
  }

  /** A part of a part of `s` is a part of `s`. */
  lemma ContainsTransitive(s: string, mid: string, pat: string)
    requires Contains(s, mid) && Contains(mid, pat)
    ensures Contains(s, pat)
  {
    ContainsIff(s, mid);
    ContainsIff(mid, pat);
    ContainsIff(s, pat);
    var i :| OccursAt(s, mid, i);
    var j :| OccursAt(mid, pat, j);
    assert OccursAt(s, pat, i + j) by {
      forall k | 0 <= k < |pat|
        ensures s[i + j + k] == pat[k]
      {
        assert mid[j + k] == pat[k];
        assert s[i..i + |mid|][j + k] == mid[j + k];
      }
    }
  }

  /** Python's `sep.join(parts)`. */
  function Join(parts: seq<string>, sep: string): string
  {
    if |parts| == 0 then ""
    else if |parts| == 1 then parts[0]
    else parts[0] + sep + Join(parts[1..], sep)
  }

  /** Python's `s.split(sep)` for a one-character separator; the result is never empty. */
  function Split(s: string, sep: char): (parts: seq<string>)
    ensures |parts| >= 1
    ensures forall i | 0 <= i < |parts| :: sep !in parts[i]
    decreases |s|
  {
    if sep !in s then [s]
    else
      var i := IndexOf(s, sep);
      [s[..i]] + Split(s[i + 1..], sep)
  }

  /** Joining the pieces of a split with the separator gives back the string. */
  lemma {:induction false} JoinSplit(s: string, sep: char)
    ensures Join(Split(s, sep), [sep]) == s
    decreases |s|
  {
    if sep in s {
      var i := IndexOf(s, sep);
      JoinSplitStep(s, sep);
      JoinSplit(s[i + 1..], sep);
      assert s == s[..i] + [sep] + s[i + 1..];
    }
  }

  /** One step of a split: the first piece, the separator, then the rest joined back. */
  lemma JoinSplitStep(s: string, sep: char)
    requires sep in s
    ensures var i := IndexOf(s, sep);
            Join(Split(s, sep), [sep]) == s[..i] + [sep] + Join(Split(s[i + 1..], sep), [sep])
  {
    var i := IndexOf(s, sep);
    var rest := Split(s[i + 1..], sep);
    assert Split(s, sep) == [s[..i]] + rest;
    JoinCons(s[..i], rest, [sep]);
  }

  /** Joining a piece in front of at least one more piece puts the separator between them. */
  lemma JoinCons(p: string, rest: seq<string>, sep: string)
    requires |rest| >= 1
    ensures Join([p] + rest, sep) == p + sep + Join(rest, sep)
  {
    assert ([p] + rest)[1..] == rest;
  }

  /** Splitting a join of separator-free pieces gives back the pieces. */
  lemma {:induction false} SplitJoin(parts: seq<string>, sep: char)
    requires |parts| >= 1
    requires forall i | 0 <= i < |parts| :: sep !in parts[i]
    ensures Split(Join(parts, [sep]), sep) == parts
  {
    if |parts| > 1 {
      var rest := Join(parts[1..], [sep]);
      var s := parts[0] + [sep] + rest;
      assert s[|parts[0]|] == sep;
      assert IndexOf(s, sep) == |parts[0]|;
      assert s[..|parts[0]|] == parts[0];
      assert s[|parts[0]| + 1..] == rest;
      SplitJoin(parts[1..], sep);
    }
  }

  /** Python's `s.split(sep)[0]`: the text before the first separator, or all of `s`. */
  function FirstSegment(s: string, sep: char): string
  {
    Split(s, sep)[0]
  }

  /** The first segment is `head` exactly when `s` is `head` or starts with `head` then `sep`. */
  lemma FirstSegmentIs(s: string, sep: char, head: string)
    requires sep !in head
    ensures FirstSegment(s, sep) == head <==> s == head || StartsWith(s, head + [sep])
  {
    if StartsWith(s, head + [sep]) {
      assert s[|head|] == sep;
      assert s[..|head|] == head;
      assert IndexOf(s, sep) == |head|;
    } else if sep in s {
      var i := IndexOf(s, sep);
      assert s[..i + 1] == s[..i] + [sep];
    }
  }

  /**
   * Python's `s.replace(pat, with)` for a non-empty `pat`: occurrences are found from the
   * left and replaced without overlapping.
   */
  function Replace(s: string, pat: string, with: string): string
    requires |pat| > 0
    decreases |s|
  {
    if |s| == 0 then ""
    else if StartsWith(s, pat) then with + Replace(s[|pat|..], pat, with)
    else [s[0]] + Replace(s[1..], pat, with)
  }

  /** Python's `s.count(pat)` for a non-empty `pat`: non-overlapping occurrences from the left. */
  function Occurrences(s: string, pat: string): nat
    requires |pat| > 0
    decreases |s|
  {
    if |s| == 0 then 0
    else if StartsWith(s, pat) then 1 + Occurrences(s[|pat|..], pat)
    else Occurrences(s[1..], pat)
  }

  /** Text without the first character of `pat` is copied by Replace unchanged. */
  lemma {:induction false} ReplaceSkips(a: string, b: string, pat: string, with: string)
    requires |pat| > 0 && pat[0] !in a
    ensures Replace(a + b, pat, with) == a + Replace(b, pat, with)
    ensures Occurrences(a + b, pat) == Occurrences(b, pat)
  {
    if |a| == 0 {
      assert a + b == b;
    } else {
      assert (a + b)[0] == a[0] && (a + b)[1..] == a[1..] + b;
      assert !StartsWith(a + b, pat) by {
        assert (a + b)[0] != pat[0];
      }
      ReplaceSkips(a[1..], b, pat, with);
    }
  }

  /** An occurrence at the front is replaced and counted once. */
  lemma ReplaceAtFront(b: string, pat: string, with: string)
    requires |pat| > 0
    ensures Replace(pat + b, pat, with) == with + Replace(b, pat, with)
    ensures Occurrences(pat + b, pat) == 1 + Occurrences(b, pat)
  {
    assert (pat + b)[..|pat|] == pat;
    assert (pat + b)[|pat|..] == b;
  }

  /**
   * A text holding `pat` once, with no other character that could begin it, is rewritten
   * by Replace at that one place and nowhere else.
   */
  lemma ReplaceSingleSlot(head: string, pat: string, tail: string, with: string)
    requires |pat| > 0 && pat[0] !in head && pat[0] !in tail
    ensures Replace(head + pat + tail, pat, with) == head + with + tail
    ensures Occurrences(head + pat + tail, pat) == 1
  {
    assert head + pat + tail == head + (pat + tail);
    ReplaceSkips(head, pat + tail, pat, with);
    ReplaceAtFront(tail, pat, with);
    ReplaceNone(tail, pat, with);
  }

  /** Text without the first character of `pat` is left as it is and holds no occurrence. */
  lemma ReplaceNone(s: string, pat: string, with: string)
    requires |pat| > 0 && pat[0] !in s
    ensures Replace(s, pat, with) == s && Occurrences(s, pat) == 0
  {
    ReplaceSkips(s, [], pat, with);
    assert s + [] == s;
  }

  /**
   * Code-point lexicographic order: Python's `sorted` on `str`, and SQLite's BINARY
   * collation (UTF-8 byte order is code-point order).
   */
  predicate LexLe(a: string, b: string)
    decreases |a|
  {
    |a| == 0 || (|b| > 0 && (a[0] < b[0] || (a[0] == b[0] && LexLe(a[1..], b[1..]))))
  }

  predicate LexLt(a: string, b: string)
  {
    LexLe(a, b) && a != b
  }

  lemma {:induction false} LexLeReflexive(a: string)
    ensures LexLe(a, a)
    decreases |a|
  {
    if |a| > 0 {
      LexLeReflexive(a[1..]);
    }
  }

  lemma {:induction false} LexLeTotal(a: string, b: string)
    ensures LexLe(a, b) || LexLe(b, a)
    decreases |a|
  {
    if |a| > 0 && |b| > 0 && a[0] == b[0] {
      LexLeTotal(a[1..], b[1..]);
    }
  }

  lemma {:induction false} LexLeTransitive(a: string, b: string, c: string)
    requires LexLe(a, b) && LexLe(b, c)
    ensures LexLe(a, c)
    decreases |a|
  {
    if |a| > 0 && a[0] == b[0] && b[0] == c[0] {
      LexLeTransitive(a[1..], b[1..], c[1..]);
    }
  }

  lemma {:induction false} LexLeAntisymmetric(a: string, b: string)
    requires LexLe(a, b) && LexLe(b, a)
    ensures a == b
    decreases |a|
  {
    if |a| > 0 {
      LexLeAntisymmetric(a[1..], b[1..]);
      assert a == [a[0]] + a[1..] && b == [b[0]] + b[1..];
    }
  }

  /** Code-point order is a total order on strings. */
  lemma LexLeOrder()
    ensures TotalPreorder(LexLe) && Antisymmetric(LexLe)
  {
    forall a: string, b: string
      ensures LexLe(a, b) || LexLe(b, a)
    {
      LexLeTotal(a, b);
    }
    forall a: string, b: string, c: string | LexLe(a, b) && LexLe(b, c)
      ensures LexLe(a, c)
    {
      LexLeTransitive(a, b, c);
    }
    forall a: string, b: string | LexLe(a, b) && LexLe(b, a)
      ensures a == b
    {
      LexLeAntisymmetric(a, b);
    }
  }
}
