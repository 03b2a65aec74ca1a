/** Go compares strings byte by byte over their UTF-8 encoding, and UTF-8 byte
    order agrees with code-point order, so `sort.Strings` orders names by the
    lexicographic order on characters defined here. */
module Lex {

  /** `a` sorts before `b` or equals it: the order `sort.Strings` uses. */
  predicate LexLe(a: string, b: string)
  {
    |a| == 0 || (|b| > 0 && (a[0] < b[0] || (a[0] == b[0] && LexLe(a[1..], b[1..]))))
  }

  lemma {:induction false} LexLeReflexive(a: string)
    ensures LexLe(a, a)
  {
    if |a| > 0 {
      LexLeReflexive(a[1..]);
    }
  }

  lemma {:induction false} LexLeTotal(a: string, b: string)
    ensures LexLe(a, b) || LexLe(b, a)
  {
    if |a| > 0 && |b| > 0 && a[0] == b[0] {
      LexLeTotal(a[1..], b[1..]);
    }
  }

  lemma {:induction false} LexLeAntisymmetric(a: string, b: string)
    requires LexLe(a, b) && LexLe(b, a)
    ensures a == b
  {
    if |a| > 0 {
      LexLeAntisymmetric(a[1..], b[1..]);
      assert a == [a[0]] + a[1..];
      assert b == [b[0]] + b[1..];
    }
  }

  lemma {:induction false} LexLeTransitive(a: string, b: string, c: string)
    requires LexLe(a, b) && LexLe(b, c)
    ensures LexLe(a, c)
  {
    if |a| > 0 && a[0] == b[0] && b[0] == c[0] {
      LexLeTransitive(a[1..], b[1..], c[1..]);
    }
  }

  /** `m` is a lexicographically smallest element of `s`. */
  predicate IsMinimum(m: string, s: seq<string>)
  {
    m in s && forall f | f in s :: LexLe(m, f)
  }

  /** Two minima of the same list are the same name. */
  lemma MinimumUnique(s: seq<string>, m1: string, m2: string)
    requires IsMinimum(m1, s) && IsMinimum(m2, s)
    ensures m1 == m2
  {
    LexLeAntisymmetric(m1, m2);
  }

  /** The lexicographically smallest element of a non-empty list. */
  function MinOf(s: seq<string>): (m: string)
    requires |s| > 0
    ensures IsMinimum(m, s)
  {
    if |s| == 1 then
      LexLeReflexive(s[0]);
      assert forall f | f in s :: f == s[0];
      s[0]
    else
      var rest := MinOf(s[1..]);
      LexLeTotal(s[0], rest);
      assert forall f | f in s :: f == s[0] || f in s[1..];
      if LexLe(s[0], rest) then
        MinBelow(s[0], rest, s[1..]);
        LexLeReflexive(s[0]);
        s[0]
      else
        rest
  }

  lemma MinBelow(x: string, m: string, s: seq<string>)
    requires LexLe(x, m) && forall f | f in s :: LexLe(m, f)
    ensures forall f | f in s :: LexLe(x, f)
  {
    forall f | f in s
      ensures LexLe(x, f)
    {
      LexLeTransitive(x, m, f);
    }
  }

  /** `s` is in non-decreasing order, as `sort.Strings` leaves it. */
  predicate Sorted(s: seq<string>)
  {
    forall i, j | 0 <= i < j < |s| :: LexLe(s[i], s[j])
  }

  /** Whatever order `sort.Strings` chooses among equal names, the name it
      leaves at index 0 is the minimum of the unsorted list. */
  lemma SortedHeadIsMinimum(files: seq<string>, sorted: seq<string>)
    requires |files| > 0
    requires multiset(sorted) == multiset(files)
    requires Sorted(sorted)
    ensures |sorted| > 0 && sorted[0] == MinOf(files)
  {
    assert files[0] in multiset(files);
    assert |sorted| > 0;
    var m := MinOf(files);
    assert m in multiset(sorted);
    var k :| 0 <= k < |sorted| && sorted[k] == m;
    if k > 0 {
      assert LexLe(sorted[0], sorted[k]);
    } else {
      LexLeReflexive(m);
    }
    assert sorted[0] in multiset(files);
    assert sorted[0] in files;
    LexLeAntisymmetric(sorted[0], m);
  }
}
