/**
 * Python's string operations used by the filename code, over `string`
 * (`seq<char>`): the ordering of `str` (`<`, `sorted`), slicing with
 * clamped bounds, `str.rfind` of a single character, and `str.count`.
 */
module Text {

  /** Python's `a <= b` on `str`: lexicographic by code point, a prefix first. */
  predicate LessEq(a: string, b: string)
  {
    |a| == 0 || (|b| > 0 && (a[0] < b[0] || (a[0] == b[0] && LessEq(a[1..], b[1..]))))
  }

  /** Python's `a < b` on `str`. */
  predicate Less(a: string, b: string)
  {
    LessEq(a, b) && a != b
  }

  lemma {:induction false} LessEqReflexive(a: string)
    ensures LessEq(a, a)
  {
    if |a| > 0 {
      LessEqReflexive(a[1..]);
    }
  }

  lemma {:induction false} LessEqTotal(a: string, b: string)
    ensures LessEq(a, b) || LessEq(b, a)
  {
    if |a| > 0 && |b| > 0 && a[0] == b[0] {
      LessEqTotal(a[1..], b[1..]);
    }
  }

  lemma {:induction false} LessEqAntisymmetric(a: string, b: string)
    requires LessEq(a, b) && LessEq(b, a)
    ensures a == b
  {
    if |a| > 0 && |b| > 0 {
      LessEqAntisymmetric(a[1..], b[1..]);
      assert a == [a[0]] + a[1..] && b == [b[0]] + b[1..];
    }
  }

  lemma {:induction false} LessEqTransitive(a: string, b: string, c: string)
    requires LessEq(a, b) && LessEq(b, c)
    ensures LessEq(a, c)
  {
    if |a| > 0 && |b| > 0 && |c| > 0 && a[0] == b[0] == c[0] {
      LessEqTransitive(a[1..], b[1..], c[1..]);
    }
  }

  /** Python's `s[lo:hi]` for non-negative bounds: bounds are clamped to the string. */
  function Slice(s: string, lo: nat, hi: nat): (r: string)
    ensures lo <= hi <= |s| ==> r == s[lo..hi]
  {
    var h := if hi <= |s| then hi else |s|;
    if lo < h then s[lo..h] else []
  }

  /** Python's `s.rfind(c)` for a single character: the last index of `c`, or -1. */
  function RFind(s: string, c: char): (r: int)
    ensures -1 <= r < |s|
    ensures r == -1 <==> c !in s
    ensures 0 <= r ==> s[r] == c && c !in s[r + 1..]
  {
    if |s| == 0 then -1
    else if s[|s| - 1] == c then |s| - 1
    else
      var init, x := s[..|s| - 1], s[|s| - 1];
      assert s == init + [x];
      var r := RFind(init, c);
      LastAppended(init, x, r);
      r
  }

  lemma LastAppended(init: string, x: char, r: int)
    requires -1 <= r < |init|
    ensures var s := init + [x];
      && (forall y :: y in s <==> y in init || y == x)
      && (0 <= r ==> s[r] == init[r] && s[r + 1..] == init[r + 1..] + [x])
  {
  }

  /** The contract of `RFind` determines its result. */
  lemma RFindUnique(s: string, c: char, i: int)
    requires 0 <= i < |s| && s[i] == c && c !in s[i + 1..]
    ensures RFind(s, c) == i
  {
  }

  /** The last `c` of `a + b` is the last one of `b` when `b` has one, and the last one of `a` otherwise. */
  lemma RFindConcat(a: string, b: string, c: char)
    ensures RFind(a + b, c) == if c in b then |a| + RFind(b, c) else RFind(a, c)
  {
    if c in b {
      RFindInTail(a, b, c);
    } else {
      RFindNotInTail(a, b, c);
    }
  }

  lemma RFindInTail(a: string, b: string, c: char)
    requires c in b
    ensures RFind(a + b, c) == |a| + RFind(b, c)
  {
    var j := RFind(b, c);
    assert (a + b)[|a| + j + 1..] == b[j + 1..];
    RFindUnique(a + b, c, |a| + j);
  }

  lemma RFindNotInTail(a: string, b: string, c: char)
    requires c !in b
    ensures RFind(a + b, c) == RFind(a, c)
  {
    var j := RFind(a, c);
    if 0 <= j {
      assert (a + b)[j + 1..] == a[j + 1..] + b;
      RFindUnique(a + b, c, j);
    } else {
      assert forall x :: x in a + b ==> x in a || x in b;
    }
  }

  /** Python's `s.count(c)` for a single character. */
  function Count(c: char, s: string): nat
  {
    multiset(s)[c]
  }
}
