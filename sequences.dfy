/**
 * Collections as the source builds them: the key order of a Python `dict`
 * filled in a loop (first occurrence), `list(some_set)` (every element once,
 * order unspecified) and `sorted(...)` (a stable sort by a string key).
 */
module Sequences {
  import opened Text

  predicate Distinct<T(==)>(xs: seq<T>)
  {
    forall i, j :: 0 <= i < j < |xs| ==> xs[i] != xs[j]
  }

  function Elems<T>(xs: seq<T>): set<T>
  {
    set x | x in xs
  }

  /** Every element of `s` exactly once, in any order: what `list(s)` gives for a Python set `s`. */
  ghost predicate Enumerates<T>(xs: seq<T>, s: set<T>)
  {
    Distinct(xs) && Elems(xs) == s
  }

  predicate StrictlyIncreasing(xs: seq<string>)
  {
    forall i, j :: 0 <= i < j < |xs| ==> Less(xs[i], xs[j])
  }

  /** What `sorted(s)` gives for a Python set of strings `s`. */
  ghost predicate SortedEnumeration(xs: seq<string>, s: set<string>)
  {
    StrictlyIncreasing(xs) && Elems(xs) == s
  }

  /**
   * The distinct elements of `xs` in the order of their first occurrence:
   * the key order of a Python dict whose keys are inserted in the order `xs`.
   */
  function FirstSeen<T(==)>(xs: seq<T>): (r: seq<T>)
    ensures Distinct(r) && Elems(r) == Elems(xs)
  {
    if xs == [] then []
    else
      var init, x := xs[..|xs| - 1], xs[|xs| - 1];
      var p := FirstSeen(init);
      assert xs == init + [x];
      if x in init then p
      else
        assert Elems(p + [x]) == Elems(p) + {x};
        p + [x]
  }

  lemma ElemsAppend<T>(xs: seq<T>, x: T)
    ensures Elems(xs + [x]) == Elems(xs) + {x}
  {
  }

  /** Appending an element to a sequence appends it to the first-seen order unless already present. */
  lemma FirstSeenStep<T>(xs: seq<T>, x: T)
    ensures FirstSeen(xs + [x]) == FirstSeen(xs) + (if x in xs then [] else [x])
  {
    assert (xs + [x])[..|xs|] == xs;
  }

  /** The position of the first occurrence of `x` in `xs`. */
  function FirstIndex<T(==)>(xs: seq<T>, x: T): (r: nat)
    requires x in xs
    ensures r < |xs| && xs[r] == x
    ensures forall k :: 0 <= k < r ==> xs[k] != x
  {
    if xs[0] == x then 0 else 1 + FirstIndex(xs[1..], x)
  }

  lemma {:induction false} FirstIndexAppend<T>(xs: seq<T>, x: T, y: T)
    requires y in xs
    ensures FirstIndex(xs + [x], y) == FirstIndex(xs, y)
  {
    var i := FirstIndex(xs, y);
    var r := FirstIndex(xs + [x], y);
    assert (xs + [x])[i] == y;
  }

  /** `a` and `b` occur in `xs`, and the first `a` comes before the first `b`. */
  predicate FirstBefore<T(==)>(xs: seq<T>, a: T, b: T)
  {
    a in xs && b in xs && FirstIndex(xs, a) < FirstIndex(xs, b)
  }

  /**
   * The dict key order lists the keys by their first insertion: a key
   * listed before another was first inserted before it.
   */
  lemma {:induction false} FirstSeenOrder<T>(xs: seq<T>)
    ensures forall i, j :: 0 <= i < j < |FirstSeen(xs)| ==> FirstBefore(xs, FirstSeen(xs)[i], FirstSeen(xs)[j])
  {
    if xs != [] {
      var init, x := xs[..|xs| - 1], xs[|xs| - 1];
      assert xs == init + [x];
      FirstSeenOrder(init);
      FirstSeenStep(init, x);
      var p := FirstSeen(init);
      forall i, j | 0 <= i < j < |FirstSeen(xs)|
        ensures FirstBefore(xs, FirstSeen(xs)[i], FirstSeen(xs)[j])
      {
        assert FirstSeen(xs)[i] == p[i] && p[i] in Elems(init);
        FirstIndexAppend(init, x, p[i]);
        if j < |p| {
          assert FirstSeen(xs)[j] == p[j] && p[j] in Elems(init);
          FirstIndexAppend(init, x, p[j]);
          assert FirstBefore(init, p[i], p[j]);
        } else {
          assert FirstSeen(xs)[j] == x && x !in init;
        }
      }
    }
  }

  /** The elements of `xs` whose key is `k`, in their order in `xs`. */
  function WithKey<T>(xs: seq<T>, key: T -> string, k: string): seq<T>
  {
    if xs == [] then []
    else (if key(xs[0]) == k then [xs[0]] else []) + WithKey(xs[1..], key, k)
  }

  /** Neighbours are in order of their keys (`<=`, so equal keys may sit side by side). */
  ghost predicate SortedBy<T>(xs: seq<T>, key: T -> string)
  {
    forall i :: 0 <= i < |xs| - 1 ==> LessEq(key(xs[i]), key(xs[i + 1]))
  }

  /** Places `x` in front of the first element whose key is not smaller than its own. */
  function Insert<T>(x: T, s: seq<T>, key: T -> string): seq<T>
  {
    if s == [] || LessEq(key(x), key(s[0])) then [x] + s
    else [s[0]] + Insert(x, s[1..], key)
  }

  lemma {:induction false} InsertFacts<T>(x: T, s: seq<T>, key: T -> string)
    requires SortedBy(s, key)
    ensures var r := Insert(x, s, key);
      && multiset(r) == multiset(s) + multiset{x}
      && |r| == |s| + 1
      && (r[0] == x || r[0] == s[0])
      && SortedBy(r, key)
      && forall k :: WithKey(r, key, k) == (if key(x) == k then [x] else []) + WithKey(s, key, k)
  {
    if s == [] || LessEq(key(x), key(s[0])) {
      var r := [x] + s;
      assert r[1..] == s;
    } else {
      var tail := s[1..];
      InsertFacts(x, tail, key);
      var t := Insert(x, tail, key);
      var r := [s[0]] + t;
      assert s == [s[0]] + tail;
      assert r[1..] == t;
      LessEqTotal(key(x), key(s[0]));
      LessEqReflexive(key(x));
      forall k
        ensures WithKey(r, key, k) == (if key(x) == k then [x] else []) + WithKey(s, key, k)
      {
        assert key(x) != key(s[0]);
      }
    }
  }

  /**
   * Python's `sorted(xs, key=key)`: a permutation of `xs`, ordered by key,
   * that keeps elements with equal keys in their input order (stability).
   */
  function SortBy<T>(xs: seq<T>, key: T -> string): (r: seq<T>)
    ensures multiset(r) == multiset(xs)
    ensures SortedBy(r, key)
    ensures forall k :: WithKey(r, key, k) == WithKey(xs, key, k)
  {
    if xs == [] then []
    else
      var rest := SortBy(xs[1..], key);
      InsertFacts(xs[0], rest, key);
      assert xs == [xs[0]] + xs[1..];
      Insert(xs[0], rest, key)
  }

  function Itself(s: string): string
  {
    s
  }

  lemma {:induction false} SortedPairwise<T>(xs: seq<T>, key: T -> string)
    requires SortedBy(xs, key)
    ensures forall i, j :: 0 <= i < j < |xs| ==> LessEq(key(xs[i]), key(xs[j]))
  {
    if |xs| > 1 {
      SortedPairwise(xs[1..], key);
      forall j | 1 < j < |xs|
        ensures LessEq(key(xs[0]), key(xs[j]))
      {
        assert xs[1..][0] == xs[1] && xs[1..][j - 1] == xs[j];
        LessEqTransitive(key(xs[0]), key(xs[1]), key(xs[j]));
      }
      forall i, j | 0 <= i < j < |xs|
        ensures LessEq(key(xs[i]), key(xs[j]))
      {
        if 0 < i {
          assert xs[1..][i - 1] == xs[i] && xs[1..][j - 1] == xs[j];
        }
      }
    }
  }

  lemma TwoOccurrences<T>(xs: seq<T>, i: nat, j: nat)
    requires i < j < |xs|
    ensures xs[i] == xs[j] ==> multiset(xs)[xs[i]] >= 2
  {
    assert xs == xs[..i] + [xs[i]] + xs[i + 1..j] + [xs[j]] + xs[j + 1..];
  }

  /** A sequence with the multiset of a set lists that set, each element once. */
  lemma MultisetOfSet<T>(xs: seq<T>, s: set<T>)
    requires multiset(xs) == multiset(s)
    ensures Distinct(xs) && Elems(xs) == s
  {
    forall i, j | 0 <= i < j < |xs|
      ensures xs[i] != xs[j]
    {
      TwoOccurrences(xs, i, j);
    }
    forall x
      ensures x in xs <==> x in s
    {
      assert x in xs <==> x in multiset(xs);
    }
  }

  lemma {:induction false} DistinctMultiset<T>(xs: seq<T>)
    requires Distinct(xs)
    ensures multiset(xs) == multiset(Elems(xs))
  {
    if xs != [] {
      var init, x := xs[..|xs| - 1], xs[|xs| - 1];
      assert xs == init + [x];
      assert Distinct(init);
      DistinctMultiset(init);
      assert x !in Elems(init);
      assert Elems(xs) == Elems(init) + {x};
      assert multiset(Elems(xs)) == multiset(Elems(init)) + multiset{x};
    }
  }

  lemma {:induction false} DistinctCardinality<T>(xs: seq<T>)
    requires Distinct(xs)
    ensures |Elems(xs)| == |xs|
  {
    if xs != [] {
      var init, x := xs[..|xs| - 1], xs[|xs| - 1];
      assert xs == init + [x];
      assert Distinct(init);
      DistinctCardinality(init);
      assert x !in Elems(init);
      assert Elems(xs) == Elems(init) + {x};
    }
  }

  /** Sorted strings with no repeats are strictly increasing. */
  lemma SortedDistinctIncreasing(xs: seq<string>)
    requires SortedBy(xs, Itself) && Distinct(xs)
    ensures StrictlyIncreasing(xs)
  {
    SortedPairwise(xs, Itself);
  }

  /** Two strictly increasing listings of one set are the same sequence: `sorted` of a set is determined. */
  lemma {:induction false} SortedEnumerationUnique(xs: seq<string>, ys: seq<string>, s: set<string>)
    requires SortedEnumeration(xs, s) && SortedEnumeration(ys, s)
    ensures xs == ys
  {
    assert xs != [] ==> xs[0] in s;
    assert ys != [] ==> ys[0] in s;
    if xs != [] {
      if xs[0] != ys[0] {
        var i :| 0 <= i < |xs| && xs[i] == ys[0];
        var j :| 0 <= j < |ys| && ys[j] == xs[0];
        assert Less(xs[0], xs[i]) && Less(ys[0], ys[j]);
        LessEqAntisymmetric(xs[0], ys[0]);
      }
      var s' := s - {xs[0]};
      forall k | 0 < k < |xs|
        ensures xs[k] != xs[0]
      {
        assert Less(xs[0], xs[k]);
      }
      forall k | 0 < k < |ys|
        ensures ys[k] != ys[0]
      {
        assert Less(ys[0], ys[k]);
      }
      assert Elems(xs[1..]) == s' by {
        assert xs == [xs[0]] + xs[1..];
      }
      assert Elems(ys[1..]) == s' by {
        assert ys == [ys[0]] + ys[1..];
      }
      SortedEnumerationUnique(xs[1..], ys[1..], s');
      assert xs == [xs[0]] + xs[1..] && ys == [ys[0]] + ys[1..];
    }
  }

  /** Python's `list(s)` for a set `s`: each element once, in an order the model leaves open. */
  method ListOf<T(==)>(s: set<T>) returns (xs: seq<T>)
    ensures Enumerates(xs, s)
    ensures multiset(xs) == multiset(s)
  {
    xs := [];
    var rest := s;
    while rest != {}
      invariant Distinct(xs)
      invariant Elems(xs) !! rest && Elems(xs) + rest == s
      decreases rest
    {
      var x :| x in rest;
      xs := xs + [x];
      rest := rest - {x};
    }
    DistinctMultiset(xs);
  }

  /** Python's `sorted(s)` for a set of strings `s`. */
  method SortedOf(s: set<string>) returns (xs: seq<string>)
    ensures SortedEnumeration(xs, s)
  {
    var listed := ListOf(s);
    xs := SortBy(listed, Itself);
    MultisetOfSet(xs, s);
    SortedDistinctIncreasing(xs);
  }
}
