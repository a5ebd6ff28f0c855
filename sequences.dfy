/**
  Sequence helpers shared by the models: `Array.prototype.filter`, distinctness, and
  `Array.prototype.sort` with a numeric comparator, which ECMAScript (since 2019)
  requires to be stable.
 */
module Sequences {

  /** No element occurs twice. */
  predicate Distinct<T(==)>(s: seq<T>) {
    forall i, j :: 0 <= i < j < |s| ==> s[i] != s[j]
  }

  /** Every two elements at different positions are related by `rel`. */
  ghost predicate Pairwise<T>(s: seq<T>, rel: (T, T) -> bool) {
    forall i, j :: 0 <= i < |s| && 0 <= j < |s| && i != j ==> rel(s[i], s[j])
  }

  /**
    `s.filter(p)`: the elements of `s` that satisfy `p`, in their original order.
    It is defined on the last element, so a loop that walks `s` from the front
    can keep `Filter(s[..i], p)` as its invariant.
   */
  function Filter<T>(s: seq<T>, p: T -> bool): (r: seq<T>)
    ensures |r| <= |s|
    ensures forall i :: 0 <= i < |r| ==> p(r[i])
    ensures forall x :: x in r ==> x in s
  {
    if s == [] then []
    else
      assert s == s[..|s| - 1] + [s[|s| - 1]];
      Filter(s[..|s| - 1], p) + (if p(s[|s| - 1]) then [s[|s| - 1]] else [])
  }

  lemma {:induction false} FilterAppend<T>(a: seq<T>, b: seq<T>, p: T -> bool)
    ensures Filter(a + b, p) == Filter(a, p) + Filter(b, p)
    decreases |b|
  {
    if b == [] {
      assert a + b == a;
    } else {
      var b' := b[..|b| - 1];
      assert (a + b)[..|a + b| - 1] == a + b';
      assert (a + b)[|a + b| - 1] == b[|b| - 1];
      FilterAppend(a, b', p);
    }
  }

  /** An element is kept exactly when it occurs in `s` and satisfies `p`. */
  lemma {:induction false} FilterMember<T>(s: seq<T>, p: T -> bool, x: T)
    ensures x in Filter(s, p) <==> x in s && p(x)
    decreases |s|
  {
    if s != [] {
      var s' := s[..|s| - 1];
      assert s == s' + [s[|s| - 1]];
      FilterMember(s', p, x);
    }
  }

  /** Filtering keeps every element when all satisfy `p`, and none when none do. */
  lemma {:induction false} FilterAllOrNone<T>(s: seq<T>, p: T -> bool)
    ensures (forall i :: 0 <= i < |s| ==> p(s[i])) ==> Filter(s, p) == s
    ensures (forall i :: 0 <= i < |s| ==> !p(s[i])) ==> Filter(s, p) == []
    decreases |s|
  {
    if s != [] {
      var s' := s[..|s| - 1];
      assert s == s' + [s[|s| - 1]];
      FilterAllOrNone(s', p);
    }
  }

  // ---------------------------------------------------------------------------
  // Stable sort by an integer key

  /** Non-decreasing by `key`. */
  ghost predicate SortedBy<T>(s: seq<T>, key: T -> int) {
    forall i, j :: 0 <= i < j < |s| ==> key(s[i]) <= key(s[j])
  }

  /** Inserts `x` after every leading element whose key is at most `key(x)`. */
  function InsertBy<T>(x: T, s: seq<T>, key: T -> int): seq<T>
  {
    if s == [] || key(x) < key(s[0]) then [x] + s
    else [s[0]] + InsertBy(x, s[1..], key)
  }

  /** Where `InsertBy` puts `x`. */
  function InsertPos<T>(x: T, s: seq<T>, key: T -> int): (r: nat)
    ensures r <= |s|
  {
    if s == [] || key(x) < key(s[0]) then 0
    else 1 + InsertPos(x, s[1..], key)
  }

  /**
    Insertion sort: every element goes after the elements already placed whose key is
    not larger, so elements with equal keys keep their relative order.
   */
  function SortBy<T>(s: seq<T>, key: T -> int): seq<T>
  {
    if s == [] then []
    else InsertBy(s[|s| - 1], SortBy(s[..|s| - 1], key), key)
  }

  lemma {:induction false} InsertByShape<T>(x: T, s: seq<T>, key: T -> int)
    ensures InsertPos(x, s, key) <= |s|
    ensures InsertBy(x, s, key) == s[..InsertPos(x, s, key)] + [x] + s[InsertPos(x, s, key)..]
    ensures forall i :: 0 <= i < InsertPos(x, s, key) ==> key(s[i]) <= key(x)
    ensures InsertPos(x, s, key) < |s| ==> key(x) < key(s[InsertPos(x, s, key)])
    decreases |s|
  {
    if s != [] && key(x) >= key(s[0]) {
      var p := InsertPos(x, s[1..], key);
      InsertByShape(x, s[1..], key);
      assert s[..p + 1] == [s[0]] + s[1..][..p];
      assert s[p + 1..] == s[1..][p..];
      forall i | 0 <= i < p + 1
        ensures key(s[i]) <= key(x)
      {
        if i > 0 { assert s[i] == s[1..][i - 1]; }
      }
    }
  }

  /** The element at each position after an insertion. */
  lemma InsertByAt<T>(x: T, s: seq<T>, key: T -> int, k: int)
    requires 0 <= k <= |s|
    ensures |InsertBy(x, s, key)| == |s| + 1
    ensures InsertBy(x, s, key)[k] ==
              if k < InsertPos(x, s, key) then s[k] else if k == InsertPos(x, s, key) then x else s[k - 1]
  {
    InsertByShape(x, s, key);
  }

  lemma InsertBySorted<T>(x: T, s: seq<T>, key: T -> int)
    requires SortedBy(s, key)
    ensures SortedBy(InsertBy(x, s, key), key)
  {
    InsertByShape(x, s, key);
    var p := InsertPos(x, s, key);
    var r := InsertBy(x, s, key);
    assert |r| == |s| + 1;
    forall i, j | 0 <= i < j < |r|
      ensures key(r[i]) <= key(r[j])
    {
      InsertByAt(x, s, key, i);
      InsertByAt(x, s, key, j);
      if i < p < j {
        assert key(s[i]) <= key(x) < key(s[p]) <= key(s[j - 1]);
      }
    }
  }

  /** The result of `SortBy` is sorted and is a permutation of its input. */
  lemma {:induction false} SortByCorrect<T>(s: seq<T>, key: T -> int)
    ensures |SortBy(s, key)| == |s|
    ensures SortedBy(SortBy(s, key), key)
    ensures multiset(SortBy(s, key)) == multiset(s)
    decreases |s|
  {
    if s != [] {
      var init := s[..|s| - 1];
      var x := s[|s| - 1];
      assert s == init + [x];
      SortByCorrect(init, key);
      var t := SortBy(init, key);
      InsertBySorted(x, t, key);
      InsertByMultiset(x, t, key);
    }
  }

  /** Inserting adds exactly the one element. */
  lemma InsertByMultiset<T>(x: T, t: seq<T>, key: T -> int)
    ensures |InsertBy(x, t, key)| == |t| + 1
    ensures multiset(InsertBy(x, t, key)) == multiset(t) + multiset{x}
  {
    var p := InsertPos(x, t, key);
    var a, b := t[..p], t[p..];
    assert InsertBy(x, t, key) == a + [x] + b by {
      InsertByShape(x, t, key);
    }
    assert t == a + b;
    assert multiset(a + [x] + b) == multiset(a) + multiset{x} + multiset(b);
  }

  /** The elements whose key is `v`. */
  function WithKey<T>(key: T -> int, v: int): T -> bool {
    x => key(x) == v
  }

  lemma InsertByStable<T>(x: T, t: seq<T>, key: T -> int, v: int)
    requires SortedBy(t, key)
    ensures Filter(InsertBy(x, t, key), WithKey(key, v))
            == Filter(t, WithKey(key, v)) + (if key(x) == v then [x] else [])
  {
    var p := InsertPos(x, t, key);
    var a, b := t[..p], t[p..];
    assert InsertBy(x, t, key) == a + [x] + b && (p < |t| ==> key(x) < key(t[p])) by {
      InsertByShape(x, t, key);
    }
    var w := WithKey(key, v);
    assert Filter(a + [x] + b, w) == Filter(a + b, w) + (if key(x) == v then [x] else []) by {
      if key(x) == v {
        FilterAboveKey(t, p, key, v);
      }
      FilterSplice(a, x, b, w);
    }
    assert a + b == t;
  }

  /** Filtering around an element spliced in, whose successors `p` all rejects if it accepts it. */
  lemma FilterSplice<T>(front: seq<T>, x: T, back: seq<T>, p: T -> bool)
    requires p(x) ==> Filter(back, p) == []
    ensures Filter(front + [x] + back, p) == Filter(front + back, p) + (if p(x) then [x] else [])
  {
    FilterAppend(front + [x], back, p);
    FilterAppend(front, [x], p);
    FilterAppend(front, back, p);
    FilterSingle(x, p);
  }

  /** In a sorted sequence, no element from a position whose key exceeds `v` on has key `v`. */
  lemma FilterAboveKey<T>(t: seq<T>, p: nat, key: T -> int, v: int)
    requires SortedBy(t, key)
    requires p <= |t|
    requires p < |t| ==> v < key(t[p])
    ensures Filter(t[p..], WithKey(key, v)) == []
  {
    var back := t[p..];
    forall i | 0 <= i < |back|
      ensures !WithKey(key, v)(back[i])
    {
      assert key(t[p]) <= key(t[p + i]);
    }
    FilterAllOrNone(back, WithKey(key, v));
  }

  lemma FilterSingle<T>(x: T, p: T -> bool)
    ensures Filter([x], p) == if p(x) then [x] else []
  {
    assert [x][..0] == [];
  }

  /**
    Stability: for every key value `v`, the elements whose key is `v` appear in the
    sorted result in the same order as in the input.
   */
  lemma {:induction false} SortByStable<T>(s: seq<T>, key: T -> int, v: int)
    ensures Filter(SortBy(s, key), WithKey(key, v)) == Filter(s, WithKey(key, v))
    decreases |s|
  {
    if s != [] {
      var init := s[..|s| - 1];
      SortByStable(init, key, v);
      SortByCorrect(init, key);
      InsertByStable(s[|s| - 1], SortBy(init, key), key, v);
    }
  }

  lemma InsertByPairwise<T>(x: T, t: seq<T>, key: T -> int, rel: (T, T) -> bool)
    requires Pairwise(t, rel)
    requires forall y :: y in t ==> rel(x, y) && rel(y, x)
    ensures Pairwise(InsertBy(x, t, key), rel)
  {
    InsertByShape(x, t, key);
    var r := InsertBy(x, t, key);
    assert |r| == |t| + 1;
    forall i, j | 0 <= i < |r| && 0 <= j < |r| && i != j
      ensures rel(r[i], r[j])
    {
      InsertByAt(x, t, key, i);
      InsertByAt(x, t, key, j);
    }
  }

  /** A relation that holds between every two input elements still holds after sorting. */
  lemma {:induction false} SortByPairwise<T>(s: seq<T>, key: T -> int, rel: (T, T) -> bool)
    requires Pairwise(s, rel)
    ensures Pairwise(SortBy(s, key), rel)
    decreases |s|
  {
    if s != [] {
      var init := s[..|s| - 1];
      var x := s[|s| - 1];
      assert Pairwise(init, rel) by {
        forall i, j | 0 <= i < |init| && 0 <= j < |init| && i != j
          ensures rel(init[i], init[j])
        {
          assert init[i] == s[i] && init[j] == s[j];
        }
      }
      SortByPairwise(init, key, rel);
      SortByCorrect(init, key);
      var t := SortBy(init, key);
      forall y | y in t
        ensures rel(x, y) && rel(y, x)
      {
        assert y in multiset(init);
        var k :| 0 <= k < |init| && init[k] == y;
        assert s[k] == y && s[|s| - 1] == x;
      }
      InsertByPairwise(x, t, key, rel);
    }
  }
}
