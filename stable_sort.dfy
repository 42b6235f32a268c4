/** A stable sort by an integer key, largest key first: the behaviour of
    `Array.prototype.sort` (stable since ECMAScript 2019) under a comparator
    `(a, b) => key(b) - key(a)`. The specification is insertion of each
    element, in input order, after every element whose key is at least its own. */
module StableSort {
  import opened Seqs

  predicate NonIncreasing<T>(s: seq<T>, key: T -> int) {
    forall i, j :: 0 <= i < j < |s| ==> key(s[i]) >= key(s[j])
  }

  /** The elements whose key is `k`. */
  function KeyIs<T>(key: T -> int, k: int): T -> bool {
    x => key(x) == k
  }

  /** `x` placed after every element of `t` whose key is at least `key(x)`. */
  function Insert<T>(t: seq<T>, x: T, key: T -> int): seq<T>
    decreases |t|
  {
    if t == [] then [x]
    else if key(t[0]) >= key(x) then [t[0]] + Insert(t[1..], x, key)
    else [x] + t
  }

  /** The sort's specification: each element inserted in input order. It
      keeps the length, and leaves input already in order unchanged. */
  function SortDesc<T>(s: seq<T>, key: T -> int): (r: seq<T>)
    ensures |r| == |s|
    ensures NonIncreasing(s, key) ==> r == s
    decreases |s|
  {
    if s == [] then []
    else
      var init, last := s[..|s| - 1], s[|s| - 1];
      SortedAppend(init, last, key);
      InsertLength(SortDesc(init, key), last, key);
      Insert(SortDesc(init, key), last, key)
  }

  lemma {:induction false} InsertLength<T>(t: seq<T>, x: T, key: T -> int)
    ensures |Insert(t, x, key)| == |t| + 1
    decreases |t|
  {
    if t != [] && key(t[0]) >= key(x) {
      InsertLength(t[1..], x, key);
    }
  }

  /** An element whose key is at most every key of a sorted prefix goes at its end. */
  lemma SortedAppend<T>(init: seq<T>, last: T, key: T -> int)
    ensures NonIncreasing(init + [last], key) ==>
      NonIncreasing(init, key) && Insert(init, last, key) == init + [last]
  {
    var s := init + [last];
    if NonIncreasing(s, key) {
      assert forall i :: 0 <= i < |init| ==> init[i] == s[i];
      assert forall i :: 0 <= i < |init| ==> key(init[i]) >= key(last) by {
        assert s[|init|] == last;
      }
      InsertAt(init, last, key, |init|);
      assert init[..|init|] == init && init[|init|..] == [];
    }
  }

  lemma {:induction false} InsertPermutes<T>(t: seq<T>, x: T, key: T -> int)
    ensures multiset(Insert(t, x, key)) == multiset(t) + multiset{x}
    decreases |t|
  {
    if t != [] && key(t[0]) >= key(x) {
      InsertPermutes(t[1..], x, key);
      assert t == [t[0]] + t[1..];
    }
  }

  /** The sorted sequence is a permutation of the input. */
  lemma {:induction false} SortDescPermutes<T>(s: seq<T>, key: T -> int)
    ensures multiset(SortDesc(s, key)) == multiset(s)
    decreases |s|
  {
    if s != [] {
      SortDescPermutes(s[..|s| - 1], key);
      InsertPermutes(SortDesc(s[..|s| - 1], key), s[|s| - 1], key);
      assert s == s[..|s| - 1] + [s[|s| - 1]];
    }
  }

  lemma {:induction false} InsertKeepsOrder<T>(t: seq<T>, x: T, key: T -> int)
    requires NonIncreasing(t, key)
    ensures NonIncreasing(Insert(t, x, key), key)
    decreases |t|
  {
    if t != [] && key(t[0]) >= key(x) {
      NonIncreasingTail(t, key);
      InsertKeepsOrder(t[1..], x, key);
      InsertPermutes(t[1..], x, key);
      KeepsOrderStep(t, x, key);
    } else if t != [] {
      assert Insert(t, x, key) == [x] + t;
    }
  }

  /** The first element stays in front of the elements after it and of `x`. */
  lemma KeepsOrderStep<T>(t: seq<T>, x: T, key: T -> int)
    requires t != [] && key(t[0]) >= key(x) && NonIncreasing(t, key)
    requires NonIncreasing(Insert(t[1..], x, key), key)
    requires multiset(Insert(t[1..], x, key)) == multiset(t[1..]) + multiset{x}
    ensures NonIncreasing(Insert(t, x, key), key)
  {
    var rest := Insert(t[1..], x, key);
    forall e | e in rest
      ensures key(t[0]) >= key(e)
    {
      assert e in multiset(rest);
      if e != x {
        assert e in multiset(t[1..]);
      }
    }
    assert Insert(t, x, key) == [t[0]] + rest;
  }

  /** The sorted sequence is ordered by key, largest first. */
  lemma {:induction false} SortDescOrdered<T>(s: seq<T>, key: T -> int)
    ensures NonIncreasing(SortDesc(s, key), key)
    decreases |s|
  {
    if s != [] {
      SortDescOrdered(s[..|s| - 1], key);
      InsertKeepsOrder(SortDesc(s[..|s| - 1], key), s[|s| - 1], key);
    }
  }

  lemma {:induction false} InsertStable<T>(t: seq<T>, x: T, key: T -> int, k: int)
    requires NonIncreasing(t, key)
    ensures Filter(Insert(t, x, key), KeyIs(key, k)) == Filter(t, KeyIs(key, k)) + Filter([x], KeyIs(key, k))
    decreases |t|
  {
    if t == [] {
      assert Insert(t, x, key) == [x];
    } else if key(t[0]) >= key(x) {
      NonIncreasingTail(t, key);
      InsertStable(t[1..], x, key, k);
      InsertStableStep(t, x, key, KeyIs(key, k));
    } else {
      InsertStableFront(t, x, key, k);
    }
  }

  lemma NonIncreasingTail<T>(t: seq<T>, key: T -> int)
    requires t != [] && NonIncreasing(t, key)
    ensures NonIncreasing(t[1..], key)
  {
    forall i, j | 0 <= i < j < |t| - 1
      ensures key(t[1..][i]) >= key(t[1..][j])
    {
      assert t[1..][i] == t[i + 1] && t[1..][j] == t[j + 1];
    }
  }

  /** Passing over the first element keeps it first among the filtered ones. */
  lemma InsertStableStep<T>(t: seq<T>, x: T, key: T -> int, p: T -> bool)
    requires t != [] && key(t[0]) >= key(x)
    requires Filter(Insert(t[1..], x, key), p) == Filter(t[1..], p) + Filter([x], p)
    ensures Filter(Insert(t, x, key), p) == Filter(t, p) + Filter([x], p)
  {
    var rest := Insert(t[1..], x, key);
    assert Insert(t, x, key) == [t[0]] + rest;
    FilterConcat([t[0]], rest, p);
    FilterConcat([t[0]], t[1..], p);
    assert [t[0]] + t[1..] == t;
    Associative(Filter([t[0]], p), Filter(t[1..], p), Filter([x], p));
  }

  /** An element placed in front has a larger key than every other, so none
      of them shares its key. */
  lemma InsertStableFront<T>(t: seq<T>, x: T, key: T -> int, k: int)
    requires NonIncreasing(t, key)
    requires t != [] && key(t[0]) < key(x)
    ensures Filter(Insert(t, x, key), KeyIs(key, k)) == Filter(t, KeyIs(key, k)) + Filter([x], KeyIs(key, k))
  {
    var p := KeyIs(key, k);
    assert Insert(t, x, key) == [x] + t;
    FilterConcat([x], t, p);
    if p(x) {
      assert forall i :: 0 <= i < |t| ==> !p(t[i]) by {
        forall i | 0 <= i < |t|
          ensures !p(t[i])
        {
          assert key(t[i]) <= key(t[0]);
        }
      }
      FilterNonePass(t, p);
    } else {
      assert Filter([x], p) == [];
    }
  }

  /** The sort is stable: the elements with any one key keep their order. */
  lemma {:induction false} SortDescStable<T>(s: seq<T>, key: T -> int, k: int)
    ensures Filter(SortDesc(s, key), KeyIs(key, k)) == Filter(s, KeyIs(key, k))
    decreases |s|
  {
    if s != [] {
      var init, last := s[..|s| - 1], s[|s| - 1];
      SortDescStable(init, key, k);
      SortDescOrdered(init, key);
      InsertStable(SortDesc(init, key), last, key, k);
      FilterConcat(init, [last], KeyIs(key, k));
      assert init + [last] == s;
    }
  }

  /** Three elements whose keys run smallest, largest, middle sort as
      largest, middle, smallest. */
  lemma SortThree<T>(a: T, b: T, c: T, key: T -> int)
    requires key(a) < key(c) < key(b)
    ensures SortDesc([a, b, c], key) == [b, c, a]
  {
    assert [a, b, c][..2] == [a, b] && [a, b][..1] == [a] && [a][..0] == [];
    assert SortDesc([a], key) == [a];
    assert SortDesc([a, b], key) == [b, a];
    assert Insert([b, a], c, key) == [b] + Insert([a], c, key);
  }

  /** Where the insertion loop stops, `Insert` puts the element. */
  lemma {:induction false} InsertAt<T>(t: seq<T>, x: T, key: T -> int, j: nat)
    requires j <= |t|
    requires forall i :: 0 <= i < j ==> key(t[i]) >= key(x)
    requires j < |t| ==> key(t[j]) < key(x)
    ensures Insert(t, x, key) == t[..j] + [x] + t[j..]
    decreases j
  {
    if j == 0 {
      assert t[..0] + [x] + t[0..] == [x] + t;
    } else {
      var rest := t[1..];
      assert key(t[0]) >= key(x);
      assert forall i :: 0 <= i < j - 1 ==> key(rest[i]) >= key(x) by {
        forall i | 0 <= i < j - 1 ensures key(rest[i]) >= key(x) {
          assert rest[i] == t[i + 1];
        }
      }
      assert j - 1 < |rest| ==> key(rest[j - 1]) < key(x) by {
        if j - 1 < |rest| {
          assert rest[j - 1] == t[j];
        }
      }
      InsertAt(rest, x, key, j - 1);
      assert Insert(t, x, key) == [t[0]] + Insert(rest, x, key);
      assert t[..j] == [t[0]] + rest[..j - 1];
      assert t[j..] == rest[j - 1..];
    }
  }

  /** One step of the insertion sort: `a[i]` is moved left past the elements
      of the sorted prefix `a[..i]` with a smaller key. */
  method InsertInPlace<T>(a: array<T>, i: int, key: T -> int)
    requires 0 <= i < a.Length
    requires NonIncreasing(a[..i], key)
    modifies a
    ensures a[..i + 1] == Insert(old(a[..i]), old(a[i]), key)
    ensures a[i + 1..] == old(a[i + 1..])
  {
    var x := a[i];
    ghost var sorted := a[..i];
    var j := ShiftRight(a, i, x, key);
    a[j] := x;
    StopsAt(sorted, x, key, j);
    InsertAt(sorted, x, key, j);
    Placed(a[..i + 1], sorted, x, j);
  }

  /** Moves `a[j - 1]` to `a[j]` for `j` from `i` down, while the key of
      `a[j - 1]` is smaller than `key(x)`; returns the position left free. */
  method ShiftRight<T>(a: array<T>, i: int, x: T, key: T -> int) returns (j: int)
    requires 0 <= i < a.Length
    modifies a
    ensures 0 <= j <= i
    ensures forall k :: 0 <= k < j ==> a[k] == old(a[k])
    ensures forall k :: j < k <= i ==> a[k] == old(a[k - 1])
    ensures forall k :: i < k < a.Length ==> a[k] == old(a[k])
    ensures forall k :: j <= k < i ==> key(old(a[k])) < key(x)
    ensures j > 0 ==> key(old(a[j - 1])) >= key(x)
  {
    j := i;
    while j > 0 && key(a[j - 1]) < key(x)
      invariant 0 <= j <= i
      invariant forall k :: 0 <= k < j ==> a[k] == old(a[k])
      invariant forall k :: j < k <= i ==> a[k] == old(a[k - 1])
      invariant forall k :: i < k < a.Length ==> a[k] == old(a[k])
      invariant forall k :: j <= k < i ==> key(old(a[k])) < key(x)
    {
      a[j] := a[j - 1];
      j := j - 1;
    }
  }

  /** In a non-increasing sequence, every element before the first position
      whose left neighbour's key is at least `key(x)` also has such a key. */
  lemma StopsAt<T>(t: seq<T>, x: T, key: T -> int, j: nat)
    requires NonIncreasing(t, key) && j <= |t|
    requires j > 0 ==> key(t[j - 1]) >= key(x)
    ensures forall i :: 0 <= i < j ==> key(t[i]) >= key(x)
  {
  }

  /** A sequence that agrees with `t` before `j`, holds `x` at `j` and agrees
      with `t` shifted by one after `j` is `x` inserted into `t` at `j`. */
  lemma Placed<T>(s: seq<T>, t: seq<T>, x: T, j: nat)
    requires |s| == |t| + 1 && j <= |t|
    requires forall k :: 0 <= k < j ==> s[k] == t[k]
    requires s[j] == x
    requires forall k :: j < k < |s| ==> s[k] == t[k - 1]
    ensures s == t[..j] + [x] + t[j..]
  {
    forall k | 0 <= k < |s|
      ensures s[k] == (t[..j] + [x] + t[j..])[k]
    {
    }
  }

  /** Insertion sort in place. */
  method SortDescInPlace<T>(a: array<T>, key: T -> int)
    modifies a
    ensures a[..] == SortDesc(old(a[..]), key)
  {
    ghost var input := a[..];
    var i := 0;
    while i < a.Length
      invariant 0 <= i <= a.Length
      invariant a[..i] == SortDesc(input[..i], key)
      invariant a[i..] == input[i..]
    {
      SortDescOrdered(input[..i], key);
      assert a[i] == input[i];
      InsertInPlace(a, i, key);
      assert input[..i + 1][..i] == input[..i];
      i := i + 1;
    }
    assert input[..a.Length] == input;
  }
}
