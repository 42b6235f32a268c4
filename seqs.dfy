/** The array operations route.js and page.js lean on: `filter`, `flat` and the
    first-occurrence de-duplication that `[...new Set(xs)]` performs. */
module Seqs {

  /** `s.filter(p)`: the elements of `s` that satisfy `p`, in their order. */
  function Filter<T>(s: seq<T>, p: T -> bool): (r: seq<T>)
    ensures |r| <= |s|
    ensures forall i :: 0 <= i < |r| ==> p(r[i])
    decreases |s|
  {
    if s == [] then [] else (if p(s[0]) then [s[0]] else []) + Filter(s[1..], p)
  }

  /** The conjunction of two predicates, as two `filter` calls in a row apply them. */
  function And<T>(p: T -> bool, q: T -> bool): T -> bool {
    x => p(x) && q(x)
  }

  /** `a` can be obtained from `b` by deleting elements: each element of `b`
      is either used for the next element of `a` or skipped. */
  predicate IsSubsequence<T(==)>(a: seq<T>, b: seq<T>)
    decreases |b|
  {
    a == [] || (b != [] && ((a[0] == b[0] && IsSubsequence(a[1..], b[1..])) || IsSubsequence(a, b[1..])))
  }

  predicate NoDuplicates<T(==)>(s: seq<T>) {
    forall i, j :: 0 <= i < j < |s| ==> s[i] != s[j]
  }

  /** The filter keeps exactly the elements that pass, as an order-preserving
      subsequence. */
  lemma {:induction false} FilterIsSubsequence<T>(s: seq<T>, p: T -> bool)
    ensures IsSubsequence(Filter(s, p), s)
    ensures forall x :: x in Filter(s, p) <==> x in s && p(x)
    decreases |s|
  {
    if s != [] {
      FilterIsSubsequence(s[1..], p);
      var rest := Filter(s[1..], p);
      assert Filter(s, p) == (if p(s[0]) then [s[0]] + rest else rest);
      if p(s[0]) {
        assert ([s[0]] + rest)[1..] == rest;
      } else if rest != [] {
        assert IsSubsequence(rest, s[1..]);
      }
      assert forall x :: x in s <==> x == s[0] || x in s[1..];
    }
  }

  /** The filter keeps every copy of what passes: an element that passes
      occurs as often in the result as in the input, one that fails not at all. */
  lemma {:induction false} FilterCounts<T>(s: seq<T>, p: T -> bool)
    ensures forall x :: multiset(Filter(s, p))[x] == (if p(x) then multiset(s)[x] else 0)
    decreases |s|
  {
    if s != [] {
      FilterCounts(s[1..], p);
      var rest := Filter(s[1..], p);
      assert Filter(s, p) == (if p(s[0]) then [s[0]] + rest else rest);
      assert s == [s[0]] + s[1..];
    }
  }

  lemma {:induction false} FilterConcat<T>(a: seq<T>, b: seq<T>, p: T -> bool)
    ensures Filter(a + b, p) == Filter(a, p) + Filter(b, p)
    decreases |a|
  {
    if a == [] {
      assert a + b == b;
    } else {
      assert (a + b)[1..] == a[1..] + b;
      FilterConcat(a[1..], b, p);
    }
  }

  /** Filtering twice is filtering once by the conjunction. */
  lemma {:induction false} FilterFilter<T>(s: seq<T>, p: T -> bool, q: T -> bool)
    ensures Filter(Filter(s, p), q) == Filter(s, And(p, q))
    decreases |s|
  {
    if s != [] {
      FilterFilter(s[1..], p, q);
      var head := if p(s[0]) then [s[0]] else [];
      FilterConcat(head, Filter(s[1..], p), q);
      if p(s[0]) {
        assert Filter(head, q) == (if q(s[0]) then [s[0]] else []) by {
          assert head[1..] == [];
        }
      }
    }
  }

  lemma Halves<T>(s: seq<T>, n: nat)
    requires n <= |s|
    ensures s == s[..n] + s[n..]
  {
  }

  lemma Associative<T>(a: seq<T>, b: seq<T>, c: seq<T>)
    ensures a + (b + c) == a + b + c
  {
  }

  /** Two predicates that agree on the elements of `s` filter it alike. */
  lemma {:induction false} FilterAgree<T>(s: seq<T>, p: T -> bool, q: T -> bool)
    requires forall i :: 0 <= i < |s| ==> p(s[i]) == q(s[i])
    ensures Filter(s, p) == Filter(s, q)
    decreases |s|
  {
    if s != [] {
      assert p(s[0]) == q(s[0]);
      FilterAgree(s[1..], p, q);
    }
  }

  /** A predicate that every element satisfies filters nothing out. */
  lemma {:induction false} FilterAllPass<T>(s: seq<T>, p: T -> bool)
    requires forall i :: 0 <= i < |s| ==> p(s[i])
    ensures Filter(s, p) == s
    decreases |s|
  {
    if s != [] {
      assert p(s[0]);
      FilterAllPass(s[1..], p);
    }
  }

  /** A predicate that no element satisfies filters everything out. */
  lemma {:induction false} FilterNonePass<T>(s: seq<T>, p: T -> bool)
    requires forall i :: 0 <= i < |s| ==> !p(s[i])
    ensures Filter(s, p) == []
    decreases |s|
  {
    if s != [] {
      assert !p(s[0]);
      FilterNonePass(s[1..], p);
    }
  }

  /** The position of the first occurrence of `x` in `s`. */
  function FirstIndex<T(==)>(s: seq<T>, x: T): (i: nat)
    requires x in s
    ensures i < |s| && s[i] == x
    ensures forall k :: 0 <= k < i ==> s[k] != x
  {
    if s[0] == x then 0 else 1 + FirstIndex(s[1..], x)
  }

  /** `[...new Set(s)]`: every value of `s` once, at its first occurrence.
      The result holds exactly the values of `s`, holds none twice, and lists
      them in the order in which they first occur in `s`. */
  function Dedup<T(==)>(s: seq<T>): (r: seq<T>)
    ensures forall i :: 0 <= i < |s| ==> s[i] in r
    ensures forall i :: 0 <= i < |r| ==> r[i] in s
    ensures NoDuplicates(r)
    ensures forall i, j :: 0 <= i < j < |r| ==> FirstIndex(s, r[i]) < FirstIndex(s, r[j])
    decreases |s|
  {
    if s == [] then []
    else
      var init := s[..|s| - 1];
      var last := s[|s| - 1];
      var prefix := Dedup(init);
      assert s == init + [last];
      if last in prefix then
        DedupKeep(init, last, prefix);
        prefix
      else
        DedupAppend(init, last, prefix);
        prefix + [last]
  }

  /** `r` holds the values of `s`, each once, in order of first occurrence. */
  ghost predicate DedupOf<T>(r: seq<T>, s: seq<T>) {
    && (forall i :: 0 <= i < |s| ==> s[i] in r)
    && (forall i :: 0 <= i < |r| ==> r[i] in s)
    && NoDuplicates(r)
    && (forall i, j :: 0 <= i < j < |r| ==> FirstIndex(s, r[i]) < FirstIndex(s, r[j]))
  }

  lemma DedupKeep<T>(init: seq<T>, last: T, prefix: seq<T>)
    requires DedupOf(prefix, init) && last in prefix
    ensures DedupOf(prefix, init + [last])
  {
    var s := init + [last];
    FirstIndexExtend(init, last);
    forall i | 0 <= i < |s| ensures s[i] in prefix {
      if i < |init| {
        assert s[i] == init[i];
      }
    }
  }

  lemma DedupAppend<T>(init: seq<T>, last: T, prefix: seq<T>)
    requires DedupOf(prefix, init) && last !in prefix
    ensures DedupOf(prefix + [last], init + [last])
  {
    var s, r := init + [last], prefix + [last];
    FirstIndexExtend(init, last);
    assert last !in init;
    assert FirstIndex(s, last) == |s| - 1 by {
      assert forall k :: 0 <= k < |s| - 1 ==> s[k] == init[k];
    }
    forall i | 0 <= i < |s| ensures s[i] in r {
      if i < |init| {
        assert s[i] == init[i];
      }
    }
    forall i | 0 <= i < |r| - 1 ensures FirstIndex(s, r[i]) < |s| - 1 {
      assert r[i] == prefix[i];
    }
  }

  /** Appending to a sequence leaves the first occurrences it already had. */
  lemma FirstIndexExtend<T>(s: seq<T>, y: T)
    ensures forall x :: x in s ==> FirstIndex(s + [y], x) == FirstIndex(s, x)
  {
    forall x | x in s
      ensures FirstIndex(s + [y], x) == FirstIndex(s, x)
    {
      var i, i' := FirstIndex(s + [y], x), FirstIndex(s, x);
      assert (s + [y])[i'] == x;
      assert i <= i';
      assert s[i] == x;
    }
  }

  /** Filtering keeps the relative order of first occurrences. */
  lemma FilterFirstIndex<T>(s: seq<T>, p: T -> bool, x: T, y: T)
    requires x in s && p(x) && y in s && p(y)
    ensures x in Filter(s, p) && y in Filter(s, p)
    ensures FirstIndex(Filter(s, p), x) < FirstIndex(Filter(s, p), y) <==> FirstIndex(s, x) < FirstIndex(s, y)
  {
    if FirstIndex(s, x) < FirstIndex(s, y) {
      FilterFirstIndexBefore(s, p, x, y);
    } else if FirstIndex(s, y) < FirstIndex(s, x) {
      FilterFirstIndexBefore(s, p, y, x);
    } else {
      FilterIsSubsequence(s, p);
    }
  }

  lemma {:induction false} FilterFirstIndexBefore<T>(s: seq<T>, p: T -> bool, x: T, y: T)
    requires x in s && p(x) && y in s && p(y)
    requires FirstIndex(s, x) < FirstIndex(s, y)
    ensures x in Filter(s, p) && y in Filter(s, p)
    ensures FirstIndex(Filter(s, p), x) < FirstIndex(Filter(s, p), y)
    decreases |s|
  {
    var rest := Filter(s[1..], p);
    FilterIsSubsequence(s[1..], p);
    if s[0] == x {
      assert y in s[1..];
      assert Filter(s, p) == [x] + rest;
    } else {
      assert s[0] != y;
      assert x in s[1..] && y in s[1..];
      FilterFirstIndexBefore(s[1..], p, x, y);
      if p(s[0]) {
        assert Filter(s, p) == [s[0]] + rest;
      } else {
        assert Filter(s, p) == rest;
      }
    }
  }

  /** `rows.flat()`: the rows concatenated in order. */
  function Flatten<T>(rows: seq<seq<T>>): (r: seq<T>)
    ensures |r| == TotalLength(rows)
    decreases |rows|
  {
    if rows == [] then [] else rows[0] + Flatten(rows[1..])
  }

  function TotalLength<T>(rows: seq<seq<T>>): nat
    decreases |rows|
  {
    if rows == [] then 0 else |rows[0]| + TotalLength(rows[1..])
  }

  /** A value is in the flattening iff it is a cell of some row. */
  lemma {:induction false} FlattenMembers<T>(rows: seq<seq<T>>, x: T)
    ensures x in Flatten(rows) <==> exists i, j :: 0 <= i < |rows| && 0 <= j < |rows[i]| && rows[i][j] == x
    decreases |rows|
  {
    if rows != [] {
      FlattenMembers(rows[1..], x);
      if x in rows[0] {
        var j :| 0 <= j < |rows[0]| && rows[0][j] == x;
        assert rows[0][j] == x;
      } else if x in Flatten(rows[1..]) {
        var i, j :| 0 <= i < |rows[1..]| && 0 <= j < |rows[1..][i]| && rows[1..][i][j] == x;
        assert rows[i + 1][j] == x;
      } else {
        forall i, j | 0 <= i < |rows| && 0 <= j < |rows[i]|
          ensures rows[i][j] != x
        {
          if i > 0 {
            assert rows[i] == rows[1..][i - 1];
          }
        }
      }
    }
  }

  /** Flattening is row-major: it distributes over concatenation of row lists. */
  lemma {:induction false} FlattenConcat<T>(a: seq<seq<T>>, b: seq<seq<T>>)
    ensures Flatten(a + b) == Flatten(a) + Flatten(b)
    decreases |a|
  {
    if a == [] {
      assert a + b == b;
    } else {
      assert (a + b)[1..] == a[1..] + b;
      FlattenConcat(a[1..], b);
    }
  }
}
