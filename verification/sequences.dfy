/** Whole-sequence operations of the front end and the back end:
    `Array.prototype.filter` (by an element predicate, and by position) and
    searching for the last occurrence of a value. */
module Sequences {
  import opened Wrappers

  /** The elements of `s` that satisfy `keep`, in their original order. */
  function Filter<T>(s: seq<T>, keep: T -> bool): (r: seq<T>)
    ensures |r| <= |s|
  {
    if s == [] then []
    else (if keep(s[0]) then [s[0]] else []) + Filter(s[1..], keep)
  }

  /** An element survives filtering exactly when it occurs in `s` and
      satisfies `keep`. */
  lemma {:induction false} FilterMembers<T>(s: seq<T>, keep: T -> bool, x: T)
    ensures x in Filter(s, keep) <==> x in s && keep(x)
  {
    if s != [] {
      FilterMembers(s[1..], keep, x);
      assert x in s <==> x == s[0] || x in s[1..];
    }
  }

  /** Filtering keeps every kept element as often as it occurs and drops
      every other element. */
  lemma {:induction false} FilterMultiset<T>(s: seq<T>, keep: T -> bool, x: T)
    ensures multiset(Filter(s, keep))[x] == if keep(x) then multiset(s)[x] else 0
  {
    if s != [] {
      FilterMultiset(s[1..], keep, x);
      assert s == [s[0]] + s[1..];
    }
  }

  /** Filtering preserves order: it distributes over concatenation. */
  lemma {:induction false} FilterConcat<T>(a: seq<T>, b: seq<T>, keep: T -> bool)
    ensures Filter(a + b, keep) == Filter(a, keep) + Filter(b, keep)
  {
    if a != [] {
      FilterConcat(a[1..], b, keep);
      var head: seq<T> := if keep(a[0]) then [a[0]] else [];
      assert (a + b)[0] == a[0] && (a + b)[1..] == a[1..] + b;
      calc {
        Filter(a + b, keep);
        head + Filter(a[1..] + b, keep);
        head + (Filter(a[1..], keep) + Filter(b, keep));
        (head + Filter(a[1..], keep)) + Filter(b, keep);
        Filter(a, keep) + Filter(b, keep);
      }
    } else {
      assert a + b == b;
    }
  }

  /** Filtering a second time with the same predicate changes nothing. */
  lemma {:induction false} FilterIdempotent<T>(s: seq<T>, keep: T -> bool)
    ensures Filter(Filter(s, keep), keep) == Filter(s, keep)
  {
    if s != [] {
      FilterIdempotent(s[1..], keep);
      var rest := Filter(s[1..], keep);
      if keep(s[0]) {
        var once := [s[0]] + rest;
        assert once[0] == s[0] && once[1..] == rest;
        calc {
          Filter(Filter(s, keep), keep);
          Filter(once, keep);
          [s[0]] + Filter(rest, keep);
          once;
        }
      } else {
        assert Filter(s, keep) == [] + rest;
        assert [] + rest == rest;
      }
    }
  }

  /** Two predicates that never hold together select at most `|s|`
      elements between them, and exactly `|s|` when one is the negation of
      the other. */
  lemma {:induction false} FilterDisjointLength<T>(s: seq<T>, p: T -> bool, q: T -> bool)
    requires forall x :: !(p(x) && q(x))
    ensures |Filter(s, p)| + |Filter(s, q)| <= |s|
    ensures (forall i :: 0 <= i < |s| ==> p(s[i]) || q(s[i])) ==> |Filter(s, p)| + |Filter(s, q)| == |s|
  {
    if s != [] {
      FilterDisjointLength(s[1..], p, q);
    }
  }

  /** `s.filter((_, i) => i !== index)` with positions counted from
      `offset`: every element except the one at position `index`. */
  function WithoutIndex<T>(s: seq<T>, index: int, offset: int): seq<T>
    decreases |s|
  {
    if s == [] then []
    else (if offset != index then [s[0]] else []) + WithoutIndex(s[1..], index, offset + 1)
  }

  /** Dropping one position by filtering is cutting the sequence around
      that position; a position outside the sequence drops nothing. */
  lemma {:induction false} WithoutIndexSlices<T>(s: seq<T>, index: int, offset: int)
    ensures WithoutIndex(s, index, offset) ==
      if offset <= index < offset + |s| then s[..index - offset] + s[index - offset + 1..] else s
    decreases |s|
  {
    if s != [] {
      WithoutIndexSlices(s[1..], index, offset + 1);
      if offset == index {
        assert s[..0] + s[1..] == s[1..];
      } else if offset < index < offset + |s| {
        assert s[..index - offset] + s[index - offset + 1..]
          == [s[0]] + (s[1..][..index - offset - 1] + s[1..][index - offset..]);
      } else {
        assert s == [s[0]] + s[1..];
      }
    }
  }

  /** The position of the last occurrence of `x` in `s`, if any. */
  function LastIndexOf<T(==)>(s: seq<T>, x: T): (r: Option<nat>)
    ensures r.Some? ==> r.value < |s| && s[r.value] == x
    ensures r.Some? ==> forall i :: r.value < i < |s| ==> s[i] != x
    ensures r.None? ==> forall i :: 0 <= i < |s| ==> s[i] != x
  {
    LastIndexBelow(s, x, |s|)
  }

  /** The position of the last occurrence of `x` in `s[..end]`, if any. */
  function LastIndexBelow<T(==)>(s: seq<T>, x: T, end: nat): (r: Option<nat>)
    requires end <= |s|
    ensures r.Some? ==> r.value < end && s[r.value] == x
    ensures r.Some? ==> forall i :: r.value < i < end ==> s[i] != x
    ensures r.None? ==> forall i :: 0 <= i < end ==> s[i] != x
  {
    if end == 0 then None
    else if s[end - 1] == x then Some(end - 1)
    else LastIndexBelow(s, x, end - 1)
  }

  /** Searching below `end` only looks at the first `end` elements. */
  lemma LastIndexBelowPrefix<T>(s: seq<T>, x: T, end: nat)
    requires end <= |s|
    ensures LastIndexBelow(s, x, end) == LastIndexOf(s[..end], x)
  {
  }
}
