/** Generic sequence helpers: filtering in order and first-match search,
    which stand for list comprehensions, `next(...)` and `query.first()`. */
module Seqs {
  import opened Wrappers

  /** `r` can be obtained from `s` by deleting elements (order is kept). */
  ghost predicate IsSubsequence<T>(r: seq<T>, s: seq<T>)
    decreases |s|
  {
    |r| == 0 ||
    (|s| > 0 && ((r[0] == s[0] && IsSubsequence(r[1..], s[1..])) || IsSubsequence(r, s[1..])))
  }

  /** The elements of `s` satisfying `p`, in their original order and with
      their original multiplicities. */
  function Filter<T(!new)>(s: seq<T>, p: T -> bool): (r: seq<T>)
    ensures |r| <= |s|
    ensures forall x :: x in r <==> x in s && p(x)
    decreases |s|
  {
    if |s| == 0 then []
    else
      var rest := Filter(s[1..], p);
      assert s == [s[0]] + s[1..];
      if p(s[0]) then [s[0]] + rest else rest
  }

  /** `Filter` keeps the order of the kept elements and every one of their
      occurrences. */
  lemma {:induction false} FilterKeepsOrder<T(!new)>(s: seq<T>, p: T -> bool)
    ensures IsSubsequence(Filter(s, p), s)
    ensures forall x :: multiset(Filter(s, p))[x] == if p(x) then multiset(s)[x] else 0
    decreases |s|
  {
    if |s| > 0 {
      FilterKeepsOrder(s[1..], p);
      assert s == [s[0]] + s[1..];
      var rest := Filter(s[1..], p);
      if p(s[0]) {
        assert Filter(s, p) == [s[0]] + rest;
        assert Filter(s, p)[1..] == rest;
      } else {
        assert Filter(s, p) == rest;
      }
    }
  }

  /** Number of elements of `s` satisfying `p`. */
  function Count<T>(s: seq<T>, p: T -> bool): nat
    decreases |s|
  {
    if |s| == 0 then 0 else (if p(s[0]) then 1 else 0) + Count(s[1..], p)
  }

  /** Index of the first element of `s`, at or after `from`, satisfying `p`. */
  function FindFrom<T>(s: seq<T>, p: T -> bool, from: nat): (r: Option<nat>)
    requires from <= |s|
    ensures r.Some? ==> from <= r.value < |s| && p(s[r.value])
    ensures r.Some? ==> forall j :: from <= j < r.value ==> !p(s[j])
    ensures r.None? ==> forall j :: from <= j < |s| ==> !p(s[j])
    decreases |s| - from
  {
    if from == |s| then None
    else if p(s[from]) then Some(from)
    else FindFrom(s, p, from + 1)
  }

  /** Index of the first element of `s` satisfying `p`, as Python's
      `next((x for x in s if p(x)), None)` or SQL `.first()` would pick it. */
  function FindFirst<T>(s: seq<T>, p: T -> bool): (r: Option<nat>)
    ensures r.Some? ==> r.value < |s| && p(s[r.value])
    ensures r.Some? ==> forall j :: 0 <= j < r.value ==> !p(s[j])
    ensures r.None? <==> forall j :: 0 <= j < |s| ==> !p(s[j])
  {
    FindFrom(s, p, 0)
  }

  /** Index of the last element of `s` satisfying `p`: the entry that wins
      when a Python dict comprehension is keyed on `p`. */
  function FindLast<T>(s: seq<T>, p: T -> bool): (r: Option<nat>)
    ensures r.Some? ==> r.value < |s| && p(s[r.value])
    ensures r.Some? ==> forall j :: r.value < j < |s| ==> !p(s[j])
    ensures r.None? <==> forall j :: 0 <= j < |s| ==> !p(s[j])
    decreases |s|
  {
    if |s| == 0 then None
    else if p(s[|s| - 1]) then Some(|s| - 1)
    else FindLast(s[..|s| - 1], p)
  }

  /** Filtering distributes over concatenation. */
  lemma {:induction false} FilterConcat<T(!new)>(a: seq<T>, b: seq<T>, p: T -> bool)
    ensures Filter(a + b, p) == Filter(a, p) + Filter(b, p)
    decreases |a|
  {
    if |a| == 0 {
      assert a + b == b;
    } else {
      var ab := a + b;
      assert ab[0] == a[0];
      assert ab[1..] == a[1..] + b;
      FilterConcat(a[1..], b, p);
      var h := if p(a[0]) then [a[0]] else [];
      var x, y := Filter(a[1..], p), Filter(b, p);
      FilterCons(ab, p);
      FilterCons(a, p);
      assert Filter(ab, p) == h + (x + y);
      assert h + (x + y) == (h + x) + y;
    }
  }

  /** `Filter` takes the head if `p` accepts it, then filters the rest. */
  lemma FilterCons<T(!new)>(s: seq<T>, p: T -> bool)
    requires |s| > 0
    ensures Filter(s, p) == (if p(s[0]) then [s[0]] else []) + Filter(s[1..], p)
  {
  }

  /** Inserting an element that `p` rejects does not change the filter. */
  lemma {:induction false} FilterSkipsRejected<T(!new)>(s: seq<T>, x: T, at: nat, p: T -> bool)
    requires at <= |s| && !p(x)
    ensures Filter(s[..at] + [x] + s[at..], p) == Filter(s, p)
    decreases at
  {
    var t := s[..at] + [x] + s[at..];
    if at == 0 {
      assert t[0] == x;
      assert t[1..] == s;
    } else {
      FilterSkipsRejected(s[1..], x, at - 1, p);
      assert t[0] == s[0];
      assert t[1..] == s[1..][..at - 1] + [x] + s[1..][at - 1..];
    }
  }

  /** Removing the element at index `i` keeps every other element in order. */
  function RemoveAt<T>(s: seq<T>, i: nat): (r: seq<T>)
    requires i < |s|
    ensures |r| == |s| - 1
    ensures forall j :: 0 <= j < i ==> r[j] == s[j]
    ensures forall j :: i <= j < |r| ==> r[j] == s[j + 1]
    ensures multiset(r) == multiset(s) - multiset{s[i]}
  {
    assert s == s[..i] + [s[i]] + s[i + 1..];
    s[..i] + s[i + 1..]
  }

  lemma {:induction false} CountConcat<T>(a: seq<T>, b: seq<T>, p: T -> bool)
    ensures Count(a + b, p) == Count(a, p) + Count(b, p)
    decreases |a|
  {
    if |a| > 0 {
      CountConcat(a[1..], b, p);
      assert (a + b)[1..] == a[1..] + b;
    } else {
      assert a + b == b;
    }
  }

  lemma CountSingle<T>(x: T, p: T -> bool)
    ensures Count([x], p) == if p(x) then 1 else 0
  {
    assert [x][1..] == [];
  }

  lemma CountAppend<T>(s: seq<T>, x: T, p: T -> bool)
    ensures Count(s + [x], p) == Count(s, p) + (if p(x) then 1 else 0)
  {
    CountConcat(s, [x], p);
    CountSingle(x, p);
  }

  lemma CountUpdate<T>(s: seq<T>, i: nat, x: T, p: T -> bool)
    requires i < |s|
    ensures Count(s[i := x], p) + (if p(s[i]) then 1 else 0) == Count(s, p) + (if p(x) then 1 else 0)
  {
    var pre, post := s[..i], s[i + 1..];
    assert s == pre + ([s[i]] + post);
    assert s[i := x] == pre + ([x] + post);
    CountConcat(pre, [s[i]] + post, p);
    CountConcat(pre, [x] + post, p);
    CountConcat([s[i]], post, p);
    CountConcat([x], post, p);
    CountSingle(s[i], p);
    CountSingle(x, p);
  }

  lemma {:induction false} CountPositive<T>(s: seq<T>, p: T -> bool, i: nat)
    requires i < |s| && p(s[i])
    ensures Count(s, p) >= 1
    decreases i
  {
    if i > 0 {
      CountPositive(s[1..], p, i - 1);
    }
  }

  /** With exactly one element satisfying `p`, any two such elements sit at
      the same index. */
  lemma {:induction false} CountOneIsUnique<T>(s: seq<T>, p: T -> bool, i: nat, j: nat)
    requires Count(s, p) == 1
    requires i < |s| && j < |s| && p(s[i]) && p(s[j])
    ensures i == j
    decreases |s|
  {
    if i > 0 {
      CountPositive(s[1..], p, i - 1);
    }
    if j > 0 {
      CountPositive(s[1..], p, j - 1);
    }
    if i > 0 && j > 0 && !p(s[0]) {
      CountOneIsUnique(s[1..], p, i - 1, j - 1);
    }
  }

  /** Python's `s[i]` on a list: negative indices count from the end, and an
      index outside `-|s| <= i < |s|` raises (`None`). */
  function PyIndex<T>(s: seq<T>, i: int): (r: Option<T>)
    ensures r.Some? <==> -|s| <= i < |s|
    ensures 0 <= i < |s| ==> r == Some(s[i])
    ensures -|s| <= i < 0 ==> r == Some(s[|s| + i])
  {
    if 0 <= i < |s| then Some(s[i])
    else if -|s| <= i < 0 then Some(s[|s| + i])
    else None
  }
}
