/** Sequence helpers: distinctness, first-appearance deduplication and
    concatenation of a sequence of sequences. */
module Seqs {

  /** No value occurs twice in `s`. */
  predicate Distinct<T(==)>(s: seq<T>) {
    forall i, j :: 0 <= i < j < |s| ==> s[i] != s[j]
  }

  /** The set of values occurring in `s`. */
  ghost function Elements<T>(s: seq<T>): set<T> {
    set x | x in s
  }

  /** Appending a value adds it to the set of values. */
  lemma ElementsSnoc<T>(xs: seq<T>, x: T)
    ensures Elements(xs + [x]) == Elements(xs) + {x}
  {
  }

  /** The distinct values of `xs` in order of first appearance: what pandas'
      `Series.unique()` returns, and what a "seen" map plus an append builds. */
  function Unique<T(==)>(xs: seq<T>): (u: seq<T>)
    ensures Distinct(u)
    ensures forall i :: 0 <= i < |xs| ==> xs[i] in u
    ensures forall i :: 0 <= i < |u| ==> u[i] in xs
    ensures |u| <= |xs|
    decreases |xs|
  {
    if |xs| == 0 then []
    else
      var init := xs[..|xs| - 1];
      assert xs == init + [xs[|xs| - 1]];
      var u := Unique(init);
      if xs[|xs| - 1] in u then u else u + [xs[|xs| - 1]]
  }

  /** Appending `ys` is appending all but its last element, then that one. */
  lemma AppendSplitLast<T>(xs: seq<T>, ys: seq<T>)
    requires |ys| > 0
    ensures xs + ys == (xs + ys[..|ys| - 1]) + [ys[|ys| - 1]]
  {
    assert ys == ys[..|ys| - 1] + [ys[|ys| - 1]];
  }

  /** Unique grows by one new value at a time: the step a dedup loop performs. */
  lemma UniqueSnoc<T>(xs: seq<T>, x: T)
    ensures Unique(xs + [x]) == if x in xs then Unique(xs) else Unique(xs) + [x]
  {
    assert (xs + [x])[..|xs + [x]| - 1] == xs;
  }

  /** The first value of `xs` is the first value of `Unique(xs)`. */
  lemma {:induction false} UniqueHead<T>(xs: seq<T>)
    requires |xs| > 0
    ensures |Unique(xs)| > 0 && Unique(xs)[0] == xs[0]
    decreases |xs|
  {
    var init := xs[..|xs| - 1];
    assert xs == init + [xs[|xs| - 1]];
    UniqueSnoc(init, xs[|xs| - 1]);
    if |init| > 0 {
      UniqueHead(init);
    }
  }

  /** The index of the first occurrence of `x` in `xs`. */
  function FirstIndex<T(==)>(xs: seq<T>, x: T): (n: nat)
    requires x in xs
    ensures n < |xs| && xs[n] == x && x !in xs[..n]
    decreases |xs|
  {
    if xs[0] == x then 0
    else
      var n := FirstIndex(xs[1..], x);
      assert xs[..n + 1] == [xs[0]] + xs[1..][..n];
      n + 1
  }

  /** The first occurrence is the only index holding `x` with no `x` before it. */
  lemma FirstIndexUnique<T>(xs: seq<T>, x: T, k: nat)
    requires k < |xs| && xs[k] == x && x !in xs[..k]
    ensures FirstIndex(xs, x) == k
  {
    assert forall i :: 0 <= i < k ==> xs[..k][i] == xs[i];
  }

  /** Appending a value leaves the first occurrence of an earlier value where it was. */
  lemma FirstIndexSnoc<T>(xs: seq<T>, x: T, y: T)
    requires y in xs
    ensures FirstIndex(xs + [x], y) == FirstIndex(xs, y)
  {
    var m := FirstIndex(xs, y);
    assert (xs + [x])[..m] == xs[..m];
    FirstIndexUnique(xs + [x], y, m);
  }

  /** `Unique` lists the values in the order of their first occurrence in
      `xs`: of two values, the one met first comes first. */
  lemma {:induction false} UniqueFirstAppearance<T>(xs: seq<T>)
    ensures InFirstOrder(xs, Unique(xs))
    decreases |xs|
  {
    if |xs| > 0 {
      var init := xs[..|xs| - 1];
      var x := xs[|xs| - 1];
      assert xs == init + [x];
      UniqueFirstAppearance(init);
      UniqueFirstAppearanceStep(init, x);
    }
  }

  /** `u` lists values of `xs` in the order of their first occurrence. */
  ghost predicate InFirstOrder<T>(xs: seq<T>, u: seq<T>) {
    forall i, j :: 0 <= i < j < |u| && u[i] in xs && u[j] in xs ==>
      FirstIndex(xs, u[i]) < FirstIndex(xs, u[j])
  }

  /** The step of `UniqueFirstAppearance`: appending a value keeps the
      order, and a new value lands last with the last first occurrence. */
  lemma UniqueFirstAppearanceStep<T>(init: seq<T>, x: T)
    requires InFirstOrder(init, Unique(init))
    ensures InFirstOrder(init + [x], Unique(init + [x]))
  {
    var u := Unique(init);
    var xs := init + [x];
    UniqueSnoc(init, x);
    forall k | 0 <= k < |u|
      ensures u[k] in xs && FirstIndex(xs, u[k]) == FirstIndex(init, u[k])
    {
      FirstIndexSnoc(init, x, u[k]);
    }
    assert InFirstOrder(xs, u);
    if x !in init {
      assert xs[..|init|] == init;
      FirstIndexUnique(xs, x, |init|);
      SnocInFirstOrder(xs, u, x);
    }
  }

  /** Appending to an ordered list a value whose first occurrence is after
      those of all its values keeps it ordered. */
  lemma SnocInFirstOrder<T>(xs: seq<T>, u: seq<T>, x: T)
    requires InFirstOrder(xs, u) && x in xs
    requires forall k :: 0 <= k < |u| ==> u[k] in xs && FirstIndex(xs, u[k]) < FirstIndex(xs, x)
    ensures InFirstOrder(xs, u + [x])
  {
    var v := u + [x];
    forall i, j | 0 <= i < j < |v| && v[i] in xs && v[j] in xs
      ensures FirstIndex(xs, v[i]) < FirstIndex(xs, v[j])
    {
      if j == |u| {
        assert v[i] == u[i];
      } else {
        assert v[i] == u[i] && v[j] == u[j];
      }
    }
  }

  /** Deduplicating a sequence that has no repeats changes nothing. */
  lemma {:induction false} UniqueOfDistinct<T>(xs: seq<T>)
    requires Distinct(xs)
    ensures Unique(xs) == xs
    decreases |xs|
  {
    if |xs| > 0 {
      var init := xs[..|xs| - 1];
      UniqueOfDistinct(init);
      assert xs == init + [xs[|xs| - 1]];
      UniqueSnoc(init, xs[|xs| - 1]);
    }
  }

  /** A sequence without repeats has as many elements as its set of values. */
  lemma {:induction false} DistinctCardinality<T>(s: seq<T>)
    requires Distinct(s)
    ensures |Elements(s)| == |s|
    decreases |s|
  {
    if |s| > 0 {
      var init := s[..|s| - 1];
      DistinctCardinality(init);
      assert s == init + [s[|s| - 1]];
      assert Elements(s) == Elements(init) + {s[|s| - 1]};
      assert s[|s| - 1] !in Elements(init);
    }
  }

  /** Deduplicating keeps the set of values. */
  lemma UniqueElements<T>(xs: seq<T>)
    ensures Elements(Unique(xs)) == Elements(xs)
  {
  }

  /** The number of distinct values of `xs` is the length of `Unique(xs)`. */
  lemma UniqueCardinality<T>(xs: seq<T>)
    ensures |Unique(xs)| == |Elements(xs)|
  {
    DistinctCardinality(Unique(xs));
    assert Elements(Unique(xs)) == Elements(xs);
  }

  /** All the sequences of `ss` joined in order. */
  function Concat<T>(ss: seq<seq<T>>): (r: seq<T>)
    ensures forall i, j :: 0 <= i < |ss| && 0 <= j < |ss[i]| ==> ss[i][j] in r
    ensures forall k :: 0 <= k < |r| ==> exists i :: 0 <= i < |ss| && r[k] in ss[i]
    decreases |ss|
  {
    if |ss| == 0 then []
    else
      var init := ss[..|ss| - 1];
      assert forall i :: 0 <= i < |init| ==> init[i] == ss[i];
      Concat(init) + ss[|ss| - 1]
  }

  /** Joining one more sequence appends it at the end. */
  lemma ConcatPrefixSnoc<T>(ss: seq<seq<T>>, k: nat)
    requires k < |ss|
    ensures Concat(ss[..k + 1]) == Concat(ss[..k]) + ss[k]
  {
    assert ss[..k + 1][..k] == ss[..k];
  }

  /** The elements of `s` satisfying `f`, in their original order. */
  function Filter<T(==)>(s: seq<T>, f: T -> bool): (r: seq<T>)
    ensures |r| <= |s|
    ensures forall k :: 0 <= k < |r| ==> f(r[k]) && r[k] in s
    ensures forall i :: 0 <= i < |s| && f(s[i]) ==> s[i] in r
    decreases |s|
  {
    if |s| == 0 then []
    else
      var init := s[..|s| - 1];
      assert s == init + [s[|s| - 1]];
      Filter(init, f) + (if f(s[|s| - 1]) then [s[|s| - 1]] else [])
  }

  /** Filtering one more element appends it when it passes. */
  lemma FilterSnoc<T>(xs: seq<T>, x: T, f: T -> bool)
    ensures Filter(xs + [x], f) == Filter(xs, f) + (if f(x) then [x] else [])
  {
    assert (xs + [x])[..|xs + [x]| - 1] == xs;
  }

  /** When every element passes, filtering keeps them all. */
  lemma {:induction false} FilterAll<T>(s: seq<T>, f: T -> bool)
    requires forall i :: 0 <= i < |s| ==> f(s[i])
    ensures Filter(s, f) == s
    decreases |s|
  {
    if |s| > 0 {
      FilterAll(s[..|s| - 1], f);
      assert s == s[..|s| - 1] + [s[|s| - 1]];
    }
  }

  /** When no element passes, filtering leaves nothing. */
  lemma {:induction false} FilterNone<T>(s: seq<T>, f: T -> bool)
    requires forall i :: 0 <= i < |s| ==> !f(s[i])
    ensures Filter(s, f) == []
    decreases |s|
  {
    if |s| > 0 {
      FilterNone(s[..|s| - 1], f);
    }
  }

  /** When only element `k` passes, filtering leaves just it. */
  lemma {:induction false} FilterOne<T>(s: seq<T>, f: T -> bool, k: nat)
    requires k < |s| && f(s[k])
    requires forall i :: 0 <= i < |s| && i != k ==> !f(s[i])
    ensures Filter(s, f) == [s[k]]
    decreases |s|
  {
    var init := s[..|s| - 1];
    if k < |s| - 1 {
      FilterOne(init, f, k);
    } else {
      FilterNone(init, f);
    }
  }

  /** A sequence of one repeated value deduplicates to that value. */
  lemma {:induction false} UniqueConstant<T>(xs: seq<T>, c: T)
    requires |xs| > 0
    requires forall i :: 0 <= i < |xs| ==> xs[i] == c
    ensures Unique(xs) == [c]
    decreases |xs|
  {
    if |xs| > 1 {
      var init := xs[..|xs| - 1];
      UniqueConstant(init, c);
      assert xs == init + [c];
      UniqueSnoc(init, c);
    }
  }

  /** The least element of a non-empty sequence of integers (Python's `min`). */
  function MinInt(s: seq<int>): (m: int)
    requires |s| > 0
    ensures m in s
    ensures forall i :: 0 <= i < |s| ==> m <= s[i]
    decreases |s|
  {
    if |s| == 1 then s[0]
    else
      var m := MinInt(s[..|s| - 1]);
      assert s == s[..|s| - 1] + [s[|s| - 1]];
      if s[|s| - 1] < m then s[|s| - 1] else m
  }
}
