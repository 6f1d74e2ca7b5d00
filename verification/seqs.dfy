/** Generic sequence helpers: Python list comprehensions with a condition and
    "the first element that satisfies" searches. */
module Seqs {
  import opened Wrappers

  /** `[x for x in xs if P(x)]`. */
  function Filter<T(!new)>(xs: seq<T>, P: T -> bool): (r: seq<T>)
    ensures |r| <= |xs|
    ensures forall k :: 0 <= k < |r| ==> P(r[k])
    ensures forall x :: x in r <==> x in xs && P(x)
    ensures forall x :: multiset(r)[x] == if P(x) then multiset(xs)[x] else 0
  {
    if |xs| == 0 then []
    else
      var rest := Filter(xs[1..], P);
      assert xs == [xs[0]] + xs[1..];
      if P(xs[0]) then [xs[0]] + rest else rest
  }

  /** Filtering goes element by element, so it keeps the original order: it
      distributes over concatenation. */
  lemma {:induction false} FilterAppend<T(!new)>(a: seq<T>, b: seq<T>, P: T -> bool)
    ensures Filter(a + b, P) == Filter(a, P) + Filter(b, P)
  {
    if |a| == 0 {
      assert a + b == b;
    } else {
      assert (a + b)[0] == a[0];
      assert (a + b)[1..] == a[1..] + b;
      FilterAppend(a[1..], b, P);
    }
  }

  /** Filtering drops a single element that fails the condition. */
  lemma FilterDropsOne<T(!new)>(a: seq<T>, x: T, b: seq<T>, P: T -> bool)
    requires !P(x)
    ensures Filter(a + [x] + b, P) == Filter(a + b, P)
  {
    assert Filter([x], P) == [] by {
      assert [x][1..] == [];
    }
    FilterAppend(a, [x], P);
    assert Filter(a + [x], P) == Filter(a, P);
    FilterAppend(a + [x], b, P);
    FilterAppend(a, b, P);
  }

  /** Filtering with a condition every element meets changes nothing. */
  lemma {:induction false} FilterKeepsAll<T(!new)>(xs: seq<T>, P: T -> bool)
    requires forall k :: 0 <= k < |xs| ==> P(xs[k])
    ensures Filter(xs, P) == xs
  {
    if |xs| > 0 {
      FilterKeepsAll(xs[1..], P);
    }
  }

  /** The index of the first element of `xs` satisfying `P`. */
  function FirstIndex<T>(xs: seq<T>, P: T -> bool): (r: Option<nat>)
    ensures r.Some? ==> r.value < |xs| && P(xs[r.value])
    ensures r.Some? ==> forall j :: 0 <= j < r.value ==> !P(xs[j])
    ensures r.None? <==> forall k :: 0 <= k < |xs| ==> !P(xs[k])
  {
    if |xs| == 0 then None
    else if P(xs[0]) then Some(0)
    else
      var r := FirstIndex(xs[1..], P);
      assert forall k :: 1 <= k < |xs| ==> xs[k] == xs[1..][k - 1];
      if r.Some? then Some(r.value + 1) else None
  }

  /** `[f(x) for x in xs]`. */
  function Map<A, B>(xs: seq<A>, f: A -> B): (r: seq<B>)
    ensures |r| == |xs|
    ensures forall i :: 0 <= i < |xs| ==> r[i] == f(xs[i])
  {
    seq(|xs|, i requires 0 <= i < |xs| => f(xs[i]))
  }

  lemma MapAppend<A, B>(a: seq<A>, b: seq<A>, f: A -> B)
    ensures Map(a + b, f) == Map(a, f) + Map(b, f)
  {
    assert forall i :: 0 <= i < |a + b| ==> Map(a + b, f)[i] == (Map(a, f) + Map(b, f))[i];
  }

  /** The index of the first element at or after `from` satisfying `P`
      (a `for idx in range(from, len(xs))` search that breaks on a hit). */
  function FirstIndexFrom<T>(xs: seq<T>, P: T -> bool, from: nat): (r: Option<nat>)
    requires from <= |xs|
    ensures r.Some? ==> from <= r.value < |xs| && P(xs[r.value])
    ensures r.Some? ==> forall j :: from <= j < r.value ==> !P(xs[j])
    ensures r.None? <==> forall j :: from <= j < |xs| ==> !P(xs[j])
    decreases |xs| - from
  {
    if from == |xs| then None
    else if P(xs[from]) then Some(from)
    else FirstIndexFrom(xs, P, from + 1)
  }

  lemma FirstIndexFromIs<T>(xs: seq<T>, P: T -> bool, from: nat, i: nat)
    requires from <= i < |xs| && P(xs[i])
    requires forall j :: from <= j < i ==> !P(xs[j])
    ensures FirstIndexFrom(xs, P, from) == Some(i)
  {
  }

  /** Replacing one element by one that answers `P` alike leaves the search
      unchanged. */
  lemma FirstIndexFromUpdate<T>(xs: seq<T>, P: T -> bool, from: nat, k: nat, y: T)
    requires from <= |xs| && k < |xs| && P(y) == P(xs[k])
    ensures FirstIndexFrom(xs[k := y], P, from) == FirstIndexFrom(xs, P, from)
    decreases |xs| - from
  {
    if from < |xs| && !P(xs[from]) {
      FirstIndexFromUpdate(xs, P, from + 1, k, y);
    }
  }

  /** Replacing an element after the first hit leaves the search unchanged. */
  lemma FirstIndexFromUpdateAfter<T>(xs: seq<T>, P: T -> bool, from: nat, i: nat, k: nat, y: T)
    requires from <= |xs| && i < k < |xs|
    requires FirstIndexFrom(xs, P, from) == Some(i)
    ensures FirstIndexFrom(xs[k := y], P, from) == Some(i)
  {
    FirstIndexFromIs(xs[k := y], P, from, i);
  }

  /** A search that starts before a stretch without hits finds what a search
      after the stretch finds. */
  lemma FirstIndexFromSkip<T>(xs: seq<T>, P: T -> bool, from: nat, upto: nat)
    requires from <= upto <= |xs|
    requires forall j :: from <= j < upto ==> !P(xs[j])
    ensures FirstIndexFrom(xs, P, from) == FirstIndexFrom(xs, P, upto)
    decreases upto - from
  {
    if from < upto {
      FirstIndexFromSkip(xs, P, from + 1, upto);
    }
  }

  /** Searching past a prefix is searching the rest, shifted by the prefix. */
  lemma FirstIndexFromShift<T>(pre: seq<T>, xs: seq<T>, P: T -> bool, from: nat)
    requires from <= |xs|
    ensures FirstIndexFrom(pre + xs, P, |pre| + from)
            == match FirstIndexFrom(xs, P, from) case None => None case Some(i) => Some(|pre| + i)
    decreases |xs| - from
  {
    if from < |xs| {
      assert (pre + xs)[|pre| + from] == xs[from];
      if !P(xs[from]) {
        FirstIndexFromShift(pre, xs, P, from + 1);
      }
    }
  }

  /** A search through a prefix without hits finds the first hit of the rest,
      shifted by the prefix. */
  lemma FirstIndexPastPrefix<T>(pre: seq<T>, xs: seq<T>, P: T -> bool)
    requires forall j :: 0 <= j < |pre| ==> !P(pre[j])
    ensures FirstIndexFrom(xs, P, 0).None? ==> FirstIndexFrom(pre + xs, P, 0).None?
    ensures FirstIndexFrom(xs, P, 0).Some? ==>
              FirstIndexFrom(pre + xs, P, 0) == Some(|pre| + FirstIndexFrom(xs, P, 0).value)
  {
    assert forall j :: 0 <= j < |pre| ==> (pre + xs)[j] == pre[j];
    FirstIndexFromSkip(pre + xs, P, 0, |pre|);
    FirstIndexFromShift(pre, xs, P, 0);
  }

  /** A slice past a prefix is the slice of the rest. */
  /** Dropping the head of a non-empty front part. */
  lemma TailOfAppend<T>(xs: seq<T>, ys: seq<T>)
    requires |xs| > 0
    ensures (xs + ys)[0] == xs[0] && (xs + ys)[1..] == xs[1..] + ys
  {
  }

  /** Regrouping a concatenation around its middle three parts. */
  lemma AppendRegroup<T>(p: seq<T>, a: seq<T>, b: seq<T>, c: seq<T>, q: seq<T>)
    ensures p + a + b + c + q == p + (a + b + c) + q
  {
  }

  /** A sequence is its head followed by its tail. */
  lemma HeadTail<T>(xs: seq<T>)
    requires |xs| > 0
    ensures [xs[0]] + xs[1..] == xs
  {
  }

  /** Updating behind a new head shifts the index by one. */
  lemma ConsUpdate<T>(x: T, xs: seq<T>, k: nat, y: T)
    requires k < |xs|
    ensures [x] + xs[k := y] == ([x] + xs)[k + 1 := y]
  {
  }

  /** Dropping a front part leaves what followed it. */
  lemma DropPrefix<T>(pre: seq<T>, xs: seq<T>)
    ensures (pre + xs)[|pre|..] == xs
  {
  }

  /** The elements of a concatenation are those of its parts. */
  lemma ElemsAppend<T>(a: seq<T>, b: seq<T>)
    ensures (set t | t in a + b) == (set t | t in a) + (set t | t in b)
  {
  }

  /** Taking and dropping `k` after the head is taking and dropping `k + 1`. */
  lemma TakeDropTail<T>(q: seq<T>, k: nat)
    requires 0 < k <= |q|
    ensures q[1..][..k - 1] == q[1..k] && q[..k] == [q[0]] + q[1..k] && q[1..][k - 1..] == q[k..]
  {
  }

  lemma TakeOfDrop<T>(xs: seq<T>, a: nat, n: nat)
    requires a + n <= |xs|
    ensures xs[a..][..n] == xs[a..a + n]
  {}

  lemma DropOfTail<T>(xs: seq<T>, i: nat)
    requires i < |xs|
    ensures xs[1..][i..] == xs[i + 1..]
  {}

  lemma ConsAppend3<T>(x: T, a: seq<T>, b: seq<T>, c: seq<T>)
    ensures [x] + (a + b + c) == ([x] + a) + b + c
  {}

  lemma Assoc<T>(a: seq<T>, b: seq<T>, c: seq<T>)
    ensures a + (b + c) == a + b + c
  {}

  lemma Assoc3<T>(a: seq<T>, b: seq<T>, c: seq<T>, d: seq<T>)
    ensures a + (b + c + d) == a + b + c + d
  {}

  lemma SliceOfSlice<T>(xs: seq<T>, a: nat, b: nat, i: nat, j: nat)
    requires a <= b <= |xs| && i <= j <= b - a
    ensures xs[a..b][i..j] == xs[a + i..a + j]
  {
    var w := xs[a..b];
    forall k | 0 <= k < j - i ensures w[i..j][k] == xs[a + i..a + j][k] {
      assert w[i..j][k] == w[i + k];
    }
  }

  lemma AppendSlice<T>(pre: seq<T>, xs: seq<T>, a: nat, b: nat)
    requires a <= b <= |xs|
    ensures (pre + xs)[|pre| + a..|pre| + b] == xs[a..b]
  {
    var l := (pre + xs)[|pre| + a..|pre| + b];
    forall k | 0 <= k < b - a
      ensures l[k] == xs[a..b][k]
    {
      assert l[k] == (pre + xs)[|pre| + a + k];
    }
  }

  /** The index of the last element at or before `i` satisfying `P`. */
  function LastAtOrBefore<T>(xs: seq<T>, P: T -> bool, i: nat): (r: Option<nat>)
    requires i < |xs|
    ensures r.Some? ==> r.value <= i && P(xs[r.value])
    ensures r.Some? ==> forall j :: r.value < j <= i ==> !P(xs[j])
    ensures r.None? <==> forall j :: 0 <= j <= i ==> !P(xs[j])
    decreases i
  {
    if P(xs[i]) then Some(i)
    else if i == 0 then None
    else LastAtOrBefore(xs, P, i - 1)
  }

  /** An index whose element satisfies `P`, with none before it, is the first. */
  lemma FirstIndexIs<T>(xs: seq<T>, P: T -> bool, i: nat)
    requires i < |xs| && P(xs[i])
    requires forall j :: 0 <= j < i ==> !P(xs[j])
    ensures FirstIndex(xs, P) == Some(i)
  {
  }

  /** The first element of `xs` satisfying `P` (`next((x for x in xs if P(x)), None)`). */
  function FirstOf<T>(xs: seq<T>, P: T -> bool): (r: Option<T>)
    ensures r.Some? ==> FirstIndex(xs, P).Some? && r.value == xs[FirstIndex(xs, P).value]
    ensures r.None? <==> forall k :: 0 <= k < |xs| ==> !P(xs[k])
  {
    match FirstIndex(xs, P)
    case Some(k) => Some(xs[k])
    case None => None
  }

  /** The first match is found by looking at the head, then at the rest. */
  lemma FirstOfCons<T>(xs: seq<T>, P: T -> bool)
    requires |xs| > 0
    ensures FirstOf(xs, P) == if P(xs[0]) then Some(xs[0]) else FirstOf(xs[1..], P)
  {
  }
}
