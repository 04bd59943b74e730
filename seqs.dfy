/** Ordered, duplicate-free sequences: the list behind `Classes` and its
    `append_if_new` discipline, with the first-seen characterisation. */
module Seqs {

  /** No element occurs twice. */
  ghost predicate NoDup<T>(xs: seq<T>) {
    forall i, j :: 0 <= i < j < |xs| ==> xs[i] != xs[j]
  }

  /** `xs` is a prefix of `ys`. */
  ghost predicate IsPrefix<T>(xs: seq<T>, ys: seq<T>) {
    |xs| <= |ys| && ys[..|xs|] == xs
  }

  /** Appends `x` unless it is already present. */
  function AppendIfNew<T(==, !new)>(xs: seq<T>, x: T): (r: seq<T>)
    ensures IsPrefix(xs, r) && |r| <= |xs| + 1
    ensures forall y :: y in r <==> y in xs || y == x
    ensures NoDup(xs) ==> NoDup(r)
    ensures x in xs ==> r == xs
  {
    if x in xs then xs else xs + [x]
  }

  /** Appends every element of `xs`, in order, with `AppendIfNew`. */
  function AppendAllNew<T(==, !new)>(acc: seq<T>, xs: seq<T>): seq<T>
    decreases |xs|
  {
    if xs == [] then acc else AppendIfNew(AppendAllNew(acc, xs[..|xs| - 1]), xs[|xs| - 1])
  }

  /** The position of the first occurrence of `x` in `xs`. */
  function FirstIndex<T(==)>(xs: seq<T>, x: T): (r: nat)
    requires x in xs
    ensures r < |xs| && xs[r] == x && x !in xs[..r]
  {
    if xs[0] == x then 0 else 1 + FirstIndex(xs[1..], x)
  }

  lemma {:induction false} FirstIndexAppend<T>(xs: seq<T>, x: T, y: T)
    requires y in xs
    ensures FirstIndex(xs + [x], y) == FirstIndex(xs, y)
  {
    if xs[0] != y {
      assert (xs + [x])[1..] == xs[1..] + [x];
      FirstIndexAppend(xs[1..], x, y);
    }
  }

  lemma FirstIndexNew<T>(xs: seq<T>, x: T)
    requires x !in xs
    ensures FirstIndex(xs + [x], x) == |xs|
  {
  }

  /** Appending a list of names one by one with `AppendIfNew` yields the
      duplicate-free list of everything seen, in first-seen order: the
      accumulator is kept as a prefix, nothing is lost, nothing appears twice,
      and any two elements stand in the order of their first occurrences. */
  lemma {:induction false} AppendAllNewFirstSeen<T(!new)>(acc: seq<T>, xs: seq<T>)
    requires NoDup(acc)
    ensures var r := AppendAllNew(acc, xs);
      && NoDup(r)
      && IsPrefix(acc, r)
      && (forall y :: y in r <==> y in acc + xs)
      && (forall i, j :: 0 <= i < j < |r| ==> FirstIndex(acc + xs, r[i]) < FirstIndex(acc + xs, r[j]))
    decreases |xs|
  {
    if xs != [] {
      var ys, x := xs[..|xs| - 1], xs[|xs| - 1];
      assert xs == ys + [x];
      AppendAllNewFirstSeen(acc, ys);
      var r0 := AppendAllNew(acc, ys);
      assert acc + xs == (acc + ys) + [x];
      FirstSeenStep(acc + ys, x, r0);
      var r := AppendIfNew(r0, x);
      assert IsPrefix(acc, r) by {
        assert r[..|r0|] == r0;
        assert r[..|acc|] == r0[..|acc|];
      }
    }
  }

  /** One step of `AppendAllNewFirstSeen`: appending `x` to a list ordered by
      first occurrence in `zs` gives one ordered by first occurrence in `zs + [x]`. */
  lemma FirstSeenStep<T(!new)>(zs: seq<T>, x: T, r0: seq<T>)
    requires forall y :: y in r0 <==> y in zs
    requires forall i, j :: 0 <= i < j < |r0| ==> FirstIndex(zs, r0[i]) < FirstIndex(zs, r0[j])
    ensures var r := AppendIfNew(r0, x);
      forall i, j :: 0 <= i < j < |r| ==> FirstIndex(zs + [x], r[i]) < FirstIndex(zs + [x], r[j])
  {
    var r := AppendIfNew(r0, x);
    forall y | y in r0
      ensures FirstIndex(zs + [x], y) == FirstIndex(zs, y)
    {
      FirstIndexAppend(zs, x, y);
    }
    if x !in r0 {
      FirstIndexNew(zs, x);
      forall i, j | 0 <= i < j < |r|
        ensures FirstIndex(zs + [x], r[i]) < FirstIndex(zs + [x], r[j])
      {
        assert r[i] == r0[i];
        if j < |r0| {
          assert r[j] == r0[j];
        }
      }
    }
  }

  /** Appending `a` and then `b` is appending `a + b`. */
  lemma {:induction false} AppendAllNewConcat<T(!new)>(acc: seq<T>, a: seq<T>, b: seq<T>)
    ensures AppendAllNew(AppendAllNew(acc, a), b) == AppendAllNew(acc, a + b)
    decreases |b|
  {
    if b == [] {
      assert a + b == a;
    } else {
      var b0 := b[..|b| - 1];
      assert (a + b)[..|a + b| - 1] == a + b0;
      assert (a + b)[|a + b| - 1] == b[|b| - 1];
      AppendAllNewConcat(acc, a, b0);
    }
  }

  /** `xs` occurs in `ys` in the same order, possibly with gaps. */
  predicate IsSubseq<T(==)>(xs: seq<T>, ys: seq<T>)
    decreases |ys|
  {
    if xs == [] then true
    else if ys == [] then false
    else if xs[|xs| - 1] == ys[|ys| - 1] then IsSubseq(xs[..|xs| - 1], ys[..|ys| - 1])
    else IsSubseq(xs, ys[..|ys| - 1])
  }

  lemma {:induction false} IsSubseqDropLast<T>(xs: seq<T>, ys: seq<T>)
    requires xs != [] && IsSubseq(xs, ys)
    ensures IsSubseq(xs[..|xs| - 1], ys)
    decreases |ys|, 0
  {
    var xs0 := xs[..|xs| - 1];
    if xs0 != [] {
      var ys0 := ys[..|ys| - 1];
      if xs[|xs| - 1] == ys[|ys| - 1] {
        IsSubseqExtend(xs0, ys0, ys[|ys| - 1]);
        assert ys0 + [ys[|ys| - 1]] == ys;
      } else {
        IsSubseqDropLast(xs, ys0);
        IsSubseqExtend(xs0, ys0, ys[|ys| - 1]);
        assert ys0 + [ys[|ys| - 1]] == ys;
      }
    }
  }

  /** A subsequence of `ys` stays one when `ys` grows at the end. */
  lemma {:induction false} IsSubseqExtend<T>(xs: seq<T>, ys: seq<T>, y: T)
    requires IsSubseq(xs, ys)
    ensures IsSubseq(xs, ys + [y])
    decreases |ys|, 1
  {
    assert (ys + [y])[..|ys + [y]| - 1] == ys;
    if xs != [] && xs[|xs| - 1] == y {
      IsSubseqDropLast(xs, ys);
    }
  }

  /** The value a dictionary of lists holds at `k`, the empty list when absent. */
  function Lookup<K, V>(m: map<K, seq<V>>, k: K): seq<V> {
    if k in m then m[k] else []
  }

  /** `n` copies of `x`. */
  function Repeat<T>(x: T, n: nat): (r: seq<T>)
    ensures |r| == n && forall i :: 0 <= i < n ==> r[i] == x
  {
    if n == 0 then [] else Repeat(x, n - 1) + [x]
  }

  lemma {:induction false} RepeatCount<T>(x: T, n: nat, y: T)
    ensures multiset(Repeat(x, n))[y] == if x == y then n else 0
  {
    if n > 0 {
      RepeatCount(x, n - 1, y);
      assert multiset(Repeat(x, n)) == multiset(Repeat(x, n - 1)) + multiset{x};
    }
  }
}
