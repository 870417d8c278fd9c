/** Order-preserving selection from a sequence: the list comprehensions and
    boolean-mask selections (`[x for x in s if p(x)]`, `df[df.str.contains(..)]`)
    the scripts use everywhere. */
module Seqs {

  /** `f` lists, in increasing order, positions of `y` holding `x`'s elements. */
  ghost predicate IsEmbedding<T>(x: seq<T>, y: seq<T>, f: seq<nat>) {
    && |f| == |x|
    && (forall i :: 0 <= i < |f| ==> f[i] < |y| && y[f[i]] == x[i])
    && (forall i, j :: 0 <= i < j < |f| ==> f[i] < f[j])
  }

  /** `x` is `y` with some elements left out, the rest in their order. */
  ghost predicate SubSeq<T>(x: seq<T>, y: seq<T>) {
    exists f :: IsEmbedding(x, y, f)
  }

  lemma SubSeqEmpty<T>(y: seq<T>)
    ensures SubSeq([], y)
  {
    assert IsEmbedding([], y, []);
  }

  lemma SubSeqExtend<T>(x: seq<T>, y: seq<T>, a: T)
    requires SubSeq(x, y)
    ensures SubSeq(x, y + [a])
  {
    var f: seq<nat> :| IsEmbedding(x, y, f);
    assert IsEmbedding(x, y + [a], f);
  }

  lemma SubSeqSnoc<T>(x: seq<T>, y: seq<T>, a: T)
    requires SubSeq(x, y)
    ensures SubSeq(x + [a], y + [a])
  {
    var f: seq<nat> :| IsEmbedding(x, y, f);
    var g: seq<nat> := f + [|y|];
    assert IsEmbedding(x + [a], y + [a], g);
  }

  lemma SubSeqPrepend<T>(x: seq<T>, y: seq<T>, a: T)
    requires SubSeq(x, y)
    ensures SubSeq(x, [a] + y) && SubSeq([a] + x, [a] + y)
  {
    var f: seq<nat> :| IsEmbedding(x, y, f);
    var g := seq(|f|, i requires 0 <= i < |f| => f[i] + 1);
    ShiftedEmbedding(x, y, a, f, g);
    var h := [0] + g;
    forall i | 0 <= i < |h|
      ensures h[i] < |[a] + y| && ([a] + y)[h[i]] == ([a] + x)[i]
    {
      if i > 0 {
        assert h[i] == g[i - 1] && ([a] + x)[i] == x[i - 1];
      }
    }
    assert IsEmbedding([a] + x, [a] + y, h);
  }

  lemma ShiftedEmbedding<T>(x: seq<T>, y: seq<T>, a: T, f: seq<nat>, g: seq<nat>)
    requires IsEmbedding(x, y, f)
    requires |g| == |f| && forall i :: 0 <= i < |f| ==> g[i] == f[i] + 1
    ensures IsEmbedding(x, [a] + y, g)
  {
    forall i | 0 <= i < |g|
      ensures g[i] < |[a] + y| && ([a] + y)[g[i]] == x[i]
    {
      assert ([a] + y)[f[i] + 1] == y[f[i]];
    }
  }

  /** Every element of a selection is an element of the original. */
  lemma SubSeqMember<T>(x: seq<T>, y: seq<T>, i: nat)
    requires SubSeq(x, y) && i < |x|
    ensures x[i] in y
  {
    var f: seq<nat> :| IsEmbedding(x, y, f);
    assert y[f[i]] == x[i];
  }

  /** The number of elements of `s` that satisfy `p`. */
  function CountWhere<T>(s: seq<T>, p: T -> bool): nat {
    if s == [] then 0 else (if p(s[0]) then 1 else 0) + CountWhere(s[1..], p)
  }

  /** `[x for x in s if p(x)]`: exactly the elements satisfying `p`, in
      their original order. */
  function Filter<T(!new)>(s: seq<T>, p: T -> bool): (r: seq<T>)
    ensures SubSeq(r, s)
    ensures forall i :: 0 <= i < |r| ==> p(r[i])
    ensures |r| == CountWhere(s, p)
    ensures forall x :: x in r <==> x in s && p(x)
  {
    if s == [] then
      SubSeqEmpty(s);
      []
    else
      var rest := Filter(s[1..], p);
      assert s == [s[0]] + s[1..];
      SubSeqPrepend(rest, s[1..], s[0]);
      if p(s[0]) then [s[0]] + rest else rest
  }

  /** A selection keeps every occurrence of a selected element and none of
      the others. */
  lemma {:induction false} FilterMultiset<T(!new)>(s: seq<T>, p: T -> bool, v: T)
    ensures multiset(Filter(s, p))[v] == if p(v) then multiset(s)[v] else 0
  {
    if s != [] {
      FilterMultiset(s[1..], p, v);
      assert s == [s[0]] + s[1..];
      assert multiset(s) == multiset([s[0]]) + multiset(s[1..]);
      if p(s[0]) {
        assert multiset(Filter(s, p)) == multiset([s[0]]) + multiset(Filter(s[1..], p));
      }
    }
  }

  /** Selecting by `p` and then by `q` is selecting by both. */
  lemma {:induction false} FilterFilter<T(!new)>(s: seq<T>, p: T -> bool, q: T -> bool)
    ensures Filter(Filter(s, p), q) == Filter(s, x => p(x) && q(x))
  {
    if s != [] {
      FilterFilter(s[1..], p, q);
      if p(s[0]) {
        assert Filter(s, p)[1..] == Filter(s[1..], p);
      }
    }
  }

  /** Selecting with a condition every element meets keeps the sequence. */
  lemma {:induction false} FilterAll<T(!new)>(s: seq<T>, p: T -> bool)
    requires forall i :: 0 <= i < |s| ==> p(s[i])
    ensures Filter(s, p) == s
  {
    if s != [] {
      FilterAll(s[1..], p);
      assert s == [s[0]] + s[1..];
    }
  }

  /** Selections by conditions that agree everywhere are the same. */
  lemma {:induction false} FilterCongruent<T(!new)>(s: seq<T>, p: T -> bool, q: T -> bool)
    requires forall x :: p(x) == q(x)
    ensures Filter(s, p) == Filter(s, q)
  {
    if s != [] {
      FilterCongruent(s[1..], p, q);
    }
  }

  /** A selection from a selection is a selection from the original. */
  lemma SubSeqTransitive<T>(x: seq<T>, y: seq<T>, z: seq<T>)
    requires SubSeq(x, y) && SubSeq(y, z)
    ensures SubSeq(x, z)
  {
    var f: seq<nat> :| IsEmbedding(x, y, f);
    var g: seq<nat> :| IsEmbedding(y, z, g);
    var h: seq<nat> := seq(|f|, i requires 0 <= i < |f| => g[f[i]]);
    assert IsEmbedding(x, z, h);
  }

  /** Selecting from an extended sequence extends the selection by the new
      element exactly when it is selected. */
  lemma {:induction false} FilterSnoc<T(!new)>(s: seq<T>, x: T, p: T -> bool)
    ensures Filter(s + [x], p) == Filter(s, p) + (if p(x) then [x] else [])
  {
    if s != [] {
      var t, head, tail := s + [x], if p(s[0]) then [s[0]] else [], if p(x) then [x] else [];
      assert t[0] == s[0] && t[1..] == s[1..] + [x];
      calc {
        Filter(t, p);
        head + Filter(s[1..] + [x], p);
        { FilterSnoc(s[1..], x, p); }
        head + (Filter(s[1..], p) + tail);
        (head + Filter(s[1..], p)) + tail;
        Filter(s, p) + tail;
      }
    }
  }

  /** Two selections in a row are one selection by both conditions. */
  lemma FilterThen<T(!new)>(s: seq<T>, p: T -> bool, q: T -> bool, both: T -> bool)
    requires forall x :: both(x) == (p(x) && q(x))
    ensures Filter(Filter(s, p), q) == Filter(s, both)
  {
    FilterFilter(s, p, q);
    FilterCongruent(s, x => p(x) && q(x), both);
  }

  /** A selection applied only when `cond` holds, after one by `p`, is one
      selection by `p` and, if `cond`, `q`. */
  lemma FilterIf<T(!new)>(s: seq<T>, p: T -> bool, q: T -> bool, both: T -> bool, cond: bool)
    requires forall x :: both(x) == (p(x) && (cond ==> q(x)))
    ensures (if cond then Filter(Filter(s, p), q) else Filter(s, p)) == Filter(s, both)
  {
    if cond {
      FilterThen(s, p, q, both);
    } else {
      FilterCongruent(s, p, both);
    }
  }

  /** Selecting with a condition no element meets gives nothing. */
  lemma {:induction false} FilterNone<T(!new)>(s: seq<T>, p: T -> bool)
    requires forall i :: 0 <= i < |s| ==> !p(s[i])
    ensures Filter(s, p) == []
  {
    if s != [] {
      FilterNone(s[1..], p);
    }
  }
}
