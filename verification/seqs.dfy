/** Order-preserving selection over sequences (`Array.prototype.filter`). */
module Seqs {

  /** The elements of `s` that satisfy `p`, in their original order. */
  function Filter<T(!new)>(s: seq<T>, p: T -> bool): (r: seq<T>)
    ensures |r| <= |s|
    ensures forall x :: x in r <==> x in s && p(x)
  {
    if |s| == 0 then []
    else
      var init := s[..|s| - 1];
      assert s == init + [s[|s| - 1]];
      var r0 := Filter(init, p);
      if p(s[|s| - 1]) then r0 + [s[|s| - 1]] else r0
  }

  /** Appending one element extends the filtered sequence exactly when the
      element passes. */
  lemma FilterSnoc<T(!new)>(s: seq<T>, t: T, p: T -> bool)
    ensures Filter(s + [t], p) == if p(t) then Filter(s, p) + [t] else Filter(s, p)
  {
    assert (s + [t])[..|s|] == s;
  }

  /** Filtering commutes with concatenation: the kept elements of `a` come
      before the kept elements of `b`, so relative order is preserved. */
  lemma {:induction false} FilterConcat<T(!new)>(a: seq<T>, b: seq<T>, p: T -> bool)
    ensures Filter(a + b, p) == Filter(a, p) + Filter(b, p)
    decreases |b|
  {
    if |b| == 0 {
      assert a + b == a;
    } else {
      var b0 := b[..|b| - 1];
      assert (a + b)[..|a + b| - 1] == a + b0;
      assert (a + b)[|a + b| - 1] == b[|b| - 1];
      FilterConcat(a, b0, p);
    }
  }

  /** When every element passes, filtering changes nothing. */
  lemma {:induction false} FilterAll<T(!new)>(s: seq<T>, p: T -> bool)
    requires forall i :: 0 <= i < |s| ==> p(s[i])
    ensures Filter(s, p) == s
    decreases |s|
  {
    if |s| > 0 {
      var init := s[..|s| - 1];
      assert s == init + [s[|s| - 1]];
      FilterAll(init, p);
    }
  }

  /** Filtering by `p` and by its negation splits a sequence in two. */
  lemma {:induction false} FilterSplitsLength<T(!new)>(s: seq<T>, p: T -> bool, q: T -> bool)
    requires forall x :: q(x) == !p(x)
    ensures |Filter(s, p)| + |Filter(s, q)| == |s|
    decreases |s|
  {
    if |s| > 0 {
      FilterSplitsLength(s[..|s| - 1], p, q);
    }
  }
}
