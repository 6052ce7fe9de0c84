/** Small vocabulary shared by the path and git models. */
module Common {

  /** The value of a Python call that either returns or raises; `error` is the
      text `str(e)` of the exception. */
  datatype Result<T> = Ok(value: T) | Err(error: string)

  datatype Option<T> = None | Some(value: T) {
    function GetOr(default: T): T {
      match this
      case Some(v) => v
      case None => default
    }
  }

  /** `a` is obtained from `b` by deleting elements, keeping the order of the rest. */
  predicate IsSubseq<T(==)>(a: seq<T>, b: seq<T>)
    decreases |b|
  {
    a == [] ||
    (b != [] &&
     ((a[|a| - 1] == b[|b| - 1] && IsSubseq(a[..|a| - 1], b[..|b| - 1])) ||
      IsSubseq(a, b[..|b| - 1])))
  }

  /** Appending the same element to both sides, or to the larger side only,
      keeps a subsequence one. */
  lemma SubseqSnoc<T>(a: seq<T>, b: seq<T>, x: T)
    requires IsSubseq(a, b)
    ensures IsSubseq(a + [x], b + [x]) && IsSubseq(a, b + [x])
  {
    assert (a + [x])[..|a|] == a;
    assert (b + [x])[..|b|] == b;
  }

  /** Sequences with the same elements are empty together. */
  lemma SameElementsEmpty<T>(a: seq<T>, b: seq<T>)
    requires forall x :: x in a <==> x in b
    ensures a == [] <==> b == []
  {
    if a != [] { assert a[0] in b; }
    if b != [] { assert b[0] in a; }
  }

  lemma ConcatAssoc<T>(a: seq<T>, b: seq<T>, c: seq<T>)
    ensures (a + b) + c == a + (b + c)
  {
  }

  /** A subsequence is no longer than the sequence it is drawn from and holds
      nothing that is not there. */
  lemma {:induction false} SubseqBounds<T>(a: seq<T>, b: seq<T>)
    requires IsSubseq(a, b)
    ensures |a| <= |b|
    ensures forall x :: x in a ==> x in b
    decreases |b|
  {
    if a != [] {
      if a[|a| - 1] == b[|b| - 1] && IsSubseq(a[..|a| - 1], b[..|b| - 1]) {
        SubseqBounds(a[..|a| - 1], b[..|b| - 1]);
        assert a == a[..|a| - 1] + [a[|a| - 1]];
        assert b == b[..|b| - 1] + [b[|b| - 1]];
      } else {
        SubseqBounds(a, b[..|b| - 1]);
        assert b == b[..|b| - 1] + [b[|b| - 1]];
      }
    }
  }

  /** `f` applied to every element, in order. */
  function MapSeq<A, B>(f: A -> B, xs: seq<A>): (ys: seq<B>)
    ensures |ys| == |xs| && forall j :: 0 <= j < |xs| ==> ys[j] == f(xs[j])
  {
    seq(|xs|, j requires 0 <= j < |xs| => f(xs[j]))
  }

  lemma MapSnoc<A, B>(f: A -> B, xs: seq<A>)
    requires xs != []
    ensures MapSeq(f, xs) == MapSeq(f, xs[..|xs| - 1]) + [f(xs[|xs| - 1])]
  {
    var init := xs[..|xs| - 1];
    assert forall j :: 0 <= j < |init| ==> init[j] == xs[j];
  }

  /** The elements of `xs` that satisfy `p`, in order. */
  function Filter<T>(p: T -> bool, xs: seq<T>): (r: seq<T>)
    ensures |r| <= |xs|
    ensures forall x :: x in r ==> x in xs && p(x)
    decreases |xs|
  {
    if xs == [] then []
    else
      var init := Filter(p, xs[..|xs| - 1]);
      var last := xs[|xs| - 1];
      assert forall x :: x in xs[..|xs| - 1] ==> x in xs;
      if p(last) then init + [last] else init
  }
}
