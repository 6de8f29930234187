/**
  Generic sequence helpers shared by the store, the pick-list editor and the
  theme table: an optional value, the first-match search performed by
  JavaScript's `Array.prototype.find`, and the order-preserving
  `Array.prototype.filter`.
 */
module Lists {

  /** A value that may be absent (JavaScript `null` / `undefined`). */
  datatype Option<T> = None | Some(value: T) {

    /** The value, or `default` when absent (JavaScript `??`). */
    function GetOr(default: T): (r: T)
      ensures Some? ==> r == value
      ensures None? ==> r == default
    {
      match this
      case Some(v) => v
      case None => default
    }
  }

  /** Index of the first element satisfying `p`, as `find` locates it. */
  function FindIndex<T>(xs: seq<T>, p: T -> bool): (r: Option<nat>)
    ensures r.Some? ==> r.value < |xs| && p(xs[r.value])
    ensures r.Some? ==> forall j :: 0 <= j < r.value ==> !p(xs[j])
    ensures r.None? <==> forall j :: 0 <= j < |xs| ==> !p(xs[j])
  {
    if |xs| == 0 then None
    else if p(xs[0]) then Some(0)
    else match FindIndex(xs[1..], p)
      case None => None
      case Some(k) => Some(k + 1)
  }

  /** The elements of `xs` that `keep` accepts, in their original order. */
  function Filter<T(==)>(xs: seq<T>, keep: T -> bool): (r: seq<T>)
    ensures |r| <= |xs|
    ensures forall i :: 0 <= i < |r| ==> r[i] in xs && keep(r[i])
    ensures forall i :: 0 <= i < |xs| && keep(xs[i]) ==> xs[i] in r
  {
    if |xs| == 0 then []
    else if keep(xs[0]) then [xs[0]] + Filter(xs[1..], keep)
    else Filter(xs[1..], keep)
  }

  /** Filtering distributes over concatenation: relative order is kept. */
  lemma {:induction false} FilterConcat<T>(a: seq<T>, b: seq<T>, keep: T -> bool)
    ensures Filter(a + b, keep) == Filter(a, keep) + Filter(b, keep)
  {
    if |a| == 0 {
      assert a + b == b;
    } else {
      assert (a + b)[0] == a[0];
      assert (a + b)[1..] == a[1..] + b;
      FilterConcat(a[1..], b, keep);
    }
  }

  /** Filtering keeps the list unchanged exactly when every element is kept. */
  lemma {:induction false} FilterIdentity<T>(xs: seq<T>, keep: T -> bool)
    ensures Filter(xs, keep) == xs <==> forall i :: 0 <= i < |xs| ==> keep(xs[i])
  {
    if |xs| == 0 {
    } else {
      FilterIdentity(xs[1..], keep);
      if !keep(xs[0]) {
        assert |Filter(xs, keep)| < |xs| by {
          assert Filter(xs, keep) == Filter(xs[1..], keep);
        }
      } else {
        assert forall i :: 1 <= i < |xs| ==> xs[i] == xs[1..][i - 1];
      }
    }
  }

  /** The head of a non-empty filtered list is the first kept element. */
  lemma {:induction false} FilterHeadIsFirstKept<T>(xs: seq<T>, keep: T -> bool)
    ensures |Filter(xs, keep)| > 0 <==> FindIndex(xs, keep).Some?
    ensures |Filter(xs, keep)| > 0 ==> Filter(xs, keep)[0] == xs[FindIndex(xs, keep).value]
  {
    if |xs| == 0 {
    } else if keep(xs[0]) {
    } else {
      FilterHeadIsFirstKept(xs[1..], keep);
    }
  }
}
