/** Option and the first/last-match searches that TypeScript's `find`,
    `filter(..)[length - 1]` and `||` chains perform over arrays. */
module Wrappers {

  datatype Option<+T> = None | Some(value: T)

  /** Index of the first element satisfying `p`, as `Array.prototype.find` scans. */
  function FirstWhere<T>(s: seq<T>, p: T -> bool): (r: Option<nat>)
    ensures r.Some? ==> r.value < |s| && p(s[r.value])
    ensures r.Some? ==> forall j :: 0 <= j < r.value ==> !p(s[j])
    ensures r.None? <==> forall j :: 0 <= j < |s| ==> !p(s[j])
  {
    if |s| == 0 then None
    else if p(s[0]) then Some(0)
    else match FirstWhere(s[1..], p)
      case None => None
      case Some(i) => Some(i + 1)
  }

  /** Index of the last element satisfying `p`. */
  function LastWhere<T>(s: seq<T>, p: T -> bool): (r: Option<nat>)
    ensures r.Some? ==> r.value < |s| && p(s[r.value])
    ensures r.Some? ==> forall j :: r.value < j < |s| ==> !p(s[j])
    ensures r.None? <==> forall j :: 0 <= j < |s| ==> !p(s[j])
  {
    if |s| == 0 then None
    else if p(s[|s| - 1]) then Some(|s| - 1)
    else LastWhere(s[..|s| - 1], p)
  }

  /** The elements of `s` satisfying `p`, in order (`Array.prototype.filter`). */
  function Filter<T>(s: seq<T>, p: T -> bool): (r: seq<T>)
    ensures |r| <= |s|
    ensures forall x :: x in r ==> x in s && p(x)
  {
    if |s| == 0 then []
    else Filter(s[..|s| - 1], p) + (if p(s[|s| - 1]) then [s[|s| - 1]] else [])
  }

  /** The last element kept by `Filter` is the last element satisfying `p`. */
  lemma {:induction false} LastOfFilter<T>(s: seq<T>, p: T -> bool)
    ensures |Filter(s, p)| > 0 <==> LastWhere(s, p).Some?
    ensures |Filter(s, p)| > 0 ==> Filter(s, p)[|Filter(s, p)| - 1] == s[LastWhere(s, p).value]
  {
    if |s| > 0 && !p(s[|s| - 1]) {
      LastOfFilter(s[..|s| - 1], p);
    }
  }

  /** Filtering distributes over concatenation: kept elements stay in order. */
  lemma {:induction false} FilterAppend<T>(a: seq<T>, b: seq<T>, p: T -> bool)
    ensures Filter(a + b, p) == Filter(a, p) + Filter(b, p)
    decreases |b|
  {
    if |b| > 0 {
      assert (a + b)[..|a + b| - 1] == a + b[..|b| - 1];
      FilterAppend(a, b[..|b| - 1], p);
    } else {
      assert a + b == a;
    }
  }

  /** The lists `f` gives for the elements of `s`, one after another. */
  function FlatMap<T, U>(s: seq<T>, f: T -> seq<U>): seq<U> {
    if |s| == 0 then [] else FlatMap(s[..|s| - 1], f) + f(s[|s| - 1])
  }

  /** Flattening distributes over concatenation. */
  lemma {:induction false} FlatMapAppend<T, U>(a: seq<T>, b: seq<T>, f: T -> seq<U>)
    ensures FlatMap(a + b, f) == FlatMap(a, f) + FlatMap(b, f)
    decreases |b|
  {
    if |b| == 0 {
      assert a + b == a;
    } else {
      var b0 := b[..|b| - 1];
      assert (a + b)[..|a + b| - 1] == a + b0;
      assert (a + b)[|a + b| - 1] == b[|b| - 1];
      FlatMapAppend(a, b0, f);
    }
  }

  /** When `f` yields at most one element, namely the value `g` gives, and
      `g` gives one exactly where `p` holds, flattening pairs up, in order,
      with filtering by `p`. */
  lemma {:induction false} FlatMapFilter<T, U>(s: seq<T>, f: T -> seq<U>, g: T -> Option<U>, p: T -> bool)
    requires forall x :: g(x).Some? <==> p(x)
    requires forall x :: f(x) == if g(x).Some? then [g(x).value] else []
    ensures |FlatMap(s, f)| == |Filter(s, p)|
    ensures forall k :: 0 <= k < |FlatMap(s, f)| ==> g(Filter(s, p)[k]) == Some(FlatMap(s, f)[k])
  {
    if |s| > 0 {
      var init, last := s[..|s| - 1], s[|s| - 1];
      FlatMapFilter(init, f, g, p);
      var c0, f0 := FlatMap(init, f), Filter(init, p);
      if p(last) {
        var c, fs := c0 + [g(last).value], f0 + [last];
        assert FlatMap(s, f) == c;
        forall k | 0 <= k < |c| ensures g(fs[k]) == Some(c[k]) {
          if k < |c0| {
            assert c[k] == c0[k] && fs[k] == f0[k];
          }
        }
      } else {
        assert FlatMap(s, f) == c0 + [];
      }
    }
  }

  /** `Array.prototype.map`. */
  function Map<T, U>(s: seq<T>, f: T -> U): (r: seq<U>)
    ensures |r| == |s| && forall i :: 0 <= i < |s| ==> r[i] == f(s[i])
  {
    seq(|s|, i requires 0 <= i < |s| => f(s[i]))
  }
}
