// Option, and the two iterator adaptors the editor's queries are built from
// (`filter_map` followed by `collect`, and `find` / `position`), modelled on
// finite sequences.

module Wrappers {

  datatype Option<+T> = None | Some(value: T) {
    function GetOr(default: T): T {
      match this
      case Some(v) => v
      case None => default
    }
  }

  /** `xs.iter().filter_map(f).collect()`: the `Some` results of `f`, in order. */
  function FilterMap<A, B>(xs: seq<A>, f: A -> Option<B>): (r: seq<B>)
    ensures |r| <= |xs|
  {
    if xs == [] then []
    else match f(xs[0])
      case Some(y) => [y] + FilterMap(xs[1..], f)
      case None => FilterMap(xs[1..], f)
  }

  /** filter_map distributes over concatenation: each input element contributes
      its own output, in input order, independently of its neighbours. */
  lemma {:induction false} FilterMapAppend<A, B>(xs: seq<A>, ys: seq<A>, f: A -> Option<B>)
    ensures FilterMap(xs + ys, f) == FilterMap(xs, f) + FilterMap(ys, f)
  {
    if xs == [] {
      assert xs + ys == ys;
    } else {
      assert (xs + ys)[1..] == xs[1..] + ys;
      FilterMapAppend(xs[1..], ys, f);
    }
  }

  /** An output value is exactly the `Some` result of some input element. */
  lemma {:induction false} FilterMapMembership<A, B>(xs: seq<A>, f: A -> Option<B>, y: B)
    ensures y in FilterMap(xs, f) <==> exists i :: 0 <= i < |xs| && f(xs[i]) == Some(y)
  {
    if xs != [] {
      FilterMapMembership(xs[1..], f, y);
      if exists i :: 0 <= i < |xs| && f(xs[i]) == Some(y) {
        var i :| 0 <= i < |xs| && f(xs[i]) == Some(y);
        if i > 0 {
          assert xs[1..][i - 1] == xs[i];
        }
      }
      if exists i :: 0 <= i < |xs[1..]| && f(xs[1..][i]) == Some(y) {
        var i :| 0 <= i < |xs[1..]| && f(xs[1..][i]) == Some(y);
        assert xs[i + 1] == xs[1..][i];
      }
    }
  }

  /** `xs.iter().position(p)`: the index of the first element satisfying `p`. */
  function FindIndex<A>(xs: seq<A>, p: A -> bool): (r: Option<nat>)
    ensures r.Some? ==> r.value < |xs| && p(xs[r.value])
    ensures r.Some? ==> forall j :: 0 <= j < r.value ==> !p(xs[j])
    ensures r.None? ==> forall j :: 0 <= j < |xs| ==> !p(xs[j])
  {
    if xs == [] then None
    else if p(xs[0]) then Some(0)
    else match FindIndex(xs[1..], p)
      case None => None
      case Some(k) => Some(k + 1)
  }

  /** `xs.iter().find(p)`: the first element satisfying `p`. */
  function Find<A>(xs: seq<A>, p: A -> bool): (r: Option<A>)
    ensures r.Some? <==> exists j :: 0 <= j < |xs| && p(xs[j])
    ensures r.Some? ==> p(r.value) && r.value in xs
    ensures r.Some? ==> exists k :: 0 <= k < |xs| && xs[k] == r.value && forall j :: 0 <= j < k ==> !p(xs[j])
  {
    match FindIndex(xs, p)
    case None => None
    case Some(k) => Some(xs[k])
  }

  /** `xs.iter().map(f)`: `f` applied to each element, in order. */
  function Map<A, B>(xs: seq<A>, f: A -> B): (r: seq<B>)
    ensures |r| == |xs|
    ensures forall i :: 0 <= i < |xs| ==> r[i] == f(xs[i])
  {
    seq(|xs|, i requires 0 <= i < |xs| => f(xs[i]))
  }

  lemma MapCons<A, B>(x: A, xs: seq<A>, f: A -> B)
    ensures Map([x] + xs, f) == [f(x)] + Map(xs, f)
  {
    var lhs := Map([x] + xs, f);
    var rhs := [f(x)] + Map(xs, f);
    forall i | 0 <= i < |lhs|
      ensures lhs[i] == rhs[i]
    {
      if i > 0 {
        assert ([x] + xs)[i] == xs[i - 1];
      }
    }
  }
}
