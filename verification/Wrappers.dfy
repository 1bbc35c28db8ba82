/** Optional values and operation results shared by every module. */
module Wrappers {
  datatype Option<+T> = None | Some(value: T)

  datatype Result<+T, +E> = Ok(value: T) | Err(error: E)

  /** The first present value, the second otherwise. */
  function OrElse<T>(first: Option<T>, second: Option<T>): Option<T> {
    if first.Some? then first else second
  }

  /** The elements of `xs` that satisfy `keep`, in order. */
  function Filter<T>(xs: seq<T>, keep: T -> bool): seq<T> {
    if xs == [] then []
    else (if keep(xs[0]) then [xs[0]] else []) + Filter(xs[1..], keep)
  }

  lemma FilterMembers<T(!new)>(xs: seq<T>, keep: T -> bool)
    ensures forall x :: x in Filter(xs, keep) <==> x in xs && keep(x)
  {
    if xs != [] { FilterMembers(xs[1..], keep); }
  }

  /** Elements at two different places satisfy `keep`. */
  ghost predicate HoldTwo<T(!new)>(xs: seq<T>, keep: T -> bool) {
    exists i, j :: 0 <= i < j < |xs| && keep(xs[i]) && keep(xs[j])
  }

  lemma {:induction false} TwoInFilter<T(!new)>(xs: seq<T>, keep: T -> bool)
    ensures |Filter(xs, keep)| >= 2 <==> HoldTwo(xs, keep)
  {
    if xs != [] {
      var rest := xs[1..];
      TwoInFilter(rest, keep);
      FilterMembers(rest, keep);
      assert Filter(rest, keep) != [] ==> Filter(rest, keep)[0] in Filter(rest, keep);
      if i, j :| 0 <= i < j < |rest| && keep(rest[i]) && keep(rest[j]) {
        assert keep(xs[i + 1]) && keep(xs[j + 1]);
      }
      if j :| 0 <= j < |rest| && keep(rest[j]) {
        assert keep(xs[j + 1]);
      }
      if i, j :| 0 <= i < j < |xs| && keep(xs[i]) && keep(xs[j]) {
        assert rest[j - 1] == xs[j] && rest[j - 1] in rest;
        if i > 0 { assert rest[i - 1] == xs[i]; }
      }
    }
  }

  lemma {:induction false} FilterAppend<T(!new)>(xs: seq<T>, ys: seq<T>, keep: T -> bool)
    ensures Filter(xs + ys, keep) == Filter(xs, keep) + Filter(ys, keep)
  {
    if xs == [] {
      assert xs + ys == ys;
    } else {
      var head := if keep(xs[0]) then [xs[0]] else [];
      FilterAppend(xs[1..], ys, keep);
      calc {
        Filter(xs + ys, keep);
        { assert (xs + ys)[1..] == xs[1..] + ys && (xs + ys)[0] == xs[0]; }
        head + (Filter(xs[1..], keep) + Filter(ys, keep));
        (head + Filter(xs[1..], keep)) + Filter(ys, keep);
      }
    }
  }

  lemma FilterCommutes<T(!new)>(xs: seq<T>, p: T -> bool, q: T -> bool)
    ensures Filter(Filter(xs, p), q) == Filter(Filter(xs, q), p)
  {
    if xs != [] {
      FilterCommutes(xs[1..], p, q);
      var head := [xs[0]];
      FilterAppend(if p(xs[0]) then head else [], Filter(xs[1..], p), q);
      FilterAppend(if q(xs[0]) then head else [], Filter(xs[1..], q), p);
    }
  }

  lemma FilterKeepsAll<T(!new)>(xs: seq<T>, keep: T -> bool)
    requires forall i :: 0 <= i < |xs| ==> keep(xs[i])
    ensures Filter(xs, keep) == xs
  {
    if xs != [] { FilterKeepsAll(xs[1..], keep); }
  }

  lemma FilterKeepsNone<T(!new)>(xs: seq<T>, keep: T -> bool)
    requires forall i :: 0 <= i < |xs| ==> !keep(xs[i])
    ensures Filter(xs, keep) == []
  {
    if xs != [] { FilterKeepsNone(xs[1..], keep); }
  }

  /** A filter that drops exactly a front part leaves the rest as it is. */
  lemma FilterSuffix<T(!new)>(xs: seq<T>, keep: T -> bool, cut: nat)
    requires cut <= |xs|
    requires forall i :: 0 <= i < |xs| ==> (keep(xs[i]) <==> cut <= i)
    ensures Filter(xs, keep) == xs[cut..]
  {
    if cut == 0 {
      FilterKeepsAll(xs, keep);
    } else {
      FilterSuffix(xs[1..], keep, cut - 1);
    }
  }
}
