/** Order-preserving filtering, the shape of every list comprehension with an `if` in the application. */
module Seqs {
  import opened Base

  /** `a` can be obtained from `b` by deleting elements, keeping the order of the rest. */
  predicate IsSubsequence<T(==)>(a: seq<T>, b: seq<T>)
    decreases |b|
  {
    if a == [] then true
    else if b == [] then false
    else (a[0] == b[0] && IsSubsequence(a[1..], b[1..])) || IsSubsequence(a, b[1..])
  }

  /** `[x for x in xs if keep(x)]`: exactly the elements satisfying `keep`, each as often as in `xs`, in their order. */
  function Filter<T(==,!new)>(xs: seq<T>, keep: T -> bool): (r: seq<T>)
    ensures |r| <= |xs|
    ensures IsSubsequence(r, xs)
  {
    if xs == [] then []
    else
      assert xs == [xs[0]] + xs[1..];
      var rest := Filter(xs[1..], keep);
      if keep(xs[0]) then
        assert ([xs[0]] + rest)[1..] == rest;
        [xs[0]] + rest
      else rest
  }

  /** What the filter keeps: every element satisfying `keep`, as often as it occurs in `xs`, and nothing else. */
  lemma {:induction false} FilterCounts<T(!new)>(xs: seq<T>, keep: T -> bool)
    ensures forall x :: multiset(Filter(xs, keep))[x] == if keep(x) then multiset(xs)[x] else 0
    decreases |xs|
  {
    if xs != [] {
      var head := if keep(xs[0]) then [xs[0]] else [];
      FilterCounts(xs[1..], keep);
      FilterUnfold(xs, keep);
      assert multiset(Filter(xs, keep)) == multiset(head) + multiset(Filter(xs[1..], keep));
      assert xs == [xs[0]] + xs[1..];
      assert multiset(xs) == multiset([xs[0]]) + multiset(xs[1..]);
    }
  }

  lemma FilterMembers<T(!new)>(xs: seq<T>, keep: T -> bool)
    ensures forall x :: x in Filter(xs, keep) <==> x in xs && keep(x)
  {
    FilterCounts(xs, keep);
    forall x ensures x in Filter(xs, keep) <==> x in xs && keep(x) {
      assert x in Filter(xs, keep) <==> multiset(Filter(xs, keep))[x] > 0;
      assert x in xs <==> multiset(xs)[x] > 0;
    }
  }

  lemma FilterUnfold<T(!new)>(xs: seq<T>, keep: T -> bool)
    requires xs != []
    ensures Filter(xs, keep) == (if keep(xs[0]) then [xs[0]] else []) + Filter(xs[1..], keep)
  {
  }

  /** Filtering distributes over appending one element at the end. */
  lemma {:induction false} FilterSnoc<T(!new)>(xs: seq<T>, x: T, keep: T -> bool)
    ensures Filter(xs + [x], keep) == Filter(xs, keep) + (if keep(x) then [x] else [])
    decreases |xs|
  {
    var tail := if keep(x) then [x] else [];
    if xs == [] {
      assert Filter([x], keep) == tail by {
        FilterUnfold([x], keep);
        assert [x][1..] == [];
      }
    } else {
      var ys := xs + [x];
      var head := if keep(xs[0]) then [xs[0]] else [];
      assert ys[1..] == xs[1..] + [x];
      FilterSnoc(xs[1..], x, keep);
      calc {
        Filter(ys, keep);
        { FilterUnfold(ys, keep); }
        head + Filter(xs[1..] + [x], keep);
        head + (Filter(xs[1..], keep) + tail);
        (head + Filter(xs[1..], keep)) + tail;
        { FilterUnfold(xs, keep); }
        Filter(xs, keep) + tail;
      }
    }
  }

  /** `ys` is `xs` with `x` inserted at position `p`. */
  ghost predicate InsertedAt<T>(xs: seq<T>, ys: seq<T>, p: nat, x: T) {
    && p <= |xs| && |ys| == |xs| + 1 && ys[p] == x
    && (forall j :: 0 <= j < p ==> ys[j] == xs[j])
    && (forall j :: p < j < |ys| ==> ys[j] == xs[j - 1])
  }

  lemma InsertedAtSlices<T>(xs: seq<T>, p: nat, x: T)
    requires p <= |xs|
    ensures InsertedAt(xs, xs[..p] + [x] + xs[p..], p, x)
  {
  }

  /** Some element of `ys` satisfies `P` iff the inserted `x` or some element of `xs` does. */
  lemma InsertedExists<T>(xs: seq<T>, ys: seq<T>, p: nat, x: T, P: T -> bool)
    requires InsertedAt(xs, ys, p, x)
    ensures (exists j :: 0 <= j < |ys| && P(ys[j])) <==> P(x) || exists j :: 0 <= j < |xs| && P(xs[j])
  {
    if exists j :: 0 <= j < |ys| && P(ys[j]) {
      var j :| 0 <= j < |ys| && P(ys[j]);
      if j < p {
        assert ys[j] == xs[j];
      } else if j > p {
        assert ys[j] == xs[j - 1];
      }
    }
    if exists j :: 0 <= j < |xs| && P(xs[j]) {
      var j :| 0 <= j < |xs| && P(xs[j]);
      var i := if j < p then j else j + 1;
      assert ys[i] == xs[j];
    }
  }

  /** Filtering with a stronger condition keeps no more elements. */
  lemma {:induction false} FilterLengthMonotone<T(!new)>(xs: seq<T>, stronger: T -> bool, weaker: T -> bool)
    requires forall x :: stronger(x) ==> weaker(x)
    ensures |Filter(xs, stronger)| <= |Filter(xs, weaker)|
    decreases |xs|
  {
    if xs != [] {
      FilterLengthMonotone(xs[1..], stronger, weaker);
    }
  }

  /**
    * A comprehension whose condition may raise: `None` when the condition
    * raises on some element, else the elements on which it holds, in order.
    */
  function FilterOrFail<T(==,!new)>(xs: seq<T>, test: T -> Option<bool>): (r: Option<seq<T>>)
    ensures r.None? <==> exists k :: 0 <= k < |xs| && test(xs[k]).None?
    decreases |xs|
  {
    if xs == [] then Some([])
    else
      assert forall k :: 0 < k < |xs| ==> xs[k] == xs[1..][k - 1];
      match test(xs[0])
      case None => None
      case Some(b) =>
        match FilterOrFail(xs[1..], test)
        case None => None
        case Some(rest) => Some(if b then [xs[0]] + rest else rest)
  }

  /** The elements on which a condition that may raise evaluates to true. */
  function Holds<T>(test: T -> Option<bool>): T -> bool {
    x => test(x) == Some(true)
  }

  /** When nothing raises, the comprehension keeps exactly the elements whose condition is true. */
  lemma {:induction false} FilterOrFailIsFilter<T(!new)>(xs: seq<T>, test: T -> Option<bool>)
    requires FilterOrFail(xs, test).Some?
    ensures FilterOrFail(xs, test).value == Filter(xs, Holds(test))
    decreases |xs|
  {
    if xs != [] {
      assert test(xs[0]).Some?;
      FilterOrFailIsFilter(xs[1..], test);
    }
  }

  function Both<T>(first: T -> bool, second: T -> bool): T -> bool {
    x => first(x) && second(x)
  }

  /** Two comprehensions in a row keep what both conditions keep. */
  lemma {:induction false} FilterOfFilter<T(!new)>(xs: seq<T>, first: T -> bool, second: T -> bool)
    ensures Filter(Filter(xs, first), second) == Filter(xs, Both(first, second))
    decreases |xs|
  {
    if xs != [] {
      FilterOfFilter(xs[1..], first, second);
      FilterUnfold(xs, first);
      FilterUnfold(xs, Both(first, second));
      if first(xs[0]) {
        FilterUnfold([xs[0]] + Filter(xs[1..], first), second);
        assert ([xs[0]] + Filter(xs[1..], first))[1..] == Filter(xs[1..], first);
      }
    }
  }

  /** Conditions that agree everywhere keep the same elements. */
  lemma {:induction false} FilterCongruent<T(!new)>(xs: seq<T>, p: T -> bool, q: T -> bool)
    requires forall x :: p(x) == q(x)
    ensures Filter(xs, p) == Filter(xs, q)
    decreases |xs|
  {
    if xs != [] {
      FilterCongruent(xs[1..], p, q);
    }
  }

  /** Conditions that agree everywhere, raising included, give the same comprehension. */
  lemma {:induction false} FilterOrFailCongruent<T(!new)>(xs: seq<T>, t1: T -> Option<bool>, t2: T -> Option<bool>)
    requires forall x :: t1(x) == t2(x)
    ensures FilterOrFail(xs, t1) == FilterOrFail(xs, t2)
    decreases |xs|
  {
    if xs != [] {
      FilterOrFailCongruent(xs[1..], t1, t2);
    }
  }

  /** A condition that holds everywhere keeps everything. */
  lemma {:induction false} FilterAll<T(!new)>(xs: seq<T>, keep: T -> bool)
    requires forall x :: keep(x)
    ensures Filter(xs, keep) == xs
    decreases |xs|
  {
    if xs != [] {
      FilterAll(xs[1..], keep);
      assert xs == [xs[0]] + xs[1..];
    }
  }
}
