/**
  Generic list combinators behind the source's iterator pipelines
  (`filter_map`, `filter`, `find`), each with the facts the rest of the model
  relies on.
 */
module Lists {
  import opened Wrappers

  /** The elements' contributions, concatenated in order: a `filter_map`
      when each element contributes at most one value. */
  function ConcatMap<T, U>(xs: seq<T>, f: T -> seq<U>): seq<U> {
    if xs == [] then [] else f(xs[0]) + ConcatMap(xs[1..], f)
  }

  /** Nothing is produced exactly when no element contributes. */
  lemma {:induction false} ConcatMapEmpty<T, U>(xs: seq<T>, f: T -> seq<U>)
    ensures ConcatMap(xs, f) == [] <==> forall x :: x in xs ==> f(x) == []
  {
    if xs != [] {
      ConcatMapEmpty(xs[1..], f);
      assert forall x :: x in xs <==> x == xs[0] || x in xs[1..];
    }
  }

  /** What is produced is exactly what the elements contribute. */
  lemma {:induction false} ConcatMapElements<T, U>(xs: seq<T>, f: T -> seq<U>)
    ensures forall y :: y in ConcatMap(xs, f) <==> exists x :: x in xs && y in f(x)
  {
    if xs != [] {
      ConcatMapElements(xs[1..], f);
      assert forall x :: x in xs <==> x == xs[0] || x in xs[1..];
    }
  }

  /** The contributions of two lists follow each other: order is kept. */
  lemma {:induction false} ConcatMapAppend<T, U>(xs: seq<T>, ys: seq<T>, f: T -> seq<U>)
    ensures ConcatMap(xs + ys, f) == ConcatMap(xs, f) + ConcatMap(ys, f)
  {
    if xs == [] {
      assert xs + ys == ys;
    } else {
      assert (xs + ys)[0] == xs[0] && (xs + ys)[1..] == xs[1..] + ys;
      ConcatMapAppend(xs[1..], ys, f);
      assert f(xs[0]) + (ConcatMap(xs[1..], f) + ConcatMap(ys, f))
          == (f(xs[0]) + ConcatMap(xs[1..], f)) + ConcatMap(ys, f);
    }
  }

  /** Appending an element appends its contribution. */
  lemma ConcatMapSnoc<T, U>(xs: seq<T>, x: T, f: T -> seq<U>)
    ensures ConcatMap(xs + [x], f) == ConcatMap(xs, f) + f(x)
  {
    ConcatMapAppend(xs, [x], f);
    assert [x][1..] == [];
  }

  /** The first element of the list that fails the test, if any. */
  function FirstFailing<T>(xs: seq<T>, ok: T -> bool): Option<T> {
    if xs == [] then None
    else if !ok(xs[0]) then Some(xs[0])
    else FirstFailing(xs[1..], ok)
  }

  /** Nothing is found exactly when every element passes; what is found is
      an element of the list that fails, and every element before it passes. */
  lemma {:induction false} FirstFailingMeaning<T>(xs: seq<T>, ok: T -> bool)
    ensures FirstFailing(xs, ok).None? <==> forall x :: x in xs ==> ok(x)
    ensures FirstFailing(xs, ok).Some? ==>
      exists i :: 0 <= i < |xs| && xs[i] == FirstFailing(xs, ok).value && !ok(xs[i])
        && forall j :: 0 <= j < i ==> ok(xs[j])
  {
    if xs != [] {
      FirstFailingMeaning(xs[1..], ok);
      assert forall x :: x in xs ==> x == xs[0] || x in xs[1..];
      if ok(xs[0]) && FirstFailing(xs[1..], ok).Some? {
        var i :| 0 <= i < |xs[1..]| && xs[1..][i] == FirstFailing(xs[1..], ok).value && !ok(xs[1..][i])
          && forall j :: 0 <= j < i ==> ok(xs[1..][j]);
        assert xs[i + 1] == xs[1..][i];
        assert forall j :: 1 <= j < i + 1 ==> xs[j] == xs[1..][j - 1];
      }
    }
  }

  /** The elements that pass the test, in their original order
      (`iter().filter()`). */
  function Filter<T>(xs: seq<T>, keep: T -> bool): (r: seq<T>)
    ensures |r| <= |xs|
  {
    if xs == [] then [] else (if keep(xs[0]) then [xs[0]] else []) + Filter(xs[1..], keep)
  }

  /** An element is kept exactly when it is in the list and passes. */
  lemma {:induction false} FilterMembers<T>(xs: seq<T>, keep: T -> bool)
    ensures forall x :: x in Filter(xs, keep) <==> x in xs && keep(x)
  {
    if xs != [] {
      FilterMembers(xs[1..], keep);
      assert forall x :: x in xs <==> x == xs[0] || x in xs[1..];
    }
  }

  /** Filtering distributes over concatenation, so the kept elements stay in
      their order: each part contributes its own kept elements in place. */
  lemma {:induction false} FilterConcat<T>(xs: seq<T>, ys: seq<T>, keep: T -> bool)
    ensures Filter(xs + ys, keep) == Filter(xs, keep) + Filter(ys, keep)
  {
    if xs == [] {
      assert xs + ys == ys;
    } else {
      var head := if keep(xs[0]) then [xs[0]] else [];
      assert (xs + ys)[0] == xs[0] && (xs + ys)[1..] == xs[1..] + ys;
      assert Filter(xs + ys, keep) == head + Filter(xs[1..] + ys, keep);
      FilterConcat(xs[1..], ys, keep);
      assert head + (Filter(xs[1..], keep) + Filter(ys, keep))
          == (head + Filter(xs[1..], keep)) + Filter(ys, keep);
    }
  }

  /** A test every element passes keeps the whole list. */
  lemma {:induction false} FilterKeepsAll<T>(xs: seq<T>, keep: T -> bool)
    requires forall x :: x in xs ==> keep(x)
    ensures Filter(xs, keep) == xs
  {
    if xs != [] {
      assert xs[0] in xs;
      assert forall x :: x in xs[1..] ==> x in xs;
      FilterKeepsAll(xs[1..], keep);
    }
  }
}
