/** Keeping, in order, the values a partial map gives for the elements of a
    sequence: the shape of a loop that inserts what each input line yields. */
module Seqs {
  import opened Wrappers

  /** The values `f` gives for the elements of `xs` it maps to Some, in the
      order of `xs`. */
  function FilterMap<A, B>(xs: seq<A>, f: A -> Option<B>): (ys: seq<B>)
    ensures |ys| <= |xs|
  {
    if xs == [] then [] else FilterMap(xs[..|xs| - 1], f) + Kept(xs[|xs| - 1], f)
  }

  /** What one element contributes: nothing or one value. */
  function Kept<A, B>(x: A, f: A -> Option<B>): (ys: seq<B>)
    ensures |ys| <= 1
  {
    match f(x)
    case None => []
    case Some(y) => [y]
  }

  /** Number of elements `f` maps to Some. */
  function SomeCount<A, B>(xs: seq<A>, f: A -> Option<B>): nat
  {
    if xs == [] then 0 else (if f(xs[0]).Some? then 1 else 0) + SomeCount(xs[1..], f)
  }

  /** Filtering a concatenation concatenates the results: the order of the
      input is kept. */
  lemma {:induction false} FilterMapAppend<A, B>(a: seq<A>, b: seq<A>, f: A -> Option<B>)
    ensures FilterMap(a + b, f) == FilterMap(a, f) + FilterMap(b, f)
  {
    if b == [] {
      assert a + b == a;
    } else {
      var b', last := b[..|b| - 1], b[|b| - 1];
      assert (a + b)[..|a + b| - 1] == a + b';
      assert (a + b)[|a + b| - 1] == last;
      FilterMapAppend(a, b', f);
    }
  }

  /** The result has one value per element mapped to Some. */
  lemma {:induction false} FilterMapLength<A, B>(xs: seq<A>, f: A -> Option<B>)
    ensures |FilterMap(xs, f)| == SomeCount(xs, f)
  {
    if xs != [] {
      FilterMapLength(xs[1..], f);
      FilterMapAppend([xs[0]], xs[1..], f);
      assert [xs[0]] + xs[1..] == xs;
      assert [xs[0]][..0] == [];
    }
  }

  /** Every value `f` gives is in the result. */
  lemma {:induction false} FilterMapIncludes<A, B>(xs: seq<A>, f: A -> Option<B>, i: nat)
    requires i < |xs| && f(xs[i]).Some?
    ensures f(xs[i]).value in FilterMap(xs, f)
  {
    var init := xs[..|xs| - 1];
    if i < |xs| - 1 {
      assert init[i] == xs[i];
      FilterMapIncludes(init, f, i);
    }
  }

  /** Every value in the result is one `f` gives for some element. */
  lemma {:induction false} FilterMapFrom<A, B>(xs: seq<A>, f: A -> Option<B>, y: B)
    requires y in FilterMap(xs, f)
    ensures exists i | 0 <= i < |xs| :: f(xs[i]) == Some(y)
  {
    var init := xs[..|xs| - 1];
    if y in FilterMap(init, f) {
      FilterMapFrom(init, f, y);
      var i :| 0 <= i < |init| && f(init[i]) == Some(y);
      assert xs[i] == init[i];
    } else {
      assert f(xs[|xs| - 1]) == Some(y);
    }
  }
}
