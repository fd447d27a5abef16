/**
 * The loops the list generators run over the lines of their files, written
 * once over the function each applies to a line: a comprehension that keeps
 * some lines and maps them, a loop that adds each line's entry to a set, and
 * a loop that threads a state through the lines.
 */
module Folds {
  import opened Wrappers

  /** `[f(x) for x in xs if f(x)]`: the kept results, in order. */
  function Kept<A, B>(f: A -> Option<B>, xs: seq<A>): (ys: seq<B>)
    ensures |ys| <= |xs|
  {
    if xs == [] then []
    else
      var y := f(xs[|xs| - 1]);
      Kept(f, xs[..|xs| - 1]) + if y.Some? then [y.value] else []
  }

  /** A value is kept exactly when some element maps to it. */
  lemma {:induction false} KeptMeans<A, B>(f: A -> Option<B>, xs: seq<A>, y: B)
    ensures y in Kept(f, xs) <==> exists i :: 0 <= i < |xs| && f(xs[i]) == Some(y)
    decreases |xs|
  {
    if xs != [] {
      var init := xs[..|xs| - 1];
      KeptMeans(f, init, y);
      if y in Kept(f, init) {
        var i :| 0 <= i < |init| && f(init[i]) == Some(y);
        assert xs[i] == init[i];
      }
      if exists i :: 0 <= i < |xs| && f(xs[i]) == Some(y) {
        var i :| 0 <= i < |xs| && f(xs[i]) == Some(y);
        if i < |init| {
          assert init[i] == xs[i];
        }
      }
    }
  }

  /** Elements that all map to something are all kept, one result each, in order. */
  lemma {:induction false} KeptAll<A, B>(f: A -> Option<B>, xs: seq<A>)
    requires forall i :: 0 <= i < |xs| ==> f(xs[i]).Some?
    ensures |Kept(f, xs)| == |xs|
    ensures forall i :: 0 <= i < |xs| ==> Kept(f, xs)[i] == f(xs[i]).value
    decreases |xs|
  {
    if xs != [] {
      var init := xs[..|xs| - 1];
      KeptAll(f, init);
    }
  }

  /** `[f(x) for x in xs]`. */
  function Mapped<A, B>(f: A -> B, xs: seq<A>): (ys: seq<B>)
    ensures |ys| == |xs|
    ensures forall i :: 0 <= i < |xs| ==> ys[i] == f(xs[i])
  {
    if xs == [] then [] else Mapped(f, xs[..|xs| - 1]) + [f(xs[|xs| - 1])]
  }

  /** One more mapped element. */
  lemma MappedNext<A, B>(f: A -> B, xs: seq<A>, j: nat)
    requires j < |xs|
    ensures Mapped(f, xs[..j + 1]) == Mapped(f, xs[..j]) + [f(xs[j])]
  {
    assert xs[..j + 1][..j] == xs[..j];
  }

  /** The set a loop builds by adding each element's entry, when it has one. */
  function Gathered<A, B>(f: A -> Option<B>, xs: seq<A>): (s: set<B>)
    ensures xs == [] ==> s == {}
  {
    if xs == [] then {}
    else
      var y := f(xs[|xs| - 1]);
      Gathered(f, xs[..|xs| - 1]) + if y.Some? then {y.value} else {}
  }

  /** A value is gathered exactly when some element's entry is that value. */
  lemma {:induction false} GatheredMeans<A, B>(f: A -> Option<B>, xs: seq<A>, y: B)
    ensures y in Gathered(f, xs) <==> exists i :: 0 <= i < |xs| && f(xs[i]) == Some(y)
    decreases |xs|
  {
    if xs != [] {
      var init := xs[..|xs| - 1];
      GatheredMeans(f, init, y);
      if y in Gathered(f, init) {
        var i :| 0 <= i < |init| && f(init[i]) == Some(y);
        assert xs[i] == init[i];
      }
      if exists i :: 0 <= i < |xs| && f(xs[i]) == Some(y) {
        var i :| 0 <= i < |xs| && f(xs[i]) == Some(y);
        if i < |init| {
          assert init[i] == xs[i];
        }
      }
    }
  }

  /** The gathered set is the same whatever order the elements come in. */
  lemma GatheredAnyOrder<A, B>(f: A -> Option<B>, xs: seq<A>, zs: seq<A>)
    requires multiset(xs) == multiset(zs)
    ensures Gathered(f, xs) == Gathered(f, zs)
  {
    forall y | y in Gathered(f, xs) ensures y in Gathered(f, zs) {
      GatheredMeans(f, xs, y);
      GatheredMeans(f, zs, y);
      var i :| 0 <= i < |xs| && f(xs[i]) == Some(y);
      assert xs[i] in multiset(zs);
      var k :| 0 <= k < |zs| && zs[k] == xs[i];
    }
    forall y | y in Gathered(f, zs) ensures y in Gathered(f, xs) {
      GatheredMeans(f, xs, y);
      GatheredMeans(f, zs, y);
      var i :| 0 <= i < |zs| && f(zs[i]) == Some(y);
      assert zs[i] in multiset(xs);
      var k :| 0 <= k < |xs| && xs[k] == zs[i];
    }
  }

  /**
   * The loop that adds each element's entry to a set: `s` holds what the
   * elements `before` gave, and the result what they and `xs` give.
   */
  method GatherFrom<A, B>(f: A -> Option<B>, s: set<B>, ghost before: seq<A>, xs: seq<A>) returns (r: set<B>)
    requires s == Gathered(f, before)
    ensures r == Gathered(f, before + xs)
  {
    r := s;
    var j := 0;
    assert before + xs[..j] == before;
    while j < |xs|
      invariant 0 <= j <= |xs|
      invariant r == Gathered(f, before + xs[..j])
    {
      GatheredStep(f, before, xs, j);
      var y := f(xs[j]);
      if y.Some? {
        r := r + {y.value};
      }
      j := j + 1;
    }
    assert xs[..j] == xs;
  }

  /** The state after the step has been applied to each element in order. */
  function Fold<S, A>(step: (S, A) -> S, s: S, xs: seq<A>): S {
    if xs == [] then s else step(Fold(step, s, xs[..|xs| - 1]), xs[|xs| - 1])
  }

  /** The last element is folded in last. */
  lemma FoldLast<S, A>(step: (S, A) -> S, s: S, xs: seq<A>)
    requires xs != []
    ensures Fold(step, s, xs) == step(Fold(step, s, xs[..|xs| - 1]), xs[|xs| - 1])
  {
  }

  /** Folding over three elements. */
  lemma FoldThree<S, A>(step: (S, A) -> S, s: S, x: A, y: A, z: A)
    ensures Fold(step, s, [x, y, z]) == step(step(step(s, x), y), z)
  {
    var xs := [x, y, z];
    assert xs[..2] == [x, y];
    assert xs[..2][..1] == [x];
    assert xs[..2][..1][..0] == [];
    assert Fold(step, s, [x]) == step(s, x);
    assert Fold(step, s, [x, y]) == step(step(s, x), y);
  }

  /** Folding over two runs of elements is folding over the second from where the first left off. */
  lemma {:induction false} FoldAppend<S, A>(step: (S, A) -> S, s: S, xs: seq<A>, zs: seq<A>)
    ensures Fold(step, s, xs + zs) == Fold(step, Fold(step, s, xs), zs)
    decreases |zs|
  {
    if zs == [] {
      assert xs + zs == xs;
    } else {
      assert (xs + zs)[..|xs + zs| - 1] == xs + zs[..|zs| - 1];
      FoldAppend(step, s, xs, zs[..|zs| - 1]);
    }
  }

  /** A property every step keeps holds of the final state when it holds of the first. */
  lemma {:induction false} FoldKeeps<S, A>(step: (S, A) -> S, inv: S -> bool, s: S, xs: seq<A>)
    requires inv(s)
    requires forall t, x :: inv(t) ==> inv(step(t, x))
    ensures inv(Fold(step, s, xs))
    decreases |xs|
  {
    if xs != [] {
      FoldKeeps(step, inv, s, xs[..|xs| - 1]);
    }
  }

  /** A property some element's step establishes, and every later step keeps, holds of the final state. */
  lemma {:induction false} FoldEstablishes<S, A>(step: (S, A) -> S, inv: S -> bool, s: S, xs: seq<A>, i: nat)
    requires i < |xs|
    requires forall t :: inv(step(t, xs[i]))
    requires forall t, x :: inv(t) ==> inv(step(t, x))
    ensures inv(Fold(step, s, xs))
    decreases |xs|
  {
    var init := xs[..|xs| - 1];
    if i < |init| {
      assert init[i] == xs[i];
      FoldEstablishes(step, inv, s, init, i);
    }
  }

  /** The elements read so far, one more element read. */
  lemma NextElement<A>(prefix: seq<A>, xs: seq<A>, j: nat)
    requires j < |xs|
    ensures var all := prefix + xs[..j + 1];
      all != [] && all[..|all| - 1] == prefix + xs[..j] && all[|all| - 1] == xs[j]
  {
  }

  /** One more turn of a gathering loop nested in a loop over files. */
  lemma GatheredStep<A, B>(f: A -> Option<B>, prefix: seq<A>, xs: seq<A>, j: nat)
    requires j < |xs|
    ensures var y := f(xs[j]);
      Gathered(f, prefix + xs[..j + 1]) == Gathered(f, prefix + xs[..j]) + if y.Some? then {y.value} else {}
  {
    NextElement(prefix, xs, j);
  }

  /** One more turn of a gathering loop over one sequence. */
  lemma GatheredNext<A, B>(f: A -> Option<B>, xs: seq<A>, j: nat)
    requires j < |xs|
    ensures var y := f(xs[j]);
      Gathered(f, xs[..j + 1]) == Gathered(f, xs[..j]) + if y.Some? then {y.value} else {}
  {
    assert xs[..j + 1][..j] == xs[..j];
  }

  /** One more turn of a folding loop nested in a loop over files. */
  lemma FoldStep<S, A>(step: (S, A) -> S, s: S, prefix: seq<A>, xs: seq<A>, j: nat)
    requires j < |xs|
    ensures Fold(step, s, prefix + xs[..j + 1]) == step(Fold(step, s, prefix + xs[..j]), xs[j])
  {
    NextElement(prefix, xs, j);
  }

  /** The elements of a sequence of files, one file after the other. */
  function Concat<A>(files: seq<seq<A>>): (all: seq<A>)
    ensures files == [] ==> all == []
  {
    if files == [] then [] else Concat(files[..|files| - 1]) + files[|files| - 1]
  }

  lemma ConcatStep<A>(files: seq<seq<A>>, f: nat)
    requires f < |files|
    ensures Concat(files[..f + 1]) == Concat(files[..f]) + files[f]
  {
    assert files[..f + 1][..f] == files[..f];
  }
}
