/** Facts about Python lists used as collections: `set(xs)` and duplicate detection. */
module Seqs {

  /** `set(xs)`: the distinct elements of a list. */
  function SetOf<T>(xs: seq<T>): set<T>
  {
    set x | x in xs
  }

  /** No element of the list occurs twice. */
  predicate NoDuplicates<T(==)>(xs: seq<T>)
  {
    forall i, j :: 0 <= i < j < |xs| ==> xs[i] != xs[j]
  }

  /** The repeat test as the source writes it: `len(set(xs)) != len(xs)`. */
  predicate HasRepeats<T(==)>(xs: seq<T>)
  {
    |SetOf(xs)| != |xs|
  }

  /** A list enumerates a set: it lists each of its elements exactly once (as `list(set(...))`). */
  predicate IsEnumeration<T(==)>(xs: seq<T>, s: set<T>)
  {
    NoDuplicates(xs) && SetOf(xs) == s
  }

  /** `set(xs)` never has more elements than `xs`, and as many exactly when `xs` has no duplicates. */
  lemma {:induction false} SetOfSize<T>(xs: seq<T>)
    ensures |SetOf(xs)| <= |xs|
    ensures |SetOf(xs)| == |xs| <==> NoDuplicates(xs)
  {
    if |xs| > 0 {
      var t := xs[1..];
      SetOfSize(t);
      assert SetOf(xs) == {xs[0]} + SetOf(t);
      if xs[0] in t {
        assert SetOf(xs) == SetOf(t);
        var j :| 0 <= j < |t| && t[j] == xs[0];
        assert xs[0] == xs[j + 1];
      } else {
        assert |SetOf(xs)| == |SetOf(t)| + 1;
        if NoDuplicates(t) {
          forall i, j | 0 <= i < j < |xs|
            ensures xs[i] != xs[j]
          {
            if i == 0 {
              assert xs[j] == t[j - 1];
            } else {
              assert xs[i] == t[i - 1] && xs[j] == t[j - 1];
            }
          }
        }
        if NoDuplicates(xs) {
          forall i, j | 0 <= i < j < |t|
            ensures t[i] != t[j]
          {
            assert t[i] == xs[i + 1] && t[j] == xs[j + 1];
          }
        }
      }
    }
  }

  /** The source's repeat test is exactly "some element occurs twice". */
  lemma HasRepeatsIff<T>(xs: seq<T>)
    ensures HasRepeats(xs) <==> !NoDuplicates(xs)
  {
    SetOfSize(xs);
  }

  /** A list whose concatenation with others has no repeats has none itself. */
  lemma {:induction false} NoDuplicatesOfPart<T>(xs: seq<T>, ys: seq<T>)
    requires NoDuplicates(xs + ys)
    ensures NoDuplicates(xs) && NoDuplicates(ys)
    ensures forall x :: x in xs ==> x !in ys
  {
    var zs := xs + ys;
    forall i, j | 0 <= i < j < |ys|
      ensures ys[i] != ys[j]
    {
      assert ys[i] == zs[|xs| + i] && ys[j] == zs[|xs| + j];
    }
    forall x | x in xs
      ensures x !in ys
    {
      var i :| 0 <= i < |xs| && xs[i] == x;
      assert zs[i] == x;
      assert forall j :: 0 <= j < |ys| ==> zs[|xs| + j] == ys[j];
    }
    forall i, j | 0 <= i < j < |xs|
      ensures xs[i] != xs[j]
    {
      assert xs[i] == zs[i] && xs[j] == zs[j];
    }
  }

  /** The lists `f(x)` for each `x` of `xs`, concatenated in order: the results a loop appends. */
  function FlatMap<A, B>(f: A -> seq<B>, xs: seq<A>): seq<B>
    decreases |xs|
  {
    if |xs| == 0 then [] else FlatMap(f, xs[..|xs| - 1]) + f(xs[|xs| - 1])
  }

  /** Concatenating the inputs concatenates the outputs. */
  lemma {:induction false} FlatMapAppend<A, B>(f: A -> seq<B>, xs: seq<A>, ys: seq<A>)
    ensures FlatMap(f, xs + ys) == FlatMap(f, xs) + FlatMap(f, ys)
    decreases |ys|
  {
    if |ys| == 0 {
      assert xs + ys == xs;
    } else {
      var n := |ys| - 1;
      assert (xs + ys)[..|xs + ys| - 1] == xs + ys[..n];
      FlatMapAppend(f, xs, ys[..n]);
    }
  }

  /** An element of the output comes from the output of some input, and every such element is there. */
  lemma {:induction false} FlatMapMembers<A, B>(f: A -> seq<B>, xs: seq<A>, y: B)
    ensures y in FlatMap(f, xs) <==> exists k :: 0 <= k < |xs| && y in f(xs[k])
    decreases |xs|
  {
    if |xs| > 0 {
      var n := |xs| - 1;
      FlatMapMembers(f, xs[..n], y);
      if exists k :: 0 <= k < |xs| && y in f(xs[k]) {
        var k :| 0 <= k < |xs| && y in f(xs[k]);
        if k < n {
          assert xs[..n][k] == xs[k];
        }
      }
      if y in FlatMap(f, xs[..n]) {
        var k :| 0 <= k < n && y in f(xs[..n][k]);
        assert xs[..n][k] == xs[k];
      }
    }
  }

  /** Appending one input appends its output. */
  lemma FlatMapSnoc<A, B>(f: A -> seq<B>, xs: seq<A>, x: A)
    ensures FlatMap(f, xs + [x]) == FlatMap(f, xs) + f(x)
  {
    assert (xs + [x])[..|xs|] == xs;
  }

  /** Appending a new element keeps a list free of duplicates and adds the element to its set. */
  lemma SetOfSnoc<T>(xs: seq<T>, x: T)
    requires NoDuplicates(xs) && x !in SetOf(xs)
    ensures NoDuplicates(xs + [x])
    ensures SetOf(xs + [x]) == SetOf(xs) + {x}
  {
    var ys := xs + [x];
    forall i, j | 0 <= i < j < |ys|
      ensures ys[i] != ys[j]
    {
      if j == |xs| {
        assert ys[i] == xs[i] && xs[i] in SetOf(xs);
      } else {
        assert ys[i] == xs[i] && ys[j] == xs[j];
      }
    }
  }

  /** `list(set(xs))`: the distinct elements, each once, in an order the language leaves open. */
  method Enumerate<T>(values: set<T>) returns (xs: seq<T>)
    ensures IsEnumeration(xs, values)
  {
    xs := [];
    var rest := values;
    while rest != {}
      invariant NoDuplicates(xs)
      invariant SetOf(xs) + rest == values && SetOf(xs) !! rest
      decreases |rest|
    {
      var x :| x in rest;
      SetOfSnoc(xs, x);
      xs := xs + [x];
      rest := rest - {x};
    }
  }
}
