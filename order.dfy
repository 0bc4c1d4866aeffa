/** Lexicographic order on strings and the ascending enumeration of a set of strings (`sorted(set(xs))`). */
module Order {
  import opened Seqs

  /** `a < b` on Python strings: compare character codes left to right; a proper prefix comes first. */
  predicate Below(a: string, b: string)
    decreases |a|
  {
    if |a| == 0 then |b| > 0
    else if |b| == 0 then false
    else a[0] < b[0] || (a[0] == b[0] && Below(a[1..], b[1..]))
  }

  lemma {:induction false} BelowIrreflexive(a: string)
    ensures !Below(a, a)
    decreases |a|
  {
    if |a| > 0 {
      BelowIrreflexive(a[1..]);
    }
  }

  lemma {:induction false} BelowTransitive(a: string, b: string, c: string)
    requires Below(a, b) && Below(b, c)
    ensures Below(a, c)
    decreases |a|
  {
    if |a| > 0 && a[0] == b[0] && b[0] == c[0] {
      BelowTransitive(a[1..], b[1..], c[1..]);
    }
  }

  /** Any two distinct strings are ordered one way or the other. */
  lemma {:induction false} BelowTotal(a: string, b: string)
    ensures a == b || Below(a, b) || Below(b, a)
    decreases |a|
  {
    if |a| > 0 && |b| > 0 && a[0] == b[0] {
      BelowTotal(a[1..], b[1..]);
      if a[1..] == b[1..] {
        assert a == [a[0]] + a[1..] && b == [b[0]] + b[1..];
      }
    }
  }

  /** `x` is the least element of `s`. */
  predicate IsLeast(x: string, s: set<string>)
  {
    x in s && forall y :: y in s && y != x ==> Below(x, y)
  }

  /** Every non-empty finite set of strings has a least element. */
  lemma {:induction false} LeastExists(s: set<string>)
    requires s != {}
    ensures exists x :: IsLeast(x, s)
    decreases |s|
  {
    var z :| z in s;
    var rest := s - {z};
    if rest == {} {
      assert s == {z};
      assert IsLeast(z, s);
    } else {
      LeastExists(rest);
      var m :| IsLeast(m, rest);
      BelowTotal(z, m);
      if Below(z, m) {
        forall y | y in s && y != z
          ensures Below(z, y)
        {
          if y != m {
            BelowTransitive(z, m, y);
          }
        }
        assert IsLeast(z, s);
      } else {
        assert IsLeast(m, s);
      }
    }
  }

  /** Strictly increasing: each element is below every later one. */
  predicate Ascending(xs: seq<string>)
  {
    forall i, j :: 0 <= i < j < |xs| ==> Below(xs[i], xs[j])
  }

  /** A set has exactly one ascending enumeration. */
  lemma {:induction false} AscendingUnique(xs: seq<string>, ys: seq<string>)
    requires Ascending(xs) && Ascending(ys) && SetOf(xs) == SetOf(ys)
    ensures xs == ys
    decreases |xs|
  {
    if |xs| == 0 {
      SetOfSize(xs);
      SetOfSize(ys);
      AscendingNoDuplicates(ys);
    } else {
      assert xs[0] in SetOf(ys);
      assert |ys| > 0;
      var x, y := xs[0], ys[0];
      assert y in SetOf(xs);
      if x != y {
        var i :| 0 <= i < |xs| && xs[i] == y;
        var j :| 0 <= j < |ys| && ys[j] == x;
        assert Below(x, y) && Below(y, x);
        BelowTransitive(x, y, x);
        BelowIrreflexive(x);
      }
      AscendingTail(xs);
      AscendingTail(ys);
      AscendingUnique(xs[1..], ys[1..]);
      assert xs == [x] + xs[1..] && ys == [y] + ys[1..];
    }
  }

  /** Dropping the head of an ascending list leaves it ascending and removes exactly the head from its set. */
  lemma AscendingTail(xs: seq<string>)
    requires Ascending(xs) && |xs| > 0
    ensures Ascending(xs[1..])
    ensures SetOf(xs[1..]) == SetOf(xs) - {xs[0]}
  {
    forall e | e in SetOf(xs) - {xs[0]}
      ensures e in SetOf(xs[1..])
    {
      var i :| 0 <= i < |xs| && xs[i] == e;
      assert xs[1..][i - 1] == e;
    }
    forall e | e in SetOf(xs[1..])
      ensures e != xs[0]
    {
      var i :| 0 <= i < |xs[1..]| && xs[1..][i] == e;
      assert Below(xs[0], xs[i + 1]);
      BelowIrreflexive(xs[0]);
    }
  }

  /** An ascending list has no repeats. */
  lemma AscendingNoDuplicates(xs: seq<string>)
    requires Ascending(xs)
    ensures NoDuplicates(xs)
  {
    forall i, j | 0 <= i < j < |xs|
      ensures xs[i] != xs[j]
    {
      BelowIrreflexive(xs[i]);
    }
  }

  /** The ascending enumeration of a set: its least element, then the rest in ascending order. */
  ghost function SortedOf(s: set<string>): seq<string>
    decreases |s|
  {
    if s == {} then [] else [Least(s)] + SortedOf(s - {Least(s)})
  }

  /** `min(s)` */
  ghost function Least(s: set<string>): (m: string)
    requires s != {}
    ensures IsLeast(m, s)
  {
    LeastExists(s);
    var m :| IsLeast(m, s);
    m
  }

  /** `SortedOf(s)` lists every element of `s` once, in ascending order. */
  lemma {:induction false} SortedOfSpec(s: set<string>)
    ensures IsEnumeration(SortedOf(s), s) && Ascending(SortedOf(s))
    decreases |s|
  {
    if s != {} {
      var m := Least(s);
      var rest := SortedOf(s - {m});
      SortedOfSpec(s - {m});
      var xs := [m] + rest;
      forall i, j | 0 <= i < j < |xs|
        ensures Below(xs[i], xs[j])
      {
        if i == 0 {
          assert xs[j] == rest[j - 1] && rest[j - 1] in SetOf(rest);
        } else {
          assert xs[i] == rest[i - 1] && xs[j] == rest[j - 1];
        }
      }
      AscendingNoDuplicates(xs);
      assert SetOf(xs) == {m} + SetOf(rest);
    }
  }

  /** Appending the least of the values not yet listed keeps the list ascending and below the remaining values. */
  lemma AscendingSnoc(xs: seq<string>, x: string, rest: set<string>)
    requires Ascending(xs) && IsLeast(x, rest)
    requires forall i, y :: 0 <= i < |xs| && y in rest ==> Below(xs[i], y)
    ensures Ascending(xs + [x])
    ensures forall i, y :: 0 <= i < |xs + [x]| && y in rest - {x} ==> Below((xs + [x])[i], y)
  {
  }

  /** `sorted(set(xs))`: the distinct elements, each once, in ascending order. */
  method SortedEnumerate(values: set<string>) returns (xs: seq<string>)
    ensures IsEnumeration(xs, values) && Ascending(xs)
    ensures xs == SortedOf(values)
  {
    xs := [];
    var rest := values;
    while rest != {}
      invariant Ascending(xs) && NoDuplicates(xs)
      invariant SetOf(xs) + rest == values && SetOf(xs) !! rest
      invariant forall i, y :: 0 <= i < |xs| && y in rest ==> Below(xs[i], y)
      decreases |rest|
    {
      LeastExists(rest);
      var x :| IsLeast(x, rest);
      SetOfSnoc(xs, x);
      AscendingSnoc(xs, x, rest);
      xs := xs + [x];
      rest := rest - {x};
    }
    SortedOfSpec(values);
    AscendingUnique(xs, SortedOf(values));
  }
}
