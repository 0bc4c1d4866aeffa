/** `itertools.combinations`: the order-preserving selections of k elements of a list. */
module Combinatorics {
  import opened Seqs

  /** `[[x] + c for c in cs]`. */
  function Prepend<T>(x: T, cs: seq<seq<T>>): seq<seq<T>>
  {
    seq(|cs|, i requires 0 <= i < |cs| => [x] + cs[i])
  }

  /**
   * The selections `itertools.combinations(s, k)` yields, each tuple as a list, in the same
   * order: first those that take `s[0]`, then those that skip it.
   */
  function Combinations<T>(s: seq<T>, k: nat): seq<seq<T>>
    decreases |s|
  {
    if k == 0 then [[]]
    else if |s| == 0 then []
    else Prepend(s[0], Combinations(s[1..], k - 1)) + Combinations(s[1..], k)
  }

  /** `x` can be obtained from `s` by deleting elements, keeping the order of the rest. */
  predicate IsSubsequence<T(==)>(x: seq<T>, s: seq<T>)
    decreases |s|
  {
    if |x| == 0 then true
    else if |s| == 0 then false
    else (x[0] == s[0] && IsSubsequence(x[1..], s[1..])) || IsSubsequence(x, s[1..])
  }

  /** The binomial coefficient C(n, k), by Pascal's rule. */
  function Binomial(n: nat, k: nat): nat
  {
    if k == 0 then 1
    else if n == 0 then 0
    else Binomial(n - 1, k - 1) + Binomial(n - 1, k)
  }

  /** The selections of every size from `lo` to `hi`, smaller sizes first (empty when hi < lo). */
  function CombinationsUpTo<T>(s: seq<T>, lo: nat, hi: int): seq<seq<T>>
    decreases hi - lo
  {
    if hi < lo then [] else CombinationsUpTo(s, lo, hi - 1) + Combinations(s, hi)
  }

  /** C(n, lo) + ... + C(n, hi). */
  function SumBinomial(n: nat, lo: nat, hi: int): nat
    decreases hi - lo
  {
    if hi < lo then 0 else SumBinomial(n, lo, hi - 1) + Binomial(n, hi)
  }

  /** The elements of a subsequence come from the sequence. */
  lemma {:induction false} SubsequenceElements<T>(x: seq<T>, s: seq<T>)
    requires IsSubsequence(x, s)
    ensures forall e :: e in x ==> e in s
    decreases |s|
  {
    if |x| > 0 {
      if x[0] == s[0] && IsSubsequence(x[1..], s[1..]) {
        SubsequenceElements(x[1..], s[1..]);
        assert x == [x[0]] + x[1..];
      } else {
        SubsequenceElements(x, s[1..]);
      }
    }
  }

  /** A list is in `Prepend(a, cs)` exactly when it is `a` followed by a member of `cs`. */
  lemma PrependMembers<T>(a: T, cs: seq<seq<T>>, x: seq<T>)
    ensures x in Prepend(a, cs) <==> |x| > 0 && x[0] == a && x[1..] in cs
  {
    var ps := Prepend(a, cs);
    if |x| > 0 && x[0] == a && x[1..] in cs {
      var i :| 0 <= i < |cs| && cs[i] == x[1..];
      assert ps[i] == [a] + x[1..] == x;
    }
    if x in ps {
      var i :| 0 <= i < |ps| && ps[i] == x;
      assert x == [a] + cs[i];
      assert x[1..] == cs[i];
    }
  }

  /** The combinations of size k are exactly the subsequences of length k. */
  lemma {:induction false} CombinationsAreSubsequences<T>(s: seq<T>, k: nat, x: seq<T>)
    ensures x in Combinations(s, k) <==> |x| == k && IsSubsequence(x, s)
    decreases |s|
  {
    if k > 0 && |s| > 0 {
      var t := s[1..];
      var left := Prepend(s[0], Combinations(t, k - 1));
      assert Combinations(s, k) == left + Combinations(t, k);
      CombinationsAreSubsequences(t, k, x);
      PrependMembers(s[0], Combinations(t, k - 1), x);
      if |x| > 0 {
        CombinationsAreSubsequences(t, k - 1, x[1..]);
      }
    }
  }

  /** Every combination of size k has k elements. */
  lemma CombinationsSizes<T>(s: seq<T>, k: nat)
    ensures forall i :: 0 <= i < |Combinations(s, k)| ==> |Combinations(s, k)[i]| == k
  {
    forall i | 0 <= i < |Combinations(s, k)|
      ensures |Combinations(s, k)[i]| == k
    {
      CombinationsAreSubsequences(s, k, Combinations(s, k)[i]);
    }
  }

  /** There are C(|s|, k) combinations of size k. */
  lemma {:induction false} CombinationsCount<T>(s: seq<T>, k: nat)
    ensures |Combinations(s, k)| == Binomial(|s|, k)
    decreases |s|
  {
    if k > 0 && |s| > 0 {
      CombinationsCount(s[1..], k - 1);
      CombinationsCount(s[1..], k);
    }
  }

  /** Over a list without repeats, no combination is produced twice. */
  lemma {:induction false} CombinationsDistinct<T>(s: seq<T>, k: nat)
    requires NoDuplicates(s)
    ensures NoDuplicates(Combinations(s, k))
    decreases |s|
  {
    if k > 0 && |s| > 0 {
      var t := s[1..];
      assert NoDuplicates(t) by {
        forall i, j | 0 <= i < j < |t| ensures t[i] != t[j] {
          assert t[i] == s[i + 1] && t[j] == s[j + 1];
        }
      }
      assert s[0] !in t by {
        forall j | 0 <= j < |t| ensures t[j] != s[0] {
          assert t[j] == s[j + 1];
        }
      }
      CombinationsDistinct(t, k - 1);
      CombinationsDistinct(t, k);
      var inner := Combinations(t, k - 1);
      var left := Prepend(s[0], inner);
      var right := Combinations(t, k);
      forall c | c in right
        ensures |c| == k && c[0] != s[0]
      {
        CombinationsAreSubsequences(t, k, c);
        SubsequenceElements(c, t);
        assert c[0] in c;
      }
      var all := left + right;
      forall i, j | 0 <= i < j < |all|
        ensures all[i] != all[j]
      {
        if j < |left| {
          assert all[i][1..] == inner[i] && all[j][1..] == inner[j];
        } else if i >= |left| {
          assert all[i] == right[i - |left|] && all[j] == right[j - |left|];
        } else {
          assert all[i][0] == s[0];
          assert all[j] in right;
        }
      }
    }
  }

  /** The combinations of sizes lo..hi are the subsequences whose length lies in lo..hi. */
  lemma {:induction false} CombinationsUpToMembers<T>(s: seq<T>, lo: nat, hi: int, x: seq<T>)
    ensures x in CombinationsUpTo(s, lo, hi) <==> lo <= |x| <= hi && IsSubsequence(x, s)
    decreases hi - lo
  {
    if hi >= lo {
      CombinationsUpToMembers(s, lo, hi - 1, x);
      CombinationsAreSubsequences(s, hi, x);
    }
  }

  /** There are C(|s|, lo) + ... + C(|s|, hi) combinations of sizes lo..hi. */
  lemma {:induction false} CombinationsUpToCount<T>(s: seq<T>, lo: nat, hi: int)
    ensures |CombinationsUpTo(s, lo, hi)| == SumBinomial(|s|, lo, hi)
    decreases hi - lo
  {
    if hi >= lo {
      CombinationsUpToCount(s, lo, hi - 1);
      CombinationsCount(s, hi);
    }
  }

  /** The pairs `itertools.combinations(vs, 2)` yields, as tuples. */
  function PairCombinations<T>(vs: seq<T>): (r: seq<(T, T)>)
  {
    CombinationsSizes(vs, 2);
    var cs := Combinations(vs, 2);
    seq(|cs|, i requires 0 <= i < |cs| => (cs[i][0], cs[i][1]))
  }

  /** A two-element list is a subsequence exactly when its elements occur in that order. */
  lemma {:induction false} PairSubsequence<T>(x: T, y: T, s: seq<T>)
    ensures IsSubsequence([x, y], s) <==> exists i, j :: 0 <= i < j < |s| && s[i] == x && s[j] == y
    decreases |s|
  {
    if |s| > 0 {
      var t := s[1..];
      PairSubsequence(x, y, t);
      assert [x, y][1..] == [y];
      if x == s[0] && IsSubsequence([y], t) {
        SubsequenceElements([y], t);
        assert y in t;
        var j :| 0 <= j < |t| && t[j] == y;
        assert s[0] == x && s[j + 1] == y;
      }
      if exists i, j :: 0 <= i < j < |s| && s[i] == x && s[j] == y {
        var i, j :| 0 <= i < j < |s| && s[i] == x && s[j] == y;
        if i == 0 {
          SingletonSubsequence(y, t);
          assert t[j - 1] == y;
        } else {
          assert t[i - 1] == x && t[j - 1] == y;
        }
      }
    }
  }

  /** A one-element list is a subsequence exactly when its element occurs. */
  lemma {:induction false} SingletonSubsequence<T>(y: T, s: seq<T>)
    ensures IsSubsequence([y], s) <==> y in s
    decreases |s|
  {
    if |s| > 0 {
      SingletonSubsequence(y, s[1..]);
      assert [y][1..] == [];
    }
  }

  /** The pairs are exactly the ordered couples of elements whose first comes before the second. */
  lemma PairCombinationsMembers<T>(vs: seq<T>, x: T, y: T)
    ensures (x, y) in PairCombinations(vs) <==> exists i, j :: 0 <= i < j < |vs| && vs[i] == x && vs[j] == y
  {
    var cs := Combinations(vs, 2);
    var ps := PairCombinations(vs);
    CombinationsSizes(vs, 2);
    CombinationsAreSubsequences(vs, 2, [x, y]);
    PairSubsequence(x, y, vs);
    if (x, y) in ps {
      var i :| 0 <= i < |ps| && ps[i] == (x, y);
      assert cs[i] in cs;
      assert cs[i] == [x, y];
    }
    if [x, y] in cs {
      var i :| 0 <= i < |cs| && cs[i] == [x, y];
      assert ps[i] == (x, y);
    }
  }

  /**
   * Over a list without repeats, each unordered pair of distinct elements is taken exactly once,
   * in the direction of the list's order, and no pair is listed twice.
   */
  lemma PairCombinationsOnce<T>(vs: seq<T>, x: T, y: T)
    requires NoDuplicates(vs)
    requires x in vs && y in vs && x != y
    ensures ((x, y) in PairCombinations(vs)) != ((y, x) in PairCombinations(vs))
    ensures NoDuplicates(PairCombinations(vs))
  {
    PairCombinationsMembers(vs, x, y);
    PairCombinationsMembers(vs, y, x);
    PairCombinationsDistinct(vs);
  }

  /** Without repeats in `vs`, no pair is listed twice, and there are C(|vs|, 2) of them. */
  lemma PairCombinationsDistinct<T>(vs: seq<T>)
    requires NoDuplicates(vs)
    ensures NoDuplicates(PairCombinations(vs))
    ensures |PairCombinations(vs)| == Binomial(|vs|, 2)
  {
    var cs := Combinations(vs, 2);
    var ps := PairCombinations(vs);
    CombinationsSizes(vs, 2);
    CombinationsDistinct(vs, 2);
    CombinationsCount(vs, 2);
    forall i, j | 0 <= i < j < |ps|
      ensures ps[i] != ps[j]
    {
      assert cs[i] in cs && cs[j] in cs;
      assert cs[i] == [ps[i].0, ps[i].1] && cs[j] == [ps[j].0, ps[j].1];
    }
  }

  /** C(n, 2) == n * (n - 1) / 2. */
  lemma {:induction false} BinomialTwo(n: nat)
    ensures 2 * Binomial(n, 2) == n * (n - 1)
  {
    if n > 0 {
      BinomialTwo(n - 1);
      BinomialOne(n - 1);
    }
  }

  /** C(n, 1) == n. */
  lemma {:induction false} BinomialOne(n: nat)
    ensures Binomial(n, 1) == n
  {
    if n > 0 {
      BinomialOne(n - 1);
    }
  }

  /** A pair never couples an element with itself when the list has no repeats. */
  lemma PairCombinationsDistinctMembers<T>(vs: seq<T>, x: T, y: T)
    requires NoDuplicates(vs)
    requires (x, y) in PairCombinations(vs)
    ensures x != y && x in vs && y in vs
  {
    PairCombinationsMembers(vs, x, y);
  }
}
