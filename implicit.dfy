/**
 * Implicit (proxy) discrimination: input columns, alone or combined into synthetic columns,
 * whose normalized mutual information with a protected column exceeds a threshold.
 */
module Implicit {
  import opened Wrappers
  import opened Seqs
  import opened Text
  import opened Combinatorics
  import opened Tables

  /** The normalized mutual information score of two aligned value columns (a library call). */
  type Scorer = (seq<string>, seq<string>) -> real

  /** An accepted proxy: the candidate's member columns, in order, and the protected column. */
  datatype ImplicitException = ImplicitException(I: seq<string>, P: string)

  /** A proxy finding: member columns, protected column and score. */
  datatype ImplicitFinding = ImplicitFinding(I: seq<string>, P: string, corr: real)

  /** Separates member names in a synthetic column's name. */
  const NameSeparator: char := '+'

  /** Separates member values in a synthetic column's values. */
  const ValueSeparator: char := '_'

  // ---------------------------------------------------------------------------------------
  // Combination ceiling and the combinations explored

  /** The bound handed to `range` when generating combinations: one more than the ceiling. */
  function RangeBound(n: nat, maxCombSize: Option<int>): int
  {
    match maxCombSize
    case None => n + 1
    case Some(m) => (if m > n then n else m) + 1
  }

  /** The largest combination size explored: |I| without a limit, else min(limit, |I|). */
  function Ceiling(n: nat, maxCombSize: Option<int>): int
  {
    match maxCombSize
    case None => n
    case Some(m) => if m < n then m else n
  }

  /** `[x for x in cs if len(x) > 1]`. */
  function MultiColumn(cs: seq<seq<string>>): seq<seq<string>>
  {
    if |cs| == 0 then [] else (if |cs[0]| > 1 then [cs[0]] else []) + MultiColumn(cs[1..])
  }

  /** The combinations of sizes below the range bound, keeping those of two or more columns. */
  function NewColumns(I: seq<string>, maxCombSize: Option<int>): seq<seq<string>>
  {
    MultiColumn(CombinationsUpTo(I, 0, RangeBound(|I|, maxCombSize) - 1))
  }

  lemma {:induction false} MultiColumnAppend(a: seq<seq<string>>, b: seq<seq<string>>)
    ensures MultiColumn(a + b) == MultiColumn(a) + MultiColumn(b)
  {
    if |a| > 0 {
      MultiColumnAppend(a[1..], b);
      var head := if |a[0]| > 1 then [a[0]] else [];
      assert (a + b)[0] == a[0] && (a + b)[1..] == a[1..] + b;
      calc {
        MultiColumn(a + b);
        head + MultiColumn(a[1..] + b);
        head + (MultiColumn(a[1..]) + MultiColumn(b));
        (head + MultiColumn(a[1..])) + MultiColumn(b);
        MultiColumn(a) + MultiColumn(b);
      }
    } else {
      assert a + b == b;
    }
  }

  lemma {:induction false} MultiColumnKeeps(cs: seq<seq<string>>)
    requires forall i :: 0 <= i < |cs| ==> |cs[i]| > 1
    ensures MultiColumn(cs) == cs
  {
    if |cs| > 0 {
      MultiColumnKeeps(cs[1..]);
    }
  }

  lemma {:induction false} MultiColumnDrops(cs: seq<seq<string>>)
    requires forall i :: 0 <= i < |cs| ==> |cs[i]| <= 1
    ensures MultiColumn(cs) == []
  {
    if |cs| > 0 {
      MultiColumnDrops(cs[1..]);
    }
  }

  /** Keeping the multi-column lists among the combinations of sizes 0..hi leaves those of sizes 2..hi. */
  lemma {:induction false} MultiColumnOfCombinations(s: seq<string>, hi: int)
    ensures MultiColumn(CombinationsUpTo(s, 0, hi)) == CombinationsUpTo(s, 2, hi)
    decreases hi + 1
  {
    if hi >= 0 {
      var prev := CombinationsUpTo(s, 0, hi - 1);
      var last := Combinations(s, hi);
      MultiColumnOfCombinations(s, hi - 1);
      assert CombinationsUpTo(s, 0, hi) == prev + last;
      MultiColumnAppend(prev, last);
      CombinationsSizes(s, hi);
      if hi >= 2 {
        MultiColumnKeeps(last);
        assert CombinationsUpTo(s, 2, hi) == CombinationsUpTo(s, 2, hi - 1) + last;
      } else {
        MultiColumnDrops(last);
        assert CombinationsUpTo(s, 2, hi) == [] && CombinationsUpTo(s, 2, hi - 1) == [];
      }
    } else {
      assert CombinationsUpTo(s, 0, hi) == [] && CombinationsUpTo(s, 2, hi) == [];
    }
  }

  /** The explored multi-column combinations are those of every size from 2 up to the ceiling. */
  lemma NewColumnsAreSizedCombinations(I: seq<string>, maxCombSize: Option<int>)
    ensures NewColumns(I, maxCombSize) == CombinationsUpTo(I, 2, Ceiling(|I|, maxCombSize))
  {
    assert RangeBound(|I|, maxCombSize) - 1 == Ceiling(|I|, maxCombSize);
    MultiColumnOfCombinations(I, Ceiling(|I|, maxCombSize));
  }

  /** A list is explored exactly when it is an order-preserving subsequence of I of size 2..c. */
  lemma NewColumnsMembers(I: seq<string>, maxCombSize: Option<int>, x: seq<string>)
    ensures x in NewColumns(I, maxCombSize) <==> 2 <= |x| <= Ceiling(|I|, maxCombSize) && IsSubsequence(x, I)
  {
    NewColumnsAreSizedCombinations(I, maxCombSize);
    CombinationsUpToMembers(I, 2, Ceiling(|I|, maxCombSize), x);
  }

  /** There are C(|I|, 2) + ... + C(|I|, c) explored combinations. */
  lemma NewColumnsCount(I: seq<string>, maxCombSize: Option<int>)
    ensures |NewColumns(I, maxCombSize)| == SumBinomial(|I|, 2, Ceiling(|I|, maxCombSize))
  {
    NewColumnsAreSizedCombinations(I, maxCombSize);
    CombinationsUpToCount(I, 2, Ceiling(|I|, maxCombSize));
  }

  /** A ceiling of 1 or less, as a zero or negative limit gives, explores no combination. */
  lemma NoNewColumnsBelowTwo(I: seq<string>, maxCombSize: Option<int>)
    requires Ceiling(|I|, maxCombSize) <= 1
    ensures NewColumns(I, maxCombSize) == []
  {
    NewColumnsAreSizedCombinations(I, maxCombSize);
  }

  /** Every explored combination is made of input columns. */
  lemma NewColumnsFromInputs(I: seq<string>, maxCombSize: Option<int>)
    ensures forall i, c :: 0 <= i < |NewColumns(I, maxCombSize)| && c in NewColumns(I, maxCombSize)[i] ==> c in I
    ensures forall i :: 0 <= i < |NewColumns(I, maxCombSize)| ==> |NewColumns(I, maxCombSize)[i]| >= 2
  {
    var ncs := NewColumns(I, maxCombSize);
    forall i | 0 <= i < |ncs|
      ensures |ncs[i]| >= 2 && forall c :: c in ncs[i] ==> c in I
    {
      NewColumnsMembers(I, maxCombSize, ncs[i]);
      SubsequenceElements(ncs[i], I);
    }
  }

  // ---------------------------------------------------------------------------------------
  // Synthetic columns

  /** `'+'.join(newcol)` for every combination. */
  function Names(ncs: seq<seq<string>>): seq<string>
  {
    seq(|ncs|, i requires 0 <= i < |ncs| => Join(ncs[i], NameSeparator))
  }

  /** The values of the member columns in row `r`. */
  function RowValues(t: Table, members: seq<string>, r: nat): seq<string>
    requires WellFormed(t) && r < t.height
    requires forall c :: c in members ==> c in t.cols
  {
    seq(|members|, j requires 0 <= j < |members| => t.cols[members[j]][r])
  }

  /** `df_aux[newcol].agg('_'.join, axis=1)`: each row's member values joined by '_'. */
  function CombinedColumn(t: Table, members: seq<string>): (col: seq<string>)
    requires WellFormed(t)
    requires forall c :: c in members ==> c in t.cols
    ensures |col| == t.height
  {
    seq(t.height, r requires 0 <= r < t.height => Join(RowValues(t, members, r), ValueSeparator))
  }

  /** The working copy after adding, in order, one synthetic column per combination. */
  function Augment(t: Table, ncs: seq<seq<string>>): (a: Table)
    requires WellFormed(t)
    requires forall i, c :: 0 <= i < |ncs| && c in ncs[i] ==> c in t.cols
    ensures WellFormed(a) && a.height == t.height
    ensures t.cols.Keys <= a.cols.Keys
    ensures forall i :: 0 <= i < |ncs| ==> Join(ncs[i], NameSeparator) in a.cols
    decreases |ncs|
  {
    if |ncs| == 0 then t
    else
      var n := |ncs| - 1;
      var prev := Augment(t, ncs[..n]);
      prev.(cols := prev.cols[Join(ncs[n], NameSeparator) := CombinedColumn(prev, ncs[n])])
  }

  /** Lines 106-108: copy the table, then add the synthetic columns one by one. */
  method AddCombinedColumns(df: Table, newcols: seq<seq<string>>) returns (aux: Table)
    requires WellFormed(df)
    requires forall i, c :: 0 <= i < |newcols| && c in newcols[i] ==> c in df.cols
    ensures aux == Augment(df, newcols)
  {
    aux := df;
    var k := 0;
    while k < |newcols|
      invariant 0 <= k <= |newcols|
      invariant aux == Augment(df, newcols[..k])
    {
      var newcol := newcols[k];
      assert newcols[..k + 1][..k] == newcols[..k];
      aux := aux.(cols := aux.cols[Join(newcol, NameSeparator) := CombinedColumn(aux, newcol)]);
      k := k + 1;
    }
    assert newcols[..k] == newcols;
  }

  /** A synthetic column depends only on the values of its member columns. */
  lemma CombinedColumnOfMembers(t1: Table, t2: Table, members: seq<string>)
    requires WellFormed(t1) && WellFormed(t2) && t1.height == t2.height
    requires forall c :: c in members ==> c in t1.cols && c in t2.cols && t1.cols[c] == t2.cols[c]
    ensures CombinedColumn(t1, members) == CombinedColumn(t2, members)
  {
    forall r | 0 <= r < t1.height
      ensures RowValues(t1, members, r) == RowValues(t2, members, r)
    {
    }
  }

  /** When no column name of the dataset contains '+', adding synthetic columns leaves the original ones as they were. */
  lemma {:induction false} AugmentKeepsOriginals(t: Table, ncs: seq<seq<string>>)
    requires WellFormed(t)
    requires forall i, c :: 0 <= i < |ncs| && c in ncs[i] ==> c in t.cols
    requires forall i :: 0 <= i < |ncs| ==> |ncs[i]| >= 2
    requires forall c :: c in t.cols ==> NameSeparator !in c
    ensures forall c :: c in t.cols ==> Augment(t, ncs).cols[c] == t.cols[c]
    decreases |ncs|
  {
    if |ncs| > 0 {
      var n := |ncs| - 1;
      AugmentKeepsOriginals(t, ncs[..n]);
      JoinHasSeparator(ncs[n], NameSeparator);
    }
  }

  /**
   * When no column name of the dataset contains '+', each synthetic column holds, row by row,
   * its members' original values joined by '_'.
   */
  lemma {:induction false} AugmentCombines(t: Table, ncs: seq<seq<string>>, i: nat)
    requires WellFormed(t)
    requires forall i, c :: 0 <= i < |ncs| && c in ncs[i] ==> c in t.cols
    requires forall i :: 0 <= i < |ncs| ==> |ncs[i]| >= 2
    requires forall c :: c in t.cols ==> NameSeparator !in c
    requires i < |ncs|
    ensures Augment(t, ncs).cols[Join(ncs[i], NameSeparator)] == CombinedColumn(t, ncs[i])
    decreases |ncs|
  {
    var n := |ncs| - 1;
    var init := ncs[..n];
    var prev := Augment(t, init);
    var last := ncs[n];
    var name := Join(last, NameSeparator);
    assert Augment(t, ncs).cols == prev.cols[name := CombinedColumn(prev, last)];
    if i < n && Join(ncs[i], NameSeparator) != name {
      assert init[i] == ncs[i];
      AugmentCombines(t, init, i);
    } else {
      if i < n {
        SplitJoin(ncs[i], NameSeparator);
        SplitJoin(last, NameSeparator);
      }
      AugmentKeepsOriginals(t, init);
      CombinedColumnOfMembers(prev, t, last);
    }
  }

  // ---------------------------------------------------------------------------------------
  // The score matrix

  /** `[(i, j) for i in names for j in P]`: the matrix entries in row-major order. */
  function FactorPairs(names: seq<string>, P: seq<string>): (pairs: seq<(string, string)>)
    ensures |pairs| == |names| * |P|
    ensures forall k :: 0 <= k < |pairs| ==> pairs[k].0 in names && pairs[k].1 in P
    decreases |names|
  {
    if |names| == 0 then []
    else
      var n := |names| - 1;
      var prev := FactorPairs(names[..n], P);
      assert |names| * |P| == n * |P| + |P|;
      prev + seq(|P|, j requires 0 <= j < |P| => (names[n], P[j]))
  }

  /** Entry (i, j) of the row-major list is the pair of the i-th name and the j-th protected column. */
  lemma {:induction false} FactorPairsIndex(names: seq<string>, P: seq<string>, i: nat, j: nat)
    requires i < |names| && j < |P|
    ensures i * |P| + j < |names| * |P|
    ensures FactorPairs(names, P)[i * |P| + j] == (names[i], P[j])
    decreases |names|
  {
    var n := |names| - 1;
    assert |names| * |P| == n * |P| + |P|;
    if i < n {
      FactorPairsIndex(names[..n], P, i, j);
      assert (i + 1) * |P| <= n * |P| by {
        MultiplyMonotone(i + 1, n, |P|);
      }
    }
  }

  lemma MultiplyMonotone(a: nat, b: nat, c: nat)
    requires a <= b
    ensures a * c <= b * c
  {
  }

  /** One entry of the score matrix: a column paired with itself scores 0, others are scored. */
  function PairScore(aux: Table, nmi: Scorer, pair: (string, string)): real
    requires pair.0 in aux.cols && pair.1 in aux.cols
  {
    if pair.0 != pair.1 then nmi(aux.cols[pair.0], aux.cols[pair.1]) else 0.0
  }

  /** The scores of a list of pairs, in order. */
  function Scores(aux: Table, nmi: Scorer, pairs: seq<(string, string)>): seq<real>
    requires forall k :: 0 <= k < |pairs| ==> pairs[k].0 in aux.cols && pairs[k].1 in aux.cols
  {
    seq(|pairs|, k requires 0 <= k < |pairs| => PairScore(aux, nmi, pairs[k]))
  }

  /**
   * Lines 113-119: one score per pair, in order. A pair of two equal names scores 0 and the
   * scorer is not called for it; every other pair gets the scorer's value.
   */
  method NmiValues(aux: Table, nmi: Scorer, pairs: seq<(string, string)>) returns (values: seq<real>)
    requires forall k :: 0 <= k < |pairs| ==> pairs[k].0 in aux.cols && pairs[k].1 in aux.cols
    ensures |values| == |pairs|
    ensures forall k :: 0 <= k < |pairs| && pairs[k].0 == pairs[k].1 ==> values[k] == 0.0
    ensures forall k :: 0 <= k < |pairs| && pairs[k].0 != pairs[k].1 ==>
      values[k] == nmi(aux.cols[pairs[k].0], aux.cols[pairs[k].1])
  {
    values := [];
    var k := 0;
    while k < |pairs|
      invariant 0 <= k <= |pairs| && |values| == k
      invariant forall m :: 0 <= m < k ==> values[m] == PairScore(aux, nmi, pairs[m])
    {
      var f := pairs[k];
      if f.0 != f.1 {
        var res := nmi(aux.cols[f.0], aux.cols[f.1]);
        values := values + [res];
      } else {
        values := values + [0.0];
      }
      k := k + 1;
    }
  }

  // ---------------------------------------------------------------------------------------
  // Threshold filter and exceptions

  /** An exception with the same ordered member list and the same protected column exists. */
  predicate ImplicitCovered(f: ImplicitFinding, E: seq<ImplicitException>)
  {
    exists ex :: ex in E && ex.I == f.I && ex.P == f.P
  }

  /** Lines 73-76: scan the exceptions and stop at the first one that covers the finding. */
  method CoveredByImplicitException(candidate: ImplicitFinding, E: seq<ImplicitException>) returns (covered: bool)
    ensures covered <==> ImplicitCovered(candidate, E)
  {
    var k := 0;
    while k < |E|
      invariant 0 <= k <= |E|
      invariant forall m :: 0 <= m < k ==> !(E[m].I == candidate.I && E[m].P == candidate.P)
    {
      var ex := E[k];
      if candidate.I == ex.I && candidate.P == ex.P {
        return true;
      }
      k := k + 1;
    }
    return false;
  }

  /** The finding a matrix entry gives: the row name split back on '+', the column, the score. */
  function Candidate(pair: (string, string), score: real): ImplicitFinding
  {
    ImplicitFinding(Split(pair.0, NameSeparator), pair.1, score)
  }

  /** Lines 131-142 over the row-major entries: those above the threshold and not excepted, in order. */
  function ImplicitCandidates(pairs: seq<(string, string)>, values: seq<real>, E: seq<ImplicitException>, threshold: real): seq<ImplicitFinding>
    requires |pairs| == |values|
    decreases |pairs|
  {
    if |pairs| == 0 then []
    else
      var n := |pairs| - 1;
      var f := Candidate(pairs[n], values[n]);
      ImplicitCandidates(pairs[..n], values[..n], E, threshold)
        + (if values[n] > threshold && !ImplicitCovered(f, E) then [f] else [])
  }

  /** A finding is reported exactly when some entry above the threshold gives it and no exception covers it. */
  lemma {:induction false} ImplicitCandidatesMembers(pairs: seq<(string, string)>, values: seq<real>, E: seq<ImplicitException>, threshold: real, f: ImplicitFinding)
    requires |pairs| == |values|
    ensures f in ImplicitCandidates(pairs, values, E, threshold) <==>
      !ImplicitCovered(f, E) && exists k :: 0 <= k < |pairs| && Emits(pairs, values, threshold, k, f)
    decreases |pairs|
  {
    if |pairs| > 0 {
      var n := |pairs| - 1;
      var init, initValues := pairs[..n], values[..n];
      ImplicitCandidatesMembers(init, initValues, E, threshold, f);
      assert forall k :: 0 <= k < n ==> (Emits(init, initValues, threshold, k, f) <==> Emits(pairs, values, threshold, k, f));
      var last := Candidate(pairs[n], values[n]);
      var lastOut := if values[n] > threshold && !ImplicitCovered(last, E) then [last] else [];
      assert ImplicitCandidates(pairs, values, E, threshold) == ImplicitCandidates(init, initValues, E, threshold) + lastOut;
      if exists k :: 0 <= k < |pairs| && Emits(pairs, values, threshold, k, f) {
        var k :| 0 <= k < |pairs| && Emits(pairs, values, threshold, k, f);
        if k == n {
          assert f == last;
        } else {
          assert Emits(init, initValues, threshold, k, f);
        }
      }
      if f in lastOut {
        assert Emits(pairs, values, threshold, n, f);
      }
    }
  }

  /** Extending the prefix by entry k appends that entry's finding when it is kept. */
  lemma ImplicitCandidatesStep(pairs: seq<(string, string)>, values: seq<real>, E: seq<ImplicitException>, threshold: real, k: nat)
    requires |pairs| == |values| && k < |pairs|
    ensures ImplicitCandidates(pairs[..k + 1], values[..k + 1], E, threshold)
      == ImplicitCandidates(pairs[..k], values[..k], E, threshold)
         + (if values[k] > threshold && !ImplicitCovered(Candidate(pairs[k], values[k]), E) then [Candidate(pairs[k], values[k])] else [])
  {
    assert pairs[..k + 1][..k] == pairs[..k] && values[..k + 1][..k] == values[..k];
  }

  /** Entry k of the list is above the threshold and gives the finding f. */
  predicate Emits(pairs: seq<(string, string)>, values: seq<real>, threshold: real, k: nat, f: ImplicitFinding)
    requires |pairs| == |values| && k < |pairs|
  {
    values[k] > threshold && f == Candidate(pairs[k], values[k])
  }

  /**
   * Re-running with the findings added to the exceptions reports nothing: every finding's member
   * list and protected column now has an exception.
   */
  lemma ImplicitSuppression(pairs: seq<(string, string)>, values: seq<real>, E: seq<ImplicitException>, E2: seq<ImplicitException>, threshold: real)
    requires |pairs| == |values|
    requires forall ex :: ex in E ==> ex in E2
    requires forall f :: f in ImplicitCandidates(pairs, values, E, threshold) ==> ImplicitException(f.I, f.P) in E2
    ensures ImplicitCandidates(pairs, values, E2, threshold) == []
  {
    var again := ImplicitCandidates(pairs, values, E2, threshold);
    if |again| > 0 {
      var f := again[0];
      ImplicitCandidatesMembers(pairs, values, E2, threshold, f);
      ImplicitCandidatesMembers(pairs, values, E, threshold, f);
      assert false;
    }
  }

  /** Exceptions compare member lists in order: ['a', 'b'] does not cover a ['b', 'a'] finding. */
  lemma OrderedExceptionMatch(p: string, score: real)
    ensures !ImplicitCovered(ImplicitFinding(["b", "a"], p, score), [ImplicitException(["a", "b"], p)])
  {
    assert ["b", "a"][0] != ["a", "b"][0];
  }

  /** Lines 131-142: walk the score matrix row by row and keep the uncovered entries above the threshold. */
  method CollectImplicit(names: seq<string>, P: seq<string>, values: seq<real>, E: seq<ImplicitException>, threshold: real)
    returns (found: seq<ImplicitFinding>)
    requires |values| == |names| * |P|
    ensures found == ImplicitCandidates(FactorPairs(names, P), values, E, threshold)
  {
    ghost var pairs := FactorPairs(names, P);
    found := [];
    ghost var k := 0;
    var i := 0;
    while i < |names|
      invariant 0 <= i <= |names|
      invariant k == i * |P| && k <= |values|
      invariant found == ImplicitCandidates(pairs[..k], values[..k], E, threshold)
    {
      var j := 0;
      while j < |P|
        invariant 0 <= j <= |P|
        invariant k == i * |P| + j && k <= |values|
        invariant found == ImplicitCandidates(pairs[..k], values[..k], E, threshold)
      {
        FactorPairsIndex(names, P, i, j);
        ImplicitCandidatesStep(pairs, values, E, threshold, k);
        var score := values[i * |P| + j];
        if score > threshold {
          var candidate := ImplicitFinding(Split(names[i], NameSeparator), P[j], score);
          var covered := CoveredByImplicitException(candidate, E);
          if !covered {
            found := found + [candidate];
          }
        }
        j := j + 1;
        k := k + 1;
      }
      assert i * |P| + |P| == (i + 1) * |P|;
      i := i + 1;
    }
    assert i * |P| == |values|;
    assert pairs[..k] == pairs && values[..k] == values;
  }

  // ---------------------------------------------------------------------------------------
  // The whole check

  /** Line 111: the input columns followed by the synthetic ones. */
  function CandidateNames(I: seq<string>, maxCombSize: Option<int>): seq<string>
  {
    I + Names(NewColumns(I, maxCombSize))
  }

  /** The working copy `df_aux` once every synthetic column has been added. */
  function WorkingCopy(df: Table, I: seq<string>, maxCombSize: Option<int>): (aux: Table)
    requires WellFormed(df)
    requires forall c :: c in I ==> c in df.cols
    ensures WellFormed(aux) && aux.height == df.height && df.cols.Keys <= aux.cols.Keys
    ensures forall c :: c in CandidateNames(I, maxCombSize) ==> c in aux.cols
  {
    NewColumnsFromInputs(I, maxCombSize);
    var ncs := NewColumns(I, maxCombSize);
    var aux := Augment(df, ncs);
    assert forall c :: c in Names(ncs) ==> c in aux.cols;
    aux
  }

  /** What the implicit check reports for a dataset, its roles, exceptions and thresholds. */
  function ImplicitFindings(df: Table, I: seq<string>, P: seq<string>, E: seq<ImplicitException>,
                            threshold: real, maxCombSize: Option<int>, nmi: Scorer): seq<ImplicitFinding>
    requires WellFormed(df)
    requires forall c :: c in I ==> c in df.cols
    requires forall c :: c in P ==> c in df.cols
  {
    var aux := WorkingCopy(df, I, maxCombSize);
    var pairs := FactorPairs(CandidateNames(I, maxCombSize), P);
    ImplicitCandidates(pairs, Scores(aux, nmi, pairs), E, threshold)
  }

  /** Lines 79-144: the implicit discrimination check. */
  method CheckImplicitDiscrimination(df: Table, I: seq<string>, P: seq<string>, E: seq<ImplicitException>,
                                     threshold: real, maxCombSize: Option<int>, nmi: Scorer)
    returns (found: seq<ImplicitFinding>)
    requires WellFormed(df)
    requires forall c :: c in I ==> c in df.cols
    requires forall c :: c in P ==> c in df.cols
    ensures found == ImplicitFindings(df, I, P, E, threshold, maxCombSize, nmi)
  {
    NewColumnsFromInputs(I, maxCombSize);
    var newcols := NewColumns(I, maxCombSize);
    var aux := AddCombinedColumns(df, newcols);
    var names := I + Names(newcols);
    var pairs := FactorPairs(names, P);
    var values := NmiValues(aux, nmi, pairs);
    assert aux == WorkingCopy(df, I, maxCombSize);
    assert values == Scores(aux, nmi, pairs);
    found := CollectImplicit(names, P, values, E, threshold);
  }

  /**
   * The finding of row i, column j of the score matrix is reported exactly when its score is
   * strictly above the threshold and no exception has the same ordered member list and protected column.
   */
  lemma ImplicitFindingIff(df: Table, I: seq<string>, P: seq<string>, E: seq<ImplicitException>,
                           threshold: real, maxCombSize: Option<int>, nmi: Scorer, i: nat, j: nat)
    requires WellFormed(df)
    requires forall c :: c in I ==> c in df.cols
    requires forall c :: c in P ==> c in df.cols
    requires i < |CandidateNames(I, maxCombSize)| && j < |P|
    ensures var name := CandidateNames(I, maxCombSize)[i];
            var score := PairScore(WorkingCopy(df, I, maxCombSize), nmi, (name, P[j]));
            var f := ImplicitFinding(Split(name, NameSeparator), P[j], score);
            f in ImplicitFindings(df, I, P, E, threshold, maxCombSize, nmi) <==> score > threshold && !ImplicitCovered(f, E)
  {
    var names := CandidateNames(I, maxCombSize);
    var aux := WorkingCopy(df, I, maxCombSize);
    var pairs := FactorPairs(names, P);
    var values := Scores(aux, nmi, pairs);
    FactorPairsIndex(names, P, i, j);
    var k := i * |P| + j;
    var f := Candidate(pairs[k], values[k]);
    ImplicitCandidatesMembers(pairs, values, E, threshold, f);
    if values[k] > threshold {
      assert Emits(pairs, values, threshold, k, f);
    }
    if f in ImplicitCandidates(pairs, values, E, threshold) {
      var k' :| 0 <= k' < |pairs| && Emits(pairs, values, threshold, k', f);
      assert f.corr == values[k'];
    }
  }

  /**
   * Re-running the check with every reported finding added to the exceptions (as its member list
   * and protected column) reports nothing.
   */
  lemma ImplicitRerunSilenced(df: Table, I: seq<string>, P: seq<string>, E: seq<ImplicitException>, E2: seq<ImplicitException>,
                              threshold: real, maxCombSize: Option<int>, nmi: Scorer)
    requires WellFormed(df)
    requires forall c :: c in I ==> c in df.cols
    requires forall c :: c in P ==> c in df.cols
    requires forall ex :: ex in E ==> ex in E2
    requires forall f :: f in ImplicitFindings(df, I, P, E, threshold, maxCombSize, nmi) ==> ImplicitException(f.I, f.P) in E2
    ensures ImplicitFindings(df, I, P, E2, threshold, maxCombSize, nmi) == []
  {
    var aux := WorkingCopy(df, I, maxCombSize);
    var pairs := FactorPairs(CandidateNames(I, maxCombSize), P);
    ImplicitSuppression(pairs, Scores(aux, nmi, pairs), E, E2, threshold);
  }

  /**
   * When no input column name contains '+', splitting a candidate's name on '+' gives back its
   * members: the input column itself, or the combination the synthetic column was made from.
   */
  lemma CandidateMembers(I: seq<string>, maxCombSize: Option<int>, i: nat)
    requires forall c :: c in I ==> NameSeparator !in c
    requires i < |CandidateNames(I, maxCombSize)|
    ensures Split(CandidateNames(I, maxCombSize)[i], NameSeparator) ==
      if i < |I| then [I[i]] else NewColumns(I, maxCombSize)[i - |I|]
  {
    var names := CandidateNames(I, maxCombSize);
    if i < |I| {
      SplitWithoutSeparator(I[i], NameSeparator);
    } else {
      NewColumnsFromInputs(I, maxCombSize);
      SplitJoin(NewColumns(I, maxCombSize)[i - |I|], NameSeparator);
    }
  }

  /**
   * When no input column name contains '+', every candidate name splits into an order-preserving
   * selection of the input columns: a single column, or 2 to c columns where c is the ceiling.
   */
  lemma CandidateNameMembers(I: seq<string>, maxCombSize: Option<int>, name: string)
    requires forall c :: c in I ==> NameSeparator !in c
    requires name in CandidateNames(I, maxCombSize)
    ensures IsSubsequence(Split(name, NameSeparator), I)
    ensures |Split(name, NameSeparator)| == 1 || 2 <= |Split(name, NameSeparator)| <= Ceiling(|I|, maxCombSize)
  {
    var names := CandidateNames(I, maxCombSize);
    var i :| 0 <= i < |names| && names[i] == name;
    CandidateMembers(I, maxCombSize, i);
    if i < |I| {
      SingletonSubsequence(I[i], I);
    } else {
      NewColumnsMembers(I, maxCombSize, NewColumns(I, maxCombSize)[i - |I|]);
    }
  }

  /**
   * When no input column name contains '+', every finding names an order-preserving selection of
   * the input columns: a single column, or 2 to c columns where c is the combination ceiling.
   */
  lemma ImplicitFindingMembers(df: Table, I: seq<string>, P: seq<string>, E: seq<ImplicitException>,
                               threshold: real, maxCombSize: Option<int>, nmi: Scorer, f: ImplicitFinding)
    requires WellFormed(df)
    requires forall c :: c in I ==> c in df.cols
    requires forall c :: c in P ==> c in df.cols
    requires forall c :: c in I ==> NameSeparator !in c
    requires f in ImplicitFindings(df, I, P, E, threshold, maxCombSize, nmi)
    ensures IsSubsequence(f.I, I) && f.P in P
    ensures |f.I| == 1 || 2 <= |f.I| <= Ceiling(|I|, maxCombSize)
  {
    var names := CandidateNames(I, maxCombSize);
    var aux := WorkingCopy(df, I, maxCombSize);
    var pairs := FactorPairs(names, P);
    var values := Scores(aux, nmi, pairs);
    ImplicitCandidatesMembers(pairs, values, E, threshold, f);
    var k :| 0 <= k < |pairs| && Emits(pairs, values, threshold, k, f);
    assert f.I == Split(pairs[k].0, NameSeparator) && f.P == pairs[k].1;
    CandidateNameMembers(I, maxCombSize, pairs[k].0);
  }
}
