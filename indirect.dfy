/**
 * Indirect discrimination (disparate impact): for each protected column, each pair of its observed
 * values and each observed outcome value, the two subpopulations' outcome rates are compared and a
 * disparity is reported when it is large and statistically significant.
 */
module Indirect {
  import opened Seqs
  import opened Text
  import opened Combinatorics
  import opened Tables
  import opened Order

  /** What a chi-squared test of independence returns: statistic, p-value, degrees of freedom. */
  datatype Chi2Result = Chi2Result(chi2: real, pvalue: real, dof: int)

  /** `scipy.stats.chi2_contingency` applied to a table of observed counts (a library call). */
  type Chi2Test = seq<seq<nat>> -> Chi2Result

  /** A disparity ratio: a number, or infinity when the second subpopulation's rate is zero. */
  datatype Ratio = Finite(value: real) | Infinity

  /** An accepted disparity: protected column, ordered value pair, outcome column and value. */
  datatype IndirectException = IndirectException(P: string, Pv: (string, string), O: string, Ov: string)

  /** A reported disparity, with its ratio and the significance test's result. */
  datatype IndirectFinding = IndirectFinding(P: string, Pv: (string, string), O: string, Ov: string, ratio: Ratio, chi2: Chi2Result)

  /** One comparison: protected column `p`, subpopulations `v1` and `v2`, outcome value `o`. */
  datatype Trial = Trial(p: string, v1: string, v2: string, o: string)

  /**
   * The fixed inputs of one indirect check: the dataset, the outcome column, its observed values
   * in the order they are visited, the exceptions, the two thresholds and the test.
   */
  datatype Setting = Setting(df: Table, O: string, outcomes: seq<string>, E: seq<IndirectException>,
                             proportion: real, minPValue: real, chi2: Chi2Test)

  // ---------------------------------------------------------------------------------------
  // Rates, ratio and contingency table

  /** Lines 214-215: the share of the rows with `p == v` whose outcome is `o`. */
  function Rate(df: Table, p: string, v: string, O: string, o: string): (r: real)
    requires WellFormed(df) && p in df.cols && O in df.cols && v in df.cols[p]
    ensures 0.0 <= r <= 1.0
  {
    var hits := CountBoth(df.cols[p], df.cols[O], v, o);
    var rows := Count(df.cols[p], v);
    CountPositive(df.cols[p], v);
    CountBothAtMost(df.cols[p], df.cols[O], v, o);
    ShareBounds(hits as real, rows as real);
    hits as real / rows as real
  }

  lemma ShareBounds(part: real, whole: real)
    requires 0.0 <= part <= whole && whole > 0.0
    ensures 0.0 <= part / whole <= 1.0
  {
    var q := part / whole;
    assert q * whole == part;
  }

  /** Line 232 without rounding: infinite when the second rate is zero, else the quotient. */
  function RatioOf(v1a: real, v2a: real): (r: Ratio)
    ensures r.Infinity? <==> v2a == 0.0
    ensures r.Finite? ==> r.value * v2a == v1a
  {
    if v2a == 0.0 then Infinity else Finite(v1a / v2a)
  }

  /** Line 216: the first subpopulation's rate, scaled by the allowed proportion, exceeds the second's. */
  predicate Disparate(v1a: real, v2a: real, proportion: real)
  {
    v1a * proportion > v2a
  }

  /** The outcome values that occur among the rows of either subpopulation, in visiting order. */
  function SeenOutcomes(df: Table, p: string, O: string, v1: string, v2: string, outcomes: seq<string>): seq<string>
    requires WellFormed(df) && p in df.cols && O in df.cols
  {
    if |outcomes| == 0 then []
    else
      var o := outcomes[0];
      var rest := SeenOutcomes(df, p, O, v1, v2, outcomes[1..]);
      if CountBoth(df.cols[p], df.cols[O], v1, o) + CountBoth(df.cols[p], df.cols[O], v2, o) > 0
      then [o] + rest else rest
  }

  /** One row of the contingency table: a subpopulation's count for each outcome value. */
  function CountsRow(df: Table, p: string, O: string, v: string, seen: seq<string>): seq<nat>
    requires WellFormed(df) && p in df.cols && O in df.cols
  {
    seq(|seen|, k requires 0 <= k < |seen| => CountBoth(df.cols[p], df.cols[O], v, seen[k]))
  }

  /**
   * Lines 219-223: the 2-row table of counts of the two subpopulations over the outcome values
   * that occur among them.
   */
  function Contingency(df: Table, p: string, O: string, v1: string, v2: string, outcomes: seq<string>): seq<seq<nat>>
    requires WellFormed(df) && p in df.cols && O in df.cols
  {
    var seen := SeenOutcomes(df, p, O, v1, v2, outcomes);
    [CountsRow(df, p, O, v1, seen), CountsRow(df, p, O, v2, seen)]
  }

  /** The outcome values kept are exactly those, of the ones visited, that some row of either subpopulation has. */
  lemma {:induction false} SeenOutcomesMembers(df: Table, p: string, O: string, v1: string, v2: string, outcomes: seq<string>, o: string)
    requires WellFormed(df) && p in df.cols && O in df.cols
    ensures o in SeenOutcomes(df, p, O, v1, v2, outcomes) <==>
      o in outcomes && CountBoth(df.cols[p], df.cols[O], v1, o) + CountBoth(df.cols[p], df.cols[O], v2, o) > 0
    decreases |outcomes|
  {
    if |outcomes| > 0 {
      SeenOutcomesMembers(df, p, O, v1, v2, outcomes[1..], o);
      assert outcomes == [outcomes[0]] + outcomes[1..];
    }
  }

  /** The table has two rows of equal length and no column of zeros, so the test is well defined. */
  lemma ContingencyShape(df: Table, p: string, O: string, v1: string, v2: string, outcomes: seq<string>)
    requires WellFormed(df) && p in df.cols && O in df.cols
    ensures var table := Contingency(df, p, O, v1, v2, outcomes);
      && |table| == 2 && |table[0]| == |table[1]|
      && forall k :: 0 <= k < |table[0]| ==> table[0][k] + table[1][k] > 0
  {
    var seen := SeenOutcomes(df, p, O, v1, v2, outcomes);
    var table := Contingency(df, p, O, v1, v2, outcomes);
    forall k | 0 <= k < |table[0]|
      ensures table[0][k] + table[1][k] > 0
    {
      SeenOutcomesMembers(df, p, O, v1, v2, outcomes, seen[k]);
    }
  }

  // ---------------------------------------------------------------------------------------
  // One comparison

  /** The comparison is about a column of the dataset and two values observed in it. */
  predicate Observed(s: Setting, t: Trial)
  {
    WellFormed(s.df) && t.p in s.df.cols && s.O in s.df.cols && t.v1 in s.df.cols[t.p] && t.v2 in s.df.cols[t.p]
  }

  /** The significance test's result for the comparison's two subpopulations. */
  function TestOf(s: Setting, t: Trial): Chi2Result
    requires Observed(s, t)
  {
    s.chi2(Contingency(s.df, t.p, s.O, t.v1, t.v2, s.outcomes))
  }

  /** The comparison passes the disparity test (line 216) and the significance gate (line 226). */
  predicate Flags(s: Setting, t: Trial)
    requires Observed(s, t)
  {
    && Disparate(Rate(s.df, t.p, t.v1, s.O, t.o), Rate(s.df, t.p, t.v2, s.O, t.o), s.proportion)
    && TestOf(s, t).pvalue < s.minPValue
  }

  /** Lines 227-234: the finding the comparison gives, its strings stripped of surrounding white space. */
  function FindingOf(s: Setting, t: Trial): IndirectFinding
    requires Observed(s, t)
  {
    var v1a := Rate(s.df, t.p, t.v1, s.O, t.o);
    var v2a := Rate(s.df, t.p, t.v2, s.O, t.o);
    IndirectFinding(Strip(t.p), (Strip(t.v1), Strip(t.v2)), Strip(s.O), Strip(t.o), RatioOf(v1a, v2a), TestOf(s, t))
  }

  /** An exception equal to the finding on protected column, value pair (in order), outcome column and value. */
  predicate IndirectCovered(f: IndirectFinding, E: seq<IndirectException>)
  {
    exists ex :: ex in E && ex.P == f.P && ex.Pv == f.Pv && ex.O == f.O && ex.Ov == f.Ov
  }

  /** Lines 165-171: scan the exceptions and stop at the first one that covers the finding. */
  method CoveredByIndirectException(candidate: IndirectFinding, E: seq<IndirectException>) returns (covered: bool)
    ensures covered <==> IndirectCovered(candidate, E)
  {
    var k := 0;
    while k < |E|
      invariant 0 <= k <= |E|
      invariant forall m :: 0 <= m < k ==>
        !(E[m].P == candidate.P && E[m].Pv == candidate.Pv && E[m].O == candidate.O && E[m].Ov == candidate.Ov)
    {
      var ex := E[k];
      if candidate.P == ex.P && candidate.Pv == ex.Pv && candidate.O == ex.O && candidate.Ov == ex.Ov {
        return true;
      }
      k := k + 1;
    }
    return false;
  }

  // ---------------------------------------------------------------------------------------
  // The comparisons, in visiting order, and the findings they give

  /**
   * Lines 216-236: what one comparison adds to the result: its finding when the comparison is about
   * observed values, passes both tests and no exception covers the finding; nothing otherwise.
   */
  function Emit(s: Setting, t: Trial): seq<IndirectFinding>
  {
    if Observed(s, t) && Flags(s, t) && !IndirectCovered(FindingOf(s, t), s.E) then [FindingOf(s, t)] else []
  }

  /** `Emit` for fixed inputs, as a function of the comparison. */
  function EmitFor(s: Setting): Trial -> seq<IndirectFinding>
  {
    t => Emit(s, t)
  }

  /** For one value pair, one comparison per outcome value. */
  function PairTrials(p: string, pair: (string, string), outcomes: seq<string>): seq<Trial>
  {
    seq(|outcomes|, k requires 0 <= k < |outcomes| => Trial(p, pair.0, pair.1, outcomes[k]))
  }

  lemma PairTrialsGrow(p: string, pair: (string, string), outcomes: seq<string>, c: nat)
    requires c < |outcomes|
    ensures PairTrials(p, pair, outcomes[..c + 1]) == PairTrials(p, pair, outcomes[..c]) + [Trial(p, pair.0, pair.1, outcomes[c])]
  {
  }

  /** For one protected column, the comparisons of each value pair in turn. */
  function ColumnTrials(p: string, pairs: seq<(string, string)>, outcomes: seq<string>): seq<Trial>
    decreases |pairs|
  {
    if |pairs| == 0 then []
    else
      var n := |pairs| - 1;
      ColumnTrials(p, pairs[..n], outcomes) + PairTrials(p, pairs[n], outcomes)
  }

  /** Lines 211-236: what one protected column contributes, its values visited in the order `vs`. */
  function ColumnFindings(emit: Trial -> seq<IndirectFinding>, p: string, vs: seq<string>, outcomes: seq<string>): seq<IndirectFinding>
  {
    FlatMap(emit, ColumnTrials(p, PairCombinations(vs), outcomes))
  }

  /** Lines 207-236: the findings of the protected columns in order, their values visited in the orders `pValues`. */
  function Collect(emit: Trial -> seq<IndirectFinding>, P: seq<string>, pValues: seq<seq<string>>, outcomes: seq<string>): seq<IndirectFinding>
    requires |P| == |pValues|
    decreases |P|
  {
    if |P| == 0 then []
    else
      var n := |P| - 1;
      Collect(emit, P[..n], pValues[..n], outcomes) + ColumnFindings(emit, P[n], pValues[n], outcomes)
  }

  /** Lines 174-238: what the indirect check reports for the given visiting orders. */
  function IndirectFindings(s: Setting, P: seq<string>, pValues: seq<seq<string>>): seq<IndirectFinding>
    requires |P| == |pValues|
  {
    Collect(EmitFor(s), P, pValues, s.outcomes)
  }

  /** The pairs of an enumeration of a column's values are pairs of observed values. */
  lemma PairsObserved(vs: seq<string>, col: seq<string>)
    requires SetOf(vs) == SetOf(col)
    ensures forall pr :: pr in PairCombinations(vs) ==> pr.0 in col && pr.1 in col
  {
    forall pr | pr in PairCombinations(vs)
      ensures pr.0 in col && pr.1 in col
    {
      PairCombinationsMembers(vs, pr.0, pr.1);
      var i, j :| 0 <= i < j < |vs| && vs[i] == pr.0 && vs[j] == pr.1;
      assert vs[i] in SetOf(vs) && vs[j] in SetOf(vs);
    }
  }

  /** The protected columns exist and each list of values enumerates what its column holds. */
  predicate Enumerates(df: Table, P: seq<string>, pValues: seq<seq<string>>)
  {
    && |P| == |pValues|
    && (forall k :: 0 <= k < |P| ==> P[k] in df.cols)
    && (forall k :: 0 <= k < |P| ==> IsEnumeration(pValues[k], SetOf(df.cols[P[k]])))
  }

  /** Enumerating the last column's values extends an enumeration of the columns before it. */
  lemma EnumeratesSnoc(df: Table, Q: seq<string>, pValues: seq<seq<string>>, values: seq<string>)
    requires |Q| == |pValues| + 1
    requires Enumerates(df, Q[..|pValues|], pValues)
    requires Q[|pValues|] in df.cols && IsEnumeration(values, SetOf(df.cols[Q[|pValues|]]))
    ensures Enumerates(df, Q, pValues + [values])
  {
    assert forall k :: 0 <= k < |pValues| ==> Q[..|pValues|][k] == Q[k] && (pValues + [values])[k] == pValues[k];
  }

  /** The last protected column appends its findings to those of the columns before it. */
  lemma CollectSnoc(emit: Trial -> seq<IndirectFinding>, Q: seq<string>, pValues: seq<seq<string>>, vs: seq<string>, outcomes: seq<string>)
    requires |Q| == |pValues| + 1
    ensures Collect(emit, Q, pValues + [vs], outcomes) == Collect(emit, Q[..|pValues|], pValues, outcomes) + ColumnFindings(emit, Q[|pValues|], vs, outcomes)
  {
    assert (pValues + [vs])[..|pValues|] == pValues;
  }

  // ---------------------------------------------------------------------------------------
  // The check

  /**
   * Lines 213-236, one comparison: the two rates, the disparity test, the contingency table and its
   * test, the exception scan; the finding, if any, that the comparison adds.
   */
  method Compare(s: Setting, t: Trial) returns (emitted: seq<IndirectFinding>)
    requires Observed(s, t)
    ensures emitted == Emit(s, t)
  {
    emitted := [];
    var v1a := Rate(s.df, t.p, t.v1, s.O, t.o);
    var v2a := Rate(s.df, t.p, t.v2, s.O, t.o);
    if Disparate(v1a, v2a, s.proportion) {
      var table := Contingency(s.df, t.p, s.O, t.v1, t.v2, s.outcomes);
      var result := s.chi2(table);
      if result.pvalue < s.minPValue {
        var candidate := IndirectFinding(Strip(t.p), (Strip(t.v1), Strip(t.v2)), Strip(s.O), Strip(t.o), RatioOf(v1a, v2a), result);
        var covered := CoveredByIndirectException(candidate, s.E);
        if !covered {
          emitted := [candidate];
        }
      }
    }
  }

  /** Lines 213-236: every comparison for one value pair, one per outcome value in visiting order. */
  method ComparePair(s: Setting, p: string, pair: (string, string)) returns (found: seq<IndirectFinding>)
    requires WellFormed(s.df) && p in s.df.cols && s.O in s.df.cols
    requires pair.0 in s.df.cols[p] && pair.1 in s.df.cols[p]
    ensures found == FlatMap(EmitFor(s), PairTrials(p, pair, s.outcomes))
  {
    found := [];
    var c := 0;
    while c < |s.outcomes|
      invariant 0 <= c <= |s.outcomes|
      invariant found == FlatMap(EmitFor(s), PairTrials(p, pair, s.outcomes[..c]))
    {
      var t := Trial(p, pair.0, pair.1, s.outcomes[c]);
      var emitted := Compare(s, t);
      PairTrialsGrow(p, pair, s.outcomes, c);
      FlatMapSnoc(EmitFor(s), PairTrials(p, pair, s.outcomes[..c]), t);
      found := found + emitted;
      c := c + 1;
    }
    assert s.outcomes[..c] == s.outcomes;
  }

  /** Lines 211-236: every comparison for one protected column's value pairs, in order. */
  method CompareColumn(s: Setting, p: string, combos: seq<(string, string)>) returns (column: seq<IndirectFinding>)
    requires WellFormed(s.df) && p in s.df.cols && s.O in s.df.cols
    requires forall pr :: pr in combos ==> pr.0 in s.df.cols[p] && pr.1 in s.df.cols[p]
    ensures column == FlatMap(EmitFor(s), ColumnTrials(p, combos, s.outcomes))
  {
    column := [];
    var b := 0;
    while b < |combos|
      invariant 0 <= b <= |combos|
      invariant column == FlatMap(EmitFor(s), ColumnTrials(p, combos[..b], s.outcomes))
    {
      var found := ComparePair(s, p, combos[b]);
      assert combos[..b + 1][..b] == combos[..b];
      FlatMapAppend(EmitFor(s), ColumnTrials(p, combos[..b], s.outcomes), PairTrials(p, combos[b], s.outcomes));
      column := column + found;
      b := b + 1;
    }
    assert combos[..b] == combos;
  }

  /**
   * Lines 174-238: the indirect discrimination check. The orders in which the outcome values and
   * each protected column's values are visited are those of Python sets, which the language leaves
   * open; they are returned alongside the findings.
   */
  method CheckIndirectDiscrimination(df: Table, P: seq<string>, O: string, E: seq<IndirectException>,
                                     proportion: real, minPValue: real, chi2: Chi2Test)
    returns (found: seq<IndirectFinding>, ghost outcomes: seq<string>, ghost pValues: seq<seq<string>>)
    requires WellFormed(df) && O in df.cols
    requires forall p :: p in P ==> p in df.cols
    ensures IsEnumeration(outcomes, SetOf(df.cols[O]))
    ensures Enumerates(df, P, pValues)
    ensures found == IndirectFindings(Setting(df, O, outcomes, E, proportion, minPValue, chi2), P, pValues)
    ensures forall f :: f in found ==> !IndirectCovered(f, E)
    ensures proportion <= 0.0 ==> found == []
  {
    var oValues := Enumerate(SetOf(df.cols[O]));
    outcomes := oValues;
    var s := Setting(df, O, oValues, E, proportion, minPValue, chi2);
    found := [];
    pValues := [];
    var a := 0;
    while a < |P|
      invariant 0 <= a <= |P|
      invariant Enumerates(df, P[..a], pValues)
      invariant found == Collect(EmitFor(s), P[..a], pValues, oValues)
    {
      var p := P[a];
      var values := Enumerate(SetOf(df.cols[p]));
      var combos := PairCombinations(values);
      PairsObserved(values, df.cols[p]);
      var column := CompareColumn(s, p, combos);
      assert P[..a + 1][..a] == P[..a];
      EnumeratesSnoc(df, P[..a + 1], pValues, values);
      CollectSnoc(EmitFor(s), P[..a + 1], pValues, values, oValues);
      found := found + column;
      pValues := pValues + [values];
      a := a + 1;
    }
    assert P[..a] == P;
    forall f | f in found
      ensures !IndirectCovered(f, E)
    {
      IndirectFindingsMembers(s, P, pValues, f);
    }
    if proportion <= 0.0 {
      NoFindingsWithoutProportion(s, P, pValues);
    }
  }

  /** Each protected column's values in ascending order. */
  ghost function SortedOrders(df: Table, P: seq<string>): (pValues: seq<seq<string>>)
    requires forall p :: p in P ==> p in df.cols
  {
    seq(|P|, k requires 0 <= k < |P| => SortedOf(SetOf(df.cols[P[k]])))
  }

  /** Ascending orders enumerate the protected columns' values. */
  lemma SortedOrdersEnumerate(df: Table, P: seq<string>)
    requires forall p :: p in P ==> p in df.cols
    ensures Enumerates(df, P, SortedOrders(df, P))
  {
    forall k | 0 <= k < |P|
      ensures IsEnumeration(SortedOrders(df, P)[k], SetOf(df.cols[P[k]]))
    {
      SortedOfSpec(SetOf(df.cols[P[k]]));
    }
  }

  /** Listing the last column's values in ascending order extends the ascending orders of the columns before it. */
  lemma SortedOrdersSnoc(df: Table, Q: seq<string>, pValues: seq<seq<string>>)
    requires |Q| == |pValues| + 1 && forall p :: p in Q ==> p in df.cols
    requires pValues == SortedOrders(df, Q[..|pValues|])
    ensures pValues + [SortedOf(SetOf(df.cols[Q[|pValues|]]))] == SortedOrders(df, Q)
  {
  }

  /** What the indirect check reports when every set is visited in ascending order. */
  ghost function SortedFindings(df: Table, P: seq<string>, O: string, E: seq<IndirectException>,
                                proportion: real, minPValue: real, chi2: Chi2Test): seq<IndirectFinding>
    requires O in df.cols && forall p :: p in P ==> p in df.cols
  {
    IndirectFindings(Setting(df, O, SortedOf(SetOf(df.cols[O])), E, proportion, minPValue, chi2), P, SortedOrders(df, P))
  }

  /**
   * Lines 174-238 with `sorted(set(...))` in place of `list(set(...))` at lines 203 and 210: the
   * same comparisons, visited in an order fixed by the data alone.
   */
  method CheckIndirectDiscriminationSorted(df: Table, P: seq<string>, O: string, E: seq<IndirectException>,
                                           proportion: real, minPValue: real, chi2: Chi2Test)
    returns (found: seq<IndirectFinding>)
    requires WellFormed(df) && O in df.cols
    requires forall p :: p in P ==> p in df.cols
    ensures found == SortedFindings(df, P, O, E, proportion, minPValue, chi2)
    ensures forall f :: f in found ==> !IndirectCovered(f, E)
    ensures proportion <= 0.0 ==> found == []
  {
    var oValues := SortedEnumerate(SetOf(df.cols[O]));
    var s := Setting(df, O, oValues, E, proportion, minPValue, chi2);
    found := [];
    ghost var pValues := [];
    var a := 0;
    while a < |P|
      invariant 0 <= a <= |P|
      invariant Enumerates(df, P[..a], pValues)
      invariant pValues == SortedOrders(df, P[..a])
      invariant found == Collect(EmitFor(s), P[..a], pValues, oValues)
    {
      var p := P[a];
      var values := SortedEnumerate(SetOf(df.cols[p]));
      var combos := PairCombinations(values);
      PairsObserved(values, df.cols[p]);
      var column := CompareColumn(s, p, combos);
      assert P[..a + 1][..a] == P[..a];
      EnumeratesSnoc(df, P[..a + 1], pValues, values);
      CollectSnoc(EmitFor(s), P[..a + 1], pValues, values, oValues);
      SortedOrdersSnoc(df, P[..a + 1], pValues);
      found := found + column;
      pValues := pValues + [values];
      a := a + 1;
    }
    assert P[..a] == P;
    forall f | f in found
      ensures !IndirectCovered(f, E)
    {
      IndirectFindingsMembers(s, P, pValues, f);
    }
    if proportion <= 0.0 {
      NoFindingsWithoutProportion(s, P, pValues);
    }
  }

  // ---------------------------------------------------------------------------------------
  // Properties

  /** The comparisons for one column are those of each listed pair with each outcome value. */
  lemma {:induction false} ColumnTrialsMembers(p: string, pairs: seq<(string, string)>, outcomes: seq<string>, t: Trial)
    ensures t in ColumnTrials(p, pairs, outcomes) <==> t.p == p && (t.v1, t.v2) in pairs && t.o in outcomes
    decreases |pairs|
  {
    if |pairs| > 0 {
      var n := |pairs| - 1;
      ColumnTrialsMembers(p, pairs[..n], outcomes, t);
      var front := ColumnTrials(p, pairs[..n], outcomes);
      var last := PairTrials(p, pairs[n], outcomes);
      if t.p == p && (t.v1, t.v2) in pairs && t.o in outcomes {
        var i :| 0 <= i < |pairs| && pairs[i] == (t.v1, t.v2);
        var j :| 0 <= j < |outcomes| && outcomes[j] == t.o;
        if i < n {
          assert pairs[..n][i] == pairs[i];
        } else {
          assert last[j] == t;
        }
      }
      if t in front + last {
        if t in last {
          var j :| 0 <= j < |last| && last[j] == t;
          assert t.o == outcomes[j] && (t.v1, t.v2) == pairs[n];
        } else {
          assert t in front;
          var pr := (t.v1, t.v2);
          assert pr in pairs[..n];
          var i :| 0 <= i < n && pairs[..n][i] == pr;
          assert pairs[i] == pr;
        }
      }
    }
  }

  /** Distinct pairs and distinct outcome values give distinct comparisons, one per pair and outcome value. */
  lemma {:induction false} ColumnTrialsDistinct(p: string, pairs: seq<(string, string)>, outcomes: seq<string>)
    requires NoDuplicates(pairs) && NoDuplicates(outcomes)
    ensures NoDuplicates(ColumnTrials(p, pairs, outcomes))
    ensures |ColumnTrials(p, pairs, outcomes)| == |pairs| * |outcomes|
    decreases |pairs|
  {
    if |pairs| > 0 {
      var n := |pairs| - 1;
      var init := pairs[..n];
      assert forall i :: 0 <= i < n ==> init[i] == pairs[i];
      ColumnTrialsDistinct(p, init, outcomes);
      var front := ColumnTrials(p, init, outcomes);
      var last := PairTrials(p, pairs[n], outcomes);
      var all := front + last;
      assert |all| == n * |outcomes| + |outcomes| == |pairs| * |outcomes|;
      forall i, j | 0 <= i < j < |all|
        ensures all[i] != all[j]
      {
        if |front| <= i {
          assert all[i].o == outcomes[i - |front|] && all[j].o == outcomes[j - |front|];
        } else if |front| <= j {
          assert all[i] in front;
          ColumnTrialsMembers(p, init, outcomes, all[i]);
          assert all[j] == last[j - |front|];
        }
      }
    }
  }

  /**
   * Lines 203, 210-215: the check compares each of a column's value pairs with each outcome value
   * exactly once: C(m, 2) * |outcomes| comparisons, none repeated, for a column of m distinct values.
   */
  lemma ComparisonsOnce(df: Table, P: seq<string>, pValues: seq<seq<string>>, outcomes: seq<string>, k: int)
    requires Enumerates(df, P, pValues) && 0 <= k < |P|
    requires NoDuplicates(outcomes)
    ensures NoDuplicates(ColumnTrials(P[k], PairCombinations(pValues[k]), outcomes))
    ensures 2 * |ColumnTrials(P[k], PairCombinations(pValues[k]), outcomes)| == |pValues[k]| * (|pValues[k]| - 1) * |outcomes|
  {
    var vs := pValues[k];
    PairCombinationsDistinct(vs);
    ColumnTrialsDistinct(P[k], PairCombinations(vs), outcomes);
    BinomialTwo(|vs|);
    calc {
      2 * |ColumnTrials(P[k], PairCombinations(vs), outcomes)|;
      2 * (Binomial(|vs|, 2) * |outcomes|);
      (2 * Binomial(|vs|, 2)) * |outcomes|;
    }
  }

  /** The comparison is one the check makes: a listed protected column, one of its value pairs, an outcome value. */
  predicate Examined(P: seq<string>, pValues: seq<seq<string>>, outcomes: seq<string>, t: Trial)
    requires |P| == |pValues|
  {
    exists k :: 0 <= k < |P| && t.p == P[k] && (t.v1, t.v2) in PairCombinations(pValues[k]) && t.o in outcomes
  }

  /** A column's findings are exactly the ones its comparisons add. */
  lemma ColumnFindingsFrom(emit: Trial -> seq<IndirectFinding>, p: string, vs: seq<string>, outcomes: seq<string>, f: IndirectFinding)
    ensures f in ColumnFindings(emit, p, vs, outcomes) <==>
      exists t: Trial :: t.p == p && (t.v1, t.v2) in PairCombinations(vs) && t.o in outcomes && f in emit(t)
  {
    var ts := ColumnTrials(p, PairCombinations(vs), outcomes);
    FlatMapMembers(emit, ts, f);
    if f in ColumnFindings(emit, p, vs, outcomes) {
      var i :| 0 <= i < |ts| && f in emit(ts[i]);
      ColumnTrialsMembers(p, PairCombinations(vs), outcomes, ts[i]);
    }
    if exists t: Trial :: t.p == p && (t.v1, t.v2) in PairCombinations(vs) && t.o in outcomes && f in emit(t) {
      var t: Trial :| t.p == p && (t.v1, t.v2) in PairCombinations(vs) && t.o in outcomes && f in emit(t);
      ColumnTrialsMembers(p, PairCombinations(vs), outcomes, t);
      var i :| 0 <= i < |ts| && ts[i] == t;
    }
  }

  /** Every finding comes from a comparison the check makes. */
  lemma {:induction false} CollectSound(emit: Trial -> seq<IndirectFinding>, P: seq<string>, pValues: seq<seq<string>>, outcomes: seq<string>, f: IndirectFinding)
      returns (t: Trial)
    requires |P| == |pValues|
    requires f in Collect(emit, P, pValues, outcomes)
    ensures Examined(P, pValues, outcomes, t) && f in emit(t)
    decreases |P|
  {
    var n := |P| - 1;
    var k;
    if f in Collect(emit, P[..n], pValues[..n], outcomes) {
      t := CollectSound(emit, P[..n], pValues[..n], outcomes, f);
      k :| 0 <= k < n && t.p == P[..n][k] && (t.v1, t.v2) in PairCombinations(pValues[..n][k]) && t.o in outcomes;
      assert P[..n][k] == P[k] && pValues[..n][k] == pValues[k];
    } else {
      ColumnFindingsFrom(emit, P[n], pValues[n], outcomes, f);
      t :| t.p == P[n] && (t.v1, t.v2) in PairCombinations(pValues[n]) && t.o in outcomes && f in emit(t);
      k := n;
    }
    assert 0 <= k < |P| && t.p == P[k] && (t.v1, t.v2) in PairCombinations(pValues[k]) && t.o in outcomes;
  }

  /** Every finding a comparison of the check adds is in the result. */
  lemma {:induction false} CollectComplete(emit: Trial -> seq<IndirectFinding>, P: seq<string>, pValues: seq<seq<string>>, outcomes: seq<string>, t: Trial, f: IndirectFinding)
    requires |P| == |pValues|
    requires Examined(P, pValues, outcomes, t) && f in emit(t)
    ensures f in Collect(emit, P, pValues, outcomes)
    decreases |P|
  {
    var n := |P| - 1;
    var k :| 0 <= k < |P| && t.p == P[k] && (t.v1, t.v2) in PairCombinations(pValues[k]) && t.o in outcomes;
    if k < n {
      assert P[..n][k] == P[k] && pValues[..n][k] == pValues[k];
      assert Examined(P[..n], pValues[..n], outcomes, t);
      CollectComplete(emit, P[..n], pValues[..n], outcomes, t, f);
    } else {
      ColumnFindingsFrom(emit, P[n], pValues[n], outcomes, f);
    }
  }

  /** The reported findings are exactly the ones the comparisons the check makes add. */
  lemma IndirectFindingsFrom(s: Setting, P: seq<string>, pValues: seq<seq<string>>, f: IndirectFinding)
    requires |P| == |pValues|
    ensures f in IndirectFindings(s, P, pValues) <==> exists t: Trial :: Examined(P, pValues, s.outcomes, t) && f in Emit(s, t)
  {
    assert forall t: Trial :: EmitFor(s)(t) == Emit(s, t);
    if f in IndirectFindings(s, P, pValues) {
      var t := CollectSound(EmitFor(s), P, pValues, s.outcomes, f);
    }
    if exists t: Trial :: Examined(P, pValues, s.outcomes, t) && f in Emit(s, t) {
      var t: Trial :| Examined(P, pValues, s.outcomes, t) && f in Emit(s, t);
      CollectComplete(EmitFor(s), P, pValues, s.outcomes, t, f);
    }
  }

  /** Lines 203, 210-215: every comparison the check makes is about observed values, so both rates are defined. */
  lemma ExaminedObserved(s: Setting, P: seq<string>, pValues: seq<seq<string>>, t: Trial)
    requires WellFormed(s.df) && s.O in s.df.cols
    requires Enumerates(s.df, P, pValues)
    requires Examined(P, pValues, s.outcomes, t)
    ensures Observed(s, t)
  {
    var k :| 0 <= k < |P| && t.p == P[k] && (t.v1, t.v2) in PairCombinations(pValues[k]) && t.o in s.outcomes;
    PairsObserved(pValues[k], s.df.cols[P[k]]);
  }

  /**
   * Lines 165-171, 216, 226-236: a finding is reported exactly when some comparison the check makes
   * passes the disparity test and the significance gate, gives that finding, and no exception covers it.
   */
  lemma IndirectFindingsMembers(s: Setting, P: seq<string>, pValues: seq<seq<string>>, f: IndirectFinding)
    requires WellFormed(s.df) && s.O in s.df.cols
    requires Enumerates(s.df, P, pValues)
    ensures f in IndirectFindings(s, P, pValues) <==>
      !IndirectCovered(f, s.E) && exists t: Trial :: Examined(P, pValues, s.outcomes, t) && Observed(s, t) && Flags(s, t) && f == FindingOf(s, t)
  {
    IndirectFindingsFrom(s, P, pValues, f);
    if exists t: Trial :: Examined(P, pValues, s.outcomes, t) && Observed(s, t) && Flags(s, t) && f == FindingOf(s, t) {
      var t: Trial :| Examined(P, pValues, s.outcomes, t) && Observed(s, t) && Flags(s, t) && f == FindingOf(s, t);
      if !IndirectCovered(f, s.E) {
        assert f in Emit(s, t);
      }
    }
  }

  /**
   * Lines 210-213: in an enumeration of a column's values, each unordered pair of distinct values
   * appears in exactly one order, each ordered pair at most once, and no value is paired with itself.
   */
  lemma PairExaminedOnce(df: Table, P: seq<string>, pValues: seq<seq<string>>, k: int, x: string, y: string)
    requires Enumerates(df, P, pValues) && 0 <= k < |P|
    requires x in df.cols[P[k]] && y in df.cols[P[k]] && x != y
    ensures ((x, y) in PairCombinations(pValues[k])) != ((y, x) in PairCombinations(pValues[k]))
    ensures NoDuplicates(PairCombinations(pValues[k]))
    ensures (x, x) !in PairCombinations(pValues[k])
  {
    var vs := pValues[k];
    assert x in SetOf(df.cols[P[k]]) && y in SetOf(df.cols[P[k]]);
    assert x in vs && y in vs;
    PairCombinationsOnce(vs, x, y);
    if (x, x) in PairCombinations(vs) {
      PairCombinationsDistinctMembers(vs, x, x);
    }
  }

  /**
   * Lines 210-211, 229: a finding names its two values in the order in which they were visited,
   * the earlier one first.
   */
  lemma FindingPairInOrder(s: Setting, P: seq<string>, pValues: seq<seq<string>>, f: IndirectFinding)
    requires |P| == |pValues|
    requires f in IndirectFindings(s, P, pValues)
    ensures exists k, i, j :: 0 <= k < |P| && 0 <= i < j < |pValues[k]| && f.Pv == (Strip(pValues[k][i]), Strip(pValues[k][j]))
  {
    IndirectFindingsFrom(s, P, pValues, f);
    var t: Trial :| Examined(P, pValues, s.outcomes, t) && f in Emit(s, t);
    var k :| 0 <= k < |P| && t.p == P[k] && (t.v1, t.v2) in PairCombinations(pValues[k]) && t.o in s.outcomes;
    PairCombinationsMembers(pValues[k], t.v1, t.v2);
    var i, j :| 0 <= i < j < |pValues[k]| && pValues[k][i] == t.v1 && pValues[k][j] == t.v2;
    assert f == FindingOf(s, t);
  }

  /** With non-negative rates, a proportion of zero or less never shows a disparity. */
  lemma NoDisparityWithoutProportion(v1a: real, v2a: real, proportion: real)
    requires 0.0 <= v1a && 0.0 <= v2a && proportion <= 0.0
    ensures !Disparate(v1a, v2a, proportion)
  {
    assert v1a * proportion <= 0.0;
  }

  /** Line 216: with `ID_proportion <= 0` the indirect check reports nothing. */
  lemma NoFindingsWithoutProportion(s: Setting, P: seq<string>, pValues: seq<seq<string>>)
    requires WellFormed(s.df) && s.O in s.df.cols
    requires Enumerates(s.df, P, pValues)
    requires s.proportion <= 0.0
    ensures IndirectFindings(s, P, pValues) == []
  {
    var fs := IndirectFindings(s, P, pValues);
    if |fs| > 0 {
      IndirectFindingsMembers(s, P, pValues, fs[0]);
      var t: Trial :| Examined(P, pValues, s.outcomes, t) && Observed(s, t) && Flags(s, t) && fs[0] == FindingOf(s, t);
      NoDisparityWithoutProportion(Rate(s.df, t.p, t.v1, s.O, t.o), Rate(s.df, t.p, t.v2, s.O, t.o), s.proportion);
    }
  }

  /** A disparity under a proportion in (0, 1] means the first rate is strictly greater than the second. */
  lemma DisparityOrdersRates(v1a: real, v2a: real, proportion: real)
    requires 0.0 <= v1a && 0.0 <= v2a && 0.0 < proportion <= 1.0
    requires Disparate(v1a, v2a, proportion)
    ensures v1a > v2a
    ensures RatioOf(v1a, v2a).Finite? ==> RatioOf(v1a, v2a).value > 1.0
  {
    assert v1a * proportion <= v1a;
    if v2a != 0.0 {
      var r := RatioOf(v1a, v2a).value;
      assert r * v2a == v1a;
      assert r * v2a > 1.0 * v2a;
    }
  }

  /** Lines 216, 232: with 0 < `ID_proportion` <= 1, every reported finite ratio is greater than 1. */
  lemma FindingRatioAboveOne(s: Setting, P: seq<string>, pValues: seq<seq<string>>, f: IndirectFinding)
    requires WellFormed(s.df) && s.O in s.df.cols
    requires Enumerates(s.df, P, pValues)
    requires 0.0 < s.proportion <= 1.0
    requires f in IndirectFindings(s, P, pValues)
    ensures f.ratio.Finite? ==> f.ratio.value > 1.0
  {
    IndirectFindingsMembers(s, P, pValues, f);
    var t: Trial :| Examined(P, pValues, s.outcomes, t) && Observed(s, t) && Flags(s, t) && f == FindingOf(s, t);
    DisparityOrdersRates(Rate(s.df, t.p, t.v1, s.O, t.o), Rate(s.df, t.p, t.v2, s.O, t.o), s.proportion);
  }

  /**
   * Line 216: with 0 < `ID_proportion` <= 1 the disparity test passes in at most one direction for
   * a pair and an outcome value, so a pair reported as (b, a) never shares its outcome value with
   * the same pair reported as (a, b).
   */
  lemma OneDirectionPerOutcome(s: Setting, p: string, a: string, b: string, o: string)
    requires Observed(s, Trial(p, a, b, o))
    requires 0.0 < s.proportion <= 1.0
    ensures !(Flags(s, Trial(p, a, b, o)) && Flags(s, Trial(p, b, a, o)))
  {
    var ra, rb := Rate(s.df, p, a, s.O, o), Rate(s.df, p, b, s.O, o);
    if Disparate(ra, rb, s.proportion) && Disparate(rb, ra, s.proportion) {
      DisparityOrdersRates(ra, rb, s.proportion);
      DisparityOrdersRates(rb, ra, s.proportion);
    }
  }

  /** The exceptions that would accept the given findings, one per finding. */
  function AsExceptions(fs: seq<IndirectFinding>): (ex: seq<IndirectException>)
    ensures |ex| == |fs|
    ensures forall i :: 0 <= i < |fs| ==> IndirectCovered(fs[i], ex)
  {
    var ex := seq(|fs|, i requires 0 <= i < |fs| => IndirectException(fs[i].P, fs[i].Pv, fs[i].O, fs[i].Ov));
    assert forall i :: 0 <= i < |fs| ==> ex[i] in ex && ex[i].P == fs[i].P && ex[i].Pv == fs[i].Pv && ex[i].O == fs[i].O && ex[i].Ov == fs[i].Ov;
    ex
  }

  /**
   * Accepting every reported disparity as an exception silences the check when it is run again with
   * the same visiting orders.
   */
  lemma IndirectRerunSilenced(s: Setting, P: seq<string>, pValues: seq<seq<string>>)
    requires |P| == |pValues|
    ensures IndirectFindings(s.(E := s.E + AsExceptions(IndirectFindings(s, P, pValues))), P, pValues) == []
  {
    var fs := IndirectFindings(s, P, pValues);
    var s2 := s.(E := s.E + AsExceptions(fs));
    var gs := IndirectFindings(s2, P, pValues);
    if |gs| > 0 {
      var g := gs[0];
      IndirectFindingsFrom(s2, P, pValues, g);
      var t: Trial :| Examined(P, pValues, s2.outcomes, t) && g in Emit(s2, t);
      assert !IndirectCovered(g, s2.E);
      assert g in Emit(s, t);
      IndirectFindingsFrom(s, P, pValues, g);
    }
  }

  /**
   * With sets visited in ascending order, accepting every reported disparity as an exception
   * silences the check on every later run over the same data.
   */
  lemma SortedRerunSilenced(df: Table, P: seq<string>, O: string, E: seq<IndirectException>,
                            proportion: real, minPValue: real, chi2: Chi2Test)
    requires O in df.cols && forall p :: p in P ==> p in df.cols
    ensures var first := SortedFindings(df, P, O, E, proportion, minPValue, chi2);
      SortedFindings(df, P, O, E + AsExceptions(first), proportion, minPValue, chi2) == []
  {
    var s := Setting(df, O, SortedOf(SetOf(df.cols[O])), E, proportion, minPValue, chi2);
    IndirectRerunSilenced(s, P, SortedOrders(df, P));
  }

  /** `n` rows holding `v`. */
  function Rows(n: nat, v: string): seq<string>
  {
    seq(n, _ => v)
  }

  /** A block of rows holding `v` has `n` rows equal to `w` when `w` is `v`, and none otherwise. */
  lemma {:induction false} CountRows(n: nat, v: string, w: string)
    ensures Count(Rows(n, v), w) == if v == w then n else 0
  {
    if n > 0 {
      CountRows(n - 1, v, w);
      assert Rows(n, v)[1..] == Rows(n - 1, v);
    }
  }

  /** Aligned blocks holding `v` and `a` have `n` rows equal to (`w`, `b`) when both match, and none otherwise. */
  lemma {:induction false} CountBothRows(n: nat, v: string, a: string, w: string, b: string)
    ensures CountBoth(Rows(n, v), Rows(n, a), w, b) == if v == w && a == b then n else 0
  {
    if n > 0 {
      CountBothRows(n - 1, v, a, w, b);
      assert Rows(n, v)[1..] == Rows(n - 1, v) && Rows(n, a)[1..] == Rows(n - 1, a);
    }
  }

  /** A 20-row sample: ten rows with p = M and O = yes, then ten rows with p = F and O = no. */
  function SampleTable(): Table
  {
    Table(20, map["p" := Rows(10, "M") + Rows(10, "F"), "O" := Rows(10, "yes") + Rows(10, "no")])
  }

  /**
   * The sample checked with outcome column O, proportion 0.8 and threshold 0.05. The test answers
   * with what `chi2_contingency`, Yates' correction included, gives for the 2x2 table of counts of
   * either comparison here, [[10, 0], [0, 10]]: chi-squared 16.2, p-value about 0.000057.
   */
  function SampleSetting(outcomes: seq<string>, E: seq<IndirectException>): Setting
  {
    Setting(SampleTable(), "O", outcomes, E, 0.8, 0.05, table => Chi2Result(16.2, 0.000057, 1))
  }

  /** The sample is a well-formed table and both [M, F] and [F, M] enumerate column p. */
  lemma SampleShape()
    ensures WellFormed(SampleTable()) && "p" in SampleTable().cols && "O" in SampleTable().cols
    ensures Enumerates(SampleTable(), ["p"], [["M", "F"]]) && Enumerates(SampleTable(), ["p"], [["F", "M"]])
  {
    var col := Rows(10, "M") + Rows(10, "F");
    assert col[0] == "M" && col[10] == "F";
    assert forall k :: 0 <= k < |col| ==> col[k] == if k < 10 then "M" else "F";
    assert SetOf(col) == {"M", "F"};
    assert SetOf(["F", "M"]) == SetOf(["M", "F"]) == {"M", "F"};
  }

  /** In the sample, M has outcome yes and F has outcome no. */
  lemma SampleRates()
    requires WellFormed(SampleTable()) && "p" in SampleTable().cols && "O" in SampleTable().cols
    requires "M" in SampleTable().cols["p"] && "F" in SampleTable().cols["p"]
    ensures Rate(SampleTable(), "p", "M", "O", "yes") == 1.0 && Rate(SampleTable(), "p", "F", "O", "yes") == 0.0
    ensures Rate(SampleTable(), "p", "F", "O", "no") == 1.0 && Rate(SampleTable(), "p", "M", "O", "no") == 0.0
  {
    BlockCounts(10);
  }

  /** `n` rows of (M, yes) over `n` rows of (F, no): each value of p has `n` rows, all with its own outcome. */
  lemma BlockCounts(n: nat)
    ensures var ps, os := Rows(n, "M") + Rows(n, "F"), Rows(n, "yes") + Rows(n, "no");
      && Count(ps, "M") == n && Count(ps, "F") == n
      && CountBoth(ps, os, "M", "yes") == n && CountBoth(ps, os, "F", "yes") == 0
      && CountBoth(ps, os, "F", "no") == n && CountBoth(ps, os, "M", "no") == 0
  {
    var m, f, y, o := Rows(n, "M"), Rows(n, "F"), Rows(n, "yes"), Rows(n, "no");
    CountAppend(m, f, "M");
    CountAppend(m, f, "F");
    CountRows(n, "M", "M");
    CountRows(n, "F", "M");
    CountRows(n, "M", "F");
    CountRows(n, "F", "F");
    CountBothAppend(m, y, f, o, "M", "yes");
    CountBothAppend(m, y, f, o, "F", "yes");
    CountBothAppend(m, y, f, o, "F", "no");
    CountBothAppend(m, y, f, o, "M", "no");
    CountBothRows(n, "M", "yes", "M", "yes");
    CountBothRows(n, "F", "no", "M", "yes");
    CountBothRows(n, "M", "yes", "F", "yes");
    CountBothRows(n, "F", "no", "F", "yes");
    CountBothRows(n, "M", "yes", "F", "no");
    CountBothRows(n, "F", "no", "F", "no");
    CountBothRows(n, "M", "yes", "M", "no");
    CountBothRows(n, "F", "no", "M", "no");
  }

  /** On the sample, M against F for outcome yes and F against M for outcome no pass both tests. */
  lemma SampleFlags(E: seq<IndirectException>)
    ensures Observed(SampleSetting(["yes", "no"], E), Trial("p", "M", "F", "yes"))
    ensures Observed(SampleSetting(["yes", "no"], E), Trial("p", "F", "M", "no"))
    ensures Flags(SampleSetting(["yes", "no"], E), Trial("p", "M", "F", "yes"))
    ensures Flags(SampleSetting(["yes", "no"], E), Trial("p", "F", "M", "no"))
  {
    SampleShape();
    assert SampleTable().cols["p"][0] == "M" && SampleTable().cols["p"][10] == "F";
    SampleRates();
  }

  /** A run over the sample that visits M before F can only name the pair (M, F). */
  lemma SamplePairsInOrder(outcomes: seq<string>, E: seq<IndirectException>, f: IndirectFinding)
    requires f in IndirectFindings(SampleSetting(outcomes, E), ["p"], [["M", "F"]])
    ensures f.Pv == ("M", "F")
  {
    var P, pValues := ["p"], [["M", "F"]];
    FindingPairInOrder(SampleSetting(outcomes, E), P, pValues, f);
    var k, i, j :| 0 <= k < |P| && 0 <= i < j < |pValues[k]| && f.Pv == (Strip(pValues[k][i]), Strip(pValues[k][j]));
    SampleStrip();
  }

  /** The sample's values have no surrounding white space. */
  lemma SampleStrip()
    ensures Strip("M") == "M" && Strip("F") == "F"
  {
    assert !IsSpace('M') && !IsSpace('F');
  }

  /** Visiting M before F, the sample shows a disparity between M and F for outcome yes. */
  lemma SampleFirstRun()
    ensures IndirectFindings(SampleSetting(["yes", "no"], []), ["p"], [["M", "F"]]) != []
  {
    var s := SampleSetting(["yes", "no"], []);
    var mf := ["M", "F"];
    SampleShape();
    SampleFlags([]);
    var t := Trial("p", "M", "F", "yes");
    PairCombinationsMembers(mf, "M", "F");
    assert mf[0] == "M" && mf[1] == "F";
    assert ("M", "F") in PairCombinations([mf][0]) && s.outcomes[0] == "yes";
    assert Examined(["p"], [mf], s.outcomes, t);
    assert !IndirectCovered(FindingOf(s, t), s.E);
    IndirectFindingsMembers(s, ["p"], [mf], FindingOf(s, t));
  }

  /** Visiting F before M, the sample shows a disparity between F and M for outcome no, which no exception for (M, F) covers. */
  lemma SampleSecondRun(E: seq<IndirectException>)
    requires forall e :: e in E ==> e.Pv == ("M", "F")
    ensures IndirectFindings(SampleSetting(["yes", "no"], E), ["p"], [["F", "M"]]) != []
  {
    var s := SampleSetting(["yes", "no"], E);
    var fm := ["F", "M"];
    SampleShape();
    SampleFlags(E);
    SampleStrip();
    var t := Trial("p", "F", "M", "no");
    PairCombinationsMembers(fm, "F", "M");
    assert fm[0] == "F" && fm[1] == "M";
    assert ("F", "M") in PairCombinations([fm][0]) && s.outcomes[1] == "no";
    assert Examined(["p"], [fm], s.outcomes, t);
    assert FindingOf(s, t).Pv == ("F", "M");
    assert !IndirectCovered(FindingOf(s, t), E);
    IndirectFindingsMembers(s, ["p"], [fm], FindingOf(s, t));
  }

  /**
   * Lines 203, 210-211, 216: each pair of values is tested in one direction only, the order in
   * which the values were visited, and that order is the iteration order of a Python set, which may
   * differ from one run to the next. The visiting order therefore decides whether one imbalance is
   * reported as (M, F) for one outcome value or as (F, M) for the other, and an exception accepted
   * from one run does not cover what the other reports. On the 20-row sample, with the test answering p of about 0.000057 as `chi2_contingency`
   * does for its tables, the run that visits M before F reports (M, F) for outcome yes; with that
   * finding accepted, a run that visits F before M still reports (F, M) for outcome no.
   */
  lemma ReversedOrderNotSilenced()
    ensures var first := IndirectFindings(SampleSetting(["yes", "no"], []), ["p"], [["M", "F"]]);
      && first != []
      && IndirectFindings(SampleSetting(["yes", "no"], AsExceptions(first)), ["p"], [["F", "M"]]) != []
  {
    var first := IndirectFindings(SampleSetting(["yes", "no"], []), ["p"], [["M", "F"]]);
    SampleFirstRun();
    var ex := AsExceptions(first);
    forall e | e in ex
      ensures e.Pv == ("M", "F")
    {
      var i :| 0 <= i < |ex| && ex[i] == e;
      SamplePairsInOrder(["yes", "no"], [], first[i]);
    }
    SampleSecondRun(ex);
  }
}
