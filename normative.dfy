/**
 * The orchestrating object: it holds the dataset, the configuration, the exceptions and the
 * thresholds, and its `Run` checks the configuration and then applies the three checks in order.
 */
module Normative {
  import opened Wrappers
  import opened Seqs
  import opened Tables
  import opened Explicit
  import opened Implicit
  import opened Indirect
  import opened Order

  /** `CONFIG`: input columns, protected columns, protected columns not used, and the outcome column. */
  datatype Config = Config(I: seq<string>, P: seq<string>, PNU: seq<string>, O: string)

  /** `EXCEPTIONS`: the accepted cases of each kind of discrimination. */
  datatype Exceptions = Exceptions(explicit: seq<string>, implicit: seq<ImplicitException>, indirect: seq<IndirectException>)

  /** The three `ValueError`s `Run` raises (lines 258, 260, 262); the last one names the required columns. */
  datatype ConfigError = DuplicatedColumns | RepeatedColumns | ColumnMismatch(required: seq<string>)

  /** The dictionary `Run` returns: explicit, implicit and indirect violations. */
  datatype Report = Report(Ve: set<string>, Vi: seq<ImplicitFinding>, Vd: seq<IndirectFinding>)

  /** Line 255: the columns a run needs, `I + P + [O]`. */
  function RequiredColumns(c: Config): seq<string>
  {
    c.I + c.P + [c.O]
  }

  /** Lines 256-262: the configuration checks, in the order the source makes them. */
  function Validate(c: Config, columns: set<string>): Option<ConfigError>
  {
    if HasRepeats(c.I) || HasRepeats(c.P) then Some(DuplicatedColumns)
    else if HasRepeats(RequiredColumns(c)) then Some(RepeatedColumns)
    else if !(SetOf(RequiredColumns(c)) <= columns) then Some(ColumnMismatch(RequiredColumns(c)))
    else None
  }

  /**
   * A configuration passes exactly when no column is named twice across `I`, `P` and `O` and every
   * one of them is a column of the dataset; it then gives each column one role.
   */
  lemma ValidateAccepts(c: Config, columns: set<string>)
    ensures Validate(c, columns) == None <==> NoDuplicates(RequiredColumns(c)) && SetOf(RequiredColumns(c)) <= columns
    ensures Validate(c, columns) == None ==>
      && NoDuplicates(c.I) && NoDuplicates(c.P)
      && (forall x :: x in c.I ==> x !in c.P && x != c.O)
      && c.O !in c.P
      && (forall x :: x in c.I || x in c.P || x == c.O ==> x in columns)
  {
    var req := RequiredColumns(c);
    HasRepeatsIff(c.I);
    HasRepeatsIff(c.P);
    HasRepeatsIff(req);
    if NoDuplicates(req) {
      NoDuplicatesOfPart(c.I + c.P, [c.O]);
      NoDuplicatesOfPart(c.I, c.P);
      assert forall x :: x in c.I ==> x in c.I + c.P;
      assert forall x :: x in c.P ==> x in c.I + c.P;
    }
    assert forall x :: x in c.I || x in c.P || x == c.O ==> x in req;
    assert forall x :: x in req ==> x in SetOf(req);
  }

  /** Lines 16-39 and 241-295: the object and its run. */
  class NormativeApproachDiscrimination {
    var df: Table
    var config: Config
    var exceptions: Exceptions
    var minCorr: real
    var maxComboSize: Option<int>
    var minProportion: real
    var minPValue: real
    var nmi: Scorer
    var chi2: Chi2Test

    /** The loaded dataset has columns of one height. */
    ghost predicate Valid()
      reads this
    {
      WellFormed(df)
    }

    /**
     * Lines 17-39: the dataset and the configuration module's values, taken as already loaded,
     * are stored in the object's fields.
     */
    constructor (df: Table, config: Config, exceptions: Exceptions, minCorr: real, maxComboSize: Option<int>,
                 minProportion: real, minPValue: real, nmi: Scorer, chi2: Chi2Test)
      requires WellFormed(df)
      ensures Valid()
      ensures this.df == df && this.config == config && this.exceptions == exceptions
      ensures this.minCorr == minCorr && this.maxComboSize == maxComboSize
      ensures this.minProportion == minProportion && this.minPValue == minPValue
      ensures this.nmi == nmi && this.chi2 == chi2
    {
      this.df := df;
      this.config := config;
      this.exceptions := exceptions;
      this.minCorr := minCorr;
      this.maxComboSize := maxComboSize;
      this.minProportion := minProportion;
      this.minPValue := minPValue;
      this.nmi := nmi;
      this.chi2 := chi2;
    }

    /**
     * Lines 241-295: fails with the first configuration error, before any check runs; otherwise
     * reports the explicit, implicit and indirect violations, in that order. The indirect check
     * visits the values of each set in ascending order; those orders are returned alongside.
     */
    method Run() returns (res: Result<Report, ConfigError>, ghost outcomes: seq<string>, ghost pValues: seq<seq<string>>)
      requires Valid()
      ensures Validate(config, df.cols.Keys).Some? ==> res == Failure(Validate(config, df.cols.Keys).value)
      ensures Validate(config, df.cols.Keys).None? ==>
        && IsEnumeration(outcomes, SetOf(df.cols[config.O]))
        && Enumerates(df, config.P, pValues)
        && outcomes == SortedOf(SetOf(df.cols[config.O]))
        && pValues == SortedOrders(df, config.P)
        && res == Success(Report(
             CheckExplicitDiscrimination(config.P, exceptions.explicit),
             ImplicitFindings(df, config.I, config.P, exceptions.implicit, minCorr, maxComboSize, nmi),
             IndirectFindings(Setting(df, config.O, outcomes, exceptions.indirect, minProportion, minPValue, chi2), config.P, pValues)))
    {
      outcomes, pValues := [], [];
      var required := config.I + config.P + [config.O];
      if |SetOf(config.I)| != |config.I| || |SetOf(config.P)| != |config.P| {
        return Failure(DuplicatedColumns), outcomes, pValues;
      }
      if |SetOf(required)| != |required| {
        return Failure(RepeatedColumns), outcomes, pValues;
      }
      if !(SetOf(required) <= df.cols.Keys) {
        return Failure(ColumnMismatch(required)), outcomes, pValues;
      }
      ValidateAccepts(config, df.cols.Keys);
      var ve := CheckExplicitDiscrimination(config.P, exceptions.explicit);
      var vi := CheckImplicitDiscrimination(df, config.I, config.P, exceptions.implicit, minCorr, maxComboSize, nmi);
      var vd := CheckIndirectDiscriminationSorted(df, config.P, config.O, exceptions.indirect, minProportion, minPValue, chi2);
      outcomes, pValues := SortedOf(SetOf(df.cols[config.O])), SortedOrders(df, config.P);
      SortedOfSpec(SetOf(df.cols[config.O]));
      SortedOrdersEnumerate(df, config.P);
      res := Success(Report(ve, vi, vd));
    }
  }
}
