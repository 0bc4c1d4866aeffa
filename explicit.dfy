/** Explicit discrimination: protected columns that are not declared as accepted exceptions. */
module Explicit {
  import opened Seqs

  /**
   * `list(set(P) - set(E))`. The order of that list is the iteration order of a Python set,
   * which the language leaves unspecified, so the findings are given as a set.
   */
  function CheckExplicitDiscrimination(P: seq<string>, E: seq<string>): set<string>
  {
    SetOf(P) - SetOf(E)
  }

  /** A column is an explicit finding exactly when it is protected and not an exception. */
  lemma ExplicitFindings(P: seq<string>, E: seq<string>, x: string)
    ensures x in CheckExplicitDiscrimination(P, E) <==> x in P && x !in E
  {
  }

  /** Without exceptions every protected column is a finding, each once. */
  lemma ExplicitWithoutExceptions(P: seq<string>)
    ensures CheckExplicitDiscrimination(P, []) == SetOf(P)
  {
  }

  /** When every protected column is an exception there are no findings. */
  lemma ExplicitAllExcepted(P: seq<string>, E: seq<string>)
    requires forall x :: x in P ==> x in E
    ensures CheckExplicitDiscrimination(P, E) == {}
  {
  }

  /** Adding the findings to the exceptions silences them on the next run. */
  lemma ExplicitSuppression(P: seq<string>, E: seq<string>, E2: seq<string>)
    requires SetOf(E) + CheckExplicitDiscrimination(P, E) <= SetOf(E2)
    ensures CheckExplicitDiscrimination(P, E2) == {}
  {
  }
}
