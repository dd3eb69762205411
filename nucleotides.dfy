/** The four DNA bases that both sequence tools accept. */
module Nucleotides {
  import opened Text

  const Bases: set<char> := {'A', 'T', 'C', 'G'}

  /** Every character of s is one of the four bases. */
  predicate AllBases(s: string)
  {
    forall i :: 0 <= i < |s| ==> s[i] in Bases
  }

  /** An upper-case A/T/C/G string is left unchanged by upper-casing. */
  lemma UpperKeepsBases(s: string)
    requires AllBases(s)
    ensures Upper(s) == s
  {
  }
}
