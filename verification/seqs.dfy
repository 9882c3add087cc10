/** Sequence facts shared by the click-list parser and the table walk. */
module Seqs {
  /** Splitting off the element at `j` from the suffix starting there. */
  lemma SliceCons<T>(s: seq<T>, j: nat)
    requires j < |s|
    ensures s[j..] == [s[j]] + s[j + 1..]
  {
  }
}
