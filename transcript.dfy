// The console's transcript: lines are only ever appended, each numbered by its position.
module Transcript {
  import opened Records

  /** Every line's id is its index in the transcript. */
  predicate WellNumbered(t: seq<OutputLine>) {
    forall i :: 0 <= i < |t| ==> t[i].id == i
  }

  /** `addOutputLine`: the new line gets the transcript's old length as its id, the
      earlier lines are kept as they were, and a well-numbered transcript stays so. */
  function Append(t: seq<OutputLine>, kind: LineKind, text: string): (r: seq<OutputLine>)
    ensures |r| == |t| + 1 && r[..|t|] == t
    ensures r[|t|] == OutputLine(|t|, kind, text)
    ensures WellNumbered(t) ==> WellNumbered(r)
  {
    t + [OutputLine(|t|, kind, text)]
  }

  /** In a well-numbered transcript the ids strictly increase, so they are unique. */
  lemma IdsIncrease(t: seq<OutputLine>, i: int, j: int)
    requires WellNumbered(t)
    requires 0 <= i < j < |t|
    ensures t[i].id < t[j].id
  {
  }
}
