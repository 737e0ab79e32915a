/**
 * Selecting the best of a list of candidates the way the resolvers do: scan in
 * order and replace the current best only on a strictly smaller measure, so
 * that the earliest of several equal minima wins. Sorting stably by the
 * measure and taking the first candidate picks the same element.
 */
module ArgMin {
  import opened Wrappers

  /** `scores[i]` is None when entry `i` is not a candidate, else its measure. */
  type Scores = seq<Option<int>>

  /** Index `k` is a candidate whose measure is minimal, and strictly below every earlier candidate's. */
  predicate IsFirstMin(scores: Scores, k: nat) {
    && k < |scores|
    && scores[k].Some?
    && (forall i | 0 <= i < |scores| && scores[i].Some? :: scores[k].value <= scores[i].value)
    && (forall i | 0 <= i < k && scores[i].Some? :: scores[k].value < scores[i].value)
  }

  /** The first candidate of minimal measure, or None when there is no candidate. */
  function FirstArgMin(scores: Scores): (r: Option<nat>)
    ensures r.None? <==> forall i | 0 <= i < |scores| :: scores[i].None?
    ensures r.Some? ==> IsFirstMin(scores, r.value)
  {
    if |scores| == 0 then None
    else
      var last := |scores| - 1;
      var best := FirstArgMin(scores[..last]);
      if scores[last].Some? && (best.None? || scores[last].value < scores[best.value].value) then Some(last)
      else best
  }

  /** At most one index is the first minimum. */
  lemma FirstMinUnique(scores: Scores, k: nat, k': nat)
    requires IsFirstMin(scores, k) && IsFirstMin(scores, k')
    ensures k == k'
  {
  }

  /** The first minimum is the index `FirstArgMin` picks, and no other. */
  lemma FirstArgMinIs(scores: Scores, k: nat)
    requires IsFirstMin(scores, k)
    ensures FirstArgMin(scores) == Some(k)
  {
    FirstMinUnique(scores, k, FirstArgMin(scores).value);
  }

  /** Inserting a non-candidate at position `j` only shifts the chosen index past it. */
  lemma InsertNonCandidate(scores: Scores, j: nat)
    requires j <= |scores|
    ensures FirstArgMin(scores).None? ==> FirstArgMin(scores[..j] + [None] + scores[j..]).None?
    ensures FirstArgMin(scores).Some? ==>
      FirstArgMin(scores[..j] + [None] + scores[j..]) == Some(ShiftPast(FirstArgMin(scores).value, j))
  {
    var t := scores[..j] + [None] + scores[j..];
    InsertedAt(scores, j);
    var r := FirstArgMin(scores);
    if r.Some? {
      ShiftedFirstMin(scores, t, j, r.value);
      FirstArgMinIs(t, ShiftPast(r.value, j));
    }
  }

  /** Where index `k` lands once an element is inserted at `j`. */
  function ShiftPast(k: nat, j: nat): nat {
    if k < j then k else k + 1
  }

  /** `t` is `scores` with a non-candidate inserted at `j`. */
  predicate InsertedNone(scores: Scores, t: Scores, j: nat) {
    && j <= |scores| && |t| == |scores| + 1 && t[j].None?
    && (forall i | 0 <= i < j :: t[i] == scores[i])
    && (forall i | j < i < |t| :: t[i] == scores[i - 1])
  }

  lemma InsertedAt(scores: Scores, j: nat)
    requires j <= |scores|
    ensures InsertedNone(scores, scores[..j] + [None] + scores[j..], j)
  {
  }

  lemma ShiftedFirstMin(scores: Scores, t: Scores, j: nat, k: nat)
    requires InsertedNone(scores, t, j) && IsFirstMin(scores, k)
    ensures IsFirstMin(t, ShiftPast(k, j))
  {
    var k' := ShiftPast(k, j);
    assert t[k'] == scores[k];
    forall i | 0 <= i < |t| && t[i].Some?
      ensures t[k'].value <= t[i].value && (i < k' ==> t[k'].value < t[i].value)
    {
      if i > j { assert t[i] == scores[i - 1]; }
    }
  }
}
