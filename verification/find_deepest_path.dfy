/** `findDeepestPath`: the path of the narrowest span that holds a position. */
module DeepestPath {
  import opened Wrappers
  import opened JsText
  import opened PathMap
  import opened ArgMin

  /** The width of every entry that encloses `pos`; None for the others. */
  function EnclosingWidths(m: PathMap, pos: int): (s: Scores)
    ensures |s| == |m|
    ensures forall i | 0 <= i < |m| :: s[i].Some? <==> Encloses(m[i].1, pos)
    ensures forall i | 0 <= i < |m| && s[i].Some? :: s[i].value == Width(m[i].1)
  {
    seq(|m|, i requires 0 <= i < |m| => if Encloses(m[i].1, pos) then Some(Width(m[i].1)) else None)
  }

  /** Entry `k` encloses `pos`, no enclosing entry is narrower, and every earlier enclosing entry is strictly wider. */
  predicate IsDeepest(m: PathMap, pos: int, k: nat) {
    && k < |m|
    && Encloses(m[k].1, pos)
    && (forall i | 0 <= i < |m| && Encloses(m[i].1, pos) :: Width(m[k].1) <= Width(m[i].1))
    && (forall i | 0 <= i < k && Encloses(m[i].1, pos) :: Width(m[k].1) < Width(m[i].1))
  }

  /** The key at the first-minimum index, if there is one. */
  function KeyAt(m: PathMap, k: Option<nat>): Option<JsString>
    requires k.Some? ==> k.value < |m|
  {
    match k
    case None => None
    case Some(i) => Some(m[i].0)
  }

  method FindDeepestPath(m: PathMap, pos: int) returns (r: Option<JsString>)
    ensures r.None? <==> forall i | 0 <= i < |m| :: !Encloses(m[i].1, pos)
    ensures r.Some? ==> exists k | 0 <= k < |m| :: m[k].0 == r.value && IsDeepest(m, pos, k)
    ensures r == KeyAt(m, FirstArgMin(EnclosingWidths(m, pos)))
  {
    ghost var scores := EnclosingWidths(m, pos);
    var best: Option<(JsString, int)> := None;
    ghost var bestIndex: Option<nat> := None;
    var i := 0;
    while i < |m|
      invariant 0 <= i <= |m|
      invariant bestIndex == FirstArgMin(scores[..i])
      invariant bestIndex.None? <==> best.None?
      invariant bestIndex.Some? ==> bestIndex.value < i && best.value == (m[bestIndex.value].0, Width(m[bestIndex.value].1))
    {
      var key := m[i].0;
      var info := m[i].1;
      if info.from <= pos <= info.to {
        var span := info.to - info.from;
        if best.None? || span < best.value.1 {
          best := Some((key, span));
          bestIndex := Some(i);
        }
      }
      assert scores[..i + 1][..i] == scores[..i];
      i := i + 1;
    }
    assert scores[..|m|] == scores;
    r := if best.Some? then Some(best.value.0) else None;
    if bestIndex.Some? {
      assert IsFirstMin(scores, bestIndex.value);
      assert IsDeepest(m, pos, bestIndex.value);
    }
  }

  /** An entry that does not hold `pos`, wherever it sits in the map, does not change the result. */
  lemma NonEnclosingIgnored(m: PathMap, pos: int, j: nat, e: Entry)
    requires j <= |m| && !Encloses(e.1, pos)
    ensures KeyAt(m[..j] + [e] + m[j..], FirstArgMin(EnclosingWidths(m[..j] + [e] + m[j..], pos)))
         == KeyAt(m, FirstArgMin(EnclosingWidths(m, pos)))
  {
    var m' := m[..j] + [e] + m[j..];
    var s := EnclosingWidths(m, pos);
    var r := FirstArgMin(s);
    var r' := FirstArgMin(EnclosingWidths(m', pos));
    assert r.None? ==> r'.None? by {
      InsertedWidths(m, pos, j, e);
      InsertNonCandidate(s, j);
    }
    if r.Some? {
      var k := r.value;
      assert r' == Some(ShiftPast(k, j)) by {
        InsertedWidths(m, pos, j, e);
        InsertNonCandidate(s, j);
      }
      assert m'[ShiftPast(k, j)] == m[k] by {
        if k >= j { assert m'[k + 1] == m[k]; }
      }
    }
  }

  /** Inserting an entry that does not hold `pos` inserts a non-candidate into the widths. */
  lemma InsertedWidths(m: PathMap, pos: int, j: nat, e: Entry)
    requires j <= |m| && !Encloses(e.1, pos)
    ensures var s := EnclosingWidths(m, pos);
      EnclosingWidths(m[..j] + [e] + m[j..], pos) == s[..j] + [None] + s[j..]
  {
    var m' := m[..j] + [e] + m[j..];
    var s := EnclosingWidths(m, pos);
    var t := s[..j] + [None] + s[j..];
    forall i | 0 <= i < |m'| ensures EnclosingWidths(m', pos)[i] == t[i] {
      if i > j { assert m'[i] == m[i - 1]; }
    }
  }
}
