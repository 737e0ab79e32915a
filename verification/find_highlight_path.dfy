/**
 * `findHighlightPath`: the preview unit to highlight for a document position.
 * It prefers the narrowest enclosing segment, then (inside a segments array)
 * the nearest segment of that array, then the narrowest enclosing block.
 */
module HighlightPath {
  import opened Wrappers
  import opened JsText
  import opened PathMap
  import opened ArgMin

  // ---------------------------------------------------------------------------
  // The three anchored path shapes

  /** `\.?` at the start of an anchored pattern: one leading dot is consumed if present. */
  function DropDot(s: JsString): (t: JsString)
    ensures t == s || [DOT] + t == s
    ensures |s| > 0 && s[0] == DOT ==> t == s[1..]
    ensures |s| == 0 || s[0] != DOT ==> t == s
  {
    if |s| > 0 && s[0] == DOT then s[1..] else s
  }

  /** The number of leading decimal digits of `s` (what `\d+` consumes). */
  function DigitRun(s: JsString): (n: nat)
    ensures n <= |s|
    ensures AllDecimalDigits(s[..n])
    ensures n < |s| ==> !IsDecimalDigit(s[n])
  {
    if |s| > 0 && IsDecimalDigit(s[0]) then
      var n := 1 + DigitRun(s[1..]);
      assert s[..n] == [s[0]] + s[1..][..n - 1];
      n
    else 0
  }

  /** The length of the `\[\d+\]` that starts `u`, or 0 when `u` does not start with one. */
  function IndexPrefix(u: JsString): (n: nat)
    ensures n == 0 || (3 <= n <= |u| && IsIndexKey(u[..n]))
  {
    if |u| > 0 && u[0] == OPEN_BRACKET then
      var d := DigitRun(u[1..]);
      if d > 0 && d + 1 < |u| && u[d + 1] == CLOSE_BRACKET then
        assert u[..d + 2][1..d + 1] == u[1..][..d];
        d + 2
      else 0
    else 0
  }

  /** `/^\.?blocks\[\d+\]$/` */
  predicate IsBlock(s: JsString) {
    var t := DropDot(s);
    StartsWith(t, BLOCKS) && 0 < IndexPrefix(t[6..]) == |t| - 6
  }

  /** `/^\.?blocks\[(\d+)\]\.segments$/` */
  predicate IsSegmentsArray(s: JsString) {
    var t := DropDot(s);
    StartsWith(t, BLOCKS) && var n := IndexPrefix(t[6..]);
    n > 0 && t[6 + n..] == [DOT] + SEGMENTS
  }

  /** `/^\.?blocks\[\d+\]\.segments\[\d+\]$/` */
  predicate IsSegment(s: JsString) {
    var t := DropDot(s);
    StartsWith(t, BLOCKS) && var n := IndexPrefix(t[6..]);
    n > 0 && var v := t[6 + n..];
    StartsWith(v, [DOT] + SEGMENTS) && 0 < IndexPrefix(v[9..]) == |v| - 9
  }

  // ---------------------------------------------------------------------------
  // Distance

  /** `getDistance(pos, from, to)` */
  function GetDistance(pos: int, from: int, to: int): (d: int)
    ensures d >= 0
    ensures d == 0 <==> from <= pos <= to
  {
    if pos < from then from - pos
    else if pos > to then pos - to
    else 0
  }

  /**
   * For a proper interval, the distance is the distance from `pos` to the
   * nearest point of `[from, to]`.
   */
  lemma DistanceToNearestPoint(pos: int, from: int, to: int)
    requires from <= to
    ensures exists x | from <= x <= to :: Gap(pos, x) == GetDistance(pos, from, to)
    ensures forall x | from <= x <= to :: GetDistance(pos, from, to) <= Gap(pos, x)
  {
    var x := if pos < from then from else if pos > to then to else pos;
    assert Gap(pos, x) == GetDistance(pos, from, to);
  }

  /** `|a - b|` */
  function Gap(a: int, b: int): nat {
    if a < b then b - a else a - b
  }

  // ---------------------------------------------------------------------------
  // The resolver

  datatype Shape = SegmentShape | SegmentsArrayShape | BlockShape

  predicate HasShape(key: JsString, shape: Shape) {
    match shape
    case SegmentShape => IsSegment(key)
    case SegmentsArrayShape => IsSegmentsArray(key)
    case BlockShape => IsBlock(key)
  }

  /** The width of every entry of the given shape that encloses `pos`; None for the others. */
  function EnclosingOfShape(m: PathMap, pos: int, shape: Shape): (s: Scores)
    ensures |s| == |m|
    ensures forall i | 0 <= i < |m| :: s[i].Some? <==> Qualifies(m, pos, shape, i)
    ensures forall i | 0 <= i < |m| && s[i].Some? :: s[i].value == Width(m[i].1)
  {
    seq(|m|, i requires 0 <= i < |m| =>
      if Qualifies(m, pos, shape, i) then Some(Width(m[i].1)) else None)
  }

  /** The segments filed directly in the array at `arrayPath`, scored by their distance to `pos`. */
  function SegmentCandidates(m: PathMap, pos: int, arrayPath: JsString): (s: Scores)
    ensures |s| == |m|
    ensures forall i | 0 <= i < |m| :: s[i].Some? <==> IsCandidate(m[i].0, arrayPath)
    ensures forall i | 0 <= i < |m| && s[i].Some? :: s[i].value == GetDistance(pos, m[i].1.from, m[i].1.to)
  {
    seq(|m|, i requires 0 <= i < |m| =>
      if IsCandidate(m[i].0, arrayPath) then Some(GetDistance(pos, m[i].1.from, m[i].1.to)) else None)
  }

  /** `key.startsWith(arrayPath + '[') && isSegment.test(key)` */
  predicate IsCandidate(key: JsString, arrayPath: JsString) {
    StartsWith(key, arrayPath + [OPEN_BRACKET]) && IsSegment(key)
  }

  predicate NothingEncloses(m: PathMap, pos: int) {
    forall i | 0 <= i < |m| :: !Encloses(m[i].1, pos)
  }

  /** The narrowest enclosing entry of the shape (the first one after the stable sort by width). */
  function NarrowestEnclosing(m: PathMap, pos: int, shape: Shape): (r: Option<nat>)
    ensures r.Some? ==> r.value < |m| && HasShape(m[r.value].0, shape)
  {
    var r := FirstArgMin(EnclosingOfShape(m, pos, shape));
    assert r.Some? ==> Qualifies(m, pos, shape, r.value);
    r
  }

  /** The nearest segment filed in the narrowest enclosing segments array, if there is one. */
  function NearestInSegmentsArray(m: PathMap, pos: int): (r: Option<nat>)
    ensures r.Some? ==> r.value < |m| && IsSegment(m[r.value].0)
  {
    match NarrowestEnclosing(m, pos, SegmentsArrayShape)
    case None => None
    case Some(a) =>
      var r := FirstArgMin(SegmentCandidates(m, pos, m[a].0));
      assert r.Some? ==> IsCandidate(m[r.value].0, m[a].0);
      r
  }

  /** `findHighlightPath(map, pos)` */
  function FindHighlightPath(m: PathMap, pos: int): (r: Option<JsString>)
    ensures NothingEncloses(m, pos) ==> r.None?
    ensures r.Some? ==> exists k | 0 <= k < |m| :: m[k].0 == r.value
    ensures r.Some? ==> IsSegment(r.value) || IsBlock(r.value)
  {
    if NothingEncloses(m, pos) then None
    else match NarrowestEnclosing(m, pos, SegmentShape)
      case Some(k) => Some(m[k].0)
      case None =>
        match NearestInSegmentsArray(m, pos)
        case Some(k) => Some(m[k].0)
        case None =>
          match NarrowestEnclosing(m, pos, BlockShape)
          case Some(k) => Some(m[k].0)
          case None => None
  }

  // ---------------------------------------------------------------------------
  // The tiers of the policy

  /** Entry `i` has the shape and encloses `pos`. */
  predicate Qualifies(m: PathMap, pos: int, shape: Shape, i: nat)
    requires i < |m|
  {
    Encloses(m[i].1, pos) && HasShape(m[i].0, shape)
  }

  /** Entry `k` has the shape and encloses `pos`; no such entry is narrower, and every earlier one is strictly wider. */
  predicate NarrowestOfShape(m: PathMap, pos: int, shape: Shape, k: nat) {
    && k < |m|
    && Qualifies(m, pos, shape, k)
    && (forall i | 0 <= i < |m| && Qualifies(m, pos, shape, i) :: Width(m[k].1) <= Width(m[i].1))
    && (forall i | 0 <= i < k && Qualifies(m, pos, shape, i) :: Width(m[k].1) < Width(m[i].1))
  }

  lemma NarrowestIsFirstMin(m: PathMap, pos: int, shape: Shape, k: nat)
    ensures IsFirstMin(EnclosingOfShape(m, pos, shape), k) <==> NarrowestOfShape(m, pos, shape, k)
  {
    var s := EnclosingOfShape(m, pos, shape);
    if IsFirstMin(s, k) {
      forall i | 0 <= i < |m| && Qualifies(m, pos, shape, i)
        ensures Width(m[k].1) <= Width(m[i].1)
      {
        assert s[i].Some?;
      }
      forall i | 0 <= i < k && Qualifies(m, pos, shape, i)
        ensures Width(m[k].1) < Width(m[i].1)
      {
        assert s[i].Some?;
      }
      assert NarrowestOfShape(m, pos, shape, k);
    }
    if NarrowestOfShape(m, pos, shape, k) {
      forall i | 0 <= i < |s| && s[i].Some?
        ensures s[k].value <= s[i].value
      {
        assert Qualifies(m, pos, shape, i);
      }
      forall i | 0 <= i < k && s[i].Some?
        ensures s[k].value < s[i].value
      {
        assert Qualifies(m, pos, shape, i);
      }
      assert IsFirstMin(s, k);
    }
  }

  /** Candidate `k` of the array is nearest to `pos`, and strictly nearer than every earlier candidate. */
  predicate NearestCandidate(m: PathMap, pos: int, arrayPath: JsString, k: nat) {
    && k < |m|
    && IsCandidate(m[k].0, arrayPath)
    && (forall i | 0 <= i < |m| && IsCandidate(m[i].0, arrayPath) ::
          GetDistance(pos, m[k].1.from, m[k].1.to) <= GetDistance(pos, m[i].1.from, m[i].1.to))
    && (forall i | 0 <= i < k && IsCandidate(m[i].0, arrayPath) ::
          GetDistance(pos, m[k].1.from, m[k].1.to) < GetDistance(pos, m[i].1.from, m[i].1.to))
  }

  lemma NearestIsFirstMin(m: PathMap, pos: int, arrayPath: JsString, k: nat)
    requires IsFirstMin(SegmentCandidates(m, pos, arrayPath), k)
    ensures NearestCandidate(m, pos, arrayPath, k)
  {
    var s := SegmentCandidates(m, pos, arrayPath);
    assert forall i | 0 <= i < |m| && IsCandidate(m[i].0, arrayPath) :: s[i].Some?;
  }

  predicate NoEnclosingOfShape(m: PathMap, pos: int, shape: Shape) {
    forall i | 0 <= i < |m| :: !Qualifies(m, pos, shape, i)
  }

  /**
   * First tier: when a segment encloses the position, the result is the
   * narrowest enclosing segment, the earliest in map order among equals.
   */
  lemma HighlightPrefersSegment(m: PathMap, pos: int)
    requires !NoEnclosingOfShape(m, pos, SegmentShape)
    ensures exists k | 0 <= k < |m| ::
      FindHighlightPath(m, pos) == Some(m[k].0) && NarrowestOfShape(m, pos, SegmentShape, k)
  {
    var i :| 0 <= i < |m| && Qualifies(m, pos, SegmentShape, i);
    assert EnclosingOfShape(m, pos, SegmentShape)[i].Some?;
    assert !NothingEncloses(m, pos);
    var k := NarrowestEnclosing(m, pos, SegmentShape).value;
    NarrowestIsFirstMin(m, pos, SegmentShape, k);
    assert FindHighlightPath(m, pos) == Some(m[k].0);
  }

  /**
   * Second tier: with no enclosing segment but an enclosing segments array
   * (the narrowest one, `a`) that has segments filed under it, the result is
   * the segment of that array nearest to the position, the earliest among
   * equals; every such segment lies strictly away from the position.
   */
  lemma HighlightNearestSegmentInGap(m: PathMap, pos: int, a: nat)
    requires NoEnclosingOfShape(m, pos, SegmentShape)
    requires NarrowestOfShape(m, pos, SegmentsArrayShape, a)
    requires exists i | 0 <= i < |m| :: IsCandidate(m[i].0, m[a].0)
    ensures exists k | 0 <= k < |m| ::
      FindHighlightPath(m, pos) == Some(m[k].0) && NearestCandidate(m, pos, m[a].0, k)
    ensures forall i | 0 <= i < |m| && IsCandidate(m[i].0, m[a].0) ::
      GetDistance(pos, m[i].1.from, m[i].1.to) > 0
  {
    forall i | 0 <= i < |m| && IsCandidate(m[i].0, m[a].0)
      ensures GetDistance(pos, m[i].1.from, m[i].1.to) > 0
    {
      assert HasShape(m[i].0, SegmentShape);
      assert !Qualifies(m, pos, SegmentShape, i);
    }
    NoSegmentNoHit(m, pos);
    assert !NothingEncloses(m, pos) by {
      assert Encloses(m[a].1, pos);
    }
    var k := NearestOfArray(m, pos, a);
    assert FindHighlightPath(m, pos) == Some(m[k].0);
  }

  /** With no enclosing segment, the first tier finds nothing. */
  lemma NoSegmentNoHit(m: PathMap, pos: int)
    requires NoEnclosingOfShape(m, pos, SegmentShape)
    ensures NarrowestEnclosing(m, pos, SegmentShape).None?
  {
    var segs := EnclosingOfShape(m, pos, SegmentShape);
    assert forall i | 0 <= i < |m| :: segs[i].None?;
  }

  /** When `a` is the narrowest enclosing segments array and has candidates, the second tier picks its nearest one. */
  lemma NearestOfArray(m: PathMap, pos: int, a: nat) returns (k: nat)
    requires NarrowestOfShape(m, pos, SegmentsArrayShape, a)
    requires exists i | 0 <= i < |m| :: IsCandidate(m[i].0, m[a].0)
    ensures k < |m| && NearestInSegmentsArray(m, pos) == Some(k) && NearestCandidate(m, pos, m[a].0, k)
  {
    var sas := EnclosingOfShape(m, pos, SegmentsArrayShape);
    NarrowestIsFirstMin(m, pos, SegmentsArrayShape, a);
    var sa := NarrowestEnclosing(m, pos, SegmentsArrayShape);
    assert sas[a].Some?;
    FirstMinUnique(sas, sa.value, a);
    var i :| 0 <= i < |m| && IsCandidate(m[i].0, m[a].0);
    var cands := SegmentCandidates(m, pos, m[a].0);
    assert cands[i].Some?;
    k := FirstArgMin(cands).value;
    NearestIsFirstMin(m, pos, m[a].0, k);
  }

  /**
   * Third tier: with no enclosing segment and no nearby segment to fall back
   * on, the result is the narrowest enclosing block, or null when no block
   * encloses the position.
   */
  lemma HighlightFallsBackToBlock(m: PathMap, pos: int)
    requires NoEnclosingOfShape(m, pos, SegmentShape)
    requires forall a: nat | NarrowestOfShape(m, pos, SegmentsArrayShape, a) ::
      forall i | 0 <= i < |m| :: !IsCandidate(m[i].0, m[a].0)
    ensures FindHighlightPath(m, pos).None? <==> NoEnclosingOfShape(m, pos, BlockShape)
    ensures FindHighlightPath(m, pos).Some? ==> exists k | 0 <= k < |m| ::
      FindHighlightPath(m, pos) == Some(m[k].0) && NarrowestOfShape(m, pos, BlockShape, k)
  {
    NoSegmentNoHit(m, pos);
    NoCandidateNoHit(m, pos);
    var b := NarrowestEnclosing(m, pos, BlockShape);
    if b.Some? {
      NarrowestIsFirstMin(m, pos, BlockShape, b.value);
      assert !NothingEncloses(m, pos) by {
        assert Encloses(m[b.value].1, pos);
      }
      assert FindHighlightPath(m, pos) == Some(m[b.value].0);
    } else {
      var blocks := EnclosingOfShape(m, pos, BlockShape);
      assert forall i | 0 <= i < |m| :: blocks[i].None?;
      assert NoEnclosingOfShape(m, pos, BlockShape);
    }
  }

  /** When the narrowest enclosing segments array (if any) has no candidates, the second tier finds nothing. */
  lemma NoCandidateNoHit(m: PathMap, pos: int)
    requires forall a: nat | NarrowestOfShape(m, pos, SegmentsArrayShape, a) ::
      forall i | 0 <= i < |m| :: !IsCandidate(m[i].0, m[a].0)
    ensures NearestInSegmentsArray(m, pos).None?
  {
    var sa := NarrowestEnclosing(m, pos, SegmentsArrayShape);
    if sa.Some? {
      NarrowestIsFirstMin(m, pos, SegmentsArrayShape, sa.value);
      var cands := SegmentCandidates(m, pos, m[sa.value].0);
      assert forall i | 0 <= i < |m| :: cands[i].None?;
    }
  }

  // ---------------------------------------------------------------------------
  // Shape facts

  /** No path has two of the three shapes. */
  lemma ShapesDisjoint(s: JsString)
    ensures !(IsBlock(s) && IsSegment(s))
    ensures !(IsBlock(s) && IsSegmentsArray(s))
    ensures !(IsSegment(s) && IsSegmentsArray(s))
  {
  }

  /**
   * The shapes are anchored: a dotted prefix before `blocks` or a second
   * leading dot disqualifies a path, while a missing leading dot does not.
   */
  lemma AnchoredShapes()
    // ".foo.blocks[0]"
    ensures !IsBlock([DOT, 0x66, 0x6F, 0x6F, DOT] + BLOCKS + [OPEN_BRACKET, ZERO, CLOSE_BRACKET])
    // "..blocks[0]"
    ensures !IsBlock([DOT, DOT] + BLOCKS + [OPEN_BRACKET, ZERO, CLOSE_BRACKET])
    // "blocks[0]"
    ensures IsBlock(BLOCKS + [OPEN_BRACKET, ZERO, CLOSE_BRACKET])
    // ".blocks[]"
    ensures !IsBlock([DOT] + BLOCKS + [OPEN_BRACKET, CLOSE_BRACKET])
  {
    var blk := BLOCKS + [OPEN_BRACKET, ZERO, CLOSE_BRACKET];
    assert DropDot(blk) == blk;
    assert blk[6..] == [OPEN_BRACKET, ZERO, CLOSE_BRACKET];
    assert DigitRun([ZERO, CLOSE_BRACKET]) == 1;
    var empty := [DOT] + BLOCKS + [OPEN_BRACKET, CLOSE_BRACKET];
    assert DropDot(empty)[6..] == [OPEN_BRACKET, CLOSE_BRACKET];
    assert DigitRun([CLOSE_BRACKET]) == 0;
    var dotted := [DOT, 0x66, 0x6F, 0x6F, DOT] + BLOCKS + [OPEN_BRACKET, ZERO, CLOSE_BRACKET];
    assert DropDot(dotted)[0] == 0x66;
    var twice := [DOT, DOT] + BLOCKS + [OPEN_BRACKET, ZERO, CLOSE_BRACKET];
    assert DropDot(twice)[0] == DOT;
  }

  /** `\d+` stops exactly at the end of a digit run that is followed by a non-digit (or nothing). */
  lemma {:induction false} DigitRunOf(d: JsString, rest: JsString)
    requires AllDecimalDigits(d)
    requires |rest| == 0 || !IsDecimalDigit(rest[0])
    ensures DigitRun(d + rest) == |d|
  {
    if |d| == 0 {
      assert d + rest == rest;
    } else {
      assert (d + rest)[1..] == d[1..] + rest;
      DigitRunOf(d[1..], rest);
    }
  }

  /** A string that starts with an `[i]` key starts with an index prefix of exactly that key's length. */
  lemma IndexPrefixOfKey(key: JsString, rest: JsString)
    requires IsIndexKey(key)
    ensures IndexPrefix(key + rest) == |key|
  {
    var u := key + rest;
    var d := key[1..|key| - 1];
    assert u[1..] == d + ([CLOSE_BRACKET] + rest);
    DigitRunOf(d, [CLOSE_BRACKET] + rest);
  }

  /** The block shape read as a grammar: `blocks` and one `[i]` key, after an optional dot. */
  lemma BlockGrammar(s: JsString)
    ensures IsBlock(s) <==> exists k :: IsIndexKey(k) && DropDot(s) == BLOCKS + k
  {
    var t := DropDot(s);
    if IsBlock(s) {
      assert t == BLOCKS + t[6..];
      assert IsIndexKey(t[6..][..|t| - 6]);
    }
    forall k | IsIndexKey(k) && t == BLOCKS + k
      ensures IsBlock(s)
    {
      assert t[6..] == k + [];
      IndexPrefixOfKey(k, []);
    }
  }

  /** The segments-array shape as a grammar: `blocks`, an `[i]` key, then `.segments`. */
  lemma SegmentsArrayGrammar(s: JsString)
    ensures IsSegmentsArray(s) <==> exists k :: IsIndexKey(k) && DropDot(s) == BLOCKS + k + [DOT] + SEGMENTS
  {
    var t := DropDot(s);
    if IsSegmentsArray(s) {
      var k := SegmentsArrayGrammarForth(s);
    }
    forall k | IsIndexKey(k) && t == BLOCKS + k + [DOT] + SEGMENTS
      ensures IsSegmentsArray(s)
    {
      SegmentsArrayGrammarBack(t, k);
    }
  }

  lemma SegmentsArrayGrammarBack(t: JsString, k: JsString)
    requires IsIndexKey(k) && t == BLOCKS + k + [DOT] + SEGMENTS
    ensures StartsWith(t, BLOCKS) && IndexPrefix(t[6..]) == |k| && t[6 + |k|..] == [DOT] + SEGMENTS
  {
    assert t[6..] == k + ([DOT] + SEGMENTS);
    IndexPrefixOfKey(k, [DOT] + SEGMENTS);
  }

  lemma SegmentsArrayGrammarForth(s: JsString) returns (k: JsString)
    requires IsSegmentsArray(s)
    ensures IsIndexKey(k) && DropDot(s) == BLOCKS + k + [DOT] + SEGMENTS
  {
    var t := DropDot(s);
    var n := IndexPrefix(t[6..]);
    k := t[6..][..n];
    assert t[6..] == k + t[6 + n..];
    assert t == BLOCKS + t[6..];
  }

  /** The segment shape as a grammar: `blocks`, an `[i]` key, `.segments`, a `[j]` key. */
  lemma SegmentGrammar(s: JsString)
    ensures IsSegment(s) <==>
      exists k, l :: IsIndexKey(k) && IsIndexKey(l) && DropDot(s) == BLOCKS + k + [DOT] + SEGMENTS + l
  {
    var t := DropDot(s);
    if IsSegment(s) {
      var k, l := SegmentGrammarForth(s);
    }
    forall k, l | IsIndexKey(k) && IsIndexKey(l) && t == BLOCKS + k + [DOT] + SEGMENTS + l
      ensures IsSegment(s)
    {
      SegmentGrammarBack(t, k, l);
    }
  }

  lemma SegmentGrammarForth(s: JsString) returns (k: JsString, l: JsString)
    requires IsSegment(s)
    ensures IsIndexKey(k) && IsIndexKey(l) && DropDot(s) == BLOCKS + k + [DOT] + SEGMENTS + l
  {
    k, l := SegmentBodyForth(DropDot(s));
  }

  /** The segment shape after the optional dot, split into its two index keys. */
  lemma SegmentBodyForth(t: JsString) returns (k: JsString, l: JsString)
    requires StartsWith(t, BLOCKS) && IndexPrefix(t[6..]) > 0
    requires var v := t[6 + IndexPrefix(t[6..])..];
      StartsWith(v, [DOT] + SEGMENTS) && 0 < IndexPrefix(v[9..]) == |v| - 9
    ensures IsIndexKey(k) && IsIndexKey(l) && t == BLOCKS + k + [DOT] + SEGMENTS + l
  {
    var n := IndexPrefix(t[6..]);
    k := t[6..][..n];
    var v := t[6 + n..];
    l := v[9..];
    assert v[9..][..|v| - 9] == l;
    assert v == [DOT] + SEGMENTS + l;
    assert t == BLOCKS + k + v;
  }

  lemma SegmentGrammarBack(t: JsString, k: JsString, l: JsString)
    requires IsIndexKey(k) && IsIndexKey(l) && t == BLOCKS + k + [DOT] + SEGMENTS + l
    ensures StartsWith(t, BLOCKS) && IndexPrefix(t[6..]) == |k|
    ensures t[6 + |k|..] == [DOT] + SEGMENTS + l
    ensures IndexPrefix(t[6 + |k|..][9..]) == |l|
  {
    assert t[6..] == k + ([DOT] + SEGMENTS + l);
    IndexPrefixOfKey(k, [DOT] + SEGMENTS + l);
    assert t[6 + |k|..][9..] == l + [];
    IndexPrefixOfKey(l, []);
  }

  /** Dropping the optional dot leaves a body that does not start with a dot exactly when the path is the body, with or without one dot. */
  lemma OptionalDot(s: JsString, body: JsString)
    requires |body| > 0 && body[0] != DOT
    ensures DropDot(s) == body <==> s == body || s == [DOT] + body
  {
    if s == [DOT] + body {
      assert s[1..] == body;
    }
  }

  /** `/^\.?blocks\[\d+\]$/` matches exactly `blocks[i]` and `.blocks[i]`. */
  lemma BlockRegex(s: JsString)
    ensures IsBlock(s) <==> exists k :: IsIndexKey(k) && (s == BLOCKS + k || s == [DOT] + (BLOCKS + k))
  {
    BlockGrammar(s);
    forall k | IsIndexKey(k)
      ensures DropDot(s) == BLOCKS + k <==> s == BLOCKS + k || s == [DOT] + (BLOCKS + k)
    {
      OptionalDot(s, BLOCKS + k);
    }
  }

  /** `/^\.?blocks\[(\d+)\]\.segments$/` matches exactly `blocks[i].segments` and `.blocks[i].segments`. */
  lemma SegmentsArrayRegex(s: JsString)
    ensures IsSegmentsArray(s) <==>
      exists k :: IsIndexKey(k) &&
        (s == BLOCKS + k + [DOT] + SEGMENTS || s == [DOT] + (BLOCKS + k + [DOT] + SEGMENTS))
  {
    SegmentsArrayGrammar(s);
    forall k | IsIndexKey(k)
      ensures DropDot(s) == BLOCKS + k + [DOT] + SEGMENTS
          <==> s == BLOCKS + k + [DOT] + SEGMENTS || s == [DOT] + (BLOCKS + k + [DOT] + SEGMENTS)
    {
      OptionalDot(s, BLOCKS + k + [DOT] + SEGMENTS);
    }
  }

  /** `/^\.?blocks\[\d+\]\.segments\[\d+\]$/` matches exactly `blocks[i].segments[j]` and `.blocks[i].segments[j]`. */
  lemma SegmentRegex(s: JsString)
    ensures IsSegment(s) <==>
      exists k, l :: IsIndexKey(k) && IsIndexKey(l) &&
        (s == BLOCKS + k + [DOT] + SEGMENTS + l || s == [DOT] + (BLOCKS + k + [DOT] + SEGMENTS + l))
  {
    SegmentGrammar(s);
    forall k, l | IsIndexKey(k) && IsIndexKey(l)
      ensures DropDot(s) == BLOCKS + k + [DOT] + SEGMENTS + l
          <==> s == BLOCKS + k + [DOT] + SEGMENTS + l || s == [DOT] + (BLOCKS + k + [DOT] + SEGMENTS + l)
    {
      OptionalDot(s, BLOCKS + k + [DOT] + SEGMENTS + l);
    }
  }
}
