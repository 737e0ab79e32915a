/**
 * The preview's hover rules: which block and segment cards are active for a
 * hovered path, the class each card gets, and how the pointer entering and
 * leaving cards rewrites the hovered path.
 */
module TextPreview {
  import opened Wrappers
  import opened JsText
  import opened PreviewModel

  /** The shared hovered-path cell: a structural path, or null. */
  type Hover = Option<JsString>

  /** `isSegmentActive(path)`: the hovered path is this segment's path. */
  predicate IsSegmentActive(h: Hover, path: JsString) {
    h == Some(path)
  }

  /** The prefix every path inside block `blockPath`'s segments starts with: `blockPath + ".segments["`. */
  function SegmentsPrefix(blockPath: JsString): (r: JsString)
    ensures |r| == |blockPath| + 10 && StartsWith(r, blockPath)
  {
    blockPath + [DOT] + SEGMENTS + [OPEN_BRACKET]
  }

  /** `isBlockActive(blockPath)`: the block itself or something inside its segments is hovered. */
  predicate IsBlockActive(h: Hover, blockPath: JsString) {
    h == Some(blockPath) || (h.Some? && StartsWith(h.value, SegmentsPrefix(blockPath)))
  }

  /** The state-dependent part of a segment card's class. */
  datatype SegmentClass = SegmentIsActive | SegmentIsInBlock | SegmentPlain

  /** The state-dependent part of a block card's class. */
  datatype BlockClass = BlockIsActive | BlockPlain

  function SegmentClassOf(h: Hover, segmentPath: JsString, blockPath: JsString): SegmentClass {
    if IsSegmentActive(h, segmentPath) then SegmentIsActive
    else if IsBlockActive(h, blockPath) then SegmentIsInBlock
    else SegmentPlain
  }

  function BlockClassOf(h: Hover, blockPath: JsString): BlockClass {
    if IsBlockActive(h, blockPath) then BlockIsActive else BlockPlain
  }

  /**
   * The pointer events the preview handles. `BlockMove` is a pointer move
   * inside a block card; `overSegment` says whether its target lies inside
   * a segment card.
   */
  datatype PointerEvent =
    | EnterSegment(segmentPath: JsString)
    | LeaveSegment(owningBlock: JsString)
    | BlockMove(blockPath: JsString, overSegment: bool)
    | LeaveBlock

  /** The hovered path after one event. */
  function Step(h: Hover, e: PointerEvent): (r: Hover)
    ensures e.LeaveBlock? ==> r.None?
    ensures e.EnterSegment? ==> r == Some(e.segmentPath)
    ensures e.LeaveSegment? ==> r == Some(e.owningBlock)
    ensures e.BlockMove? && e.overSegment ==> r == h
  {
    match e
    case EnterSegment(p) => Some(p)
    case LeaveSegment(bp) => Some(bp)
    case BlockMove(bp, overSegment) => if overSegment then h else Some(bp)
    case LeaveBlock => None
  }

  /** With nothing hovered, no card is active or in a highlighted block. */
  lemma NothingHovered(segmentPath: JsString, blockPath: JsString)
    ensures !IsSegmentActive(None, segmentPath) && !IsBlockActive(None, blockPath)
    ensures SegmentClassOf(None, segmentPath, blockPath) == SegmentPlain
    ensures BlockClassOf(None, blockPath) == BlockPlain
  {
  }

  /** The segment paths the preview builds sit inside their block's segments. */
  lemma SegmentPathInBlock(blockPath: JsString, j: nat)
    ensures StartsWith(SegmentPath(blockPath, j), SegmentsPrefix(blockPath))
  {
    var key := IndexKey(j);
    assert SegmentPath(blockPath, j) == SegmentsPrefix(blockPath) + key[1..];
  }

  /** An active segment makes its owning block active. */
  lemma ActiveSegmentActivatesBlock(h: Hover, blockPath: JsString, j: nat)
    requires IsSegmentActive(h, SegmentPath(blockPath, j))
    ensures IsBlockActive(h, blockPath)
    ensures BlockClassOf(h, blockPath) == BlockIsActive
  {
    SegmentPathInBlock(blockPath, j);
  }

  /** The class of a segment card is the active one, the in-block one, or none, exactly as its state says. */
  lemma SegmentClassMeaning(h: Hover, blockPath: JsString, j: nat)
    ensures var c := SegmentClassOf(h, SegmentPath(blockPath, j), blockPath);
      && (c == SegmentIsActive <==> h == Some(SegmentPath(blockPath, j)))
      && (c == SegmentIsInBlock <==> h != Some(SegmentPath(blockPath, j)) && IsBlockActive(h, blockPath))
      && (c == SegmentPlain <==> !IsBlockActive(h, blockPath))
      && (c != SegmentPlain <==> BlockClassOf(h, blockPath) == BlockIsActive)
  {
    if h == Some(SegmentPath(blockPath, j)) {
      ActiveSegmentActivatesBlock(h, blockPath, j);
    }
  }

  /** `.blocks[i]` is `.blocks[` and the digits of `i`, closed by `]`, which the head never contains. */
  function BlockHead(i: nat): (r: JsString)
    ensures CLOSE_BRACKET !in r
    ensures BlockPath(i) == r + [CLOSE_BRACKET]
  {
    NoCloseInDecimal(i);
    [DOT] + BLOCKS + [OPEN_BRACKET] + Decimal(i)
  }

  /** An active block's path is a prefix of the hovered path. */
  lemma ActiveBlockIsPrefix(h: Hover, blockPath: JsString)
    requires IsBlockActive(h, blockPath)
    ensures h.Some? && StartsWith(h.value, blockPath)
  {
    if h != Some(blockPath) {
      StartsWithConcat(h.value, blockPath, [DOT] + SEGMENTS + [OPEN_BRACKET]);
    }
  }

  /**
   * At most one of the blocks `.blocks[0]`, `.blocks[1]`, ... is active
   * at a time: the `]` closing the index keeps `.blocks[1]` from matching
   * a path under `.blocks[12]`.
   */
  lemma AtMostOneBlockActive(h: Hover, i: nat, k: nat)
    requires IsBlockActive(h, BlockPath(i)) && IsBlockActive(h, BlockPath(k))
    ensures i == k
  {
    ActiveBlockIsPrefix(h, BlockPath(i));
    ActiveBlockIsPrefix(h, BlockPath(k));
    DelimitedPrefixUnique(h.value, BlockHead(i), BlockHead(k), CLOSE_BRACKET);
    assert Decimal(i) == BlockHead(i)[8..] == BlockHead(k)[8..] == Decimal(k);
    DecimalInjective(i, k);
  }

  /** Hovering a segment of block `i` leaves every segment of every other block plain. */
  lemma OtherBlocksStayPlain(i: nat, j: nat, k: nat, l: nat)
    requires i != k
    ensures var h := Some(SegmentPath(BlockPath(i), j));
      SegmentClassOf(h, SegmentPath(BlockPath(k), l), BlockPath(k)) == SegmentPlain
      && BlockClassOf(h, BlockPath(k)) == BlockPlain
  {
    var h := Some(SegmentPath(BlockPath(i), j));
    ActiveSegmentActivatesBlock(h, BlockPath(i), j);
    if IsBlockActive(h, BlockPath(k)) {
      AtMostOneBlockActive(h, i, k);
    }
  }

  /**
   * Entering segment `j` of block `i` makes exactly that segment active,
   * its block active, and every other block inactive.
   */
  lemma EnterSegmentHighlights(h: Hover, i: nat, j: nat, k: nat, l: nat)
    ensures var h' := Step(h, EnterSegment(SegmentPath(BlockPath(i), j)));
      && SegmentClassOf(h', SegmentPath(BlockPath(i), j), BlockPath(i)) == SegmentIsActive
      && BlockClassOf(h', BlockPath(i)) == BlockIsActive
      && (k != i ==> BlockClassOf(h', BlockPath(k)) == BlockPlain)
      && ((k, l) != (i, j) ==> !IsSegmentActive(h', SegmentPath(BlockPath(k), l)))
  {
    var h' := Step(h, EnterSegment(SegmentPath(BlockPath(i), j)));
    ActiveSegmentActivatesBlock(h', BlockPath(i), j);
    if k != i {
      OtherBlocksStayPlain(i, j, k, l);
    }
    if IsSegmentActive(h', SegmentPath(BlockPath(k), l)) {
      SegmentPathInjective(i, j, k, l);
    }
  }

  /**
   * Leaving a segment of block `i` hands the hover back to the block: the
   * block is active and each of its segments shows the in-block class.
   */
  lemma LeaveSegmentHandsBack(h: Hover, i: nat, j: nat)
    ensures var h' := Step(h, LeaveSegment(BlockPath(i)));
      && BlockClassOf(h', BlockPath(i)) == BlockIsActive
      && SegmentClassOf(h', SegmentPath(BlockPath(i), j), BlockPath(i)) == SegmentIsInBlock
  {
    var s := SegmentPath(BlockPath(i), j);
    assert |s| > |BlockPath(i)|;
  }

  /** A pointer move over a block's own area claims the block; over one of its segments it changes nothing. */
  lemma BlockMoveClaims(h: Hover, i: nat, overSegment: bool)
    ensures var h' := Step(h, BlockMove(BlockPath(i), overSegment));
      && (!overSegment ==> h' == Some(BlockPath(i)) && BlockClassOf(h', BlockPath(i)) == BlockIsActive)
      && (overSegment ==> h' == h)
  {
  }

  /** Leaving a block clears the hover, so no card of any block stays highlighted. */
  lemma LeaveBlockClears(h: Hover, i: nat, j: nat)
    ensures var h' := Step(h, LeaveBlock);
      && BlockClassOf(h', BlockPath(i)) == BlockPlain
      && SegmentClassOf(h', SegmentPath(BlockPath(i), j), BlockPath(i)) == SegmentPlain
  {
    NothingHovered(SegmentPath(BlockPath(i), j), BlockPath(i));
  }
}
