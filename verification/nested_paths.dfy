/**
 * A document nested the way a theme is: `{"blocks":[{"segments":[{}]}]}`.
 * The walk goes down through the `blocks` property, into the array's object
 * element, through its `segments` property and into that array's element,
 * so the map holds `.blocks[0].segments` and `.blocks[0].segments[0]`, the
 * paths the highlight resolver looks for.
 */
module NestedPaths {
  import opened Wrappers
  import opened JsText
  import opened PathMap
  import OrderedMap

  /** The document `{"blocks":[{"segments":[{}]}]}` as code units. */
  const NEST_TEXT: JsString := [
    0x7B, 0x22, 0x62, 0x6C, 0x6F, 0x63, 0x6B, 0x73, 0x22, 0x3A, 0x5B, 0x7B, 0x22, 0x73, 0x65,
    0x67, 0x6D, 0x65, 0x6E, 0x74, 0x73, 0x22, 0x3A, 0x5B, 0x7B, 0x7D, 0x5D, 0x7D, 0x5D, 0x7D]

  /** A punctuation token: a node without children. */
  function Token(from: int): Node {
    Node(Other, from, from + 1, [])
  }

  const SEGMENT_OBJ: Node := Node(Object, 24, 26, [Token(24), Token(25)])
  const SEGMENT_ARR: Node := Node(Array, 23, 27, [Token(23), SEGMENT_OBJ, Token(26)])
  const SEGMENTS_NAME: Node := Node(PropertyName, 12, 22, [])
  const SEGMENTS_PROP: Node := Node(Property, 12, 27, [SEGMENTS_NAME, SEGMENT_ARR])
  const BLOCK_OBJ: Node := Node(Object, 11, 28, [Token(11), SEGMENTS_PROP, Token(27)])
  const BLOCK_ARR: Node := Node(Array, 10, 29, [Token(10), BLOCK_OBJ, Token(28)])
  const BLOCKS_NAME: Node := Node(PropertyName, 1, 9, [])
  const BLOCKS_PROP: Node := Node(Property, 1, 29, [BLOCKS_NAME, BLOCK_ARR])
  const NEST_ROOT: Node := Node(Object, 0, 30, [Token(0), BLOCKS_PROP, Token(29)])

  /** `.blocks` */
  const BLOCKS_PATH: JsString := [DOT] + BLOCKS
  /** `.blocks[0]` */
  const BLOCK_PATH: JsString := BLOCKS_PATH + IndexKey(0)
  /** `.blocks[0].segments` */
  const SEGMENTS_PATH: JsString := BLOCK_PATH + [DOT] + SEGMENTS
  /** `.blocks[0].segments[0]` */
  const SEGMENT_PATH: JsString := SEGMENTS_PATH + IndexKey(0)

  /** A punctuation token is walked without any write. */
  lemma TokenWrites(text: JsString, t: Node, prefix: JsString)
    requires t.kind == Other && t.children == []
    ensures Writes(text, t, prefix) == []
  {
    assert Writes(text, t, prefix) == ChildWrites(text, t, prefix, 0);
  }

  /** Between its brackets or braces, a node with one inner child files under any path what that child files there. */
  lemma Bracketed(text: JsString, n: Node, prefix: JsString, at: JsString)
    requires n.kind == Object && |n.children| == 3
    requires n.children[0].kind == Other && n.children[0].children == []
    requires n.children[2].kind == Other && n.children[2].children == []
    ensures DirectWrites(Writes(text, n, prefix), at) == DirectWrites(Writes(text, n.children[1], prefix), at)
  {
    var cs := n.children;
    ObjectEntries(text, n, prefix, at);
    TokenWrites(text, cs[0], prefix);
    TokenWrites(text, cs[2], prefix);
    assert cs[1..][0] == cs[1];
    assert cs[1..][1..] == [cs[2]];
    assert [cs[2]][1..] == [];
    assert ChildrenDirect(text, [cs[2]], prefix, at) == DirectWrites(Writes(text, cs[2], prefix), at) + [];
  }

  /** An array whose one element sits between its brackets has that element as its only indexed one. */
  lemma OneElement(cs: seq<Node>)
    requires |cs| == 3 && IsContainer(cs[1])
    requires cs[0].kind == Other && cs[2].kind == Other
    ensures Containers(cs) == [cs[1]]
  {
    assert cs[1..][0] == cs[1];
    assert cs[1..][1..] == [cs[2]];
    assert [cs[2]][1..] == [];
    assert Containers([cs[2]]) == [];
    assert Containers(cs[1..]) == [cs[1]];
  }

  /** The top object adds nothing of its own: under any path it files what its `blocks` property files. */
  lemma RootAt(at: JsString)
    ensures DirectWrites(Writes(NEST_TEXT, NEST_ROOT, []), at) == DirectWrites(Writes(NEST_TEXT, BLOCKS_PROP, []), at)
  {
    Bracketed(NEST_TEXT, NEST_ROOT, [], at);
  }

  /** The two property names, with their quotes dropped. */
  lemma KeyTexts()
    ensures KeyText(NEST_TEXT, BLOCKS_NAME) == BLOCKS
    ensures KeyText(NEST_TEXT, SEGMENTS_NAME) == SEGMENTS
  {
    assert NEST_TEXT[2] == 0x62 && NEST_TEXT[3] == 0x6C && NEST_TEXT[4] == 0x6F;
    assert NEST_TEXT[5] == 0x63 && NEST_TEXT[6] == 0x6B && NEST_TEXT[7] == 0x73;
    assert NEST_TEXT[2..8] == BLOCKS;
    assert NEST_TEXT[13] == 0x73 && NEST_TEXT[14] == 0x65 && NEST_TEXT[15] == 0x67 && NEST_TEXT[16] == 0x6D;
    assert NEST_TEXT[17] == 0x65 && NEST_TEXT[18] == 0x6E && NEST_TEXT[19] == 0x74 && NEST_TEXT[20] == 0x73;
    assert NEST_TEXT[13..21] == SEGMENTS;
  }

  /** Below `.blocks`, the `blocks` property files what its array value's walk under `.blocks` files. */
  lemma BlocksPropAt(at: JsString)
    requires at != []
    ensures DirectWrites(Writes(NEST_TEXT, BLOCKS_PROP, []), at) == DirectWrites(Writes(NEST_TEXT, BLOCK_ARR, BLOCKS_PATH), at)
  {
    assert GetChild(BLOCKS_PROP.children, PropertyName) == Some(BLOCKS_NAME);
    assert ValueChild(BLOCKS_PROP) == Some(BLOCK_ARR);
    KeyTexts();
    PropertyEntry(NEST_TEXT, BLOCKS_PROP, [], BLOCKS_NAME, BLOCK_ARR);
    var top: JsString := [];
    assert top + [DOT] + BLOCKS == BLOCKS_PATH;
  }

  /** The only object-or-array element of each array here sits between its brackets. */
  lemma OneContainer()
    ensures Containers(BLOCK_ARR.children) == [BLOCK_OBJ]
    ensures Containers(SEGMENT_ARR.children) == [SEGMENT_OBJ]
  {
    OneElement(BLOCK_ARR.children);
    OneElement(SEGMENT_ARR.children);
  }

  /** Inside `.blocks[0]`, the block object files what its `segments` property files under `.blocks[0]`. */
  lemma BlockObjAt(at: JsString)
    ensures DirectWrites(Writes(NEST_TEXT, BLOCK_OBJ, BLOCK_PATH), at)
         == DirectWrites(Writes(NEST_TEXT, SEGMENTS_PROP, BLOCK_PATH), at)
  {
    Bracketed(NEST_TEXT, BLOCK_OBJ, BLOCK_PATH, at);
  }

  /** The walk files `.blocks[0]` directly under `.blocks`, with the element's span. */
  lemma BlockEntry()
    ensures var d := DirectWrites(Writes(NEST_TEXT, NEST_ROOT, []), BLOCKS_PATH);
      |d| == 1 && d[0].0 == BLOCK_PATH && d[0].1.from == 11 && d[0].1.to == 28
  {
    RootAt(BLOCKS_PATH);
    BlocksPropAt(BLOCKS_PATH);
    OneContainer();
    ArrayEntries(NEST_TEXT, BLOCK_ARR, BLOCKS_PATH);
  }

  /** The walk files `.blocks[0].segments` directly under `.blocks[0]`, with the property's span. */
  lemma SegmentsEntry()
    ensures var d := DirectWrites(Writes(NEST_TEXT, NEST_ROOT, []), BLOCK_PATH);
      |d| == 1 && d[0].0 == SEGMENTS_PATH && d[0].1.from == 12 && d[0].1.to == 27
  {
    assert DirectWrites(Writes(NEST_TEXT, NEST_ROOT, []), BLOCK_PATH)
        == DirectWrites(Writes(NEST_TEXT, BLOCK_OBJ, BLOCK_PATH), BLOCK_PATH) by {
      IntoBlock(BLOCK_PATH);
    }
    BlockObjAt(BLOCK_PATH);
    SegmentsOwn();
  }

  /** Under any path inside `.blocks[0]`, the document files what the block object's walk under `.blocks[0]` files. */
  lemma IntoBlock(at: JsString)
    requires StartsWith(at, BLOCK_PATH)
    ensures DirectWrites(Writes(NEST_TEXT, NEST_ROOT, []), at)
         == DirectWrites(Writes(NEST_TEXT, BLOCK_OBJ, BLOCK_PATH), at)
  {
    RootAt(at);
    BlocksPropAt(at);
    OneContainer();
    ArrayDescends(NEST_TEXT, BLOCK_ARR, BLOCKS_PATH, 0, at);
  }

  /** `segments` is a complete property: its own entry, under `.blocks[0]`, is `.blocks[0].segments`. */
  lemma SegmentsOwn()
    ensures var d := DirectWrites(Writes(NEST_TEXT, SEGMENTS_PROP, BLOCK_PATH), BLOCK_PATH);
      |d| == 1 && d[0].0 == SEGMENTS_PATH && d[0].1.from == 12 && d[0].1.to == 27
  {
    assert GetChild(SEGMENTS_PROP.children, PropertyName) == Some(SEGMENTS_NAME);
    assert ValueChild(SEGMENTS_PROP) == Some(SEGMENT_ARR);
    KeyTexts();
    PropertyDirect(NEST_TEXT, SEGMENTS_PROP, BLOCK_PATH);
  }

  /** The walk files `.blocks[0].segments[0]` directly under `.blocks[0].segments`, with the element's span. */
  lemma SegmentEntry()
    ensures var d := DirectWrites(Writes(NEST_TEXT, NEST_ROOT, []), SEGMENTS_PATH);
      |d| == 1 && d[0].0 == SEGMENT_PATH && d[0].1.from == 24 && d[0].1.to == 26
  {
    assert DirectWrites(Writes(NEST_TEXT, NEST_ROOT, []), SEGMENTS_PATH)
        == DirectWrites(Writes(NEST_TEXT, BLOCK_OBJ, BLOCK_PATH), SEGMENTS_PATH) by {
      assert SEGMENTS_PATH[..|BLOCK_PATH|] == BLOCK_PATH;
      IntoBlock(SEGMENTS_PATH);
    }
    BlockObjAt(SEGMENTS_PATH);
    SegmentsDescend();
    OneContainer();
    ArrayEntries(NEST_TEXT, SEGMENT_ARR, SEGMENTS_PATH);
  }

  /** Under its own path the `segments` property files what its array value's walk files there. */
  lemma SegmentsDescend()
    ensures DirectWrites(Writes(NEST_TEXT, SEGMENTS_PROP, BLOCK_PATH), SEGMENTS_PATH)
         == DirectWrites(Writes(NEST_TEXT, SEGMENT_ARR, SEGMENTS_PATH), SEGMENTS_PATH)
  {
    assert GetChild(SEGMENTS_PROP.children, PropertyName) == Some(SEGMENTS_NAME);
    assert ValueChild(SEGMENTS_PROP) == Some(SEGMENT_ARR);
    KeyTexts();
    PropertyEntry(NEST_TEXT, SEGMENTS_PROP, BLOCK_PATH, SEGMENTS_NAME, SEGMENT_ARR);
  }

  /** The path map of the document holds `.blocks[0]`, `.blocks[0].segments` and `.blocks[0].segments[0]`. */
  lemma NestedPathsFiled()
    ensures var m := BuildPathMap(NEST_TEXT, NEST_ROOT);
      && OrderedMap.Get(m, BLOCK_PATH).Some?
      && OrderedMap.Get(m, SEGMENTS_PATH).Some?
      && OrderedMap.Get(m, SEGMENT_PATH).Some?
  {
    var ws := Writes(NEST_TEXT, NEST_ROOT, []);
    BlockEntry();
    SegmentsEntry();
    SegmentEntry();
    Filed(ws, BLOCK_PATH, BLOCKS_PATH);
    Filed(ws, SEGMENTS_PATH, BLOCK_PATH);
    Filed(ws, SEGMENT_PATH, SEGMENTS_PATH);
  }

  /** A path some write files directly under `parent` ends up in the map. */
  lemma Filed(ws: seq<Entry>, p: JsString, parent: JsString)
    requires ws == Writes(NEST_TEXT, NEST_ROOT, [])
    requires var d := DirectWrites(ws, parent); |d| >= 1 && d[0].0 == p
    ensures OrderedMap.Get(BuildPathMap(NEST_TEXT, NEST_ROOT), p).Some?
  {
    var d := DirectWrites(ws, parent);
    assert d[0] in ws;
    var j :| 0 <= j < |ws| && ws[j] == d[0];
    BuildPathMapLastWriteWins(NEST_TEXT, NEST_ROOT, p);
    assert ws[j].0 == p;
  }
}
