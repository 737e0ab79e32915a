/**
 * A document with a repeated object key. The path map keeps one entry per
 * path and the later property's write wins, so the entry filed under the
 * first property's value can end up with a parent entry whose span no
 * longer holds it.
 */
module DuplicateKeys {
  import opened Wrappers
  import opened JsText
  import opened PathMap
  import OrderedMap

  /** The document `{"a":{"b":1},"a":2}` as code units. */
  const DUP_TEXT: JsString := [0x7B, 0x22, 0x61, 0x22, 0x3A, 0x7B, 0x22, 0x62, 0x22, 0x3A, 0x31, 0x7D, 0x2C, 0x22, 0x61, 0x22, 0x3A, 0x32, 0x7D]

  const INNER: Node := Node(Property, 6, 11, [Node(PropertyName, 6, 9, []), Node(Other, 10, 11, [])])
  const FIRST_A: Node := Node(Property, 1, 12, [Node(PropertyName, 1, 4, []), INNER_OBJ])
  const SECOND_A: Node := Node(Property, 13, 18, [Node(PropertyName, 13, 16, []), Node(Other, 17, 18, [])])
  const DUP_ROOT: Node := Node(Object, 0, 19, [FIRST_A, SECOND_A])

  /** A one-unit key between quotes. */
  lemma OneUnitKey(from: nat)
    requires from + 3 <= |DUP_TEXT|
    ensures KeyText(DUP_TEXT, Node(PropertyName, from, from + 3, [])) == [DUP_TEXT[from + 1]]
  {
  }

  const INNER_OBJ: Node := Node(Object, 5, 12, [INNER])

  lemma InnerWrites()
    ensures var w := Writes(DUP_TEXT, INNER, [DOT, 0x61]);
      |w| == 1 && w[0].0 == [DOT, 0x61, DOT, 0x62]
      && w[0].1.parentPath == [DOT, 0x61] && w[0].1.from == 6 && w[0].1.to == 11
  {
    var keyNode := INNER.children[0];
    OneUnitKey(6);
    assert GetChild(INNER.children, PropertyName) == Some(keyNode);
    assert ValueChild(INNER) == Some(INNER.children[1]);
    PropertyEntry(DUP_TEXT, INNER, [DOT, 0x61], keyNode, INNER.children[1]);
    assert [DOT, 0x61] + [DOT] + KeyText(DUP_TEXT, keyNode) == [DOT, 0x61, DOT, 0x62];
  }

  lemma InnerObjWrites()
    ensures Writes(DUP_TEXT, INNER_OBJ, [DOT, 0x61]) == Writes(DUP_TEXT, INNER, [DOT, 0x61])
  {
    assert ChildWrites(DUP_TEXT, INNER_OBJ, [DOT, 0x61], 1) == [];
  }

  lemma FirstAWrites()
    ensures var w := Writes(DUP_TEXT, FIRST_A, []);
      |w| == 2 && w[0].0 == [DOT, 0x61] && w[1].0 == [DOT, 0x61, DOT, 0x62]
      && w[1].1.parentPath == [DOT, 0x61] && w[1].1.from == 6 && w[1].1.to == 11
  {
    InnerWrites();
    InnerObjWrites();
    FirstAUnfolds();
  }

  /** The first property files `.a` and then walks its object value under `.a`. */
  lemma FirstAUnfolds()
    ensures var w := Writes(DUP_TEXT, FIRST_A, []);
      |w| >= 1 && w[0].0 == [DOT, 0x61] && w[1..] == Writes(DUP_TEXT, INNER_OBJ, [DOT, 0x61])
  {
    OneUnitKey(1);
    assert GetChild(FIRST_A.children, PropertyName) == Some(FIRST_A.children[0]);
    assert ValueChild(FIRST_A) == Some(INNER_OBJ);
    var key := KeyText(DUP_TEXT, FIRST_A.children[0]);
    assert [] + [DOT] + key == [DOT, 0x61];
    assert IsContainer(INNER_OBJ);
  }

  lemma SecondAWrites()
    ensures var w := Writes(DUP_TEXT, SECOND_A, []);
      |w| == 1 && w[0].0 == [DOT, 0x61] && w[0].1.from == 13 && w[0].1.to == 18
  {
    var keyNode := SECOND_A.children[0];
    OneUnitKey(13);
    assert GetChild(SECOND_A.children, PropertyName) == Some(keyNode);
    assert ValueChild(SECOND_A) == Some(SECOND_A.children[1]);
    PropertyEntry(DUP_TEXT, SECOND_A, [], keyNode, SECOND_A.children[1]);
    assert [] + [DOT] + KeyText(DUP_TEXT, keyNode) == [DOT, 0x61];
  }

  /** The walk makes three writes: `.a`, `.a.b`, and `.a` again. */
  lemma DupWrites()
    ensures var ws := Writes(DUP_TEXT, DUP_ROOT, []);
      |ws| == 3 && ws[0].0 == [DOT, 0x61] && ws[1].0 == [DOT, 0x61, DOT, 0x62] && ws[2].0 == [DOT, 0x61]
      && ws[1].1.parentPath == [DOT, 0x61] && ws[1].1.from == 6 && ws[1].1.to == 11
      && ws[2].1.from == 13 && ws[2].1.to == 18
  {
    FirstAWrites();
    SecondAWrites();
    RootUnfolds();
  }

  /** The top object is walked child by child, without extending the path. */
  lemma RootUnfolds()
    ensures Writes(DUP_TEXT, DUP_ROOT, []) == Writes(DUP_TEXT, FIRST_A, []) + Writes(DUP_TEXT, SECOND_A, [])
  {
    assert ChildWrites(DUP_TEXT, DUP_ROOT, [], 2) == [];
    assert ChildWrites(DUP_TEXT, DUP_ROOT, [], 1) == Writes(DUP_TEXT, SECOND_A, []);
  }

  lemma DupWellNested()
    ensures WellNested(DUP_ROOT)
  {
    assert WellNested(INNER.children[0]) && WellNested(INNER.children[1]);
    assert WellNested(INNER);
    assert WellNested(INNER_OBJ);
    assert WellNested(FIRST_A.children[0]);
    assert WellNested(FIRST_A);
    assert WellNested(SECOND_A.children[0]) && WellNested(SECOND_A.children[1]);
    assert WellNested(SECOND_A);
  }

  /**
   * In `{"a":{"b":1},"a":2}` the map files `.a.b` at `[6, 11)` under parent
   * `.a`, but `.a` itself ends up with the second property's span `[13, 18)`.
   */
  lemma DuplicateKeyBreaksContainment()
    ensures WellNested(DUP_ROOT)
    ensures var m := BuildPathMap(DUP_TEXT, DUP_ROOT);
      var child := OrderedMap.Get(m, [DOT, 0x61, DOT, 0x62]);
      var parent := OrderedMap.Get(m, [DOT, 0x61]);
      && child.Some? && parent.Some?
      && child.value.parentPath == [DOT, 0x61]
      && !SpanContains(parent.value, child.value)
  {
    DupWellNested();
    DupWrites();
    var ws := Writes(DUP_TEXT, DUP_ROOT, []);
    BuildPathMapLastWriteWins(DUP_TEXT, DUP_ROOT, [DOT, 0x61, DOT, 0x62]);
    BuildPathMapLastWriteWins(DUP_TEXT, DUP_ROOT, [DOT, 0x61]);
    assert OrderedMap.LastWrite(ws, [DOT, 0x61]) == Some(ws[2].1);
    assert ws[..2][..1] == ws[..1];
    assert OrderedMap.LastWrite(ws, [DOT, 0x61, DOT, 0x62]) == Some(ws[1].1);
  }
}
