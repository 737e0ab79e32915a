/**
 * The preview model: the blocks and segments of a parsed theme document, each
 * tagged with the structural path the editor uses for the same element.
 */
module PreviewModel {
  import opened Wrappers
  import opened JsText
  import opened HighlightPath

  /** A value produced by `JSON.parse`. Numbers keep their literal text: nothing here computes with them. */
  datatype Json =
    | JNull
    | JBool(b: bool)
    | JNumber(literal: JsString)
    | JString(s: JsString)
    | JArray(elements: seq<Json>)
    | JObject(members: seq<(JsString, Json)>)

  // Property names read by the preview.
  /** "alignment" */
  const ALIGNMENT: JsString := [0x61, 0x6C, 0x69, 0x67, 0x6E, 0x6D, 0x65, 0x6E, 0x74]
  /** "type" */
  const TYPE: JsString := [0x74, 0x79, 0x70, 0x65]
  /** "template" */
  const TEMPLATE: JsString := [0x74, 0x65, 0x6D, 0x70, 0x6C, 0x61, 0x74, 0x65]
  /** "background" */
  const BACKGROUND: JsString := [0x62, 0x61, 0x63, 0x6B, 0x67, 0x72, 0x6F, 0x75, 0x6E, 0x64]
  /** "foreground" */
  const FOREGROUND: JsString := [0x66, 0x6F, 0x72, 0x65, 0x67, 0x72, 0x6F, 0x75, 0x6E, 0x64]

  /** The value of the last member called `name` in a member list (a later duplicate overrides an earlier one). */
  function LastMember(members: seq<(JsString, Json)>, name: JsString): (r: Option<Json>)
    ensures r.None? <==> forall k | 0 <= k < |members| :: members[k].0 != name
    ensures r.Some? ==> exists k | 0 <= k < |members| ::
      members[k] == (name, r.value) && forall j | k < j < |members| :: members[j].0 != name
  {
    if |members| == 0 then None
    else if members[|members| - 1].0 == name then Some(members[|members| - 1].1)
    else
      var front := members[..|members| - 1];
      var r := LastMember(front, name);
      assert r.Some? ==> exists k | 0 <= k < |members| ::
        members[k] == (name, r.value) && forall j | k < j < |members| :: members[j].0 != name
      by {
        if r.Some? {
          var k :| 0 <= k < |front| && front[k] == (name, r.value)
                   && forall j | k < j < |front| :: front[j].0 != name;
          assert members[k] == front[k];
          assert forall j | k < j < |members| :: members[j].0 != name by {
            forall j | k < j < |members| ensures members[j].0 != name {
              if j < |front| { assert members[j] == front[j]; }
            }
          }
        }
      }
      r
  }

  /** `v?.name`: a member of an object; undefined (None) for every other value. */
  function Field(v: Json, name: JsString): (r: Option<Json>)
    ensures !v.JObject? ==> r.None?
    ensures v.JObject? ==> r == LastMember(v.members, name)
  {
    if v.JObject? then LastMember(v.members, name) else None
  }

  /** `Array.isArray(v?.name) ? v.name : []` */
  function ArrayField(v: Json, name: JsString): (r: seq<Json>)
    ensures Field(v, name).Some? && Field(v, name).value.JArray? ==> r == Field(v, name).value.elements
    ensures !(Field(v, name).Some? && Field(v, name).value.JArray?) ==> r == []
  {
    match Field(v, name)
    case Some(JArray(elements)) => elements
    case _ => []
  }

  datatype PreviewSegment = PreviewSegment(
    path: JsString,
    segmentType: Option<Json>,
    template: Option<Json>,
    background: Option<Json>,
    foreground: Option<Json>)

  datatype PreviewBlock = PreviewBlock(path: JsString, alignment: Option<Json>, segments: seq<PreviewSegment>)

  /** `.blocks[${i}]` */
  function BlockPath(i: nat): JsString {
    [DOT] + BLOCKS + IndexKey(i)
  }

  /** `${blockPath}.segments[${j}]` */
  function SegmentPath(blockPath: JsString, j: nat): JsString {
    blockPath + [DOT] + SEGMENTS + IndexKey(j)
  }

  function PreviewSegmentOf(blockPath: JsString, s: Json, j: nat): (r: PreviewSegment)
    ensures StartsWith(r.path, blockPath + [DOT] + SEGMENTS)
    ensures IsIndexKey(r.path[|blockPath| + 9..])
  {
    PreviewSegment(SegmentPath(blockPath, j), Field(s, TYPE), Field(s, TEMPLATE), Field(s, BACKGROUND), Field(s, FOREGROUND))
  }

  function PreviewBlockOf(b: Json, i: nat): (r: PreviewBlock)
    ensures r.path == BlockPath(i) && |r.segments| == |ArrayField(b, SEGMENTS)|
  {
    var blockPath := BlockPath(i);
    var segments := ArrayField(b, SEGMENTS);
    PreviewBlock(blockPath, Field(b, ALIGNMENT),
      seq(|segments|, j requires 0 <= j < |segments| => PreviewSegmentOf(blockPath, segments[j], j)))
  }

  /**
   * `buildPreviewModel(jsonText)`, with `JSON.parse(jsonText)` given as
   * `parsed` (None when it throws).
   */
  function BuildPreviewModel(parsed: Option<Json>): (r: seq<PreviewBlock>)
    ensures parsed.None? ==> r == []
    ensures parsed.Some? ==> |r| == |ArrayField(parsed.value, BLOCKS)|
    ensures parsed.Some? ==> var blocks := ArrayField(parsed.value, BLOCKS);
      forall i | 0 <= i < |r| ::
        && r[i].path == BlockPath(i)
        && r[i].alignment == Field(blocks[i], ALIGNMENT)
        && |r[i].segments| == |ArrayField(blocks[i], SEGMENTS)|
    ensures parsed.Some? ==> var blocks := ArrayField(parsed.value, BLOCKS);
      forall i, j | 0 <= i < |r| && 0 <= j < |r[i].segments| ::
        var s := ArrayField(blocks[i], SEGMENTS)[j];
        && r[i].segments[j].path == SegmentPath(BlockPath(i), j)
        && r[i].segments[j].segmentType == Field(s, TYPE)
        && r[i].segments[j].template == Field(s, TEMPLATE)
        && r[i].segments[j].background == Field(s, BACKGROUND)
        && r[i].segments[j].foreground == Field(s, FOREGROUND)
  {
    match parsed
    case None => []
    case Some(data) =>
      var blocks := ArrayField(data, BLOCKS);
      seq(|blocks|, i requires 0 <= i < |blocks| => PreviewBlockOf(blocks[i], i))
  }

  /**
   * `{"blocks":[{"alignment":"left","segments":[{"type":"path"}]}]}` gives one
   * block `.blocks[0]` aligned left, with one segment of type "path" and no
   * template; a repeated member counts by its last occurrence.
   */
  lemma PreviewExample()
    ensures var left := JString([0x6C, 0x65, 0x66, 0x74]);
      var path := JString([0x70, 0x61, 0x74, 0x68]);
      var segment := JObject([(TYPE, JNull), (TYPE, path)]);
      var block := JObject([(ALIGNMENT, left), (SEGMENTS, JArray([segment]))]);
      var r := BuildPreviewModel(Some(JObject([(BLOCKS, JArray([block]))])));
      && |r| == 1 && r[0].path == BlockPath(0) && r[0].alignment == Some(left)
      && |r[0].segments| == 1 && r[0].segments[0].path == SegmentPath(BlockPath(0), 0)
      && r[0].segments[0].segmentType == Some(path) && r[0].segments[0].template == None
  {
    var left := JString([0x6C, 0x65, 0x66, 0x74]);
    var path := JString([0x70, 0x61, 0x74, 0x68]);
    var segment := JObject([(TYPE, JNull), (TYPE, path)]);
    var block := JObject([(ALIGNMENT, left), (SEGMENTS, JArray([segment]))]);
    var data := JObject([(BLOCKS, JArray([block]))]);
    assert ArrayField(data, BLOCKS) == [block] by {
      assert LastMember(data.members, BLOCKS) == Some(JArray([block]));
    }
    assert Field(block, ALIGNMENT) == Some(left) by {
      var front := block.members[..1];
      assert block.members[1].0 != ALIGNMENT by { assert |SEGMENTS| != |ALIGNMENT|; }
      assert front == [(ALIGNMENT, left)];
      assert LastMember(front, ALIGNMENT) == Some(left);
      assert LastMember(block.members, ALIGNMENT) == LastMember(front, ALIGNMENT);
    }
    assert ArrayField(block, SEGMENTS) == [segment] by {
      assert LastMember(block.members, SEGMENTS) == Some(JArray([segment]));
    }
    assert Field(segment, TYPE) == Some(path) by {
      assert LastMember(segment.members, TYPE) == Some(path);
    }
    assert Field(segment, TEMPLATE) == None by {
      assert |TEMPLATE| != |TYPE|;
    }
    var r := BuildPreviewModel(Some(data));
    assert |r| == 1;
    assert r[0] == PreviewBlockOf(block, 0);
  }

  /**
   * The paths the preview builds have the shapes the resolver looks for:
   * a block path is block-shaped and a segment path is segment-shaped.
   */
  lemma PreviewPathShapes(i: nat, j: nat)
    ensures IsBlock(BlockPath(i))
    ensures IsSegment(SegmentPath(BlockPath(i), j))
  {
    BlockPathShape(i);
    SegmentPathShape(i, j);
  }

  lemma BlockPathShape(i: nat)
    ensures IsBlock(BlockPath(i))
  {
    var p := BlockPath(i);
    assert p == [DOT] + (BLOCKS + IndexKey(i));
    assert DropDot(p) == BLOCKS + IndexKey(i);
    BlockGrammar(p);
  }

  lemma SegmentPathShape(i: nat, j: nat)
    ensures IsSegment(SegmentPath(BlockPath(i), j))
  {
    var p := SegmentPath(BlockPath(i), j);
    assert p == [DOT] + (BLOCKS + IndexKey(i) + [DOT] + SEGMENTS + IndexKey(j));
    assert DropDot(p) == BLOCKS + IndexKey(i) + [DOT] + SEGMENTS + IndexKey(j);
    SegmentGrammar(p);
  }

  /** A block path is `.blocks[` followed by its index and `]`, which names the index uniquely. */
  lemma BlockPathInjective(i: nat, k: nat)
    requires BlockPath(i) == BlockPath(k)
    ensures i == k
  {
    var a := BlockPath(i);
    assert a[8..|a| - 1] == Decimal(i);
    assert BlockPath(k)[8..|a| - 1] == Decimal(k);
    DecimalInjective(i, k);
  }

  /** Distinct (block, segment) index pairs give distinct segment paths. */
  lemma SegmentPathInjective(i: nat, j: nat, k: nat, l: nat)
    requires SegmentPath(BlockPath(i), j) == SegmentPath(BlockPath(k), l)
    ensures i == k && j == l
  {
    var p := SegmentPath(BlockPath(i), j);
    SegmentPathSplit(i, j);
    SegmentPathSplit(k, l);
    var tail := p[8..];
    NoCloseInDecimal(i);
    NoCloseInDecimal(k);
    DelimitedPrefixUnique(tail, Decimal(i), Decimal(k), CLOSE_BRACKET);
    DecimalInjective(i, k);
    SegmentIndexAtEnd(i, j);
    SegmentIndexAtEnd(k, l);
    DecimalInjective(j, l);
  }

  /** After the eight units `.blocks[`, a segment path continues with its block index and `]`. */
  lemma SegmentPathSplit(i: nat, j: nat)
    ensures var p := SegmentPath(BlockPath(i), j);
      |p| > 8 && StartsWith(p[8..], Decimal(i) + [CLOSE_BRACKET])
  {
    var p := SegmentPath(BlockPath(i), j);
    var key := Decimal(i) + [CLOSE_BRACKET];
    var rest := [DOT] + SEGMENTS + IndexKey(j);
    assert p[8..] == key + rest by {
      var head := [DOT] + BLOCKS + [OPEN_BRACKET];
      assert BlockPath(i) == head + key;
      assert p == head + (key + rest);
    }
    StartsWithAppend(key, rest);
  }

  /** The segment index is the digit run between the last `[` and the final `]`. */
  lemma SegmentIndexAtEnd(i: nat, j: nat)
    ensures var p := SegmentPath(BlockPath(i), j);
      |p| >= |Decimal(j)| + 1 && p[|p| - 1 - |Decimal(j)|..|p| - 1] == Decimal(j)
  {
    var p := SegmentPath(BlockPath(i), j);
    var front := BlockPath(i) + [DOT] + SEGMENTS + [OPEN_BRACKET];
    assert p == front + Decimal(j) + [CLOSE_BRACKET];
    assert p[|front|..|p| - 1] == Decimal(j);
  }

  /** A decimal numeral never contains `]`. */
  lemma NoCloseInDecimal(i: nat)
    ensures CLOSE_BRACKET !in Decimal(i)
  {
    var d := Decimal(i);
    assert forall k | 0 <= k < |d| :: IsDecimalDigit(d[k]);
  }
}
