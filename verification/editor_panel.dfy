/**
 * The value-level rules of the editor pane: the escaping applied to the
 * document before it is loaded, the hover-decoration field, the payload
 * derived from the hovered path, and the pointer handlers that write the
 * hovered path.
 */
module EditorPanel {
  import opened Wrappers
  import opened JsText
  import opened PathMap
  import OrderedMap
  import opened HighlightPath

  // ---------------------------------------------------------------------------
  // escapeUnicode

  /** "0000" */
  const ZEROS: JsString := [ZERO, ZERO, ZERO, ZERO]

  /** `s.slice(-4)` */
  function LastFour(s: JsString): (r: JsString)
    ensures |s| >= 4 ==> r == s[|s| - 4..]
    ensures |s| < 4 ==> r == s
  {
    Slice(s, -4, |s|)
  }

  /** The replacement for one code unit: units from U+007F up become `\u` and four hex digits. */
  function EscapeUnit(c: CodeUnit): (r: JsString)
    ensures c < 0x7F ==> r == [c]
  {
    if c >= 0x7F then [BACKSLASH, LOWER_U] + LastFour(ZEROS + Hex(c))
    else [c]
  }

  /** The number of code units `escapeUnicode` rewrites. */
  function EscapedCount(s: JsString): nat {
    if |s| == 0 then 0
    else (if s[0] >= 0x7F then 1 else 0) + EscapedCount(s[1..])
  }

  predicate IsAscii7(s: JsString) {
    forall k | 0 <= k < |s| :: s[k] < 0x7F
  }

  /**
   * `escapeUnicode(str)`: `str.replace(/[\u007f-\uffff]/g, ...)`. Without the
   * `u` flag the class matches single code units, so every unit from U+007F
   * up is rewritten on its own.
   */
  function EscapeUnicode(s: JsString): (r: JsString)
    ensures |r| == |s| + 5 * EscapedCount(s)
    ensures IsAscii7(r)
  {
    if |s| == 0 then []
    else
      var head := EscapeUnit(s[0]);
      assert IsAscii7(head) && |head| == (if s[0] >= 0x7F then 6 else 1) by {
        if s[0] >= 0x7F {
          HexFourDigits(s[0]);
        }
      }
      head + EscapeUnicode(s[1..])
  }

  /** The four hex digits of `c`, most significant first. */
  function FourHexDigits(c: CodeUnit): (r: JsString)
    ensures |r| == 4 && IsAscii7(r)
  {
    [DigitUnit(c / 0x1000), DigitUnit(c / 0x100 % 16), DigitUnit(c / 0x10 % 16), DigitUnit(c % 16)]
  }

  /** `('0000' + c.toString(16)).slice(-4)` is `c` as exactly four lower-case hex digits, zero-padded. */
  lemma HexFourDigits(c: CodeUnit)
    ensures LastFour(ZEROS + Hex(c)) == FourHexDigits(c)
  {
    var h := Hex(c);
    HexDigitsOf(c);
    NestedDivs(c);
    PadToFour(h);
    assert DigitUnit(0) == ZERO;
    if c < 0x10 {
      assert ZEROS[|h|..] + h == [ZERO, ZERO, ZERO] + h;
    } else if c < 0x100 {
      assert ZEROS[|h|..] + h == [ZERO, ZERO] + h;
    } else if c < 0x1000 {
      assert ZEROS[|h|..] + h == [ZERO] + h;
    } else {
      assert ZEROS[|h|..] + h == h;
    }
  }

  /** Padding with four zeros and keeping the last four units pads a short numeral to four. */
  lemma PadToFour(h: JsString)
    requires |h| <= 4
    ensures LastFour(ZEROS + h) == ZEROS[|h|..] + h
  {
    assert (ZEROS + h)[|h|..] == ZEROS[|h|..] + h;
  }

  /** The hex numeral of a code unit, digit by digit, with its leading zeros dropped. */
  lemma HexDigitsOf(c: CodeUnit)
    ensures c < 0x10 ==> Hex(c) == [DigitUnit(c % 16)]
    ensures 0x10 <= c < 0x100 ==> Hex(c) == [DigitUnit(c / 0x10 % 16), DigitUnit(c % 16)]
    ensures 0x100 <= c < 0x1000 ==>
      Hex(c) == [DigitUnit(c / 0x100 % 16), DigitUnit(c / 0x10 % 16), DigitUnit(c % 16)]
    ensures 0x1000 <= c ==>
      Hex(c) == [DigitUnit(c / 0x1000), DigitUnit(c / 0x100 % 16), DigitUnit(c / 0x10 % 16), DigitUnit(c % 16)]
  {
    NestedDivs(c);
    if 0x10 <= c {
      assert Hex(c) == Hex(c / 0x10) + [DigitUnit(c % 16)];
      HexDigitsBelow(c / 0x10);
    }
  }

  /** Dividing by 16 twice or three times is dividing by 0x100 or 0x1000. */
  lemma NestedDivs(c: nat)
    ensures c / 0x10 / 0x10 == c / 0x100
    ensures c / 0x10 / 0x10 / 0x10 == c / 0x1000
    ensures c < 0x100 ==> c / 0x10 % 16 == c / 0x10
    ensures c < 0x1000 ==> c / 0x100 % 16 == c / 0x100
  {
    var q1 := c / 0x10;
    var q2 := q1 / 0x10;
    var q3 := q2 / 0x10;
    assert c == 0x10 * q1 + c % 0x10;
    assert q1 == 0x10 * q2 + q1 % 0x10;
    assert c == 0x100 * q2 + 0x10 * (q1 % 0x10) + c % 0x10;
    assert 0 <= 0x10 * (q1 % 0x10) + c % 0x10 < 0x100;
    assert q2 == c / 0x100;
    assert q2 == 0x10 * q3 + q2 % 0x10;
    assert c == 0x1000 * q3 + 0x100 * (q2 % 0x10) + 0x10 * (q1 % 0x10) + c % 0x10;
    assert q3 == c / 0x1000;
  }

  /** The hex numeral of `n < 0x1000` as one, two or three digits. */
  lemma HexDigitsBelow(n: nat)
    requires n < 0x1000
    ensures n < 0x10 ==> Hex(n) == [DigitUnit(n)]
    ensures 0x10 <= n < 0x100 ==> Hex(n) == [DigitUnit(n / 0x10), DigitUnit(n % 16)]
    ensures 0x100 <= n ==> Hex(n) == [DigitUnit(n / 0x10 / 0x10), DigitUnit(n / 0x10 % 16), DigitUnit(n % 16)]
  {
    if 0x10 <= n {
      assert Hex(n) == Hex(n / 0x10) + [DigitUnit(n % 16)];
      if 0x100 <= n {
        assert Hex(n / 0x10) == Hex(n / 0x10 / 0x10) + [DigitUnit(n / 0x10 % 16)];
      }
    }
  }

  /** The rewrite works unit by unit: escaping a concatenation escapes each part. */
  lemma {:induction false} EscapeConcat(a: JsString, b: JsString)
    ensures EscapeUnicode(a + b) == EscapeUnicode(a) + EscapeUnicode(b)
  {
    if |a| == 0 {
      assert a + b == b;
    } else {
      assert (a + b)[1..] == a[1..] + b;
      EscapeConcat(a[1..], b);
    }
  }

  /** Each unit is replaced by its own escape: units below U+007F stay, the others become `\u` and four hex digits. */
  lemma EscapeSingleUnit(c: CodeUnit)
    ensures EscapeUnicode([c]) == EscapeUnit(c)
    ensures c < 0x7F ==> EscapeUnicode([c]) == [c]
    ensures c >= 0x7F ==> EscapeUnicode([c]) == [BACKSLASH, LOWER_U] + FourHexDigits(c)
  {
    assert [c][1..] == [];
    HexFourDigits(c);
  }

  /** Text with no unit from U+007F up comes back unchanged. */
  lemma {:induction false} EscapeAsciiUnchanged(s: JsString)
    requires IsAscii7(s)
    ensures EscapeUnicode(s) == s
  {
    if |s| > 0 {
      EscapeAsciiUnchanged(s[1..]);
      assert [s[0]] + s[1..] == s;
    }
  }

  /** Escaping twice is escaping once. */
  lemma EscapeIdempotent(s: JsString)
    ensures EscapeUnicode(EscapeUnicode(s)) == EscapeUnicode(s)
  {
    EscapeAsciiUnchanged(EscapeUnicode(s));
  }

  // ---------------------------------------------------------------------------
  // The inverse: reading `\uXXXX` escapes back, as a JSON string decoder does

  /** The value of a hex digit in either case, or 16 for any other unit. */
  function HexValue(c: CodeUnit): (d: nat)
    ensures d <= 16
  {
    if 0x41 <= c <= 0x46 then c - 0x41 + 10 else DigitValue(c)
  }

  /** `s` starts with `\u` and four hex digits. */
  predicate StartsWithEscape(s: JsString) {
    |s| >= 6 && s[0] == BACKSLASH && s[1] == LOWER_U
    && HexValue(s[2]) < 16 && HexValue(s[3]) < 16 && HexValue(s[4]) < 16 && HexValue(s[5]) < 16
  }

  /** The code unit an escape at the head of `s` names: its four digits with their place values. */
  function EscapedValue(s: JsString): (v: CodeUnit)
    requires StartsWithEscape(s)
  {
    HexValue(s[2]) * 0x1000 + HexValue(s[3]) * 0x100 + HexValue(s[4]) * 0x10 + HexValue(s[5])
  }

  /** Replaces every `\uXXXX` by the code unit it names; every other unit is kept. */
  function Unescape(s: JsString): JsString
    decreases |s|
  {
    if StartsWithEscape(s) then
      [EscapedValue(s)] + Unescape(s[6..])
    else if |s| == 0 then []
    else [s[0]] + Unescape(s[1..])
  }

  lemma FourHexDigitsValue(c: CodeUnit)
    ensures var h := FourHexDigits(c);
      HexValue(h[0]) < 16 && HexValue(h[1]) < 16 && HexValue(h[2]) < 16 && HexValue(h[3]) < 16
      && HexValue(h[0]) * 0x1000 + HexValue(h[1]) * 0x100 + HexValue(h[2]) * 0x10 + HexValue(h[3]) == c
  {
    var h := FourHexDigits(c);
    var d3, d2, d1, d0 := c / 0x1000, c / 0x100 % 16, c / 0x10 % 16, c % 16;
    HexValueOfDigit(d3);
    HexValueOfDigit(d2);
    HexValueOfDigit(d1);
    HexValueOfDigit(d0);
    HexPlaceValues(c);
  }

  lemma HexValueOfDigit(d: nat)
    requires d < 16
    ensures HexValue(DigitUnit(d)) == d
  {
  }

  /** `c` is the sum of its four hex digits times their place values. */
  lemma HexPlaceValues(c: CodeUnit)
    ensures (c / 0x1000) * 0x1000 + (c / 0x100 % 16) * 0x100 + (c / 0x10 % 16) * 0x10 + c % 16 == c
  {
    var q1 := c / 0x10;
    var q2 := q1 / 0x10;
    var q3 := q2 / 0x10;
    assert c == q1 * 0x10 + c % 16;
    assert q1 == q2 * 0x10 + q1 % 16;
    assert q2 == q3 * 0x10 + q2 % 16;
    assert q2 == c / 0x100 && q3 == c / 0x1000;
  }

  /**
   * Escaping loses nothing: for text without backslashes, decoding the
   * `\uXXXX` escapes gives the original code units back.
   */
  lemma {:induction false} UnescapeEscape(s: JsString)
    requires BACKSLASH !in s
    ensures Unescape(EscapeUnicode(s)) == s
  {
    if |s| > 0 {
      UnescapeEscape(s[1..]);
      UnescapeUnit(s[0], EscapeUnicode(s[1..]));
      assert [s[0]] + s[1..] == s;
    }
  }

  /** A rewritten unit's escape is well formed, its four digits read back as the unit, and what follows is untouched. */
  lemma EscapeReadsBack(c: CodeUnit, rest: JsString)
    requires c >= 0x7F
    ensures var s := EscapeUnit(c) + rest;
      && StartsWithEscape(s)
      && EscapedValue(s) == c
      && s[6..] == rest
  {
    var h := FourHexDigits(c);
    HexFourDigits(c);
    FourHexDigitsValue(c);
    var s := EscapeUnit(c) + rest;
    assert s == [BACKSLASH, LOWER_U] + h + rest;
    assert s[2] == h[0] && s[3] == h[1] && s[4] == h[2] && s[5] == h[3];
    assert s[6..] == rest;
  }

  /** Decoding reads a rewritten unit's `\uXXXX` escape back as that unit. */
  lemma UnescapeEscaped(c: CodeUnit, rest: JsString)
    requires c >= 0x7F
    ensures Unescape(EscapeUnit(c) + rest) == [c] + Unescape(rest)
  {
    EscapeReadsBack(c, rest);
  }

  /** Decoding reads a unit's escape back as that unit and carries on after it. */
  lemma UnescapeUnit(c: CodeUnit, rest: JsString)
    requires c != BACKSLASH
    ensures Unescape(EscapeUnit(c) + rest) == [c] + Unescape(rest)
  {
    if c >= 0x7F {
      UnescapeEscaped(c, rest);
    } else {
      assert !StartsWithEscape([c] + rest);
      assert ([c] + rest)[1..] == rest;
    }
  }

  // ---------------------------------------------------------------------------
  // The hover decoration field

  /** A `{from, to}` payload; as a mark it covers `[from, to)`. */
  datatype Range = Range(from: int, to: int)

  /** A transaction effect: `setHoverRange.of(payload)` or any other effect. */
  datatype Effect = SetHoverRange(payload: Option<Range>) | OtherEffect

  /** The marks of the hover decoration set, in document order. */
  type DecorationSet = seq<Range>

  /** The payload of the first `setHoverRange` effect, if the transaction carries one. */
  function FirstHoverEffect(effects: seq<Effect>): (r: Option<Option<Range>>)
    ensures r.None? <==> forall k | 0 <= k < |effects| :: !effects[k].SetHoverRange?
    ensures r.Some? ==> exists k | 0 <= k < |effects| ::
      effects[k] == SetHoverRange(r.value) && forall j | 0 <= j < k :: !effects[j].SetHoverRange?
  {
    if |effects| == 0 then None
    else if effects[0].SetHoverRange? then Some(effects[0].payload)
    else
      var tail := effects[1..];
      var r := FirstHoverEffect(tail);
      assert r.Some? ==> exists k | 0 <= k < |effects| ::
        effects[k] == SetHoverRange(r.value) && forall j | 0 <= j < k :: !effects[j].SetHoverRange?
      by {
        if r.Some? {
          var k :| 0 <= k < |tail| && tail[k] == SetHoverRange(r.value) && forall j | 0 <= j < k :: !tail[j].SetHoverRange?;
          assert effects[k + 1] == tail[k];
          assert forall j | 1 <= j < k + 1 :: effects[j] == tail[j - 1];
        }
      }
      r
  }

  /** The decoration set one `setHoverRange` payload builds: one mark when the range is non-empty, none otherwise. */
  function HoverMarks(payload: Option<Range>): (r: DecorationSet)
    ensures |r| <= 1
    ensures forall k | 0 <= k < |r| :: r[k].from < r[k].to
    ensures r == [] <==> payload.None? || payload.value.from >= payload.value.to
    ensures r != [] ==> r == [payload.value]
  {
    if payload.Some? && payload.value.from < payload.value.to then [payload.value] else []
  }

  /**
   * `hoverHighlightField.update(decos, tr)`. `remapped` is `decos.map(tr.changes)`,
   * the editor's own remapping of the marks through the document change.
   */
  function HoverFieldUpdate(decos: DecorationSet, effects: seq<Effect>, docChanged: bool, remapped: DecorationSet): (r: DecorationSet)
    ensures FirstHoverEffect(effects).Some? ==> |r| <= 1
    ensures FirstHoverEffect(effects).None? && !docChanged ==> r == decos
    ensures FirstHoverEffect(effects).None? && docChanged ==> r == remapped
  {
    match FirstHoverEffect(effects)
    case Some(payload) => HoverMarks(payload)
    case None => if docChanged then remapped else decos
  }

  /**
   * A `setHoverRange` effect replaces the whole set, whatever was there and
   * whatever else the transaction does: with the one mark `[from, to)` when
   * `from < to`, and with nothing when the payload is null or empty. Only the
   * first such effect counts.
   */
  lemma SetHoverRangeReplaces(decos: DecorationSet, effects: seq<Effect>, docChanged: bool, remapped: DecorationSet, k: nat)
    requires k < |effects| && effects[k].SetHoverRange?
    requires forall j | 0 <= j < k :: !effects[j].SetHoverRange?
    ensures var p := effects[k].payload;
      HoverFieldUpdate(decos, effects, docChanged, remapped)
        == (if p.Some? && p.value.from < p.value.to then [p.value] else [])
  {
    var r := FirstHoverEffect(effects);
    var k' :| 0 <= k' < |effects| && effects[k'] == SetHoverRange(r.value)
                && forall j | 0 <= j < k' :: !effects[j].SetHoverRange?;
    assert k' == k;
  }

  // ---------------------------------------------------------------------------
  // From the hovered path to the decoration

  /**
   * The payload the effect on `hoveredPath` dispatches: the span of the
   * hovered path's entry, or null when nothing (or the empty string, which
   * is falsy) is hovered or the path is not in the map.
   */
  function HoverPayload(hovered: Option<JsString>, pathMap: PathMap): (r: Option<Range>)
    ensures r.None? <==> hovered.None? || hovered.value == [] || !OrderedMap.HasKey(pathMap, hovered.value)
    ensures r.Some? ==> exists info :: OrderedMap.Get(pathMap, hovered.value) == Some(info) && r.value == Range(info.from, info.to)
  {
    if hovered.None? || hovered.value == [] then None
    else match OrderedMap.Get(pathMap, hovered.value)
      case None => None
      case Some(info) => Some(Range(info.from, info.to))
  }

  /**
   * The decoration the editor shows for a hovered path: exactly the span of
   * its map entry when that span is non-empty, and nothing otherwise.
   */
  lemma HoveredPathDecoration(hovered: Option<JsString>, pathMap: PathMap, decos: DecorationSet, docChanged: bool, remapped: DecorationSet)
    ensures var r := HoverFieldUpdate(decos, [SetHoverRange(HoverPayload(hovered, pathMap))], docChanged, remapped);
      && (r != [] <==> hovered.Some? && hovered.value != [] && OrderedMap.HasKey(pathMap, hovered.value)
                       && OrderedMap.Get(pathMap, hovered.value).value.from < OrderedMap.Get(pathMap, hovered.value).value.to)
      && (r != [] ==> r == [Range(OrderedMap.Get(pathMap, hovered.value).value.from, OrderedMap.Get(pathMap, hovered.value).value.to)])
  {
    SetHoverRangeReplaces(decos, [SetHoverRange(HoverPayload(hovered, pathMap))], docChanged, remapped, 0);
  }

  // ---------------------------------------------------------------------------
  // Pointer handlers

  /** What a handler does to the hovered-path cell: nothing, or write a value. */
  datatype HoverWrite = NoWrite | Write(path: Option<JsString>)

  function ApplyWrite(hovered: Option<JsString>, w: HoverWrite): (r: Option<JsString>)
    ensures w.NoWrite? ==> r == hovered
    ensures w.Write? ==> r == w.path
  {
    match w
    case NoWrite => hovered
    case Write(p) => p
  }

  /**
   * The deferred `mousemove` work: `pos` is `view.posAtCoords(...)` (None
   * when the pointer is off the text). The cell is written only when the
   * resolved path differs from the current one.
   */
  function OnMouseMove(hovered: Option<JsString>, pathMap: PathMap, pos: Option<int>): (w: HoverWrite)
    ensures pos.None? ==> w == NoWrite
    ensures w.Write? ==> w.path != hovered
    ensures pos.Some? ==> ApplyWrite(hovered, w) == FindHighlightPath(pathMap, pos.value)
  {
    match pos
    case None => NoWrite
    case Some(p) =>
      var key := FindHighlightPath(pathMap, p);
      if key != hovered then Write(key) else NoWrite
  }

  /** `mouseleave`: always clears the hovered path. */
  function OnMouseLeave(): (w: HoverWrite)
    ensures forall hovered :: ApplyWrite(hovered, w) == None
  {
    Write(None)
  }

  /**
   * After a pointer move over the text the hovered path is a key of the map
   * of segment or block shape, or null; it is null whenever no entry holds
   * the position.
   */
  lemma MouseMoveHoversUnits(hovered: Option<JsString>, pathMap: PathMap, pos: int)
    ensures var h := ApplyWrite(hovered, OnMouseMove(hovered, pathMap, Some(pos)));
      && (h.Some? ==> OrderedMap.HasKey(pathMap, h.value) && (IsSegment(h.value) || IsBlock(h.value)))
      && (NothingEncloses(pathMap, pos) ==> h.None?)
  {
  }
}
