/**
 * JavaScript strings as sequences of UTF-16 code units, with the few string
 * operations the hover core relies on: `slice`, `startsWith`,
 * `Number.prototype.toString(radix)` for non-negative integers, and the
 * inverse digit parser used to state round trips.
 */
module JsText {

  /** One UTF-16 code unit, the element of a JavaScript string. */
  type CodeUnit = x: int | 0 <= x < 0x1_0000

  type JsString = seq<CodeUnit>

  // ASCII code units used by path strings and escapes.
  const DOT: CodeUnit := 0x2E            // '.'
  const OPEN_BRACKET: CodeUnit := 0x5B   // '['
  const CLOSE_BRACKET: CodeUnit := 0x5D  // ']'
  const BACKSLASH: CodeUnit := 0x5C      // '\'
  const LOWER_U: CodeUnit := 0x75        // 'u'
  const ZERO: CodeUnit := 0x30           // '0'

  /** "blocks" */
  const BLOCKS: JsString := [0x62, 0x6C, 0x6F, 0x63, 0x6B, 0x73]
  /** "segments" */
  const SEGMENTS: JsString := [0x73, 0x65, 0x67, 0x6D, 0x65, 0x6E, 0x74, 0x73]

  /** `s.startsWith(prefix)` */
  predicate StartsWith(s: JsString, prefix: JsString) {
    |prefix| <= |s| && s[..|prefix|] == prefix
  }

  lemma StartsWithAppend(p: JsString, q: JsString)
    ensures StartsWith(p + q, p)
  {
    assert (p + q)[..|p|] == p;
  }

  lemma StartsWithTrans(s: JsString, p: JsString, q: JsString)
    requires StartsWith(s, p) && StartsWith(p, q)
    ensures StartsWith(s, q)
  {
    assert s[..|q|] == s[..|p|][..|q|];
  }

  /** A string that starts with `p + q` starts with `p`. */
  lemma StartsWithConcat(s: JsString, p: JsString, q: JsString)
    requires StartsWith(s, p + q)
    ensures StartsWith(s, p)
  {
    assert s[..|p|] == (p + q)[..|p|];
  }

  /** Normalises one `slice` argument: negative values count from the end, then clamp to `[0, len]`. */
  function SliceIndex(k: int, len: nat): (r: nat)
    ensures r <= len
    ensures 0 <= k <= len ==> r == k
    ensures k < 0 && 0 <= len + k ==> r == len + k
    ensures len + k < 0 ==> r == 0
    ensures k > len ==> r == len
  {
    if k < 0 then (if len + k < 0 then 0 else len + k)
    else if k > len then len
    else k
  }

  /** `s.slice(start, end)` */
  function Slice(s: JsString, start: int, end: int): (r: JsString)
    ensures 0 <= start <= end <= |s| ==> r == s[start..end]
    ensures 0 <= end <= start ==> r == []
    ensures |r| <= |s|
    ensures forall k | 0 <= k < |r| :: r[k] in s
  {
    var b := SliceIndex(start, |s|);
    var e := SliceIndex(end, |s|);
    if b < e then s[b..e] else []
  }

  /** Worked cases of `slice` on "abc": a bound before the start clamps to 0, one past the end to the length, a negative one counts back. */
  lemma SliceExamples()
    ensures Slice([0x61, 0x62, 0x63], -10, 2) == [0x61, 0x62]
    ensures Slice([0x61, 0x62, 0x63], 1, 10) == [0x62, 0x63]
    ensures Slice([0x61, 0x62, 0x63], -1, 3) == [0x63]
    ensures Slice([0x61, 0x62, 0x63], 2, 1) == []
  {
  }

  predicate IsDecimalDigit(c: CodeUnit) {
    0x30 <= c <= 0x39
  }

  /** Every unit of `s` matches the regular-expression class `\d`. */
  predicate AllDecimalDigits(s: JsString) {
    forall k | 0 <= k < |s| :: IsDecimalDigit(s[k])
  }

  /** The lower-case digit `Number.prototype.toString` writes for `d`. */
  function DigitUnit(d: nat): (c: CodeUnit)
    requires d < 16
  {
    if d < 10 then 0x30 + d else 0x61 + (d - 10)
  }

  lemma DigitRoundTrip(d: nat)
    requires d < 16
    ensures DigitValue(DigitUnit(d)) == d
  {
  }

  /** The value of a digit unit, or 16 for a unit that is not a lower-case hexadecimal digit. */
  function DigitValue(c: CodeUnit): (d: nat)
    ensures d <= 16
    ensures d < 16 ==> DigitUnit(d) == c
    ensures d < 10 <==> IsDecimalDigit(c)
  {
    if 0x30 <= c <= 0x39 then c - 0x30
    else if 0x61 <= c <= 0x66 then c - 0x61 + 10
    else 16
  }

  /** `n.toString(base)` for a non-negative integer `n`: no sign, no leading zeros, "0" for zero. */
  function ToRadix(n: nat, base: nat): (r: JsString)
    requires 2 <= base <= 16
    ensures 1 <= |r|
    ensures forall k | 0 <= k < |r| :: DigitValue(r[k]) < base
    ensures |r| > 1 ==> r[0] != ZERO
  {
    if n < base then
      DigitRoundTrip(n);
      [DigitUnit(n)]
    else
      DivModFacts(n, base);
      var front := ToRadix(n / base, base);
      DigitRoundTrip(n % base);
      assert front[0] != ZERO by {
        if |front| == 1 { DigitRoundTrip(n / base); }
      }
      front + [DigitUnit(n % base)]
  }

  /** `${n}` for a non-negative integer `n`. */
  function Decimal(n: nat): (r: JsString)
    ensures 1 <= |r| && AllDecimalDigits(r)
  {
    ToRadix(n, 10)
  }

  /** `n.toString(16)` for a non-negative integer `n`. */
  function Hex(n: nat): JsString {
    ToRadix(n, 16)
  }

  /** Reads `s` as a numeral in `base`; every unit is expected to be one of its digits. */
  function ParseRadix(s: JsString, base: nat): nat
    requires 2 <= base <= 16
    requires forall k | 0 <= k < |s| :: DigitValue(s[k]) < base
  {
    if |s| == 0 then 0
    else
      var front := s[..|s| - 1];
      assert forall k | 0 <= k < |front| :: front[k] == s[k];
      var high := ParseRadix(front, base);
      assert high * base >= 0 by { NatProduct(high, base); }
      high * base + DigitValue(s[|s| - 1])
  }

  lemma NatProduct(a: nat, b: nat)
    ensures a * b >= 0
  {
  }

  lemma DivModFacts(n: nat, base: nat)
    requires 2 <= base <= n
    ensures n == (n / base) * base + n % base
    ensures 0 <= n % base < base
    ensures n / base < n
  {
  }

  /** Reading back what `toString(base)` wrote gives the number again. */
  lemma {:induction false} ParseToRadix(n: nat, base: nat)
    requires 2 <= base <= 16
    ensures ParseRadix(ToRadix(n, base), base) == n
    decreases n
  {
    var r := ToRadix(n, base);
    if n < base {
      assert r[..|r| - 1] == [];
    } else {
      var q, d := n / base, n % base;
      DivModFacts(n, base);
      assert r == ToRadix(q, base) + [DigitUnit(d)];
      assert r[..|r| - 1] == ToRadix(q, base);
      ParseToRadix(q, base);
      assert DigitValue(r[|r| - 1]) == d;
      assert ParseRadix(r, base) == ParseRadix(r[..|r| - 1], base) * base + DigitValue(r[|r| - 1]);
      assert n == q * base + d;
    }
  }

  /** Distinct numbers never share a decimal spelling. */
  lemma DecimalInjective(i: nat, j: nat)
    requires Decimal(i) == Decimal(j)
    ensures i == j
  {
    ParseToRadix(i, 10);
    ParseToRadix(j, 10);
  }

  /** A bracketed, non-empty run of decimal digits: the shape `\[\d+\]`. */
  predicate IsIndexKey(key: JsString) {
    |key| >= 3 && key[0] == OPEN_BRACKET && key[|key| - 1] == CLOSE_BRACKET
    && AllDecimalDigits(key[1..|key| - 1])
  }

  /** `"[" + i + "]"`, the key an array element is filed under. */
  function IndexKey(i: nat): (r: JsString)
    ensures IsIndexKey(r)
    ensures r[1..|r| - 1] == Decimal(i)
  {
    [OPEN_BRACKET] + Decimal(i) + [CLOSE_BRACKET]
  }

  /**
   * When `a + [c]` and `b + [c]` are both prefixes of one string and neither
   * `a` nor `b` contains `c`, then `a == b`: the delimiter ends both at the
   * same place.
   */
  lemma DelimitedPrefixUnique(s: JsString, a: JsString, b: JsString, c: CodeUnit)
    requires c !in a && c !in b
    requires StartsWith(s, a + [c]) && StartsWith(s, b + [c])
    ensures a == b
  {
    assert s[|a|] == c && s[|b|] == c;
    assert |a| == |b| by {
      assert forall k | 0 <= k < |a| && k < |b| :: a[k] == s[k] == b[k];
    }
    assert a == s[..|a|] == b;
  }

  /** The `]` that closes an index key: no decimal numeral contains it. */
  lemma CloseNotInIndexHead(i: nat)
    ensures CLOSE_BRACKET !in [OPEN_BRACKET] + Decimal(i)
  {
    var h := [OPEN_BRACKET] + Decimal(i);
    forall k | 0 <= k < |h| ensures h[k] != CLOSE_BRACKET {
      if k > 0 { assert h[k] == Decimal(i)[k - 1]; }
    }
  }

  /**
   * Below one path, the paths of two elements are both prefixes of a string
   * only when they are the same element: `.x[1]` is not a prefix of `.x[12]`.
   */
  lemma IndexKeyPrefixUnique(s: JsString, prefix: JsString, a: nat, b: nat)
    requires StartsWith(s, prefix + IndexKey(a)) && StartsWith(s, prefix + IndexKey(b))
    ensures a == b
  {
    var ka, kb := IndexKey(a), IndexKey(b);
    var rest := s[|prefix|..];
    assert StartsWith(rest, ka) by {
      forall k | 0 <= k < |ka| ensures rest[k] == ka[k] {
        assert s[|prefix| + k] == (prefix + ka)[|prefix| + k];
      }
    }
    assert StartsWith(rest, kb) by {
      forall k | 0 <= k < |kb| ensures rest[k] == kb[k] {
        assert s[|prefix| + k] == (prefix + kb)[|prefix| + k];
      }
    }
    var ha, hb := [OPEN_BRACKET] + Decimal(a), [OPEN_BRACKET] + Decimal(b);
    assert ka == ha + [CLOSE_BRACKET] && kb == hb + [CLOSE_BRACKET];
    CloseNotInIndexHead(a);
    CloseNotInIndexHead(b);
    DelimitedPrefixUnique(rest, ha, hb, CLOSE_BRACKET);
    assert Decimal(a) == ha[1..] == hb[1..] == Decimal(b);
    DecimalInjective(a, b);
  }
}
