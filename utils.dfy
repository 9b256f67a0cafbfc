/**
 * `parseUnicodeString` of js/utils.js: one global `String.replace` with the
 * pattern `<U\+([0-9A-Fa-f]{4,6})>` whose replacer turns the captured hex
 * digits into `String.fromCodePoint(parseInt(hex, 16))`.
 *
 * A JavaScript string is a sequence of UTF-16 code units, so the model works
 * on `seq<CodeUnit>`; the length bounds below are about `String.length`.
 */
module UnicodeEscape {
  import opened Wrappers

  /** One UTF-16 code unit, the element of a JavaScript string. */
  newtype CodeUnit = x: int | 0 <= x < 0x1_0000

  type JsString = seq<CodeUnit>

  const LessThan: CodeUnit := '<' as CodeUnit
  const GreaterThan: CodeUnit := '>' as CodeUnit
  const CapitalU: CodeUnit := 'U' as CodeUnit
  const Plus: CodeUnit := '+' as CodeUnit

  /** The largest code point `String.fromCodePoint` accepts. */
  const MaxCodePoint: nat := 0x10_FFFF

  /** What `String.fromCodePoint` throws for a code point above MaxCodePoint. */
  datatype RangeError = RangeError(codePoint: nat)

  // ---------------------------------------------------------------------
  // Hexadecimal digits: the class [0-9A-Fa-f] and parseInt(_, 16)
  // ---------------------------------------------------------------------

  predicate IsHexDigit(c: CodeUnit) {
    || ('0' as CodeUnit <= c <= '9' as CodeUnit)
    || ('A' as CodeUnit <= c <= 'F' as CodeUnit)
    || ('a' as CodeUnit <= c <= 'f' as CodeUnit)
  }

  predicate AllHex(ds: JsString) {
    forall i :: 0 <= i < |ds| ==> IsHexDigit(ds[i])
  }

  /** The value of one hex digit; upper and lower case letters weigh the same. */
  function HexValue(c: CodeUnit): (v: nat)
    requires IsHexDigit(c)
    ensures v < 16
  {
    if c <= '9' as CodeUnit then (c - '0' as CodeUnit) as nat
    else if c <= 'F' as CodeUnit then (c - 'A' as CodeUnit) as nat + 10
    else (c - 'a' as CodeUnit) as nat + 10
  }

  function Pow16(n: nat): (p: nat)
    ensures p >= 1
  {
    if n == 0 then 1 else 16 * Pow16(n - 1)
  }

  /** parseInt(ds, 16) on a string made only of hex digits: the positional value. */
  function ParseHex(ds: JsString): (v: nat)
    requires AllHex(ds)
    ensures v < Pow16(|ds|)
  {
    if ds == [] then 0
    else ParseHex(ds[..|ds| - 1]) * 16 + HexValue(ds[|ds| - 1])
  }

  /** The hex digit of value v, in upper or lower case. */
  function HexDigit(v: nat, upper: bool): (c: CodeUnit)
    requires v < 16
    ensures IsHexDigit(c) && HexValue(c) == v
  {
    if v < 10 then '0' as CodeUnit + v as CodeUnit
    else if upper then 'A' as CodeUnit + (v - 10) as CodeUnit
    else 'a' as CodeUnit + (v - 10) as CodeUnit
  }

  /** The w least significant hex digits of n, most significant first. */
  function Hex(n: nat, w: nat, upper: bool): (ds: JsString)
    ensures |ds| == w && AllHex(ds)
  {
    if w == 0 then [] else Hex(n / 16, w - 1, upper) + [HexDigit(n % 16, upper)]
  }

  /** parseInt(_, 16) undoes Hex whenever n fits in w digits, in either case. */
  lemma {:induction false} ParseHexOfHex(n: nat, w: nat, upper: bool)
    requires n < Pow16(w)
    ensures ParseHex(Hex(n, w, upper)) == n
  {
    if w > 0 {
      var ds := Hex(n, w, upper);
      assert ds[..w - 1] == Hex(n / 16, w - 1, upper);
      ParseHexOfHex(n / 16, w - 1, upper);
    }
  }

  // ---------------------------------------------------------------------
  // String.fromCodePoint
  // ---------------------------------------------------------------------

  /**
   * The UTF-16 encoding of one code point: a single unit below 0x10000
   * (lone surrogates included, as JavaScript allows), otherwise a
   * high/low surrogate pair.
   */
  function FromCodePoint(cp: nat): (r: JsString)
    requires cp <= MaxCodePoint
    ensures |r| == (if cp < 0x1_0000 then 1 else 2)
    ensures cp < 0x1_0000 ==> r[0] as nat == cp
    ensures cp >= 0x1_0000 ==> 0xD800 <= r[0] < 0xDC00 && 0xDC00 <= r[1] < 0xE000
  {
    if cp < 0x1_0000 then [cp as CodeUnit]
    else
      var v := cp - 0x1_0000;
      [(0xD800 + v / 0x400) as CodeUnit, (0xDC00 + v % 0x400) as CodeUnit]
  }

  /** The code point a one-unit string or a surrogate pair stands for. */
  function CodePointOf(r: JsString): int
    requires 1 <= |r| <= 2
  {
    if |r| == 1 then r[0] as nat
    else (r[0] as nat - 0xD800) * 0x400 + (r[1] as nat - 0xDC00) + 0x1_0000
  }

  /** FromCodePoint loses nothing: reading the units back gives the code point. */
  lemma CodePointRoundTrip(cp: nat)
    requires cp <= MaxCodePoint
    ensures CodePointOf(FromCodePoint(cp)) == cp
  {
  }

  // ---------------------------------------------------------------------
  // The pattern <U\+([0-9A-Fa-f]{4,6})>
  // ---------------------------------------------------------------------

  /**
   * The pattern read declaratively: s begins with `<U+`, then k hex digits
   * with 4 <= k <= 6, then `>`.
   */
  ghost predicate PatternMatchesWith(s: JsString, k: nat) {
    && 4 <= k <= 6
    && k + 4 <= |s|
    && s[0] == LessThan && s[1] == CapitalU && s[2] == Plus
    && AllHex(s[3..3 + k])
    && s[3 + k] == GreaterThan
  }

  /** The length of the longest run of hex digits in s starting at index i. */
  function HexRun(s: JsString, i: nat): (n: nat)
    requires i <= |s|
    ensures i + n <= |s|
    ensures forall j :: i <= j < i + n ==> IsHexDigit(s[j])
    ensures i + n == |s| || !IsHexDigit(s[i + n])
    decreases |s| - i
  {
    if i < |s| && IsHexDigit(s[i]) then 1 + HexRun(s, i + 1) else 0
  }

  /**
   * The scanner's attempt to match the pattern at the start of s: Some(k)
   * when s begins with `<U+`, a run of exactly k hex digits (4 <= k <= 6)
   * and `>`. The greedy `{4,6}` can only succeed on the whole run, since a
   * shorter prefix of the run is followed by a digit, not by `>`.
   */
  function MatchAt(s: JsString): (m: Option<nat>)
    ensures m.Some? ==> 4 <= m.value <= 6 && m.value + 4 <= |s|
    ensures m.Some? ==> AllHex(s[3..3 + m.value])
    ensures m.Some? ==> s[0] == LessThan && s[1] == CapitalU && s[2] == Plus && s[3 + m.value] == GreaterThan
  {
    if |s| >= 3 && s[0] == LessThan && s[1] == CapitalU && s[2] == Plus then
      var n := HexRun(s, 3);
      if 4 <= n <= 6 && 3 + n < |s| && s[3 + n] == GreaterThan then Some(n) else None
    else None
  }

  /** The scanner agrees with the pattern, in both directions and for every k. */
  lemma MatchAtIsPattern(s: JsString, k: nat)
    ensures MatchAt(s) == Some(k) <==> PatternMatchesWith(s, k)
  {
    if PatternMatchesWith(s, k) {
      forall j | 3 <= j < 3 + k ensures IsHexDigit(s[j]) {
        assert s[3..3 + k][j - 3] == s[j];
      }
      HexRunExact(s, 3, k);
    }
  }

  /** A run of exactly k hex digits followed by a non-digit has length k. */
  lemma {:induction false} HexRunExact(s: JsString, i: nat, k: nat)
    requires i + k < |s| && !IsHexDigit(s[i + k])
    requires forall j :: i <= j < i + k ==> IsHexDigit(s[j])
    ensures HexRun(s, i) == k
    decreases k
  {
    if k > 0 {
      HexRunExact(s, i + 1, k - 1);
    }
  }

  // ---------------------------------------------------------------------
  // parseUnicodeString
  // ---------------------------------------------------------------------

  /** Puts `prefix` in front of a successful result; passes an error through. */
  function Prepend(prefix: JsString, r: Result<JsString, RangeError>): Result<JsString, RangeError> {
    match r
    case Ok(rest) => Ok(prefix + rest)
    case Err(e) => Err(e)
  }

  /**
   * One left-to-right pass: at each position either the pattern matches and
   * the whole match is replaced by its character, scanning resumes after the
   * match (the replacement is not rescanned), or the unit is copied and
   * scanning resumes at the next one. The first match whose value is beyond
   * MaxCodePoint makes the call throw. Each match is at least 8 units and
   * becomes at most 2, so the result is never longer than the input.
   */
  function ParseUnicodeString(s: JsString): (r: Result<JsString, RangeError>)
    ensures r.Ok? ==> |r.value| <= |s|
    decreases |s|
  {
    if s == [] then Ok([])
    else match MatchAt(s)
      case Some(k) =>
        var cp := ParseHex(s[3..3 + k]);
        if cp > MaxCodePoint then Err(RangeError(cp))
        else Prepend(FromCodePoint(cp), ParseUnicodeString(s[k + 4..]))
      case None =>
        Prepend([s[0]], ParseUnicodeString(s[1..]))
  }

  /** One step of the scan where a match starts. */
  lemma ScanAtMatch(s: JsString, k: nat)
    requires MatchAt(s) == Some(k)
    ensures ParseHex(s[3..3 + k]) > MaxCodePoint ==>
      ParseUnicodeString(s) == Err(RangeError(ParseHex(s[3..3 + k])))
    ensures ParseHex(s[3..3 + k]) <= MaxCodePoint ==>
      ParseUnicodeString(s) == Prepend(FromCodePoint(ParseHex(s[3..3 + k])), ParseUnicodeString(s[k + 4..]))
  {
  }

  /** One step of the scan where no match starts: the unit is copied. */
  lemma ScanWithoutMatch(s: JsString)
    requires s != [] && MatchAt(s).None?
    ensures ParseUnicodeString(s) == Prepend([s[0]], ParseUnicodeString(s[1..]))
  {
  }

  /** `<U+`, the digits ds and `>`. */
  function EscapeOf(ds: JsString): (e: JsString)
    ensures |e| == |ds| + 4
  {
    [LessThan, CapitalU, Plus] + ds + [GreaterThan]
  }

  /** `<U+` followed by the w-digit hex spelling of n and `>`. */
  function Escape(n: nat, w: nat, upper: bool): (e: JsString)
    ensures |e| == w + 4
  {
    EscapeOf(Hex(n, w, upper))
  }


  /** No position of s starts a match. */
  ghost predicate NoEscapes(s: JsString) {
    forall i :: 0 <= i < |s| ==> MatchAt(s[i..]).None?
  }

  /** A string in which nothing matches comes back identical. */
  lemma {:induction false} VerbatimWithoutEscapes(s: JsString)
    requires NoEscapes(s)
    ensures ParseUnicodeString(s) == Ok(s)
  {
    if s != [] {
      assert s[0..] == s;
      ScanWithoutMatch(s);
      forall i | 0 <= i < |s| - 1 ensures MatchAt(s[1..][i..]).None? {
        assert s[1..][i..] == s[i + 1..];
      }
      VerbatimWithoutEscapes(s[1..]);
      assert [s[0]] + s[1..] == s;
    }
  }

  /** In particular, a string without `<` comes back identical. */
  lemma VerbatimWithoutLessThan(s: JsString)
    requires LessThan !in s
    ensures ParseUnicodeString(s) == Ok(s)
  {
    forall i | 0 <= i < |s| ensures MatchAt(s[i..]).None? {
      assert s[i..][0] == s[i];
    }
    VerbatimWithoutEscapes(s);
  }

  /**
   * Text in front of which no match starts is copied, and decoding goes on
   * after it as if it were not there.
   */
  lemma {:induction false} PlainPrefixCopied(p: JsString, s: JsString)
    requires forall i :: 0 <= i < |p| ==> MatchAt((p + s)[i..]).None?
    ensures ParseUnicodeString(p + s) == Prepend(p, ParseUnicodeString(s))
  {
    if p == [] {
      assert p + s == s;
      PrependNothing(ParseUnicodeString(s));
    } else {
      var q := p[1..];
      assert (p + s)[0..] == p + s;
      assert (p + s)[1..] == q + s;
      ScanWithoutMatch(p + s);
      forall i | 0 <= i < |q| ensures MatchAt((q + s)[i..]).None? {
        assert (q + s)[i..] == (p + s)[i + 1..];
      }
      PlainPrefixCopied(q, s);
      assert [p[0]] + q == p;
      PrependTwice([p[0]], q, ParseUnicodeString(s));
    }
  }

  /** Prepending nothing changes nothing. */
  lemma PrependNothing(r: Result<JsString, RangeError>)
    ensures Prepend([], r) == r
  {
    if r.Ok? {
      assert [] + r.value == r.value;
    }
  }

  /** Prepending twice is prepending the concatenation. */
  lemma PrependTwice(a: JsString, b: JsString, r: Result<JsString, RangeError>)
    ensures Prepend(a, Prepend(b, r)) == Prepend(a + b, r)
  {
    if r.Ok? {
      assert a + (b + r.value) == (a + b) + r.value;
    }
  }

  /**
   * The digits of an escape, whatever their case: the escape becomes the
   * character of their value and the text after it is decoded on its own;
   * a value beyond MaxCodePoint throws a RangeError carrying that value.
   */
  lemma DigitsDecode(ds: JsString, t: JsString)
    requires 4 <= |ds| <= 6 && AllHex(ds)
    ensures ParseHex(ds) > MaxCodePoint ==> ParseUnicodeString(EscapeOf(ds) + t) == Err(RangeError(ParseHex(ds)))
    ensures ParseHex(ds) <= MaxCodePoint ==>
      ParseUnicodeString(EscapeOf(ds) + t) == Prepend(FromCodePoint(ParseHex(ds)), ParseUnicodeString(t))
  {
    var s, w := EscapeOf(ds) + t, |ds|;
    assert s[3..3 + w] == ds;
    assert PatternMatchesWith(s, w);
    MatchAtIsPattern(s, w);
    ScanAtMatch(s, w);
    assert s[w + 4..] == t;
  }

  /** Two digit strings that agree digit by digit up to case. */
  predicate SameHexDigits(a: JsString, b: JsString) {
    && AllHex(a) && AllHex(b) && |a| == |b|
    && forall i :: 0 <= i < |a| ==> HexValue(a[i]) == HexValue(b[i])
  }

  /** parseInt(_, 16) ignores the case of the digits. */
  lemma {:induction false} ParseHexCaseInsensitive(a: JsString, b: JsString)
    requires SameHexDigits(a, b)
    ensures ParseHex(a) == ParseHex(b)
  {
    if a != [] {
      var n := |a| - 1;
      assert SameHexDigits(a[..n], b[..n]) by {
        forall i | 0 <= i < n ensures HexValue(a[..n][i]) == HexValue(b[..n][i]) {
          assert a[..n][i] == a[i] && b[..n][i] == b[i];
        }
      }
      ParseHexCaseInsensitive(a[..n], b[..n]);
    }
  }

  /**
   * Hex digits match case-insensitively: escapes whose digits agree up to
   * case (`<U+00e9>`, `<U+00E9>`, `<U+00eE>` against `<U+00Ee>`, ...) decode
   * alike, whatever follows them.
   */
  lemma HexCaseInsensitive(a: JsString, b: JsString, t: JsString)
    requires 4 <= |a| <= 6 && SameHexDigits(a, b)
    ensures ParseUnicodeString(EscapeOf(a) + t) == ParseUnicodeString(EscapeOf(b) + t)
  {
    ParseHexCaseInsensitive(a, b);
    DigitsDecode(a, t);
    DigitsDecode(b, t);
  }

  /**
   * An escape of 4 to 6 digits is replaced by the character of its value and
   * the text after it is decoded on its own; a value beyond MaxCodePoint
   * throws a RangeError carrying that value.
   */
  lemma EscapeDecodes(n: nat, w: nat, upper: bool, t: JsString)
    requires 4 <= w <= 6 && n < Pow16(w)
    ensures n > MaxCodePoint ==> ParseUnicodeString(Escape(n, w, upper) + t) == Err(RangeError(n))
    ensures n <= MaxCodePoint ==>
      ParseUnicodeString(Escape(n, w, upper) + t) == Prepend(FromCodePoint(n), ParseUnicodeString(t))
  {
    DigitsDecode(Hex(n, w, upper), t);
    ParseHexOfHex(n, w, upper);
  }

  // ---------------------------------------------------------------------
  // Worked inputs
  // ---------------------------------------------------------------------

  /** A string literal of ASCII characters as code units. */
  function Ascii(lit: string): (r: JsString)
    requires forall i :: 0 <= i < |lit| ==> lit[i] as int < 0x80
    ensures |r| == |lit|
    ensures forall i :: 0 <= i < |lit| ==> r[i] as int == lit[i] as int
  {
    seq(|lit|, i requires 0 <= i < |lit| => lit[i] as CodeUnit)
  }

  /** A lone escape within range decodes to exactly its character. */
  lemma LoneEscapeDecodes(s: JsString, n: nat, w: nat, upper: bool)
    requires 4 <= w <= 6 && n < Pow16(w) && n <= MaxCodePoint
    requires s == Escape(n, w, upper)
    ensures ParseUnicodeString(s) == Ok(FromCodePoint(n))
  {
    EscapeDecodes(n, w, upper, []);
    assert s + [] == s;
    assert ParseUnicodeString([]) == Ok([]);
    assert FromCodePoint(n) + [] == FromCodePoint(n);
  }

  /** How a worked input below is spelled in escapes. */
  lemma LowerCaseEAcuteSpelling()
    ensures Ascii("<U+00e9>") == Escape(0xE9, 4, false)
  {
    assert Hex(0, 2, false) == ['0' as CodeUnit, '0' as CodeUnit];
  }

  /** How a worked input below is spelled in escapes. */
  lemma UpperCaseEAcuteSpelling()
    ensures Ascii("<U+00E9>") == Escape(0xE9, 4, true)
  {
    assert Hex(0, 2, true) == ['0' as CodeUnit, '0' as CodeUnit];
  }

  /** An escape followed by text without `<`: the text is copied after the character. */
  lemma EscapeThenPlainText(s: JsString, n: nat, w: nat, upper: bool, tail: JsString)
    requires 4 <= w <= 6 && n < Pow16(w) && n <= MaxCodePoint
    requires s == Escape(n, w, upper) + tail && LessThan !in tail
    ensures ParseUnicodeString(s) == Ok(FromCodePoint(n) + tail)
  {
    EscapeDecodes(n, w, upper, tail);
    VerbatimWithoutLessThan(tail);
  }

  /** `<U+00e9>` decodes to U+00E9. */
  lemma LowerCaseEAcute()
    ensures ParseUnicodeString(Ascii("<U+00e9>")) == Ok([0xE9])
  {
    var s := Ascii("<U+00e9>");
    LowerCaseEAcuteSpelling();
    LoneEscapeDecodes(s, 0xE9, 4, false);
  }

  /** `<U+00E9>` decodes to U+00E9 as well: hex digits match in either case. */
  lemma UpperCaseEAcute()
    ensures ParseUnicodeString(Ascii("<U+00E9>")) == Ok([0xE9])
  {
    var s := Ascii("<U+00E9>");
    UpperCaseEAcuteSpelling();
    LoneEscapeDecodes(s, 0xE9, 4, true);
  }

  /** Ascii distributes over concatenation. */
  lemma AsciiAppend(a: string, b: string)
    requires forall i :: 0 <= i < |a| ==> a[i] as int < 0x80
    requires forall i :: 0 <= i < |b| ==> b[i] as int < 0x80
    ensures Ascii(a + b) == Ascii(a) + Ascii(b)
  {
  }

  /** How a worked input below is spelled in escapes. */
  lemma LessThanEscapeSpelling()
    ensures Ascii("<U+003C>") == Escape(0x3C, 4, true)
  {
    assert Hex(0x3, 3, true) == ['0' as CodeUnit, '0' as CodeUnit, '3' as CodeUnit];
  }

  /** How a worked input below is spelled in escapes. */
  lemma NotIdempotentSpelling()
    ensures Ascii("<U+003C>U+0041>") == Escape(0x3C, 4, true) + Ascii("U+0041>")
  {
    var head, tail := "<U+003C>", "U+0041>";
    assert "<U+003C>U+0041>" == head + tail;
    AsciiAppend(head, tail);
    LessThanEscapeSpelling();
  }

  /** How a worked input below is spelled in escapes. */
  lemma LessThanSpelling()
    ensures FromCodePoint(0x3C) + Ascii("U+0041>") == Ascii("<U+0041>")
  {
  }

  /**
   * The replacement is not rescanned: `<U+003C>U+0041>` decodes to
   * `<U+0041>`, which itself still holds an escape.
   */
  lemma DecodedOnce()
    ensures ParseUnicodeString(Ascii("<U+003C>U+0041>")) == Ok(Ascii("<U+0041>"))
  {
    var s, tail := Ascii("<U+003C>U+0041>"), Ascii("U+0041>");
    NotIdempotentSpelling();
    LessThanSpelling();
    EscapeThenPlainText(s, 0x3C, 4, true, tail);
  }

  /** How a worked input below is spelled in escapes. */
  lemma CapitalASpelling()
    ensures Ascii("<U+0041>") == Escape(0x41, 4, true)
  {
    assert Hex(0x0, 1, true) == ['0' as CodeUnit];
    assert Hex(0x0, 2, true) == ['0' as CodeUnit, '0' as CodeUnit];
    assert Hex(0x4, 3, true) == ['0' as CodeUnit, '0' as CodeUnit, '4' as CodeUnit];
    assert Hex(0x41, 4, true) == ['0' as CodeUnit, '0' as CodeUnit, '4' as CodeUnit, '1' as CodeUnit];
  }

  /** Decoding `<U+0041>` again gives `A`, so decoding is not idempotent. */
  lemma DecodedTwice()
    ensures ParseUnicodeString(Ascii("<U+0041>")) == Ok(Ascii("A"))
  {
    var s := Ascii("<U+0041>");
    CapitalASpelling();
    LoneEscapeDecodes(s, 0x41, 4, true);
    assert FromCodePoint(0x41) == Ascii("A");
  }

  /** Text before an escape is copied: `x<U+0041>` decodes to `xA`. */
  lemma TextBeforeEscapeCopied()
    ensures ParseUnicodeString(Ascii("x<U+0041>")) == Ok(Ascii("xA"))
  {
    var p, e := Ascii("x"), Ascii("<U+0041>");
    assert Ascii("x<U+0041>") == p + e;
    PlainPrefixCopied(p, e);
    DecodedTwice();
    assert p + Ascii("A") == Ascii("xA");
  }

  /** How a worked input below is spelled in escapes. */
  lemma BeyondUnicodeSpelling()
    ensures Ascii("<U+110000>") == Escape(0x11_0000, 6, true) + []
  {
    var one, zero := '1' as CodeUnit, '0' as CodeUnit;
    assert Hex(0x11, 2, true) == [one, one];
    assert Hex(0x110, 3, true) == [one, one, zero];
    assert Hex(0x1100, 4, true) == [one, one, zero, zero];
    assert Hex(0x1_1000, 5, true) == [one, one, zero, zero, zero];
    assert Hex(0x11_0000, 6, true) == [one, one, zero, zero, zero, zero];
  }

  /** Six digits above 0x10FFFF make the call throw. */
  lemma BeyondUnicodeThrows()
    ensures ParseUnicodeString(Ascii("<U+110000>")) == Err(RangeError(0x11_0000))
  {
    BeyondUnicodeSpelling();
    EscapeDecodes(0x11_0000, 6, true, []);
  }

  /**
   * When the only `<` is the first unit and the pattern does not match
   * there, the string comes back identical.
   */
  lemma VerbatimWhenOnlyCandidateFails(s: JsString)
    requires |s| > 0 && LessThan !in s[1..]
    requires forall k :: !PatternMatchesWith(s, k)
    ensures ParseUnicodeString(s) == Ok(s)
  {
    if MatchAt(s).Some? {
      MatchAtIsPattern(s, MatchAt(s).value);
    }
    VerbatimWithoutLessThan(s[1..]);
    assert [s[0]] + s[1..] == s;
  }

  /** Three hex digits are too few: copied unchanged. */
  lemma TooFewDigitsVerbatim()
    ensures ParseUnicodeString(Ascii("<U+123>")) == Ok(Ascii("<U+123>"))
  {
    VerbatimWhenOnlyCandidateFails(Ascii("<U+123>"));
  }

  /** Seven hex digits are too many: copied unchanged. */
  lemma TooManyDigitsVerbatim()
    ensures ParseUnicodeString(Ascii("<U+1234567>")) == Ok(Ascii("<U+1234567>"))
  {
    VerbatimWhenOnlyCandidateFails(Ascii("<U+1234567>"));
  }

  /** A lower-case `u` does not match: copied unchanged. */
  lemma LowerCaseUVerbatim()
    ensures ParseUnicodeString(Ascii("<u+1234>")) == Ok(Ascii("<u+1234>"))
  {
    VerbatimWhenOnlyCandidateFails(Ascii("<u+1234>"));
  }

  /** Without the closing `>` nothing matches: copied unchanged. */
  lemma UnclosedVerbatim()
    ensures ParseUnicodeString(Ascii("<U+1234")) == Ok(Ascii("<U+1234"))
  {
    VerbatimWhenOnlyCandidateFails(Ascii("<U+1234"));
  }
}
