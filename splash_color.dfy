/** The splash-screen background colour that `MainPage.GetSplashBackgroundColor` reads out of
    the application manifest: the first `SplashScreen` element, the first `BackgroundColor`
    after it, the text between the next two quote characters, and that text read either as
    `transparent` or as `#` followed by a hexadecimal number whose low 24 bits are the red,
    green and blue bytes. The manifest text is a parameter (the file read is not modelled),
    and so is everything the parse throws: it becomes an `Err`, which the method's catch-all
    turns into "no colour set". */
module SplashColor {
  import opened Wrappers
  import opened DotNet

  /** `Windows.UI.Color.FromArgb(a, r, g, b)`. */
  datatype ARGB = ARGB(a: byte, r: byte, g: byte, b: byte)

  const SPLASH_SCREEN := "SplashScreen"
  const BACKGROUND_COLOR := "BackgroundColor"
  const QUOTE := "\""
  const TRANSPARENT := "transparent"

  /** The search part of the parse: the text between the quotes of the first
      `BackgroundColor` after the first `SplashScreen`. `Ok(None)` is the early return taken
      when there is no such attribute; a missing `SplashScreen` or closing quote makes a
      `Substring` throw. */
  function BackgroundColorLiteral(manifest: string): (r: Result<Option<string>, Exception>)
    ensures r.Err? ==> r.error == ArgumentOutOfRange
    ensures r.Ok? && r.value.Some? ==> Unquoted(r.value.value)
  {
    var splashAt := IndexOf(manifest, SPLASH_SCREEN);
    var fromSplash :- Substring(manifest, splashAt);
    var attributeAt := IndexOf(fromSplash, BACKGROUND_COLOR);
    if attributeAt < 0 then Ok(None)
    else
      var fromAttribute :- Substring(fromSplash, attributeAt);
      var literal :- QuotedText(fromAttribute);
      Ok(Some(literal))
  }

  /** The text between the first two quote characters of `text`. */
  function QuotedText(text: string): (r: Result<string, Exception>)
    ensures r.Err? ==> r.error == ArgumentOutOfRange
    ensures r.Ok? ==> Unquoted(r.value)
  {
    var openQuote := IndexOf(text, QUOTE);
    var afterQuote :- Substring(text, openQuote + 1);
    var closeQuote := IndexOf(afterQuote, QUOTE);
    NoQuoteBefore(afterQuote, closeQuote);
    SubstringOfLength(afterQuote, 0, closeQuote)
  }

  /** `s` holds no quote character. */
  predicate Unquoted(s: string) {
    forall i :: 0 <= i < |s| ==> s[i] != '"'
  }

  /** Before the first quote there is none. */
  lemma NoQuoteBefore(s: string, k: int)
    requires forall j :: (k < 0 || j < k) ==> !IsAt(s, QUOTE, j)
    ensures forall i :: 0 <= i < k && i < |s| ==> s[i] != '"'
  {
    forall i | 0 <= i < k && i < |s| ensures s[i] != '"' {
      QuoteAt(s, i);
    }
  }

  /** The colour bytes of `value` and the alpha chosen by `transparent`. */
  function Color(value: int32, transparent: bool): (c: ARGB)
    ensures c.a == 0x00 <==> transparent
    ensures c.a == 0x00 || c.a == 0xFF
    ensures 0 <= value < 0x100_0000 ==>
              c.r == value / 0x1_0000 && c.g == (value / 0x100) % 0x100 && c.b == value % 0x100
  {
    RedOfLow24(value);
    GreenOfLow24(value);
    BlueOfLow24(value);
    ARGB(
      if transparent then 0x00 else 0xFF,
      ToByte(ShiftRight(value, 16)),
      ToByte(ShiftRight(And(value, 0x0000_FF00), 8)),
      ToByte(And(value, 0x0000_00FF)))
  }

  /** The colour a literal stands for. `Ok(None)` is the early return for a literal that is
      neither `transparent` nor `#`-prefixed; an empty literal fails on its first character,
      and the number after `#` is read by `Convert.ToInt32(_, 16)`. */
  function LiteralColor(literal: string): (r: Result<Option<ARGB>, Exception>)
    ensures r == Ok(None) <==> |literal| > 0 && literal != TRANSPARENT && literal[0] != '#'
    ensures r.Err? ==> literal == [] || literal[0] == '#'
    ensures r.Ok? && r.value.Some? ==> (r.value.value.a == 0x00 <==> literal == TRANSPARENT)
  {
    if literal == TRANSPARENT then Ok(Some(Color(0, true)))
    else if |literal| == 0 then Err(IndexOutOfRange)
    else if literal[0] == '#' then
      var parsed :- ToInt32Base16(literal[1..]);
      Ok(Some(Color(And(parsed, 0x00FF_FFFF), false)))
    else Ok(None)
  }

  /** The `try` block: `Ok(Some(c))` when the splash background is set to `c`, `Ok(None)`
      when the method returns early, `Err(e)` when `e` is thrown. */
  function GetSplashBackgroundColor(manifest: string): (r: Result<Option<ARGB>, Exception>)
    ensures r.Ok? && r.value.Some? && r.value.value.a == 0x00 ==> BackgroundColorLiteral(manifest) == Ok(Some(TRANSPARENT))
    ensures r.Ok? && r.value.Some? && r.value.value.a != 0x00 ==>
              BackgroundColorLiteral(manifest).Ok? && BackgroundColorLiteral(manifest).value.Some? &&
              |BackgroundColorLiteral(manifest).value.value| > 0 &&
              BackgroundColorLiteral(manifest).value.value[0] == '#'
  {
    var literal :- BackgroundColorLiteral(manifest);
    match literal
    case None => Ok(None)
    case Some(text) => LiteralColor(text)
  }

  /** With the catch-all: the colour set, or `None` when the background is left as it was. */
  function ExtractColor(manifest: string): (c: Option<ARGB>)
    ensures c.Some? <==> GetSplashBackgroundColor(manifest).Ok? && GetSplashBackgroundColor(manifest).value.Some?
    ensures c.Some? ==> GetSplashBackgroundColor(manifest) == Ok(c)
  {
    match GetSplashBackgroundColor(manifest)
    case Ok(color) => color
    case Err(_) => None
  }

  // ---------------------------------------------------------------------------
  // Reference definitions for the search

  /** `k` is the first position at or after `from` where `value` occurs in `s`. */
  ghost predicate FirstAt(s: string, value: string, k: int, from: int) {
    0 <= from <= k && IsAt(s, value, k) && forall j :: from <= j < k ==> !IsAt(s, value, j)
  }

  /** `value` does not occur in `s` at or after `from`. */
  ghost predicate NoneFrom(s: string, value: string, from: int) {
    forall j :: from <= j ==> !IsAt(s, value, j)
  }

  lemma IndexOfSuffix(s: string, value: string, from: nat, k: int)
    requires from <= |s| && FirstAt(s, value, k, from)
    ensures IndexOf(s[from..], value) == k - from
  {
    var r := IndexOf(s[from..], value);
    IsAtShift(s, value, from, k - from);
    if r >= 0 {
      IsAtShift(s, value, from, r);
    }
  }

  lemma IndexOfSuffixNone(s: string, value: string, from: nat)
    requires from <= |s| && NoneFrom(s, value, from)
    ensures IndexOf(s[from..], value) == -1
  {
    var r := IndexOf(s[from..], value);
    if r >= 0 {
      IsAtShift(s, value, from, r);
    }
  }

  lemma IndexOfJustBefore(s: string, value: string, from: nat)
    requires from <= |s| && !NoneFrom(s, value, from)
    ensures IndexOf(s[from..], value) >= 0
  {
    var j :| from <= j && IsAt(s, value, j);
    IsAtShift(s, value, from, j - from);
  }

  // ---------------------------------------------------------------------------
  // The search

  /** Without a `SplashScreen`, `Substring(-1)` throws, and no colour is set. */
  lemma NoSplashScreen(manifest: string)
    requires NoneFrom(manifest, SPLASH_SCREEN, 0)
    ensures BackgroundColorLiteral(manifest) == Err(ArgumentOutOfRange)
    ensures GetSplashBackgroundColor(manifest) == Err(ArgumentOutOfRange)
    ensures ExtractColor(manifest) == None
  {
    IndexOfSuffixNone(manifest, SPLASH_SCREEN, 0);
    assert manifest[0..] == manifest;
  }

  /** The attribute is optional: the method returns normally, with no colour set, exactly
      when no `BackgroundColor` follows the first `SplashScreen`. */
  lemma MissingAttribute(manifest: string, splashAt: int)
    requires FirstAt(manifest, SPLASH_SCREEN, splashAt, 0)
    ensures BackgroundColorLiteral(manifest) == Ok(None) <==> NoneFrom(manifest, BACKGROUND_COLOR, splashAt)
    ensures NoneFrom(manifest, BACKGROUND_COLOR, splashAt) ==>
              GetSplashBackgroundColor(manifest) == Ok(None) && ExtractColor(manifest) == None
  {
    assert manifest[0..] == manifest;
    IndexOfSuffix(manifest, SPLASH_SCREEN, 0, splashAt);
    if NoneFrom(manifest, BACKGROUND_COLOR, splashAt) {
      IndexOfSuffixNone(manifest, BACKGROUND_COLOR, splashAt);
    } else {
      IndexOfJustBefore(manifest, BACKGROUND_COLOR, splashAt);
    }
  }

  lemma QuotedTextBetween(text: string, open: int, close: int)
    requires FirstAt(text, QUOTE, open, 0)
    requires FirstAt(text, QUOTE, close, open + 1)
    ensures QuotedText(text) == Ok(text[open + 1..close])
  {
    assert text[0..] == text;
    IndexOfSuffix(text, QUOTE, 0, open);
    var afterQuote := text[open + 1..];
    assert Substring(text, IndexOf(text, QUOTE) + 1) == Ok(afterQuote);
    IndexOfSuffix(text, QUOTE, open + 1, close);
    var length := close - (open + 1);
    assert IndexOf(afterQuote, QUOTE) == length;
    assert afterQuote[0..length] == text[open + 1..close];
  }

  /** `FirstAt` in a suffix is `FirstAt` in the whole text, shifted. */
  lemma FirstAtSuffix(s: string, value: string, from: nat, k: int, start: int)
    requires from <= start && from <= |s|
    ensures FirstAt(s, value, k, start) <==> FirstAt(s[from..], value, k - from, start - from)
  {
    forall j | start - from <= j
      ensures IsAt(s[from..], value, j) <==> IsAt(s, value, j + from)
    {
      IsAtShift(s, value, from, j);
    }
    forall j | start <= j
      ensures IsAt(s[from..], value, j - from) <==> IsAt(s, value, j)
    {
      IsAtShift(s, value, from, j - from);
    }
  }

  /** The first two steps: the text from the attribute name on. */
  lemma FromAttribute(manifest: string, splashAt: int, attributeAt: int)
    requires FirstAt(manifest, SPLASH_SCREEN, splashAt, 0)
    requires FirstAt(manifest, BACKGROUND_COLOR, attributeAt, splashAt)
    ensures Substring(manifest, IndexOf(manifest, SPLASH_SCREEN)) == Ok(manifest[splashAt..])
    ensures IndexOf(manifest[splashAt..], BACKGROUND_COLOR) == attributeAt - splashAt
    ensures Substring(manifest[splashAt..], attributeAt - splashAt) == Ok(manifest[attributeAt..])
  {
    assert IndexOf(manifest, SPLASH_SCREEN) == splashAt by {
      assert manifest[0..] == manifest;
      IndexOfSuffix(manifest, SPLASH_SCREEN, 0, splashAt);
    }
    IndexOfSuffix(manifest, BACKGROUND_COLOR, splashAt, attributeAt);
    assert manifest[splashAt..][attributeAt - splashAt..] == manifest[attributeAt..];
  }

  lemma QuotedTextFrom(manifest: string, start: nat, open: int, close: int)
    requires start <= |manifest|
    requires FirstAt(manifest, QUOTE, open, start)
    requires FirstAt(manifest, QUOTE, close, open + 1)
    ensures QuotedText(manifest[start..]) == Ok(manifest[open + 1..close])
  {
    FirstAtSuffix(manifest, QUOTE, start, open, start);
    FirstAtSuffix(manifest, QUOTE, start, close, open + 1);
    QuotedTextBetween(manifest[start..], open - start, close - start);
    assert manifest[start..][open - start + 1..close - start] == manifest[open + 1..close];
  }

  /** The literal is exactly the text between the first quote after the attribute name and
      the next quote. */
  lemma LiteralBetweenQuotes(manifest: string, splashAt: int, attributeAt: int, open: int, close: int)
    requires FirstAt(manifest, SPLASH_SCREEN, splashAt, 0)
    requires FirstAt(manifest, BACKGROUND_COLOR, attributeAt, splashAt)
    requires FirstAt(manifest, QUOTE, open, attributeAt)
    requires FirstAt(manifest, QUOTE, close, open + 1)
    ensures BackgroundColorLiteral(manifest) == Ok(Some(manifest[open + 1..close]))
  {
    FromAttribute(manifest, splashAt, attributeAt);
    QuotedTextFrom(manifest, attributeAt, open, close);
  }

  /** ... and the colour is that of the literal. */
  lemma ColorOfLiteralBetweenQuotes(manifest: string, splashAt: int, attributeAt: int, open: int, close: int)
    requires FirstAt(manifest, SPLASH_SCREEN, splashAt, 0)
    requires FirstAt(manifest, BACKGROUND_COLOR, attributeAt, splashAt)
    requires FirstAt(manifest, QUOTE, open, attributeAt)
    requires FirstAt(manifest, QUOTE, close, open + 1)
    ensures GetSplashBackgroundColor(manifest) == LiteralColor(manifest[open + 1..close])
  {
    LiteralBetweenQuotes(manifest, splashAt, attributeAt, open, close);
  }

  lemma QuoteAt(s: string, j: int)
    ensures IsAt(s, QUOTE, j) <==> 0 <= j < |s| && s[j] == '"'
  {
    if 0 <= j < |s| {
      assert s[j..j + 1] == [s[j]];
    }
  }

  /** Fewer than two quote characters in `text`: the closing `Substring(0, -1)` throws. (With
      no quote at all, `Substring(-1 + 1)` keeps the whole text, and the second search fails
      as well.) */
  lemma QuotedTextUnclosed(text: string)
    requires forall j, k :: 0 <= j < k < |text| && text[j] == '"' ==> text[k] != '"'
    ensures QuotedText(text) == Err(ArgumentOutOfRange)
  {
    var open := IndexOf(text, QUOTE);
    var afterQuote := text[open + 1..];
    assert Substring(text, open + 1) == Ok(afterQuote);
    if open >= 0 {
      QuoteAt(text, open);
      forall j | 0 <= j ensures !IsAt(afterQuote, QUOTE, j) {
        QuoteAt(afterQuote, j);
        if j < |afterQuote| {
          assert afterQuote[j] == text[open + 1 + j];
        }
      }
    } else {
      assert afterQuote == text;
    }
    assert IndexOf(afterQuote, QUOTE) == -1;
  }

  /** Fewer than two quotes after the attribute name: a `Substring` throws, and no colour is
      set. */
  lemma UnclosedLiteral(manifest: string, splashAt: int, attributeAt: int)
    requires FirstAt(manifest, SPLASH_SCREEN, splashAt, 0)
    requires FirstAt(manifest, BACKGROUND_COLOR, attributeAt, splashAt)
    requires forall j, k :: attributeAt <= j < k < |manifest| && manifest[j] == '"' ==> manifest[k] != '"'
    ensures BackgroundColorLiteral(manifest) == Err(ArgumentOutOfRange)
    ensures ExtractColor(manifest) == None
  {
    FromAttribute(manifest, splashAt, attributeAt);
    var text := manifest[attributeAt..];
    forall j, k | 0 <= j < k < |text| && text[j] == '"' ensures text[k] != '"' {
      assert text[j] == manifest[attributeAt + j] && text[k] == manifest[attributeAt + k];
    }
    QuotedTextUnclosed(text);
  }

  // ---------------------------------------------------------------------------
  // The literal

  /** `transparent` leaves `value` at 0: all bytes 0, alpha 0. */
  lemma TransparentLiteral()
    ensures LiteralColor(TRANSPARENT) == Ok(Some(ARGB(0, 0, 0, 0)))
  {
  }

  /** An empty literal: `manifest[0]` throws. */
  lemma EmptyLiteral()
    ensures LiteralColor("") == Err(IndexOutOfRange)
  {
  }

  /** A named colour such as `red` is not supported: the method returns early. */
  lemma UnsupportedLiteral(literal: string)
    requires literal != TRANSPARENT && |literal| > 0 && literal[0] != '#'
    ensures LiteralColor(literal) == Ok(None)
  {
  }

  /** A number after `#` that `Convert.ToInt32` rejects: its exception is thrown. */
  lemma MalformedNumber(digits: string)
    requires ToInt32Base16(digits).Err?
    ensures LiteralColor("#" + digits) == Err(ToInt32Base16(digits).error)
  {
    HashLiteral(digits);
  }

  /** A `#` literal is read by `Convert.ToInt32` on what follows the `#`. */
  lemma HashLiteral(digits: string)
    ensures LiteralColor("#" + digits) ==
            match ToInt32Base16(digits)
            case Err(e) => Err(e)
            case Ok(n) => Ok(Some(Color(And(n, 0x00FF_FFFF), false)))
  {
    var literal := "#" + digits;
    assert literal[0] == '#' && literal[1..] == digits;
    assert literal != TRANSPARENT by {
      assert TRANSPARENT[0] != '#';
    }
  }

  /** Bits `[log d, log d + log m)` of `u` are the same before and after cutting `u` down to
      its low `d * m`. */
  lemma ModDivMod(u: nat, d: nat, m: nat)
    requires d >= 1 && m >= 1
    ensures (u % (d * m)) / d == (u / d) % m
  {
    var q, s := u / (d * m), (u % (d * m)) / d;
    SplitAtProduct(u, d, m);
    QuotientBelow(u % (d * m), d, m);
    DivModUnique(u, d, m * q + s, (u % (d * m)) % d);
    DivModUnique(u / d, m, q, s);
  }

  lemma SplitAtProduct(u: nat, d: nat, m: nat)
    requires d >= 1 && m >= 1
    ensures u == d * (m * (u / (d * m)) + (u % (d * m)) / d) + (u % (d * m)) % d
  {
    var q, r := u / (d * m), u % (d * m);
    var s, t := r / d, r % d;
    assert u == (d * m) * q + r && r == d * s + t;
    assert (d * m) * q == d * (m * q);
    assert d * (m * q) + d * s == d * (m * q + s);
  }

  lemma QuotientBelow(r: nat, d: nat, m: nat)
    requires d >= 1 && m >= 1 && r < d * m
    ensures r / d < m
  {
    var s := r / d;
    assert d * s <= r;
    MulFacts(d, s - m);
    assert d * (s - m) == d * s - d * m;
  }

  lemma ModMod(u: nat, a: nat, b: nat)
    requires a >= 1 && b >= 1
    ensures (u % (a * b)) % a == u % a
  {
    var q, r := u / (a * b), u % (a * b);
    assert u == a * (b * q + r / a) + r % a;
    DivModUnique(u, a, b * q + r / a, r % a);
  }

  /** Keeping the low 24 bits of a parsed number. */
  lemma MaskedLow24(n: int32)
    ensures And(n, 0x00FF_FFFF) == Bits32(n) % 0x100_0000
  {
    Pow2Bytes();
    BitAndLowMask(Bits32(n), 24);
  }

  lemma RedOfLow24(v: int32)
    ensures 0 <= v < 0x100_0000 ==> ToByte(ShiftRight(v, 16)) == v / 0x1_0000
  {
    Pow2Bytes();
  }

  lemma GreenOfLow24(v: int32)
    ensures 0 <= v < 0x100_0000 ==> ToByte(ShiftRight(And(v, 0x0000_FF00), 8)) == (v / 0x100) % 0x100
  {
    if 0 <= v < 0x100_0000 {
      var g := (v / 0x100) % 0x100;
      SecondByteMask(v);
      Pow2Bytes();
      DivModUnique(g * 0x100, 0x100, g, 0);
    }
  }

  lemma SecondByteMask(v: int32)
    requires 0 <= v < 0x100_0000
    ensures And(v, 0x0000_FF00) == ((v / 0x100) % 0x100) * 0x100
  {
    Pow2Bytes();
    BitAndSecondByte(v);
    BitAndLowMask(v / 0x100, 8);
  }

  lemma BlueOfLow24(v: int32)
    ensures 0 <= v < 0x100_0000 ==> ToByte(And(v, 0x0000_00FF)) == v % 0x100
  {
    if 0 <= v < 0x100_0000 {
      Pow2Bytes();
      BitAndLowMask(v, 8);
    }
  }

  /** The colour of a parsed number: alpha 0xFF and the three bytes below the top one of its
      32-bit pattern. */
  lemma ColorOfNumber(n: int32)
    ensures Color(And(n, 0x00FF_FFFF), false) ==
            ARGB(0xFF, (Bits32(n) / 0x1_0000) % 0x100, (Bits32(n) / 0x100) % 0x100, Bits32(n) % 0x100)
  {
    var u := Bits32(n);
    MaskedLow24(n);
    ModDivMod(u, 0x1_0000, 0x100);
    ModDivMod(u, 0x100, 0x1_0000);
    ModMod(u / 0x100, 0x100, 0x100);
    ModMod(u, 0x100, 0x1_0000);
  }

  /** A literal `#h` whose digits `h` have value `v` below 2^32: `r`, `g` and `b` are bytes
      2, 1 and 0 of `v`, and byte 3 (the alpha digits of `#AARRGGBB`) is dropped. */
  lemma HexLiteral(digits: string)
    requires |digits| > 0 && AllHexDigits(digits) && HexValue(digits) < TWO_POW_32
    ensures LiteralColor("#" + digits) ==
            Ok(Some(ARGB(0xFF, (HexValue(digits) / 0x1_0000) % 0x100,
                               (HexValue(digits) / 0x100) % 0x100,
                               HexValue(digits) % 0x100)))
  {
    HashLiteral(digits);
    ToInt32Base16OfDigits(digits);
    ColorOfNumber(ToInt32Base16(digits).value);
  }

  /** Two hexadecimal digits: one byte of a colour literal. */
  predicate IsHexByte(s: string) {
    |s| == 2 && AllHexDigits(s)
  }

  lemma HexByteValue(s: string)
    requires IsHexByte(s)
    ensures HexValue(s) < 0x100
  {
    Pow2Bytes();
  }

  /** Bytes 2, 1 and 0 of a number written byte by byte. */
  lemma Bytes(v: nat, a: byte, r: byte, g: byte, b: byte)
    requires v == a * 0x100_0000 + r * 0x1_0000 + g * 0x100 + b
    ensures v < TWO_POW_32
    ensures (v / 0x1_0000) % 0x100 == r && (v / 0x100) % 0x100 == g && v % 0x100 == b
  {
    DivModUnique(v, 0x1_0000, a * 0x100 + r, g * 0x100 + b);
    DivModUnique(a * 0x100 + r, 0x100, a, r);
    DivModUnique(v, 0x100, a * 0x1_0000 + r * 0x100 + g, b);
    DivModUnique(a * 0x1_0000 + r * 0x100 + g, 0x100, a * 0x100 + r, g);
  }

  lemma RgbValue(rr: string, gg: string, bb: string)
    requires IsHexByte(rr) && IsHexByte(gg) && IsHexByte(bb)
    ensures AllHexDigits(rr + gg + bb)
    ensures HexValue(rr + gg + bb) == HexValue(rr) * 0x1_0000 + HexValue(gg) * 0x100 + HexValue(bb)
  {
    Pow2Bytes();
    HexValueAppend(rr, gg);
    HexValueAppend(rr + gg, bb);
  }

  lemma ArgbValue(aa: string, rr: string, gg: string, bb: string)
    requires IsHexByte(aa) && IsHexByte(rr) && IsHexByte(gg) && IsHexByte(bb)
    ensures AllHexDigits(aa + rr + gg + bb)
    ensures HexValue(aa + rr + gg + bb) ==
            HexValue(aa) * 0x100_0000 + HexValue(rr) * 0x1_0000 + HexValue(gg) * 0x100 + HexValue(bb)
  {
    Pow2Bytes();
    HexValueAppend(aa, rr);
    HexValueAppend(aa + rr, gg);
    HexValueAppend(aa + rr + gg, bb);
  }

  /** A literal whose digits have the value of the bytes `a r g b`: the colour is `r g b`
      at full alpha. */
  lemma ByteLiteral(digits: string, a: byte, r: byte, g: byte, b: byte)
    requires |digits| > 0 && AllHexDigits(digits)
    requires HexValue(digits) == a * 0x100_0000 + r * 0x1_0000 + g * 0x100 + b
    ensures LiteralColor("#" + digits) == Ok(Some(ARGB(0xFF, r, g, b)))
  {
    Bytes(HexValue(digits), a, r, g, b);
    HexLiteral(digits);
  }

  lemma HashConcat(aa: string, rr: string, gg: string, bb: string)
    ensures "#" + aa + rr + gg + bb == "#" + (aa + rr + gg + bb)
    ensures "#" + rr + gg + bb == "#" + (rr + gg + bb)
  {
  }

  /** `#RRGGBB`: each pair of digits is one byte of the colour, alpha is 0xFF. */
  lemma RgbLiteral(rr: string, gg: string, bb: string)
    requires IsHexByte(rr) && IsHexByte(gg) && IsHexByte(bb)
    ensures LiteralColor("#" + rr + gg + bb) == Ok(Some(ARGB(0xFF, HexValue(rr), HexValue(gg), HexValue(bb))))
  {
    HexByteValue(rr);
    HexByteValue(gg);
    HexByteValue(bb);
    RgbValue(rr, gg, bb);
    HashConcat([], rr, gg, bb);
    ByteLiteral(rr + gg + bb, 0, HexValue(rr), HexValue(gg), HexValue(bb));
  }

  /** `#AARRGGBB`: alpha 0xFF whatever `AA` says, and the colour bytes of `RRGGBB`. */
  lemma ArgbLiteral(aa: string, rr: string, gg: string, bb: string)
    requires IsHexByte(aa) && IsHexByte(rr) && IsHexByte(gg) && IsHexByte(bb)
    ensures LiteralColor("#" + aa + rr + gg + bb) == Ok(Some(ARGB(0xFF, HexValue(rr), HexValue(gg), HexValue(bb))))
  {
    HexByteValue(aa);
    HexByteValue(rr);
    HexByteValue(gg);
    HexByteValue(bb);
    ArgbValue(aa, rr, gg, bb);
    HashConcat(aa, rr, gg, bb);
    ByteLiteral(aa + rr + gg + bb, HexValue(aa), HexValue(rr), HexValue(gg), HexValue(bb));
  }

  /** The alpha pair of `#AARRGGBB` is masked away: the colour is that of `#RRGGBB`. */
  lemma AlphaDigitsDiscarded(aa: string, rr: string, gg: string, bb: string)
    requires IsHexByte(aa) && IsHexByte(rr) && IsHexByte(gg) && IsHexByte(bb)
    ensures LiteralColor("#" + aa + rr + gg + bb) == LiteralColor("#" + rr + gg + bb)
  {
    ArgbLiteral(aa, rr, gg, bb);
    RgbLiteral(rr, gg, bb);
  }

  /** On the splash grid, alpha 0 is reached by a `transparent` manifest literal and by
      nothing else. */
  lemma AlphaZeroOnlyWhenTransparent(manifest: string)
    requires ExtractColor(manifest).Some?
    ensures ExtractColor(manifest).value.a == 0 <==> BackgroundColorLiteral(manifest) == Ok(Some(TRANSPARENT))
  {
    if BackgroundColorLiteral(manifest) == Ok(Some(TRANSPARENT)) {
      TransparentLiteral();
    }
  }

  // ---------------------------------------------------------------------------
  // The whole parse, catch-all included

  /** The colour a literal sets, with every throw and early return turned into "none". */
  function ColorSetBy(literal: string): Option<ARGB> {
    match LiteralColor(literal)
    case Ok(Some(c)) => Some(c)
    case _ => None
  }

  /** For a manifest whose first `SplashScreen` has a quoted `BackgroundColor`, the colour set
      is the one the text between the quotes names, if it names one. */
  lemma ExtractColorOfLiteral(manifest: string, splashAt: int, attributeAt: int, open: int, close: int)
    requires FirstAt(manifest, SPLASH_SCREEN, splashAt, 0)
    requires FirstAt(manifest, BACKGROUND_COLOR, attributeAt, splashAt)
    requires FirstAt(manifest, QUOTE, open, attributeAt)
    requires FirstAt(manifest, QUOTE, close, open + 1)
    ensures ExtractColor(manifest) == ColorSetBy(manifest[open + 1..close])
  {
    ColorOfLiteralBetweenQuotes(manifest, splashAt, attributeAt, open, close);
  }

  /** `BackgroundColor="#RRGGBB"`: the splash background becomes that colour at full alpha. */
  lemma ExtractColorOfRgb(manifest: string, splashAt: int, attributeAt: int, open: int, close: int,
                          rr: string, gg: string, bb: string)
    requires FirstAt(manifest, SPLASH_SCREEN, splashAt, 0)
    requires FirstAt(manifest, BACKGROUND_COLOR, attributeAt, splashAt)
    requires FirstAt(manifest, QUOTE, open, attributeAt)
    requires FirstAt(manifest, QUOTE, close, open + 1)
    requires IsHexByte(rr) && IsHexByte(gg) && IsHexByte(bb)
    requires manifest[open + 1..close] == "#" + rr + gg + bb
    ensures ExtractColor(manifest) == Some(ARGB(0xFF, HexValue(rr), HexValue(gg), HexValue(bb)))
  {
    ExtractColorOfLiteral(manifest, splashAt, attributeAt, open, close);
    RgbLiteral(rr, gg, bb);
  }

  /** `BackgroundColor="#AARRGGBB"`: the alpha pair is ignored and the background is opaque. */
  lemma ExtractColorOfArgb(manifest: string, splashAt: int, attributeAt: int, open: int, close: int,
                           aa: string, rr: string, gg: string, bb: string)
    requires FirstAt(manifest, SPLASH_SCREEN, splashAt, 0)
    requires FirstAt(manifest, BACKGROUND_COLOR, attributeAt, splashAt)
    requires FirstAt(manifest, QUOTE, open, attributeAt)
    requires FirstAt(manifest, QUOTE, close, open + 1)
    requires IsHexByte(aa) && IsHexByte(rr) && IsHexByte(gg) && IsHexByte(bb)
    requires manifest[open + 1..close] == "#" + aa + rr + gg + bb
    ensures ExtractColor(manifest) == Some(ARGB(0xFF, HexValue(rr), HexValue(gg), HexValue(bb)))
  {
    ExtractColorOfLiteral(manifest, splashAt, attributeAt, open, close);
    ArgbLiteral(aa, rr, gg, bb);
  }

  /** `BackgroundColor="transparent"`: the background becomes ARGB (0, 0, 0, 0). */
  lemma ExtractColorOfTransparent(manifest: string, splashAt: int, attributeAt: int, open: int, close: int)
    requires FirstAt(manifest, SPLASH_SCREEN, splashAt, 0)
    requires FirstAt(manifest, BACKGROUND_COLOR, attributeAt, splashAt)
    requires FirstAt(manifest, QUOTE, open, attributeAt)
    requires FirstAt(manifest, QUOTE, close, open + 1)
    requires manifest[open + 1..close] == TRANSPARENT
    ensures ExtractColor(manifest) == Some(ARGB(0, 0, 0, 0))
  {
    ExtractColorOfLiteral(manifest, splashAt, attributeAt, open, close);
    TransparentLiteral();
  }
}
