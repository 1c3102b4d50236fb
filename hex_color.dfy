/**
 * UIColor(hex:): a colour from a "#RRGGBB" string. The string is trimmed of
 * surrounding whitespace and newlines and upper-cased, one leading '#' is
 * dropped, and anything that is not then exactly six characters long gives a
 * fixed mid grey. Otherwise the six characters are scanned as a hexadecimal
 * number whose three bytes are the red, green and blue channels.
 */
module HexColor {

  type Byte = x: int | 0 <= x < 256

  /** The outcome of parsing: three channel bytes, or the grey used for a
      string of the wrong length. */
  datatype ParsedColor = Rgb(red: Byte, green: Byte, blue: Byte) | FallbackGrey

  /** The components the colour is initialised with. */
  datatype Components = Components(red: real, green: real, blue: real, alpha: real)

  // ---------------------------------------------------------------------------
  // Preparing the string

  /** The characters of CharacterSet.whitespacesAndNewlines: the Unicode
      separators, the tab, line and paragraph controls U+0009 to U+000D and
      the next-line control U+0085. */
  predicate IsWhitespaceOrNewline(c: char)
    // trimming never removes a digit or the '#'
    ensures IsWhitespaceOrNewline(c) ==> !IsHexDigit(c) && c != '#'
  {
    || ('\t' <= c <= '\r')
    || c == ' '
    || c == '\U{0085}'
    || c == '\U{00A0}'
    || c == '\U{1680}'
    || ('\U{2000}' <= c <= '\U{200A}')
    || c == '\U{2028}'
    || c == '\U{2029}'
    || c == '\U{202F}'
    || c == '\U{205F}'
    || c == '\U{3000}'
  }

  predicate AllWhitespace(s: string)
  {
    forall i :: 0 <= i < |s| ==> IsWhitespaceOrNewline(s[i])
  }

  /** Empty, or neither starting nor ending with whitespace. */
  predicate IsTrimmed(s: string)
  {
    s == [] || (!IsWhitespaceOrNewline(s[0]) && !IsWhitespaceOrNewline(s[|s| - 1]))
  }

  /** The first position at or after i that does not hold whitespace, or the
      end of the string. */
  function SkipWhitespace(s: string, i: nat): (j: nat)
    requires i <= |s|
    ensures i <= j <= |s|
    ensures forall k :: i <= k < j ==> IsWhitespaceOrNewline(s[k])
    ensures j < |s| ==> !IsWhitespaceOrNewline(s[j])
    decreases |s| - i
  {
    if i < |s| && IsWhitespaceOrNewline(s[i]) then SkipWhitespace(s, i + 1) else i
  }

  /** The end of s[lo..j] once its trailing whitespace is dropped. */
  function DropTrailingWhitespace(s: string, lo: nat, j: nat): (e: nat)
    requires lo <= j <= |s|
    ensures lo <= e <= j
    ensures forall k :: e <= k < j ==> IsWhitespaceOrNewline(s[k])
    ensures lo < e ==> !IsWhitespaceOrNewline(s[e - 1])
  {
    if lo < j && IsWhitespaceOrNewline(s[j - 1]) then DropTrailingWhitespace(s, lo, j - 1) else j
  }

  /** Where the trimmed string starts and stops. */
  function TrimStart(s: string): nat
  {
    SkipWhitespace(s, 0)
  }

  function TrimStop(s: string): (e: nat)
    ensures TrimStart(s) <= e <= |s|
  {
    DropTrailingWhitespace(s, TrimStart(s), |s|)
  }

  /** String.trimmingCharacters(in: .whitespacesAndNewlines). */
  function Trim(s: string): (r: string)
    ensures |r| <= |s|
    ensures r == [] <==> AllWhitespace(s)
  {
    s[TrimStart(s)..TrimStop(s)]
  }

  /** Upper-casing, for the ASCII letters. */
  function UpperChar(c: char): (u: char)
    ensures 'a' <= c <= 'z' ==> u as int == c as int - 32
    ensures !('a' <= c <= 'z') ==> u == c
  {
    if 'a' <= c <= 'z' then (c as int - 32) as char else c
  }

  function Uppercased(s: string): (r: string)
    ensures |r| == |s|
    ensures forall i :: 0 <= i < |s| ==> r[i] == UpperChar(s[i])
    ensures forall i :: 0 <= i < |r| ==> !('a' <= r[i] <= 'z')
  {
    if s == [] then [] else [UpperChar(s[0])] + Uppercased(s[1..])
  }

  /** The input once trimmed and upper-cased. */
  function Normalized(hex: string): (r: string)
    ensures |r| <= |hex|
    ensures forall i :: 0 <= i < |r| ==> !('a' <= r[i] <= 'z')
    ensures r == [] <==> AllWhitespace(hex)
  {
    Uppercased(Trim(hex))
  }

  /** At most one leading '#' is removed. */
  function StripHash(s: string): (r: string)
    ensures |s| > 0 && s[0] == '#' ==> s == "#" + r
    ensures !(|s| > 0 && s[0] == '#') ==> r == s
  {
    if |s| > 0 && s[0] == '#' then s[1..] else s
  }

  /** The characters the length check and the scanner see. */
  function Stripped(hex: string): (r: string)
    ensures |r| <= |hex|
    ensures forall i :: 0 <= i < |r| ==> !('a' <= r[i] <= 'z')
  {
    StripHash(Normalized(hex))
  }

  // ---------------------------------------------------------------------------
  // Scanning a hexadecimal number

  predicate IsHexDigit(c: char)
  {
    '0' <= c <= '9' || 'A' <= c <= 'F' || 'a' <= c <= 'f'
  }

  predicate AllHexDigits(s: string)
  {
    forall i :: 0 <= i < |s| ==> IsHexDigit(s[i])
  }

  function DigitValue(c: char): (d: nat)
    requires IsHexDigit(c)
    ensures d < 16
  {
    if '0' <= c <= '9' then c as int - '0' as int
    else if 'A' <= c <= 'F' then c as int - 'A' as int + 10
    else c as int - 'a' as int + 10
  }

  function Pow16(n: nat): (p: nat)
    ensures p >= 1
  {
    if n == 0 then 1 else 16 * Pow16(n - 1)
  }

  lemma {:induction false} Pow16Monotone(m: nat, n: nat)
    requires m <= n
    ensures Pow16(m) <= Pow16(n)
    decreases n
  {
    if m < n {
      Pow16Monotone(m, n - 1);
    }
  }

  /** The value of a string of hexadecimal digits, most significant first. */
  function HexValue(digits: string): (v: nat)
    requires AllHexDigits(digits)
    ensures v < Pow16(|digits|)
  {
    if digits == [] then 0
    else HexValue(digits[..|digits| - 1]) * 16 + DigitValue(digits[|digits| - 1])
  }

  /** The end of the run of hexadecimal digits that starts at i. */
  function SkipHexDigits(s: string, i: nat): (j: nat)
    requires i <= |s|
    ensures i <= j <= |s|
    ensures forall k :: i <= k < j ==> IsHexDigit(s[k])
    ensures j < |s| ==> !IsHexDigit(s[j])
    decreases |s| - i
  {
    if i < |s| && IsHexDigit(s[i]) then SkipHexDigits(s, i + 1) else i
  }

  /** Where the scanner's digits start: after leading whitespace and an
      optional "0X" or "0x". */
  function ScanStart(s: string): (q: nat)
    ensures q <= |s|
    // what precedes the digits is whitespace, possibly followed by "0X" or "0x"
    ensures || (forall k :: 0 <= k < q ==> IsWhitespaceOrNewline(s[k]))
            || (&& 2 <= q && s[q - 2] == '0' && (s[q - 1] == 'X' || s[q - 1] == 'x')
                && forall k :: 0 <= k < q - 2 ==> IsWhitespaceOrNewline(s[k]))
    // ... and all of the leading whitespace is skipped, and a "0X" or "0x" after it is consumed
    ensures (forall k :: 0 <= k < q ==> IsWhitespaceOrNewline(s[k])) ==>
              && (q < |s| ==> !IsWhitespaceOrNewline(s[q]))
              && !(q + 2 <= |s| && s[q] == '0' && (s[q + 1] == 'X' || s[q + 1] == 'x'))
  {
    var p := SkipWhitespace(s, 0);
    if p + 2 <= |s| && s[p] == '0' && (s[p + 1] == 'X' || s[p + 1] == 'x') then p + 2 else p
  }

  /** Scanner.scanHexInt32, as this model assumes it behaves: skip leading
      whitespace, accept an optional "0X" or "0x", then read the longest run of
      hexadecimal digits; with no digit the value stays 0. On the strings it is
      given here (six characters) the value never exceeds 32 bits. */
  function ScanHexInt32(s: string): (v: nat)
    ensures v < Pow16(|s|)
  {
    var q := ScanStart(s);
    var e := SkipHexDigits(s, q);
    assert AllHexDigits(s[q..e]) by {
      forall k | 0 <= k < e - q ensures IsHexDigit(s[q..e][k]) {
        assert s[q..e][k] == s[q + k];
      }
    }
    Pow16Monotone(e - q, |s|);
    HexValue(s[q..e])
  }

  // ---------------------------------------------------------------------------
  // The parser

  /** The three channels of a scanned value below 2^24: red is
      (v & 0xFF0000) >> 16, green (v & 0x00FF00) >> 8 and blue v & 0x0000FF. */
  function Channels(v: nat): (c: ParsedColor)
    requires v < 0x100_0000
    ensures c.Rgb? && c.red * 0x10000 + c.green * 0x100 + c.blue == v
  {
    var q := v / 0x100;
    assert v == q * 0x100 + v % 0x100;
    assert q == (q / 0x100) * 0x100 + q % 0x100;
    assert v / 0x10000 == q / 0x100;
    Rgb((v / 0x10000) % 0x100, (v / 0x100) % 0x100, v % 0x100)
  }

  /** The colour a hex string denotes. */
  function Parse(hex: string): (c: ParsedColor)
    ensures c.FallbackGrey? <==> |Stripped(hex)| != 6
    ensures c.Rgb? ==> c.red * 0x10000 + c.green * 0x100 + c.blue == ScanHexInt32(Stripped(hex))
  {
    var s := Stripped(hex);
    if |s| != 6 then
      FallbackGrey
    else
      var v := ScanHexInt32(s);
      assert Pow16(6) == 0x100_0000;
      Channels(v)
  }

  /** The components a parsed colour stands for: each channel byte over 255,
      or one half for the grey; alpha is always one. */
  function ToComponents(c: ParsedColor): (k: Components)
    ensures k.alpha == 1.0
    ensures 0.0 <= k.red <= 1.0 && 0.0 <= k.green <= 1.0 && 0.0 <= k.blue <= 1.0
    ensures c.FallbackGrey? ==> k.red == k.green == k.blue == 0.5
    ensures c.Rgb? ==> k.red * 255.0 == c.red as real && k.green * 255.0 == c.green as real
                       && k.blue * 255.0 == c.blue as real
  {
    match c
    case FallbackGrey => Components(0.5, 0.5, 0.5, 1.0)
    case Rgb(r, g, b) => Components(r as real / 255.0, g as real / 255.0, b as real / 255.0, 1.0)
  }

  /** UIColor(hex:). */
  function ColorFromHex(hex: string): (k: Components)
    ensures k.alpha == 1.0
    ensures |Stripped(hex)| != 6 ==> k == Components(0.5, 0.5, 0.5, 1.0)
  {
    ToComponents(Parse(hex))
  }

  // ---------------------------------------------------------------------------
  // Trimming is determined by the whitespace around the trimmed part

  lemma AllWhitespaceAppend(a: string, b: string)
    requires AllWhitespace(a) && AllWhitespace(b)
    ensures AllWhitespace(a + b)
  {
    forall i | 0 <= i < |a + b| ensures IsWhitespaceOrNewline((a + b)[i]) {
      if i < |a| {
        assert (a + b)[i] == a[i];
      } else {
        assert (a + b)[i] == b[i - |a|];
      }
    }
  }

  lemma SliceInThree(s: string, i: nat, j: nat)
    requires i <= j <= |s|
    ensures s == s[..i] + s[i..j] + s[j..]
  {
  }

  /** What trimming removes is whitespace. */
  lemma TrimmedOffIsWhitespace(s: string)
    ensures AllWhitespace(s[..TrimStart(s)]) && AllWhitespace(s[TrimStop(s)..])
  {
    var a, e := TrimStart(s), TrimStop(s);
    forall k | 0 <= k < a ensures IsWhitespaceOrNewline(s[..a][k]) {
      assert s[..a][k] == s[k];
    }
    forall k | 0 <= k < |s| - e ensures IsWhitespaceOrNewline(s[e..][k]) {
      assert s[e..][k] == s[e + k];
    }
  }

  /** What trimming keeps neither starts nor ends with whitespace. */
  lemma TrimIsTrimmed(s: string)
    ensures IsTrimmed(Trim(s))
  {
    var a, e := TrimStart(s), TrimStop(s);
    if a < e {
      assert s[a..e][0] == s[a];
      assert s[a..e][e - a - 1] == s[e - 1];
    }
  }

  /** A string splits into its leading whitespace, its trimmed part and its
      trailing whitespace. */
  lemma TrimSplit(s: string)
    ensures s == s[..TrimStart(s)] + Trim(s) + s[TrimStop(s)..]
    ensures AllWhitespace(s[..TrimStart(s)]) && AllWhitespace(s[TrimStop(s)..])
    ensures IsTrimmed(Trim(s))
  {
    SliceInThree(s, TrimStart(s), TrimStop(s));
    TrimmedOffIsWhitespace(s);
    TrimIsTrimmed(s);
  }

  /** Whatever the whitespace around a trimmed string, trimming gives it back. */
  lemma TrimUnique(a: string, m: string, b: string)
    requires AllWhitespace(a) && AllWhitespace(b) && IsTrimmed(m)
    ensures Trim(a + m + b) == m
  {
    var s := a + m + b;
    forall k | 0 <= k < |a| ensures s[k] == a[k] {
    }
    forall k | |a| + |m| <= k < |s| ensures s[k] == b[k - |a| - |m|] {
    }
    if m == [] {
      assert s[|s|..|s|] == m;
    } else {
      assert s[|a|] == m[0];
      assert s[|a| + |m| - 1] == m[|m| - 1];
      assert TrimStart(s) == |a|;
      assert TrimStop(s) == |a| + |m|;
      assert s[|a|..|a| + |m|] == m;
    }
  }

  lemma Regroup(pre: string, a: string, m: string, b: string, post: string)
    ensures pre + (a + m + b) + post == (pre + a) + m + (b + post)
  {
  }

  lemma TrimSurrounded(pre: string, hex: string, post: string)
    requires AllWhitespace(pre) && AllWhitespace(post)
    ensures Trim(pre + hex + post) == Trim(hex)
  {
    TrimSplit(hex);
    var m := Trim(hex);
    var a, b := hex[..TrimStart(hex)], hex[TrimStop(hex)..];
    AllWhitespaceAppend(pre, a);
    AllWhitespaceAppend(b, post);
    Regroup(pre, a, m, b, post);
    TrimUnique(pre + a, m, b + post);
  }

  /** Surrounding whitespace and newlines never change the result. */
  lemma WhitespaceNeverMatters(pre: string, hex: string, post: string)
    requires AllWhitespace(pre) && AllWhitespace(post)
    ensures Parse(pre + hex + post) == Parse(hex)
  {
    TrimSurrounded(pre, hex, post);
    assert Stripped(pre + hex + post) == Stripped(hex);
  }

  lemma UpperCharKeepsWhitespace(c: char)
    ensures IsWhitespaceOrNewline(UpperChar(c)) == IsWhitespaceOrNewline(c)
  {
  }

  lemma UppercasedAppend(a: string, b: string)
    ensures Uppercased(a + b) == Uppercased(a) + Uppercased(b)
  {
    var whole, parts := Uppercased(a + b), Uppercased(a) + Uppercased(b);
    forall i | 0 <= i < |whole| ensures whole[i] == parts[i] {
      if i < |a| {
        assert (a + b)[i] == a[i];
      } else {
        assert (a + b)[i] == b[i - |a|];
      }
    }
  }

  lemma UppercasedWhitespace(s: string)
    requires AllWhitespace(s)
    ensures AllWhitespace(Uppercased(s))
  {
    forall i | 0 <= i < |s| ensures IsWhitespaceOrNewline(Uppercased(s)[i]) {
      UpperCharKeepsWhitespace(s[i]);
    }
  }

  /** Upper-casing and trimming commute. */
  lemma UppercasedTrim(s: string)
    ensures Uppercased(Trim(s)) == Trim(Uppercased(s))
  {
    TrimSplit(s);
    var m := Trim(s);
    var a, b := s[..TrimStart(s)], s[TrimStop(s)..];
    UppercasedAppend(a + m, b);
    UppercasedAppend(a, m);
    UppercasedWhitespace(a);
    UppercasedWhitespace(b);
    if m != [] {
      UpperCharKeepsWhitespace(m[0]);
      UpperCharKeepsWhitespace(m[|m| - 1]);
    }
    TrimUnique(Uppercased(a), Uppercased(m), Uppercased(b));
  }

  /** Two strings that agree once upper-cased parse to the same colour. */
  lemma CaseNeverMatters(s: string, t: string)
    requires Uppercased(s) == Uppercased(t)
    ensures Parse(s) == Parse(t)
  {
    UppercasedTrim(s);
    UppercasedTrim(t);
    assert Normalized(s) == Normalized(t);
  }

  // ---------------------------------------------------------------------------
  // Writing a colour as hex, and reading it back

  function HexChar(d: nat, lowercase: bool): (c: char)
    requires d < 16
    ensures IsHexDigit(c) && DigitValue(c) == d
    ensures c != 'X' && c != 'x' && c != '#' && !IsWhitespaceOrNewline(c)
  {
    if d < 10 then ('0' as int + d) as char
    else if lowercase then ('a' as int + d - 10) as char
    else ('A' as int + d - 10) as char
  }

  function FormatByte(x: Byte, lowercase: bool): string
  {
    [HexChar(x / 16, lowercase), HexChar(x % 16, lowercase)]
  }

  /** Six digits, most significant byte first, in lower or upper case. */
  function Digits(red: Byte, green: Byte, blue: Byte, lowercase: bool): string
  {
    FormatByte(red, lowercase) + FormatByte(green, lowercase) + FormatByte(blue, lowercase)
  }

  /** "#RRGGBB", with or without the '#', in lower or upper case. */
  function Format(red: Byte, green: Byte, blue: Byte, hash: bool, lowercase: bool): string
  {
    (if hash then "#" else "") + Digits(red, green, blue, lowercase)
  }

  lemma UpperHexChar(d: nat, lowercase: bool)
    requires d < 16
    ensures UpperChar(HexChar(d, lowercase)) == HexChar(d, false)
  {
  }

  lemma UppercasedFormatByte(x: Byte, lowercase: bool)
    ensures Uppercased(FormatByte(x, lowercase)) == FormatByte(x, false)
  {
    UpperHexChar(x / 16, lowercase);
    UpperHexChar(x % 16, lowercase);
  }

  lemma UppercasedDigits(red: Byte, green: Byte, blue: Byte, lowercase: bool)
    ensures Uppercased(Digits(red, green, blue, lowercase)) == Digits(red, green, blue, false)
  {
    var r, g, b := FormatByte(red, lowercase), FormatByte(green, lowercase), FormatByte(blue, lowercase);
    UppercasedAppend(r + g, b);
    UppercasedAppend(r, g);
    UppercasedFormatByte(red, lowercase);
    UppercasedFormatByte(green, lowercase);
    UppercasedFormatByte(blue, lowercase);
  }

  lemma UppercasedFormat(red: Byte, green: Byte, blue: Byte, hash: bool, lowercase: bool)
    ensures Uppercased(Format(red, green, blue, hash, lowercase)) == Format(red, green, blue, hash, false)
  {
    var prefix: string := if hash then "#" else "";
    assert Uppercased(prefix) == prefix;
    UppercasedAppend(prefix, Digits(red, green, blue, lowercase));
    UppercasedDigits(red, green, blue, lowercase);
  }

  lemma TrimFormat(red: Byte, green: Byte, blue: Byte, hash: bool, lowercase: bool)
    ensures Trim(Format(red, green, blue, hash, lowercase)) == Format(red, green, blue, hash, lowercase)
  {
    var f := Format(red, green, blue, hash, lowercase);
    assert f[|f| - 1] == HexChar(blue % 16, lowercase);
    assert f[0] == if hash then '#' else HexChar(red / 16, lowercase);
    TrimUnique([], f, []);
    assert [] + f + [] == f;
  }

  lemma DigitsStart(red: Byte, green: Byte, blue: Byte)
    ensures |Digits(red, green, blue, false)| == 6 && Digits(red, green, blue, false)[0] != '#'
  {
    assert Digits(red, green, blue, false)[0] == HexChar(red / 16, false);
  }

  lemma StrippedOfNormalized(s: string, upper: string, digits: string, hash: bool)
    requires digits != [] && digits[0] != '#'
    requires Trim(s) == s && Uppercased(s) == upper
    requires upper == (if hash then "#" else "") + digits
    ensures Stripped(s) == digits
  {
    assert Normalized(s) == upper;
    if hash {
      assert upper[0] == '#' && upper[1..] == digits;
    } else {
      assert upper == digits;
    }
  }

  lemma StrippedFormat(red: Byte, green: Byte, blue: Byte, hash: bool, lowercase: bool)
    ensures Stripped(Format(red, green, blue, hash, lowercase)) == Digits(red, green, blue, false)
  {
    TrimFormat(red, green, blue, hash, lowercase);
    UppercasedFormat(red, green, blue, hash, lowercase);
    DigitsStart(red, green, blue);
    StrippedOfNormalized(Format(red, green, blue, hash, lowercase), Format(red, green, blue, hash, false),
                         Digits(red, green, blue, false), hash);
  }

  lemma HexValueAppendByte(p: string, x: Byte)
    requires AllHexDigits(p)
    ensures AllHexDigits(p + FormatByte(x, false))
    ensures HexValue(p + FormatByte(x, false)) == HexValue(p) * 256 + x
  {
    var hi, lo := HexChar(x / 16, false), HexChar(x % 16, false);
    var q := p + [hi];
    assert p + FormatByte(x, false) == q + [lo];
    assert (q + [lo])[..|q|] == q;
    assert q[..|p|] == p;
    calc {
      HexValue(q + [lo]);
      HexValue(q) * 16 + x % 16;
      (HexValue(p) * 16 + x / 16) * 16 + x % 16;
      HexValue(p) * 256 + x;
    }
  }

  lemma DigitsValue(red: Byte, green: Byte, blue: Byte)
    ensures AllHexDigits(Digits(red, green, blue, false))
    ensures HexValue(Digits(red, green, blue, false)) == red * 0x10000 + green * 0x100 + blue
  {
    assert [] + FormatByte(red, false) == FormatByte(red, false);
    HexValueAppendByte([], red);
    HexValueAppendByte(FormatByte(red, false), green);
    HexValueAppendByte(FormatByte(red, false) + FormatByte(green, false), blue);
  }

  /** The scanner reads a plain run of digits whole. */
  lemma ScanPlainDigits(digits: string)
    requires AllHexDigits(digits)
    ensures ScanHexInt32(digits) == HexValue(digits)
  {
    assert SkipWhitespace(digits, 0) == 0;
    var e := SkipHexDigits(digits, 0);
    assert digits[0..|digits|] == digits;
  }

  /** Where the scanner's digits start and stop pins down the value it reads. */
  lemma ScanBetween(s: string, ws: nat, q: nat, e: nat)
    requires ws <= q <= e <= |s|
    requires forall k :: 0 <= k < ws ==> IsWhitespaceOrNewline(s[k])
    requires ws < |s| && !IsWhitespaceOrNewline(s[ws])
    requires q == ws || (q == ws + 2 && s[ws] == '0' && (s[ws + 1] == 'X' || s[ws + 1] == 'x'))
    requires q == ws ==> !(ws + 2 <= |s| && s[ws] == '0' && (s[ws + 1] == 'X' || s[ws + 1] == 'x'))
    requires forall k :: q <= k < e ==> IsHexDigit(s[k])
    requires e < |s| ==> !IsHexDigit(s[e])
    ensures ScanHexInt32(s) == HexValue(s[q..e])
  {
    assert SkipWhitespace(s, 0) == ws;
    assert ScanStart(s) == q;
    assert SkipHexDigits(s, q) == e;
  }

  /** The scanner passes over leading whitespace and a "0X" or "0x" and reads
      the run of digits that follows, up to the first character that is not a
      digit. */
  lemma ScanAfterPrefix(w: string, p: string, d: string, rest: string)
    requires AllWhitespace(w) && (p == "" || p == "0X" || p == "0x")
    requires d != [] && AllHexDigits(d)
    requires rest == [] || (!IsHexDigit(rest[0]) && rest[0] != 'X' && rest[0] != 'x')
    ensures ScanHexInt32(w + p + d + rest) == HexValue(d)
  {
    var s := w + p + d + rest;
    var q, e := |w| + |p|, |w| + |p| + |d|;
    assert s[..q] == w + p && s[q..e] == d && s[e..] == rest;
    forall k | 0 <= k < |w| ensures IsWhitespaceOrNewline(s[k]) {
      assert s[k] == s[..q][k] == w[k];
    }
    forall k | q <= k < e ensures IsHexDigit(s[k]) {
      assert s[k] == d[k - q];
    }
    if e < |s| {
      assert s[e] == rest[0];
    }
    if p == "" {
      assert s[|w|] == d[0];
      if |w| + 2 <= |s| {
        assert s[|w| + 1] == if |d| > 1 then d[1] else rest[0];
      }
    } else {
      assert s[|w|] == s[..q][|w|] == '0';
      assert s[|w| + 1] == s[..q][|w| + 1] == p[1];
    }
    ScanBetween(s, |w|, q, e);
  }

  /** The channels of a value made of three bytes are those bytes. */
  lemma ChannelsOfBytes(red: Byte, green: Byte, blue: Byte)
    ensures Channels(red * 0x10000 + green * 0x100 + blue) == Rgb(red, green, blue)
  {
    var v := red * 0x10000 + green * 0x100 + blue;
    assert v / 0x10000 == red;
    assert v / 0x100 == red * 0x100 + green;
  }

  lemma ScanDigits(red: Byte, green: Byte, blue: Byte)
    ensures ScanHexInt32(Digits(red, green, blue, false)) == red * 0x10000 + green * 0x100 + blue
    ensures Channels(ScanHexInt32(Digits(red, green, blue, false))) == Rgb(red, green, blue)
  {
    DigitsValue(red, green, blue);
    ScanPlainDigits(Digits(red, green, blue, false));
    ChannelsOfBytes(red, green, blue);
  }

  lemma ParseOfSixCharacters(hex: string, six: string)
    requires Stripped(hex) == six && |six| == 6
    ensures ScanHexInt32(six) < 0x100_0000
    ensures Parse(hex) == Channels(ScanHexInt32(six))
  {
    assert Pow16(6) == 0x100_0000;
  }

  /** Any colour written as six hex digits, with or without '#', in either
      case, parses back to the same channels. */
  lemma FormatParseRoundTrip(red: Byte, green: Byte, blue: Byte, hash: bool, lowercase: bool)
    ensures Parse(Format(red, green, blue, hash, lowercase)) == Rgb(red, green, blue)
  {
    var f, d := Format(red, green, blue, hash, lowercase), Digits(red, green, blue, false);
    StrippedFormat(red, green, blue, hash, lowercase);
    DigitsStart(red, green, blue);
    ParseOfSixCharacters(f, d);
    ScanDigits(red, green, blue);
  }

  // ---------------------------------------------------------------------------
  // Examples

  lemma ParsesRedWithHash()
    ensures Parse("#FC3B60") == Rgb(252, 59, 96)
  {
    assert Format(252, 59, 96, true, false) == "#FC3B60";
    FormatParseRoundTrip(252, 59, 96, true, false);
  }

  lemma ParsesLowercaseWithoutHash()
    ensures Parse("fc3b60") == Rgb(252, 59, 96)
  {
    assert Format(252, 59, 96, false, true) == "fc3b60";
    FormatParseRoundTrip(252, 59, 96, false, true);
  }

  lemma ParsesDarkBlueWithoutHash()
    ensures Parse("1B2432") == Rgb(27, 36, 50)
  {
    assert Format(27, 36, 50, false, false) == "1B2432";
    FormatParseRoundTrip(27, 36, 50, false, false);
  }

  /** Only one '#' is removed: "##" followed by six digits is seven characters
      long after stripping and falls back to grey. */
  lemma DoubleHashFallsBack(red: Byte, green: Byte, blue: Byte)
    ensures Parse("#" + Format(red, green, blue, true, false)) == FallbackGrey
  {
    var f := "#" + Format(red, green, blue, true, false);
    assert f[|f| - 1] == HexChar(blue % 16, false);
    TrimUnique([], f, []);
    assert [] + f + [] == f;
    assert |Stripped(f)| == |f| - 1 == 7;
  }

  /** A string of the wrong length falls back to grey. */
  lemma ShortStringFallsBack()
    ensures Parse("ABC") == FallbackGrey
  {
    TrimUnique([], "ABC", []);
    assert [] + "ABC" + [] == "ABC";
  }

  /** Six characters the scanner cannot start on leave the value at zero:
      the colour is black, not the fallback grey. */
  lemma NoDigitsGiveBlack(hex: string)
    requires |Stripped(hex)| == 6
    requires !IsHexDigit(Stripped(hex)[0]) && !IsWhitespaceOrNewline(Stripped(hex)[0])
    ensures Parse(hex) == Rgb(0, 0, 0)
  {
    var s := Stripped(hex);
    assert SkipWhitespace(s, 0) == 0;
    assert ScanStart(s) == 0;
    assert SkipHexDigits(s, 0) == 0;
    assert s[0..0] == [];
  }
}
