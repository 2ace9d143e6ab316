/** The parser inverts the printer, and sorting keys keeps exactly the meaning. */
module JsonRoundTrip {
  import opened Common
  import opened Ordering
  import opened Utf8Text
  import opened JsonText

  // ---------- Strings ----------

  lemma HexDigitValue(n: int)
    requires 0 <= n < 16
    ensures HexValue(HexDigit(n)) == Some(n)
  {
  }

  lemma ControlEscape(c: char, rest: string)
    requires c as int < 0x20
    ensures ParseEscape("u00" + [HexDigit(c as int / 16), HexDigit(c as int % 16)] + rest) == Some((c, rest))
  {
    var n := c as int;
    var s := "u00" + [HexDigit(n / 16), HexDigit(n % 16)] + rest;
    HexDigitValue(n / 16);
    HexDigitValue(n % 16);
    assert s[1] == '0' && s[2] == '0' && s[3] == HexDigit(n / 16) && s[4] == HexDigit(n % 16);
    assert s[1..][0] == s[1] && s[1..][1] == s[2] && s[1..][2] == s[3] && s[1..][3] == s[4];
    assert HexValue('0') == Some(0);
    assert ParseHex4(s[1..]) == Some(n);
    assert s[5..] == rest;
  }

  /** The characters that separate tokens, and the digits an escape is read from, by their codes. */
  lemma ReadCharacters(c: char)
    ensures IsJsonSpace(c) <==> c as int in {9, 10, 13, 32}
    ensures HexValue(c) == if 48 <= c as int <= 57 then Some(c as int - 48)
                           else if 97 <= c as int <= 102 then Some(c as int - 87)
                           else if 65 <= c as int <= 70 then Some(c as int - 55) else None
  {
  }

  predicate IsLowerHex(c: char) {
    '0' <= c <= '9' || 'a' <= c <= 'f'
  }

  /** The value of a string of lower-case hexadecimal digits, most significant first. */
  function HexRead(s: string): int {
    if s == "" then 0
    else
      var c := s[|s| - 1];
      HexRead(s[..|s| - 1]) * 16 + (if c <= '9' then c as int - '0' as int else c as int - 'a' as int + 10)
  }

  lemma HexDigitIsLower(n: int)
    requires 0 <= n < 16
    ensures IsLowerHex(HexDigit(n))
    ensures HexDigit(n) as int == if n < 10 then '0' as int + n else 'a' as int + n - 10
  {
  }

  lemma HexReadTwo(a: char, b: char)
    ensures HexRead([a, b]) == HexRead([a]) * 16 + HexRead([b])
  {
    assert [a, b][..1] == [a] && [a][..0] == "" && [b][..0] == "";
  }

  lemma HexReadDigit(n: int)
    requires 0 <= n < 16
    ensures HexRead([HexDigit(n)]) == n
  {
    HexDigitIsLower(n);
    assert [HexDigit(n)][..0] == "";
  }

  /** The characters with an escape of two characters. */
  predicate HasShortEscape(c: char) {
    c == '"' || c == '\\' || c == '\n' || c == '\r' || c == '\t' || c as int == 0x0C || c as int == 0x08
  }

  /**
   * The text of every character: seven short escapes, `\u00` and two lower-case digits for the other
   * control characters, and the character itself for all the rest.
   */
  lemma EscapeCharExactly(c: char)
    ensures EscapeChar('"') == ['\\', '"'] && EscapeChar('\\') == ['\\', '\\']
    ensures EscapeChar('\n') == ['\\', 'n'] && EscapeChar('\r') == ['\\', 'r'] && EscapeChar('\t') == ['\\', 't']
    ensures EscapeChar(0x0C as char) == ['\\', 'f'] && EscapeChar(0x08 as char) == ['\\', 'b']
    ensures !HasShortEscape(c) && c as int < 0x20 ==>
              var e := EscapeChar(c);
              && |e| == 6 && e[..4] == ['\\', 'u', '0', '0']
              && IsLowerHex(e[4]) && IsLowerHex(e[5]) && HexRead(e[4..]) == c as int
    ensures !HasShortEscape(c) && c as int >= 0x20 ==> EscapeChar(c) == [c]
  {
    if !HasShortEscape(c) && c as int < 0x20 {
      var a, b := HexDigit(c as int / 16), HexDigit(c as int % 16);
      HexDigitIsLower(c as int / 16);
      HexDigitIsLower(c as int % 16);
      HexReadDigit(c as int / 16);
      HexReadDigit(c as int % 16);
      HexReadTwo(a, b);
      assert EscapeChar(c)[4..] == [a, b];
    }
  }

  /** Text without quotes, backslashes and controls is quoted as it is. */
  lemma {:induction false} PlainQuote(s: string)
    requires forall i :: 0 <= i < |s| ==> s[i] != '"' && s[i] != '\\' && s[i] as int >= 0x20
    ensures Escape(s) == s && Quote(s) == "\"" + s + "\""
  {
    if s != "" {
      PlainQuote(s[1..]);
      assert s == [s[0]] + s[1..];
    }
  }

  /** The nine escapes that are read, and what the eight of one letter stand for. */
  lemma EscapeLetters(s: string)
    requires s != ""
    ensures s[0] !in {'"', '\\', '/', 'n', 'r', 't', 'f', 'b', 'u'} ==> ParseEscape(s) == None
    ensures s[0] in {'"', '\\', '/'} ==> ParseEscape(s) == Some((s[0], s[1..]))
    ensures s[0] == 'n' ==> ParseEscape(s) == Some((10 as char, s[1..]))
    ensures s[0] == 'r' ==> ParseEscape(s) == Some((13 as char, s[1..]))
    ensures s[0] == 't' ==> ParseEscape(s) == Some((9 as char, s[1..]))
    ensures s[0] == 'f' ==> ParseEscape(s) == Some((12 as char, s[1..]))
    ensures s[0] == 'b' ==> ParseEscape(s) == Some((8 as char, s[1..]))
  {
  }

  /** A backslash followed by a readable escape stands for that character. */
  lemma EscapeStep(s: string, c: char, rest: string)
    requires s != "" && s[0] == '\\' && ParseEscape(s[1..]) == Some((c, rest))
    ensures ParseString(s) == Prepend(c, ParseString(rest))
  {
  }

  lemma ShortEscape(letter: char, c: char, rest: string)
    requires EscapeChar(c) == ['\\', letter]
    ensures ParseEscape([letter] + rest) == Some((c, rest))
  {
    var s := [letter] + rest;
    assert s[1..] == rest;
    assert s[0] == EscapeChar(c)[1];
  }

  lemma EscapeCharInverts(c: char, rest: string)
    ensures ParseString(EscapeChar(c) + rest) == Prepend(c, ParseString(rest))
  {
    var e := EscapeChar(c);
    var s := e + rest;
    if e == [c] {
      assert s[0] == c && s[1..] == rest;
    } else if |e| == 2 {
      assert e == ['\\', e[1]];
      ShortEscape(e[1], c, rest);
      assert s[1..] == [e[1]] + rest;
      EscapeStep(s, c, rest);
    } else {
      ControlEscape(c, rest);
      assert s[1..] == "u00" + [HexDigit(c as int / 16), HexDigit(c as int % 16)] + rest;
      EscapeStep(s, c, rest);
    }
  }

  /** Reading a quoted string gives the string back, whatever follows the closing quote. */
  lemma {:induction false} StringRoundTrip(s: string, rest: string)
    ensures ParseString(Escape(s) + "\"" + rest) == Some((s, rest))
  {
    if s == "" {
      assert (Escape(s) + "\"" + rest)[1..] == rest;
    } else {
      StringRoundTrip(s[1..], rest);
      EscapeCharInverts(s[0], Escape(s[1..]) + "\"" + rest);
      assert Escape(s) + "\"" + rest == EscapeChar(s[0]) + (Escape(s[1..]) + "\"" + rest);
      assert s == [s[0]] + s[1..];
    }
  }

  lemma EscapeHead(s: string, tail: string)
    requires s != ""
    ensures Escape(s) + tail == EscapeChar(s[0]) + (Escape(s[1..]) + tail)
  {
  }

  /** Escaped text decides nothing: what follows it is refused, or not, by itself. */
  lemma {:induction false} RefusalPassesThrough(s: string, tail: string)
    requires ParseString(tail) == None
    ensures ParseString(Escape(s) + tail) == None
  {
    if s == "" {
      assert Escape(s) + tail == tail;
    } else {
      EscapeHead(s, tail);
      RefusalPassesThrough(s[1..], tail);
      EscapeCharInverts(s[0], Escape(s[1..]) + tail);
    }
  }

  /** A string with a bare control character in it, or with no closing quote, is refused. */
  lemma BrokenStringRefused(s: string, c: char, rest: string)
    requires (c as int) < 0x20
    ensures ParseString(Escape(s) + ([c] + rest)) == None
    ensures ParseString(Escape(s) + "") == None
  {
    assert ([c] + rest)[0] == c;
    RefusalPassesThrough(s, [c] + rest);
    RefusalPassesThrough(s, "");
  }

  // ---------- Escapes that other printers use ----------

  /** Four hexadecimal digits. */
  function Hex4(n: int): string
    requires 0 <= n < 0x1_0000
  {
    [HexDigit(n / 4096), HexDigit(n / 256 % 16), HexDigit(n / 16 % 16), HexDigit(n % 16)]
  }

  lemma FourHexDigits(n: int)
    requires 0 <= n < 0x1_0000
    ensures n == ((n / 4096 * 16 + n / 256 % 16) * 16 + n / 16 % 16) * 16 + n % 16
  {
  }

  lemma ParseFour(s: string, a: int, b: int, c: int, d: int)
    requires |s| >= 4 && HexValue(s[0]) == Some(a) && HexValue(s[1]) == Some(b)
    requires HexValue(s[2]) == Some(c) && HexValue(s[3]) == Some(d)
    ensures ParseHex4(s) == Some(((a * 16 + b) * 16 + c) * 16 + d)
  {
  }

  lemma Hex4Reads(n: int, rest: string)
    requires 0 <= n < 0x1_0000
    ensures ParseHex4(Hex4(n) + rest) == Some(n)
  {
    HexDigitValue(n / 4096);
    HexDigitValue(n / 256 % 16);
    HexDigitValue(n / 16 % 16);
    HexDigitValue(n % 16);
    ParseFour(Hex4(n) + rest, n / 4096, n / 256 % 16, n / 16 % 16, n % 16);
    FourHexDigits(n);
  }

  lemma OneUnit(s: string, n: int)
    requires |s| >= 5 && s[0] == 'u' && ParseHex4(s[1..]) == Some(n) && IsScalar(n)
    ensures ParseEscape(s) == Some((n as char, s[5..]))
  {
  }

  lemma TwoUnits(s: string, hi: int, lo: int)
    requires |s| >= 11 && s[0] == 'u' && ParseHex4(s[1..]) == Some(hi) && 0xD800 <= hi < 0xDC00
    requires s[5] == '\\' && s[6] == 'u' && ParseHex4(s[7..]) == Some(lo) && 0xDC00 <= lo < 0xE000
    ensures ParseEscape(s) == Some(((0x1_0000 + (hi - 0xD800) * 0x400 + (lo - 0xDC00)) as char, s[11..]))
  {
    assert s[5..][..2] == "\\u" && s[5..][2..] == s[7..];
  }

  /** Any other character escaped by its four digits is read as itself. */
  lemma OneUnitReads(c: char, rest: string)
    requires (c as int) < 0x1_0000
    ensures ParseString("\\u" + Hex4(c as int) + rest) == Prepend(c, ParseString(rest))
  {
    var h := Hex4(c as int);
    var s := "\\u" + h + rest;
    Hex4Reads(c as int, rest);
    assert s[0] == '\\' && s[1..][0] == 'u' && s[1..][1..] == h + rest && s[1..][5..] == rest;
    OneUnit(s[1..], c as int);
    EscapeStep(s, c, rest);
  }

  lemma PairText(h: string, l: string, rest: string)
    requires |h| == 4 && |l| == 4
    ensures
      var s := "\\u" + h + "\\u" + l + rest;
      && s[0] == '\\' && s[1] == 'u' && s[6] == '\\' && s[7] == 'u'
      && s[2..] == h + s[6..] && s[8..] == l + rest && s[12..] == rest
  {
  }

  lemma PairReads(s: string, hi: int, lo: int, c: char)
    requires |s| >= 12 && s[0] == '\\' && s[1] == 'u' && s[6] == '\\' && s[7] == 'u'
    requires ParseHex4(s[2..]) == Some(hi) && ParseHex4(s[8..]) == Some(lo)
    requires 0xD800 <= hi < 0xDC00 <= lo < 0xE000 && c as int == 0x1_0000 + (hi - 0xD800) * 0x400 + (lo - 0xDC00)
    ensures ParseString(s) == Prepend(c, ParseString(s[12..]))
  {
    var t := s[1..];
    assert t[1..] == s[2..] && t[7..] == s[8..] && t[11..] == s[12..];
    TwoUnits(t, hi, lo);
    EscapeStep(s, c, s[12..]);
  }

  /** Section 7 of RFC 8259: a character beyond the 16-bit ones, escaped as its UTF-16 pair, is read as itself. */
  lemma PairSpelled(hi: int, lo: int, c: char, rest: string)
    requires 0xD800 <= hi < 0xDC00 <= lo < 0xE000 && c as int == 0x1_0000 + (hi - 0xD800) * 0x400 + (lo - 0xDC00)
    ensures ParseString("\\u" + Hex4(hi) + "\\u" + Hex4(lo) + rest) == Prepend(c, ParseString(rest))
  {
    var s := "\\u" + Hex4(hi) + "\\u" + Hex4(lo) + rest;
    PairText(Hex4(hi), Hex4(lo), rest);
    Hex4Reads(hi, s[6..]);
    Hex4Reads(lo, rest);
    PairReads(s, hi, lo, c);
  }

  // ---------- Numbers ----------

  /** Text that cannot continue a number. */
  predicate EndsNumber(rest: string) {
    rest == "" || (!IsDigit(rest[0]) && rest[0] != '.' && rest[0] != 'e' && rest[0] != 'E')
  }

  lemma {:induction false} SpanAll(d: string, rest: string)
    requires forall i :: 0 <= i < |d| ==> IsDigit(d[i])
    requires rest == "" || !IsDigit(rest[0])
    ensures SpanDigits(d + rest) == (d, rest)
  {
    if d == "" {
      assert d + rest == rest;
    } else {
      assert (d + rest)[1..] == d[1..] + rest;
      SpanAll(d[1..], rest);
      assert d == [d[0]] + d[1..];
    }
  }

  lemma {:induction false} DigitsAreDigits(n: nat)
    ensures forall i :: 0 <= i < |Digits(n)| ==> IsDigit(Digits(n)[i])
    ensures Digits(n)[0] == '0' <==> n == 0
    ensures n == 0 ==> Digits(n) == "0"
    ensures DigitsValue(Digits(n)) == n
  {
    if n >= 10 {
      DigitsAreDigits(n / 10);
      var d := Digits(n);
      assert d[..|d| - 1] == Digits(n / 10);
    } else {
      assert Digits(n)[..0] == "";
    }
  }

  lemma NothingToSkip(rest: string)
    requires EndsNumber(rest)
    ensures SkipExponent(SkipFraction(rest)) == rest
  {
  }

  lemma WholeRoundTrip(n: nat, rest: string)
    requires EndsNumber(rest)
    ensures SpanWhole(Digits(n) + rest) == (Digits(n), rest)
  {
    var d := Digits(n);
    DigitsAreDigits(n);
    assert (d + rest)[0] == d[0];
    if n == 0 {
      assert (d + rest)[..1] == d && (d + rest)[1..] == rest;
    } else {
      SpanAll(d, rest);
    }
  }

  lemma WholeNumber(t: string, whole: string, rest: string)
    requires t != "" && IsDigit(t[0]) && SpanWhole(t) == (whole, rest)
    requires EndsNumber(rest)
    ensures ParseMagnitude(t) == Some((IntValue(DigitsValue(whole)), rest))
  {
    assert !StartsWith(t, "Infinity") by { if |t| >= 8 { assert t[..8][0] == t[0]; } }
    NothingToSkip(rest);
  }

  lemma MagnitudeRoundTrip(n: nat, rest: string)
    requires EndsNumber(rest)
    ensures ParseMagnitude(Digits(n) + rest) == Some((IntValue(n), rest))
  {
    WholeRoundTrip(n, rest);
    DigitsAreDigits(n);
    WholeNumber(Digits(n) + rest, Digits(n), rest);
  }

  /** A minus sign and digits are read as the negated magnitude. */
  lemma SignStep(digits: string, n: int)
    requires digits != "" && IsDigit(digits[0])
    requires ParseMagnitude(digits).Some? && ParseMagnitude(digits).value.0 == IntValue(n)
    ensures ParseNumber("-" + digits) == Some((IntValue(-n), ParseMagnitude(digits).value.1))
    ensures ParseNumber(digits) == ParseMagnitude(digits)
  {
    var s := "-" + digits;
    assert s[0] == '-' && s[1..] == digits;
  }

  lemma IntRoundTrip(n: int, rest: string)
    requires EndsNumber(rest)
    ensures ParseNumber(PrintInt(n) + rest) == Some((IntValue(n), rest))
  {
    var m: nat := if n < 0 then -n else n;
    var digits := Digits(m) + rest;
    assert PrintInt(n) + rest == if n < 0 then "-" + digits else digits;
    MagnitudeRoundTrip(m, rest);
    assert IsDigit(digits[0]) by { DigitsAreDigits(m); }
    SignStep(digits, m);
  }

  // ---------- Fractions and exponents ----------

  predicate AllDigits(d: string) {
    d != "" && forall i :: 0 <= i < |d| ==> IsDigit(d[i])
  }

  /** Nothing, or a point and digits. */
  predicate IsFraction(s: string) {
    s == "" || (s[0] == '.' && AllDigits(s[1..]))
  }

  /** Nothing, or `e` or `E`, a sign or none, and digits. */
  predicate IsExponent(s: string) {
    s == "" || ((s[0] == 'e' || s[0] == 'E') &&
                (AllDigits(s[1..]) || (|s| > 1 && (s[1] == '+' || s[1] == '-') && AllDigits(s[2..]))))
  }

  lemma ExponentSkipped(exponent: string, rest: string)
    requires IsExponent(exponent) && EndsNumber(rest)
    ensures SkipExponent(exponent + rest) == rest
  {
    var s := exponent + rest;
    if exponent == "" {
      assert s == rest;
    } else if AllDigits(exponent[1..]) {
      assert s[1..] == exponent[1..] + rest && s[1] == exponent[1..][0];
      SpanAll(exponent[1..], rest);
    } else {
      assert s[2..] == exponent[2..] + rest && s[2] == exponent[2..][0];
      SpanAll(exponent[2..], rest);
    }
  }

  lemma FractionSkipped(fraction: string, rest: string)
    requires IsFraction(fraction) && (rest == "" || (!IsDigit(rest[0]) && rest[0] != '.'))
    ensures SkipFraction(fraction + rest) == rest
  {
    var s := fraction + rest;
    if fraction == "" {
      assert s == rest;
    } else {
      assert s[1..] == fraction[1..] + rest && s[1] == fraction[1..][0];
      SpanAll(fraction[1..], rest);
    }
  }

  lemma WholeSpanned(whole: string, rest: string)
    requires AllDigits(whole) && (whole[0] == '0' ==> |whole| == 1) && (rest == "" || !IsDigit(rest[0]))
    ensures SpanWhole(whole + rest) == (whole, rest)
  {
    var s := whole + rest;
    assert s[0] == whole[0];
    if whole[0] == '0' {
      assert s[..1] == whole && s[1..] == rest;
    } else {
      SpanAll(whole, rest);
    }
  }

  lemma FloatStep(t: string, whole: string, tail: string, rest: string)
    requires t != "" && IsDigit(t[0]) && SpanWhole(t) == (whole, tail)
    requires SkipExponent(SkipFraction(tail)) == rest && |rest| < |tail|
    ensures ParseMagnitude(t) == Some((FloatValue(t[..|t| - |rest|]), rest))
  {
    assert !StartsWith(t, "Infinity") by { if |t| >= 8 { assert t[..8][0] == t[0]; } }
  }

  lemma TailSkipped(fraction: string, exponent: string, rest: string)
    requires IsFraction(fraction) && IsExponent(exponent) && EndsNumber(rest)
    ensures
      var tail := fraction + (exponent + rest);
      SkipExponent(SkipFraction(tail)) == rest && (tail == "" || !IsDigit(tail[0]))
  {
    assert exponent == "" ==> exponent + rest == rest;
    ExponentSkipped(exponent, rest);
    FractionSkipped(fraction, exponent + rest);
    assert fraction == "" ==> fraction + (exponent + rest) == exponent + rest;
  }

  lemma FrontOf(whole: string, fraction: string, exponent: string, rest: string)
    ensures
      var t := whole + (fraction + (exponent + rest));
      |t| >= |rest| && t[..|t| - |rest|] == whole + (fraction + exponent)
  {
  }

  /** A number with a fraction, an exponent or both is kept as its whole text, up to what cannot extend it. */
  lemma FloatReads(whole: string, fraction: string, exponent: string, rest: string)
    requires AllDigits(whole) && (whole[0] == '0' ==> |whole| == 1) && EndsNumber(rest)
    requires IsFraction(fraction) && IsExponent(exponent) && (fraction != "" || exponent != "")
    ensures ParseMagnitude(whole + (fraction + (exponent + rest)))
         == Some((FloatValue(whole + (fraction + exponent)), rest))
  {
    var tail := fraction + (exponent + rest);
    TailSkipped(fraction, exponent, rest);
    WholeSpanned(whole, tail);
    assert (whole + tail)[0] == whole[0];
    FloatStep(whole + tail, whole, tail, rest);
    FrontOf(whole, fraction, exponent, rest);
  }

  /** The three words Python reads as floats, and a float with a minus sign. */
  lemma FloatWords(t: string, lexeme: string, rest: string)
    ensures ParseMagnitude("Infinity" + rest) == Some((FloatValue("Infinity"), rest))
    ensures ParseValue("NaN" + rest) == Some((FloatValue("NaN"), rest))
    ensures ParseMagnitude(t) == Some((FloatValue(lexeme), rest)) ==>
              ParseNumber("-" + t) == Some((FloatValue("-" + lexeme), rest))
  {
    assert ("Infinity" + rest)[..8] == "Infinity" && ("Infinity" + rest)[8..] == rest;
    var s := "NaN" + rest;
    assert s[0] == 'N' && s[..3] == "NaN" && s[3..] == rest;
    assert !StartsWith(s, "null") by { if |s| >= 4 { assert s[..4][0] == s[0]; } }
    assert !StartsWith(s, "true") by { if |s| >= 4 { assert s[..4][0] == s[0]; } }
    assert !StartsWith(s, "false") by { if |s| >= 5 { assert s[..5][0] == s[0]; } }
    assert ("-" + t)[0] == '-' && ("-" + t)[1..] == t;
  }

  // ---------- Values ----------

  /** How a printed value can begin. */
  predicate OpensValue(c: char) {
    c == 'n' || c == 't' || c == 'f' || c == '"' || c == '[' || c == '{' || c == '-' || IsDigit(c)
  }

  lemma PrintOpens(j: Json)
    ensures Print(j) != "" && OpensValue(Print(j)[0])
  {
    if j.Int? {
      DigitsAreDigits(if j.n < 0 then -j.n else j.n);
    }
  }

  lemma LiteralRoundTrip(word: string, rest: string)
    requires word == "null" || word == "true" || word == "false"
    ensures ParseValue(word + rest)
         == Some((if word == "null" then NullValue else BoolValue(word == "true"), rest))
  {
    var s := word + rest;
    assert s[0] == word[0] && s[..|word|] == word && s[|word|..] == rest;
    assert word == "true" ==> s[0] == 't';
    assert word == "false" ==> s[0] == 'f';
    assert StartsWith(s, word);
    assert StartsWith(s, "null") ==> s[0] == 'n';
    assert StartsWith(s, "true") ==> s[0] == 't';
  }

  lemma StringDispatch(t: string, rest: string)
    ensures ParseValue(Quote(t) + rest) == Some((StrValue(t), rest))
  {
    var s := Quote(t) + rest;
    assert s[0] == '"' && s[1..] == Escape(t) + "\"" + rest;
    StringRoundTrip(t, rest);
  }

  lemma NumberDispatch(n: int, rest: string)
    requires EndsNumber(rest)
    ensures ParseValue(PrintInt(n) + rest) == Some((IntValue(n), rest))
  {
    var s := PrintInt(n) + rest;
    PrintOpens(Int(n));
    assert s[0] == PrintInt(n)[0];
    assert n >= 0 ==> IsDigit(s[0]) by { if n >= 0 { DigitsAreDigits(n); } }
    IntRoundTrip(n, rest);
  }

  /** A number, a string or a literal reads back. */
  lemma ScalarRoundTrip(j: Json, rest: string)
    requires !j.Arr? && !j.Obj? && EndsNumber(rest)
    ensures ParseValue(Print(j) + rest) == Some((Meaning(j), rest))
  {
    match j
    case Null =>
      LiteralRoundTrip("null", rest);
    case Bool(b) =>
      LiteralRoundTrip(if b then "true" else "false", rest);
    case Int(n) =>
      NumberDispatch(n, rest);
    case Str(t) =>
      StringDispatch(t, rest);
  }

  // ---------- Text with whitespace between its tokens ----------

  predicate IsGap(gap: string) {
    forall i :: 0 <= i < |gap| ==> IsJsonSpace(gap[i])
  }

  /** The text of a value with the same whitespace between all of its tokens. */
  function Spread(j: Json, gap: string): string {
    match j
    case Arr(items) => if items == [] then "[" + gap + "]" else "[" + (gap + SpreadItems(items, gap)) + "]"
    case Obj(members) => if members == [] then "{" + gap + "}" else "{" + (gap + SpreadMembers(members, gap)) + "}"
    case _ => Print(j)
  }

  function SpreadItems(items: seq<Json>, gap: string): string
    requires items != []
  {
    if |items| == 1 then Spread(items[0], gap) + gap
    else Spread(items[0], gap) + gap + "," + gap + SpreadItems(items[1..], gap)
  }

  function SpreadMember(m: Member, gap: string): string {
    Quote(m.key) + gap + ":" + gap + Spread(m.value, gap)
  }

  function SpreadMembers(members: seq<Member>, gap: string): string
    requires members != []
  {
    if |members| == 1 then SpreadMember(members[0], gap) + gap
    else SpreadMember(members[0], gap) + gap + "," + gap + SpreadMembers(members[1..], gap)
  }

  lemma {:induction false} AfterGap(gap: string, t: string)
    requires IsGap(gap) && (t == "" || !IsJsonSpace(t[0]))
    ensures SkipSpace(gap + t) == t
  {
    if gap == "" {
      assert gap + t == t;
    } else {
      assert (gap + t)[0] == gap[0] && (gap + t)[1..] == gap[1..] + t;
      AfterGap(gap[1..], t);
    }
  }

  lemma GapEndsNumber(gap: string, t: string)
    requires IsGap(gap) && EndsNumber(t)
    ensures EndsNumber(gap + t)
  {
    if gap == "" {
      assert gap + t == t;
    } else {
      assert (gap + t)[0] == gap[0] && IsJsonSpace(gap[0]);
    }
  }

  lemma OpenObject(gap: string, t: string)
    requires IsGap(gap) && t != "" && t[0] == '"'
    ensures ParseValue("{" + (gap + t)) == ParseMembers(t, map[])
  {
    var s := "{" + (gap + t);
    assert s[0] == '{' && s[1..] == gap + t;
    AfterGap(gap, t);
  }

  lemma OpenArray(gap: string, t: string)
    requires IsGap(gap) && t != "" && OpensValue(t[0])
    ensures ParseValue("[" + (gap + t)) == ParseItems(t, [])
  {
    var s := "[" + (gap + t);
    assert s[0] == '[' && s[1..] == gap + t;
    AfterGap(gap, t);
  }

  lemma EmptyObject(gap: string, rest: string)
    requires IsGap(gap)
    ensures ParseValue("{" + gap + "}" + rest) == Some((ObjValue(map[]), rest))
  {
    var s, t := "{" + gap + "}" + rest, "}" + rest;
    assert s[0] == '{' && s[1..] == gap + t && t[0] == '}' && t[1..] == rest;
    AfterGap(gap, t);
  }

  lemma EmptyArray(gap: string, rest: string)
    requires IsGap(gap)
    ensures ParseValue("[" + gap + "]" + rest) == Some((ArrValue([]), rest))
  {
    var s, t := "[" + gap + "]" + rest, "]" + rest;
    assert s[0] == '[' && s[1..] == gap + t && t[0] == ']' && t[1..] == rest;
    AfterGap(gap, t);
  }

  lemma Unwrap(opening: string, gap: string, text: string, closing: string, rest: string)
    ensures (opening + (gap + text) + closing) + rest == opening + (gap + (text + (closing + rest)))
  {
    assert opening + (gap + text) + closing == opening + (gap + (text + closing));
    assert (gap + (text + closing)) + rest == gap + (text + (closing + rest));
  }

  /** Parsing inverts printing, whatever whitespace is between the tokens, and stops exactly where the value ends. */
  lemma {:induction false} SpreadRoundTrip(j: Json, gap: string, rest: string)
    requires IsGap(gap) && EndsNumber(rest)
    ensures ParseValue(Spread(j, gap) + rest) == Some((Meaning(j), rest))
    decreases j, 0
  {
    match j
    case Arr(items) =>
      if items == [] {
        EmptyArray(gap, rest);
      } else {
        var t := SpreadItems(items, gap) + ("]" + rest);
        Unwrap("[", gap, SpreadItems(items, gap), "]", rest);
        SpreadItemsOpens(items, gap, "]" + rest);
        OpenArray(gap, t);
        ItemsRoundTrip(items, gap, [], rest);
        assert [] + ItemsMeaning(items) == ItemsMeaning(items);
      }
    case Obj(members) =>
      if members == [] {
        EmptyObject(gap, rest);
      } else {
        var t := SpreadMembers(members, gap) + ("}" + rest);
        Unwrap("{", gap, SpreadMembers(members, gap), "}", rest);
        SpreadMembersOpens(members, gap, "}" + rest);
        OpenObject(gap, t);
        MembersRoundTrip(members, gap, map[], rest);
      }
    case _ =>
      ScalarRoundTrip(j, rest);
  }

  lemma RegroupLast(first: string, gap: string, close: string)
    ensures (first + gap) + close == first + (gap + close)
  {
  }

  /** Text after a comma belongs with what follows it. */
  lemma Regroup(first: string, gap: string, others: string, close: string)
    ensures (first + gap + "," + gap + others) + close == first + (gap + ("," + (gap + (others + close))))
  {
    assert (first + gap + "," + gap + others) + close == (first + gap + "," + gap) + (others + close);
  }

  lemma LastItem(s: string, value: Value, gap: string, rest: string, acc: seq<Value>)
    requires IsGap(gap) && ParseValue(s) == Some((value, gap + ("]" + rest)))
    ensures ParseItems(s, acc) == Some((ArrValue(acc + [value]), rest))
  {
    var tail := "]" + rest;
    assert tail[0] == ']' && tail[1..] == rest;
    AfterGap(gap, tail);
  }

  lemma NextItem(s: string, value: Value, gap: string, t: string, acc: seq<Value>)
    requires IsGap(gap) && ParseValue(s) == Some((value, gap + ("," + (gap + t))))
    requires t != "" && OpensValue(t[0])
    ensures ParseItems(s, acc) == ParseItems(t, acc + [value])
  {
    var tail := "," + (gap + t);
    assert tail[0] == ',' && tail[1..] == gap + t;
    AfterGap(gap, tail);
    AfterGap(gap, t);
  }

  lemma SpreadOpens(j: Json, gap: string)
    ensures Spread(j, gap) != "" && OpensValue(Spread(j, gap)[0])
  {
    PrintOpens(j);
  }

  lemma SpreadItemsOpens(items: seq<Json>, gap: string, close: string)
    requires items != []
    ensures SpreadItems(items, gap) + close != "" && OpensValue((SpreadItems(items, gap) + close)[0])
  {
    SpreadOpens(items[0], gap);
    assert (SpreadItems(items, gap) + close)[0] == Spread(items[0], gap)[0];
  }

  lemma OneItem(items: seq<Json>)
    requires |items| == 1
    ensures ItemsMeaning(items) == [Meaning(items[0])]
  {
    assert items[1..] == [];
  }

  lemma MoreItems(items: seq<Json>, acc: seq<Value>)
    requires items != []
    ensures (acc + [Meaning(items[0])]) + ItemsMeaning(items[1..]) == acc + ItemsMeaning(items)
  {
  }

  lemma {:induction false} ItemsRoundTrip(items: seq<Json>, gap: string, acc: seq<Value>, rest: string)
    requires IsGap(gap) && items != []
    ensures ParseItems(SpreadItems(items, gap) + ("]" + rest), acc)
         == Some((ArrValue(acc + ItemsMeaning(items)), rest))
    decreases items, 1
  {
    var close := "]" + rest;
    var first, v := Spread(items[0], gap), Meaning(items[0]);
    if |items| == 1 {
      GapEndsNumber(gap, close);
      SpreadRoundTrip(items[0], gap, gap + close);
      RegroupLast(first, gap, close);
      LastItem(first + (gap + close), v, gap, rest, acc);
      OneItem(items);
    } else {
      var t := SpreadItems(items[1..], gap) + close;
      SpreadItemsOpens(items[1..], gap, close);
      Regroup(first, gap, SpreadItems(items[1..], gap), close);
      GapEndsNumber(gap, "," + (gap + t));
      SpreadRoundTrip(items[0], gap, gap + ("," + (gap + t)));
      NextItem(first + (gap + ("," + (gap + t))), v, gap, t, acc);
      ItemsRoundTrip(items[1..], gap, acc + [v], rest);
      MoreItems(items, acc);
    }
  }

  /** One member is read: its key, the colon, its value. */
  lemma MemberStep(s: string, key: string, gap: string, body: string, value: Value, tail: string)
    requires IsGap(gap) && s != "" && s[0] == '"' && ParseString(s[1..]) == Some((key, gap + (":" + (gap + body))))
    requires body != "" && !IsJsonSpace(body[0])
    requires ParseValue(body) == Some((value, tail))
    ensures ParseMember(s) == Some((key, value, tail))
  {
    var colon := ":" + (gap + body);
    assert colon[0] == ':' && colon[1..] == gap + body;
    AfterGap(gap, colon);
    AfterGap(gap, body);
  }

  lemma QuoteStep(key: string, rest: string)
    ensures ParseString((Quote(key) + rest)[1..]) == Some((key, rest))
    ensures (Quote(key) + rest)[0] == '"'
  {
    StringRoundTrip(key, rest);
    assert (Quote(key) + rest)[1..] == Escape(key) + "\"" + rest;
  }

  lemma RegroupMember(quoted: string, gap: string, text: string, tail: string)
    ensures (quoted + gap + ":" + gap + text) + tail == quoted + (gap + (":" + (gap + (text + tail))))
  {
    assert (quoted + gap + ":" + gap + text) + tail == (quoted + gap + ":" + gap) + (text + tail);
  }

  lemma MemberRoundTrip(m: Member, gap: string, tail: string)
    requires IsGap(gap) && ParseValue(Spread(m.value, gap) + tail) == Some((Meaning(m.value), tail))
    ensures ParseMember(SpreadMember(m, gap) + tail) == Some((m.key, Meaning(m.value), tail))
  {
    var quoted, text := Quote(m.key), Spread(m.value, gap);
    var after := gap + (":" + (gap + (text + tail)));
    RegroupMember(quoted, gap, text, tail);
    QuoteStep(m.key, after);
    SpreadOpens(m.value, gap);
    assert (text + tail)[0] == text[0];
    MemberStep(quoted + after, m.key, gap, text + tail, Meaning(m.value), tail);
  }

  lemma LastMember(s: string, key: string, value: Value, gap: string, rest: string, acc: map<string, Value>)
    requires IsGap(gap) && ParseMember(s) == Some((key, value, gap + ("}" + rest)))
    ensures ParseMembers(s, acc) == Some((ObjValue(acc[key := value]), rest))
  {
    var tail := "}" + rest;
    assert tail[0] == '}' && tail[1..] == rest;
    AfterGap(gap, tail);
  }

  lemma NextMember(s: string, key: string, value: Value, gap: string, t: string, acc: map<string, Value>)
    requires IsGap(gap) && ParseMember(s) == Some((key, value, gap + ("," + (gap + t))))
    requires t != "" && t[0] == '"'
    ensures ParseMembers(s, acc) == ParseMembers(t, acc[key := value])
  {
    var tail := "," + (gap + t);
    assert tail[0] == ',' && tail[1..] == gap + t;
    AfterGap(gap, tail);
    AfterGap(gap, t);
  }

  lemma SpreadMembersOpens(members: seq<Member>, gap: string, close: string)
    requires members != []
    ensures SpreadMembers(members, gap) + close != "" && (SpreadMembers(members, gap) + close)[0] == '"'
  {
    assert SpreadMember(members[0], gap)[0] == '"';
  }

  lemma {:induction false} MembersRoundTrip(members: seq<Member>, gap: string, acc: map<string, Value>, rest: string)
    requires IsGap(gap) && members != []
    ensures ParseMembers(SpreadMembers(members, gap) + ("}" + rest), acc)
         == Some((ObjValue(MembersMeaning(members, acc)), rest))
    decreases members, 1
  {
    var close := "}" + rest;
    var m, first, v := members[0], SpreadMember(members[0], gap), Meaning(members[0].value);
    if |members| == 1 {
      GapEndsNumber(gap, close);
      SpreadRoundTrip(m.value, gap, gap + close);
      MemberRoundTrip(m, gap, gap + close);
      RegroupLast(first, gap, close);
      LastMember(first + (gap + close), m.key, v, gap, rest, acc);
      assert members[1..] == [];
    } else {
      var t := SpreadMembers(members[1..], gap) + close;
      var tail := gap + ("," + (gap + t));
      SpreadMembersOpens(members[1..], gap, close);
      Regroup(first, gap, SpreadMembers(members[1..], gap), close);
      GapEndsNumber(gap, "," + (gap + t));
      SpreadRoundTrip(m.value, gap, tail);
      MemberRoundTrip(m, gap, tail);
      NextMember(first + tail, m.key, v, gap, t, acc);
      MembersRoundTrip(members[1..], gap, acc[m.key := v], rest);
    }
  }

  /** Printed text is text with nothing between its tokens. */
  lemma {:induction false} PrintIsCompact(j: Json)
    ensures Print(j) == Spread(j, "")
    decreases j, 0
  {
    match j
    case Arr(items) =>
      if items != [] {
        ItemsAreCompact(items);
        assert "" + SpreadItems(items, "") == PrintItems(items);
      }
    case Obj(members) =>
      if members != [] {
        MembersAreCompact(members);
        assert "" + SpreadMembers(members, "") == PrintMembers(members);
      }
    case _ =>
  }

  lemma NoGap(first: string, mark: string, others: string)
    ensures first + "" == first
    ensures first + "" + mark + "" + others == first + mark + others
  {
    assert first + "" == first && first + mark + "" == first + mark;
  }

  lemma {:induction false} ItemsAreCompact(items: seq<Json>)
    requires items != []
    ensures PrintItems(items) == SpreadItems(items, "")
    decreases items, 1
  {
    PrintIsCompact(items[0]);
    if |items| > 1 {
      ItemsAreCompact(items[1..]);
    }
    NoGap(Print(items[0]), ",", if |items| > 1 then PrintItems(items[1..]) else "");
  }

  lemma {:induction false} MembersAreCompact(members: seq<Member>)
    requires members != []
    ensures PrintMembers(members) == SpreadMembers(members, "")
    decreases members, 1
  {
    PrintIsCompact(members[0].value);
    NoGap(Quote(members[0].key), ":", Print(members[0].value));
    if |members| > 1 {
      MembersAreCompact(members[1..]);
    }
    NoGap(SpreadMember(members[0], ""), ",", if |members| > 1 then PrintMembers(members[1..]) else "");
  }

  /** So parsing inverts compact printing too. */
  lemma ValueRoundTrip(j: Json, rest: string)
    requires EndsNumber(rest)
    ensures ParseValue(Print(j) + rest) == Some((Meaning(j), rest))
  {
    PrintIsCompact(j);
    SpreadRoundTrip(j, "", rest);
  }

  lemma {:induction false} Utf8Head(s: string)
    requires s != "" && s[0] as int < 0x80
    ensures Utf8(s) != [] && Utf8(s)[0] < 0x80
  {
  }

  /** `json.loads` of text with whitespace anywhere between and around its tokens. */
  lemma LoadsInvertsSpread(j: Json, before: string, gap: string, after: string)
    requires IsGap(before) && IsGap(gap) && IsGap(after)
    ensures LoadsText(before + (Spread(j, gap) + after)) == Some(Meaning(j))
  {
    SpreadOpens(j, gap);
    assert (Spread(j, gap) + after)[0] == Spread(j, gap)[0];
    AfterGap(before, Spread(j, gap) + after);
    GapEndsNumber(after, "");
    AfterGap(after, "");
    assert after + "" == after;
    SpreadRoundTrip(j, gap, after);
  }

  /** Anything but whitespace after the value makes the text no JSON. */
  lemma TrailingTextRefused(j: Json, gap: string, rest: string)
    requires IsGap(gap) && EndsNumber(rest) && exists i :: 0 <= i < |rest| && !IsJsonSpace(rest[i])
    ensures LoadsText(Spread(j, gap) + rest) == None
  {
    SpreadOpens(j, gap);
    assert (Spread(j, gap) + rest)[0] == Spread(j, gap)[0];
    AfterGap("", Spread(j, gap) + rest);
    assert "" + (Spread(j, gap) + rest) == Spread(j, gap) + rest;
    SpreadRoundTrip(j, gap, rest);
    var i :| 0 <= i < |rest| && !IsJsonSpace(rest[i]);
    SkipStops(rest, i);
  }

  lemma {:induction false} SkipStops(s: string, i: nat)
    requires i < |s| && !IsJsonSpace(s[i])
    ensures SkipSpace(s) != ""
  {
    if i > 0 {
      SkipStops(s[1..], i - 1);
    }
  }

  /** `json.loads` of printed text is the value's meaning. */
  lemma LoadsInvertsPrint(j: Json)
    ensures LoadsText(Print(j)) == Some(Meaning(j))
    ensures Loads(Utf8(Print(j))) == Some(Meaning(j))
  {
    var s := Print(j);
    PrintIsCompact(j);
    LoadsInvertsSpread(j, "", "", "");
    assert "" + (s + "") == s;
    Utf8RoundTrip(s);
    PrintOpens(j);
    Utf8Head(s);
    var b := Utf8(s);
    assert |b| >= 3 ==> b[..3][0] == b[0];
  }

  /** A byte-order mark before the bytes makes no difference. */
  lemma ByteOrderMarkDropped(j: Json)
    ensures Loads([0xEF, 0xBB, 0xBF] + Utf8(Print(j))) == Some(Meaning(j))
  {
    LoadsInvertsPrint(j);
    Utf8RoundTrip(Print(j));
    var b: bytes := [0xEF, 0xBB, 0xBF] + Utf8(Print(j));
    assert b[..3] == [0xEF, 0xBB, 0xBF] && b[3..] == Utf8(Print(j));
  }

  // ---------- Sorting keeps the meaning ----------

  lemma MembersMeaningSwap(a: Member, b: Member, rest: seq<Member>, acc: map<string, Value>)
    requires a.key != b.key
    ensures MembersMeaning([a, b] + rest, acc) == MembersMeaning([b, a] + rest, acc)
  {
    assert ([a, b] + rest)[1..] == [b] + rest && ([b] + rest)[1..] == rest;
    assert ([b, a] + rest)[1..] == [a] + rest && ([a] + rest)[1..] == rest;
    assert acc[a.key := Meaning(a.value)][b.key := Meaning(b.value)]
        == acc[b.key := Meaning(b.value)][a.key := Meaning(a.value)];
  }

  lemma {:induction false} InsertKeepsMeaning(le: (Member, Member) -> bool, m: Member, ms: seq<Member>,
                                              acc: map<string, Value>)
    requires !HasKey(ms, m.key)
    ensures MembersMeaning(Insert(le, m, ms), acc) == MembersMeaning([m] + ms, acc)
  {
    if ms != [] && !le(m, ms[0]) {
      var tail := ms[1..];
      var acc' := acc[ms[0].key := Meaning(ms[0].value)];
      forall i | 0 <= i < |tail| ensures tail[i].key != m.key { assert tail[i] == ms[i + 1]; }
      InsertKeepsMeaning(le, m, tail, acc');
      assert ms[0].key != m.key;
      MembersMeaningSwap(ms[0], m, tail, acc);
      assert [ms[0], m] + tail == [ms[0]] + ([m] + tail);
      assert [m, ms[0]] + tail == [m] + ms;
      assert ([ms[0]] + ([m] + tail))[1..] == [m] + tail;
      assert Insert(le, m, ms)[1..] == Insert(le, m, tail);
    }
  }

  lemma SortKeepsKeys(le: (Member, Member) -> bool, ms: seq<Member>, key: string)
    ensures HasKey(Sort(le, ms), key) <==> HasKey(ms, key)
  {
    forall i | 0 <= i < |ms| ensures ms[i] in Sort(le, ms) { SortMembers(le, ms, ms[i]); }
    var sorted := Sort(le, ms);
    forall i | 0 <= i < |sorted| ensures sorted[i] in ms { SortMembers(le, ms, sorted[i]); }
  }

  lemma {:induction false} SortKeepsMeaning(le: (Member, Member) -> bool, ms: seq<Member>, acc: map<string, Value>)
    requires DistinctMembers(ms)
    ensures MembersMeaning(Sort(le, ms), acc) == MembersMeaning(ms, acc)
  {
    if ms != [] {
      SortKeepsKeys(le, ms[1..], ms[0].key);
      InsertKeepsMeaning(le, ms[0], Sort(le, ms[1..]), acc);
      var acc' := acc[ms[0].key := Meaning(ms[0].value)];
      assert ([ms[0]] + Sort(le, ms[1..]))[1..] == Sort(le, ms[1..]);
      SortKeepsMeaning(le, ms[1..], acc');
    }
  }

  lemma HasKeyCons(m: Member, ms: seq<Member>, key: string)
    ensures HasKey([m] + ms, key) <==> m.key == key || HasKey(ms, key)
  {
    if m.key == key {
      assert ([m] + ms)[0].key == key;
    }
    if HasKey(ms, key) {
      var i :| 0 <= i < |ms| && ms[i].key == key;
      assert ([m] + ms)[i + 1].key == key;
    }
  }

  lemma {:induction false} SortValuesKeys(le: (string, string) -> bool, members: seq<Member>, key: string)
    ensures HasKey(SortValues(le, members), key) <==> HasKey(members, key)
  {
    if members != [] {
      SortValuesKeys(le, members[1..], key);
      assert members == [members[0]] + members[1..];
      var sorted := SortValues(le, members);
      assert sorted == [sorted[0]] + SortValues(le, members[1..]);
      HasKeyCons(members[0], members[1..], key);
      HasKeyCons(sorted[0], SortValues(le, members[1..]), key);
    }
  }

  lemma {:induction false} InsertDistinct(le: (Member, Member) -> bool, m: Member, ms: seq<Member>)
    requires DistinctMembers(ms) && DistinctKeys(m.value) && !HasKey(ms, m.key)
    ensures DistinctMembers(Insert(le, m, ms))
    ensures forall key :: HasKey(Insert(le, m, ms), key) <==> m.key == key || HasKey(ms, key)
  {
    if ms == [] || le(m, ms[0]) {
      forall key ensures HasKey([m] + ms, key) <==> m.key == key || HasKey(ms, key) { HasKeyCons(m, ms, key); }
      assert ([m] + ms)[1..] == ms;
    } else {
      var tail := ms[1..];
      assert ms == [ms[0]] + tail;
      HasKeyCons(ms[0], tail, m.key);
      InsertDistinct(le, m, tail);
      var r := Insert(le, m, tail);
      assert Insert(le, m, ms) == [ms[0]] + r && ([ms[0]] + r)[1..] == r;
      HasKeyCons(ms[0], tail, ms[0].key);
      forall key ensures HasKey([ms[0]] + r, key) <==> m.key == key || HasKey(ms, key) {
        HasKeyCons(ms[0], r, key);
        HasKeyCons(ms[0], tail, key);
      }
    }
  }

  lemma {:induction false} SortDistinct(le: (Member, Member) -> bool, ms: seq<Member>)
    requires DistinctMembers(ms)
    ensures DistinctMembers(Sort(le, ms))
  {
    if ms != [] {
      SortDistinct(le, ms[1..]);
      SortKeepsKeys(le, ms[1..], ms[0].key);
      InsertDistinct(le, ms[0], Sort(le, ms[1..]));
    }
  }

  lemma {:induction false} SortKeysDistinct(le: (string, string) -> bool, j: Json)
    requires DistinctKeys(j)
    ensures DistinctKeys(SortKeys(le, j))
    decreases j, 0
  {
    match j
    case Arr(items) =>
      SortItemsDistinct(le, items);
    case Obj(members) =>
      SortValuesDistinct(le, members);
      SortDistinct(ByKey(le), SortValues(le, members));
    case _ =>
  }

  lemma {:induction false} SortItemsDistinct(le: (string, string) -> bool, items: seq<Json>)
    requires forall i :: 0 <= i < |items| ==> DistinctKeys(items[i])
    ensures forall i :: 0 <= i < |items| ==> DistinctKeys(SortItems(le, items)[i])
    decreases items, 1
  {
    if items != [] {
      SortKeysDistinct(le, items[0]);
      SortItemsDistinct(le, items[1..]);
    }
  }

  lemma {:induction false} SortValuesDistinct(le: (string, string) -> bool, members: seq<Member>)
    requires DistinctMembers(members)
    ensures DistinctMembers(SortValues(le, members))
    decreases members, 1
  {
    if members != [] {
      SortKeysDistinct(le, members[0].value);
      SortValuesDistinct(le, members[1..]);
      SortValuesKeys(le, members[1..], members[0].key);
    }
  }

  /** Sorting keys at every depth leaves the meaning alone. */
  lemma {:induction false} SortKeysKeepsMeaning(le: (string, string) -> bool, j: Json)
    requires DistinctKeys(j)
    ensures Meaning(SortKeys(le, j)) == Meaning(j)
    decreases j, 0
  {
    match j
    case Arr(items) =>
      SortItemsKeepsMeaning(le, items);
    case Obj(members) =>
      SortValuesKeepsMeaning(le, members, map[]);
      SortValuesDistinct(le, members);
      SortKeepsMeaning(ByKey(le), SortValues(le, members), map[]);
    case _ =>
  }

  lemma {:induction false} SortItemsKeepsMeaning(le: (string, string) -> bool, items: seq<Json>)
    requires forall i :: 0 <= i < |items| ==> DistinctKeys(items[i])
    ensures ItemsMeaning(SortItems(le, items)) == ItemsMeaning(items)
    decreases items, 1
  {
    if items != [] {
      SortKeysKeepsMeaning(le, items[0]);
      SortItemsKeepsMeaning(le, items[1..]);
    }
  }

  lemma {:induction false} SortValuesKeepsMeaning(le: (string, string) -> bool, members: seq<Member>,
                                                  acc: map<string, Value>)
    requires DistinctMembers(members)
    ensures MembersMeaning(SortValues(le, members), acc) == MembersMeaning(members, acc)
    decreases members, 1
  {
    if members != [] {
      SortKeysKeepsMeaning(le, members[0].value);
      SortValuesKeepsMeaning(le, members[1..], acc[members[0].key := Meaning(members[0].value)]);
    }
  }
}
