/** UTF-8 (section 3 of RFC 3629) over Unicode scalar values, and its order. */
module Utf8Text {
  import opened Common
  import opened Ordering

  /** The code points of a string; Dafny's `char` ranges over exactly the scalar values. */
  function Codes(s: string): (r: seq<int>)
    ensures |r| == |s|
  {
    seq(|s|, i requires 0 <= i < |s| => s[i] as int)
  }

  /** The encoding of one scalar value: a lead byte, then six bits a byte. */
  function Utf8Char(c: char): (r: bytes)
    ensures 1 <= |r| <= 4
  {
    var n := c as int;
    if n < 0x80 then [n]
    else if n < 0x800 then [0xC0 + n / 64, 0x80 + n % 64]
    else if n < 0x1_0000 then [0xE0 + n / 64 / 64, 0x80 + n / 64 % 64, 0x80 + n % 64]
    else [0xF0 + n / 64 / 64 / 64, 0x80 + n / 64 / 64 % 64, 0x80 + n / 64 % 64, 0x80 + n % 64]
  }

  /** `s.encode("utf-8")`. */
  function Utf8(s: string): bytes {
    if s == "" then [] else Utf8Char(s[0]) + Utf8(s[1..])
  }

  /**
   * The layout of section 3 of RFC 3629: the length by the ranges of its table, lead bytes 0, 110, 1110 and
   * 11110 in binary, every further byte 10, and the free bits, most significant first, are the code point.
   */
  lemma Utf8CharExactly(c: char)
    ensures
      var n, b := c as int, Utf8Char(c);
      && |b| == (if n <= 0x7F then 1 else if n <= 0x7FF then 2 else if n <= 0xFFFF then 3 else 4)
      && (forall i :: 1 <= i < |b| ==> 0x80 <= b[i] < 0xC0)
      && (|b| == 1 ==> b[0] == n)
      && (|b| == 2 ==> 0xC0 <= b[0] < 0xE0 && (b[0] as int - 0xC0) * 64 + (b[1] as int - 0x80) == n)
      && (|b| == 3 ==>
            0xE0 <= b[0] < 0xF0
            && ((b[0] as int - 0xE0) * 64 + (b[1] as int - 0x80)) * 64 + (b[2] as int - 0x80) == n)
      && (|b| == 4 ==>
            0xF0 <= b[0] < 0xF8
            && (((b[0] as int - 0xF0) * 64 + (b[1] as int - 0x80)) * 64 + (b[2] as int - 0x80)) * 64
               + (b[3] as int - 0x80) == n)
  {
  }

  predicate CodePointAtMost(s: string, t: string) {
    LexAtMost(Codes(s), Codes(t))
  }

  predicate Utf8AtMost(s: string, t: string) {
    LexAtMost(Utf8(s), Utf8(t))
  }

  /** The first differing byte decides. */
  lemma LexFirstDifference(a: seq<int>, b: seq<int>, k: nat)
    requires k < |a| && k < |b| && a[..k] == b[..k] && a[k] < b[k]
    ensures LexLess(a, b)
  {
    assert a == a[..k] + a[k..] && b == b[..k] + b[k..];
    LexCommonPrefix(a[..k], a[k..], b[k..]);
  }

  /** Order survives dropping the last base-64 digit, and a tie is decided by that digit. */
  lemma LastDigit(m: nat, n: nat)
    requires m < n
    ensures m / 64 <= n / 64
    ensures m / 64 == n / 64 ==> m % 64 < n % 64
  {
    assert m == 64 * (m / 64) + m % 64 && n == 64 * (n / 64) + n % 64;
  }

  /** The encodings first differ at place `k`, and the smaller value is smaller there. */
  predicate DiffersFirstAt(x: bytes, y: bytes, k: nat) {
    k < |x| && k < |y| && x[..k] == y[..k] && x[k] < y[k]
  }

  lemma DifferenceOfTwo(c: char, d: char)
    requires 0x80 <= c as int < d as int < 0x800
    ensures DiffersFirstAt(Utf8Char(c), Utf8Char(d), if c as int / 64 == d as int / 64 then 1 else 0)
  {
    LastDigit(c as int, d as int);
  }

  lemma DifferenceOfThree(c: char, d: char) returns (k: nat)
    requires 0x800 <= c as int < d as int < 0x1_0000
    ensures DiffersFirstAt(Utf8Char(c), Utf8Char(d), k)
  {
    var m, n := c as int, d as int;
    LastDigit(m, n);
    if m / 64 == n / 64 {
      k := 2;
    } else {
      LastDigit(m / 64, n / 64);
      k := if m / 64 / 64 == n / 64 / 64 then 1 else 0;
    }
  }

  lemma DifferenceOfFour(c: char, d: char) returns (k: nat)
    requires 0x1_0000 <= c as int < d as int
    ensures DiffersFirstAt(Utf8Char(c), Utf8Char(d), k)
  {
    var m, n := c as int, d as int;
    LastDigit(m, n);
    if m / 64 == n / 64 {
      k := 3;
    } else {
      LastDigit(m / 64, n / 64);
      if m / 64 / 64 == n / 64 / 64 {
        k := 2;
      } else {
        LastDigit(m / 64 / 64, n / 64 / 64);
        k := if m / 64 / 64 / 64 == n / 64 / 64 / 64 then 1 else 0;
      }
    }
  }

  /** Where the encodings of two scalar values first differ: at the lead byte unless they are of one length. */
  lemma FirstDifference(c: char, d: char) returns (k: nat)
    requires c < d
    ensures DiffersFirstAt(Utf8Char(c), Utf8Char(d), k)
  {
    var m, n := c as int, d as int;
    if 0x80 <= m && n < 0x800 {
      DifferenceOfTwo(c, d);
      k := if m / 64 == n / 64 then 1 else 0;
    } else if 0x800 <= m && n < 0x1_0000 {
      k := DifferenceOfThree(c, d);
    } else if 0x1_0000 <= m {
      k := DifferenceOfFour(c, d);
    } else {
      k := 0;
      Utf8CharExactly(c);
      Utf8CharExactly(d);
    }
  }

  /** A smaller scalar value has the smaller encoding, whatever follows either. */
  lemma Utf8CharLess(c: char, d: char, u: bytes, v: bytes)
    requires c < d
    ensures LexLess(Utf8Char(c) + u, Utf8Char(d) + v)
  {
    var k := FirstDifference(c, d);
    var x, y := Utf8Char(c) + u, Utf8Char(d) + v;
    assert x[..k] == Utf8Char(c)[..k] && y[..k] == Utf8Char(d)[..k];
    LexFirstDifference(x, y, k);
  }

  /** UTF-8 byte order is code-point order. */
  lemma {:induction false} Utf8OrderIsCodePointOrder(s: string, t: string)
    ensures LexLess(Utf8(s), Utf8(t)) == LexLess(Codes(s), Codes(t))
  {
    if s != "" && t != "" {
      assert Codes(s)[1..] == Codes(s[1..]) && Codes(t)[1..] == Codes(t[1..]);
      if s[0] == t[0] {
        LexCommonPrefix(Utf8Char(s[0]), Utf8(s[1..]), Utf8(t[1..]));
        Utf8OrderIsCodePointOrder(s[1..], t[1..]);
      } else if s[0] < t[0] {
        Utf8CharLess(s[0], t[0], Utf8(s[1..]), Utf8(t[1..]));
      } else {
        Utf8CharLess(t[0], s[0], Utf8(t[1..]), Utf8(s[1..]));
        LexTrichotomy(Utf8(t), Utf8(s));
        LexTrichotomy(Codes(t), Codes(s));
      }
    }
  }

  lemma CodesInjective(s: string, t: string)
    requires Codes(s) == Codes(t)
    ensures s == t
  {
    forall i | 0 <= i < |s| ensures s[i] == t[i] {
      assert Codes(s)[i] == Codes(t)[i];
    }
  }

  /** Code-point order is a total order: reflexive, transitive, and ties only on equal strings. */
  lemma CodePointOrderTotal()
    ensures TotalPreorder(CodePointAtMost)
    ensures forall s, t :: CodePointAtMost(s, t) && CodePointAtMost(t, s) ==> s == t
  {
    forall s, t ensures CodePointAtMost(s, t) || CodePointAtMost(t, s) {
      LexTrichotomy(Codes(s), Codes(t));
    }
    forall s, t, u | CodePointAtMost(s, t) && CodePointAtMost(t, u) ensures CodePointAtMost(s, u) {
      LexTransitive(Codes(s), Codes(t), Codes(u));
    }
    forall s, t | CodePointAtMost(s, t) && CodePointAtMost(t, s) ensures s == t {
      LexTrichotomy(Codes(s), Codes(t));
      CodesInjective(s, t);
    }
  }

  /** Sorting by encoded bytes and sorting by code point give the same list. */
  lemma SortByBytesIsSortByCodePoint(xs: seq<string>)
    ensures Sort(Utf8AtMost, xs) == Sort(CodePointAtMost, xs)
  {
    forall s, t ensures Utf8AtMost(s, t) == CodePointAtMost(s, t) {
      Utf8OrderIsCodePointOrder(t, s);
    }
    SortAgrees(Utf8AtMost, CodePointAtMost, xs);
  }

  /** The whole byte string determines the text. */
  lemma Utf8Injective(s: string, t: string)
    requires Utf8(s) == Utf8(t)
    ensures s == t
  {
    LexTrichotomy(Utf8(s), Utf8(t));
    Utf8OrderIsCodePointOrder(s, t);
    Utf8OrderIsCodePointOrder(t, s);
    LexTrichotomy(Codes(s), Codes(t));
    CodesInjective(s, t);
  }

  predicate IsContinuation(b: byte) {
    0x80 <= b < 0xC0
  }

  predicate IsScalar(n: int) {
    0 <= n < 0xD800 || 0xE000 <= n < 0x11_0000
  }

  /** The six payload bits of a continuation byte. */
  function Payload(b: byte): int {
    b as int - 0x80
  }

  /** Reads one scalar value: shortest form only, no surrogates, nothing past U+10FFFF. */
  function DecodeChar(b: bytes): (r: Option<(char, bytes)>)
    ensures r.Some? ==> |r.value.1| < |b|
  {
    if b == [] then None
    else
      var lead: int := b[0];
      if lead < 0x80 then Some((lead as char, b[1..]))
      else if 0xC2 <= lead < 0xE0 then
        if |b| < 2 || !IsContinuation(b[1]) then None
        else Some((((lead - 0xC0) * 64 + Payload(b[1])) as char, b[2..]))
      else if 0xE0 <= lead < 0xF0 then
        if |b| < 3 || !IsContinuation(b[1]) || !IsContinuation(b[2]) then None
        else
          var n := ((lead - 0xE0) * 64 + Payload(b[1])) * 64 + Payload(b[2]);
          if n < 0x800 || !IsScalar(n) then None else Some((n as char, b[3..]))
      else if 0xF0 <= lead < 0xF5 then
        if |b| < 4 || !IsContinuation(b[1]) || !IsContinuation(b[2]) || !IsContinuation(b[3]) then None
        else
          var n := (((lead - 0xF0) * 64 + Payload(b[1])) * 64 + Payload(b[2])) * 64 + Payload(b[3]);
          if n < 0x1_0000 || !IsScalar(n) then None else Some((n as char, b[4..]))
      else None
  }

  /** `b.decode("utf-8")`, `None` where Python raises. */
  function Utf8Decode(b: bytes): Option<string>
    decreases |b|
  {
    if b == [] then Some("")
    else
      match DecodeChar(b)
      case None => None
      case Some((c, rest)) =>
        match Utf8Decode(rest)
        case None => None
        case Some(s) => Some([c] + s)
  }

  lemma DecodeCharInverts(c: char, rest: bytes)
    ensures DecodeChar(Utf8Char(c) + rest) == Some((c, rest))
  {
    var e := Utf8Char(c);
    var b := e + rest;
    var n := c as int;
    assert b[|e|..] == rest;
    assert forall i :: 0 <= i < |e| ==> b[i] == e[i];
    assert n == 64 * (n / 64) + n % 64;
    if n < 0x800 {
    } else {
      var q := n / 64;
      assert q == 64 * (q / 64) + q % 64;
      if n >= 0x1_0000 {
        var p := q / 64;
        assert p == 64 * (p / 64) + p % 64;
      }
    }
  }

  /** Decoding inverts encoding. */
  lemma {:induction false} Utf8RoundTrip(s: string)
    ensures Utf8Decode(Utf8(s)) == Some(s)
  {
    if s != "" {
      DecodeCharInverts(s[0], Utf8(s[1..]));
      Utf8RoundTrip(s[1..]);
      assert s == [s[0]] + s[1..];
    }
  }

  lemma SixBits(high: int, low: int)
    requires 0 <= low < 64
    ensures (high * 64 + low) / 64 == high && (high * 64 + low) % 64 == low
  {
  }

  lemma TwoBytes(x: int, y: int, c: char)
    requires 2 <= x < 32 && 0 <= y < 64 && c as int == x * 64 + y
    ensures Utf8Char(c) == [0xC0 + x, 0x80 + y]
  {
    SixBits(x, y);
  }

  lemma ThreeBytes(x: int, y: int, z: int, c: char)
    requires 0 <= x < 16 && 0 <= y < 64 && 0 <= z < 64 && c as int == (x * 64 + y) * 64 + z && c as int >= 0x800
    ensures Utf8Char(c) == [0xE0 + x, 0x80 + y, 0x80 + z]
  {
    SixBits(x * 64 + y, z);
    SixBits(x, y);
  }

  lemma FourBytes(w: int, x: int, y: int, z: int, c: char)
    requires 0 <= w < 5 && 0 <= x < 64 && 0 <= y < 64 && 0 <= z < 64
    requires c as int == ((w * 64 + x) * 64 + y) * 64 + z && c as int >= 0x1_0000
    ensures Utf8Char(c) == [0xF0 + w, 0x80 + x, 0x80 + y, 0x80 + z]
  {
    SixBits((w * 64 + x) * 64 + y, z);
    SixBits(w * 64 + x, y);
    SixBits(w, x);
  }

  /** Whatever is read as a character is the encoding of that character. */
  lemma DecodedCharIsEncoded(b: bytes, c: char, rest: bytes)
    requires DecodeChar(b) == Some((c, rest))
    ensures b == Utf8Char(c) + rest
  {
    var lead: int := b[0];
    if lead < 0x80 {
    } else if lead < 0xE0 {
      TwoBytes(lead - 0xC0, Payload(b[1]), c);
    } else if lead < 0xF0 {
      ThreeBytes(lead - 0xE0, Payload(b[1]), Payload(b[2]), c);
    } else {
      FourBytes(lead - 0xF0, Payload(b[1]), Payload(b[2]), Payload(b[3]), c);
    }
  }

  /** Bytes decode to a string exactly when they are its encoding: nothing overlong, cut short or out of range. */
  lemma {:induction false} DecodesOnlyEncodings(b: bytes, s: string)
    ensures Utf8Decode(b) == Some(s) <==> b == Utf8(s)
    decreases |b|
  {
    if b == Utf8(s) {
      Utf8RoundTrip(s);
    }
    if Utf8Decode(b) == Some(s) && b != [] {
      var (c, rest) := DecodeChar(b).value;
      DecodedCharIsEncoded(b, c, rest);
      DecodesOnlyEncodings(rest, s[1..]);
      assert s == [c] + s[1..];
    }
  }
}
