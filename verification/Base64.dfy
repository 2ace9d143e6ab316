/**
 * Base64 (section 4 of RFC 4648): the encoder, Python's validating decoder, and the
 * padding-tolerant decoder of the offline files.
 */
module Base64 {
  import opened Common

  /** The digit for six bits. */
  function SextetChar(n: int): (r: char)
    requires 0 <= n < 64
  {
    if n < 26 then ('A' as int + n) as char
    else if n < 52 then ('a' as int + (n - 26)) as char
    else if n < 62 then ('0' as int + (n - 52)) as char
    else if n == 62 then '+' else '/'
  }

  /** The six bits of a digit. */
  function SextetValue(c: char): (r: Option<int>)
    ensures r.Some? ==> 0 <= r.value < 64
  {
    if 'A' <= c <= 'Z' then Some(c as int - 'A' as int)
    else if 'a' <= c <= 'z' then Some(c as int - 'a' as int + 26)
    else if '0' <= c <= '9' then Some(c as int - '0' as int + 52)
    else if c == '+' then Some(62)
    else if c == '/' then Some(63)
    else None
  }

  predicate IsBase64Char(c: char) {
    SextetValue(c).Some?
  }

  /** Four characters for one to three bytes, padded with `=`. */
  function EncodeQuad(b: bytes): (r: string)
    requires 1 <= |b| <= 3
    ensures |r| == 4
  {
    if |b| == 1 then
      [SextetChar(b[0] / 4), SextetChar(b[0] % 4 * 16), '=', '=']
    else if |b| == 2 then
      [SextetChar(b[0] / 4), SextetChar(b[0] % 4 * 16 + b[1] / 16), SextetChar(b[1] % 16 * 4), '=']
    else
      [SextetChar(b[0] / 4), SextetChar(b[0] % 4 * 16 + b[1] / 16),
       SextetChar(b[1] % 16 * 4 + b[2] / 64), SextetChar(b[2] % 64)]
  }

  function Encode(b: bytes): string {
    if b == [] then ""
    else if |b| <= 3 then EncodeQuad(b)
    else EncodeQuad(b[..3]) + Encode(b[3..])
  }

  /** One group of four characters, of which the last may be short. Unused low bits are ignored. */
  function DecodeQuad(s: string, last: bool): (r: Option<bytes>)
    requires |s| == 4
  {
    match (SextetValue(s[0]), SextetValue(s[1]))
    case (Some(p), Some(q)) =>
      if last && s[2] == '=' && s[3] == '=' then Some([p * 4 + q / 16])
      else (
        match SextetValue(s[2])
        case None => None
        case Some(t) =>
          if last && s[3] == '=' then Some([p * 4 + q / 16, q % 16 * 16 + t / 4])
          else (
            match SextetValue(s[3])
            case None => None
            case Some(u) => Some([p * 4 + q / 16, q % 16 * 16 + t / 4, t % 4 * 64 + u])
          )
      )
    case _ => None
  }

  /** `base64.b64decode(s, validate=True)`. */
  function Decode(s: string): Option<bytes> {
    if s == "" then Some([])
    else if |s| < 4 then None
    else
      match DecodeQuad(s[..4], |s| == 4)
      case None => None
      case Some(head) =>
        match Decode(s[4..])
        case None => None
        case Some(tail) => Some(head + tail)
  }

  /** The `=` needed to reach a whole number of groups. */
  function Padding(length: nat): string {
    if length % 4 == 0 then ""
    else if length % 4 == 1 then "==="
    else if length % 4 == 2 then "=="
    else "="
  }

  /** `b64decode_strict`: no character outside the alphabet, but padding may be absent. */
  function DecodeStrict(s: string): Option<bytes> {
    Decode(s + Padding(|s|))
  }

  /** The digits: 26 capitals, 26 small letters, 10 figures, `+` and `/`, and no others. */
  lemma AlphabetExactly(n: int, c: char)
    requires 0 <= n < 64
    ensures SextetChar(n) as int == if n < 26 then 65 + n else if n < 52 then 97 + n - 26
                                    else if n < 62 then 48 + n - 52 else if n == 62 then 43 else 47
    ensures IsBase64Char(c) <==> 'A' <= c <= 'Z' || 'a' <= c <= 'z' || '0' <= c <= '9' || c == '+' || c == '/'
  {
  }

  /** The bits of a digit; padding has none. */
  function DigitBits(c: char): int {
    if SextetValue(c).Some? then SextetValue(c).value else 0
  }

  /** Four digits as one number, most significant first. */
  function QuadBits(q: string): int
    requires |q| == 4
  {
    ((DigitBits(q[0]) * 64 + DigitBits(q[1])) * 64 + DigitBits(q[2])) * 64 + DigitBits(q[3])
  }

  /** A group is the bits of its bytes, most significant first, with `=` for each missing byte. */
  lemma QuadIsBigEndian(x: byte, y: byte, z: byte)
    ensures QuadBits(EncodeQuad([x])) == x as int * 65536
    ensures QuadBits(EncodeQuad([x, y])) == x as int * 65536 + y as int * 256
    ensures QuadBits(EncodeQuad([x, y, z])) == x as int * 65536 + y as int * 256 + z as int
    ensures EncodeQuad([x])[2..] == "==" && EncodeQuad([x, y])[3..] == "="
  {
    OneIsBigEndian(x);
    TwoIsBigEndian(x, y);
    ThreeIsBigEndian(x, y, z);
  }

  lemma OneIsBigEndian(x: byte)
    ensures QuadBits(EncodeQuad([x])) == x as int * 65536 && EncodeQuad([x])[2..] == "=="
  {
    SextetInverts(x / 4);
    SextetInverts(x % 4 * 16);
  }

  lemma TwoIsBigEndian(x: byte, y: byte)
    ensures QuadBits(EncodeQuad([x, y])) == x as int * 65536 + y as int * 256 && EncodeQuad([x, y])[3..] == "="
  {
    SextetInverts(x / 4);
    SextetInverts(x % 4 * 16 + y / 16);
    SextetInverts(y % 16 * 4);
  }

  lemma ThreeIsBigEndian(x: byte, y: byte, z: byte)
    ensures QuadBits(EncodeQuad([x, y, z])) == x as int * 65536 + y as int * 256 + z as int
  {
    SextetInverts(x / 4);
    SextetInverts(x % 4 * 16 + y / 16);
    SextetInverts(y % 16 * 4 + z / 64);
    SextetInverts(z % 64);
  }

  lemma SextetInverts(n: int)
    requires 0 <= n < 64
    ensures SextetValue(SextetChar(n)) == Some(n)
    ensures SextetChar(n) != '='
  {
  }

  /** Bits shared between neighbouring digits separate again. */
  lemma SharedBits(x: byte, y: byte)
    ensures 0 <= x % 4 * 16 + y / 16 < 64
    ensures (x % 4 * 16 + y / 16) / 16 == x % 4 && (x % 4 * 16 + y / 16) % 16 == y / 16
    ensures 0 <= x % 16 * 4 + y / 64 < 64
    ensures (x % 16 * 4 + y / 64) / 4 == x % 16 && (x % 16 * 4 + y / 64) % 4 == y / 64
  {
  }

  lemma QuadOne(b: bytes)
    requires |b| == 1
    ensures DecodeQuad(EncodeQuad(b), true) == Some(b)
  {
    var x := b[0];
    SharedBits(x, 0);
    SextetInverts(x / 4);
    SextetInverts(x % 4 * 16);
    assert x / 4 * 4 + x % 4 == x;
    assert b == [x];
  }

  lemma QuadTwo(b: bytes)
    requires |b| == 2
    ensures DecodeQuad(EncodeQuad(b), true) == Some(b)
  {
    var x, y := b[0], b[1];
    SharedBits(x, y);
    SharedBits(y, 0);
    SextetInverts(x / 4);
    SextetInverts(x % 4 * 16 + y / 16);
    SextetInverts(y % 16 * 4);
    assert x / 4 * 4 + x % 4 == x && y / 16 * 16 + y % 16 == y;
    assert b == [x, y];
  }

  /** Three bytes reassemble from the four digits they share. */
  lemma Reassembled(x: byte, y: byte, z: byte)
    ensures
      var p, q, t, u := x / 4, x % 4 * 16 + y / 16, y % 16 * 4 + z / 64, z % 64;
      p * 4 + q / 16 == x && q % 16 * 16 + t / 4 == y && t % 4 * 64 + u == z
  {
    SharedBits(x, y);
    SharedBits(y, z);
    assert x / 4 * 4 + x % 4 == x && y / 16 * 16 + y % 16 == y && z / 64 * 64 + z % 64 == z;
  }

  lemma DigitsInRange(x: byte, y: byte, z: byte)
    ensures 0 <= x / 4 < 64 && 0 <= x % 4 * 16 + y / 16 < 64 && 0 <= y % 16 * 4 + z / 64 < 64 && 0 <= z % 64 < 64
  {
  }

  lemma DecodeFour(s: string, last: bool, p: int, q: int, t: int, u: int)
    requires |s| == 4 && s[2] != '=' && s[3] != '='
    requires SextetValue(s[0]) == Some(p) && SextetValue(s[1]) == Some(q)
    requires SextetValue(s[2]) == Some(t) && SextetValue(s[3]) == Some(u)
    ensures DecodeQuad(s, last) == Some([p * 4 + q / 16, q % 16 * 16 + t / 4, t % 4 * 64 + u])
  {
  }

  lemma QuadThree(b: bytes, last: bool)
    requires |b| == 3
    ensures DecodeQuad(EncodeQuad(b), last) == Some(b)
  {
    var x, y, z := b[0], b[1], b[2];
    DigitsInRange(x, y, z);
    var p, q, t, u := x / 4, x % 4 * 16 + y / 16, y % 16 * 4 + z / 64, z % 64;
    SextetInverts(p);
    SextetInverts(q);
    SextetInverts(t);
    SextetInverts(u);
    DecodeFour(EncodeQuad(b), last, p, q, t, u);
    Reassembled(x, y, z);
    assert b == [x, y, z];
  }

  /** The first group and the rest are decoded separately. */
  lemma DecodeStep(quad: string, rest: string, head: bytes, tail: bytes)
    requires |quad| == 4 && DecodeQuad(quad, rest == "") == Some(head) && Decode(rest) == Some(tail)
    ensures Decode(quad + rest) == Some(head + tail)
  {
    assert (quad + rest)[..4] == quad && (quad + rest)[4..] == rest;
  }

  lemma EncodeNonempty(b: bytes)
    requires b != []
    ensures Encode(b) != ""
  {
  }

  /** Decoding inverts encoding. */
  lemma {:induction false} RoundTrip(b: bytes)
    ensures Decode(Encode(b)) == Some(b)
  {
    if b == [] {
    } else if |b| <= 3 {
      if |b| == 1 { QuadOne(b); } else if |b| == 2 { QuadTwo(b); } else { QuadThree(b, true); }
      DecodeStep(Encode(b), "", b, []);
      assert Encode(b) + "" == Encode(b) && b + [] == b;
    } else {
      QuadThree(b[..3], false);
      RoundTrip(b[3..]);
      EncodeNonempty(b[3..]);
      DecodeStep(EncodeQuad(b[..3]), Encode(b[3..]), b[..3], b[3..]);
      assert b == b[..3] + b[3..];
    }
  }

  /** How many `=` an encoding ends in. */
  function PadCount(b: bytes): nat {
    if |b| % 3 == 0 then 0 else 3 - |b| % 3
  }

  /** Whole groups, ending in exactly the padding the length calls for. */
  ghost predicate PaddedWith(e: string, pads: nat) {
    |e| % 4 == 0 && pads <= |e| && forall i :: |e| - pads <= i < |e| ==> e[i] == '='
  }

  lemma PaddedConcat(head: string, e: string, pads: nat)
    requires |head| == 4 && PaddedWith(e, pads)
    ensures PaddedWith(head + e, pads)
  {
  }

  lemma {:induction false} EncodingShape(b: bytes)
    ensures PaddedWith(Encode(b), PadCount(b))
  {
    if |b| > 3 {
      EncodingShape(b[3..]);
      assert |b[3..]| % 3 == |b| % 3;
      PaddedConcat(EncodeQuad(b[..3]), Encode(b[3..]), PadCount(b));
    }
  }

  lemma PaddingRestores(e: string, pads: nat, dropped: nat)
    requires dropped <= pads <= 2 && PaddedWith(e, pads)
    ensures e[..|e| - dropped] + Padding(|e| - dropped) == e
  {
    var p := Padding(|e| - dropped);
    assert |p| == dropped;
    forall i | |e| - dropped <= i < |e| ensures p[i - (|e| - dropped)] == e[i] {
    }
  }

  /** Any number of the trailing `=` may be missing. */
  lemma StrictRoundTrip(b: bytes, dropped: nat)
    requires dropped <= PadCount(b)
    ensures dropped <= |Encode(b)|
    ensures DecodeStrict(Encode(b)[..|Encode(b)| - dropped]) == Some(b)
  {
    EncodingShape(b);
    PaddingRestores(Encode(b), PadCount(b), dropped);
    RoundTrip(b);
  }

  lemma StrictWhole(b: bytes)
    ensures DecodeStrict(Encode(b)) == Some(b)
  {
    StrictRoundTrip(b, 0);
    assert Encode(b)[..|Encode(b)|] == Encode(b);
  }

  /** Every group that decodes: its bits, less those its padding stands for, are its bytes. */
  lemma DecodeQuadExactly(q: string, last: bool)
    requires |q| == 4
    ensures DecodeQuad(q, last).Some? <==>
              && IsBase64Char(q[0]) && IsBase64Char(q[1])
              && ((IsBase64Char(q[2]) && IsBase64Char(q[3]))
                  || (last && q[3] == '=' && (IsBase64Char(q[2]) || q[2] == '=')))
    ensures DecodeQuad(q, last).Some? ==>
              var b := DecodeQuad(q, last).value;
              if q[2] == '=' then |b| == 1 && QuadBits(q) / 65536 == b[0] as int
              else if q[3] == '=' then |b| == 2 && QuadBits(q) / 256 == b[0] as int * 256 + b[1] as int
              else |b| == 3 && QuadBits(q) == (b[0] as int * 256 + b[1] as int) * 256 + b[2] as int
  {
    assert !IsBase64Char('=');
  }

  /** Digits, in whole groups, of which the last may end in one or two `=`. */
  ghost predicate WellPadded(s: string) {
    |s| % 4 == 0 && exists p :: 0 <= p <= 2 && p <= |s| && PaddedBy(s, p)
  }

  ghost predicate PaddedBy(s: string, p: nat)
    requires p <= |s|
  {
    (forall i :: 0 <= i < |s| - p ==> IsBase64Char(s[i])) && forall i :: |s| - p <= i < |s| ==> s[i] == '='
  }

  lemma LastGroup(s: string)
    requires |s| == 4
    ensures DecodeQuad(s, true).Some? <==> WellPadded(s)
  {
    DecodeQuadExactly(s, true);
    assert !IsBase64Char('=');
    if DecodeQuad(s, true).Some? {
      assert PaddedBy(s, if s[2] == '=' then 2 else if s[3] == '=' then 1 else 0);
    }
  }

  lemma FirstGroup(s: string)
    requires |s| > 4
    ensures WellPadded(s) <==> DecodeQuad(s[..4], false).Some? && WellPadded(s[4..])
  {
    DecodeQuadExactly(s[..4], false);
    var rest := s[4..];
    forall p | 0 <= p <= 2 && p <= |rest| && PaddedBy(rest, p) && |rest| % 4 == 0 && DecodeQuad(s[..4], false).Some?
      ensures PaddedBy(s, p)
    {
      forall i | 0 <= i < |s| - p ensures IsBase64Char(s[i]) {
        if i >= 4 { assert s[i] == rest[i - 4]; } else { assert s[i] == s[..4][i]; }
      }
      forall i | |s| - p <= i < |s| ensures s[i] == '=' {
        assert s[i] == rest[i - 4];
      }
    }
    forall p | 0 <= p <= 2 && p <= |s| && PaddedBy(s, p) && |s| % 4 == 0
      ensures PaddedBy(rest, p) && DecodeQuad(s[..4], false).Some?
    {
      assert forall i :: 0 <= i < |rest| ==> rest[i] == s[i + 4];
      assert IsBase64Char(s[0]) && IsBase64Char(s[1]) && IsBase64Char(s[2]) && IsBase64Char(s[3]);
    }
  }

  /** What the validating decoder accepts: exactly well-padded digits. */
  lemma {:induction false} DecodesExactly(s: string)
    ensures Decode(s).Some? <==> WellPadded(s)
  {
    if s == "" {
      assert PaddedBy(s, 0);
    } else if |s| == 4 {
      assert s[..4] == s;
      LastGroup(s);
    } else if |s| > 4 {
      FirstGroup(s);
      DecodesExactly(s[4..]);
    }
  }

  /** Everything the decoders accept is made of digits and padding. */
  lemma {:induction false} DecodedAlphabet(s: string)
    requires Decode(s).Some?
    ensures |s| % 4 == 0
    ensures forall i :: 0 <= i < |s| ==> IsBase64Char(s[i]) || s[i] == '='
  {
    if s != "" {
      DecodedAlphabet(s[4..]);
      var q := s[..4];
      assert forall i :: 0 <= i < 4 ==> q[i] == s[i];
      forall i | 0 <= i < |s| ensures IsBase64Char(s[i]) || s[i] == '=' {
        if i >= 4 { assert s[i] == s[4..][i - 4]; }
      }
    }
  }

  /** The tolerant decoder puts back just the `=` that whole groups miss. */
  lemma PaddingExactly(length: nat, missing: string)
    requires |missing| < 4 && (length + |missing|) % 4 == 0 && forall i :: 0 <= i < |missing| ==> missing[i] == '='
    ensures Padding(length) == missing
  {
  }

  lemma StrictAlphabet(s: string)
    requires DecodeStrict(s).Some?
    ensures forall i :: 0 <= i < |s| ==> IsBase64Char(s[i]) || s[i] == '='
  {
    var padded := s + Padding(|s|);
    DecodedAlphabet(padded);
    assert forall i :: 0 <= i < |s| ==> padded[i] == s[i];
  }
}
