/**
 * JSON text (RFC 8259): the compact printer with sorted keys that Python's
 * `json.dumps(..., sort_keys=True, separators=(",", ":"), ensure_ascii=False)` is,
 * and the parser that `json.loads` is.
 */
module JsonText {
  import opened Common
  import opened Ordering
  import opened Utf8Text

  /** A value to print. An object lists its members in insertion order, as a Python dict does. */
  datatype Json =
    | Null
    | Bool(b: bool)
    | Int(n: int)
    | Str(s: string)
    | Arr(items: seq<Json>)
    | Obj(members: seq<Member>)

  datatype Member = Member(key: string, value: Json)

  /** A parsed value. Object equality ignores member order at every depth. */
  datatype Value =
    | NullValue
    | BoolValue(b: bool)
    | IntValue(n: int)
    | FloatValue(lexeme: string)
    | StrValue(s: string)
    | ArrValue(items: seq<Value>)
    | ObjValue(members: map<string, Value>)

  // ---------- What a value means ----------

  function Meaning(j: Json): Value {
    match j
    case Null => NullValue
    case Bool(b) => BoolValue(b)
    case Int(n) => IntValue(n)
    case Str(s) => StrValue(s)
    case Arr(items) => ArrValue(ItemsMeaning(items))
    case Obj(members) => ObjValue(MembersMeaning(members, map[]))
  }

  function ItemsMeaning(items: seq<Json>): (r: seq<Value>)
    ensures |r| == |items|
  {
    if items == [] then [] else [Meaning(items[0])] + ItemsMeaning(items[1..])
  }

  /** Members added to `acc` in order, later ones winning. */
  function MembersMeaning(members: seq<Member>, acc: map<string, Value>): map<string, Value> {
    if members == [] then acc
    else MembersMeaning(members[1..], acc[members[0].key := Meaning(members[0].value)])
  }

  ghost predicate HasKey(members: seq<Member>, key: string) {
    exists i :: 0 <= i < |members| && members[i].key == key
  }

  /** No object repeats a key, at any depth: what a Python dict guarantees. */
  ghost predicate DistinctKeys(j: Json) {
    match j
    case Arr(items) => forall i :: 0 <= i < |items| ==> DistinctKeys(items[i])
    case Obj(members) => DistinctMembers(members)
    case _ => true
  }

  ghost predicate DistinctMembers(members: seq<Member>) {
    members != [] ==>
      && DistinctKeys(members[0].value)
      && !HasKey(members[1..], members[0].key)
      && DistinctMembers(members[1..])
  }

  // ---------- Printing ----------

  function HexDigit(n: int): char
    requires 0 <= n < 16
  {
    "0123456789abcdef"[n]
  }

  /** Section 7 of RFC 8259: quotes, backslashes and control characters, and nothing else. */
  function EscapeChar(c: char): string {
    if c == '"' then "\\\""
    else if c == '\\' then "\\\\"
    else if c == '\n' then "\\n"
    else if c == '\r' then "\\r"
    else if c == '\t' then "\\t"
    else if c as int == 0x0C then "\\f"
    else if c as int == 0x08 then "\\b"
    else if c as int < 0x20 then "\\u00" + [HexDigit(c as int / 16), HexDigit(c as int % 16)]
    else [c]
  }

  function Escape(s: string): string {
    if s == "" then "" else EscapeChar(s[0]) + Escape(s[1..])
  }

  function Quote(s: string): string {
    "\"" + Escape(s) + "\""
  }

  function Digit(n: int): char
    requires 0 <= n < 10
  {
    "0123456789"[n]
  }

  function Digits(n: nat): (r: string)
    ensures |r| > 0
  {
    if n < 10 then [Digit(n)] else Digits(n / 10) + [Digit(n % 10)]
  }

  function PrintInt(n: int): string {
    if n < 0 then "-" + Digits(-n) else Digits(n)
  }

  /** Compact text of a value, members in the order given. */
  function Print(j: Json): string {
    match j
    case Null => "null"
    case Bool(b) => if b then "true" else "false"
    case Int(n) => PrintInt(n)
    case Str(s) => Quote(s)
    case Arr(items) => if items == [] then "[]" else "[" + PrintItems(items) + "]"
    case Obj(members) => if members == [] then "{}" else "{" + PrintMembers(members) + "}"
  }

  function PrintItems(items: seq<Json>): string
    requires items != []
  {
    if |items| == 1 then Print(items[0])
    else Print(items[0]) + "," + PrintItems(items[1..])
  }

  function PrintMembers(members: seq<Member>): string
    requires members != []
  {
    var first := Quote(members[0].key) + ":" + Print(members[0].value);
    if |members| == 1 then first else first + "," + PrintMembers(members[1..])
  }

  function ByKey(le: (string, string) -> bool): (Member, Member) -> bool {
    (a: Member, b: Member) => le(a.key, b.key)
  }

  /** The same value with every object's members sorted by key under `le`. */
  function SortKeys(le: (string, string) -> bool, j: Json): Json {
    match j
    case Arr(items) => Arr(SortItems(le, items))
    case Obj(members) => Obj(Sort(ByKey(le), SortValues(le, members)))
    case _ => j
  }

  function SortItems(le: (string, string) -> bool, items: seq<Json>): (r: seq<Json>)
    ensures |r| == |items|
  {
    if items == [] then [] else [SortKeys(le, items[0])] + SortItems(le, items[1..])
  }

  function SortValues(le: (string, string) -> bool, members: seq<Member>): (r: seq<Member>)
    ensures |r| == |members|
  {
    if members == [] then []
    else [Member(members[0].key, SortKeys(le, members[0].value))] + SortValues(le, members[1..])
  }

  /** `json.dumps(j, sort_keys=True, separators=(",", ":"), ensure_ascii=False)`. */
  function Dumps(j: Json): string {
    Print(SortKeys(CodePointAtMost, j))
  }

  /** The same document from an encoder whose objects are maps ordered by UTF-8 bytes. */
  function DumpsByteOrdered(j: Json): string {
    Print(SortKeys(Utf8AtMost, j))
  }

  // ---------- Parsing ----------

  predicate IsJsonSpace(c: char) {
    c == ' ' || c == '\t' || c == '\n' || c == '\r'
  }

  function SkipSpace(s: string): (r: string)
    ensures |r| <= |s|
  {
    if s != "" && IsJsonSpace(s[0]) then SkipSpace(s[1..]) else s
  }

  function HexValue(c: char): (r: Option<int>)
    ensures r.Some? ==> 0 <= r.value < 16
  {
    if '0' <= c <= '9' then Some(c as int - '0' as int)
    else if 'a' <= c <= 'f' then Some(c as int - 'a' as int + 10)
    else if 'A' <= c <= 'F' then Some(c as int - 'A' as int + 10)
    else None
  }

  /** Four hexadecimal digits. */
  function ParseHex4(s: string): (r: Option<int>)
    ensures r.Some? ==> |s| >= 4 && 0 <= r.value < 0x1_0000
  {
    if |s| < 4 then None
    else
      match (HexValue(s[0]), HexValue(s[1]), HexValue(s[2]), HexValue(s[3]))
      case (Some(a), Some(b), Some(c), Some(d)) => Some(((a * 16 + b) * 16 + c) * 16 + d)
      case _ => None
  }

  /** What follows a backslash. A surrogate escape counts only as half of a pair. */
  function ParseEscape(s: string): (r: Option<(char, string)>)
    ensures r.Some? ==> |r.value.1| < |s|
  {
    if s == "" then None
    else if s[0] == '"' || s[0] == '\\' || s[0] == '/' then Some((s[0], s[1..]))
    else if s[0] == 'n' then Some(('\n', s[1..]))
    else if s[0] == 'r' then Some(('\r', s[1..]))
    else if s[0] == 't' then Some(('\t', s[1..]))
    else if s[0] == 'f' then Some((0x0C as char, s[1..]))
    else if s[0] == 'b' then Some((0x08 as char, s[1..]))
    else if s[0] == 'u' then
      match ParseHex4(s[1..])
      case None => None
      case Some(hi) =>
        if IsScalar(hi) then Some((hi as char, s[5..]))
        else if hi < 0xDC00 && StartsWith(s[5..], "\\u") then
          match ParseHex4(s[7..])
          case None => None
          case Some(lo) =>
            if 0xDC00 <= lo < 0xE000
            then Some(((0x1_0000 + (hi - 0xD800) * 0x400 + (lo - 0xDC00)) as char, s[11..]))
            else None
        else None
    else None
  }

  /** The rest of a string after its opening quote. */
  function ParseString(s: string): (r: Option<(string, string)>)
    ensures r.Some? ==> |r.value.1| < |s|
    decreases |s|
  {
    if s == "" then None
    else if s[0] == '"' then Some(("", s[1..]))
    else if s[0] == '\\' then
      match ParseEscape(s[1..])
      case None => None
      case Some((c, rest)) => Prepend(c, ParseString(rest))
    else if s[0] as int < 0x20 then None
    else Prepend(s[0], ParseString(s[1..]))
  }

  function Prepend(c: char, r: Option<(string, string)>): Option<(string, string)> {
    match r
    case None => None
    case Some((t, rest)) => Some(([c] + t, rest))
  }

  predicate IsDigit(c: char) {
    '0' <= c <= '9'
  }

  /** The longest run of digits at the front, and what follows it. */
  function SpanDigits(s: string): (r: (string, string))
    ensures |r.0| + |r.1| == |s|
    ensures s != "" && IsDigit(s[0]) ==> r.0 != ""
  {
    if s == "" || !IsDigit(s[0]) then ("", s)
    else
      var (d, rest) := SpanDigits(s[1..]);
      ([s[0]] + d, rest)
  }

  /** The integer part at the front: a lone zero, or a run of digits. */
  function SpanWhole(t: string): (r: (string, string))
    ensures |r.0| + |r.1| == |t|
    ensures t != "" && IsDigit(t[0]) ==> r.0 != ""
  {
    if t != "" && t[0] == '0' then (t[..1], t[1..]) else SpanDigits(t)
  }

  function DigitsValue(d: string): int {
    if d == "" then 0 else DigitsValue(d[..|d| - 1]) * 10 + (d[|d| - 1] as int - '0' as int)
  }

  /** What follows an optional fraction. */
  function SkipFraction(s: string): (r: string)
    ensures |r| <= |s|
  {
    if |s| >= 2 && s[0] == '.' && IsDigit(s[1]) then SpanDigits(s[1..]).1 else s
  }

  /** What follows an optional exponent. */
  function SkipExponent(s: string): (r: string)
    ensures |r| <= |s|
  {
    if |s| >= 2 && (s[0] == 'e' || s[0] == 'E') then
      if IsDigit(s[1]) then SpanDigits(s[1..]).1
      else if |s| >= 3 && (s[1] == '+' || s[1] == '-') && IsDigit(s[2]) then SpanDigits(s[2..]).1
      else s
    else s
  }

  /** An unsigned number: an integer, or a float kept as its text. */
  function ParseMagnitude(t: string): (r: Option<(Value, string)>)
    ensures r.Some? ==> |r.value.1| < |t|
  {
    if StartsWith(t, "Infinity") then Some((FloatValue("Infinity"), t[8..]))
    else if t == "" || !IsDigit(t[0]) then None
    else
      var (whole, rest) := SpanWhole(t);
      var end := SkipExponent(SkipFraction(rest));
      if |end| == |rest| then Some((IntValue(DigitsValue(whole)), rest))
      else Some((FloatValue(t[..|t| - |end|]), end))
  }

  function Negate(v: Value): Value {
    match v
    case IntValue(n) => IntValue(-n)
    case FloatValue(lexeme) => FloatValue("-" + lexeme)
    case _ => v
  }

  /** A number with an optional minus sign. */
  function ParseNumber(s: string): (r: Option<(Value, string)>)
    ensures r.Some? ==> |r.value.1| < |s|
  {
    if s != "" && s[0] == '-' then
      match ParseMagnitude(s[1..])
      case None => None
      case Some((v, rest)) => Some((Negate(v), rest))
    else ParseMagnitude(s)
  }

  /** One value at the very front of `s`, and the text after it. */
  function ParseValue(s: string): (r: Option<(Value, string)>)
    ensures r.Some? ==> |r.value.1| < |s|
    decreases |s|, 1
  {
    if s == "" then None
    else if s[0] == '"' then
      match ParseString(s[1..])
      case None => None
      case Some((t, rest)) => Some((StrValue(t), rest))
    else if s[0] == '{' then
      var t := SkipSpace(s[1..]);
      if t != "" && t[0] == '}' then Some((ObjValue(map[]), t[1..])) else ParseMembers(t, map[])
    else if s[0] == '[' then
      var t := SkipSpace(s[1..]);
      if t != "" && t[0] == ']' then Some((ArrValue([]), t[1..])) else ParseItems(t, [])
    else if s[0] == '-' || s[0] == 'I' || IsDigit(s[0]) then ParseNumber(s)
    else if StartsWith(s, "null") then Some((NullValue, s[4..]))
    else if StartsWith(s, "true") then Some((BoolValue(true), s[4..]))
    else if StartsWith(s, "false") then Some((BoolValue(false), s[5..]))
    else if StartsWith(s, "NaN") then Some((FloatValue("NaN"), s[3..]))
    else None
  }

  /** One `key: value`, the cursor on the opening quote of the key. */
  function ParseMember(s: string): (r: Option<(string, Value, string)>)
    ensures r.Some? ==> |r.value.2| < |s|
    decreases |s|, 2
  {
    if s == "" || s[0] != '"' then None
    else
      match ParseString(s[1..])
      case None => None
      case Some((key, afterKey)) =>
        var colon := SkipSpace(afterKey);
        if colon == "" || colon[0] != ':' then None
        else
          match ParseValue(SkipSpace(colon[1..]))
          case None => None
          case Some((value, rest)) => Some((key, value, rest))
  }

  /** Members up to the closing brace, later keys winning. */
  function ParseMembers(s: string, acc: map<string, Value>): (r: Option<(Value, string)>)
    ensures r.Some? ==> |r.value.1| < |s|
    decreases |s|, 3
  {
    match ParseMember(s)
    case None => None
    case Some((key, value, rest)) =>
      var next := SkipSpace(rest);
      if next == "" then None
      else if next[0] == '}' then Some((ObjValue(acc[key := value]), next[1..]))
      else if next[0] == ',' then ParseMembers(SkipSpace(next[1..]), acc[key := value])
      else None
  }

  /** Items up to the closing bracket, the cursor on the first character of an item. */
  function ParseItems(s: string, acc: seq<Value>): (r: Option<(Value, string)>)
    ensures r.Some? ==> |r.value.1| < |s|
    decreases |s|, 2
  {
    match ParseValue(s)
    case None => None
    case Some((value, afterValue)) =>
      var next := SkipSpace(afterValue);
      if next == "" then None
      else if next[0] == ']' then Some((ArrValue(acc + [value]), next[1..]))
      else if next[0] == ',' then ParseItems(SkipSpace(next[1..]), acc + [value])
      else None
  }

  /** `json.loads` on text: one value, with nothing but whitespace around it. */
  function LoadsText(s: string): Option<Value> {
    match ParseValue(SkipSpace(s))
    case None => None
    case Some((value, rest)) => if SkipSpace(rest) == "" then Some(value) else None
  }

  /** `json.loads` on UTF-8 bytes, whose byte-order mark is dropped. */
  function Loads(b: bytes): Option<Value> {
    var body := if |b| >= 3 && b[..3] == [0xEF, 0xBB, 0xBF] then b[3..] else b;
    match Utf8Decode(body)
    case None => None
    case Some(s) => LoadsText(s)
  }
}
