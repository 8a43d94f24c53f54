/**
 JSON text of 3rdparty/picojson/picojson.h: the printer, and the parser as a
 function of the text and a position. Values are null, bool, int64, byte strings,
 arrays and objects with ordered keys.
 */
module JsonText {
  import opened Options

  type Byte = x: int | 0 <= x < 256

  type Bytes = seq<Byte>

  datatype Value =
    | Null
    | Bool(b: bool)
    | Int(n: int)
    | Str(s: Bytes)
    | Array(items: seq<Value>)
    | Object(entries: seq<Entry>)

  datatype Entry = Entry(key: Bytes, value: Value)

  predicate IsInt64(n: int) {
    -0x8000_0000_0000_0000 <= n < 0x8000_0000_0000_0000
  }

  /** No key occurs twice. */
  predicate DistinctKeys(es: seq<Entry>) {
    forall i, j :: 0 <= i < j < |es| ==> es[i].key != es[j].key
  }

  /** What a value can hold. */
  predicate WellFormed(v: Value) {
    match v
    case Int(n) => IsInt64(n)
    case Array(items) => forall i :: 0 <= i < |items| ==> WellFormed(items[i])
    case Object(es) => DistinctKeys(es) && forall i :: 0 <= i < |es| ==> WellFormed(es[i].value)
    case _ => true
  }

  const Quote: Byte := 34
  const Backslash: Byte := 92
  const Comma: Byte := 44
  const Colon: Byte := 58
  const Space: Byte := 32
  const NewLine: Byte := 10
  const OpenBracket: Byte := 91
  const CloseBracket: Byte := 93
  const OpenBrace: Byte := 123
  const CloseBrace: Byte := 125

  // ----- printing -----

  function HexDigit(d: int): Byte
    requires 0 <= d < 16
  {
    if d < 10 then 48 + d else 87 + d
  }

  /** serialize_str_char. */
  function Escape(c: Byte): Bytes {
    if c == Quote then [Backslash, Quote]
    else if c == Backslash then [Backslash, Backslash]
    else if c == 47 then [Backslash, 47]
    else if c == 8 then [Backslash, 98]
    else if c == 12 then [Backslash, 102]
    else if c == 10 then [Backslash, 110]
    else if c == 13 then [Backslash, 114]
    else if c == 9 then [Backslash, 116]
    else if c < 32 || c == 127 then [Backslash, 117, 48, 48, HexDigit(c / 16), HexDigit(c % 16)]
    else [c]
  }

  /** The escaped characters from position k on, and the closing quote. */
  function EscapedFrom(s: Bytes, k: nat): Bytes
    requires k <= |s|
    decreases |s| - k
  {
    if k == |s| then [Quote] else Escape(s[k]) + EscapedFrom(s, k + 1)
  }

  function Quoted(s: Bytes): Bytes {
    [Quote] + EscapedFrom(s, 0)
  }

  function Digits(n: nat): Bytes {
    if n < 10 then [48 + n] else Digits(n / 10) + [48 + n % 10]
  }

  /** The decimal text of an integer. */
  function Decimal(n: int): Bytes {
    if n < 0 then [45] + Digits(-n) else Digits(n)
  }

  function Spaces(n: nat): Bytes {
    if n == 0 then [] else Spaces(n - 1) + [Space]
  }

  const IndentWidth := 2

  /** _indent; nothing when compact (indent -1). */
  function Indent(indent: int): Bytes
    requires indent >= -1
  {
    if indent == -1 then [] else [NewLine] + Spaces(indent * IndentWidth)
  }

  function Deeper(indent: int): int {
    if indent == -1 then -1 else indent + 1
  }

  /** _serialize without the final newline of the outermost value. */
  function Body(v: Value, indent: int): Bytes
    requires indent >= -1
    decreases v
  {
    match v
    case Null => [110, 117, 108, 108]
    case Bool(b) => if b then [116, 114, 117, 101] else [102, 97, 108, 115, 101]
    case Int(n) => Decimal(n)
    case Str(s) => Quoted(s)
    case Array(_) => [OpenBracket] + ItemsFrom(v, 0, indent)
    case Object(_) => [OpenBrace] + EntriesFrom(v, 0, indent)
  }

  function CommaUnless(last: bool): Bytes {
    if last then [] else [Comma]
  }

  /** What follows the opening bracket or a comma: items k and later, and the closing bracket. */
  function ItemsFrom(v: Value, k: nat, indent: int): Bytes
    requires v.Array? && k <= |v.items| && indent >= -1
    decreases v, 0, |v.items| - k
  {
    if k == |v.items| then (if k == 0 then [] else Indent(indent)) + [CloseBracket]
    else
      var rest := CommaUnless(k + 1 == |v.items|) + ItemsFrom(v, k + 1, indent);
      Indent(Deeper(indent)) + (Body(v.items[k], Deeper(indent)) + rest)
  }

  function Separator(indent: int): Bytes {
    if indent == -1 then [Colon] else [Colon, Space]
  }

  /** The key and the colon. */
  function EntryHead(key: Bytes, indent: int): Bytes
    requires indent >= -1
  {
    Indent(Deeper(indent)) + (Quoted(key) + Separator(indent))
  }

  function EntriesFrom(v: Value, k: nat, indent: int): Bytes
    requires v.Object? && k <= |v.entries| && indent >= -1
    decreases v, 0, |v.entries| - k
  {
    if k == |v.entries| then (if k == 0 then [] else Indent(indent)) + [CloseBrace]
    else
      var e := v.entries[k];
      EntryHead(e.key, indent) +
        (Body(e.value, Deeper(indent)) + (CommaUnless(k + 1 == |v.entries|) + EntriesFrom(v, k + 1, indent)))
  }

  /** serialize: compact, or prettified with a final newline. */
  function Serialize(v: Value, prettify: bool): Bytes {
    if prettify then Body(v, 0) + [NewLine] else Body(v, -1)
  }

  // ----- parsing -----

  datatype Parsed<T> = Fail | Ok(value: T, next: nat)

  /** The byte at a position, -1 at the end. */
  function At(s: Bytes, p: nat): int {
    if p < |s| then s[p] else -1
  }

  predicate IsSpace(c: int) {
    c == 32 || c == 9 || c == 10 || c == 13
  }

  function SkipWs(s: Bytes, p: nat): (q: nat)
    ensures p <= q && (p <= |s| ==> q <= |s|)
    decreases |s| - p
  {
    if IsSpace(At(s, p)) then SkipWs(s, p + 1) else p
  }

  function HexValue(c: int): int {
    if 48 <= c <= 57 then c - 48
    else if 65 <= c <= 70 then c - 55
    else if 97 <= c <= 102 then c - 87
    else -1
  }

  /** _parse_quadhex: four hexadecimal digits. */
  function QuadHex(s: Bytes, p: nat): (r: int)
    ensures -1 <= r < 0x10000 && (r != -1 ==> p + 4 <= |s|)
  {
    var a, b, c, d := HexValue(At(s, p)), HexValue(At(s, p + 1)), HexValue(At(s, p + 2)), HexValue(At(s, p + 3));
    if a == -1 || b == -1 || c == -1 || d == -1 then -1 else ((a * 16 + b) * 16 + c) * 16 + d
  }

  /** The UTF-8 bytes of a code point. */
  function Utf8(u: int): (r: Bytes)
    requires 0 <= u < 0x110000
    ensures 1 <= |r| <= 4
  {
    if u < 0x80 then [u]
    else if u < 0x800 then [0xc0 + u / 64, 0x80 + u % 64]
    else if u < 0x10000 then [0xe0 + u / 4096, 0x80 + u / 64 % 64, 0x80 + u % 64]
    else [0xf0 + u / 262144, 0x80 + u / 4096 % 64, 0x80 + u / 64 % 64, 0x80 + u % 64]
  }

  /** _parse_codepoint: one escape, or a surrogate pair. */
  function Codepoint(s: Bytes, p: nat): (r: Parsed<int>)
    ensures r.Ok? ==> p < r.next <= |s| && 0 <= r.value < 0x110000
  {
    var u := QuadHex(s, p);
    if u == -1 then Fail
    else if 0xd800 <= u <= 0xdfff then
      if 0xdc00 <= u || At(s, p + 4) != Backslash || At(s, p + 5) != 117 then Fail
      else
        var w := QuadHex(s, p + 6);
        if !(0xdc00 <= w <= 0xdfff) then Fail
        else Ok((u - 0xd800) * 1024 + (w - 0xdc00) + 0x10000, p + 10)
    else Ok(u, p + 4)
  }

  /** The byte a one-letter escape stands for, or -1. */
  function Unescape(c: int): (r: int)
    ensures -1 <= r < 256
  {
    if c == Quote then Quote
    else if c == Backslash then Backslash
    else if c == 47 then 47
    else if c == 98 then 8
    else if c == 102 then 12
    else if c == 110 then 10
    else if c == 114 then 13
    else if c == 116 then 9
    else -1
  }

  /** _parse_string, after the opening quote. */
  function ParseString(s: Bytes, p: nat, acc: Bytes): (r: Parsed<Bytes>)
    ensures r.Ok? ==> p < r.next <= |s|
    decreases |s| - p
  {
    var c := At(s, p);
    if c < 32 then Fail
    else if c == Quote then Ok(acc, p + 1)
    else if c == Backslash then
      var d := At(s, p + 1);
      if Unescape(d) != -1 then ParseString(s, p + 2, acc + [Unescape(d)])
      else if d == 117 then
        match Codepoint(s, p + 2)
        case Fail => Fail
        case Ok(u, next) => ParseString(s, next, acc + Utf8(u))
      else Fail
    else ParseString(s, p + 1, acc + [c])
  }

  predicate IsNumberByte(c: int) {
    48 <= c <= 57 || c == 43 || c == 45 || c == 101 || c == 69 || c == 46
  }

  /** Where the run of number characters ends. */
  function NumberEnd(s: Bytes, p: nat): (q: nat)
    ensures p <= q && (p <= |s| ==> q <= |s|)
    decreases |s| - p
  {
    if IsNumberByte(At(s, p)) then NumberEnd(s, p + 1) else p
  }

  predicate AllDigits(s: Bytes) {
    s != [] && forall i :: 0 <= i < |s| ==> 48 <= s[i] <= 57
  }

  function DigitsValue(s: Bytes): int {
    if s == [] then 0 else
      var last: int := s[|s| - 1];
      DigitsValue(s[..|s| - 1]) * 10 + (last - 48)
  }

  /** A decimal integer in the int64 range that uses up the text. */
  function ParseInt(s: Bytes): Option<int> {
    var negative := s != [] && s[0] == 45;
    var digits := if s != [] && (s[0] == 45 || s[0] == 43) then s[1..] else s;
    if !AllDigits(digits) then None else
      var n := if negative then -DigitsValue(digits) else DigitsValue(digits);
      if IsInt64(n) then Some(n) else None
  }

  function ParseNumber(s: Bytes, p: nat): (r: Parsed<Value>)
    ensures r.Ok? ==> p < r.next <= |s|
  {
    if p >= |s| then Fail else
      match ParseInt(s[p..NumberEnd(s, p)])
      case None => Fail
      case Some(n) => Ok(Int(n), NumberEnd(s, p))
  }

  predicate Matches(s: Bytes, p: nat, text: Bytes) {
    p + |text| <= |s| && forall i :: 0 <= i < |text| ==> s[p + i] == text[i]
  }

  /** object[key] = value: a new key goes last, a known key keeps its place. */
  function Put(es: seq<Entry>, key: Bytes, v: Value): seq<Entry> {
    if es == [] then [Entry(key, v)]
    else if es[0].key == key then [Entry(key, v)] + es[1..]
    else [es[0]] + Put(es[1..], key, v)
  }

  /** _parse. Texts that only strtod accepts are not modelled and fail. */
  function ParseValue(s: Bytes, p: nat): (r: Parsed<Value>)
    ensures r.Ok? ==> p < r.next <= |s|
    decreases |s| - p, 0
  {
    var q := SkipWs(s, p);
    var c := At(s, q);
    if c == 110 then (if Matches(s, q + 1, [117, 108, 108]) then Ok(Null, q + 4) else Fail)
    else if c == 102 then (if Matches(s, q + 1, [97, 108, 115, 101]) then Ok(Bool(false), q + 5) else Fail)
    else if c == 116 then (if Matches(s, q + 1, [114, 117, 101]) then Ok(Bool(true), q + 4) else Fail)
    else if c == Quote then
      match ParseString(s, q + 1, [])
      case Fail => Fail
      case Ok(text, next) => Ok(Str(text), next)
    else if c == OpenBracket then ParseArray(s, q + 1)
    else if c == OpenBrace then ParseObject(s, q + 1)
    else if 48 <= c <= 57 || c == 45 then ParseNumber(s, q)
    else Fail
  }

  function ParseArray(s: Bytes, p: nat): (r: Parsed<Value>)
    requires p <= |s|
    ensures r.Ok? ==> p < r.next <= |s|
    decreases |s| - p, 2
  {
    var q := SkipWs(s, p);
    if At(s, q) == CloseBracket then Ok(Array([]), q + 1) else ParseItems(s, q, [])
  }

  function ParseItems(s: Bytes, p: nat, acc: seq<Value>): (r: Parsed<Value>)
    requires p <= |s|
    ensures r.Ok? ==> p < r.next <= |s|
    decreases |s| - p, 1
  {
    match ParseValue(s, p)
    case Fail => Fail
    case Ok(v, next) =>
      var q := SkipWs(s, next);
      if At(s, q) == Comma then ParseItems(s, q + 1, acc + [v])
      else if At(s, q) == CloseBracket then Ok(Array(acc + [v]), q + 1)
      else Fail
  }

  function ParseObject(s: Bytes, p: nat): (r: Parsed<Value>)
    requires p <= |s|
    ensures r.Ok? ==> p < r.next <= |s|
    decreases |s| - p, 2
  {
    var q := SkipWs(s, p);
    if At(s, q) == CloseBrace then Ok(Object([]), q + 1) else ParseEntries(s, q, [])
  }

  /** A key and the colon after it. */
  function ParseKey(s: Bytes, p: nat): (r: Parsed<Bytes>)
    requires p <= |s|
    ensures r.Ok? ==> p < r.next <= |s|
  {
    var q := SkipWs(s, p);
    if At(s, q) != Quote then Fail else
      match ParseString(s, q + 1, [])
      case Fail => Fail
      case Ok(key, next) =>
        var c := SkipWs(s, next);
        if At(s, c) == Colon then Ok(key, c + 1) else Fail
  }

  function ParseEntries(s: Bytes, p: nat, acc: seq<Entry>): (r: Parsed<Value>)
    requires p <= |s|
    ensures r.Ok? ==> p < r.next <= |s|
    decreases |s| - p, 1
  {
    match ParseKey(s, p)
    case Fail => Fail
    case Ok(key, start) =>
      match ParseValue(s, start)
      case Fail => Fail
      case Ok(v, next) =>
        var q := SkipWs(s, next);
        if At(s, q) == Comma then ParseEntries(s, q + 1, Put(acc, key, v))
        else if At(s, q) == CloseBrace then Ok(Object(Put(acc, key, v)), q + 1)
        else Fail
  }
}
