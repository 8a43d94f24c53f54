/**
 Parsing printed JSON gives the value back, for every value, compact or
 prettified, at any position of any text.
 */
module JsonRoundTrip {
  import opened Options
  import opened JsonText
  import opened DivModLaws

  // ----- positions -----

  lemma MatchesAppend(s: Bytes, p: nat, a: Bytes, b: Bytes)
    ensures Matches(s, p, a + b) <==> Matches(s, p, a) && Matches(s, p + |a|, b)
  {
    if Matches(s, p, a + b) {
      forall i | 0 <= i < |a| ensures s[p + i] == a[i] { assert (a + b)[i] == a[i]; }
      forall i | 0 <= i < |b| ensures s[p + |a| + i] == b[i] { assert s[p + (|a| + i)] == (a + b)[|a| + i]; }
    }
    if Matches(s, p, a) && Matches(s, p + |a|, b) {
      forall i | 0 <= i < |a + b| ensures s[p + i] == (a + b)[i] {
        if i >= |a| { assert s[(p + |a|) + (i - |a|)] == b[i - |a|]; }
      }
    }
  }

  lemma MatchesAt(s: Bytes, p: nat, text: Bytes, k: nat)
    requires Matches(s, p, text) && k < |text|
    ensures At(s, p + k) == text[k]
  {
  }

  lemma {:induction false} SkipTo(s: Bytes, p: nat, q: nat)
    requires p <= q && (forall k :: p <= k < q ==> IsSpace(At(s, k))) && !IsSpace(At(s, q))
    ensures SkipWs(s, p) == q
    decreases q - p
  {
    if p < q { SkipTo(s, p + 1, q); }
  }

  /** Skipping stops at a byte that is no space. */
  lemma {:induction false} SkipStops(s: Bytes, p: nat)
    ensures !IsSpace(At(s, SkipWs(s, p)))
    decreases |s| - p
  {
    if IsSpace(At(s, p)) { SkipStops(s, p + 1); }
  }

  predicate AllSpaces(text: Bytes) {
    forall i :: 0 <= i < |text| ==> IsSpace(text[i])
  }

  lemma {:induction false} SpacesAreSpaces(n: nat)
    ensures AllSpaces(Spaces(n))
  {
    if n > 0 { SpacesAreSpaces(n - 1); }
  }

  lemma IndentIsSpaces(indent: int)
    requires indent >= -1
    ensures AllSpaces(Indent(indent))
  {
    if indent >= 0 { SpacesAreSpaces(indent * IndentWidth); }
  }

  /** Skipping stops after the spaces. */
  lemma SkipText(s: Bytes, p: nat, spaces: Bytes)
    requires Matches(s, p, spaces) && AllSpaces(spaces) && !IsSpace(At(s, p + |spaces|))
    ensures SkipWs(s, p) == p + |spaces|
  {
    forall k | p <= k < p + |spaces| ensures IsSpace(At(s, k)) { MatchesAt(s, p, spaces, k - p); }
    SkipTo(s, p, p + |spaces|);
  }

  // ----- strings -----

  lemma HexRoundTrip(d: int)
    requires 0 <= d < 16
    ensures HexValue(HexDigit(d)) == d
  {
  }

  /** One escaped character is read back as the character. */
  lemma EscapeStep(s: Bytes, p: nat, c: Byte, acc: Bytes)
    requires Matches(s, p, Escape(c))
    ensures ParseString(s, p, acc) == ParseString(s, p + |Escape(c)|, acc + [c])
  {
    var text := Escape(c);
    MatchesAt(s, p, text, 0);
    if |text| == 2 {
      MatchesAt(s, p, text, 1);
    } else if |text| == 6 {
      MatchesAt(s, p, text, 1);
      MatchesAt(s, p, text, 2);
      MatchesAt(s, p, text, 3);
      MatchesAt(s, p, text, 4);
      MatchesAt(s, p, text, 5);
      HexRoundTrip(c / 16);
      HexRoundTrip(c % 16);
      assert At(s, p + 1) == 117 && At(s, p + 2) == 48 && At(s, p + 3) == 48;
      assert At(s, p + 4) == HexDigit(c / 16) && At(s, p + 5) == HexDigit(c % 16);
      assert QuadHex(s, p + 2) == c;
      assert Codepoint(s, p + 2) == Ok(c, p + 6);
      assert Utf8(c) == [c];
    }
  }

  lemma StringStep(s: Bytes, p: nat, text: Bytes, k: nat)
    requires k < |text| && Matches(s, p, EscapedFrom(text, k))
    ensures Matches(s, p + |Escape(text[k])|, EscapedFrom(text, k + 1))
    ensures ParseString(s, p, text[..k]) == ParseString(s, p + |Escape(text[k])|, text[..k + 1])
  {
    MatchesAppend(s, p, Escape(text[k]), EscapedFrom(text, k + 1));
    EscapeStep(s, p, text[k], text[..k]);
    assert text[..k] + [text[k]] == text[..k + 1];
  }

  lemma {:induction false} StringRoundTrip(s: Bytes, p: nat, text: Bytes, k: nat)
    requires k <= |text| && Matches(s, p, EscapedFrom(text, k))
    ensures ParseString(s, p, text[..k]) == Ok(text, p + |EscapedFrom(text, k)|)
    decreases |text| - k
  {
    if k == |text| {
      MatchesAt(s, p, [Quote], 0);
      assert text[..k] == text;
    } else {
      StringStep(s, p, text, k);
      StringRoundTrip(s, p + |Escape(text[k])|, text, k + 1);
    }
  }

  /** A printed string is read back, whatever bytes it holds. */
  lemma QuotedRoundTrip(s: Bytes, p: nat, text: Bytes)
    requires Matches(s, p, Quoted(text))
    ensures At(s, p) == Quote && ParseString(s, p + 1, []) == Ok(text, p + |Quoted(text)|)
  {
    MatchesAppend(s, p, [Quote], EscapedFrom(text, 0));
    MatchesAt(s, p, [Quote], 0);
    StringRoundTrip(s, p + 1, text, 0);
    assert text[..0] == [];
  }

  // ----- numbers -----

  lemma {:induction false} DigitsRoundTrip(n: nat)
    ensures AllDigits(Digits(n)) && DigitsValue(Digits(n)) == n
  {
    if n < 10 {
      assert Digits(n)[..0] == [];
      assert DigitsValue([]) == 0;
    } else {
      DigitsRoundTrip(n / 10);
      assert Digits(n)[..|Digits(n)| - 1] == Digits(n / 10);
    }
  }

  /** Digits are read as their value, and after a minus sign as its opposite. */
  lemma SignedDigits(digits: Bytes, n: int)
    requires AllDigits(digits) && DigitsValue(digits) == n
    ensures IsInt64(n) ==> ParseInt(digits) == Some(n)
    ensures IsInt64(-n) ==> ParseInt([45] + digits) == Some(-n)
  {
    assert ([45] + digits)[1..] == digits;
  }

  lemma DecimalRoundTrip(n: int)
    requires IsInt64(n)
    ensures ParseInt(Decimal(n)) == Some(n) && Decimal(n) != []
    ensures 48 <= Decimal(n)[0] <= 57 || Decimal(n)[0] == 45
    ensures forall i :: 0 <= i < |Decimal(n)| ==> IsNumberByte(Decimal(n)[i])
  {
    var m := if n < 0 then -n else n;
    DigitsRoundTrip(m);
    SignedDigits(Digits(m), m);
  }

  lemma {:induction false} NumberRun(s: Bytes, p: nat, q: nat)
    requires p <= q && (forall k :: p <= k < q ==> IsNumberByte(At(s, k))) && !IsNumberByte(At(s, q))
    ensures NumberEnd(s, p) == q
    decreases q - p
  {
    if p < q { NumberRun(s, p + 1, q); }
  }

  lemma NumberStops(s: Bytes, p: nat, text: Bytes)
    requires Matches(s, p, text) && (forall i :: 0 <= i < |text| ==> IsNumberByte(text[i]))
    requires !IsNumberByte(At(s, p + |text|))
    ensures NumberEnd(s, p) == p + |text| && s[p..p + |text|] == text
  {
    forall k | p <= k < p + |text| ensures IsNumberByte(At(s, k)) { MatchesAt(s, p, text, k - p); }
    NumberRun(s, p, p + |text|);
  }

  // ----- values -----

  /** The first byte of a printed value. */
  lemma BodyStart(v: Value, indent: int)
    requires indent >= -1 && WellFormed(v)
    ensures Body(v, indent) != [] && !IsSpace(Body(v, indent)[0])
    ensures Body(v, indent)[0] != CloseBracket && Body(v, indent)[0] != CloseBrace
  {
    if v.Int? { DecimalRoundTrip(v.n); }
  }

  /** Spaces before a value change nothing. */
  lemma LeadingSpaces(s: Bytes, p: nat, q: nat)
    requires SkipWs(s, p) == q
    ensures ParseValue(s, p) == ParseValue(s, q)
  {
    SkipStops(s, p);
    SkipTo(s, q, q);
  }

  /** After a value: the end of the text or a byte that no number contains. */
  predicate Ends(s: Bytes, p: nat) {
    !IsNumberByte(At(s, p))
  }

  lemma WordRoundTrip(v: Value, s: Bytes, p: nat)
    requires (v.Null? || v.Bool?) && Matches(s, p, Body(v, -1))
    ensures Reads(s, p, v, p + |Body(v, -1)|)
  {
    var text := Body(v, -1);
    MatchesAt(s, p, text, 0);
    SkipTo(s, p, p);
    assert text == [text[0]] + text[1..];
    MatchesAppend(s, p, [text[0]], text[1..]);
    match v
    case Null => assert text[1..] == [117, 108, 108];
    case Bool(true) => assert text[1..] == [114, 117, 101];
    case Bool(false) => assert text[1..] == [97, 108, 115, 101];
  }

  /** A text that is a number is read as that number. */
  lemma NumberReads(s: Bytes, p: nat, n: int, end: nat)
    requires p < |s| && (48 <= At(s, p) <= 57 || At(s, p) == 45) && ParseNumber(s, p) == Ok(Int(n), end)
    ensures Reads(s, p, Int(n), end)
  {
    SkipTo(s, p, p);
  }

  lemma NumberText(n: int, text: Bytes, s: Bytes, p: nat)
    requires ParseInt(text) == Some(n) && text != [] && (48 <= text[0] <= 57 || text[0] == 45)
    requires forall i :: 0 <= i < |text| ==> IsNumberByte(text[i])
    requires Matches(s, p, text) && Ends(s, p + |text|)
    ensures Reads(s, p, Int(n), p + |text|)
  {
    NumberStops(s, p, text);
    MatchesAt(s, p, text, 0);
    NumberReads(s, p, n, p + |text|);
  }

  lemma IntRoundTrip(n: int, s: Bytes, p: nat)
    requires IsInt64(n) && Matches(s, p, Decimal(n)) && Ends(s, p + |Decimal(n)|)
    ensures Reads(s, p, Int(n), p + |Decimal(n)|)
  {
    DecimalRoundTrip(n);
    NumberText(n, Decimal(n), s, p);
  }

  lemma TextRoundTrip(t: Bytes, s: Bytes, p: nat)
    requires Matches(s, p, Quoted(t))
    ensures Reads(s, p, Str(t), p + |Quoted(t)|)
  {
    QuotedRoundTrip(s, p, t);
    SkipTo(s, p, p);
  }

  // ----- steps of the parser -----

  ghost predicate Reads(s: Bytes, p: nat, v: Value, next: nat) {
    ParseValue(s, p) == Ok(v, next)
  }

  ghost predicate ReadsItems(s: Bytes, p: nat, acc: seq<Value>, v: Value, next: nat) {
    p <= |s| && ParseItems(s, p, acc) == Ok(v, next)
  }

  ghost predicate ReadsKey(s: Bytes, p: nat, key: Bytes, next: nat) {
    p <= |s| && ParseKey(s, p) == Ok(key, next)
  }

  ghost predicate ReadsEntries(s: Bytes, p: nat, acc: seq<Entry>, v: Value, next: nat) {
    p <= |s| && ParseEntries(s, p, acc) == Ok(v, next)
  }

  lemma ItemsStep(s: Bytes, p: nat, acc: seq<Value>, v: Value, next: nat, q: nat, w: Value, end: nat)
    requires p <= |s| && Reads(s, p, v, next) && SkipWs(s, next) == q
    ensures At(s, q) == Comma && ReadsItems(s, q + 1, acc + [v], w, end) ==> ReadsItems(s, p, acc, w, end)
    ensures At(s, q) == CloseBracket ==> ReadsItems(s, p, acc, Array(acc + [v]), q + 1)
  {
  }

  lemma EntriesStep(s: Bytes, p: nat, acc: seq<Entry>, key: Bytes, start: nat, v: Value, next: nat, q: nat,
      more: seq<Entry>, w: Value, end: nat)
    requires ReadsKey(s, p, key, start) && Reads(s, start, v, next) && SkipWs(s, next) == q && more == Put(acc, key, v)
    requires At(s, q) == Comma && ReadsEntries(s, q + 1, more, w, end)
    ensures ReadsEntries(s, p, acc, w, end)
  {
  }

  lemma LastEntryStep(s: Bytes, p: nat, acc: seq<Entry>, key: Bytes, start: nat, v: Value, next: nat, q: nat,
      more: seq<Entry>)
    requires ReadsKey(s, p, key, start) && Reads(s, start, v, next) && SkipWs(s, next) == q && more == Put(acc, key, v)
    requires At(s, q) == CloseBrace
    ensures ReadsEntries(s, p, acc, Object(more), q + 1)
  {
  }

  lemma SkipTwice(s: Bytes, p: nat)
    ensures SkipWs(s, SkipWs(s, p)) == SkipWs(s, p)
  {
    SkipStops(s, p);
    SkipTo(s, SkipWs(s, p), SkipWs(s, p));
  }

  lemma ItemsSkip(s: Bytes, p: nat)
    requires p <= |s|
    ensures ParseItems(s, SkipWs(s, p), []) == ParseItems(s, p, [])
  {
    LeadingSpaces(s, p, SkipWs(s, p));
  }

  lemma KeySkip(s: Bytes, p: nat)
    requires p <= |s|
    ensures ParseKey(s, SkipWs(s, p)) == ParseKey(s, p)
  {
    SkipTwice(s, p);
  }

  lemma EntriesSkip(s: Bytes, p: nat)
    requires p <= |s|
    ensures ParseEntries(s, SkipWs(s, p), []) == ParseEntries(s, p, [])
  {
    KeySkip(s, p);
  }

  lemma ArrayStep(s: Bytes, p: nat, v: Value, end: nat)
    requires p < |s| && At(s, p) == OpenBracket
    ensures At(s, SkipWs(s, p + 1)) == CloseBracket ==> Reads(s, p, Array([]), SkipWs(s, p + 1) + 1)
    ensures At(s, SkipWs(s, p + 1)) != CloseBracket && ReadsItems(s, p + 1, [], v, end) ==> Reads(s, p, v, end)
  {
    SkipTo(s, p, p);
    ItemsSkip(s, p + 1);
    assert ParseValue(s, p) == ParseArray(s, p + 1);
  }

  lemma ObjectStep(s: Bytes, p: nat, v: Value, end: nat)
    requires p < |s| && At(s, p) == OpenBrace
    ensures At(s, SkipWs(s, p + 1)) == CloseBrace ==> Reads(s, p, Object([]), SkipWs(s, p + 1) + 1)
    ensures At(s, SkipWs(s, p + 1)) != CloseBrace && ReadsEntries(s, p + 1, [], v, end) ==> Reads(s, p, v, end)
  {
    SkipTo(s, p, p);
    EntriesSkip(s, p + 1);
    assert ParseValue(s, p) == ParseObject(s, p + 1);
  }

  lemma KeyOnly(s: Bytes, p: nat, sp: Bytes, quoted: Bytes, key: Bytes, sep: Bytes)
    requires AllSpaces(sp) && Matches(s, p, sp) && Matches(s, p + |sp|, quoted) && quoted == Quoted(key)
    requires Matches(s, p + |sp| + |quoted|, sep) && sep != [] && sep[0] == Colon
    ensures At(s, SkipWs(s, p)) == Quote && ReadsKey(s, p, key, p + |sp| + |quoted| + 1)
  {
    var c := p + |sp| + |quoted|;
    QuotedRoundTrip(s, p + |sp|, key);
    SkipText(s, p, sp);
    MatchesAt(s, c, sep, 0);
    SkipTo(s, c, c);
  }

  // ----- what the round trip uses of the parser -----

  /** What a parser of one text reads: from a position, a result that ends at another. */
  datatype Reader = Reader(
    at: (nat, Bytes) -> bool,
    value: (nat, Value, nat) -> bool,
    items: (nat, seq<Value>, Value, nat) -> bool,
    key: (nat, Bytes, nat) -> bool,
    entries: (nat, seq<Entry>, Value, nat) -> bool)

  predicate AppendLaw(r: Reader, p: nat, a: Bytes, b: Bytes) {
    r.at(p, a + b) ==> r.at(p, a) && r.at(p + |a|, b)
  }

  predicate FirstLaw(r: Reader, s: Bytes, p: nat, text: Bytes) {
    r.at(p, text) && text != [] ==> p < |s| && At(s, p) == text[0]
  }

  predicate SkipLaw(r: Reader, s: Bytes, p: nat, sp: Bytes) {
    r.at(p, sp) && AllSpaces(sp) && !IsSpace(At(s, p + |sp|)) ==> p <= |s| && SkipWs(s, p) == p + |sp|
  }

  predicate SpacesLaw(r: Reader, s: Bytes, p: nat, v: Value, next: nat) {
    r.value(SkipWs(s, p), v, next) ==> r.value(p, v, next)
  }

  predicate IsLeaf(v: Value) {
    !v.Array? && !v.Object?
  }

  predicate LeafLaw(r: Reader, s: Bytes, p: nat, v: Value, indent: int) {
    indent >= -1 && IsLeaf(v) && WellFormed(v) && r.at(p, Body(v, indent)) && Ends(s, p + |Body(v, indent)|) ==>
      r.value(p, v, p + |Body(v, indent)|)
  }

  predicate ItemsLaw(r: Reader, s: Bytes, p: nat, acc: seq<Value>, v: Value, next: nat, w: Value, end: nat) {
    var q := SkipWs(s, next);
    p <= |s| && r.value(p, v, next) ==>
      && (At(s, q) == Comma && r.items(q + 1, acc + [v], w, end) ==> r.items(p, acc, w, end))
      && (At(s, q) == CloseBracket ==> r.items(p, acc, Array(acc + [v]), q + 1))
  }

  predicate ArrayLaw(r: Reader, s: Bytes, p: nat, v: Value, end: nat) {
    var q := SkipWs(s, p + 1);
    p < |s| && At(s, p) == OpenBracket ==>
      && (At(s, q) == CloseBracket ==> r.value(p, Array([]), q + 1))
      && (At(s, q) != CloseBracket && r.items(p + 1, [], v, end) ==> r.value(p, v, end))
  }

  predicate KeyLaw(r: Reader, s: Bytes, p: nat, sp: Bytes, quoted: Bytes, key: Bytes, sep: Bytes) {
    && AllSpaces(sp) && r.at(p, sp) && r.at(p + |sp|, quoted) && quoted == Quoted(key)
    && r.at(p + |sp| + |quoted|, sep) && sep != [] && sep[0] == Colon ==>
      At(s, SkipWs(s, p)) == Quote && r.key(p, key, p + |sp| + |quoted| + 1)
  }

  predicate EntriesLaw(r: Reader, s: Bytes, p: nat, acc: seq<Entry>, key: Bytes, start: nat, v: Value, next: nat,
      w: Value, end: nat) {
    var q := SkipWs(s, next);
    r.key(p, key, start) && r.value(start, v, next) && At(s, q) == Comma &&
      r.entries(q + 1, Put(acc, key, v), w, end) ==>
      r.entries(p, acc, w, end)
  }

  predicate LastEntryLaw(r: Reader, s: Bytes, p: nat, acc: seq<Entry>, key: Bytes, start: nat, v: Value, next: nat) {
    var q := SkipWs(s, next);
    r.key(p, key, start) && r.value(start, v, next) && At(s, q) == CloseBrace ==>
      r.entries(p, acc, Object(Put(acc, key, v)), q + 1)
  }

  predicate ObjectLaw(r: Reader, s: Bytes, p: nat, v: Value, end: nat) {
    var q := SkipWs(s, p + 1);
    p < |s| && At(s, p) == OpenBrace ==>
      && (At(s, q) == CloseBrace ==> r.value(p, Object([]), q + 1))
      && (At(s, q) != CloseBrace && r.entries(p + 1, [], v, end) ==> r.value(p, v, end))
  }

  /** The reader follows the grammar of the text. */
  ghost predicate Obeys(r: Reader, s: Bytes) {
    && (forall p: nat, a, b :: AppendLaw(r, p, a, b))
    && (forall p: nat, text :: FirstLaw(r, s, p, text))
    && (forall p: nat, sp :: SkipLaw(r, s, p, sp))
    && (forall p: nat, v, next: nat :: SpacesLaw(r, s, p, v, next))
    && (forall p: nat, v, indent :: LeafLaw(r, s, p, v, indent))
    && (forall p: nat, acc, v, next: nat, w, end: nat :: ItemsLaw(r, s, p, acc, v, next, w, end))
    && (forall p: nat, v, end: nat :: ArrayLaw(r, s, p, v, end))
    && (forall p: nat, sp, quoted, key, sep :: KeyLaw(r, s, p, sp, quoted, key, sep))
    && (forall p: nat, acc, key, start: nat, v, next: nat, w, end: nat ::
      EntriesLaw(r, s, p, acc, key, start, v, next, w, end))
    && (forall p: nat, acc, key, start: nat, v, next: nat :: LastEntryLaw(r, s, p, acc, key, start, v, next))
    && (forall p: nat, v, end: nat :: ObjectLaw(r, s, p, v, end))
  }

  /** The parser as a reader. */
  ghost function ReaderOf(s: Bytes): Reader {
    Reader(
      (p: nat, text: Bytes) => Matches(s, p, text),
      (p: nat, v: Value, next: nat) => Reads(s, p, v, next),
      (p: nat, acc: seq<Value>, v: Value, next: nat) => ReadsItems(s, p, acc, v, next),
      (p: nat, key: Bytes, next: nat) => ReadsKey(s, p, key, next),
      (p: nat, acc: seq<Entry>, v: Value, next: nat) => ReadsEntries(s, p, acc, v, next))
  }

  lemma LeafObeys(s: Bytes, p: nat, v: Value, indent: int)
    ensures LeafLaw(ReaderOf(s), s, p, v, indent)
  {
    if indent >= -1 && IsLeaf(v) && WellFormed(v) && Matches(s, p, Body(v, indent)) && Ends(s, p + |Body(v, indent)|) {
      match v
      case Null => WordRoundTrip(v, s, p);
      case Bool(_) => WordRoundTrip(v, s, p);
      case Int(n) => IntRoundTrip(n, s, p);
      case Str(t) => TextRoundTrip(t, s, p);
    }
  }

  lemma SpacesObey(s: Bytes, p: nat, v: Value, next: nat)
    ensures SpacesLaw(ReaderOf(s), s, p, v, next)
  {
    LeadingSpaces(s, p, SkipWs(s, p));
  }

  lemma ItemsObey(s: Bytes, p: nat, acc: seq<Value>, v: Value, next: nat, w: Value, end: nat)
    ensures ItemsLaw(ReaderOf(s), s, p, acc, v, next, w, end)
  {
    if p <= |s| && Reads(s, p, v, next) { ItemsStep(s, p, acc, v, next, SkipWs(s, next), w, end); }
  }

  lemma EntriesObey(s: Bytes, p: nat, acc: seq<Entry>, key: Bytes, start: nat, v: Value, next: nat, w: Value, end: nat)
    ensures EntriesLaw(ReaderOf(s), s, p, acc, key, start, v, next, w, end)
  {
    var r, q, more := ReaderOf(s), SkipWs(s, next), Put(acc, key, v);
    if r.key(p, key, start) && r.value(start, v, next) && At(s, q) == Comma && r.entries(q + 1, more, w, end) {
      EntriesStep(s, p, acc, key, start, v, next, q, more, w, end);
      assert r.entries(p, acc, w, end);
    }
  }

  lemma LastEntryObeys(s: Bytes, p: nat, acc: seq<Entry>, key: Bytes, start: nat, v: Value, next: nat)
    ensures LastEntryLaw(ReaderOf(s), s, p, acc, key, start, v, next)
  {
    if ReadsKey(s, p, key, start) && Reads(s, start, v, next) && At(s, SkipWs(s, next)) == CloseBrace {
      LastEntryStep(s, p, acc, key, start, v, next, SkipWs(s, next), Put(acc, key, v));
    }
  }

  lemma ArrayObeys(s: Bytes, p: nat, v: Value, end: nat)
    ensures ArrayLaw(ReaderOf(s), s, p, v, end)
  {
    if p < |s| && At(s, p) == OpenBracket { ArrayStep(s, p, v, end); }
  }

  lemma ObjectObeys(s: Bytes, p: nat, v: Value, end: nat)
    ensures ObjectLaw(ReaderOf(s), s, p, v, end)
  {
    if p < |s| && At(s, p) == OpenBrace { ObjectStep(s, p, v, end); }
  }

  lemma KeyObeys(s: Bytes, p: nat, sp: Bytes, quoted: Bytes, key: Bytes, sep: Bytes)
    ensures KeyLaw(ReaderOf(s), s, p, sp, quoted, key, sep)
  {
    if AllSpaces(sp) && Matches(s, p, sp) && Matches(s, p + |sp|, quoted) && quoted == Quoted(key)
      && Matches(s, p + |sp| + |quoted|, sep) && sep != [] && sep[0] == Colon {
      KeyOnly(s, p, sp, quoted, key, sep);
    }
  }

  /** The parser follows the grammar. */
  lemma ParserObeys(s: Bytes)
    ensures Obeys(ReaderOf(s), s)
  {
    var r := ReaderOf(s);
    forall p: nat, a, b ensures AppendLaw(r, p, a, b) { MatchesAppend(s, p, a, b); }
    forall p: nat, text ensures FirstLaw(r, s, p, text) { if Matches(s, p, text) &&
      text != [] { MatchesAt(s, p, text, 0); } }
    forall p: nat, sp ensures SkipLaw(r, s, p, sp) {
      if Matches(s, p, sp) && AllSpaces(sp) && !IsSpace(At(s, p + |sp|)) { SkipText(s, p, sp); }
    }
    forall p: nat, v, next: nat ensures SpacesLaw(r, s, p, v, next) { SpacesObey(s, p, v, next); }
    forall p: nat, v, indent ensures LeafLaw(r, s, p, v, indent) { LeafObeys(s, p, v, indent); }
    forall p: nat, acc, v, next: nat, w, end: nat
      ensures ItemsLaw(r, s, p, acc, v, next, w, end)
    {
      ItemsObey(s, p, acc, v, next, w, end);
    }
    forall p: nat, v, end: nat ensures ArrayLaw(r, s, p, v, end) { ArrayObeys(s, p, v, end); }
    forall p: nat, sp, quoted, key, sep
      ensures KeyLaw(r, s, p, sp, quoted, key, sep)
    {
      KeyObeys(s, p, sp, quoted, key, sep);
    }
    forall p: nat, acc, key, start: nat, v, next: nat, w,
      end: nat ensures EntriesLaw(r, s, p, acc, key, start, v, next, w, end) {
      EntriesObey(s, p, acc, key, start, v, next, w, end);
    }
    forall p: nat, acc, key, start: nat, v, next: nat ensures LastEntryLaw(r, s, p, acc, key, start, v, next) {
      LastEntryObeys(s, p, acc, key, start, v, next);
    }
    forall p: nat, v, end: nat ensures ObjectLaw(r, s, p, v, end) { ObjectObeys(s, p, v, end); }
  }

  // ----- arrays -----

  lemma ItemsUnfold(v: Value, k: nat, indent: int)
    requires v.Array? && k < |v.items| && indent >= -1
    ensures ItemsFrom(v, k, indent) == Indent(Deeper(indent))
      + (Body(v.items[k], Deeper(indent)) + (CommaUnless(k + 1 == |v.items|) + ItemsFrom(v, k + 1, indent)))
  {
  }

  /** The texts of item k: spaces, the item, a comma unless it is the last, the rest. */
  ghost predicate ItemTexts(r: Reader, v: Value, k: nat, indent: int, p: nat, sp: Bytes, body: Bytes, comma: Bytes,
      rest: Bytes)
    requires v.Array? && k < |v.items| && indent >= -1
  {
    && sp == Indent(Deeper(indent)) && body == Body(v.items[k], Deeper(indent))
    && comma == CommaUnless(k + 1 == |v.items|) && rest == ItemsFrom(v, k + 1, indent)
    && r.at(p, sp) && r.at(p + |sp|, body)
    && r.at(p + |sp| + |body|, comma) && r.at(p + |sp| + |body| + |comma|, rest)
    && |ItemsFrom(v, k, indent)| == |sp| + |body| + |comma| + |rest|
  }

  lemma ItemsParts(r: Reader, v: Value, k: nat, indent: int, s: Bytes, p: nat)
    returns (sp: Bytes, body: Bytes, comma: Bytes, rest: Bytes)
    requires Obeys(r, s)
    requires v.Array? && k < |v.items| && indent >= -1 && r.at(p, ItemsFrom(v, k, indent))
    ensures ItemTexts(r, v, k, indent, p, sp, body, comma, rest)
  {
    sp, body := Indent(Deeper(indent)), Body(v.items[k], Deeper(indent));
    comma, rest := CommaUnless(k + 1 == |v.items|), ItemsFrom(v, k + 1, indent);
    ItemsUnfold(v, k, indent);
    FourParts(r, s, p, sp, body, comma, rest);
  }

  lemma FourParts(r: Reader, s: Bytes, p: nat, a: Bytes, b: Bytes, c: Bytes, d: Bytes)
    requires Obeys(r, s)
    requires r.at(p, a + (b + (c + d)))
    ensures r.at(p, a) && r.at(p + |a|, b) && r.at(p + |a| + |b|, c) && r.at(p + |a| + |b| + |c|, d)
  {
    assert AppendLaw(r, p, a, b + (c + d));
    assert AppendLaw(r, p + |a|, b, c + d);
    assert AppendLaw(r, p + |a| + |b|, c, d);
  }

  /** After an element: a comma, or spaces and the closing bracket. */
  lemma AfterElement(r: Reader, s: Bytes, p: nat, last: bool, rest: Bytes, indent: int, close: Byte)
    requires Obeys(r, s)
    requires indent >= -1 && !IsSpace(close) && !IsNumberByte(close)
    requires r.at(p, CommaUnless(last)) && r.at(p + |CommaUnless(last)|, rest)
    requires last ==> rest == Indent(indent) + [close]
    ensures Ends(s, p)
    ensures !last ==> SkipWs(s, p) == p && At(s, p) == Comma
    ensures last ==> SkipWs(s, p) + 1 == p + |rest| && At(s, SkipWs(s, p)) == close
  {
    if last {
      CloseText(r, s, p, indent, close);
    } else {
      assert FirstLaw(r, s, p, [Comma]);
      SkipTo(s, p, p);
    }
  }

  /** The closing bracket after the last element. */
  lemma CloseText(r: Reader, s: Bytes, p: nat, indent: int, c: Byte)
    requires Obeys(r, s)
    requires indent >= -1 && r.at(p, Indent(indent) + [c]) && !IsSpace(c) && !IsNumberByte(c)
    ensures SkipWs(s, p) == p + |Indent(indent)| && At(s, p + |Indent(indent)|) == c && Ends(s, p)
  {
    assert AppendLaw(r, p, Indent(indent), [c]);
    assert FirstLaw(r, s, p + |Indent(indent)|, [c]);
    IndentIsSpaces(indent);
    assert SkipLaw(r, s, p, Indent(indent));
    if Indent(indent) != [] { assert FirstLaw(r, s, p, Indent(indent)); }
  }

  /** Spaces before a text that starts with none: the value is read past them. */
  lemma ElementReads(r: Reader, s: Bytes, p: nat, sp: Bytes, body: Bytes, v: Value, next: nat)
    requires Obeys(r, s)
    requires AllSpaces(sp) && r.at(p, sp) && r.at(p + |sp|, body) && body != [] && !IsSpace(body[0])
    requires r.value(p + |sp|, v, next)
    ensures p <= |s| && r.value(p, v, next) && At(s, SkipWs(s, p)) == body[0]
  {
    assert FirstLaw(r, s, p + |sp|, body);
    assert SkipLaw(r, s, p, sp);
    assert SpacesLaw(r, s, p, v, next);
  }

  /** Where item k ends. */
  ghost function ItemEnd(v: Value, k: nat, indent: int, p: nat): nat
    requires v.Array? && k < |v.items| && indent >= -1
  {
    p + |Indent(Deeper(indent))| + |Body(v.items[k], Deeper(indent))|
  }

  lemma ItemEnds(r: Reader, v: Value, k: nat, indent: int, s: Bytes, p: nat)
    requires Obeys(r, s)
    requires v.Array? && k < |v.items| && indent >= -1 && r.at(p, ItemsFrom(v, k, indent))
    ensures Ends(s, ItemEnd(v, k, indent, p))
  {
    AfterItem(r, v, k, indent, s, p);
  }

  lemma ItemText(r: Reader, v: Value, k: nat, indent: int, s: Bytes, p: nat)
    requires Obeys(r, s)
    requires v.Array? && k < |v.items| && indent >= -1 && r.at(p, ItemsFrom(v, k, indent))
    ensures r.at(p + |Indent(Deeper(indent))|, Body(v.items[k], Deeper(indent)))
  {
    var sp, body, comma, rest := ItemsParts(r, v, k, indent, s, p);
  }

  lemma {:induction false} ItemBody(r: Reader, v: Value, k: nat, indent: int, s: Bytes, p: nat)
    requires Obeys(r, s)
    requires WellFormed(v) && v.Array? && k < |v.items| && indent >= -1 && r.at(p, ItemsFrom(v, k, indent))
    ensures r.value(p + |Indent(Deeper(indent))|, v.items[k], ItemEnd(v, k, indent, p))
    decreases v, 0
  {
    ItemEnds(r, v, k, indent, s, p);
    ItemText(r, v, k, indent, s, p);
    BodyRoundTrip(r, v.items[k], Deeper(indent), s, p + |Indent(Deeper(indent))|, ItemEnd(v, k, indent, p));
  }

  lemma ItemPieces(r: Reader, v: Value, k: nat, indent: int, s: Bytes, p: nat) returns (sp: Bytes, body: Bytes)
    requires Obeys(r, s)
    requires WellFormed(v) && v.Array? && k < |v.items| && indent >= -1 && r.at(p, ItemsFrom(v, k, indent))
    ensures AllSpaces(sp) && r.at(p, sp) && |sp| == |Indent(Deeper(indent))|
    ensures r.at(p + |sp|, body) && body != [] && !IsSpace(body[0]) && body[0] != CloseBracket
  {
    var comma, rest;
    sp, body, comma, rest := ItemsParts(r, v, k, indent, s, p);
    IndentIsSpaces(Deeper(indent));
    BodyStart(v.items[k], Deeper(indent));
  }

  /** Item k is read. */
  lemma {:induction false} ItemHere(r: Reader, v: Value, k: nat, indent: int, s: Bytes, p: nat)
    requires Obeys(r, s)
    requires WellFormed(v) && v.Array? && k < |v.items| && indent >= -1 && r.at(p, ItemsFrom(v, k, indent))
    ensures p <= |s| && r.value(p, v.items[k], ItemEnd(v, k, indent, p)) && At(s, SkipWs(s, p)) != CloseBracket
    decreases v, 1
  {
    ItemBody(r, v, k, indent, s, p);
    var sp, body := ItemPieces(r, v, k, indent, s, p);
    ElementReads(r, s, p, sp, body, v.items[k], ItemEnd(v, k, indent, p));
  }

  /** What follows item k. */
  lemma AfterItem(r: Reader, v: Value, k: nat, indent: int, s: Bytes, p: nat)
    requires Obeys(r, s)
    requires v.Array? && k < |v.items| && indent >= -1 && r.at(p, ItemsFrom(v, k, indent))
    ensures var after := ItemEnd(v, k, indent, p);
      && Ends(s, after)
      && (k + 1 < |v.items| ==> SkipWs(s, after) == after && At(s, after) == Comma)
      && (k + 1 < |v.items| ==> r.at(after + 1, ItemsFrom(v, k + 1, indent)))
      && (k + 1 < |v.items| ==> |ItemsFrom(v, k, indent)| == after + 1 - p + |ItemsFrom(v, k + 1, indent)|)
      && (k + 1 == |v.items| ==>
        At(s, SkipWs(s, after)) == CloseBracket && SkipWs(s, after) + 1 == p + |ItemsFrom(v, k, indent)|)
  {
    var sp, body, comma, rest := ItemsParts(r, v, k, indent, s, p);
    AfterElement(r, s, p + |sp| + |body|, k + 1 == |v.items|, rest, indent, CloseBracket);
  }

  lemma ItemsApply(r: Reader, s: Bytes, p: nat, acc: seq<Value>, item: Value, after: nat, last: bool, v: Value,
      end: nat)
    requires ItemsLaw(r, s, p, acc, item, after, v, end) && p <= |s| && r.value(p, item, after)
    requires !last ==> SkipWs(s, after) == after && At(s, after) == Comma && r.items(after + 1, acc + [item], v, end)
    requires last ==> At(s, SkipWs(s, after)) == CloseBracket && SkipWs(s, after) + 1 == end && v == Array(acc + [item])
    ensures r.items(p, acc, v, end)
  {
  }

  lemma ItemsConclude(r: Reader, s: Bytes, p: nat, acc: seq<Value>, more: seq<Value>, item: Value, after: nat,
      last: bool, v: Value, end: nat)
    requires Obeys(r, s) && p <= |s| && r.value(p, item, after) && more == acc + [item]
    requires !last ==> SkipWs(s, after) == after && At(s, after) == Comma && r.items(after + 1, more, v, end)
    requires last ==> At(s, SkipWs(s, after)) == CloseBracket && SkipWs(s, after) + 1 == end && v == Array(more)
    ensures r.items(p, acc, v, end)
  {
    ItemsApply(r, s, p, acc, item, after, last, v, end);
  }

  /** Item k read, with where it ends and what follows. */
  lemma {:induction false} ItemStep(r: Reader, v: Value, k: nat, indent: int, s: Bytes, p: nat,
      end: nat) returns (after: nat)
    requires Obeys(r, s)
    requires WellFormed(v) && v.Array? && k < |v.items| && indent >= -1 && r.at(p, ItemsFrom(v, k, indent))
    requires end == p + |ItemsFrom(v, k, indent)|
    ensures p <= |s| && r.value(p, v.items[k], after)
    ensures k + 1 < |v.items| ==> SkipWs(s, after) == after && At(s, after) == Comma
    ensures k + 1 < |v.items| ==>
      r.at(after + 1, ItemsFrom(v, k + 1, indent)) && end == after + 1 + |ItemsFrom(v, k + 1, indent)|
    ensures k + 1 == |v.items| ==> At(s, SkipWs(s, after)) == CloseBracket && SkipWs(s, after) + 1 == end
    decreases v, 2
  {
    ItemHere(r, v, k, indent, s, p);
    AfterItem(r, v, k, indent, s, p);
    after := ItemEnd(v, k, indent, p);
  }

  lemma ItemPrefix(v: Value, k: nat)
    requires v.Array? && k < |v.items|
    ensures v.items[..k + 1] == v.items[..k] + [v.items[k]]
    ensures k + 1 == |v.items| ==> Array(v.items[..k + 1]) == v
  {
    if k + 1 == |v.items| { assert v.items[..k + 1] == v.items; }
  }

  lemma {:induction false} ItemsRoundTrip(r: Reader, v: Value, k: nat, indent: int, s: Bytes, p: nat, end: nat)
    requires Obeys(r, s)
    requires WellFormed(v) && v.Array? && k < |v.items| && indent >= -1 && r.at(p, ItemsFrom(v, k, indent))
    requires end == p + |ItemsFrom(v, k, indent)|
    ensures r.items(p, v.items[..k], v, end)
    decreases v, 3, |v.items| - k
  {
    var after := ItemStep(r, v, k, indent, s, p, end);
    ItemPrefix(v, k);
    if k + 1 < |v.items| { ItemsRoundTrip(r, v, k + 1, indent, s, after + 1, end); }
    ItemsConclude(r, s, p, v.items[..k], v.items[..k + 1], v.items[k], after, k + 1 == |v.items|, v, end);
  }

  lemma EmptyClose(r: Reader, s: Bytes, p: nat, c: Byte)
    requires Obeys(r, s)
    requires r.at(p, [] + [c]) && !IsSpace(c)
    ensures p < |s| && SkipWs(s, p) == p && At(s, p) == c
  {
    assert [] + [c] == [c];
    assert FirstLaw(r, s, p, [c]);
    SkipTo(s, p, p);
  }

  /** An opening byte and what follows it. */
  lemma Opened(r: Reader, s: Bytes, p: nat, c: Byte, rest: Bytes)
    requires Obeys(r, s) && r.at(p, [c] + rest)
    ensures p < |s| && At(s, p) == c && r.at(p + 1, rest)
  {
    assert AppendLaw(r, p, [c], rest);
    assert FirstLaw(r, s, p, [c]);
  }

  lemma EmptyArray(r: Reader, s: Bytes, p: nat)
    requires Obeys(r, s) && p < |s| && At(s, p) == OpenBracket && r.at(p + 1, [] + [CloseBracket])
    ensures r.value(p, Array([]), p + 2)
  {
    EmptyClose(r, s, p + 1, CloseBracket);
    assert ArrayLaw(r, s, p, Array([]), p + 2);
  }

  lemma ArrayConclude(r: Reader, s: Bytes, p: nat, v: Value, end: nat)
    requires Obeys(r, s) && p < |s| && At(s, p) == OpenBracket && At(s, SkipWs(s, p + 1)) != CloseBracket
    requires r.items(p + 1, [], v, end)
    ensures r.value(p, v, end)
  {
    assert ArrayLaw(r, s, p, v, end);
  }

  lemma ArrayText(v: Value, indent: int)
    requires v.Array? && indent >= -1
    ensures Body(v, indent) == [OpenBracket] + ItemsFrom(v, 0, indent)
    ensures v.items == [] ==> ItemsFrom(v, 0, indent) == [] + [CloseBracket] && v == Array([])
  {
  }

  lemma {:induction false} ArrayRoundTrip(r: Reader, v: Value, indent: int, s: Bytes, p: nat)
    requires Obeys(r, s)
    requires WellFormed(v) && v.Array? && indent >= -1 && r.at(p, Body(v, indent))
    ensures r.value(p, v, p + |Body(v, indent)|)
    decreases v, 4, 1
  {
    var rest := ItemsFrom(v, 0, indent);
    ArrayText(v, indent);
    Opened(r, s, p, OpenBracket, rest);
    if v.items == [] { EmptyArray(r, s, p); } else { ArrayItems(r, v, indent, s, p, p + 1 + |rest|); }
  }

  lemma {:induction false} ArrayItems(r: Reader, v: Value, indent: int, s: Bytes, p: nat, end: nat)
    requires Obeys(r, s) && p < |s| && At(s, p) == OpenBracket
    requires WellFormed(v) && v.Array? && v.items != [] && indent >= -1 && r.at(p + 1, ItemsFrom(v, 0, indent))
    requires end == p + 1 + |ItemsFrom(v, 0, indent)|
    ensures r.value(p, v, end)
    decreases v, 4, 0
  {
    assert r.items(p + 1, [], v, end) by {
      ItemsRoundTrip(r, v, 0, indent, s, p + 1, end);
      assert v.items[..0] == [];
    }
    assert At(s, SkipWs(s, p + 1)) != CloseBracket by { ItemHere(r, v, 0, indent, s, p + 1); }
    ArrayConclude(r, s, p, v, end);
  }

  // ----- objects -----

  lemma EntriesUnfold(v: Value, k: nat, indent: int)
    requires v.Object? && k < |v.entries| && indent >= -1
    ensures EntriesFrom(v, k, indent) == EntryHead(v.entries[k].key, indent)
      + (Body(v.entries[k].value, Deeper(indent)) + (CommaUnless(k + 1 == |v.entries|) + EntriesFrom(v, k + 1, indent)))
  {
  }

  /** The texts of entry k: its head, its value, a comma unless it is the last, the rest. */
  ghost predicate EntryTexts(r: Reader, v: Value, k: nat, indent: int, p: nat, head: Bytes, body: Bytes, comma: Bytes,
      rest: Bytes)
    requires v.Object? && k < |v.entries| && indent >= -1
  {
    && head == EntryHead(v.entries[k].key, indent) && body == Body(v.entries[k].value, Deeper(indent))
    && comma == CommaUnless(k + 1 == |v.entries|) && rest == EntriesFrom(v, k + 1, indent)
    && r.at(p, head) && r.at(p + |head|, body)
    && r.at(p + |head| + |body|, comma) && r.at(p + |head| + |body| + |comma|, rest)
    && |EntriesFrom(v, k, indent)| == |head| + |body| + |comma| + |rest|
  }

  lemma EntriesParts(r: Reader, v: Value, k: nat, indent: int, s: Bytes, p: nat)
    returns (head: Bytes, body: Bytes, comma: Bytes, rest: Bytes)
    requires Obeys(r, s)
    requires v.Object? && k < |v.entries| && indent >= -1 && r.at(p, EntriesFrom(v, k, indent))
    ensures EntryTexts(r, v, k, indent, p, head, body, comma, rest)
  {
    head, body := EntryHead(v.entries[k].key, indent), Body(v.entries[k].value, Deeper(indent));
    comma, rest := CommaUnless(k + 1 == |v.entries|), EntriesFrom(v, k + 1, indent);
    EntriesUnfold(v, k, indent);
    FourParts(r, s, p, head, body, comma, rest);
  }

  /** A quoted key after spaces, the colon, a value after at most one space. */
  lemma KeyReads(r: Reader, s: Bytes, p: nat, sp: Bytes, quoted: Bytes, key: Bytes, sep: Bytes, body: Bytes, v: Value,
      keyEnd: nat, next: nat)
    requires Obeys(r, s) && keyEnd == p + |sp| + |quoted| + 1
    requires AllSpaces(sp) && r.at(p, sp) && r.at(p + |sp|, quoted) && quoted == Quoted(key)
    requires sep == [Colon] || sep == [Colon, Space]
    requires r.at(p + |sp| + |quoted|, sep) && r.at(p + |sp| + |quoted| + |sep|, body) && body != []
    requires !IsSpace(body[0])
    requires r.value(p + |sp| + |quoted| + |sep|, v, next)
    ensures At(s, SkipWs(s, p)) == Quote && r.key(p, key, keyEnd) && r.value(keyEnd, v, next)
  {
    var c := p + |sp| + |quoted|;
    assert KeyLaw(r, s, p, sp, quoted, key, sep);
    var gap: Bytes := sep[1..];
    assert sep == [Colon] + gap;
    assert AppendLaw(r, c, [Colon], gap);
    ElementReads(r, s, c + 1, gap, body, v, next);
  }

  /** Where the key of an entry has been read. */
  ghost function KeyEnd(key: Bytes, indent: int, p: nat): nat
    requires indent >= -1
  {
    p + |Indent(Deeper(indent))| + |Quoted(key)| + 1
  }

  /** A key not in the list goes last. */
  lemma {:induction false} PutNew(es: seq<Entry>, key: Bytes, v: Value)
    requires forall i :: 0 <= i < |es| ==> es[i].key != key
    ensures Put(es, key, v) == es + [Entry(key, v)]
  {
    if es != [] {
      PutNew(es[1..], key, v);
      assert es == [es[0]] + es[1..];
    }
  }

  lemma PutNext(es: seq<Entry>, k: nat)
    requires DistinctKeys(es) && k < |es|
    ensures Put(es[..k], es[k].key, es[k].value) == es[..k + 1]
  {
    PutNew(es[..k], es[k].key, es[k].value);
    assert es[..k] + [es[k]] == es[..k + 1];
  }

  /** Where entry k ends. */
  ghost function EntryEnd(v: Value, k: nat, indent: int, p: nat): nat
    requires v.Object? && k < |v.entries| && indent >= -1
  {
    p + |EntryHead(v.entries[k].key, indent)| + |Body(v.entries[k].value, Deeper(indent))|
  }

  /** What follows entry k. */
  lemma AfterEntry(r: Reader, v: Value, k: nat, indent: int, s: Bytes, p: nat)
    requires Obeys(r, s)
    requires v.Object? && k < |v.entries| && indent >= -1 && r.at(p, EntriesFrom(v, k, indent))
    ensures var after := EntryEnd(v, k, indent, p);
      && Ends(s, after)
      && (k + 1 < |v.entries| ==> SkipWs(s, after) == after && At(s, after) == Comma)
      && (k + 1 < |v.entries| ==> r.at(after + 1, EntriesFrom(v, k + 1, indent)))
      && (k + 1 < |v.entries| ==> |EntriesFrom(v, k, indent)| == after + 1 - p + |EntriesFrom(v, k + 1, indent)|)
      && (k + 1 == |v.entries| ==>
        At(s, SkipWs(s, after)) == CloseBrace && SkipWs(s, after) + 1 == p + |EntriesFrom(v, k, indent)|)
  {
    var head, body, comma, rest := EntriesParts(r, v, k, indent, s, p);
    AfterElement(r, s, p + |head| + |body|, k + 1 == |v.entries|, rest, indent, CloseBrace);
  }

  lemma HeadParts(r: Reader, s: Bytes, p: nat, key: Bytes, indent: int)
    returns (sp: Bytes, quoted: Bytes, sep: Bytes)
    requires Obeys(r, s)
    requires indent >= -1 && r.at(p, EntryHead(key, indent))
    ensures sp == Indent(Deeper(indent)) && quoted == Quoted(key) && sep == Separator(indent)
    ensures r.at(p, sp) && r.at(p + |sp|, quoted) && r.at(p + |sp| + |quoted|, sep)
    ensures |EntryHead(key, indent)| == |sp| + |quoted| + |sep|
  {
    sp, quoted, sep := Indent(Deeper(indent)), Quoted(key), Separator(indent);
    assert AppendLaw(r, p, sp, quoted + sep);
    assert AppendLaw(r, p + |sp|, quoted, sep);
  }

  lemma EntryEnds(r: Reader, v: Value, k: nat, indent: int, s: Bytes, p: nat)
    requires Obeys(r, s)
    requires v.Object? && k < |v.entries| && indent >= -1 && r.at(p, EntriesFrom(v, k, indent))
    ensures Ends(s, EntryEnd(v, k, indent, p))
  {
    AfterEntry(r, v, k, indent, s, p);
  }

  lemma EntryText(r: Reader, v: Value, k: nat, indent: int, s: Bytes, p: nat)
    requires Obeys(r, s)
    requires v.Object? && k < |v.entries| && indent >= -1 && r.at(p, EntriesFrom(v, k, indent))
    ensures r.at(p + |EntryHead(v.entries[k].key, indent)|, Body(v.entries[k].value, Deeper(indent)))
  {
    var head, body, comma, rest := EntriesParts(r, v, k, indent, s, p);
  }

  lemma {:induction false} EntryBody(r: Reader, v: Value, k: nat, indent: int, s: Bytes, p: nat)
    requires Obeys(r, s)
    requires WellFormed(v) && v.Object? && k < |v.entries| && indent >= -1 && r.at(p, EntriesFrom(v, k, indent))
    ensures r.value(p + |EntryHead(v.entries[k].key, indent)|, v.entries[k].value, EntryEnd(v, k, indent, p))
    decreases v, 0
  {
    var e, start, after := v.entries[k], p + |EntryHead(v.entries[k].key, indent)|, EntryEnd(v, k, indent, p);
    assert Ends(s, after) by { EntryEnds(r, v, k, indent, s, p); }
    assert r.at(start, Body(e.value, Deeper(indent))) by { EntryText(r, v, k, indent, s, p); }
    EntryWellFormed(v, k);
    BodyRoundTrip(r, e.value, Deeper(indent), s, start, after);
  }

  lemma EntryWellFormed(v: Value, k: nat)
    requires WellFormed(v) && v.Object? && k < |v.entries|
    ensures WellFormed(v.entries[k].value)
  {
  }

  /** The texts of entry k up to the end of its value. */
  lemma EntryPieces(r: Reader, v: Value, k: nat, indent: int, s: Bytes, p: nat)
    returns (sp: Bytes, quoted: Bytes, sep: Bytes, body: Bytes)
    requires Obeys(r, s)
    requires WellFormed(v) && v.Object? && k < |v.entries| && indent >= -1 && r.at(p, EntriesFrom(v, k, indent))
    ensures AllSpaces(sp) && r.at(p, sp) && r.at(p + |sp|, quoted) && quoted == Quoted(v.entries[k].key)
    ensures (sep == [Colon] || sep == [Colon, Space]) && r.at(p + |sp| + |quoted|, sep)
    ensures r.at(p + |sp| + |quoted| + |sep|, body) && body != [] && !IsSpace(body[0])
    ensures KeyEnd(v.entries[k].key, indent, p) == p + |sp| + |quoted| + 1
    ensures p + |EntryHead(v.entries[k].key, indent)| == p + |sp| + |quoted| + |sep|
  {
    var head, comma, rest;
    head, body, comma, rest := EntriesParts(r, v, k, indent, s, p);
    sp, quoted, sep := HeadParts(r, s, p, v.entries[k].key, indent);
    IndentIsSpaces(Deeper(indent));
    BodyStart(v.entries[k].value, Deeper(indent));
  }

  /** Entry k is read: its key, then its value. */
  lemma {:induction false} EntryHere(r: Reader, v: Value, k: nat, indent: int, s: Bytes, p: nat)
    requires Obeys(r, s)
    requires WellFormed(v) && v.Object? && k < |v.entries| && indent >= -1 && r.at(p, EntriesFrom(v, k, indent))
    ensures var e := v.entries[k];
      && At(s, SkipWs(s, p)) == Quote && r.key(p, e.key, KeyEnd(e.key, indent, p))
      && r.value(KeyEnd(e.key, indent, p), e.value, EntryEnd(v, k, indent, p))
    decreases v, 1
  {
    var e := v.entries[k];
    EntryBody(r, v, k, indent, s, p);
    var sp, quoted, sep, body := EntryPieces(r, v, k, indent, s, p);
    KeyReads(r, s, p, sp, quoted, e.key, sep, body, e.value, KeyEnd(e.key, indent, p), EntryEnd(v, k, indent, p));
  }

  lemma EntriesApply(r: Reader, s: Bytes, p: nat, acc: seq<Entry>, key: Bytes, start: nat, value: Value, after: nat,
      last: bool, v: Value, end: nat)
    requires EntriesLaw(r, s, p, acc, key, start, value, after, v, end)
    requires LastEntryLaw(r, s, p, acc, key, start, value, after)
    requires r.key(p, key, start) && r.value(start, value, after)
    requires !last ==>
      SkipWs(s, after) == after && At(s, after) == Comma && r.entries(after + 1, Put(acc, key, value), v, end)
    requires last ==>
      At(s, SkipWs(s, after)) == CloseBrace && SkipWs(s, after) + 1 == end && v == Object(Put(acc, key, value))
    ensures r.entries(p, acc, v, end)
  {
  }

  lemma EntriesConclude(r: Reader, s: Bytes, p: nat, acc: seq<Entry>, more: seq<Entry>, e: Entry, start: nat,
      after: nat, last: bool, v: Value, end: nat)
    requires Obeys(r, s) && r.key(p, e.key, start) && r.value(start, e.value, after) && more == Put(acc, e.key, e.value)
    requires !last ==> SkipWs(s, after) == after && At(s, after) == Comma && r.entries(after + 1, more, v, end)
    requires last ==> At(s, SkipWs(s, after)) == CloseBrace && SkipWs(s, after) + 1 == end && v == Object(more)
    ensures r.entries(p, acc, v, end)
  {
    EntriesApply(r, s, p, acc, e.key, start, e.value, after, last, v, end);
  }

  /** Entry k read, with where its value starts and ends and what follows. */
  lemma {:induction false} EntryStep(r: Reader, v: Value, k: nat, indent: int, s: Bytes, p: nat,
      end: nat) returns (start: nat, after: nat)
    requires Obeys(r, s)
    requires WellFormed(v) && v.Object? && k < |v.entries| && indent >= -1 && r.at(p, EntriesFrom(v, k, indent))
    requires end == p + |EntriesFrom(v, k, indent)|
    ensures r.key(p, v.entries[k].key, start) && r.value(start, v.entries[k].value, after)
    ensures k + 1 < |v.entries| ==> SkipWs(s, after) == after && At(s, after) == Comma
    ensures k + 1 < |v.entries| ==>
      r.at(after + 1, EntriesFrom(v, k + 1, indent)) && end == after + 1 + |EntriesFrom(v, k + 1, indent)|
    ensures k + 1 == |v.entries| ==> At(s, SkipWs(s, after)) == CloseBrace && SkipWs(s, after) + 1 == end
    decreases v, 2, 0
  {
    EntryHere(r, v, k, indent, s, p);
    AfterEntry(r, v, k, indent, s, p);
    start, after := KeyEnd(v.entries[k].key, indent, p), EntryEnd(v, k, indent, p);
  }

  /** Entry k at p is read, and what follows it is the next entry or the end. */
  ghost predicate EntryRead(r: Reader, s: Bytes, es: seq<Entry>, k: nat, p: nat, end: nat, next: (nat, nat) -> bool,
      start: nat, after: nat)
    requires k < |es|
  {
    && r.key(p, es[k].key, start) && r.value(start, es[k].value, after)
    && (k + 1 < |es| ==> SkipWs(s, after) == after && At(s, after) == Comma && next(k + 1, after + 1))
    && (k + 1 == |es| ==> At(s, SkipWs(s, after)) == CloseBrace && SkipWs(s, after) + 1 == end)
  }

  ghost predicate Readable(r: Reader, s: Bytes, es: seq<Entry>, k: nat, p: nat, end: nat, next: (nat, nat) -> bool)
    requires k < |es|
  {
    exists start: nat, after: nat :: EntryRead(r, s, es, k, p, end, next, start, after)
  }

  lemma {:induction false} EntriesInduction(r: Reader, s: Bytes, es: seq<Entry>, k: nat, p: nat, v: Value, end: nat,
      here: (nat, nat) -> bool)
    requires Obeys(r, s) && DistinctKeys(es) && v == Object(es) && k < |es| && here(k, p)
    requires forall j: nat, q: nat :: j < |es| && here(j, q) ==> Readable(r, s, es, j, q, end, here)
    ensures r.entries(p, es[..k], v, end)
    decreases |es| - k
  {
    assert Readable(r, s, es, k, p, end, here);
    var start: nat, after: nat :| EntryRead(r, s, es, k, p, end, here, start, after);
    if k + 1 < |es| { EntriesInduction(r, s, es, k + 1, after + 1, v, end, here); }
    EntriesFollow(r, s, p, es, k, start, after, v, end);
  }

  /** The text of the entries from k on, at q and up to the end. */
  ghost function EntriesAt(r: Reader, v: Value, indent: int, end: nat): (nat, nat) -> bool
    requires v.Object? && indent >= -1
  {
    (k: nat, q: nat) =>
      k < |v.entries| && r.at(q, EntriesFrom(v, k, indent)) && end == q + |EntriesFrom(v, k, indent)|
  }

  lemma {:induction false} EntryReadable(r: Reader, v: Value, indent: int, s: Bytes, k: nat, q: nat, end: nat)
    requires Obeys(r, s) && WellFormed(v) && v.Object? && k < |v.entries| && indent >= -1
    requires EntriesAt(r, v, indent, end)(k, q)
    ensures Readable(r, s, v.entries, k, q, end, EntriesAt(r, v, indent, end))
    decreases v, 2, 1
  {
    var start, after := EntryStep(r, v, k, indent, s, q, end);
    assert EntryRead(r, s, v.entries, k, q, end, EntriesAt(r, v, indent, end), start, after);
  }

  lemma {:induction false} EntriesRoundTrip(r: Reader, v: Value, indent: int, s: Bytes, p: nat, end: nat)
    requires Obeys(r, s) && WellFormed(v) && v.Object? && v.entries != [] && indent >= -1
    requires EntriesAt(r, v, indent, end)(0, p)
    ensures r.entries(p, [], v, end)
    decreases v, 3
  {
    var here := EntriesAt(r, v, indent, end);
    forall k: nat, q: nat | k < |v.entries| && here(k, q) ensures Readable(r, s, v.entries, k, q, end, here) {
      EntryReadable(r, v, indent, s, k, q, end);
    }
    EntriesInduction(r, s, v.entries, 0, p, v, end, here);
    assert v.entries[..0] == [];
  }

  /** Entry k and what is read after it. */
  lemma EntriesFollow(r: Reader, s: Bytes, p: nat, es: seq<Entry>, k: nat, start: nat, after: nat, v: Value, end: nat)
    requires Obeys(r, s) && DistinctKeys(es) && k < |es| && v == Object(es)
    requires r.key(p, es[k].key, start) && r.value(start, es[k].value, after)
    requires k + 1 < |es| ==> SkipWs(s, after) == after && At(s, after) == Comma
    requires k + 1 < |es| ==> r.entries(after + 1, es[..k + 1], v, end)
    requires k + 1 == |es| ==> At(s, SkipWs(s, after)) == CloseBrace && SkipWs(s, after) + 1 == end
    ensures r.entries(p, es[..k], v, end)
  {
    PutNext(es, k);
    if k + 1 == |es| { assert es[..k + 1] == es; }
    EntriesConclude(r, s, p, es[..k], es[..k + 1], es[k], start, after, k + 1 == |es|, v, end);
  }

  lemma EmptyObject(r: Reader, s: Bytes, p: nat)
    requires Obeys(r, s) && p < |s| && At(s, p) == OpenBrace && r.at(p + 1, [] + [CloseBrace])
    ensures r.value(p, Object([]), p + 2)
  {
    EmptyClose(r, s, p + 1, CloseBrace);
    assert ObjectLaw(r, s, p, Object([]), p + 2);
  }

  lemma ObjectConclude(r: Reader, s: Bytes, p: nat, v: Value, end: nat)
    requires Obeys(r, s) && p < |s| && At(s, p) == OpenBrace && At(s, SkipWs(s, p + 1)) != CloseBrace
    requires r.entries(p + 1, [], v, end)
    ensures r.value(p, v, end)
  {
    assert ObjectLaw(r, s, p, v, end);
  }

  lemma ObjectText(v: Value, indent: int)
    requires v.Object? && indent >= -1
    ensures Body(v, indent) == [OpenBrace] + EntriesFrom(v, 0, indent)
    ensures v.entries == [] ==> EntriesFrom(v, 0, indent) == [] + [CloseBrace] && v == Object([])
  {
  }

  lemma {:induction false} ObjectRoundTrip(r: Reader, v: Value, indent: int, s: Bytes, p: nat)
    requires Obeys(r, s)
    requires WellFormed(v) && v.Object? && indent >= -1 && r.at(p, Body(v, indent))
    ensures r.value(p, v, p + |Body(v, indent)|)
    decreases v, 4, 1
  {
    var rest := EntriesFrom(v, 0, indent);
    ObjectText(v, indent);
    Opened(r, s, p, OpenBrace, rest);
    if v.entries == [] { EmptyObject(r, s, p); } else { ObjectEntries(r, v, indent, s, p, p + 1 + |rest|); }
  }

  lemma {:induction false} ObjectEntries(r: Reader, v: Value, indent: int, s: Bytes, p: nat, end: nat)
    requires Obeys(r, s) && p < |s| && At(s, p) == OpenBrace
    requires WellFormed(v) && v.Object? && v.entries != [] && indent >= -1 && r.at(p + 1, EntriesFrom(v, 0, indent))
    requires end == p + 1 + |EntriesFrom(v, 0, indent)|
    ensures r.value(p, v, end)
    decreases v, 4, 0
  {
    EntriesRoundTrip(r, v, indent, s, p + 1, end);
    assert At(s, SkipWs(s, p + 1)) == Quote by { EntryHere(r, v, 0, indent, s, p + 1); }
    ObjectConclude(r, s, p, v, end);
  }

  // ----- the theorem -----

  /** A printed value at any position of any text is parsed to that value and its end. */
  lemma {:induction false} BodyRoundTrip(r: Reader, v: Value, indent: int, s: Bytes, p: nat, end: nat)
    requires Obeys(r, s)
    requires WellFormed(v) && indent >= -1 && r.at(p, Body(v, indent)) && end == p + |Body(v, indent)| && Ends(s, end)
    ensures r.value(p, v, end)
    decreases v, 5, 0
  {
    match v
    case Null => assert LeafLaw(r, s, p, v, indent);
    case Bool(_) => assert LeafLaw(r, s, p, v, indent);
    case Int(_) => assert LeafLaw(r, s, p, v, indent);
    case Str(_) => assert LeafLaw(r, s, p, v, indent);
    case Array(_) => ArrayRoundTrip(r, v, indent, s, p);
    case Object(_) => ObjectRoundTrip(r, v, indent, s, p);
  }

  /** Parsing the serialisation of any value, compact or prettified, returns the value. */
  lemma RoundTrip(v: Value, prettify: bool)
    requires WellFormed(v)
    ensures ParseValue(Serialize(v, prettify), 0) == Ok(v, |Body(v, if prettify then 0 else -1)|)
  {
    var indent := if prettify then 0 else -1;
    var s, body := Serialize(v, prettify), Body(v, indent);
    assert Matches(s, 0, body);
    assert At(s, |body|) == if prettify then NewLine as int else -1;
    ParserObeys(s);
    BodyRoundTrip(ReaderOf(s), v, indent, s, 0, |body|);
  }

  // ----- code points -----

  /** The code point that UTF-8 bytes encode. */
  function Decode(b: Bytes): int
    requires 1 <= |b| <= 4
  {
    var a: int := b[0];
    if |b| == 1 then a
    else if |b| == 2 then (a - 0xc0) * 64 + Low(b, 1)
    else if |b| == 3 then (a - 0xe0) * 4096 + Low(b, 1) * 64 + Low(b, 2)
    else (a - 0xf0) * 262144 + Low(b, 1) * 4096 + Low(b, 2) * 64 + Low(b, 3)
  }

  function Low(b: Bytes, i: nat): int
    requires i < |b|
  {
    var x: int := b[i];
    x - 0x80
  }

  /** The bytes written for an escape are the UTF-8 encoding of its code point, in the shortest form. */
  lemma Utf8Encodes(u: int)
    requires 0 <= u < 0x110000
    ensures Decode(Utf8(u)) == u
    ensures |Utf8(u)| == if u < 0x80 then 1 else if u < 0x800 then 2 else if u < 0x10000 then 3 else 4
  {
    DivDiv(u, 64, 64);
    DivDiv(u, 4096, 64);
    var a, b, c := u / 64, u / 4096, u / 262144;
    assert u == a * 64 + u % 64 && a == b * 64 + a % 64 && b == c * 64 + b % 64;
    if 0x80 <= u < 0x800 {
      assert Low(Utf8(u), 1) == u % 64;
    } else if 0x800 <= u < 0x10000 {
      assert Low(Utf8(u), 1) == a % 64 && Low(Utf8(u), 2) == u % 64;
    } else if u >= 0x10000 {
      assert Low(Utf8(u), 1) == b % 64 && Low(Utf8(u), 2) == a % 64 && Low(Utf8(u), 3) == u % 64;
    }
  }
}
