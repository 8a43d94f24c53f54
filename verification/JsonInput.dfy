/**
 The lazy cursor and the recursive-descent parser of 3rdparty/picojson/picojson.h,
 proved against the parser function of JsonText; and object_with_ordered_keys.
 */
module JsonInput {
  import opened JsonText
  import opened JsonRoundTrip

  /** The input: `consumed` says that the byte under the cursor has been handed out. */
  class Input {
    const text: Bytes
    var cur: nat
    var consumed: bool
    var line: nat

    ghost predicate Valid()
      reads this
    {
      cur <= |text| && (consumed ==> cur < |text|)
    }

    /** The plain position the cursor stands for. */
    ghost function Pos(): nat
      reads this
    {
      if consumed then cur + 1 else cur
    }

    constructor (text: Bytes)
      ensures Valid() && Pos() == 0 && this.text == text
    {
      this.text := text;
      cur, consumed, line := 0, false, 1;
    }

    /** getc: the byte at the position, which advances; -1 at the end, where it stays. */
    method Getc() returns (c: int)
      requires Valid()
      modifies this
      ensures Valid() && c == At(text, old(Pos()))
      ensures Pos() == if c == -1 then old(Pos()) else old(Pos()) + 1
      ensures consumed == (c != -1)
    {
      if consumed {
        if text[cur] == NewLine { line := line + 1; }
        cur := cur + 1;
      }
      if cur == |text| {
        consumed := false;
        return -1;
      }
      consumed := true;
      return text[cur];
    }

    /** ungetc: gives back the byte handed out last, if it was one. */
    method Ungetc()
      requires Valid()
      modifies this
      ensures Valid() && !consumed && Pos() == if old(consumed) then old(Pos()) - 1 else old(Pos())
    {
      consumed := false;
    }

    method SkipSpaces()
      requires Valid()
      modifies this
      ensures Valid() && Pos() == SkipWs(text, old(Pos())) && Pos() <= |text| && !consumed
    {
      while true
        invariant Valid() && SkipWs(text, Pos()) == SkipWs(text, old(Pos())) && Pos() <= |text|
        decreases |text| - Pos()
      {
        var c := Getc();
        if !IsSpace(c) {
          Ungetc();
          break;
        }
      }
    }

    /** expect: skip spaces and take the byte if it is the wanted one. */
    method ExpectByte(wanted: Byte) returns (found: bool)
      requires Valid()
      modifies this
      ensures Valid() && Pos() <= |text|
      ensures found <==> At(text, SkipWs(text, old(Pos()))) == wanted
      ensures Pos() == SkipWs(text, old(Pos())) + if found then 1 else 0
    {
      SkipSpaces();
      var c := Getc();
      if c != wanted {
        Ungetc();
        return false;
      }
      return true;
    }

    method MatchText(pattern: Bytes) returns (found: bool)
      requires Valid()
      modifies this
      ensures Valid() && (found <==> Matches(text, old(Pos()), pattern))
      ensures found ==> Pos() == old(Pos()) + |pattern|
    {
      ghost var start := Pos();
      for i := 0 to |pattern|
        invariant Valid() && Pos() == start + i
        invariant forall k :: 0 <= k < i ==> At(text, start + k) == pattern[k]
      {
        var c := Getc();
        if c != pattern[i] {
          Ungetc();
          return false;
        }
      }
      assert forall k :: 0 <= k < |pattern| ==> At(text, start + k) == pattern[k];
      if |pattern| > 0 { assert At(text, start + (|pattern| - 1)) == pattern[|pattern| - 1]; }
      return true;
    }

    method ParseQuadHex() returns (r: int)
      requires Valid()
      modifies this
      ensures Valid() && r == QuadHex(text, old(Pos())) && (r != -1 ==> Pos() == old(Pos()) + 4)
    {
      ghost var p := Pos();
      r := 0;
      var i := 0;
      while i < 4
        invariant 0 <= i <= 4 && Valid() && Pos() == p + i && r == Hex(text, p, i) != -1
      {
        HexIsQuad(text, p);
        HexStays(text, p, i + 1);
        var c := Getc();
        if c == -1 { return -1; }
        var h := HexValue(c);
        if h == -1 {
          Ungetc();
          return -1;
        }
        r := r * 16 + h;
        i := i + 1;
      }
      HexIsQuad(text, p);
    }

    /** The second escape of a surrogate pair, -1 if there is none. */
    method ParseSecond() returns (w: int)
      requires Valid()
      modifies this
      ensures Valid()
      ensures w == SecondHalf(text, old(Pos())) && (w != -1 ==> Pos() == old(Pos()) + 6)
    {
      var c := Getc();
      if c != Backslash { Ungetc(); return -1; }
      c := Getc();
      if c != 117 { Ungetc(); return -1; }
      w := ParseQuadHex();
      if !(0xdc00 <= w <= 0xdfff) { w := -1; }
    }

    /** _parse_codepoint: the bytes are appended to `out`. */
    method ParseCodepoint(out: Bytes) returns (ok: bool, more: Bytes)
      requires Valid()
      modifies this
      ensures Valid() && (ok <==> Codepoint(text, old(Pos())).Ok?)
      ensures ok ==> more == out + Utf8(Codepoint(text, old(Pos())).value) && Pos() == Codepoint(text, old(Pos())).next
    {
      ghost var p := Pos();
      more := out;
      var u := ParseQuadHex();
      CodepointCases(text, p);
      if u == -1 { return false, more; }
      if 0xd800 <= u <= 0xdfff {
        if 0xdc00 <= u { return false, more; }
        var second := ParseSecond();
        if second == -1 { return false, more; }
        u := (u - 0xd800) * 1024 + (second - 0xdc00) + 0x10000;
      }
      ok, more := true, out + Utf8(u);
    }

    method ParseText() returns (ok: bool, out: Bytes)
      requires Valid()
      modifies this
      ensures Valid() && (ok <==> ParseString(text, old(Pos()), []).Ok?)
      ensures ok ==> out == ParseString(text, old(Pos()), []).value && Pos() == ParseString(text, old(Pos()), []).next
    {
      out := [];
      while true
        invariant Valid() && ParseString(text, Pos(), out) == ParseString(text, old(Pos()), [])
        decreases |text| - Pos()
      {
        var c := Getc();
        if c < 32 {
          Ungetc();
          return false, out;
        } else if c == Quote {
          return true, out;
        } else if c == Backslash {
          c := Getc();
          if c == -1 { return false, out; }
          if Unescape(c) != -1 {
            out := out + [Unescape(c)];
          } else if c == 117 {
            var ok1, more := ParseCodepoint(out);
            if !ok1 { return false, out; }
            out := more;
          } else {
            return false, out;
          }
        } else {
          out := out + [c];
        }
      }
    }

    method NumberText() returns (num: Bytes)
      requires Valid() && Pos() <= |text|
      modifies this
      ensures Valid() && Pos() == NumberEnd(text, old(Pos())) && num == text[old(Pos())..Pos()]
    {
      num := [];
      ghost var p := Pos();
      while true
        invariant Valid() && p <= Pos() <= |text| && num == text[p..Pos()]
        invariant NumberEnd(text, Pos()) == NumberEnd(text, p)
        decreases |text| - Pos()
      {
        var c := Getc();
        if !IsNumberByte(c) {
          Ungetc();
          break;
        }
        num := num + [c];
      }
    }
  }

  function SecondHalf(s: Bytes, p: nat): (w: int)
    ensures w == -1 || 0xdc00 <= w <= 0xdfff
  {
    if At(s, p) != Backslash || At(s, p + 1) != 117 then -1 else
      var w := QuadHex(s, p + 2);
      if 0xdc00 <= w <= 0xdfff then w else -1
  }

  lemma CodepointCases(s: Bytes, p: nat)
    ensures var u, w := QuadHex(s, p), SecondHalf(s, p + 4);
      Codepoint(s, p) ==
      if u == -1 then Fail
      else if !(0xd800 <= u <= 0xdfff) then Ok(u, p + 4)
      else if 0xdc00 <= u || w == -1 then Fail
      else Ok((u - 0xd800) * 1024 + (w - 0xdc00) + 0x10000, p + 10)
  {
  }

  /** The value of the first i hexadecimal digits, -1 if one is not a digit. */
  function Hex(s: Bytes, p: nat, i: nat): int {
    if i == 0 then 0 else
      var high, low := Hex(s, p, i - 1), HexValue(At(s, p + i - 1));
      if high == -1 || low == -1 then -1 else high * 16 + low
  }

  lemma {:induction false} HexStays(s: Bytes, p: nat, i: nat)
    requires i <= 4
    ensures Hex(s, p, i) == -1 ==> Hex(s, p, 4) == -1
    decreases 4 - i
  {
    if i < 4 { HexStays(s, p, i + 1); }
  }

  lemma HexIsQuad(s: Bytes, p: nat)
    ensures Hex(s, p, 4) == QuadHex(s, p)
  {
    HexNonNegative(s, p, 1);
    HexNonNegative(s, p, 2);
    HexNonNegative(s, p, 3);
    var a, b, c, d := HexValue(At(s, p)), HexValue(At(s, p + 1)), HexValue(At(s, p + 2)), HexValue(At(s, p + 3));
    assert Hex(s, p, 1) == if a == -1 then -1 else a;
    assert Hex(s, p, 2) == if a == -1 || b == -1 then -1 else a * 16 + b;
    assert Hex(s, p, 3) == if a == -1 || b == -1 || c == -1 then -1 else (a * 16 + b) * 16 + c;
  }

  lemma {:induction false} HexNonNegative(s: Bytes, p: nat, i: nat)
    ensures Hex(s, p, i) >= -1
  {
    if i > 0 { HexNonNegative(s, p, i - 1); }
  }

  // ----- recursive descent -----

  /** The method's result is that of the function, position included. */
  ghost predicate Agrees<T(!new)>(ok: bool, v: T, pos: nat, spec: Parsed<T>) {
    (ok <==> spec.Ok?) && (ok ==> spec == Ok(v, pos))
  }

  /** _parse with the default context. */
  method Parse(input: Input) returns (ok: bool, v: Value)
    requires input.Valid() && input.Pos() <= |input.text|
    modifies input
    ensures input.Valid() && Agrees(ok, v, input.Pos(), ParseValue(input.text, old(input.Pos())))
    ensures ok ==> old(input.Pos()) < input.Pos() <= |input.text|
    decreases |input.text| - input.Pos(), 0
  {
    ghost var p := input.Pos();
    input.SkipSpaces();
    var c := input.Getc();
    ok, v := false, Null;
    if c == 110 {
      ok := input.MatchText([117, 108, 108]);
    } else if c == 102 {
      ok := input.MatchText([97, 108, 115, 101]);
      v := Bool(false);
    } else if c == 116 {
      ok := input.MatchText([114, 117, 101]);
      v := Bool(true);
    } else if c == Quote {
      var out;
      ok, out := input.ParseText();
      v := Str(out);
    } else if c == OpenBracket {
      ok, v := ParseArrayFrom(input);
    } else if c == OpenBrace {
      ok, v := ParseObjectFrom(input);
    } else if 48 <= c <= 57 || c == 45 {
      input.Ungetc();
      var num := input.NumberText();
      var n := ParseInt(num);
      if n.Some? { ok, v := true, Int(n.value); }
    } else {
      input.Ungetc();
    }
  }

  lemma ItemsCases(s: Bytes, p: nat, acc: seq<Value>)
    requires p <= |s|
    ensures ParseItems(s, p, acc) == match ParseValue(s, p)
      case Fail => Fail
      case Ok(v, next) =>
        (var q := SkipWs(s, next);
        if At(s, q) == Comma then ParseItems(s, q + 1, acc + [v])
        else if At(s, q) == CloseBracket then Ok(Array(acc + [v]), q + 1)
        else Fail)
  {
  }

  /** A key and its value. */
  function MemberOf(s: Bytes, p: nat): Parsed<Entry>
    requires p <= |s|
  {
    match ParseKey(s, p)
    case Fail => Fail
    case Ok(key, start) =>
      match ParseValue(s, start)
      case Fail => Fail
      case Ok(v, next) => Ok(Entry(key, v), next)
  }

  lemma EntriesAfter(s: Bytes, p: nat, acc: seq<Entry>, e: Entry, next: nat, q: nat, list: seq<Entry>)
    requires p <= |s| && MemberOf(s, p) == Ok(e, next) && q == SkipWs(s, next) && list == Put(acc, e.key, e.value)
    ensures At(s, q) == Comma ==> q < |s| && ParseEntries(s, p, acc) == ParseEntries(s, q + 1, list)
    ensures At(s, q) == CloseBrace ==> ParseEntries(s, p, acc) == Ok(Object(list), q + 1)
    ensures At(s, q) != Comma && At(s, q) != CloseBrace ==> ParseEntries(s, p, acc).Fail?
  {
    var start := ParseKey(s, p).next;
    assert ParseKey(s, p) == Ok(e.key, start) && ParseValue(s, start) == Ok(e.value, next);
    if At(s, q) == Comma {
      CommaAfter(s, p, acc, e.key, start, e.value, next, q, list);
    } else {
      CloseAfter(s, p, acc, e.key, start, e.value, next, q, list);
    }
  }

  lemma CommaAfter(s: Bytes, p: nat, acc: seq<Entry>, key: Bytes, start: nat, v: Value, next: nat, q: nat,
      list: seq<Entry>)
    requires p <= |s| && ParseKey(s, p) == Ok(key, start) && ParseValue(s, start) == Ok(v, next)
    requires q == SkipWs(s, next) && list == Put(acc, key, v) && At(s, q) == Comma
    ensures q < |s| && ParseEntries(s, p, acc) == ParseEntries(s, q + 1, list)
  {
  }

  lemma CloseAfter(s: Bytes, p: nat, acc: seq<Entry>, key: Bytes, start: nat, v: Value, next: nat, q: nat,
      list: seq<Entry>)
    requires p <= |s| && ParseKey(s, p) == Ok(key, start) && ParseValue(s, start) == Ok(v, next)
    requires q == SkipWs(s, next) && list == Put(acc, key, v) && At(s, q) != Comma
    ensures ParseEntries(s, p, acc) == if At(s, q) == CloseBrace then Ok(Object(list), q + 1) else Fail
  {
  }

  lemma EntriesFail(s: Bytes, p: nat, acc: seq<Entry>)
    requires p <= |s| && MemberOf(s, p).Fail?
    ensures ParseEntries(s, p, acc).Fail?
  {
  }

  /** After an element: a comma, or the closing byte. */
  method CommaOrClose(input: Input, close: Byte) returns (comma: bool, closed: bool)
    requires input.Valid() && input.Pos() <= |input.text| && close != Comma
    modifies input
    ensures input.Valid() && input.Pos() <= |input.text|
    ensures var q := SkipWs(input.text, old(input.Pos()));
      && (comma <==> At(input.text, q) == Comma) && (closed <==> At(input.text, q) == close)
      && (comma || closed ==> input.Pos() == q + 1)
  {
    ghost var p := input.Pos();
    comma := input.ExpectByte(Comma);
    closed := false;
    if !comma {
      SkipAgain(input.text, p);
      closed := input.ExpectByte(close);
    }
  }

  lemma {:induction false} SkipAgain(s: Bytes, p: nat)
    ensures SkipWs(s, SkipWs(s, p)) == SkipWs(s, p)
    decreases |s| - p
  {
    if IsSpace(At(s, p)) { SkipAgain(s, p + 1); }
  }

  /** One round of the loop over the items: go on, or the result. */
  method ParseItem(input: Input, items: seq<Value>) returns (more: bool, ok: bool, result: seq<Value>)
    requires input.Valid() && input.Pos() <= |input.text|
    modifies input
    ensures input.Valid()
    ensures more ==> old(input.Pos()) < input.Pos() <= |input.text|
    ensures more ==> ParseItems(input.text, input.Pos(), result) == ParseItems(input.text, old(input.Pos()), items)
    ensures !more ==> Agrees(ok, Array(result), input.Pos(), ParseItems(input.text, old(input.Pos()), items))
    decreases |input.text| - input.Pos(), 1
  {
    ghost var s, p := input.text, input.Pos();
    var parsed, item := Parse(input);
    result := items;
    if !parsed {
      ItemFails(s, p, items);
      return false, false, items;
    }
    ghost var next := input.Pos();
    result := items + [item];
    more, ok := CommaOrClose(input, CloseBracket);
    ItemFollows(s, p, items, item, next);
  }

  lemma ItemFails(s: Bytes, p: nat, acc: seq<Value>)
    requires p <= |s| && ParseValue(s, p).Fail?
    ensures ParseItems(s, p, acc).Fail?
  {
    ItemsCases(s, p, acc);
  }

  lemma ItemFollows(s: Bytes, p: nat, acc: seq<Value>, v: Value, next: nat)
    requires p <= |s| && ParseValue(s, p) == Ok(v, next)
    ensures next <= |s|
    ensures var q := SkipWs(s, next);
      && (At(s, q) == Comma ==> q < |s| && ParseItems(s, p, acc) == ParseItems(s, q + 1, acc + [v]))
      && (At(s, q) == CloseBracket ==> ParseItems(s, p, acc) == Ok(Array(acc + [v]), q + 1))
      && (At(s, q) != Comma && At(s, q) != CloseBracket ==> ParseItems(s, p, acc).Fail?)
  {
    ItemsCases(s, p, acc);
  }

  method ParseArrayFrom(input: Input) returns (ok: bool, v: Value)
    requires input.Valid() && input.Pos() <= |input.text|
    modifies input
    ensures input.Valid() && Agrees(ok, v, input.Pos(), ParseArray(input.text, old(input.Pos())))
    decreases |input.text| - input.Pos(), 2
  {
    ghost var p := input.Pos();
    var items: seq<Value> := [];
    var closed := input.ExpectByte(CloseBracket);
    if closed { return true, Array([]); }
    ghost var start := input.Pos();
    while true
      invariant input.Valid() && p <= start <= input.Pos() <= |input.text|
      invariant ParseItems(input.text, input.Pos(), items) == ParseItems(input.text, start, [])
      decreases |input.text| - input.Pos()
    {
      var more;
      more, ok, items := ParseItem(input, items);
      if !more { return ok, Array(items); }
    }
  }

  /** The parser function goes on with `list` at the position, or has the result. */
  ghost predicate EntriesContinue(s: Bytes, p: nat, acc: seq<Entry>, more: bool, ok: bool, list: seq<Entry>, pos: nat)
    requires p <= |s|
  {
    if more then pos <= |s| && ParseEntries(s, pos, list) == ParseEntries(s, p, acc)
    else Agrees(ok, Object(list), pos, ParseEntries(s, p, acc))
  }

  lemma EntriesOutcome(s: Bytes, p: nat, acc: seq<Entry>, e: Entry, next: nat, list: seq<Entry>, more: bool,
      closed: bool, pos: nat)
    requires p <= |s| && MemberOf(s, p) == Ok(e, next) && list == Put(acc, e.key, e.value)
    requires var q := SkipWs(s, next);
      (more <==> At(s, q) == Comma) && (closed <==> At(s, q) == CloseBrace) && (more || closed ==> pos == q + 1)
    ensures EntriesContinue(s, p, acc, more, closed, list, pos)
  {
    EntriesAfter(s, p, acc, e, next, SkipWs(s, next), list);
  }

  method ParseEntry(input: Input, entries: seq<Entry>) returns (more: bool, ok: bool, result: seq<Entry>)
    requires input.Valid() && input.Pos() <= |input.text|
    modifies input
    ensures input.Valid() && (more ==> old(input.Pos()) < input.Pos() <= |input.text|)
    ensures EntriesContinue(input.text, old(input.Pos()), entries, more, ok, result, input.Pos())
    decreases |input.text| - input.Pos(), 2
  {
    ghost var p := input.Pos();
    var parsed, e := ParseMember(input);
    if !parsed {
      EntriesFail(input.text, p, entries);
      return false, false, entries;
    }
    result := Put(entries, e.key, e.value);
    ghost var next := input.Pos();
    more, ok := CommaOrClose(input, CloseBrace);
    EntriesOutcome(input.text, p, entries, e, next, result, more, ok, input.Pos());
  }

  method ParseMember(input: Input) returns (ok: bool, e: Entry)
    requires input.Valid() && input.Pos() <= |input.text|
    modifies input
    ensures input.Valid() && Agrees(ok, e, input.Pos(), MemberOf(input.text, old(input.Pos())))
    ensures ok ==> old(input.Pos()) < input.Pos() <= |input.text|
    decreases |input.text| - input.Pos(), 1
  {
    ghost var p := input.Pos();
    var found, key := ParseKeyFrom(input);
    if !found { return false, Entry([], Null); }
    var v;
    ok, v := Parse(input);
    e := Entry(key, v);
  }

  method ParseObjectFrom(input: Input) returns (ok: bool, v: Value)
    requires input.Valid() && input.Pos() <= |input.text|
    modifies input
    ensures input.Valid() && Agrees(ok, v, input.Pos(), ParseObject(input.text, old(input.Pos())))
    decreases |input.text| - input.Pos(), 3
  {
    ghost var p := input.Pos();
    var entries: seq<Entry> := [];
    var closed := input.ExpectByte(CloseBrace);
    if closed { return true, Object([]); }
    ghost var start := input.Pos();
    while true
      invariant input.Valid() && p <= start <= input.Pos() <= |input.text|
      invariant ParseEntries(input.text, input.Pos(), entries) == ParseEntries(input.text, start, [])
      decreases |input.text| - input.Pos()
    {
      var more;
      more, ok, entries := ParseEntry(input, entries);
      if !more { return ok, Object(entries); }
    }
  }

  method ParseKeyFrom(input: Input) returns (ok: bool, key: Bytes)
    requires input.Valid() && input.Pos() <= |input.text|
    modifies input
    ensures input.Valid() && Agrees(ok, key, input.Pos(), ParseKey(input.text, old(input.Pos())))
  {
    key := [];
    ok := input.ExpectByte(Quote);
    if !ok { return; }
    ok, key := input.ParseText();
    if !ok { return; }
    ok := input.ExpectByte(Colon);
  }

  /** Printing a value and parsing the text with the cursor returns the value. */
  method ParsePrinted(v: Value, prettify: bool) returns (ok: bool, r: Value)
    requires WellFormed(v)
    ensures ok && r == v
  {
    var input := new Input(Serialize(v, prettify));
    RoundTrip(v, prettify);
    ok, r := Parse(input);
  }

  // ----- objects with ordered keys -----

  /** object_with_ordered_keys: a map and the list of its keys in order of first insertion. */
  class OrderedObject<V(0)> {
    var table: map<Bytes, V>
    var keys: seq<Bytes>

    /** The list holds each key of the map once. */
    ghost predicate Valid()
      reads this
    {
      && (forall k :: k in table <==> k in keys)
      && (forall i, j :: 0 <= i < j < |keys| ==> keys[i] != keys[j])
    }

    constructor ()
      ensures Valid() && keys == []
    {
      table, keys := map[], [];
    }

    /**
     From a list: the first value of a key counts, every key is listed. The invariant holds exactly for lists without a
     repeated key.
     */
    constructor FromList(init: seq<(Bytes, V)>)
      ensures |keys| == |init| && (forall i :: 0 <= i < |init| ==> keys[i] == init[i].0)
      ensures (forall k :: k in table <==> k in keys)
      ensures forall i :: 0 <= i < |init| && (forall j :: 0 <= j < i ==> init[j].0 != init[i].0) ==>
        table[init[i].0] == init[i].1
      ensures Valid() <==> forall i, j :: 0 <= i < j < |init| ==> init[i].0 != init[j].0
    {
      var built: map<Bytes, V>, listed: seq<Bytes> := map[], [];
      for i := 0 to |init|
        invariant |listed| == i && (forall j :: 0 <= j < i ==> listed[j] == init[j].0)
        invariant (forall k :: k in built <==> k in listed)
        invariant forall j :: 0 <= j < i && (forall h :: 0 <= h < j ==> init[h].0 != init[j].0) ==>
          built[init[j].0] == init[j].1
      {
        if init[i].0 !in built {
          built := built[init[i].0 := init[i].1];
        } else {
          var j :| 0 <= j < |listed| && listed[j] == init[i].0;
        }
        listed := listed + [init[i].0];
      }
      table, keys := built, listed;
    }

    /** operator[] followed by an assignment: a new key goes last, a known key keeps its place. */
    method Set(key: Bytes, v: V)
      requires Valid()
      modifies this
      ensures Valid() && table == old(table)[key := v]
      ensures keys == if old(key in table) then old(keys) else old(keys) + [key]
    {
      if key !in table { keys := keys + [key]; }
      table := table[key := v];
    }

    /** insert: a known key keeps its value. */
    method Insert(key: Bytes, v: V) returns (inserted: bool)
      requires Valid()
      modifies this
      ensures Valid() && (inserted <==> old(key !in table))
      ensures table == if inserted then old(table)[key := v] else old(table)
      ensures keys == if inserted then old(keys) + [key] else old(keys)
    {
      inserted := key !in table;
      if inserted {
        keys := keys + [key];
        table := table[key := v];
      }
    }

    /** erase by key: the other keys keep their order. */
    method Erase(key: Bytes) returns (count: nat)
      requires Valid()
      modifies this
      ensures Valid() && table == old(table) - {key} && count == (if old(key in table) then 1 else 0)
      ensures count == 1 ==>
        exists i :: 0 <= i < |old(keys)| && old(keys)[i] == key && keys == old(keys)[..i] + old(keys)[i + 1..]
      ensures count == 0 ==> keys == old(keys)
    {
      if key !in table { return 0; }
      var i := 0;
      while i < |keys| && keys[i] != key
        invariant 0 <= i <= |keys| && key !in keys[..i]
      {
        assert keys[..i + 1] == keys[..i] + [keys[i]];
        i := i + 1;
      }
      assert keys[..|keys|] == keys;
      ghost var before := keys;
      table := table - {key};
      keys := keys[..i] + keys[i + 1..];
      forall k ensures k in table <==> k in keys {
        if k in before && k != key {
          var j :| 0 <= j < |before| && before[j] == k;
          if j < i { assert keys[j] == k; } else { assert keys[j - 1] == k; }
        }
      }
      count := 1;
    }
  }
}
