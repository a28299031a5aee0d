/**
 JSON values, the printer behind `JSON.stringify`, a parser for its output, and the canonicaliser
 `canonical` (scripts/action-operations-proof.ts), which prints while sorting keys.

 Strings are sequences of UTF-16 code units, as in JavaScript. A number is represented by the
 token `JSON.stringify` prints for it. An object is its own enumerable string-keyed properties
 in enumeration order.
 */
module CanonicalJson {
  import opened Sequences
  import opened Ordering

  type CodeUnit = int
  type Text = seq<CodeUnit>

  ghost predicate ValidText(s: Text) { forall i :: 0 <= i < |s| ==> 0 <= s[i] < 0x1_0000 }

  datatype Field = Field(key: Text, value: Json)

  datatype Json =
    | Null
    | Bool(b: bool)
    | Number(token: Text)
    | Str(text: Text)
    | Arr(items: seq<Json>)
    | Obj(fields: seq<Field>)

  function KeyOf(f: Field): seq<int> { f.key }

  /** What every value in the language satisfies: units have 16 bits, number tokens are numbers, keys are unique. */
  ghost predicate Valid(v: Json) {
    match v
    case Number(token) => token != [] && forall i :: 0 <= i < |token| ==> IsNumberUnit(token[i])
    case Str(text) => ValidText(text)
    case Arr(items) => forall i :: 0 <= i < |items| ==> Valid(items[i])
    case Obj(fields) =>
      Distinct(fields, KeyOf) && forall i :: 0 <= i < |fields| ==> ValidText(fields[i].key) && Valid(fields[i].value)
    case _ => true
  }

  // ---------------------------------------------------------------------------------------
  // Printing: JSON.stringify
  // ---------------------------------------------------------------------------------------

  const QUOTE: CodeUnit := 0x22
  const BACKSLASH: CodeUnit := 0x5C
  const COMMA: CodeUnit := 0x2C
  const COLON: CodeUnit := 0x3A
  const LBRACK: CodeUnit := 0x5B
  const RBRACK: CodeUnit := 0x5D
  const LBRACE: CodeUnit := 0x7B
  const RBRACE: CodeUnit := 0x7D
  const NULL: Text := [0x6E, 0x75, 0x6C, 0x6C]
  const TRUE: Text := [0x74, 0x72, 0x75, 0x65]
  const FALSE: Text := [0x66, 0x61, 0x6C, 0x73, 0x65]

  /** Digits, minus, plus, point and the exponent letters. */
  predicate IsNumberUnit(c: CodeUnit) {
    0x30 <= c <= 0x39 || c == 0x2D || c == 0x2B || c == 0x2E || c == 0x65 || c == 0x45
  }

  predicate IsHighSurrogate(c: CodeUnit) { 0xD800 <= c <= 0xDBFF }

  predicate IsLowSurrogate(c: CodeUnit) { 0xDC00 <= c <= 0xDFFF }

  function HexDigit(n: int): CodeUnit {
    if n < 10 then 0x30 + n else 0x57 + n
  }

  /** The letter of a two-character escape, or 0 when the unit has none. */
  function ShortEscape(c: CodeUnit): CodeUnit {
    if c == QUOTE || c == BACKSLASH then c
    else if c == 0x08 then 0x62
    else if c == 0x0C then 0x66
    else if c == 0x0A then 0x6E
    else if c == 0x0D then 0x72
    else if c == 0x09 then 0x74
    else 0
  }

  function HexEscape(c: CodeUnit): Text {
    [BACKSLASH, 0x75, HexDigit(c / 4096), HexDigit(c / 256 % 16), HexDigit(c / 16 % 16), HexDigit(c % 16)]
  }

  function EscapeUnit(c: CodeUnit): Text {
    if ShortEscape(c) != 0 then [BACKSLASH, ShortEscape(c)]
    else if c < 0x20 || IsHighSurrogate(c) || IsLowSurrogate(c) then HexEscape(c)
    else [c]
  }

  /** Well-formed `JSON.stringify`: surrogate pairs are kept, lone surrogates are escaped. */
  function Escape(s: Text): Text {
    if s == [] then []
    else if |s| > 1 && IsHighSurrogate(s[0]) && IsLowSurrogate(s[1]) then [s[0], s[1]] + Escape(s[2..])
    else EscapeUnit(s[0]) + Escape(s[1..])
  }

  function Quote(s: Text): Text { [QUOTE] + Escape(s) + [QUOTE] }

  function Print(v: Json): Text
    decreases v
  {
    match v
    case Null => NULL
    case Bool(b) => if b then TRUE else FALSE
    case Number(token) => token
    case Str(text) => Quote(text)
    case Arr(items) => [LBRACK] + PrintItems(items) + [RBRACK]
    case Obj(fields) => [LBRACE] + PrintFields(fields) + [RBRACE]
  }

  function PrintItems(items: seq<Json>): Text
    decreases items
  {
    if items == [] then []
    else if |items| == 1 then Print(items[0])
    else Print(items[0]) + [COMMA] + PrintItems(items[1..])
  }

  function PrintField(f: Field): Text
    decreases f
  {
    Quote(f.key) + [COLON] + Print(f.value)
  }

  function PrintFields(fields: seq<Field>): Text
    decreases fields
  {
    if fields == [] then []
    else if |fields| == 1 then PrintField(fields[0])
    else PrintField(fields[0]) + [COMMA] + PrintFields(fields[1..])
  }

  // ---------------------------------------------------------------------------------------
  // The canonicaliser and the key-sorted tree
  // ---------------------------------------------------------------------------------------

  /** `canonical`: print while visiting each object's properties in sorted key order. */
  function Canonical(v: Json): Text
    decreases v, 1, 0
  {
    match v
    case Arr(items) => [LBRACK] + CanonicalItems(v, items) + [RBRACK]
    case Obj(fields) => [LBRACE] + CanonicalFields(v, Sort(fields, KeyOf)) + [RBRACE]
    case _ => Print(v)
  }

  function CanonicalItems(v: Json, items: seq<Json>): Text
    requires v.Arr? && forall x :: x in items ==> x in v.items
    decreases v, 0, |items|
  {
    if items == [] then []
    else if |items| == 1 then ItemSmaller(v, items[0]); Canonical(items[0])
    else ItemSmaller(v, items[0]); Canonical(items[0]) + [COMMA] + CanonicalItems(v, items[1..])
  }

  function CanonicalFields(v: Json, fields: seq<Field>): Text
    requires v.Obj? && forall f :: f in fields ==> f in v.fields
    decreases v, 0, |fields|
  {
    if fields == [] then []
    else
      FieldSmaller(v, fields[0]);
      var first := Quote(fields[0].key) + [COLON] + Canonical(fields[0].value);
      if |fields| == 1 then first
      else first + [COMMA] + CanonicalFields(v, fields[1..])
  }

  lemma ItemSmaller(v: Json, x: Json)
    requires v.Arr? && x in v.items
    ensures x < v
  {
  }

  lemma FieldSmaller(v: Json, f: Field)
    requires v.Obj? && f in v.fields
    ensures f.value < v
  {
  }

  /** The key-sorted form of a value: every object's fields in ascending key order. */
  function SortTree(v: Json): Json {
    match v
    case Arr(items) => Arr(seq(|items|, i requires 0 <= i < |items| => SortTree(items[i])))
    case Obj(fields) =>
      Obj(Sort(seq(|fields|, i requires 0 <= i < |fields| =>
                     Field(fields[i].key, SortTree(fields[i].value))), KeyOf))
    case _ => v
  }

  /** Two values that differ only in the order of object keys, at any depth. */
  ghost predicate SameValue(v: Json, w: Json) {
    match v
    case Arr(items) =>
      w.Arr? && |items| == |w.items| && forall i :: 0 <= i < |items| ==> SameValue(items[i], w.items[i])
    case Obj(fields) =>
      && w.Obj?
      && (forall i :: 0 <= i < |fields| ==> HasKey(w.fields, fields[i].key))
      && (forall j :: 0 <= j < |w.fields| ==> HasKey(fields, w.fields[j].key))
      && (forall i, j :: 0 <= i < |fields| && 0 <= j < |w.fields| && fields[i].key == w.fields[j].key ==>
            SameValue(fields[i].value, w.fields[j].value))
    case _ => v == w
  }

  predicate HasKey(fields: seq<Field>, key: Text) {
    exists i :: 0 <= i < |fields| && fields[i].key == key
  }

  // ---------------------------------------------------------------------------------------
  // Parsing
  // ---------------------------------------------------------------------------------------

  datatype Parsed<+T> = Fail | Parsed(value: T, rest: Text)

  function HexValue(c: CodeUnit): int {
    if 0x30 <= c <= 0x39 then c - 0x30
    else if 0x61 <= c <= 0x66 then c - 0x57
    else if 0x41 <= c <= 0x46 then c - 0x37
    else -1
  }

  /** The unit a two-character escape denotes, or -1. */
  function Unescaped(c: CodeUnit): CodeUnit {
    if c == QUOTE || c == BACKSLASH || c == 0x2F then c
    else if c == 0x62 then 0x08
    else if c == 0x66 then 0x0C
    else if c == 0x6E then 0x0A
    else if c == 0x72 then 0x0D
    else if c == 0x74 then 0x09
    else -1
  }

  /** The rest of a string literal, up to and including its closing quote: the grammar of RFC 8259, section 7. */
  function ParseBody(t: Text): (r: Parsed<Text>)
    ensures r.Parsed? ==> |r.rest| < |t|
  {
    if t == [] then Fail
    else if t[0] == QUOTE then Parsed([], t[1..])
    else if t[0] < 0x20 then Fail
    else if t[0] != BACKSLASH then Cons(t[0], ParseBody(t[1..]))
    else if |t| < 2 then Fail
    else if t[1] != 0x75 then (if Unescaped(t[1]) < 0 then Fail else Cons(Unescaped(t[1]), ParseBody(t[2..])))
    else if |t| < 6 || HexQuad(t[2], t[3], t[4], t[5]) < 0 then Fail
    else Cons(HexQuad(t[2], t[3], t[4], t[5]), ParseBody(t[6..]))
  }

  /** The code unit four hex digits denote, or -1. */
  function HexQuad(a: CodeUnit, b: CodeUnit, c: CodeUnit, d: CodeUnit): int {
    if HexValue(a) < 0 || HexValue(b) < 0 || HexValue(c) < 0 || HexValue(d) < 0 then -1
    else HexValue(a) * 4096 + HexValue(b) * 256 + HexValue(c) * 16 + HexValue(d)
  }

  function Cons(c: CodeUnit, p: Parsed<Text>): Parsed<Text> {
    if p.Fail? then Fail else Parsed([c] + p.value, p.rest)
  }

  function NumberLength(t: Text): (n: nat)
    ensures n <= |t|
  {
    if t != [] && IsNumberUnit(t[0]) then 1 + NumberLength(t[1..]) else 0
  }

  function ParseValue(t: Text): (r: Parsed<Json>)
    ensures r.Parsed? ==> |r.rest| < |t|
    decreases |t|, 1
  {
    if t == [] then Fail
    else if NULL <= t then Parsed(Null, t[4..])
    else if TRUE <= t then Parsed(Bool(true), t[4..])
    else if FALSE <= t then Parsed(Bool(false), t[5..])
    else if t[0] == QUOTE then
      var p := ParseBody(t[1..]);
      if p.Fail? then Fail else Parsed(Str(p.value), p.rest)
    else if t[0] == LBRACK then
      if |t| > 1 && t[1] == RBRACK then Parsed(Arr([]), t[2..]) else
        var p := ParseItems(t[1..]);
        if p.Fail? then Fail else Parsed(Arr(p.value), p.rest)
    else if t[0] == LBRACE then
      if |t| > 1 && t[1] == RBRACE then Parsed(Obj([]), t[2..]) else
        var p := ParseFields(t[1..]);
        if p.Fail? then Fail else Parsed(Obj(p.value), p.rest)
    else if NumberLength(t) > 0 then Parsed(Number(t[..NumberLength(t)]), t[NumberLength(t)..])
    else Fail
  }

  function ParseItems(t: Text): (r: Parsed<seq<Json>>)
    ensures r.Parsed? ==> |r.rest| < |t|
    decreases |t|, 2
  {
    var p := ParseValue(t);
    if p.Fail? || p.rest == [] then Fail
    else if p.rest[0] == RBRACK then Parsed([p.value], p.rest[1..])
    else if p.rest[0] == COMMA then
      var q := ParseItems(p.rest[1..]);
      if q.Fail? then Fail else Parsed([p.value] + q.value, q.rest)
    else Fail
  }

  function ParseFields(t: Text): (r: Parsed<seq<Field>>)
    ensures r.Parsed? ==> |r.rest| < |t|
    decreases |t|, 2
  {
    if t == [] || t[0] != QUOTE then Fail else
      var k := ParseBody(t[1..]);
      if k.Fail? || k.rest == [] || k.rest[0] != COLON then Fail else
        var p := ParseValue(k.rest[1..]);
        if p.Fail? || p.rest == [] then Fail
        else if p.rest[0] == RBRACE then Parsed([Field(k.value, p.value)], p.rest[1..])
        else if p.rest[0] == COMMA then
          var q := ParseFields(p.rest[1..]);
          if q.Fail? then Fail else Parsed([Field(k.value, p.value)] + q.value, q.rest)
        else Fail
  }

  // ---------------------------------------------------------------------------------------
  // Round trip
  // ---------------------------------------------------------------------------------------

  /** What may follow a printed value: nothing, or a unit no number contains. */
  predicate Delimited(rest: Text) { rest == [] || !IsNumberUnit(rest[0]) }

  lemma HexQuadOfDigits(a: int, b: int, c: int, d: int)
    requires 0 <= a < 16 && 0 <= b < 16 && 0 <= c < 16 && 0 <= d < 16
    ensures HexQuad(HexDigit(a), HexDigit(b), HexDigit(c), HexDigit(d)) == a * 4096 + b * 256 + c * 16 + d
  {
  }

  lemma {:induction false} EscapeUnitRoundTrip(c: CodeUnit, rest: Text)
    requires 0 <= c < 0x1_0000
    ensures ParseBody(EscapeUnit(c) + rest) == Cons(c, ParseBody(rest))
  {
    hide HexQuad;
    var t := EscapeUnit(c) + rest;
    if ShortEscape(c) != 0 {
      assert t[0] == BACKSLASH && t[1] == ShortEscape(c) && t[2..] == rest;
      assert Unescaped(t[1]) == c;
    } else if c < 0x20 || IsHighSurrogate(c) || IsLowSurrogate(c) {
      HexEscapeRoundTrip(c, rest);
    } else {
      assert t[0] == c && t[1..] == rest;
    }
  }

  lemma Nibbles(c: nat)
    ensures c / 256 == c / 16 / 16 && c / 4096 == c / 16 / 16 / 16
    ensures c == c / 16 * 16 + c % 16
    ensures c / 16 == c / 256 * 16 + c / 16 % 16
    ensures c / 256 == c / 4096 * 16 + c / 256 % 16
  {
  }

  lemma NibbleQuad(c: CodeUnit)
    requires 0 <= c < 0x1_0000
    ensures var h := HexEscape(c);
            HexQuad(h[2], h[3], h[4], h[5]) == c
  {
    hide HexQuad, HexDigit;
    Nibbles(c);
    HexQuadOfDigits(c / 4096, c / 256 % 16, c / 16 % 16, c % 16);
  }

  lemma HexEscapeRoundTrip(c: CodeUnit, rest: Text)
    requires 0 <= c < 0x1_0000
    ensures ParseBody(HexEscape(c) + rest) == Cons(c, ParseBody(rest))
  {
    hide HexDigit, HexQuad;
    NibbleQuad(c);
    var t, h := HexEscape(c) + rest, HexEscape(c);
    assert t[0] == BACKSLASH && t[1] == 0x75 && t[6..] == rest;
    assert t[2] == h[2] && t[3] == h[3] && t[4] == h[4] && t[5] == h[5];
  }

  lemma {:induction false} ParseBodyEnd(rest: Text)
    ensures ParseBody([QUOTE] + rest) == Parsed([], rest)
  {
  }

  lemma {:induction false} EscapeRoundTrip(s: Text, rest: Text)
    requires ValidText(s)
    ensures ParseBody(Escape(s) + ([QUOTE] + rest)) == Parsed(s, rest)
    decreases |s|
  {
    hide ParseBody;
    var close := [QUOTE] + rest;
    if s == [] {
      ParseBodyEnd(rest);
      assert Escape(s) + close == close;
    } else if |s| > 1 && IsHighSurrogate(s[0]) && IsLowSurrogate(s[1]) {
      EscapeRoundTrip(s[2..], rest);
      PairRoundTrip(s[0], s[1], Escape(s[2..]) + close);
      Assoc([s[0], s[1]], Escape(s[2..]), close);
      assert s == [s[0]] + ([s[1]] + s[2..]);
    } else {
      EscapeRoundTrip(s[1..], rest);
      EscapeUnitRoundTrip(s[0], Escape(s[1..]) + close);
      Assoc(EscapeUnit(s[0]), Escape(s[1..]), close);
      assert s == [s[0]] + s[1..];
    }
  }

  lemma PairRoundTrip(high: CodeUnit, low: CodeUnit, rest: Text)
    requires IsHighSurrogate(high) && IsLowSurrogate(low)
    ensures ParseBody([high, low] + rest) == Cons(high, Cons(low, ParseBody(rest)))
  {
  }

  lemma NumberLengthOf(token: Text, rest: Text)
    requires forall i :: 0 <= i < |token| ==> IsNumberUnit(token[i])
    requires Delimited(rest)
    ensures NumberLength(token + rest) == |token|
  {
    if token == [] {
      assert token + rest == rest;
    } else {
      assert (token + rest)[1..] == token[1..] + rest;
      NumberLengthOf(token[1..], rest);
    }
  }

  lemma {:induction false} QuotedRoundTrip(s: Text, rest: Text)
    requires ValidText(s)
    ensures Quote(s) + rest == [QUOTE] + (Escape(s) + ([QUOTE] + rest))
    ensures (Quote(s) + rest)[0] == QUOTE
    ensures ParseBody((Quote(s) + rest)[1..]) == Parsed(s, rest)
  {
    hide ParseBody;
    EscapeRoundTrip(s, rest);
    var tail := Escape(s) + ([QUOTE] + rest);
    assert Quote(s) + rest == [QUOTE] + tail;
    assert ([QUOTE] + tail)[1..] == tail;
  }

  /** The parser reads back every printed value and stops exactly where it ends. */
  lemma {:induction false} PrintRoundTrip(v: Json, rest: Text)
    requires Valid(v) && Delimited(rest)
    ensures ParseValue(Print(v) + rest) == Parsed(v, rest)
    decreases v, 1
  {
    match v
    case Arr(items) => ArrayRoundTrip(v, rest);
    case Obj(fields) => ObjectRoundTrip(v, rest);
    case _ => ScalarRoundTrip(v, rest);
  }

  lemma {:induction false} ScalarRoundTrip(v: Json, rest: Text)
    requires Valid(v) && Delimited(rest) && !v.Arr? && !v.Obj?
    ensures ParseValue(Print(v) + rest) == Parsed(v, rest)
  {
    hide ParseItems, ParseFields, ParseBody;
    var t := Print(v) + rest;
    match v
    case Null => assert t[4..] == rest;
    case Bool(b) =>
      if b { assert TRUE <= t && t[0] != NULL[0] && t[4..] == rest; }
      else { assert FALSE <= t && t[0] != NULL[0] && t[0] != TRUE[0] && t[5..] == rest; }
    case Number(token) =>
      NumberLengthOf(token, rest);
      assert t[0] == token[0] && IsNumberUnit(t[0]);
      assert t[..|token|] == token && t[|token|..] == rest;
    case Str(text) => QuotedRoundTrip(text, rest);
  }

  lemma PrintHead(v: Json)
    requires Valid(v)
    ensures Print(v) != [] && Print(v)[0] != RBRACK
  {
  }

  lemma ItemsHead(items: seq<Json>)
    requires items != [] && Valid(items[0])
    ensures PrintItems(items) != [] && PrintItems(items)[0] != RBRACK
  {
    hide Print;
    PrintHead(items[0]);
  }

  lemma ParseArray(items: seq<Json>, u: Text, rest: Text)
    requires u != [] && u[0] != RBRACK && ParseItems(u) == Parsed(items, rest)
    ensures ParseValue([LBRACK] + u) == Parsed(Arr(items), rest)
  {
    hide ParseItems, ParseFields, ParseBody;
    var t := [LBRACK] + u;
    assert t[0] == LBRACK && t[1] == u[0] && t[1..] == u;
    assert t[0] != NULL[0] && t[0] != TRUE[0] && t[0] != FALSE[0];
    assert !(NULL <= t) && !(TRUE <= t) && !(FALSE <= t);
    var p := ParseItems(t[1..]);
    assert p == Parsed(items, rest);
    assert ParseValue(t) == Parsed(Arr(p.value), p.rest);
  }

  lemma ParseEmptyArray(rest: Text)
    ensures ParseValue([LBRACK] + [RBRACK] + rest) == Parsed(Arr([]), rest)
  {
    hide ParseItems, ParseFields, ParseBody;
    var t := [LBRACK] + [RBRACK] + rest;
    assert t[0] == LBRACK && t[1] == RBRACK && t[2..] == rest;
    assert t[0] != NULL[0] && t[0] != TRUE[0] && t[0] != FALSE[0];
    assert !(NULL <= t) && !(TRUE <= t) && !(FALSE <= t);
  }

  lemma {:induction false} ArrayRoundTrip(v: Json, rest: Text)
    requires v.Arr? && Valid(v)
    ensures ParseValue(Print(v) + rest) == Parsed(v, rest)
    decreases v, 0
  {
    hide ParseValue;
    var p := PrintItems(v.items);
    if v.items == [] {
      ParseEmptyArray(rest);
      assert [LBRACK] + p + [RBRACK] == [LBRACK] + [RBRACK];
    } else {
      ItemsRoundTrip(v.items, rest);
      ItemsHead(v.items);
      ParseArray(v.items, p + ([RBRACK] + rest), rest);
      assert [LBRACK] + p + [RBRACK] + rest == [LBRACK] + (p + ([RBRACK] + rest));
    }
  }

  lemma {:induction false} ItemsRoundTrip(items: seq<Json>, rest: Text)
    requires items != [] && forall i :: 0 <= i < |items| ==> Valid(items[i])
    ensures ParseItems(PrintItems(items) + ([RBRACK] + rest)) == Parsed(items, rest)
    decreases items, 2
  {
    hide ParseValue, ParseItems, Print;
    if |items| == 1 {
      PrintRoundTrip(items[0], [RBRACK] + rest);
      ParseItemsLast(items[0], PrintItems(items) + ([RBRACK] + rest), rest);
      assert items == [items[0]];
    } else {
      var u := PrintItems(items[1..]) + ([RBRACK] + rest);
      ItemsRoundTrip(items[1..], rest);
      PrintRoundTrip(items[0], [COMMA] + u);
      Assoc(Print(items[0]) + [COMMA], PrintItems(items[1..]), [RBRACK] + rest);
      Assoc(Print(items[0]), [COMMA], u);
      ParseItemsMore(items[0], Print(items[0]) + ([COMMA] + u), u);
      assert items == [items[0]] + items[1..];
    }
  }

  lemma ParseItemsLast(x: Json, t: Text, rest: Text)
    requires ParseValue(t) == Parsed(x, [RBRACK] + rest)
    ensures ParseItems(t) == Parsed([x], rest)
  {
  }

  lemma ParseItemsMore(x: Json, t: Text, u: Text)
    requires ParseValue(t) == Parsed(x, [COMMA] + u)
    requires ParseItems(u).Parsed?
    ensures ParseItems(t) == Parsed([x] + ParseItems(u).value, ParseItems(u).rest)
  {
  }

  lemma {:induction false} ObjectRoundTrip(v: Json, rest: Text)
    requires v.Obj? && Valid(v)
    ensures ParseValue(Print(v) + rest) == Parsed(v, rest)
    decreases v, 0
  {
    hide ParseItems, ParseFields, ParseBody;
    var t := Print(v) + rest;
    assert t[0] == LBRACE;
    if v.fields == [] {
      assert t[1] == RBRACE && t[2..] == rest;
    } else {
      FieldsRoundTrip(v.fields, rest);
      assert t[1..] == PrintFields(v.fields) + ([RBRACE] + rest);
      assert t[1] == PrintField(v.fields[0])[0] == QUOTE;
    }
  }

  lemma {:induction false} FieldsRoundTrip(fields: seq<Field>, rest: Text)
    requires fields != []
    requires forall i :: 0 <= i < |fields| ==> ValidText(fields[i].key) && Valid(fields[i].value)
    ensures ParseFields(PrintFields(fields) + ([RBRACE] + rest)) == Parsed(fields, rest)
    decreases fields, 2
  {
    hide ParseValue, ParseFields;
    var f := fields[0];
    if |fields| == 1 {
      PrintRoundTrip(f.value, [RBRACE] + rest);
      ParseFieldsLast(f, rest);
      assert fields == [f];
    } else {
      var u := PrintFields(fields[1..]) + ([RBRACE] + rest);
      FieldsRoundTrip(fields[1..], rest);
      PrintRoundTrip(f.value, [COMMA] + u);
      Assoc(PrintField(f) + [COMMA], PrintFields(fields[1..]), [RBRACE] + rest);
      Assoc(PrintField(f), [COMMA], u);
      ParseFieldsMore(f, u);
      assert fields == [f] + fields[1..];
    }
  }

  lemma FieldHead(f: Field, after: Text)
    requires ValidText(f.key)
    ensures var t := PrintField(f) + after;
            t != [] && t[0] == QUOTE && ParseBody(t[1..]) == Parsed(f.key, [COLON] + (Print(f.value) + after))
  {
    hide ParseBody;
    var tail := [COLON] + (Print(f.value) + after);
    QuotedRoundTrip(f.key, tail);
    assert PrintField(f) + after == Quote(f.key) + tail;
  }

  lemma ParseFieldsLast(f: Field, rest: Text)
    requires ValidText(f.key)
    requires ParseValue(Print(f.value) + ([RBRACE] + rest)) == Parsed(f.value, [RBRACE] + rest)
    ensures ParseFields(PrintField(f) + ([RBRACE] + rest)) == Parsed([f], rest)
  {
    hide ParseValue, ParseBody;
    FieldHead(f, [RBRACE] + rest);
    var body := Print(f.value) + ([RBRACE] + rest);
    assert ([COLON] + body)[1..] == body;
    assert ([RBRACE] + rest)[1..] == rest;
  }

  lemma ParseFieldsMore(f: Field, u: Text)
    requires ValidText(f.key)
    requires ParseValue(Print(f.value) + ([COMMA] + u)) == Parsed(f.value, [COMMA] + u)
    requires ParseFields(u).Parsed?
    ensures ParseFields(PrintField(f) + ([COMMA] + u)) == Parsed([f] + ParseFields(u).value, ParseFields(u).rest)
  {
    hide ParseValue, ParseBody;
    FieldHead(f, [COMMA] + u);
    var body := Print(f.value) + ([COMMA] + u);
    assert ([COLON] + body)[1..] == body;
    assert ([COMMA] + u)[1..] == u;
  }

  lemma PrintInjective(v: Json, w: Json)
    requires Valid(v) && Valid(w)
    ensures Print(v) == Print(w) <==> v == w
  {
    PrintRoundTrip(v, []);
    PrintRoundTrip(w, []);
    assert Print(v) + [] == Print(v) && Print(w) + [] == Print(w);
  }

  // ---------------------------------------------------------------------------------------
  // `canonical` is injective up to key order
  // ---------------------------------------------------------------------------------------

  /** Printing while sorting prints the sorted tree. */
  lemma {:induction false} CanonicalPrintsSortedTree(v: Json)
    requires Valid(v)
    ensures Canonical(v) == Print(SortTree(v))
    decreases v, 1, 0
  {
    match v
    case Arr(items) => CanonicalItemsPrint(v, items, SortTree(v).items);
    case Obj(fields) =>
      SortedFieldsAlign(v);
      CanonicalFieldsPrint(v, Sort(fields, KeyOf), SortTree(v).fields);
    case _ =>
  }

  lemma {:induction false} CanonicalItemsPrint(v: Json, items: seq<Json>, sorted: seq<Json>)
    requires v.Arr? && Valid(v) && forall x :: x in items ==> x in v.items
    requires |sorted| == |items| && forall i :: 0 <= i < |items| ==> sorted[i] == SortTree(items[i])
    ensures CanonicalItems(v, items) == PrintItems(sorted)
    decreases v, 0, |items|
  {
    if items != [] {
      ItemSmaller(v, items[0]);
      CanonicalPrintsSortedTree(items[0]);
      if |items| > 1 { CanonicalItemsPrint(v, items[1..], sorted[1..]); }
    }
  }

  lemma {:induction false} CanonicalFieldsPrint(v: Json, fields: seq<Field>, sorted: seq<Field>)
    requires v.Obj? && Valid(v) && forall f :: f in fields ==> f in v.fields
    requires |sorted| == |fields|
    requires forall i :: 0 <= i < |fields| ==> sorted[i] == Field(fields[i].key, SortTree(fields[i].value))
    ensures CanonicalFields(v, fields) == PrintFields(sorted)
    decreases v, 0, |fields|
  {
    if fields != [] {
      FieldSmaller(v, fields[0]);
      CanonicalPrintsSortedTree(fields[0].value);
      if |fields| > 1 { CanonicalFieldsPrint(v, fields[1..], sorted[1..]); }
    }
  }

  function SortedChildren(fields: seq<Field>): seq<Field> {
    seq(|fields|, i requires 0 <= i < |fields| => Field(fields[i].key, SortTree(fields[i].value)))
  }

  /** Sorting the rebuilt fields is rebuilding the sorted fields. */
  lemma SortedFieldsAlign(v: Json)
    requires v.Obj? && Valid(v)
    ensures SortTree(v).fields == SortedChildren(Sort(v.fields, KeyOf))
  {
    var s := Sort(v.fields, KeyOf);
    var r := SortedChildren(s);
    var children := SortedChildren(v.fields);
    assert SortTree(v).fields == Sort(children, KeyOf);
    SortAscends(v.fields, KeyOf);
    SortAscends(children, KeyOf);
    assert SameElements(r, Sort(children, KeyOf)) by {
      forall x | x in r ensures x in children {
        var i :| 0 <= i < |s| && r[i] == x;
        assert s[i] in v.fields;
        var k :| 0 <= k < |v.fields| && v.fields[k] == s[i];
        assert children[k] == x;
      }
      forall x | x in children ensures x in r {
        var k :| 0 <= k < |children| && children[k] == x;
        assert v.fields[k] in s;
        var i :| 0 <= i < |s| && s[i] == v.fields[k];
        assert r[i] == x;
      }
    }
    AscendingUnique(r, Sort(children, KeyOf), KeyOf);
  }

  lemma {:induction false} SortTreeValid(v: Json)
    requires Valid(v)
    ensures Valid(SortTree(v))
  {
    match v
    case Arr(items) =>
      forall i | 0 <= i < |items| ensures Valid(SortTree(v).items[i]) { SortTreeValid(items[i]); }
    case Obj(fields) =>
      var children := SortedChildren(fields);
      forall i | 0 <= i < |fields| ensures ValidText(children[i].key) && Valid(children[i].value) {
        SortTreeValid(fields[i].value);
      }
      assert SortTree(v).fields == Sort(children, KeyOf);
      SortValidFields(children);
    case _ =>
  }

  lemma SortValidFields(fields: seq<Field>)
    requires Valid(Obj(fields))
    ensures Valid(Obj(Sort(fields, KeyOf)))
  {
    var s := Sort(fields, KeyOf);
    SortAscends(fields, KeyOf);
    forall i, j | 0 <= i < j < |s| ensures KeyOf(s[i]) != KeyOf(s[j]) {
      LessTotal(KeyOf(s[i]), KeyOf(s[j]));
    }
    forall i | 0 <= i < |s| ensures ValidText(s[i].key) && Valid(s[i].value) {
      assert s[i] in fields;
    }
  }

  /** A parser recovers the key-sorted value from the canonical text, whatever delimiter follows. */
  lemma CanonicalParses(v: Json, rest: Text)
    requires Valid(v) && Delimited(rest)
    ensures ParseValue(Canonical(v) + rest) == Parsed(SortTree(v), rest)
  {
    CanonicalPrintsSortedTree(v);
    SortTreeValid(v);
    PrintRoundTrip(SortTree(v), rest);
  }

  lemma {:induction false} SameValueSortsAlike(v: Json, w: Json)
    requires Valid(v) && Valid(w) && SameValue(v, w)
    ensures SortTree(v) == SortTree(w)
  {
    match v
    case Arr(items) =>
      forall i | 0 <= i < |items| ensures SortTree(items[i]) == SortTree(w.items[i]) {
        SameValueSortsAlike(items[i], w.items[i]);
      }
    case Obj(fields) =>
      forall i, j | 0 <= i < |fields| && 0 <= j < |w.fields| && fields[i].key == w.fields[j].key
        ensures SortTree(fields[i].value) == SortTree(w.fields[j].value)
      {
        SameValueSortsAlike(fields[i].value, w.fields[j].value);
      }
      SameChildren(fields, w.fields);
      SameChildren(w.fields, fields);
      assert Distinct(SortedChildren(fields), KeyOf) && Distinct(SortedChildren(w.fields), KeyOf);
      SortOrderIndependent(SortedChildren(fields), SortedChildren(w.fields), KeyOf);
      assert SortTree(v).fields == Sort(SortedChildren(fields), KeyOf);
      assert SortTree(w).fields == Sort(SortedChildren(w.fields), KeyOf);
    case _ =>
  }

  lemma SameChildren(a: seq<Field>, b: seq<Field>)
    requires forall i :: 0 <= i < |a| ==> HasKey(b, a[i].key)
    requires forall i, j :: 0 <= i < |a| && 0 <= j < |b| && a[i].key == b[j].key ==>
               SortTree(a[i].value) == SortTree(b[j].value)
    ensures forall x :: x in SortedChildren(a) ==> x in SortedChildren(b)
  {
    forall x | x in SortedChildren(a) ensures x in SortedChildren(b) {
      var i :| 0 <= i < |a| && SortedChildren(a)[i] == x;
      var j :| 0 <= j < |b| && b[j].key == a[i].key;
      assert SortedChildren(b)[j] == x;
    }
  }

  lemma {:induction false} SortsAlikeSameValue(v: Json, w: Json)
    requires Valid(v) && Valid(w) && SortTree(v) == SortTree(w)
    ensures SameValue(v, w)
  {
    match v
    case Arr(items) =>
      forall i | 0 <= i < |items| ensures SameValue(items[i], w.items[i]) {
        assert SortTree(v).items[i] == SortTree(w).items[i];
        SortsAlikeSameValue(items[i], w.items[i]);
      }
    case Obj(fields) =>
      assert SortTree(v).fields == Sort(SortedChildren(fields), KeyOf);
      assert SortTree(w).fields == Sort(SortedChildren(w.fields), KeyOf);
      ChildrenKeys(fields, w.fields);
      ChildrenKeys(w.fields, fields);
      forall i, j | 0 <= i < |fields| && 0 <= j < |w.fields| && fields[i].key == w.fields[j].key
        ensures SameValue(fields[i].value, w.fields[j].value)
      {
        ChildrenAgree(fields, w.fields, i, j);
        SortsAlikeSameValue(fields[i].value, w.fields[j].value);
      }
    case _ =>
  }

  lemma ChildrenKeys(a: seq<Field>, b: seq<Field>)
    requires Sort(SortedChildren(a), KeyOf) == Sort(SortedChildren(b), KeyOf)
    ensures forall i :: 0 <= i < |a| ==> HasKey(b, a[i].key)
  {
    forall i | 0 <= i < |a| ensures HasKey(b, a[i].key) {
      assert SortedChildren(a)[i] in Sort(SortedChildren(a), KeyOf);
      assert SortedChildren(a)[i] in SortedChildren(b);
      var j :| 0 <= j < |b| && SortedChildren(b)[j] == SortedChildren(a)[i];
      assert b[j].key == a[i].key;
    }
  }

  lemma ChildrenAgree(a: seq<Field>, b: seq<Field>, i: nat, j: nat)
    requires Sort(SortedChildren(a), KeyOf) == Sort(SortedChildren(b), KeyOf)
    requires Distinct(b, KeyOf) && i < |a| && j < |b| && a[i].key == b[j].key
    ensures SortTree(a[i].value) == SortTree(b[j].value)
  {
    assert SortedChildren(a)[i] in Sort(SortedChildren(a), KeyOf);
    assert SortedChildren(a)[i] in SortedChildren(b);
    var k :| 0 <= k < |b| && SortedChildren(b)[k] == SortedChildren(a)[i];
    assert KeyOf(b[k]) == KeyOf(b[j]);
    assert k == j;
  }

  /** Two values print alike exactly when they differ only in key order, at every depth. */
  lemma CanonicalInjective(v: Json, w: Json)
    requires Valid(v) && Valid(w)
    ensures Canonical(v) == Canonical(w) <==> SameValue(v, w)
  {
    CanonicalPrintsSortedTree(v);
    CanonicalPrintsSortedTree(w);
    SortTreeValid(v);
    SortTreeValid(w);
    PrintInjective(SortTree(v), SortTree(w));
    if SameValue(v, w) { SameValueSortsAlike(v, w); }
    if SortTree(v) == SortTree(w) { SortsAlikeSameValue(v, w); }
  }
}
