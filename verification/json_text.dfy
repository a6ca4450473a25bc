/** Printing a payload as JSON text, and a parser that undoes it (grammar of RFC 8259, sections 2 to 7). */
module JsonText {
  import opened Wrappers
  import opened Texts
  import opened NumberText
  import opened JsonValues

  const QUOTE: Unit := 34
  const COMMA: Unit := 44
  const COLON: Unit := 58
  const OPEN_ARRAY: Unit := 91
  const BACKSLASH: Unit := 92
  const CLOSE_ARRAY: Unit := 93
  const LETTER_U: Unit := 117
  const OPEN_OBJECT: Unit := 123
  const CLOSE_OBJECT: Unit := 125

  const NULL_TEXT: Text := Word("null")
  const TRUE_TEXT: Text := Word("true")
  const FALSE_TEXT: Text := Word("false")

  // ---------------------------------------------------------------- strings

  predicate IsLead(u: Unit) { 0xd800 <= u <= 0xdbff }

  predicate IsTrail(u: Unit) { 0xdc00 <= u <= 0xdfff }

  function HexDigit(n: nat): Unit
    requires n < 16
  {
    if n < 10 then 48 + n else 87 + n
  }

  function HexValue(u: Unit): (n: nat)
    ensures n < 16
  {
    if 97 <= u <= 102 then u - 87 else if IsDigit(u) then u - 48 else 0
  }

  function Hex(u: Unit): (t: Text)
    ensures |t| == 4
  {
    [HexDigit(u / 4096), HexDigit(u / 256 % 16), HexDigit(u / 16 % 16), HexDigit(u % 16)]
  }

  function FromHex(t: Text): Unit
    requires |t| == 4
  {
    4096 * HexValue(t[0]) + 256 * HexValue(t[1]) + 16 * HexValue(t[2]) + HexValue(t[3])
  }

  /** The letter of a two-character escape. */
  function Short(u: Unit): Option<Unit> {
    if u == 8 then Some(98)
    else if u == 9 then Some(116)
    else if u == 10 then Some(110)
    else if u == 12 then Some(102)
    else if u == 13 then Some(114)
    else if u == QUOTE || u == BACKSLASH then Some(u)
    else None
  }

  function Unshort(u: Unit): Unit {
    if u == 98 then 8
    else if u == 116 then 9
    else if u == 110 then 10
    else if u == 102 then 12
    else if u == 114 then 13
    else u
  }

  /** One code unit that is not half of a surrogate pair. */
  function Escape(u: Unit): (t: Text)
    ensures t != []
  {
    if Short(u).Some? then [BACKSLASH, Short(u).value]
    else if u < 0x20 || IsLead(u) || IsTrail(u) then [BACKSLASH, LETTER_U] + Hex(u)
    else [u]
  }

  /** The units of a string literal after its opening quote; a well-formed surrogate pair is left as it is. */
  function Quoted(s: Text): Text {
    if s == [] then [QUOTE]
    else if StartsWithPair(s) then s[..2] + Quoted(s[2..])
    else Escape(s[0]) + Quoted(s[1..])
  }

  /** Reads a string literal after its opening quote, and what follows it. */
  function ReadQuoted(t: Text): (r: Option<(Text, Text)>)
    ensures r.Some? ==> |r.value.1| < |t|
  {
    if t == [] then None
    else if t[0] == QUOTE then Some(([], t[1..]))
    else if t[0] != BACKSLASH then Prepend(t[0], ReadQuoted(t[1..]))
    else if |t| >= 6 && t[1] == LETTER_U then Prepend(FromHex(t[2..6]), ReadQuoted(t[6..]))
    else if |t| >= 2 then Prepend(Unshort(t[1]), ReadQuoted(t[2..]))
    else None
  }

  function Prepend(u: Unit, r: Option<(Text, Text)>): Option<(Text, Text)> {
    if r.None? then None else Some(([u] + r.value.0, r.value.1))
  }

  lemma HexDigitRoundTrip(n: nat)
    requires n < 16
    ensures HexValue(HexDigit(n)) == n
  {}

  lemma HexRoundTrip(u: Unit)
    ensures FromHex(Hex(u)) == u
  {
    hide HexDigit, HexValue;
    HexDigitRoundTrip(u / 4096);
    HexDigitRoundTrip(u / 256 % 16);
    HexDigitRoundTrip(u / 16 % 16);
    HexDigitRoundTrip(u % 16);
    assert u == 16 * (u / 16) + u % 16;
    assert u / 16 == 16 * (u / 256) + u / 16 % 16;
    assert u / 256 == 16 * (u / 4096) + u / 256 % 16;
  }

  lemma EscapeRoundTrip(u: Unit, t: Text)
    ensures ReadQuoted(Escape(u) + t) == Prepend(u, ReadQuoted(t))
  {
    var all := Escape(u) + t;
    if Short(u).Some? {
      assert all[2..] == t;
    } else if u < 0x20 || IsLead(u) || IsTrail(u) {
      assert all[2..6] == Hex(u) && all[6..] == t;
      HexRoundTrip(u);
    } else {
      assert all[1..] == t;
    }
  }

  lemma PlainUnit(u: Unit, t: Text)
    requires u != QUOTE && u != BACKSLASH
    ensures ReadQuoted([u] + t) == Prepend(u, ReadQuoted(t))
  {
    assert ([u] + t)[1..] == t;
  }

  lemma PairRoundTrip(a: Unit, b: Unit, t: Text)
    requires IsLead(a) && IsTrail(b)
    ensures ReadQuoted([a, b] + t) == Prepend(a, Prepend(b, ReadQuoted(t)))
  {
    PlainUnit(b, t);
    PlainUnit(a, [b] + t);
    assert [a] + ([b] + t) == [a, b] + t;
  }

  predicate StartsWithPair(s: Text) { |s| > 1 && IsLead(s[0]) && IsTrail(s[1]) }

  lemma {:induction false} QuotedRoundTrip(s: Text, rest: Text)
    ensures ReadQuoted(Quoted(s) + rest) == Some((s, rest))
  {
    hide ReadQuoted, Escape, IsLead, IsTrail;
    if s == [] {
      ReadClosingQuote(rest);
    } else if StartsWithPair(s) {
      QuotedRoundTrip(s[2..], rest);
      QuotedPair(s, rest);
      PairRoundTrip(s[0], s[1], Quoted(s[2..]) + rest);
      assert [s[0]] + ([s[1]] + s[2..]) == s;
    } else {
      QuotedRoundTrip(s[1..], rest);
      QuotedSingle(s, rest);
      EscapeRoundTrip(s[0], Quoted(s[1..]) + rest);
      assert [s[0]] + s[1..] == s;
    }
  }

  lemma QuotedPair(s: Text, rest: Text)
    requires StartsWithPair(s)
    ensures Quoted(s) + rest == [s[0], s[1]] + (Quoted(s[2..]) + rest)
  {
    assert s[..2] == [s[0], s[1]];
  }

  lemma QuotedSingle(s: Text, rest: Text)
    requires s != [] && !StartsWithPair(s)
    ensures Quoted(s) + rest == Escape(s[0]) + (Quoted(s[1..]) + rest)
  {
    hide Escape;
  }

  lemma ReadClosingQuote(rest: Text)
    ensures ReadQuoted([QUOTE] + rest) == Some(([], rest))
  {
    assert ([QUOTE] + rest)[1..] == rest;
  }

  // ---------------------------------------------------------------- printing

  function Print(v: Json): Text
    requires Valid(v)
  {
    match v
    case Null => NULL_TEXT
    case Bool(b) => if b then TRUE_TEXT else FALSE_TEXT
    case Number(x) => NumberToText(x)
    case NegativeZero => NumberToText(Zero)
    case NotFinite => NULL_TEXT
    case String(s) => [QUOTE] + Quoted(s)
    case Date(iso) => [QUOTE] + Quoted(iso)
    case Unsupported => []
    case Array(items) => [OPEN_ARRAY] + PrintArray(items)
    case Object(fields) => [OPEN_OBJECT] + PrintObject(fields)
  }

  function PrintArray(items: Items): Text
    requires ValidItems(items)
    decreases items, 0
  {
    if items.NoItems? then [CLOSE_ARRAY] else Print(items.head) + PrintItems(items.tail)
  }

  function PrintItems(items: Items): (t: Text)
    requires ValidItems(items)
    ensures t != [] && (t[0] == COMMA || t[0] == CLOSE_ARRAY)
  {
    if items.NoItems? then [CLOSE_ARRAY] else [COMMA] + Print(items.head) + PrintItems(items.tail)
  }

  function PrintObject(f: Fields): Text
    requires ValidFields(f)
    decreases f, 1
  {
    if f.NoFields? then [CLOSE_OBJECT] else PrintField(f)
  }

  function PrintField(f: Fields): Text
    requires f.Field? && ValidFields(f)
    decreases f, 0
  {
    [QUOTE] + Quoted(f.key) + [COLON] + Print(f.value) + PrintFields(f.rest)
  }

  function PrintFields(f: Fields): (t: Text)
    requires ValidFields(f)
    ensures t != [] && (t[0] == COMMA || t[0] == CLOSE_OBJECT)
    decreases f, 1
  {
    if f.NoFields? then [CLOSE_OBJECT] else [COMMA] + PrintField(f)
  }

  // ---------------------------------------------------------------- parsing

  /** The length of the longest run of units that can occur in a number. */
  function NumberLength(t: Text): (n: nat)
    ensures n <= |t|
    ensures forall i :: 0 <= i < n ==> IsNumberUnit(t[i])
    ensures n < |t| ==> !IsNumberUnit(t[n])
  {
    if t == [] || !IsNumberUnit(t[0]) then 0 else 1 + NumberLength(t[1..])
  }

  function ReadLiteral(word: Text, v: Json, t: Text): (r: Option<(Json, Text)>)
    ensures r.Some? ==> |r.value.1| == |t| - |word|
  {
    if word <= t then Some((v, t[|word|..])) else None
  }

  function ReadNumeral(t: Text): (r: Option<(Json, Text)>)
    requires t != [] && IsNumberUnit(t[0])
    ensures r.Some? ==> |r.value.1| < |t|
  {
    var n := NumberLength(t);
    Some((Number(ReadNumber(t[..n])), t[n..]))
  }

  /** One value from the front of the text, and what follows it. */
  function Parse(t: Text): (r: Option<(Json, Text)>)
    ensures r.Some? ==> |r.value.1| < |t|
    decreases |t|, 0
  {
    if t == [] then None
    else if t[0] == OPEN_ARRAY then
      var r := ParseArray(t[1..]);
      if r.None? then None else Some((Array(r.value.0), r.value.1))
    else if t[0] == OPEN_OBJECT then
      var r := ParseObject(t[1..]);
      if r.None? then None else Some((Object(r.value.0), r.value.1))
    else if t[0] == QUOTE then
      var r := ReadQuoted(t[1..]);
      if r.None? then None else Some((String(r.value.0), r.value.1))
    else if t[0] == NULL_TEXT[0] then ReadLiteral(NULL_TEXT, Null, t)
    else if t[0] == TRUE_TEXT[0] then ReadLiteral(TRUE_TEXT, Bool(true), t)
    else if t[0] == FALSE_TEXT[0] then ReadLiteral(FALSE_TEXT, Bool(false), t)
    else if IsNumberUnit(t[0]) then ReadNumeral(t)
    else None
  }

  function ParseArray(t: Text): (r: Option<(Items, Text)>)
    ensures r.Some? ==> |r.value.1| < |t|
    decreases |t|, 1
  {
    if t == [] then None
    else if t[0] == CLOSE_ARRAY then Some((NoItems, t[1..]))
    else
      var head := Parse(t);
      if head.None? then None
      else
        var tail := ParseItems(head.value.1);
        if tail.None? then None else Some((Item(head.value.0, tail.value.0), tail.value.1))
  }

  function ParseObject(t: Text): (r: Option<(Fields, Text)>)
    ensures r.Some? ==> |r.value.1| < |t|
    decreases |t|, 3
  {
    if t == [] then None
    else if t[0] == CLOSE_OBJECT then Some((NoFields, t[1..]))
    else ParseField(t)
  }

  function ParseItems(t: Text): (r: Option<(Items, Text)>)
    ensures r.Some? ==> |r.value.1| < |t|
    decreases |t|, 1
  {
    if t == [] then None
    else if t[0] == CLOSE_ARRAY then Some((NoItems, t[1..]))
    else if t[0] != COMMA then None
    else
      var head := Parse(t[1..]);
      if head.None? then None
      else
        var tail := ParseItems(head.value.1);
        if tail.None? then None else Some((Item(head.value.0, tail.value.0), tail.value.1))
  }

  function ParseField(t: Text): (r: Option<(Fields, Text)>)
    ensures r.Some? ==> |r.value.1| < |t|
    decreases |t|, 2
  {
    if t == [] || t[0] != QUOTE then None
    else
      var key := ReadQuoted(t[1..]);
      if key.None? || key.value.1 == [] || key.value.1[0] != COLON then None
      else
        var value := Parse(key.value.1[1..]);
        if value.None? then None
        else
          var rest := ParseFields(value.value.1);
          if rest.None? then None
          else Some((Field(key.value.0, value.value.0, rest.value.0), rest.value.1))
  }

  function ParseFields(t: Text): (r: Option<(Fields, Text)>)
    ensures r.Some? ==> |r.value.1| < |t|
    decreases |t|, 3
  {
    if t == [] then None
    else if t[0] == CLOSE_OBJECT then Some((NoFields, t[1..]))
    else if t[0] == COMMA then ParseField(t[1..])
    else None
  }

  // ---------------------------------------------------------------- round trip

  /** What may follow a value without being absorbed by it. */
  predicate Delimited(rest: Text) { rest == [] || !IsNumberUnit(rest[0]) }

  lemma {:induction false} NumberLengthIs(t: Text, rest: Text)
    requires Delimited(rest) && forall i :: 0 <= i < |t| ==> IsNumberUnit(t[i])
    ensures NumberLength(t + rest) == |t|
  {
    assert forall i :: 0 <= i < |t| ==> (t + rest)[i] == t[i];
    assert rest != [] ==> (t + rest)[|t|] == rest[0];
  }

  lemma LiteralRoundTrip(word: Text, v: Json, rest: Text)
    ensures ReadLiteral(word, v, word + rest) == Some((v, rest))
  {
    assert (word + rest)[|word|..] == rest;
  }

  lemma NumeralRoundTrip(x: Number, rest: Text)
    requires ValidNumber(x) && Delimited(rest)
    ensures var t := NumberToText(x) + rest;
            t != [] && (IsDigit(t[0]) || t[0] == MINUS) && ReadNumeral(t) == Some((Json.Number(x), rest))
  {
    hide NumberToText, ReadNumber;
    var t := NumberToText(x);
    NumberRoundTrip(x);
    NumberLengthIs(t, rest);
    assert (t + rest)[0] == t[0];
    assert (t + rest)[..|t|] == t && (t + rest)[|t|..] == rest;
  }

  /** The first unit of a printed value tells what kind of value it is. */
  lemma PrintStarts(v: Json)
    requires Valid(v) && Plain(v)
    ensures Print(v) != [] && Print(v)[0] != CLOSE_ARRAY
  {
    if v.Number? {
      NumberRoundTrip(v.number);
    }
  }

  /** Reading back a printed value recovers it, whatever follows. */
  lemma {:induction false} PrintRoundTrip(v: Json, rest: Text)
    requires Valid(v) && Plain(v) && Delimited(rest)
    ensures Parse(Print(v) + rest) == Some((v, rest))
    decreases v
  {
    hide NumberToText, ReadNumeral, ReadLiteral, Quoted, ReadQuoted, ParseArray, ParseObject, PrintArray, PrintObject;
    var t := Print(v) + rest;
    match v
    case Null => LiteralRoundTrip(NULL_TEXT, Null, rest);
    case Bool(b) => LiteralRoundTrip(if b then TRUE_TEXT else FALSE_TEXT, v, rest);
    case Number(x) => NumeralRoundTrip(x, rest);
    case String(s) =>
      QuotedRoundTrip(s, rest);
      assert t[1..] == Quoted(s) + rest;
    case Array(items) =>
      ArrayRoundTrip(items, rest);
      assert t[1..] == PrintArray(items) + rest;
    case Object(fields) =>
      ObjectRoundTrip(fields, rest);
      assert t[1..] == PrintObject(fields) + rest;
  }

  lemma {:induction false} ArrayRoundTrip(items: Items, rest: Text)
    requires ValidItems(items) && PlainItems(items)
    ensures ParseArray(PrintArray(items) + rest) == Some((items, rest))
    decreases items, 0
  {
    hide Parse, ParseItems, Print, PrintItems;
    var t := PrintArray(items) + rest;
    if items.NoItems? {
      assert t[1..] == rest;
    } else {
      var tail := PrintItems(items.tail) + rest;
      PrintStarts(items.head);
      PrintRoundTrip(items.head, tail);
      ItemsRoundTrip(items.tail, rest);
      assert t == Print(items.head) + tail;
    }
  }

  lemma {:induction false} ObjectRoundTrip(f: Fields, rest: Text)
    requires ValidFields(f) && PlainFields(f)
    ensures ParseObject(PrintObject(f) + rest) == Some((f, rest))
    decreases f, 1
  {
    hide ParseField;
    var t := PrintObject(f) + rest;
    if f.NoFields? {
      assert t[1..] == rest;
    } else {
      assert t[0] == QUOTE by {
        assert PrintField(f)[0] == QUOTE;
      }
      FieldRoundTrip(f, rest);
    }
  }

  lemma {:induction false} ItemsRoundTrip(items: Items, rest: Text)
    requires ValidItems(items) && PlainItems(items)
    ensures ParseItems(PrintItems(items) + rest) == Some((items, rest))
    decreases items
  {
    hide Parse, Print;
    var t := PrintItems(items) + rest;
    if items.NoItems? {
      assert t[1..] == rest;
    } else {
      var tail := PrintItems(items.tail) + rest;
      PrintRoundTrip(items.head, tail);
      ItemsRoundTrip(items.tail, rest);
      assert t[1..] == Print(items.head) + tail;
    }
  }

  lemma {:induction false} FieldRoundTrip(f: Fields, rest: Text)
    requires f.Field? && ValidFields(f) && PlainFields(f)
    ensures ParseField(PrintField(f) + rest) == Some((f, rest))
    decreases f, 0
  {
    hide Parse, Print, Quoted, ReadQuoted;
    var t := PrintField(f) + rest;
    var tail := PrintFields(f.rest) + rest;
    var afterKey := [COLON] + Print(f.value) + tail;
    QuotedRoundTrip(f.key, afterKey);
    assert t[1..] == Quoted(f.key) + afterKey;
    assert afterKey[1..] == Print(f.value) + tail;
    PrintRoundTrip(f.value, tail);
    FieldsRoundTrip(f.rest, rest);
  }

  lemma {:induction false} FieldsRoundTrip(f: Fields, rest: Text)
    requires ValidFields(f) && PlainFields(f)
    ensures ParseFields(PrintFields(f) + rest) == Some((f, rest))
    decreases f, 1
  {
    hide ParseField, PrintField;
    var t := PrintFields(f) + rest;
    if f.NoFields? {
      assert t[1..] == rest;
    } else {
      FieldRoundTrip(f, rest);
      assert t[1..] == PrintField(f) + rest;
    }
  }
}
