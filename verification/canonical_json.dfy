/** `canonicalJson` as a canonical form: two payloads print alike exactly when their contents agree up to key order. */
module CanonicalJson {
  import opened Wrappers
  import opened Texts
  import opened NumberText
  import opened JsonValues
  import opened JsonText

  lemma {:induction false} InsertIsValid(key: Text, value: Json, f: Fields)
    requires ValidFields(f) && Valid(value) && key !in Keys(f)
    ensures ValidFields(Insert(key, value, f))
  {
    hide Valid, KeyLess;
    if f.Field? && !KeyLess(key, f.key) {
      InsertIsValid(key, value, f.rest);
    }
  }

  lemma NormalizeIsValid(v: Json)
    requires Valid(v)
    ensures Valid(Normalize(v))
    decreases v
  {
    match v
    case Array(items) => NormalizeItemsIsValid(items);
    case Object(fields) => NormalizeFieldsIsValid(fields);
    case _ =>
  }

  lemma NormalizeItemsIsValid(items: Items)
    requires ValidItems(items)
    ensures ValidItems(NormalizeItems(items))
    decreases items
  {
    if items.Item? {
      NormalizeIsValid(items.head);
      NormalizeItemsIsValid(items.tail);
    }
  }

  lemma NormalizeFieldsIsValid(f: Fields)
    requires ValidFields(f)
    ensures ValidFields(NormalizeFields(f))
    decreases f
  {
    if f.Field? {
      NormalizeIsValid(f.value);
      NormalizeFieldsIsValid(f.rest);
      if f.key != PROTO {
        InsertIsValid(f.key, Normalize(f.value), NormalizeFields(f.rest));
      }
    }
  }

  /** The canonical text of a payload; none when the payload holds something that cannot be sent. */
  function Canonical(v: Json): Option<Text>
    requires Valid(v)
  {
    NormalizeIsValid(v);
    if Supported(v) then Some(Print(Normalize(v))) else None
  }

  // ---------------------------------------------------------------- printing shows the content only

  lemma {:induction false} ContentOfInsert(key: Text, value: Json, f: Fields)
    requires key != PROTO && PROTO !in Keys(f)
    ensures ContentFields(Insert(key, value, f)) == Insert(key, Content(value), ContentFields(f))
  {
    hide Content, KeyLess;
    if f.Field? && !KeyLess(key, f.key) {
      ContentOfInsert(key, value, f.rest);
    }
  }

  lemma ContentCommutes(v: Json)
    ensures Content(Normalize(v)) == Normalize(Content(v))
    decreases v
  {
    match v
    case Array(items) => ContentItemsCommute(items);
    case Object(fields) => ContentFieldsCommute(fields);
    case _ =>
  }

  lemma ContentItemsCommute(items: Items)
    ensures ContentItems(NormalizeItems(items)) == NormalizeItems(ContentItems(items))
    decreases items
  {
    if items.Item? {
      ContentCommutes(items.head);
      ContentItemsCommute(items.tail);
    }
  }

  lemma ContentFieldsCommute(f: Fields)
    ensures ContentFields(NormalizeFields(f)) == NormalizeFields(ContentFields(f))
    decreases f
  {
    if f.Field? {
      ContentCommutes(f.value);
      ContentFieldsCommute(f.rest);
      if f.key != PROTO {
        ContentOfInsert(f.key, Normalize(f.value), NormalizeFields(f.rest));
      }
    }
  }

  /** Every object within has lost its prototype key. */
  predicate NoProto(v: Json) {
    match v
    case Array(items) => NoProtoItems(items)
    case Object(fields) => NoProtoFields(fields)
    case _ => true
  }

  predicate NoProtoItems(items: Items) { items.Item? ==> NoProto(items.head) && NoProtoItems(items.tail) }

  predicate NoProtoFields(f: Fields) { f.Field? ==> f.key != PROTO && NoProto(f.value) && NoProtoFields(f.rest) }

  lemma {:induction false} InsertNoProto(key: Text, value: Json, f: Fields)
    requires key != PROTO && NoProto(value) && NoProtoFields(f)
    ensures NoProtoFields(Insert(key, value, f))
  {
    hide NoProto, KeyLess;
    if f.Field? && !KeyLess(key, f.key) {
      InsertNoProto(key, value, f.rest);
    }
  }

  lemma NormalizeHasNoProto(v: Json)
    ensures NoProto(Normalize(v))
    decreases v
  {
    match v
    case Array(items) => NormalizeItemsHaveNoProto(items);
    case Object(fields) => NormalizeFieldsHaveNoProto(fields);
    case _ =>
  }

  lemma NormalizeItemsHaveNoProto(items: Items)
    ensures NoProtoItems(NormalizeItems(items))
    decreases items
  {
    if items.Item? {
      NormalizeHasNoProto(items.head);
      NormalizeItemsHaveNoProto(items.tail);
    }
  }

  lemma NormalizeFieldsHaveNoProto(f: Fields)
    ensures NoProtoFields(NormalizeFields(f))
    decreases f
  {
    if f.Field? {
      NormalizeHasNoProto(f.value);
      NormalizeFieldsHaveNoProto(f.rest);
      if f.key != PROTO {
        InsertNoProto(f.key, Normalize(f.value), NormalizeFields(f.rest));
      }
    }
  }

  lemma PrintShowsContent(v: Json)
    requires Valid(v) && NoProto(v)
    ensures Valid(Content(v)) && Print(Content(v)) == Print(v)
    decreases v
  {
    match v
    case Array(items) => PrintItemsShowsContent(items);
    case Object(fields) => PrintFieldsShowsContent(fields);
    case _ =>
  }

  lemma PrintItemsShowsContent(items: Items)
    requires ValidItems(items) && NoProtoItems(items)
    ensures ValidItems(ContentItems(items))
    ensures PrintItems(ContentItems(items)) == PrintItems(items)
    ensures PrintArray(ContentItems(items)) == PrintArray(items)
    decreases items
  {
    if items.Item? {
      PrintShowsContent(items.head);
      PrintItemsShowsContent(items.tail);
    }
  }

  lemma PrintFieldsShowsContent(f: Fields)
    requires ValidFields(f) && NoProtoFields(f)
    ensures ValidFields(ContentFields(f))
    ensures PrintFields(ContentFields(f)) == PrintFields(f)
    ensures PrintObject(ContentFields(f)) == PrintObject(f)
    decreases f
  {
    if f.Field? {
      PrintShowsContent(f.value);
      PrintFieldsShowsContent(f.rest);
    }
  }

  // ---------------------------------------------------------------- the canonical form

  lemma {:induction false} InsertIsPlain(key: Text, value: Json, f: Fields)
    requires key != PROTO && Plain(value) && PlainFields(f)
    ensures PlainFields(Insert(key, value, f))
  {
    hide Plain, KeyLess;
    if f.Field? && !KeyLess(key, f.key) {
      InsertIsPlain(key, value, f.rest);
    }
  }

  lemma NormalizeIsPlain(v: Json)
    requires Plain(v)
    ensures Plain(Normalize(v))
    decreases v
  {
    match v
    case Array(items) => NormalizeItemsArePlain(items);
    case Object(fields) => NormalizeFieldsArePlain(fields);
    case _ =>
  }

  lemma NormalizeItemsArePlain(items: Items)
    requires PlainItems(items)
    ensures PlainItems(NormalizeItems(items))
    decreases items
  {
    if items.Item? {
      NormalizeIsPlain(items.head);
      NormalizeItemsArePlain(items.tail);
    }
  }

  lemma NormalizeFieldsArePlain(f: Fields)
    requires PlainFields(f)
    ensures PlainFields(NormalizeFields(f))
    decreases f
  {
    if f.Field? {
      NormalizeIsPlain(f.value);
      NormalizeFieldsArePlain(f.rest);
      InsertIsPlain(f.key, Normalize(f.value), NormalizeFields(f.rest));
    }
  }

  /** The canonical text can be read back: it holds the content of the payload, in normal form, and nothing else. */
  lemma CanonicalReadsBack(v: Json)
    requires Valid(v) && Supported(v)
    ensures Parse(Canonical(v).value) == Some((Normalize(Content(v)), []))
  {
    hide Parse, Print, Normalize, Content;
    var n := Normalize(v);
    NormalizeIsValid(v);
    NormalizeHasNoProto(v);
    PrintShowsContent(n);
    ContentCommutes(v);
    ContentIsPlain(v);
    NormalizeIsPlain(Content(v));
    PrintRoundTrip(Content(n), []);
    assert Print(Content(n)) + [] == Canonical(v).value;
  }

  /** Two payloads have the same canonical text exactly when their contents are equal up to key order. */
  lemma CanonicalExactly(a: Json, b: Json)
    requires Valid(a) && Valid(b) && Supported(a) && Supported(b)
    ensures Canonical(a) == Canonical(b) <==> Same(Content(a), Content(b))
  {
    hide Parse, Print, Normalize, Content, Same;
    CanonicalReadsBack(a);
    CanonicalReadsBack(b);
    ContentIsPlain(a);
    ContentIsPlain(b);
    NormalFormsDecideSameness(Content(a), Content(b));
    if Normalize(Content(a)) == Normalize(Content(b)) {
      CanonicalOfContent(a);
      CanonicalOfContent(b);
    }
  }

  lemma CanonicalOfContent(v: Json)
    requires Valid(v) && Supported(v)
    ensures Valid(Normalize(Content(v))) && Canonical(v) == Some(Print(Normalize(Content(v))))
  {
    hide Print, Normalize, Content;
    NormalizeIsValid(v);
    NormalizeHasNoProto(v);
    PrintShowsContent(Normalize(v));
    ContentCommutes(v);
  }

  /** With a collision-free digest, equal payload hashes mean equal contents; on plain JSON, equal payloads. */
  lemma HashExactly<Digest>(digest: Text -> Digest, a: Json, b: Json)
    requires Valid(a) && Valid(b) && Supported(a) && Supported(b)
    requires forall s, t :: digest(s) == digest(t) ==> s == t
    ensures digest(Canonical(a).value) == digest(Canonical(b).value) <==> Same(Content(a), Content(b))
    ensures Plain(a) && Plain(b) ==> Content(a) == a && Content(b) == b
  {
    CanonicalExactly(a, b);
    if Plain(a) && Plain(b) {
      PlainIsContent(a);
      PlainIsContent(b);
    }
  }

  lemma PrototypeIsDropped(v: Json)
    requires Valid(v) && Supported(v)
    ensures var o := Object(Field(PROTO, v, NoFields));
            && Valid(o) && Supported(o) && Normalize(o) == Object(NoFields)
            && Canonical(o) == Some(Print(Object(NoFields))) == Canonical(Object(NoFields))
  {
    var f := Field(PROTO, v, NoFields);
    assert ValidFields(f) && SupportedFields(f);
    assert NormalizeFields(f) == NormalizeFields(f.rest) == NoFields;
  }

  /** Outside plain JSON the text loses information: these payloads differ and print alike. */
  lemma ContentIsLost(iso: Text, v: Json)
    requires Valid(v) && Supported(v)
    ensures Canonical(NotFinite) == Canonical(Null)
    ensures Canonical(NegativeZero) == Canonical(Json.Number(Zero))
    ensures Canonical(Date(iso)) == Canonical(String(iso))
    ensures Canonical(Object(Field(PROTO, v, NoFields))) == Canonical(Object(NoFields))
  {
    PrototypeIsDropped(v);
  }
}
