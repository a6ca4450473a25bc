/** Payload values and their normal form: what `normalizeJson` does before the value is printed and hashed. */
module JsonValues {
  import opened Texts
  import opened NumberText

  /** A payload.  Objects list their own enumerable keys in whatever order the caller created them. */
  datatype Json =
    | Null
    | Bool(value: bool)
    | Number(number: Number)
    | NegativeZero
    | NotFinite
    | String(text: Text)
    | Date(iso: Text)
    | Unsupported
    | Array(items: Items)
    | Object(fields: Fields)

  datatype Items = NoItems | Item(head: Json, tail: Items)

  datatype Fields = NoFields | Field(key: Text, value: Json, rest: Fields)

  /** Assigning this key on a plain object sets its prototype instead of creating a property. */
  const PROTO: Text := Word("__proto__")

  function Keys(f: Fields): set<Text> {
    if f.NoFields? then {} else {f.key} + Keys(f.rest)
  }

  function Get(f: Fields, key: Text): Json
    requires key in Keys(f)
  {
    if f.key == key then f.value else Get(f.rest, key)
  }

  /** What every script value satisfies: numbers have digits and the keys of an object are distinct. */
  predicate Valid(v: Json) {
    match v
    case Number(x) => ValidNumber(x)
    case Array(items) => ValidItems(items)
    case Object(fields) => ValidFields(fields)
    case _ => true
  }

  predicate ValidItems(items: Items) { items.Item? ==> Valid(items.head) && ValidItems(items.tail) }

  predicate ValidFields(f: Fields) { f.Field? ==> f.key !in Keys(f.rest) && Valid(f.value) && ValidFields(f.rest) }

  /** No function, symbol, bigint or undefined anywhere; otherwise normalisation throws. */
  predicate Supported(v: Json) {
    match v
    case Unsupported => false
    case Array(items) => SupportedItems(items)
    case Object(fields) => SupportedFields(fields)
    case _ => true
  }

  predicate SupportedItems(items: Items) { items.Item? ==> Supported(items.head) && SupportedItems(items.tail) }

  predicate SupportedFields(f: Fields) { f.Field? ==> Supported(f.value) && SupportedFields(f.rest) }

  // ---------------------------------------------------------------- key order

  predicate LexLess(a: Text, b: Text) {
    if b == [] then false
    else if a == [] then true
    else a[0] < b[0] || (a[0] == b[0] && LexLess(a[1..], b[1..]))
  }

  /** A canonical array index, which property enumeration puts before every other key. */
  predicate IsIndex(key: Text) {
    key != [] && AllDigits(key) && (|key| == 1 || key[0] != ZERO) && NatValue(key) < 0xffff_ffff
  }

  /** Enumeration order of an object whose keys were inserted in code-unit order. */
  predicate KeyLess(a: Text, b: Text) {
    if IsIndex(a) != IsIndex(b) then IsIndex(a)
    else if IsIndex(a) && |a| != |b| then |a| < |b|
    else LexLess(a, b)
  }

  lemma {:induction false} LexTotal(a: Text, b: Text)
    ensures a == b || LexLess(a, b) || LexLess(b, a)
    ensures !(LexLess(a, b) && LexLess(b, a))
  {
    if a != [] && b != [] && a[0] == b[0] {
      LexTotal(a[1..], b[1..]);
      assert a == [a[0]] + a[1..] && b == [b[0]] + b[1..];
    }
  }

  lemma {:induction false} LexTransitive(a: Text, b: Text, c: Text)
    requires LexLess(a, b) && LexLess(b, c)
    ensures LexLess(a, c)
  {
    if a != [] && a[0] == b[0] == c[0] {
      LexTransitive(a[1..], b[1..], c[1..]);
    }
  }

  lemma KeyTotal(a: Text, b: Text)
    ensures a == b || KeyLess(a, b) || KeyLess(b, a)
    ensures !(KeyLess(a, b) && KeyLess(b, a))
  {
    hide IsIndex;
    LexTotal(a, b);
  }

  lemma KeyTransitive(a: Text, b: Text, c: Text)
    requires KeyLess(a, b) && KeyLess(b, c)
    ensures KeyLess(a, c)
  {
    hide IsIndex;
    if LexLess(a, b) && LexLess(b, c) {
      LexTransitive(a, b, c);
    }
  }

  // ---------------------------------------------------------------- normal form

  function Insert(key: Text, value: Json, f: Fields): (r: Fields)
    ensures Keys(r) == {key} + Keys(f)
  {
    if f.NoFields? || KeyLess(key, f.key) then Field(key, value, f)
    else Field(f.key, f.value, Insert(key, value, f.rest))
  }

  function Normalize(v: Json): Json {
    match v
    case Date(iso) => String(iso)
    case Array(items) => Array(NormalizeItems(items))
    case Object(fields) => Object(NormalizeFields(fields))
    case _ => v
  }

  function NormalizeItems(items: Items): Items {
    if items.NoItems? then NoItems else Item(Normalize(items.head), NormalizeItems(items.tail))
  }

  function NormalizeFields(f: Fields): (r: Fields)
    ensures Keys(r) == Keys(f) - {PROTO}
  {
    if f.NoFields? then NoFields
    else if f.key == PROTO then NormalizeFields(f.rest)
    else Insert(f.key, Normalize(f.value), NormalizeFields(f.rest))
  }

  predicate Sorted(f: Fields) {
    f.Field? ==> (forall k <- Keys(f.rest) :: KeyLess(f.key, k)) && Sorted(f.rest)
  }

  lemma {:induction false} InsertSorts(key: Text, value: Json, f: Fields)
    requires Sorted(f) && key !in Keys(f)
    ensures Sorted(Insert(key, value, f))
    ensures Get(Insert(key, value, f), key) == value
    ensures forall k <- Keys(f) :: Get(Insert(key, value, f), k) == Get(f, k)
  {
    hide KeyLess;
    if f.Field? {
      KeyTotal(key, f.key);
      InsertSorts(key, value, f.rest);
      if KeyLess(key, f.key) {
        forall k <- Keys(f.rest) ensures KeyLess(key, k) {
          KeyTransitive(key, f.key, k);
        }
      }
    }
  }

  lemma {:induction false} NormalizeSorts(f: Fields)
    requires ValidFields(f)
    ensures Sorted(NormalizeFields(f))
    ensures forall k <- Keys(f) - {PROTO} :: Get(NormalizeFields(f), k) == Normalize(Get(f, k))
  {
    hide Normalize, Sorted;
    if f.Field? {
      NormalizeSorts(f.rest);
      if f.key != PROTO {
        InsertSorts(f.key, Normalize(f.value), NormalizeFields(f.rest));
      }
    } else {
      assert Sorted(NoFields) by { SortedEmpty(); }
    }
  }

  lemma SortedEmpty()
    ensures Sorted(NoFields)
  {}

  /** A sorted object is determined by what each key holds. */
  lemma {:induction false} SortedUnique(f: Fields, g: Fields)
    requires Sorted(f) && Sorted(g) && Keys(f) == Keys(g)
    requires forall k <- Keys(f) :: Get(f, k) == Get(g, k)
    ensures f == g
  {
    hide KeyLess;
    if f.Field? && g.Field? {
      KeyTotal(f.key, g.key);
      KeyTotal(f.key, f.key);
      KeyTotal(g.key, g.key);
      assert f.key == g.key;
      assert f.key !in Keys(f.rest) && g.key !in Keys(g.rest);
      assert Keys(f.rest) == Keys(f) - {f.key} == Keys(g.rest);
      forall k <- Keys(f.rest) ensures Get(f.rest, k) == Get(g.rest, k) {
        assert Get(f, k) == Get(g, k);
      }
      SortedUnique(f.rest, g.rest);
    }
  }

  // ---------------------------------------------------------------- content

  /** What survives printing: a date is its text, a number that is not finite is null, negative zero is zero,
      and the prototype key is not a property. */
  function Content(v: Json): Json {
    match v
    case NegativeZero => Number(Zero)
    case NotFinite => Null
    case Date(iso) => String(iso)
    case Array(items) => Array(ContentItems(items))
    case Object(fields) => Object(ContentFields(fields))
    case _ => v
  }

  function ContentItems(items: Items): Items {
    if items.NoItems? then NoItems else Item(Content(items.head), ContentItems(items.tail))
  }

  function ContentFields(f: Fields): (r: Fields)
    ensures Keys(r) == Keys(f) - {PROTO}
  {
    if f.NoFields? then NoFields
    else if f.key == PROTO then ContentFields(f.rest)
    else Field(f.key, Content(f.value), ContentFields(f.rest))
  }

  /** The values that standard JSON can express, which printing does not alter. */
  predicate Plain(v: Json) {
    match v
    case Null => true
    case Bool(_) => true
    case Number(_) => true
    case String(_) => true
    case Array(items) => PlainItems(items)
    case Object(fields) => PlainFields(fields)
    case _ => false
  }

  predicate PlainItems(items: Items) { items.Item? ==> Plain(items.head) && PlainItems(items.tail) }

  predicate PlainFields(f: Fields) { f.Field? ==> f.key != PROTO && Plain(f.value) && PlainFields(f.rest) }

  lemma {:induction false} PlainKeys(f: Fields)
    requires PlainFields(f)
    ensures PROTO !in Keys(f)
    ensures forall k <- Keys(f) :: Plain(Get(f, k))
  {
    if f.Field? { PlainKeys(f.rest); }
  }

  lemma {:induction false} ValidKeys(f: Fields)
    requires ValidFields(f)
    ensures forall k <- Keys(f) :: Valid(Get(f, k))
  {
    if f.Field? { ValidKeys(f.rest); }
  }

  lemma ContentIsPlain(v: Json)
    requires Valid(v) && Supported(v)
    ensures Valid(Content(v)) && Plain(Content(v))
    decreases v
  {
    match v
    case Array(items) => ContentItemsArePlain(items);
    case Object(fields) => ContentFieldsArePlain(fields);
    case _ =>
  }

  lemma ContentItemsArePlain(items: Items)
    requires ValidItems(items) && SupportedItems(items)
    ensures ValidItems(ContentItems(items)) && PlainItems(ContentItems(items))
    decreases items
  {
    if items.Item? {
      ContentIsPlain(items.head);
      ContentItemsArePlain(items.tail);
    }
  }

  lemma ContentFieldsArePlain(f: Fields)
    requires ValidFields(f) && SupportedFields(f)
    ensures ValidFields(ContentFields(f)) && PlainFields(ContentFields(f))
    decreases f
  {
    if f.Field? {
      ContentIsPlain(f.value);
      ContentFieldsArePlain(f.rest);
    }
  }

  /** On plain values nothing is lost. */
  lemma PlainIsContent(v: Json)
    requires Plain(v)
    ensures Content(v) == v
    decreases v
  {
    match v
    case Array(items) => PlainItemsAreContent(items);
    case Object(fields) => PlainFieldsAreContent(fields);
    case _ =>
  }

  lemma PlainItemsAreContent(items: Items)
    requires PlainItems(items)
    ensures ContentItems(items) == items
    decreases items
  {
    if items.Item? {
      PlainIsContent(items.head);
      PlainItemsAreContent(items.tail);
    }
  }

  lemma PlainFieldsAreContent(f: Fields)
    requires PlainFields(f)
    ensures ContentFields(f) == f
    decreases f
  {
    if f.Field? {
      PlainIsContent(f.value);
      PlainFieldsAreContent(f.rest);
    }
  }

  // ---------------------------------------------------------------- equality up to key order

  /** Equal at every leaf, with arrays in the same order and objects with the same keys in any order. */
  predicate Same(a: Json, b: Json)
    decreases a
  {
    match (a, b)
    case (Array(x), Array(y)) => SameItems(x, y)
    case (Object(f), Object(g)) => Keys(f) == Keys(g) && SameFields(f, g)
    case _ => a == b
  }

  predicate SameItems(x: Items, y: Items)
    decreases x
  {
    if x.NoItems? || y.NoItems? then x == y else Same(x.head, y.head) && SameItems(x.tail, y.tail)
  }

  predicate SameFields(f: Fields, g: Fields)
    requires Keys(f) <= Keys(g)
    decreases f
  {
    f.Field? ==> Same(f.value, Get(g, f.key)) && SameFields(f.rest, g)
  }

  /** Two plain values have one normal form exactly when they are equal up to key order. */
  lemma NormalFormsDecideSameness(a: Json, b: Json)
    requires Valid(a) && Valid(b) && Plain(a) && Plain(b)
    ensures Normalize(a) == Normalize(b) <==> Same(a, b)
    decreases a
  {
    if a.Array? && b.Array? {
      ItemNormalFormsDecide(a.items, b.items);
    } else if a.Object? && b.Object? {
      var f, g := a.fields, b.fields;
      PlainKeys(f);
      PlainKeys(g);
      NormalizeSorts(f);
      NormalizeSorts(g);
      if Keys(f) == Keys(g) {
        FieldNormalFormsDecide(f, g);
        if SameFields(f, g) {
          SortedUnique(NormalizeFields(f), NormalizeFields(g));
        } else {
          assert exists k <- Keys(f) :: Normalize(Get(f, k)) != Normalize(Get(g, k));
        }
      }
    }
  }

  lemma ItemNormalFormsDecide(x: Items, y: Items)
    requires ValidItems(x) && ValidItems(y) && PlainItems(x) && PlainItems(y)
    ensures NormalizeItems(x) == NormalizeItems(y) <==> SameItems(x, y)
    decreases x
  {
    if x.Item? && y.Item? {
      NormalFormsDecideSameness(x.head, y.head);
      ItemNormalFormsDecide(x.tail, y.tail);
    }
  }

  ghost predicate SameByKey(f: Fields, g: Fields)
    requires Keys(f) <= Keys(g)
  {
    forall k <- Keys(f) :: Normalize(Get(f, k)) == Normalize(Get(g, k))
  }

  lemma FieldNormalFormsDecide(f: Fields, g: Fields)
    requires ValidFields(f) && ValidFields(g) && PlainFields(f) && PlainFields(g) && Keys(f) <= Keys(g)
    ensures SameFields(f, g) <==> SameByKey(f, g)
    decreases f
  {
    hide Normalize, Same;
    if f.Field? {
      PlainKeys(g);
      ValidKeys(g);
      NormalFormsDecideSameness(f.value, Get(g, f.key));
      FieldNormalFormsDecide(f.rest, g);
      assert Get(f, f.key) == f.value;
      assert forall k <- Keys(f.rest) :: Get(f, k) == Get(f.rest, k);
    }
  }

  // ---------------------------------------------------------------- idempotence

  lemma InsertLeast(key: Text, value: Json, f: Fields)
    requires forall k <- Keys(f) :: KeyLess(key, k)
    ensures Insert(key, value, f) == Field(key, value, f)
  {}

  /** Normalising twice changes nothing. */
  lemma NormalizeIsIdempotent(v: Json)
    requires Valid(v)
    ensures Normalize(Normalize(v)) == Normalize(v)
    decreases v
  {
    match v
    case Array(items) => NormalizeItemsIsIdempotent(items);
    case Object(fields) =>
      NormalizeSorts(fields);
      FieldValuesAreNormal(fields);
      SortedIsNormal(NormalizeFields(fields));
    case _ =>
  }

  lemma NormalizeItemsIsIdempotent(items: Items)
    requires ValidItems(items)
    ensures NormalizeItems(NormalizeItems(items)) == NormalizeItems(items)
    decreases items
  {
    if items.Item? {
      NormalizeIsIdempotent(items.head);
      NormalizeItemsIsIdempotent(items.tail);
    }
  }

  lemma FieldValuesAreNormal(f: Fields)
    requires ValidFields(f)
    ensures forall k <- Keys(f) :: Normalize(Normalize(Get(f, k))) == Normalize(Get(f, k))
    decreases f
  {
    hide Normalize;
    if f.Field? {
      NormalizeIsIdempotent(f.value);
      FieldValuesAreNormal(f.rest);
      assert forall k <- Keys(f.rest) :: Get(f, k) == Get(f.rest, k);
    }
  }

  lemma {:induction false} SortedIsNormal(f: Fields)
    requires Sorted(f) && PROTO !in Keys(f)
    requires forall k <- Keys(f) :: Normalize(Get(f, k)) == Get(f, k)
    ensures NormalizeFields(f) == f
  {
    hide KeyLess, Normalize;
    if f.Field? {
      KeyTotal(f.key, f.key);
      assert f.key !in Keys(f.rest);
      forall k <- Keys(f.rest) ensures Normalize(Get(f.rest, k)) == Get(f.rest, k) {
        assert Get(f, k) == Get(f.rest, k);
      }
      SortedIsNormal(f.rest);
      assert Get(f, f.key) == f.value;
      InsertLeast(f.key, f.value, f.rest);
    }
  }
}
