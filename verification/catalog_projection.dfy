/** The catalog projection: from observed products and mapping evidence to quote-selectable rows. */
module CatalogProjection {
  import opened Wrappers
  import opened Texts

  // ---------------------------------------------------------------- mapping evidence

  datatype Mapping = Mapping(state: Option<Text>, freshness: Option<Text>, ref: Option<Text>)

  /** A mapping with the names it goes by: product, sku, product gid, variant gid and handle. */
  datatype MappingRow = MappingRow(names: seq<Option<Text>>, mapping: Mapping)

  datatype Evidence = Evidence(ref: Text, mapping: Mapping)

  predicate Usable(name: Option<Text>) { name.Some? && !Blank(name.value) }

  predicate Mentions(names: seq<Option<Text>>, ref: Text) { !Blank(ref) && Some(ref) in names }

  /** What the most recent row that mentions a name says; rows come most recent first. */
  function FirstMapping(rows: seq<MappingRow>, ref: Text): Option<Mapping> {
    if rows == [] then None
    else
      var row := rows[|rows| - 1];
      var earlier := FirstMapping(rows[..|rows| - 1], ref);
      if earlier.Some? then earlier else if Mentions(row.names, ref) then Some(row.mapping) else None
  }

  lemma {:induction false} FirstMappingIsMostRecent(rows: seq<MappingRow>, ref: Text)
    ensures match FirstMapping(rows, ref)
            case None => forall row <- rows :: !Mentions(row.names, ref)
            case Some(m) => exists k :: 0 <= k < |rows| && Mentions(rows[k].names, ref) && rows[k].mapping == m
                                        && forall j :: 0 <= j < k ==> !Mentions(rows[j].names, ref)
  {
    if rows != [] {
      var init, last := rows[..|rows| - 1], rows[|rows| - 1];
      FirstMappingIsMostRecent(init, ref);
      assert rows == init + [last];
      if FirstMapping(init, ref).None? && Mentions(last.names, ref) {
        assert forall j :: 0 <= j < |init| ==> rows[j] in init;
        assert Mentions(rows[|rows| - 1].names, ref);
      } else if FirstMapping(init, ref).Some? {
        var k :| 0 <= k < |init| && Mentions(init[k].names, ref) && init[k].mapping == FirstMapping(init, ref).value
                 && forall j :: 0 <= j < k ==> !Mentions(init[j].names, ref);
        assert rows[k] == init[k] && forall j :: 0 <= j < k ==> rows[j] == init[j];
      }
    }
  }

  /** What is known of a name after `rows` and the first names of the row after them. */
  ghost function SoFar(rows: seq<MappingRow>, names: seq<Option<Text>>, mapping: Mapping, ref: Text): Option<Mapping> {
    if FirstMapping(rows, ref).Some? then FirstMapping(rows, ref)
    else if Mentions(names, ref) then Some(mapping) else None
  }

  ghost predicate Collected(evidence: seq<Evidence>, seen: set<Text>, known: Text -> Option<Mapping>) {
    && (forall ref :: ref in seen <==> known(ref).Some?)
    && (forall e <- evidence :: known(e.ref) == Some(e.mapping))
    && (forall ref <- seen :: exists e <- evidence :: e.ref == ref)
  }

  lemma Collect(
    evidence: seq<Evidence>, seen: set<Text>, known: Text -> Option<Mapping>, e: Evidence,
    next: Text -> Option<Mapping>)
    requires Collected(evidence, seen, known) && e.ref !in seen
    requires forall ref :: next(ref) == if ref == e.ref then Some(e.mapping) else known(ref)
    ensures Collected(evidence + [e], seen + {e.ref}, next)
  {
    assert e in evidence + [e];
    forall ref | ref in seen ensures exists f <- evidence + [e] :: f.ref == ref {
      var f :| f in evidence && f.ref == ref;
      assert f in evidence + [e];
    }
  }

  method ReadMappings(rows: seq<MappingRow>) returns (evidence: seq<Evidence>, seen: set<Text>)
    ensures Collected(evidence, seen, ref => FirstMapping(rows, ref))
  {
    evidence, seen := [], {};
    for i := 0 to |rows|
      invariant Collected(evidence, seen, ref => FirstMapping(rows[..i], ref))
    {
      var row := rows[i];
      for j := 0 to |row.names|
        invariant Collected(evidence, seen, ref => SoFar(rows[..i], row.names[..j], row.mapping, ref))
      {
        assert row.names[..j + 1] == row.names[..j] + [row.names[j]];
        if Usable(row.names[j]) && row.names[j].value !in seen {
          var e := Evidence(row.names[j].value, row.mapping);
          Collect(evidence, seen, ref => SoFar(rows[..i], row.names[..j], row.mapping, ref), e,
                  ref => SoFar(rows[..i], row.names[..j + 1], row.mapping, ref));
          evidence, seen := evidence + [e], seen + {e.ref};
        }
      }
      assert row.names[..|row.names|] == row.names;
      assert rows[..i + 1][..i] == rows[..i];
      assert forall ref :: SoFar(rows[..i], row.names, row.mapping, ref) == FirstMapping(rows[..i + 1], ref);
    }
    assert rows[..|rows|] == rows;
  }

  function Found(index: map<Text, Mapping>, ref: Text): Option<Mapping> {
    if ref in index then Some(index[ref]) else None
  }

  /** Each name leads to the most recent row that mentions it. */
  method MappingIndex(rows: seq<MappingRow>) returns (index: map<Text, Mapping>)
    ensures forall ref :: Found(index, ref) == FirstMapping(rows, ref)
  {
    var evidence, seen := ReadMappings(rows);
    index := map[];
    for i := 0 to |evidence|
      invariant forall ref <- index :: FirstMapping(rows, ref) == Some(index[ref])
      invariant forall k :: 0 <= k < i ==> evidence[k].ref in index
    {
      index := index[evidence[i].ref := evidence[i].mapping];
    }
    forall ref | ref in seen ensures ref in index {
      var e :| e in evidence && e.ref == ref;
    }
  }

  // ---------------------------------------------------------------- products and selections

  datatype Variant = Variant(id: Option<Text>, sku: Option<Text>)

  datatype Product = Product(id: Text, shopifyId: Text, handle: Text, status: Text, variants: seq<Variant>)

  datatype Item = Item(product: Product, variant: Variant)

  datatype Reason =
    | ProductNotActive | VariantMissingId | MappingMissing
    | MappingState(state: Text) | MappingFreshness(freshness: Text)
    | CoverageNotCurrent | NotObservedInLatestSync

  datatype Selection = Selection(
    key: Text, item: Item, mapping: Option<Mapping>, reasons: seq<Reason>, selectable: bool)

  const ACTIVE: Text := Word("active")
  const ACCEPTED: Text := Word("accepted")
  const CURRENT: Text := Word("current")
  const DEFAULT: Text := Word("default")
  const STALE: Text := Word("STALE")

  predicate Given(t: Option<Text>) { t.Some? && t.value != [] }

  function VariantsOf(p: Product): (variants: seq<Variant>)
    ensures variants != []
  {
    if p.variants == [] then [Variant(None, None)] else p.variants
  }

  function ItemsOf(p: Product, n: nat): seq<Item>
    requires n <= |VariantsOf(p)|
  {
    seq(n, i requires 0 <= i < n => Item(p, VariantsOf(p)[i]))
  }

  function Items(products: seq<Product>): seq<Item> {
    if products == [] then []
    else
      var p := products[|products| - 1];
      Items(products[..|products| - 1]) + ItemsOf(p, |VariantsOf(p)|)
  }

  /** The source identity of a variant, in which a missing id reads as "default". */
  function Identity(item: Item): Text {
    item.product.shopifyId + [0] + (if item.variant.id.Some? then item.variant.id.value else DEFAULT)
  }

  ghost predicate UniqueItems(items: seq<Item>) {
    forall i, j :: 0 <= i < j < |items| ==> Identity(items[i]) != Identity(items[j])
  }

  function Keys(item: Item): seq<Option<Text>> {
    [Some(item.product.id), Some(item.product.shopifyId), Some(item.product.handle), item.variant.id, item.variant.sku]
  }

  function FirstFound(index: map<Text, Mapping>, keys: seq<Option<Text>>): Option<Mapping> {
    if keys == [] then None
    else if Given(keys[0]) && keys[0].value in index then Some(index[keys[0].value])
    else FirstFound(index, keys[1..])
  }

  function Reasons(item: Item, mapping: Option<Mapping>): seq<Reason> {
    (if Lower(item.product.status) != ACTIVE then [ProductNotActive] else [])
    + (if !Given(item.variant.id) then [VariantMissingId] else [])
    + (match mapping
       case None => [MappingMissing]
       case Some(m) =>
         (if Given(m.state) && m.state.value != ACCEPTED then [MappingState(m.state.value)] else [])
         + (if Given(m.freshness) && m.freshness.value != CURRENT then [MappingFreshness(m.freshness.value)] else []))
  }

  /** The digest that names a projection, of which nothing but its arguments is known. */
  type Naming = (Item, Option<Mapping>) -> Text

  function Select(names: Naming, index: map<Text, Mapping>, item: Item): Selection {
    var mapping := FirstFound(index, Keys(item));
    var reasons := Reasons(item, mapping);
    Selection(names(item, mapping), item, mapping, reasons, reasons == [])
  }

  function Selected(names: Naming, index: map<Text, Mapping>, items: seq<Item>): seq<Selection> {
    seq(|items|, i requires 0 <= i < |items| => Select(names, index, items[i]))
  }

  // ---------------------------------------------------------------- completion

  datatype Counts = Counts(exactPrecision: bool, products: nat, variants: nat)

  function Final(s: Selection, exact: bool): Selection {
    if exact then s
    else s.(reasons := if CoverageNotCurrent in s.reasons then s.reasons else s.reasons + [CoverageNotCurrent],
            selectable := false)
  }

  function Finals(selections: seq<Selection>, exact: bool): seq<Selection> {
    seq(|selections|, i requires 0 <= i < |selections| => Final(selections[i], exact))
  }

  function Eligible(selections: seq<Selection>): (n: nat)
    ensures n <= |selections|
  {
    if selections == [] then 0
    else Eligible(selections[..|selections| - 1]) + if selections[|selections| - 1].selectable then 1 else 0
  }

  function Ratio(observed: nat, expected: nat): (r: real)
    ensures 0.0 <= r <= 1.0
  {
    if expected == 0 then if observed == 0 then 1.0 else 0.0
    else if observed >= expected then 1.0
    else
      assert 0.0 <= observed as real / expected as real <= 1.0 by {
        assert observed as real / expected as real * expected as real == observed as real;
      }
      observed as real / expected as real
  }

  /** Coverage in hundredths of a percent. */
  function Coverage(exact: bool, products: nat, variants: nat, counts: Counts): nat {
    var a, b := Ratio(products, counts.products), Ratio(variants, counts.variants);
    var rounded := ((if a <= b then a else b) * 10000.0 + 0.5).Floor;
    if exact then 10000 else if rounded < 9999 then rounded else 9999
  }

  predicate Exact(counts: Counts, products: nat, variants: nat) {
    counts.exactPrecision && products == counts.products && variants == counts.variants
  }

  datatype Completion = Completion(
    exact: bool, selections: seq<Selection>, products: nat, variants: nat,
    eligible: nat, blocked: nat, coverage: nat)

  datatype IngestError = DuplicateSourceId | DuplicateProjection | IdempotencyConflict

  /** What a completed walk amounts to. */
  function Completed(names: Naming, index: map<Text, Mapping>, products: seq<Product>, counts: Counts): Completion {
    var items := Items(products);
    var exact := Exact(counts, |products|, |items|);
    var selections := Finals(Selected(names, index, items), exact);
    Completion(exact, selections, |products|, |items|, Eligible(selections), |items| - Eligible(selections),
               Coverage(exact, |products|, |items|, counts))
  }

  /** Full coverage is reported exactly when the counts are exact and match; then, and only then, can anything be
      selected for a quote; and every variant is either eligible or blocked. */
  lemma CompletionIsSound(names: Naming, index: map<Text, Mapping>, products: seq<Product>, counts: Counts)
    ensures var c := Completed(names, index, products, counts);
            && (c.coverage == 10000 <==> c.exact)
            && (c.exact <==> Exact(counts, |products|, |Items(products)|))
            && c.eligible == Eligible(c.selections) && c.eligible + c.blocked == c.variants == |c.selections|
            && (c.eligible > 0 ==> c.exact)
            && (forall s <- c.selections :: s.selectable <==> s.reasons == [])
  {
    var c := Completed(names, index, products, counts);
    if !c.exact {
      NoneEligible(c.selections);
    }
  }

  lemma {:induction false} NoneEligible(selections: seq<Selection>)
    requires forall s <- selections :: !s.selectable
    ensures Eligible(selections) == 0
  {
    if selections != [] {
      NoneEligible(selections[..|selections| - 1]);
    }
  }

  /** The items of a walk are its products' variants; a product without variants counts as one nameless variant. */
  lemma {:induction false} ItemsExactly(products: seq<Product>, item: Item)
    ensures item in Items(products) <==>
              && item.product in products
              && if item.product.variants == [] then item.variant == Variant(None, None)
                 else item.variant in item.product.variants
  {
    if products != [] {
      var init, p := products[..|products| - 1], products[|products| - 1];
      ItemsExactly(init, item);
      assert products == init + [p];
      var own := ItemsOf(p, |VariantsOf(p)|);
      assert item in own <==> item.product == p && item.variant in VariantsOf(p) by {
        if item.product == p && item.variant in VariantsOf(p) {
          var i :| 0 <= i < |VariantsOf(p)| && VariantsOf(p)[i] == item.variant;
          assert own[i] == item;
        }
      }
    }
  }

  /** Two items have the same source identity exactly when product and variant id agree, a missing id reading as
      "default"; for source ids without a null character. */
  lemma IdentityExactly(a: Item, b: Item)
    requires 0 !in a.product.shopifyId && 0 !in b.product.shopifyId
    ensures Identity(a) == Identity(b) <==>
              && a.product.shopifyId == b.product.shopifyId
              && (if a.variant.id.Some? then a.variant.id.value else Word("default"))
                 == (if b.variant.id.Some? then b.variant.id.value else Word("default"))
  {
    var m, n := |a.product.shopifyId|, |b.product.shopifyId|;
    if Identity(a) == Identity(b) {
      assert Identity(a)[m] == 0 && Identity(b)[n] == 0;
      assert forall i :: 0 <= i < m ==> Identity(a)[i] == a.product.shopifyId[i];
      assert forall i :: 0 <= i < n ==> Identity(b)[i] == b.product.shopifyId[i];
      assert m == n;
      assert Identity(a)[..m] == a.product.shopifyId && Identity(b)[..n] == b.product.shopifyId;
      assert Identity(a)[m + 1..] == (if a.variant.id.Some? then a.variant.id.value else Word("default"));
      assert Identity(b)[n + 1..] == (if b.variant.id.Some? then b.variant.id.value else Word("default"));
    }
  }

  /** Without exact counts the coverage is below 100 percent, and it is the worse of the two shares, to the nearest
      hundredth of a percent unless that would be 100. */
  lemma CoverageExactly(exact: bool, products: nat, variants: nat, counts: Counts)
    ensures var coverage := Coverage(exact, products, variants, counts);
            var a, b := Ratio(products, counts.products) * 10000.0, Ratio(variants, counts.variants) * 10000.0;
            && (exact <==> coverage == 10000)
            && (!exact ==> coverage as real <= a + 0.5 && coverage as real <= b + 0.5)
            && (!exact && coverage < 9999 ==> a < coverage as real + 0.5 || b < coverage as real + 0.5)
  {}

  lemma ShareExactly(observed: nat, expected: nat)
    ensures observed < expected ==> Ratio(observed, expected) * (expected as real) == observed as real
    ensures observed >= expected > 0 || (observed == expected == 0) ==> Ratio(observed, expected) == 1.0
    ensures observed > expected == 0 ==> Ratio(observed, expected) == 0.0
  {}

  ghost predicate Seen(items: seq<Item>, id: Text) { exists item <- items :: Identity(item) == id }

  /** Walks products and variants and refuses a repeated source identity. */
  method WalkProducts(names: Naming, index: map<Text, Mapping>, products: seq<Product>)
    returns (selections: seq<Selection>, ok: bool)
    ensures ok <==> UniqueItems(Items(products))
    ensures ok ==> selections == Selected(names, index, Items(products))
  {
    hide Select, Identity, Seen, UniqueItems;
    var observed: set<Text> := {};
    ghost var items: seq<Item> := [];
    selections := [];
    NothingSeen();
    for i := 0 to |products|
      invariant items == Items(products[..i]) && selections == Selected(names, index, items)
      invariant UniqueItems(items) && forall id :: id in observed <==> Seen(items, id)
    {
      var product := products[i];
      var variants := VariantsOf(product);
      ghost var before := items;
      assert ItemsOf(product, 0) == [];
      for j := 0 to |variants|
        invariant items == before + ItemsOf(product, j) && selections == Selected(names, index, items)
        invariant UniqueItems(items) && forall id :: id in observed <==> Seen(items, id)
      {
        var item := Item(product, variants[j]);
        assert ItemsOf(product, j + 1) == ItemsOf(product, j) + [item];
        assert items + [item] == before + ItemsOf(product, j + 1);
        UniqueGrows(items, item);
        if Identity(item) in observed {
          PrefixRepeats(products, i, before, j);
          return selections, false;
        }
        selections := selections + [Select(names, index, item)];
        observed := observed + {Identity(item)};
        items := items + [item];
      }
      assert products[..i + 1][..i] == products[..i];
    }
    assert products[..|products|] == products;
    return selections, true;
  }

  /** When the counts do not match, every selection is blocked after the fact. */
  method BlockAll(initial: seq<Selection>) returns (selections: seq<Selection>)
    ensures selections == Finals(initial, false)
  {
    selections := initial;
    for i := 0 to |selections|
      invariant |selections| == |initial|
      invariant forall k :: 0 <= k < |selections| ==>
        selections[k] == if k < i then Final(initial[k], false) else initial[k]
    {
      var s := selections[i];
      if CoverageNotCurrent !in s.reasons {
        s := s.(reasons := s.reasons + [CoverageNotCurrent]);
      }
      selections := selections[i := s.(selectable := false)];
    }
  }

  method BuildCompletion(names: Naming, index: map<Text, Mapping>, products: seq<Product>, counts: Counts)
    returns (result: Result<Completion, IngestError>)
    ensures result.Ok? <==> UniqueItems(Items(products))
    ensures result.Ok? ==> result.value == Completed(names, index, products, counts)
    ensures result.Err? ==> result.error == DuplicateSourceId
  {
    hide Select, Ratio, Identity;
    var selections, ok := WalkProducts(names, index, products);
    if !ok {
      return Err(DuplicateSourceId);
    }
    var exact := Exact(counts, |products|, |selections|);
    assert Finals(selections, true) == selections;
    if !exact {
      selections := BlockAll(selections);
    }
    var eligible := Eligible(selections);
    return Ok(Completion(exact, selections, |products|, |selections|, eligible, |selections| - eligible,
                         Coverage(exact, |products|, |selections|, counts)));
  }

  lemma NothingSeen()
    ensures UniqueItems([]) && forall id :: !Seen([], id)
  {}

  lemma UniqueGrows(items: seq<Item>, item: Item)
    requires UniqueItems(items)
    ensures UniqueItems(items + [item]) <==> !Seen(items, Identity(item))
    ensures forall id :: Seen(items + [item], id) <==> Seen(items, id) || Identity(item) == id
  {
    hide Identity;
    assert item in items + [item];
    if Seen(items, Identity(item)) {
      var k :| 0 <= k < |items| && Identity(items[k]) == Identity(item);
      assert (items + [item])[k] == items[k] && (items + [item])[|items|] == item;
    } else {
      assert forall k :: 0 <= k < |items| ==> items[k] in items;
    }
  }

  lemma {:induction false} PrefixRepeats(products: seq<Product>, i: nat, before: seq<Item>, j: nat)
    requires i < |products| && before == Items(products[..i]) && j < |VariantsOf(products[i])|
    requires !UniqueItems(before + ItemsOf(products[i], j + 1))
    ensures !UniqueItems(Items(products))
  {
    hide Identity;
    ItemsSplit(products, i);
    var all, part := Items(products), before + ItemsOf(products[i], j + 1);
    assert forall k :: 0 <= k < |part| ==> part[k] == all[k];
  }

  lemma {:induction false} ItemsSplit(products: seq<Product>, i: nat)
    requires i < |products|
    ensures Items(products[..i]) + ItemsOf(products[i], |VariantsOf(products[i])|) <= Items(products)
  {
    if i == |products| - 1 {
    } else {
      var init := products[..|products| - 1];
      ItemsSplit(init, i);
      assert init[..i] == products[..i];
    }
  }
}
