/** The projection table over runs of ingests, and how its pages are walked. */
module CatalogRuns {
  import opened Wrappers
  import opened Texts
  import opened CatalogProjection

  // ---------------------------------------------------------------- the table

  datatype Row = Row(selection: Selection, status: Text, selectable: bool, reasons: seq<Reason>)

  datatype RunRow = RunRow(
    commandHash: Text, current: bool, products: nat, variants: nat, eligible: nat, blocked: nat, coverage: nat,
    projections: nat)

  /** The last run that was not a replay, and the projections that it observed. */
  datatype Latest = Latest(run: Text, keys: set<Text>)

  datatype Catalog = Catalog(rows: map<Text, Row>, runs: map<Text, RunRow>, latest: Option<Latest>)

  const EMPTY := Catalog(map[], map[], None)

  /** `run` is the digest of the tenant and the idempotency key, `hash` that of the command. */
  datatype Ingest = Ingest(
    run: Text, hash: Text, products: seq<Product>, counts: Counts, mappings: seq<MappingRow>)

  function Stale(row: Row): Row {
    row.(status := STALE, selectable := false,
         reasons := if NotObservedInLatestSync in row.reasons then row.reasons
                    else row.reasons + [NotObservedInLatestSync])
  }

  function StaleAll(rows: map<Text, Row>): map<Text, Row> { map key <- rows :: Stale(rows[key]) }

  function RowOf(s: Selection): Row { Row(s, s.item.product.status, s.selectable, s.reasons) }

  function Upserted(rows: map<Text, Row>, selections: seq<Selection>): map<Text, Row> {
    if selections == [] then rows
    else
      var s := selections[|selections| - 1];
      Upserted(rows, selections[..|selections| - 1])[s.key := RowOf(s)]
  }

  function KeysOf(selections: seq<Selection>): set<Text> { set s <- selections :: s.key }

  predicate UniqueKeys(selections: seq<Selection>) {
    forall i, j :: 0 <= i < j < |selections| ==> selections[i].key != selections[j].key
  }

  function Named(rows: seq<MappingRow>): set<Text> {
    set row <- rows, name <- row.names | Usable(name) :: name.value
  }

  function IndexOf(rows: seq<MappingRow>): map<Text, Mapping> {
    map ref | ref in Named(rows) && FirstMapping(rows, ref).Some? :: FirstMapping(rows, ref).value
  }

  lemma IndexIs(rows: seq<MappingRow>, index: map<Text, Mapping>)
    requires forall ref :: Found(index, ref) == FirstMapping(rows, ref)
    ensures index == IndexOf(rows)
  {
    forall ref ensures ref in index <==> ref in IndexOf(rows) {
      assert Found(index, ref) == FirstMapping(rows, ref);
      FirstMappingIsMostRecent(rows, ref);
      if FirstMapping(rows, ref).Some? {
        var k :| 0 <= k < |rows| && Mentions(rows[k].names, ref);
        assert rows[k] in rows && Some(ref) in rows[k].names;
      }
    }
    forall ref | ref in index ensures index[ref] == IndexOf(rows)[ref] {
      assert Found(index, ref) == FirstMapping(rows, ref);
    }
  }

  function CompletionOf(names: Naming, c: Ingest): Completion {
    Completed(names, IndexOf(c.mappings), c.products, c.counts)
  }

  function RunOf(hash: Text, done: Completion): RunRow {
    RunRow(hash, done.exact, done.products, done.variants, done.eligible, done.blocked, done.coverage,
           |done.selections|)
  }

  /** One ingest: a replay changes nothing, an error changes nothing, and otherwise everything on file is marked as
      not observed before the observed projections are written. */
  ghost function AfterIngest(catalog: Catalog, names: Naming, c: Ingest): Result<Catalog, IngestError> {
    if c.run in catalog.runs then
      if catalog.runs[c.run].commandHash != c.hash then Err(IdempotencyConflict) else Ok(catalog)
    else if !UniqueItems(Items(c.products)) then Err(DuplicateSourceId)
    else
      var done := CompletionOf(names, c);
      if !UniqueKeys(done.selections) then Err(DuplicateProjection)
      else
        Ok(Catalog(Upserted(StaleAll(catalog.rows), done.selections), catalog.runs[c.run := RunOf(c.hash, done)],
                   Some(Latest(c.run, KeysOf(done.selections)))))
  }

  ghost function Next(catalog: Catalog, names: Naming, c: Ingest): Catalog {
    var r := AfterIngest(catalog, names, c);
    if r.Ok? then r.value else catalog
  }

  ghost function Run(catalog: Catalog, names: Naming, ingests: seq<Ingest>): Catalog
    decreases |ingests|
  {
    if ingests == [] then catalog else Run(Next(catalog, names, ingests[0]), names, ingests[1..])
  }

  // ---------------------------------------------------------------- what every run keeps

  function Selectable(rows: map<Text, Row>): set<Text> { set key <- rows | rows[key].selectable }

  /** A row is selectable exactly when nothing blocks it, and then the latest run observed it and was current. */
  ghost predicate RowValid(catalog: Catalog, key: Text)
    requires key in catalog.rows
  {
    var row := catalog.rows[key];
    && (row.selectable <==> row.reasons == [])
    && catalog.latest.Some? && catalog.latest.value.run in catalog.runs
    && (row.selectable ==> key in catalog.latest.value.keys && catalog.runs[catalog.latest.value.run].current)
    && (key !in catalog.latest.value.keys ==> row.status == STALE && NotObservedInLatestSync in row.reasons)
  }

  ghost predicate Valid(catalog: Catalog) {
    && (forall key <- catalog.rows :: RowValid(catalog, key))
    && (catalog.latest.Some? ==>
          && catalog.latest.value.run in catalog.runs && catalog.latest.value.keys <= catalog.rows.Keys
          && |Selectable(catalog.rows)| == catalog.runs[catalog.latest.value.run].eligible)
  }

  lemma LastKeyIsNew(selections: seq<Selection>)
    requires selections != [] && UniqueKeys(selections)
    ensures var init, last := selections[..|selections| - 1], selections[|selections| - 1];
            && UniqueKeys(init) && last.key !in KeysOf(init) && KeysOf(selections) == KeysOf(init) + {last.key}
            && forall s :: s in selections <==> s in init || s == last
  {
    assert selections == selections[..|selections| - 1] + [selections[|selections| - 1]];
  }

  lemma KeyIsListed(selections: seq<Selection>)
    ensures forall s <- selections :: s.key in KeysOf(selections)
  {}

  lemma {:induction false} UpsertedRows(rows: map<Text, Row>, selections: seq<Selection>)
    requires UniqueKeys(selections)
    ensures Upserted(rows, selections).Keys == rows.Keys + KeysOf(selections)
    ensures forall s <- selections :: s.key in KeysOf(selections) && Upserted(rows, selections)[s.key] == RowOf(s)
    ensures forall key <- rows :: key !in KeysOf(selections) ==> Upserted(rows, selections)[key] == rows[key]
  {
    if selections != [] {
      hide KeysOf, UniqueKeys, RowOf;
      UpsertedRows(rows, selections[..|selections| - 1]);
      LastKeyIsNew(selections);
      KeyIsListed(selections);
    }
  }

  lemma {:induction false} UpsertedCount(rows: map<Text, Row>, selections: seq<Selection>)
    requires UniqueKeys(selections) && forall key <- rows :: !rows[key].selectable
    ensures |Selectable(Upserted(rows, selections))| == Eligible(selections)
  {
    if selections == [] {
      assert Selectable(rows) == {};
    } else {
      hide KeysOf, UniqueKeys;
      var init, last := selections[..|selections| - 1], selections[|selections| - 1];
      LastKeyIsNew(selections);
      UpsertedCount(rows, init);
      UpsertedRows(rows, init);
      assert last.key !in Selectable(Upserted(rows, init));
      AddRow(Upserted(rows, init), last);
    }
  }

  lemma AddRow(rows: map<Text, Row>, s: Selection)
    requires s.key !in Selectable(rows)
    ensures |Selectable(rows[s.key := RowOf(s)])| == |Selectable(rows)| + if s.selectable then 1 else 0
  {
    assert Selectable(rows[s.key := RowOf(s)]) == Selectable(rows) + if s.selectable then {s.key} else {};
  }

  lemma AllStale(rows: map<Text, Row>)
    ensures StaleAll(rows).Keys == rows.Keys
    ensures forall key <- rows :: var row := StaleAll(rows)[key];
              !row.selectable && row.status == STALE && NotObservedInLatestSync in row.reasons
  {}

  /** The table after a walk: rows not observed are stale, rows observed are what their selection says. */
  lemma WrittenRowsAreValid(before: map<Text, Row>, done: Completion, after: Catalog)
    requires UniqueKeys(done.selections)
    requires forall s <- done.selections :: (s.selectable <==> s.reasons == []) && (s.selectable ==> done.exact)
    requires after.rows == Upserted(StaleAll(before), done.selections)
    requires after.latest.Some? && after.latest.value.keys == KeysOf(done.selections)
    requires after.latest.value.run in after.runs && after.runs[after.latest.value.run].current == done.exact
    ensures after.latest.value.keys <= after.rows.Keys
    ensures forall key <- after.rows :: RowValid(after, key)
  {
    hide Stale, StaleAll, Upserted, UniqueKeys;
    AllStale(before);
    UpsertedRows(StaleAll(before), done.selections);
    forall key | key in after.rows ensures RowValid(after, key) {
      if key in KeysOf(done.selections) {
        var s :| s in done.selections && s.key == key;
        assert after.rows[key] == RowOf(s);
      }
    }
  }

  lemma IngestKeepsValid(catalog: Catalog, names: Naming, c: Ingest)
    requires Valid(catalog)
    ensures Valid(Next(catalog, names, c))
  {
    hide Completed, UniqueItems, Items, IndexOf, Upserted, UniqueKeys;
    hide Stale, StaleAll, KeysOf, RowValid, Selectable, Coverage;
    var r := AfterIngest(catalog, names, c);
    if r.Ok? && c.run !in catalog.runs {
      var done := CompletionOf(names, c);
      CompletionIsSound(names, IndexOf(c.mappings), c.products, c.counts);
      SelectableMeansExact(names, c);
      AllStale(catalog.rows);
      UpsertedCount(StaleAll(catalog.rows), done.selections);
      WrittenRowsAreValid(catalog.rows, done, r.value);
    }
  }

  lemma SelectableMeansExact(names: Naming, c: Ingest)
    ensures var done := CompletionOf(names, c); forall s <- done.selections :: s.selectable ==> done.exact
  {
    hide Items, IndexOf, Select, Coverage;
    var done := CompletionOf(names, c);
    forall s | s in done.selections ensures s.selectable ==> done.exact {
      var i :| 0 <= i < |done.selections| && done.selections[i] == s;
    }
  }

  /** Over every run of ingests and replays: a row is selectable exactly when its blocked reasons are empty, a
      selectable row was observed in the latest run, that run was current, and it reported as many eligible
      variants as the table has selectable rows. */
  lemma {:induction false} RunKeepsValid(catalog: Catalog, names: Naming, ingests: seq<Ingest>)
    requires Valid(catalog)
    ensures Valid(Run(catalog, names, ingests))
    decreases |ingests|
  {
    hide Valid, Next;
    if ingests != [] {
      IngestKeepsValid(catalog, names, ingests[0]);
      RunKeepsValid(Next(catalog, names, ingests[0]), names, ingests[1..]);
    }
  }

  /** Ingesting again under the same key is answered from the record of the first time, whatever came between. */
  lemma {:induction false} ReplayIsRecorded(catalog: Catalog, names: Naming, c: Ingest, between: seq<Ingest>)
    requires AfterIngest(catalog, names, c).Ok?
    ensures var first := Next(catalog, names, c);
            var later := Run(first, names, between);
            && c.run in first.runs && c.run in later.runs && later.runs[c.run] == first.runs[c.run]
            && AfterIngest(later, names, c) == Ok(later)
            && forall d: Ingest :: d.run == c.run && d.hash != c.hash ==>
                 AfterIngest(later, names, d) == Err(IdempotencyConflict)
  {
    hide Completed, UniqueItems, Items, IndexOf, Upserted, UniqueKeys;
    RunsStay(Next(catalog, names, c), names, between, c.run);
  }

  lemma {:induction false} RunsStay(catalog: Catalog, names: Naming, ingests: seq<Ingest>, run: Text)
    requires run in catalog.runs
    ensures run in Run(catalog, names, ingests).runs && Run(catalog, names, ingests).runs[run] == catalog.runs[run]
    decreases |ingests|
  {
    hide Completed, UniqueItems, Items, IndexOf, Upserted, UniqueKeys;
    if ingests != [] {
      RunsStay(Next(catalog, names, ingests[0]), names, ingests[1..], run);
    }
  }

  // ---------------------------------------------------------------- what makes a variant selectable

  /** Row `k` is the most recent one that mentions a name. */
  ghost predicate MostRecent(rows: seq<MappingRow>, ref: Text, k: nat) {
    && !Blank(ref) && k < |rows| && Some(ref) in rows[k].names
    && forall j :: 0 <= j < k ==> Some(ref) !in rows[j].names
  }

  /** A key that leads to evidence: it is given, and some row mentions it. */
  ghost predicate Evidenced(rows: seq<MappingRow>, key: Option<Text>) {
    key.Some? && key.value != [] && exists k: nat :: MostRecent(rows, key.value, k)
  }

  /** The evidence on an item: what the most recent row says that mentions the first of its product id, source product
      id, handle, variant id and sku to be mentioned at all. */
  ghost predicate EvidenceOf(rows: seq<MappingRow>, item: Item, mapping: Option<Mapping>) {
    var keys := [Some(item.product.id), Some(item.product.shopifyId), Some(item.product.handle), item.variant.id,
                 item.variant.sku];
    match mapping
    case None => forall j :: 0 <= j < 5 ==> !Evidenced(rows, keys[j])
    case Some(m) => exists j: nat, k: nat :: j < 5 && Evidenced(rows, keys[j]) && MostRecent(rows, keys[j].value, k)
                                   && rows[k].mapping == m
                                   && forall i :: 0 <= i < j ==> !Evidenced(rows, keys[i])
  }

  lemma MostRecentIsFirst(rows: seq<MappingRow>, ref: Text)
    ensures ref in IndexOf(rows) <==> exists k: nat :: MostRecent(rows, ref, k)
    ensures ref in IndexOf(rows) ==>
              exists k: nat :: k < |rows| && MostRecent(rows, ref, k) && rows[k].mapping == IndexOf(rows)[ref]
  {
    FirstMappingIsMostRecent(rows, ref);
    if FirstMapping(rows, ref).Some? {
      var k :| 0 <= k < |rows| && Mentions(rows[k].names, ref) && rows[k].mapping == FirstMapping(rows, ref).value
               && forall j :: 0 <= j < k ==> !Mentions(rows[j].names, ref);
      assert MostRecent(rows, ref, k);
      assert rows[k] in rows && Some(ref) in rows[k].names && Usable(Some(ref));
    } else {
      forall k: nat ensures !MostRecent(rows, ref, k) {
        if k < |rows| {
          assert rows[k] in rows;
        }
      }
    }
  }

  lemma {:induction false} FirstFoundExactly(index: map<Text, Mapping>, keys: seq<Option<Text>>)
    ensures match FirstFound(index, keys)
            case None => forall j :: 0 <= j < |keys| ==> !(Given(keys[j]) && keys[j].value in index)
            case Some(m) => exists j :: 0 <= j < |keys| && Given(keys[j]) && keys[j].value in index
                                        && index[keys[j].value] == m
                                        && forall i :: 0 <= i < j ==> !(Given(keys[i]) && keys[i].value in index)
  {
    if keys != [] && !(Given(keys[0]) && keys[0].value in index) {
      FirstFoundExactly(index, keys[1..]);
      if FirstFound(index, keys).Some? {
        var j :| 0 <= j < |keys| - 1 && Given(keys[1..][j]) && keys[1..][j].value in index
                 && index[keys[1..][j].value] == FirstFound(index, keys).value
                 && forall i :: 0 <= i < j ==> !(Given(keys[1..][i]) && keys[1..][i].value in index);
        assert forall i :: 0 < i <= j ==> keys[i] == keys[1..][i - 1];
        assert Given(keys[j + 1]) && keys[j + 1].value in index;
      } else {
        assert forall j :: 0 < j < |keys| ==> keys[j] == keys[1..][j - 1];
      }
    }
  }

  lemma EvidenceIsFound(rows: seq<MappingRow>, item: Item)
    ensures EvidenceOf(rows, item, FirstFound(IndexOf(rows), Keys(item)))
  {
    hide IndexOf, FirstFound, MostRecent;
    var keys, index := Keys(item), IndexOf(rows);
    FirstFoundExactly(index, keys);
    forall j | 0 <= j < 5 ensures Evidenced(rows, keys[j]) <==> Given(keys[j]) && keys[j].value in index {
      if keys[j].Some? {
        MostRecentIsFirst(rows, keys[j].value);
      }
    }
    if FirstFound(index, keys).Some? {
      var m := FirstFound(index, keys).value;
      var j :| 0 <= j < |keys| && Given(keys[j]) && keys[j].value in index && index[keys[j].value] == m
               && forall i :: 0 <= i < j ==> !(Given(keys[i]) && keys[i].value in index);
      MostRecentIsFirst(rows, keys[j].value);
      var k: nat :| k < |rows| && MostRecent(rows, keys[j].value, k) && rows[k].mapping == m;
      assert Evidenced(rows, keys[j]);
    }
  }

  /** A mapping column that does not stand in the way: absent, empty, or the one good value. */
  predicate Passes(column: Option<Text>, good: Text) { column.None? || column.value == [] || column.value == good }

  predicate CountsAgree(c: Ingest) {
    c.counts.exactPrecision && |c.products| == c.counts.products && |Items(c.products)| == c.counts.variants
  }

  /** The one condition for offering an item in quotes: the counts of the walk agree with the source's exact counts,
      the product is active, the variant has an id, and the evidence on it is accepted and current. */
  ghost predicate Offerable(c: Ingest, item: Item, mapping: Option<Mapping>) {
    && EvidenceOf(c.mappings, item, mapping)
    && CountsAgree(c)
    && Lower(item.product.status) == Word("active")
    && item.variant.id.Some? && item.variant.id.value != []
    && mapping.Some? && Passes(mapping.value.state, Word("accepted"))
    && Passes(mapping.value.freshness, Word("current"))
  }

  /** When each reason to block an item is given. */
  ghost predicate ReasonsExactly(c: Ingest, item: Item, mapping: Option<Mapping>, reasons: seq<Reason>) {
    && (ProductNotActive in reasons <==> Lower(item.product.status) != Word("active"))
    && (VariantMissingId in reasons <==> item.variant.id.None? || item.variant.id.value == [])
    && (MappingMissing in reasons <==> mapping.None?)
    && (forall x :: MappingState(x) in reasons <==>
          mapping.Some? && mapping.value.state == Some(x) && x != [] && x != Word("accepted"))
    && (forall x :: MappingFreshness(x) in reasons <==>
          mapping.Some? && mapping.value.freshness == Some(x) && x != [] && x != Word("current"))
    && (CoverageNotCurrent in reasons <==> !CountsAgree(c))
    && NotObservedInLatestSync !in reasons
  }

  /** The part of the reasons that the evidence gives. */
  lemma MappingReasons(item: Item, mapping: Option<Mapping>) returns (first: seq<Reason>, second: seq<Reason>)
    ensures Reasons(item, mapping) == first + second
    ensures ProductNotActive in first <==> Lower(item.product.status) != ACTIVE
    ensures VariantMissingId in first <==> !Given(item.variant.id)
    ensures forall r <- first :: r == ProductNotActive || r == VariantMissingId
    ensures forall r :: r in second <==> MappingGives(mapping, r)
  {
    hide Lower;
    first := (if Lower(item.product.status) != ACTIVE then [ProductNotActive] else [])
             + (if !Given(item.variant.id) then [VariantMissingId] else []);
    second := match mapping
      case None => [MappingMissing]
      case Some(m) =>
        (if Given(m.state) && m.state.value != ACCEPTED then [MappingState(m.state.value)] else [])
        + (if Given(m.freshness) && m.freshness.value != CURRENT then [MappingFreshness(m.freshness.value)] else []);
  }

  predicate MappingGives(mapping: Option<Mapping>, r: Reason) {
    match r
    case MappingMissing => mapping.None?
    case MappingState(x) => mapping.Some? && Given(mapping.value.state) && mapping.value.state.value == x != ACCEPTED
    case MappingFreshness(x) =>
      mapping.Some? && Given(mapping.value.freshness) && mapping.value.freshness.value == x != CURRENT
    case _ => false
  }

  lemma PartsOfReasons(item: Item, mapping: Option<Mapping>)
    ensures var reasons := Reasons(item, mapping);
            && (ProductNotActive in reasons <==> Lower(item.product.status) != ACTIVE)
            && (VariantMissingId in reasons <==> !Given(item.variant.id))
            && (MappingMissing in reasons <==> mapping.None?)
            && (forall x :: MappingState(x) in reasons <==> MappingGives(mapping, MappingState(x)))
            && (forall x :: MappingFreshness(x) in reasons <==> MappingGives(mapping, MappingFreshness(x)))
            && CoverageNotCurrent !in reasons && NotObservedInLatestSync !in reasons
  {
    hide Reasons, Lower, Given;
    var first, second := MappingReasons(item, mapping);
    assert forall r :: r in first + second <==> r in first || r in second;
  }

  lemma ReasonsAre(item: Item, mapping: Option<Mapping>, exact: bool, c: Ingest)
    requires exact == CountsAgree(c)
    ensures var s := Final(Selection([], item, mapping, Reasons(item, mapping), Reasons(item, mapping) == []), exact);
            && ReasonsExactly(c, item, mapping, s.reasons)
            && (s.selectable <==> s.reasons == [])
            && s.item == item && s.mapping == mapping
  {
    hide Lower, CountsAgree, Reasons, ReasonsExactly, Word;
    var reasons := Reasons(item, mapping);
    ReasonsExactlyBut(item, mapping, c, reasons);
    if !exact {
      assert forall r :: r in reasons + [CoverageNotCurrent] <==> r in reasons || r == CoverageNotCurrent;
      ReasonsExactlyBut(item, mapping, c, reasons + [CoverageNotCurrent]);
    }
  }

  lemma ReasonsExactlyBut(item: Item, mapping: Option<Mapping>, c: Ingest, reasons: seq<Reason>)
    requires forall r :: r != CoverageNotCurrent ==> (r in reasons <==> r in Reasons(item, mapping))
    ensures CoverageNotCurrent !in Reasons(item, mapping)
    ensures (CoverageNotCurrent in reasons <==> !CountsAgree(c)) ==> ReasonsExactly(c, item, mapping, reasons)
  {
    hide Reasons, Lower, CountsAgree;
    assert ACTIVE == Word("active") && ACCEPTED == Word("accepted") && CURRENT == Word("current");
    hide Word;
    PartsOfReasons(item, mapping);
  }

  /** The i-th selection of a walk is of its i-th item; it names the evidence on the item, and it is selectable exactly
      when the item is offerable, its reasons saying exactly what is missing. */
  lemma SelectionExactly(names: Naming, c: Ingest, i: nat)
    requires i < |Items(c.products)|
    ensures var done, item := CompletionOf(names, c), Items(c.products)[i];
            && |done.selections| == |Items(c.products)|
            && var s := done.selections[i];
               && s.item == item && EvidenceOf(c.mappings, item, s.mapping)
               && ReasonsExactly(c, item, s.mapping, s.reasons)
               && (s.selectable <==> s.reasons == []) && (s.selectable <==> Offerable(c, item, s.mapping))
  {
    var item := Items(c.products)[i];
    var mapping := FirstFound(IndexOf(c.mappings), Keys(item));
    EvidenceIsFound(c.mappings, item);
    var exact := Exact(c.counts, |c.products|, |Items(c.products)|);
    ReasonsAre(item, mapping, exact, c);
    var s := CompletionOf(names, c).selections[i];
    assert s == Final(Select(names, IndexOf(c.mappings), item), exact);
    hide Final, Reasons, Lower, EvidenceOf, FirstFound, Items, IndexOf, Coverage, Word;
    SameFinal(names, item, mapping, exact, s);
    hide Select;
    NoReasonExactly(c, item, mapping, s.reasons);
  }

  lemma SameFinal(names: Naming, item: Item, mapping: Option<Mapping>, exact: bool, s: Selection)
    requires var reasons := Reasons(item, mapping);
             s == Final(Selection(names(item, mapping), item, mapping, reasons, reasons == []), exact)
    ensures var reasons := Reasons(item, mapping);
            var t := Final(Selection([], item, mapping, reasons, reasons == []), exact);
            s.reasons == t.reasons && s.selectable == t.selectable && s.item == t.item && s.mapping == t.mapping
  {}

  lemma NoReasonExactly(c: Ingest, item: Item, mapping: Option<Mapping>, reasons: seq<Reason>)
    requires ReasonsExactly(c, item, mapping, reasons) && EvidenceOf(c.mappings, item, mapping)
    ensures reasons == [] <==> Offerable(c, item, mapping)
  {
    hide EvidenceOf, CountsAgree, Word, Lower;
    if reasons != [] {
      assert reasons[0] in reasons;
      assert reasons[0].MappingState? ==> MappingState(reasons[0].state) in reasons;
      assert reasons[0].MappingFreshness? ==> MappingFreshness(reasons[0].freshness) in reasons;
    }
    if reasons == [] && mapping.Some? {
      if mapping.value.state.Some? {
        assert MappingState(mapping.value.state.value) !in reasons;
      }
      if mapping.value.freshness.Some? {
        assert MappingFreshness(mapping.value.freshness.value) !in reasons;
      }
    }
  }

  /** A row of the table that this ingest observed: the item it is of, the evidence, and what that means. */
  ghost predicate RowShows(c: Ingest, row: Row) {
    var item, mapping := row.selection.item, row.selection.mapping;
    && item in Items(c.products) && EvidenceOf(c.mappings, item, mapping)
    && (row.selectable <==> Offerable(c, item, mapping)) && ReasonsExactly(c, item, mapping, row.reasons)
    && row.status == item.product.status
  }

  /** After an ingest that is no replay, every observed row is selectable exactly when its item is offerable, every
      other row is stale and not selectable, and every item observed has its row. */
  lemma RowsExactly(catalog: Catalog, names: Naming, c: Ingest)
    requires AfterIngest(catalog, names, c).Ok? && c.run !in catalog.runs
    ensures var after := AfterIngest(catalog, names, c).value;
            && after.latest.Some? && after.latest.value.run == c.run
            && (forall key <- after.rows ::
                  if key in after.latest.value.keys then RowShows(c, after.rows[key])
                  else !after.rows[key].selectable && after.rows[key].status == Word("STALE")
                       && NotObservedInLatestSync in after.rows[key].reasons)
            && (forall item <- Items(c.products) ::
                  exists key :: key in after.latest.value.keys && key in after.rows
                                && after.rows[key].selection.item == item)
  {
    hide Completed, Items, IndexOf, Upserted, UniqueKeys, Stale, StaleAll, KeysOf, RowShows;
    var after, done := AfterIngest(catalog, names, c).value, CompletionOf(names, c);
    AllStale(catalog.rows);
    UpsertedRows(StaleAll(catalog.rows), done.selections);
    var items := Items(c.products);
    AsManySelections(names, c);
    forall key | key in after.rows && key in after.latest.value.keys ensures RowShows(c, after.rows[key]) {
      KeyHasSelection(done.selections, key);
      var s :| s in done.selections && s.key == key;
      var i :| 0 <= i < |done.selections| && done.selections[i] == s;
      SelectionExactly(names, c, i);
      SelectionShows(c, s, items[i]);
    }
    forall item | item in items
      ensures exists key :: key in after.latest.value.keys && key in after.rows
                            && after.rows[key].selection.item == item
    {
      var i :| 0 <= i < |items| && items[i] == item;
      SelectionExactly(names, c, i);
      var s := done.selections[i];
      assert s in done.selections;
      assert s.key in after.latest.value.keys && after.rows[s.key].selection.item == item;
    }
  }

  lemma AsManySelections(names: Naming, c: Ingest)
    ensures |CompletionOf(names, c).selections| == |Items(c.products)|
  {
    hide Items, IndexOf, Select, Coverage;
  }

  lemma KeyHasSelection(selections: seq<Selection>, key: Text)
    requires key in KeysOf(selections)
    ensures exists s :: s in selections && s.key == key
  {}

  lemma SelectionShows(c: Ingest, s: Selection, item: Item)
    requires item in Items(c.products) && s.item == item && EvidenceOf(c.mappings, item, s.mapping)
    requires ReasonsExactly(c, item, s.mapping, s.reasons) && (s.selectable <==> Offerable(c, item, s.mapping))
    ensures RowShows(c, RowOf(s))
  {
    hide EvidenceOf, Offerable, ReasonsExactly, Items;
  }

  lemma {:induction false} RunSplits(catalog: Catalog, names: Naming, ingests: seq<Ingest>)
    requires ingests != []
    ensures Run(catalog, names, ingests)
         == Next(Run(catalog, names, ingests[..|ingests| - 1]), names, ingests[|ingests| - 1])
    decreases |ingests|
  {
    hide Next;
    if |ingests| > 1 {
      RunSplits(Next(catalog, names, ingests[0]), names, ingests[1..]);
      assert ingests[1..][..|ingests| - 2] == ingests[..|ingests| - 1][1..];
    } else {
      assert ingests[..0] == [] && ingests[1..] == [];
    }
  }

  /** Over every run of ingests, whatever is selectable at the end was offerable in the last ingest that changed the
      table: its counts agreed, and the evidence given then was accepted and current. */
  lemma {:induction false} SelectableWasOfferable(names: Naming, ingests: seq<Ingest>, key: Text) returns (i: nat)
    requires key in Run(EMPTY, names, ingests).rows && Run(EMPTY, names, ingests).rows[key].selectable
    ensures i < |ingests|
    ensures var c, row := ingests[i], Run(EMPTY, names, ingests).rows[key];
            && row.selection.item in Items(c.products) && Offerable(c, row.selection.item, row.selection.mapping)
    ensures Run(EMPTY, names, ingests[..i + 1]) == Run(EMPTY, names, ingests) != Run(EMPTY, names, ingests[..i])
    decreases |ingests|
  {
    hide Completed, UniqueItems, Items, IndexOf, Upserted, UniqueKeys, Offerable, ReasonsExactly, EvidenceOf, Run;
    var last := |ingests| - 1;
    NothingRun(names, ingests);
    RunSplits(EMPTY, names, ingests);
    var before := Run(EMPTY, names, ingests[..last]);
    assert ingests[..|ingests|] == ingests;
    if Next(before, names, ingests[last]) == before {
      i := SelectableWasOfferable(names, ingests[..last], key);
      assert ingests[..last][..i + 1] == ingests[..i + 1] && ingests[..last][..i] == ingests[..i];
    } else {
      RowsExactly(before, names, ingests[last]);
      i := last;
    }
  }

  lemma NothingRun(names: Naming, ingests: seq<Ingest>)
    requires ingests == [] ==> Run(EMPTY, names, ingests) != EMPTY
    ensures ingests != []
  {}

  class CatalogStore {
    const names: Naming
    var catalog: Catalog

    constructor (names: Naming)
      ensures this.names == names && catalog == EMPTY
    {
      this.names, catalog := names, EMPTY;
    }

    method IngestProjection(c: Ingest) returns (result: Result<RunRow, IngestError>)
      modifies this`catalog
      ensures match AfterIngest(old(catalog), names, c)
              case Ok(after) => catalog == after && c.run in after.runs && result == Ok(after.runs[c.run])
              case Err(e) => catalog == old(catalog) && result == Err(e)
    {
      hide Completed, Items, IndexOf;
      if c.run in catalog.runs {
        if catalog.runs[c.run].commandHash != c.hash {
          return Err(IdempotencyConflict);
        }
        return Ok(catalog.runs[c.run]);
      }
      var index := MappingIndex(c.mappings);
      IndexIs(c.mappings, index);
      var built := BuildCompletion(names, index, c.products, c.counts);
      if built.Err? {
        return Err(DuplicateSourceId);
      }
      var done := built.value;
      if !UniqueKeys(done.selections) {
        return Err(DuplicateProjection);
      }
      var rows := StaleAll(catalog.rows);
      for i := 0 to |done.selections|
        invariant rows == Upserted(StaleAll(catalog.rows), done.selections[..i])
        invariant catalog == old(catalog)
      {
        assert done.selections[..i + 1][..i] == done.selections[..i];
        rows := rows[done.selections[i].key := RowOf(done.selections[i])];
      }
      assert done.selections[..|done.selections|] == done.selections;
      var run := RunOf(c.hash, done);
      catalog := Catalog(rows, catalog.runs[c.run := run], Some(Latest(c.run, KeysOf(done.selections))));
      return Ok(run);
    }
  }
}
