/** The commerce stores as they run: each command checks and writes row by row inside one transaction, whose working
    copy becomes the tables only when every statement succeeded. */
module OrderStore {
  import opened Wrappers
  import opened Texts
  import opened QuoteMoney
  import opened OrderConversion
  import opened SortedByKey
  import Doubles

  // ---------------------------------------------------------------- parsing an intent

  /** One requested line as received; `forged` says that it carries a field outside the contract. */
  datatype RawIntent = RawIntent(lineNumber: Option<int>, quantity: Option<int>, forged: bool)

  datatype IntentError = CommandInvalid | EffectForged | QuantityInvalid

  predicate IntentFields(raw: RawIntent) {
    !raw.forged && PositiveInteger(raw.lineNumber) && PositiveInteger(raw.quantity)
  }

  function RequestOf(raw: RawIntent): IntentLine
    requires IntentFields(raw)
  {
    IntentLine(raw.lineNumber.value, raw.quantity.value)
  }

  function IntentOf(raws: seq<RawIntent>): (lines: seq<IntentLine>)
    requires forall raw <- raws :: IntentFields(raw)
    ensures |lines| == |raws| && forall i :: 0 <= i < |raws| ==> lines[i] == RequestOf(raws[i])
  {
    seq(|raws|, i requires 0 <= i < |raws| => assert raws[i] in raws; RequestOf(raws[i]))
  }

  function IntentNumber(line: IntentLine): int { line.lineNumber }

  ghost predicate Requests(lines: seq<IntentLine>, n: int) { exists line <- lines :: line.lineNumber == n }

  lemma RequestsGrow(lines: seq<IntentLine>, line: IntentLine)
    requires UniqueIntent(lines)
    ensures forall n :: Requests(lines + [line], n) <==> Requests(lines, n) || n == line.lineNumber
    ensures UniqueIntent(lines + [line]) <==> !Requests(lines, line.lineNumber)
  {
    var all := lines + [line];
    assert line in all;
    if Requests(lines, line.lineNumber) {
      var i :| 0 <= i < |lines| && lines[i].lineNumber == line.lineNumber;
      assert all[i].lineNumber == all[|lines|].lineNumber;
    } else {
      assert forall i :: 0 <= i < |lines| ==> lines[i] in lines;
    }
  }

  /** The parser lets an intent through exactly when its line numbers are unique and all its fields are positive
      integers, and returns its lines in ascending order. */
  method ParseIntent(raws: seq<RawIntent>) returns (result: Result<seq<IntentLine>, IntentError>)
    ensures result.Ok? <==>
      1 <= |raws| <= MAX_LINES && (forall raw <- raws :: IntentFields(raw)) && UniqueIntent(IntentOf(raws))
    ensures result.Ok? ==>
      UniqueIntent(result.value) && Ascending(IntentNumber, result.value)
      && multiset(result.value) == multiset(IntentOf(raws))
  {
    hide Requests;
    if |raws| < 1 || |raws| > MAX_LINES {
      return Err(CommandInvalid);
    }
    var seen: set<int>, lines: seq<IntentLine> := {}, [];
    assert forall n :: !Requests([], n) by { NothingRequested(); }
    for i := 0 to |raws|
      invariant |lines| == i && UniqueIntent(lines)
      invariant forall j :: 0 <= j < i ==> IntentFields(raws[j]) && lines[j] == RequestOf(raws[j])
      invariant forall n :: n in seen <==> Requests(lines, n)
    {
      var raw := raws[i];
      assert raw in raws;
      if raw.forged {
        return Err(EffectForged);
      }
      if !PositiveInteger(raw.lineNumber) {
        return Err(QuantityInvalid);
      }
      if raw.lineNumber.value in seen {
        if IntentFields(raw) {
          RequestsGrow(lines, RequestOf(raw));
          RepeatedNumber(raws, lines + [RequestOf(raw)]);
        }
        return Err(CommandInvalid);
      }
      if !PositiveInteger(raw.quantity) {
        return Err(QuantityInvalid);
      }
      RequestsGrow(lines, RequestOf(raw));
      lines, seen := lines + [RequestOf(raw)], seen + {raw.lineNumber.value};
    }
    assert lines == IntentOf(raws);
    assert UniqueBy(IntentNumber, lines);
    SortAscends(IntentNumber, lines);
    return Ok(Sort(IntentNumber, lines));
  }

  lemma NothingRequested()
    ensures forall n :: !Requests([], n)
  {}

  lemma RepeatedNumber(raws: seq<RawIntent>, prefix: seq<IntentLine>)
    requires |prefix| <= |raws| && !UniqueIntent(prefix)
    requires forall j :: 0 <= j < |prefix| ==> IntentFields(raws[j]) && prefix[j] == RequestOf(raws[j])
    ensures !((forall raw <- raws :: IntentFields(raw)) && UniqueIntent(IntentOf(raws)))
  {
    if forall raw <- raws :: IntentFields(raw) {
      var i, j :| 0 <= i < j < |prefix| && prefix[i].lineNumber == prefix[j].lineNumber;
      assert IntentOf(raws)[i].lineNumber == IntentOf(raws)[j].lineNumber;
    }
  }

  /** A requested line is taken exactly when it has nothing but a number and a quantity, both from 1 to a million. */
  lemma IntentFieldsExactly(raw: RawIntent)
    ensures IntentFields(raw) <==>
            !raw.forged && Within(raw.lineNumber, 1, 1_000_000) && Within(raw.quantity, 1, 1_000_000)
  {}

  // ---------------------------------------------------------------- the store

  /** A transaction commits what the rules say or changes nothing and reports why. */
  ghost predicate Outcome(
    before: Commerce, after: Commerce, expected: Result<Commerce, CommerceError>, error: Option<CommerceError>)
  {
    match expected
    case Ok(db) => after == db && error.None?
    case Err(e) => after == before && error == Some(e)
  }

  class CommerceStore {
    var tables: Commerce

    constructor ()
      ensures tables == NO_COMMERCE
    {
      tables := NO_COMMERCE;
    }

    /** The totals are computed in doubles, and the lines are inserted one by one. */
    method CreateQuote(c: CreateQuote) returns (error: Option<CommerceError>)
      requires Parsed(c.lines)
      modifies this
      ensures Outcome(old(tables), tables, AfterCreateQuote(old(tables), c), error)
    {
      if !c.accepted {
        return Some(CaseOrPolicyMissing);
      }
      forall line | line in c.lines ensures Price(line) <= Doubles.MAX_SAFE && Cost(line) <= Doubles.MAX_SAFE {
        var i :| 0 <= i < |c.lines| && c.lines[i] == line;
        PartIsLess(c.lines, i);
      }
      var subtotal, cost := FloatTotals(c.lines);
      LastSumDecides(c.lines);
      if c.quote in tables.quotes {
        return Some(QuoteExists);
      }
      var status := if c.approvalRequired then ApprovalRequired else Draft;
      var row := Quote(c.tenant, status, subtotal, cost, [], c.economicsId, c.approvalRequired, None, None);
      for i := 0 to |c.lines|
        invariant row == Quote(c.tenant, status, subtotal, cost, c.lines[..i], c.economicsId, c.approvalRequired,
                               None, None)
      {
        row := row.(lines := row.lines + [c.lines[i]]);
      }
      assert c.lines[..|c.lines|] == c.lines;
      tables := tables.(quotes := tables.quotes[c.quote := row]);
      return None;
    }

    method DecideQuote(c: Decide) returns (error: Option<CommerceError>)
      modifies this
      ensures Outcome(old(tables), tables, AfterDecide(old(tables), c), error)
    {
      if !HasQuote(tables, c.tenant, c.quote) {
        return Some(QuoteNotFound);
      }
      var row := tables.quotes[c.quote];
      if row.status != c.expectedStatus || row.economicsId != c.expectedEconomics {
        return Some(VersionConflict);
      }
      if !row.approvalRequired {
        return Some(ApprovalNotRequired);
      }
      if !c.authorized {
        return Some(AuthorityDenied);
      }
      if row.decision.Some? {
        return Some(AlreadyDecided);
      }
      row := row.(decision := Some(c.decision));
      row := row.(status := if c.decision == Approve then Approved else Rejected);
      tables := tables.(quotes := tables.quotes[c.quote := row]);
      return None;
    }

    /** The order row is inserted first, then the copied lines, then the quote is marked as converted. */
    method CreateOrder(c: CreateOrder) returns (error: Option<CommerceError>)
      modifies this
      ensures Outcome(old(tables), tables, AfterCreateOrder(old(tables), c), error)
    {
      if !HasQuote(tables, c.tenant, c.quote) {
        return Some(QuoteNotFound);
      }
      var quote := tables.quotes[c.quote];
      if quote.status != c.expectedStatus || quote.economicsId != c.expectedEconomics {
        return Some(VersionConflict);
      }
      if quote.status != CustomerAccepted {
        return Some(QuoteNotAccepted);
      }
      if quote.convertedOrder.Some? {
        return Some(AlreadyConverted);
      }
      if quote.approvalRequired && quote.decision != Some(Approve) {
        return Some(ApprovalMissing);
      }
      var work := tables;
      if c.order in work.orders || !QuoteIsFree(work, c.tenant, c.quote) {
        return Some(OrderExists);
      }
      var order := Order(c.tenant, c.quote, CREATED, 1, quote.subtotal, quote.subtotal, []);
      work := work.(orders := work.orders[c.order := order]);
      var copied := CopyLines(quote.lines);
      work := work.(orders := work.orders[c.order := order.(lines := copied)]);
      if |copied| < 1 {
        return Some(LinesMissing);
      }
      var converted := quote.(status := ConvertedToOrder, convertedOrder := Some(c.order));
      work := work.(quotes := work.quotes[c.quote := converted]);
      tables := work;
      return None;
    }

    method CopyLines(lines: seq<Line>) returns (copied: seq<OrderLine>)
      ensures copied == CopiedLines(lines)
    {
      copied := [];
      for i := 0 to |lines|
        invariant copied == CopiedLines(lines[..i])
      {
        copied := copied + [OrderLine(lines[i].lineNumber, lines[i].quantity, lines[i].unitPriceCents)];
      }
      assert lines[..|lines|] == lines;
    }

    method CanonicalLines(lines: seq<OrderLine>) returns (canonical: map<nat, nat>)
      ensures canonical == Canonical(lines)
    {
      canonical := map[];
      for i := 0 to |lines|
        invariant canonical == Canonical(lines[..i])
      {
        assert lines[..i + 1][..i] == lines[..i];
        canonical := canonical[lines[i].lineNumber := lines[i].quantity];
      }
      assert lines[..|lines|] == lines;
    }

    method RequestIntent(c: RequestIntent) returns (error: Option<CommerceError>)
      modifies this
      ensures Outcome(old(tables), tables, AfterRequestIntent(old(tables), c), error)
    {
      if !(c.order in tables.orders && tables.orders[c.order].tenant == c.tenant) {
        return Some(OrderNotFound);
      }
      var order := tables.orders[c.order];
      if order.status != c.expectedStatus || order.version != c.expectedVersion {
        return Some(VersionConflict);
      }
      var canonical := CanonicalLines(order.lines);
      for i := 0 to |c.lines|
        invariant forall j :: 0 <= j < i ==>
          c.lines[j].lineNumber in canonical && canonical[c.lines[j].lineNumber] == c.lines[j].quantity
      {
        if c.lines[i].lineNumber !in canonical || canonical[c.lines[i].lineNumber] != c.lines[i].quantity {
          assert c.lines[i] in c.lines;
          return Some(LineConflict);
        }
      }
      if |c.lines| != |canonical| {
        return Some(LineConflict);
      }
      if (c.tenant, c.intent) in tables.intents
         || exists i <- tables.intents :: tables.intents[i].tenant == c.tenant && tables.intents[i].order == c.order
                                          && tables.intents[i].key == c.key {
        return Some(IntentExists);
      }
      tables := tables.(intents := tables.intents[(c.tenant, c.intent) := Intent(c.tenant, c.order, c.key, c.lines)]);
      return None;
    }
  }
}
