/** Quotes, margin decisions, orders and fulfillment intents: what each command does to the commerce tables, and
    what holds over every run of commands. */
module OrderConversion {
  import opened Wrappers
  import opened Texts
  import opened QuoteMoney
  import opened SortedByKey
  import Doubles

  // ---------------------------------------------------------------- tables

  datatype QuoteStatus =
    Draft | ApprovalRequired | Approved | Rejected | CustomerAccepted | ConvertedToOrder | OtherStatus(name: Text)

  datatype Decision = Approve | Reject

  /** A quote with its lines, its only economics version and the decision recorded for that version. */
  datatype Quote = Quote(
    tenant: Text, status: QuoteStatus, subtotal: int, cost: int, lines: seq<Line>, economicsId: Text,
    approvalRequired: bool, decision: Option<Decision>, convertedOrder: Option<Text>)

  datatype OrderLine = OrderLine(lineNumber: nat, quantity: nat, unitPriceCents: nat)

  datatype Order = Order(
    tenant: Text, quote: Text, status: Text, version: nat, total: int, subtotal: int, lines: seq<OrderLine>)

  datatype IntentLine = IntentLine(lineNumber: nat, quantity: nat)

  datatype Intent = Intent(tenant: Text, order: Text, key: Text, lines: seq<IntentLine>)

  /** Quote and order ids are unique over all tenants; intent ids are unique within one. */
  datatype Commerce = Commerce(
    quotes: map<Text, Quote>, orders: map<Text, Order>, intents: map<(Text, Text), Intent>)

  const NO_COMMERCE := Commerce(map[], map[], map[])

  const CREATED: Text := Word("created")

  // ---------------------------------------------------------------- commands

  /** `accepted` stands for the answers of the case and policy tables, `approvalRequired` for the comparison of the
      margin percentage with the policy's threshold. */
  datatype CreateQuote = CreateQuote(
    tenant: Text, quote: Text, lines: seq<Line>, economicsId: Text, accepted: bool, approvalRequired: bool)

  /** `authorized` says that the actor is a person who holds the capability of the required role. */
  datatype Decide = Decide(
    tenant: Text, quote: Text, expectedStatus: QuoteStatus, expectedEconomics: Text, authorized: bool,
    decision: Decision)

  datatype CreateOrder = CreateOrder(
    tenant: Text, quote: Text, order: Text, expectedStatus: QuoteStatus, expectedEconomics: Text)

  datatype RequestIntent = RequestIntent(
    tenant: Text, intent: Text, order: Text, key: Text, expectedStatus: Text, expectedVersion: nat,
    lines: seq<IntentLine>)

  datatype CommerceError =
    | CaseOrPolicyMissing | QuoteExists | QuoteNotFound | VersionConflict | ApprovalNotRequired
    | AuthorityDenied | AlreadyDecided | QuoteNotAccepted | AlreadyConverted | ApprovalMissing
    | OrderExists | LinesMissing | OrderNotFound | LineConflict | IntentExists

  /** The lines that the parser lets through. */
  ghost predicate Parsed(lines: seq<Line>) {
    && lines != [] && Ascending(NumberOf, lines)
    && Subtotal(lines) <= Doubles.MAX_SAFE && TotalCost(lines) <= Doubles.MAX_SAFE
    && forall line <- lines :: line.lineNumber > 0 && line.quantity > 0
                               && line.unitPriceCents <= Doubles.MAX_SAFE && line.unitCostCents <= Doubles.MAX_SAFE
  }

  function AfterCreateQuote(db: Commerce, c: CreateQuote): Result<Commerce, CommerceError> {
    if !c.accepted then Err(CaseOrPolicyMissing)
    else if c.quote in db.quotes then Err(QuoteExists)
    else
      var status := if c.approvalRequired then ApprovalRequired else Draft;
      Ok(db.(quotes := db.quotes[c.quote := Quote(
        c.tenant, status, Subtotal(c.lines), TotalCost(c.lines), c.lines, c.economicsId, c.approvalRequired,
        None, None)]))
  }

  predicate HasQuote(db: Commerce, tenant: Text, quote: Text) {
    quote in db.quotes && db.quotes[quote].tenant == tenant
  }

  function AfterDecide(db: Commerce, c: Decide): Result<Commerce, CommerceError> {
    if !HasQuote(db, c.tenant, c.quote) then Err(QuoteNotFound)
    else
      var q := db.quotes[c.quote];
      if q.status != c.expectedStatus || q.economicsId != c.expectedEconomics then Err(VersionConflict)
      else if !q.approvalRequired then Err(ApprovalNotRequired)
      else if !c.authorized then Err(AuthorityDenied)
      else if q.decision.Some? then Err(AlreadyDecided)
      else
        var status := if c.decision == Approve then Approved else Rejected;
        Ok(db.(quotes := db.quotes[c.quote := q.(status := status, decision := Some(c.decision))]))
  }

  function CopiedLines(lines: seq<Line>): (copies: seq<OrderLine>)
    ensures |copies| == |lines|
    ensures forall i :: 0 <= i < |lines| ==>
      copies[i] == OrderLine(lines[i].lineNumber, lines[i].quantity, lines[i].unitPriceCents)
  {
    seq(|lines|, i requires 0 <= i < |lines| =>
      OrderLine(lines[i].lineNumber, lines[i].quantity, lines[i].unitPriceCents))
  }

  /** The unique index on the tenant and the quote of an order. */
  predicate QuoteIsFree(db: Commerce, tenant: Text, quote: Text) {
    forall o <- db.orders :: !(db.orders[o].tenant == tenant && db.orders[o].quote == quote)
  }

  function AfterCreateOrder(db: Commerce, c: CreateOrder): Result<Commerce, CommerceError> {
    if !HasQuote(db, c.tenant, c.quote) then Err(QuoteNotFound)
    else
      var q := db.quotes[c.quote];
      if q.status != c.expectedStatus || q.economicsId != c.expectedEconomics then Err(VersionConflict)
      else if q.status != CustomerAccepted then Err(QuoteNotAccepted)
      else if q.convertedOrder.Some? then Err(AlreadyConverted)
      else if q.approvalRequired && q.decision != Some(Approve) then Err(ApprovalMissing)
      else if c.order in db.orders || !QuoteIsFree(db, c.tenant, c.quote) then Err(OrderExists)
      else if q.lines == [] then Err(LinesMissing)
      else
        Ok(db.(orders := db.orders[c.order := Order(
                 c.tenant, c.quote, CREATED, 1, q.subtotal, q.subtotal, CopiedLines(q.lines))],
               quotes := db.quotes[c.quote := q.(status := ConvertedToOrder, convertedOrder := Some(c.order))]))
  }

  /** The order's quantities by line number. */
  function Canonical(lines: seq<OrderLine>): map<nat, nat> {
    if lines == [] then map[]
    else Canonical(lines[..|lines| - 1])[lines[|lines| - 1].lineNumber := lines[|lines| - 1].quantity]
  }

  predicate IntentMatches(intent: seq<IntentLine>, canonical: map<nat, nat>) {
    && (forall line <- intent :: line.lineNumber in canonical && canonical[line.lineNumber] == line.quantity)
    && |intent| == |canonical|
  }

  function AfterRequestIntent(db: Commerce, c: RequestIntent): Result<Commerce, CommerceError> {
    if !(c.order in db.orders && db.orders[c.order].tenant == c.tenant) then Err(OrderNotFound)
    else
      var o := db.orders[c.order];
      if o.status != c.expectedStatus || o.version != c.expectedVersion then Err(VersionConflict)
      else if !IntentMatches(c.lines, Canonical(o.lines)) then Err(LineConflict)
      else if (c.tenant, c.intent) in db.intents
              || exists i <- db.intents :: db.intents[i].tenant == c.tenant && db.intents[i].order == c.order
                                           && db.intents[i].key == c.key then Err(IntentExists)
      else Ok(db.(intents := db.intents[(c.tenant, c.intent) := Intent(c.tenant, c.order, c.key, c.lines)]))
  }

  // ---------------------------------------------------------------- runs

  /** The legacy writer may set the status of any quote or order, and the version of an order, at any time. */
  datatype Step =
    | DoCreateQuote(createQuote: CreateQuote)
    | DoDecide(decide: Decide)
    | DoCreateOrder(createOrder: CreateOrder)
    | DoRequestIntent(requestIntent: RequestIntent)
    | SetQuoteStatus(quote: Text, quoteStatus: QuoteStatus)
    | SetOrderStatus(order: Text, orderStatus: Text, version: nat)

  function Attempt(db: Commerce, s: Step): Result<Commerce, CommerceError> {
    match s
    case DoCreateQuote(c) => AfterCreateQuote(db, c)
    case DoDecide(c) => AfterDecide(db, c)
    case DoCreateOrder(c) => AfterCreateOrder(db, c)
    case DoRequestIntent(c) => AfterRequestIntent(db, c)
    case SetQuoteStatus(quote, status) =>
      if quote in db.quotes then Ok(db.(quotes := db.quotes[quote := db.quotes[quote].(status := status)]))
      else Err(QuoteNotFound)
    case SetOrderStatus(order, status, version) =>
      if order in db.orders then
        Ok(db.(orders := db.orders[order := db.orders[order].(status := status, version := version)]))
      else Err(OrderNotFound)
  }

  /** A command that fails leaves nothing behind. */
  function Next(db: Commerce, s: Step): Commerce {
    if Attempt(db, s).Ok? then Attempt(db, s).value else db
  }

  function Run(db: Commerce, steps: seq<Step>): Commerce
    decreases |steps|
  {
    if steps == [] then db else Run(Next(db, steps[0]), steps[1..])
  }

  ghost predicate UniqueIntent(lines: seq<IntentLine>) {
    forall i, j :: 0 <= i < j < |lines| ==> lines[i].lineNumber != lines[j].lineNumber
  }

  /** What the parsers guarantee of the commands. */
  ghost predicate WellFormed(s: Step) {
    match s
    case DoCreateQuote(c) => Parsed(c.lines)
    case DoRequestIntent(c) => UniqueIntent(c.lines)
    case _ => true
  }

  function OrderSum(lines: seq<OrderLine>): nat {
    if lines == [] then 0
    else OrderSum(lines[..|lines| - 1]) + lines[|lines| - 1].quantity * lines[|lines| - 1].unitPriceCents
  }

  ghost predicate QuoteValid(db: Commerce, id: Text)
    requires id in db.quotes
  {
    var q := db.quotes[id];
    && q.lines != [] && Ascending(NumberOf, q.lines) && q.subtotal == Subtotal(q.lines) && q.cost == TotalCost(q.lines)
    && (q.convertedOrder.Some? ==>
          && q.convertedOrder.value in db.orders && db.orders[q.convertedOrder.value].quote == id
          && (q.approvalRequired ==> q.decision == Some(Approve)))
  }

  ghost predicate OrderValid(db: Commerce, id: Text)
    requires id in db.orders
  {
    var o := db.orders[id];
    && o.quote in db.quotes
    && db.quotes[o.quote].convertedOrder == Some(id)
    && db.quotes[o.quote].tenant == o.tenant
    && o.total == o.subtotal == db.quotes[o.quote].subtotal
    && o.lines == CopiedLines(db.quotes[o.quote].lines)
  }

  ghost predicate IntentValid(db: Commerce, id: (Text, Text))
    requires id in db.intents
  {
    var i := db.intents[id];
    && i.order in db.orders && db.orders[i.order].tenant == i.tenant == id.0
    && UniqueIntent(i.lines)
    && IntentMatches(i.lines, Canonical(db.orders[i.order].lines))
  }

  ghost predicate Valid(db: Commerce) {
    && (forall id <- db.quotes :: QuoteValid(db, id))
    && (forall id <- db.orders :: OrderValid(db, id))
    && (forall id <- db.intents :: IntentValid(db, id))
  }

  /** Nothing but the statuses changed: the terms, the economics version, the order and a recorded decision. */
  predicate SameTerms(p: Quote, q: Quote) {
    && q.tenant == p.tenant && q.lines == p.lines && q.subtotal == p.subtotal && q.cost == p.cost
    && q.economicsId == p.economicsId && q.approvalRequired == p.approvalRequired
    && (p.decision.Some? ==> q.decision == p.decision)
    && (p.convertedOrder.Some? ==> q.convertedOrder == p.convertedOrder)
  }

  predicate SameOrder(p: Order, q: Order) { p.(status := q.status, version := q.version) == q }

  /** Rows are never removed, and keep what they promised. */
  ghost predicate Extends(before: Commerce, after: Commerce) {
    && (forall id <- before.quotes :: id in after.quotes && SameTerms(before.quotes[id], after.quotes[id]))
    && (forall id <- before.orders :: id in after.orders && SameOrder(before.orders[id], after.orders[id]))
    && (forall id <- before.intents :: id in after.intents && after.intents[id] == before.intents[id])
  }

  lemma NextExtends(db: Commerce, s: Step)
    ensures Extends(db, Next(db, s))
  {}

  lemma KeepsQuotes(db: Commerce, s: Step)
    requires Valid(db) && WellFormed(s)
    ensures forall id <- Next(db, s).quotes :: QuoteValid(Next(db, s), id)
  {
    hide Ascending, CopiedLines, IntentMatches, QuoteIsFree;
    var after := Next(db, s);
    forall id | id in after.quotes ensures QuoteValid(after, id) {
      if id in db.quotes {
        assert QuoteValid(db, id);
      }
    }
  }

  lemma KeepsOrders(db: Commerce, s: Step)
    requires Valid(db) && WellFormed(s)
    ensures forall id <- Next(db, s).orders :: OrderValid(Next(db, s), id)
  {
    hide Ascending, IntentMatches, QuoteIsFree, Parsed;
    var after := Next(db, s);
    forall id | id in after.orders ensures OrderValid(after, id) {
      if id in db.orders {
        assert OrderValid(db, id);
      }
    }
  }

  lemma KeepsIntents(db: Commerce, s: Step)
    requires Valid(db) && WellFormed(s)
    ensures forall id <- Next(db, s).intents :: IntentValid(Next(db, s), id)
  {
    hide Ascending, IntentMatches, QuoteIsFree, Parsed, Canonical, UniqueIntent;
    var after := Next(db, s);
    NextExtends(db, s);
    forall id | id in after.intents ensures IntentValid(after, id) {
      if id in db.intents {
        assert IntentValid(db, id);
      }
    }
  }

  lemma NextKeepsValid(db: Commerce, s: Step)
    requires Valid(db) && WellFormed(s)
    ensures Valid(Next(db, s))
  {
    KeepsQuotes(db, s);
    KeepsOrders(db, s);
    KeepsIntents(db, s);
  }

  lemma {:induction false} RunKeepsValid(db: Commerce, steps: seq<Step>)
    requires Valid(db) && forall s <- steps :: WellFormed(s)
    ensures Valid(Run(db, steps))
    decreases |steps|
  {
    hide Valid, Next;
    if steps != [] {
      NextKeepsValid(db, steps[0]);
      RunKeepsValid(Next(db, steps[0]), steps[1..]);
    }
  }

  lemma {:induction false} RunExtends(db: Commerce, steps: seq<Step>)
    ensures Extends(db, Run(db, steps))
    decreases |steps|
  {
    hide Next;
    if steps != [] {
      NextExtends(db, steps[0]);
      RunExtends(Next(db, steps[0]), steps[1..]);
    }
  }

  /** A quote becomes at most one order, over every run. */
  lemma OneOrderPerQuote(steps: seq<Step>, a: Text, b: Text)
    requires forall s <- steps :: WellFormed(s)
    requires var db := Run(NO_COMMERCE, steps);
             a in db.orders && b in db.orders && db.orders[a].quote == db.orders[b].quote
    ensures a == b
  {
    RunKeepsValid(NO_COMMERCE, steps);
    var db := Run(NO_COMMERCE, steps);
    assert OrderValid(db, a) && OrderValid(db, b);
  }

  /** Once converted, a quote can be neither decided upon nor converted again, and keeps its terms and its order,
      whatever else happens. */
  lemma ConvertedIsFinal(db: Commerce, id: Text, steps: seq<Step>, d: Decide, c: CreateOrder)
    requires Valid(db) && id in db.quotes && db.quotes[id].convertedOrder.Some?
    requires forall s <- steps :: WellFormed(s)
    requires d.quote == id && c.quote == id
    ensures var later := Run(db, steps);
            && id in later.quotes && SameTerms(db.quotes[id], later.quotes[id])
            && AfterDecide(later, d).Err? && AfterCreateOrder(later, c).Err?
  {
    hide Next;
    RunExtends(db, steps);
    RunKeepsValid(db, steps);
    assert QuoteValid(Run(db, steps), id);
  }

  lemma {:induction false} CopiesKeepTheSum(lines: seq<Line>)
    ensures OrderSum(CopiedLines(lines)) == Subtotal(lines)
  {
    if lines != [] {
      var init := lines[..|lines| - 1];
      assert CopiedLines(lines)[..|lines| - 1] == CopiedLines(init);
      CopiesKeepTheSum(init);
    }
  }

  /** The total of an order is the subtotal of its quote and the sum of the copied lines. */
  lemma OrderTotals(steps: seq<Step>, id: Text)
    requires (forall s <- steps :: WellFormed(s)) && id in Run(NO_COMMERCE, steps).orders
    ensures var db := Run(NO_COMMERCE, steps);
            var o := db.orders[id];
            && o.quote in db.quotes
            && o.total == db.quotes[o.quote].subtotal == OrderSum(o.lines)
            && |o.lines| == |db.quotes[o.quote].lines| > 0
  {
    RunKeepsValid(NO_COMMERCE, steps);
    var db := Run(NO_COMMERCE, steps);
    assert OrderValid(db, id);
    assert QuoteValid(db, db.orders[id].quote);
    CopiesKeepTheSum(db.quotes[db.orders[id].quote].lines);
  }

  // ---------------------------------------------------------------- exact intents

  ghost predicate UniqueLines(lines: seq<OrderLine>) {
    forall i, j :: 0 <= i < j < |lines| ==> lines[i].lineNumber != lines[j].lineNumber
  }

  lemma {:induction false} CanonicalExactly(lines: seq<OrderLine>)
    requires UniqueLines(lines)
    ensures Canonical(lines).Keys == set line <- lines :: line.lineNumber
    ensures forall line <- lines :: line.lineNumber in Canonical(lines)
                                    && Canonical(lines)[line.lineNumber] == line.quantity
  {
    if lines != [] {
      var init, last := lines[..|lines| - 1], lines[|lines| - 1];
      CanonicalExactly(init);
      assert lines == init + [last];
    }
  }

  function Numbers(lines: seq<IntentLine>): set<nat> { set line <- lines :: line.lineNumber }

  lemma {:induction false} NumbersCount(lines: seq<IntentLine>)
    requires UniqueIntent(lines)
    ensures |Numbers(lines)| == |lines|
  {
    if lines != [] {
      var init, last := lines[..|lines| - 1], lines[|lines| - 1];
      assert lines == init + [last];
      NumbersCount(init);
      assert Numbers(lines) == Numbers(init) + {last.lineNumber};
      assert last.lineNumber !in Numbers(init);
    }
  }

  lemma SubsetOfSameSize<T>(a: set<T>, b: set<T>)
    requires a <= b && |a| == |b|
    ensures a == b
  {
    assert |b - a| == |b| - |a|;
  }

  /** The quick test, every requested line found and as many lines as the order has, is exact equality of the two
      line maps, because requested numbers are unique. */
  lemma IntentExactly(intent: seq<IntentLine>, canonical: map<nat, nat>)
    requires UniqueIntent(intent)
    ensures IntentMatches(intent, canonical) <==>
            forall n: nat, q: nat :: IntentLine(n, q) in intent <==> n in canonical && canonical[n] == q
  {
    NumbersCount(intent);
    if IntentMatches(intent, canonical) {
      assert Numbers(intent) <= canonical.Keys;
      SubsetOfSameSize(Numbers(intent), canonical.Keys);
      forall n: nat, q: nat | n in canonical && canonical[n] == q ensures IntentLine(n, q) in intent {
        assert n in Numbers(intent);
      }
    }
    if forall n: nat, q: nat :: IntentLine(n, q) in intent <==> n in canonical && canonical[n] == q {
      forall n | n in canonical ensures n in Numbers(intent) {
        assert IntentLine(n, canonical[n]) in intent;
      }
      forall line | line in intent ensures line.lineNumber in canonical && canonical[line.lineNumber] == line.quantity {
        assert line == IntentLine(line.lineNumber, line.quantity);
      }
      assert Numbers(intent) == canonical.Keys;
    }
  }

  /** Every intent on record asks for exactly the lines of its order. */
  lemma IntentEqualsOrder(steps: seq<Step>, id: (Text, Text), n: nat, q: nat)
    requires (forall s <- steps :: WellFormed(s)) && id in Run(NO_COMMERCE, steps).intents
    ensures var db := Run(NO_COMMERCE, steps);
            var i := db.intents[id];
            && i.order in db.orders
            && (IntentLine(n, q) in i.lines <==>
                  exists line <- db.orders[i.order].lines :: line.lineNumber == n && line.quantity == q)
  {
    RunKeepsValid(NO_COMMERCE, steps);
    var db := Run(NO_COMMERCE, steps);
    assert IntentValid(db, id);
    var i := db.intents[id];
    var lines := db.orders[i.order].lines;
    assert OrderValid(db, i.order);
    assert QuoteValid(db, db.orders[i.order].quote);
    CanonicalExactly(lines);
    IntentExactly(i.lines, Canonical(lines));
    if n in Canonical(lines) && Canonical(lines)[n] == q {
      var line :| line in lines && line.lineNumber == n;
    }
  }

  // ---------------------------------------------------------------- what each command asks for

  /** A conversion is accepted exactly for the tenant's quote at the expected status and economics version, accepted by
      the customer, not converted before, approved if it needs approval, with lines, and under a new order id; the order
      then has the quote's terms, and the quote names the order. */
  lemma CreateOrderExactly(db: Commerce, c: CreateOrder)
    ensures AfterCreateOrder(db, c).Ok? <==>
              && c.quote in db.quotes
              && var q := db.quotes[c.quote];
                 && q.tenant == c.tenant && q.status == c.expectedStatus && q.economicsId == c.expectedEconomics
                 && q.status == CustomerAccepted && q.convertedOrder.None?
                 && (q.approvalRequired ==> q.decision == Some(Approve)) && q.lines != []
                 && c.order !in db.orders
                 && forall o <- db.orders :: db.orders[o].tenant == c.tenant ==> db.orders[o].quote != c.quote
    ensures AfterCreateOrder(db, c).Ok? ==>
              var after, q := AfterCreateOrder(db, c).value, db.quotes[c.quote];
              && after.intents == db.intents && c.order in after.orders
              && after.quotes == db.quotes[c.quote := q.(status := ConvertedToOrder, convertedOrder := Some(c.order))]
              && after.orders == db.orders[c.order := after.orders[c.order]]
              && var o := after.orders[c.order];
                 && o.tenant == c.tenant && o.quote == c.quote && o.status == Word("created") && o.version == 1
                 && o.total == o.subtotal == q.subtotal && |o.lines| == |q.lines|
                 && forall i :: 0 <= i < |q.lines| ==>
                      o.lines[i] == OrderLine(q.lines[i].lineNumber, q.lines[i].quantity, q.lines[i].unitPriceCents)
  {}

  /** A margin decision is accepted exactly once, from someone authorized, for the tenant's quote at the expected status
      and economics version, when it needs approval; approving makes it approved, rejecting makes it rejected. */
  lemma DecideExactly(db: Commerce, c: Decide)
    ensures AfterDecide(db, c).Ok? <==>
              && c.authorized && c.quote in db.quotes
              && var q := db.quotes[c.quote];
                 && q.tenant == c.tenant && q.status == c.expectedStatus && q.economicsId == c.expectedEconomics
                 && q.approvalRequired && q.decision.None?
    ensures AfterDecide(db, c).Ok? ==>
              var after := AfterDecide(db, c).value;
              && after.orders == db.orders && after.intents == db.intents
              && after.quotes == db.quotes[c.quote := db.quotes[c.quote].(
                   status := match c.decision case Approve => Approved case Reject => Rejected,
                   decision := Some(c.decision))]
  {}

  /** A quote is created exactly under a new id when case and policy admit it; it is a draft exactly when its margin
      needs no approval, and nobody has decided on it. */
  lemma CreateQuoteExactly(db: Commerce, c: CreateQuote)
    ensures AfterCreateQuote(db, c).Ok? <==> c.accepted && c.quote !in db.quotes
    ensures AfterCreateQuote(db, c).Ok? ==>
              var after := AfterCreateQuote(db, c).value;
              && after.orders == db.orders && after.intents == db.intents
              && c.quote in after.quotes && after.quotes == db.quotes[c.quote := after.quotes[c.quote]]
              && var q := after.quotes[c.quote];
                 && q.tenant == c.tenant && q.lines == c.lines && q.economicsId == c.economicsId
                 && (q.approvalRequired <==> c.approvalRequired)
                 && (q.status == Draft <==> !c.approvalRequired)
                 && (q.status == ApprovalRequired <==> c.approvalRequired)
                 && q.decision.None? && q.convertedOrder.None?
  {}

  /** A fulfillment intent is recorded exactly for the tenant's order at the expected status and version, under a new
      intent id and a key not used for the order, when it asks for the order's lines and quantities, all and no more. */
  lemma RequestIntentExactly(db: Commerce, c: RequestIntent)
    requires UniqueIntent(c.lines)
    requires c.order in db.orders ==> UniqueLines(db.orders[c.order].lines)
    ensures AfterRequestIntent(db, c).Ok? <==>
              && c.order in db.orders
              && var o := db.orders[c.order];
                 && o.tenant == c.tenant && o.status == c.expectedStatus && o.version == c.expectedVersion
                 && (forall n: nat, q: nat :: IntentLine(n, q) in c.lines <==> HasLine(o.lines, n, q))
                 && (c.tenant, c.intent) !in db.intents
                 && forall i <- db.intents :: db.intents[i].tenant == c.tenant && db.intents[i].order == c.order ==>
                      db.intents[i].key != c.key
    ensures AfterRequestIntent(db, c).Ok? ==>
              AfterRequestIntent(db, c).value ==
              db.(intents := db.intents[(c.tenant, c.intent) := Intent(c.tenant, c.order, c.key, c.lines)])
  {
    if c.order in db.orders {
      LinesMatchExactly(c.lines, db.orders[c.order].lines);
    }
    hide IntentMatches, Canonical, HasLine;
  }

  predicate HasLine(lines: seq<OrderLine>, n: nat, q: nat) {
    exists line <- lines :: line.lineNumber == n && line.quantity == q
  }

  lemma LinesMatchExactly(intent: seq<IntentLine>, lines: seq<OrderLine>)
    requires UniqueIntent(intent) && UniqueLines(lines)
    ensures IntentMatches(intent, Canonical(lines)) <==>
            forall n: nat, q: nat :: IntentLine(n, q) in intent <==> HasLine(lines, n, q)
  {
    var canonical := Canonical(lines);
    IntentExactly(intent, canonical);
    CanonicalExactly(lines);
    hide IntentMatches, Canonical;
    forall n: nat, q: nat ensures HasLine(lines, n, q) <==> n in canonical && canonical[n] == q {
      if n in canonical && canonical[n] == q {
        var line :| line in lines && line.lineNumber == n;
      }
    }
  }

  lemma {:induction false} RunSplits(db: Commerce, steps: seq<Step>)
    requires steps != []
    ensures Run(db, steps) == Next(Run(db, steps[..|steps| - 1]), steps[|steps| - 1])
    decreases |steps|
  {
    hide Next;
    if |steps| > 1 {
      RunSplits(Next(db, steps[0]), steps[1..]);
      assert steps[1..][..|steps| - 2] == steps[..|steps| - 1][1..];
    } else {
      assert steps[..0] == [] && steps[1..] == [];
    }
  }

  /** Step `i` of the run wrote this order, from a quote that the customer had accepted. */
  ghost predicate ConvertedAt(steps: seq<Step>, i: nat, id: Text, o: Order)
    requires i < |steps|
  {
    && steps[i].DoCreateOrder? && steps[i].createOrder.order == id && steps[i].createOrder.quote == o.quote
    && var before := Run(NO_COMMERCE, steps[..i]);
       && id !in before.orders && id in Next(before, steps[i]).orders && o.quote in before.quotes
       && var q := before.quotes[o.quote];
          && q.status == CustomerAccepted && q.tenant == o.tenant && q.convertedOrder.None?
          && (q.approvalRequired ==> q.decision == Some(Approve))
  }

  lemma NewOrders(db: Commerce, s: Step, id: Text)
    requires id !in db.orders && id in Next(db, s).orders
    ensures s.DoCreateOrder? && s.createOrder.order == id
    ensures var o := Next(db, s).orders[id];
            && s.createOrder.quote == o.quote && o.quote in db.quotes
            && var q := db.quotes[o.quote];
               && q.status == CustomerAccepted && q.tenant == o.tenant && q.convertedOrder.None?
               && (q.approvalRequired ==> q.decision == Some(Approve))
  {
    if s.DoCreateOrder? {
      CreateOrderExactly(db, s.createOrder);
      hide AfterCreateOrder;
    }
  }

  /** Over every run, every order on record was written by one step of the run, at which its quote was accepted by the
      customer, unconverted, and approved if it needed approval. */
  lemma {:induction false} OrdersWereAccepted(steps: seq<Step>, id: Text) returns (i: nat)
    requires id in Run(NO_COMMERCE, steps).orders
    ensures i < |steps| && ConvertedAt(steps, i, id, Run(NO_COMMERCE, steps).orders[id])
    decreases |steps|
  {
    hide Next;
    var last := |steps| - 1;
    var before := Run(NO_COMMERCE, steps[..last]);
    RunSplits(NO_COMMERCE, steps);
    if id in before.orders {
      i := OrdersWereAccepted(steps[..last], id);
      assert steps[..last][..i] == steps[..i];
      NextExtends(before, steps[last]);
    } else {
      NewOrders(before, steps[last], id);
      i := last;
    }
  }

  /** Step `i` of the run recorded this decision, by someone authorized, and set the status that it means. */
  ghost predicate DecidedAt(steps: seq<Step>, i: nat, id: Text, decision: Decision)
    requires i < |steps|
  {
    && steps[i].DoDecide? && steps[i].decide.quote == id && steps[i].decide.decision == decision
    && steps[i].decide.authorized
    && var before := Run(NO_COMMERCE, steps[..i]);
       && id in before.quotes && before.quotes[id].decision.None? && before.quotes[id].approvalRequired
       && id in Next(before, steps[i]).quotes
       && Next(before, steps[i]).quotes[id].status == (if decision == Approve then Approved else Rejected)
  }

  lemma NewDecisions(db: Commerce, s: Step, id: Text)
    requires id in Next(db, s).quotes && Next(db, s).quotes[id].decision.Some?
    requires id in db.quotes ==> db.quotes[id].decision.None?
    ensures s.DoDecide? && s.decide.quote == id && Next(db, s).quotes[id].decision == Some(s.decide.decision)
    ensures s.decide.authorized && id in db.quotes && db.quotes[id].approvalRequired
    ensures Next(db, s).quotes[id].status == (if s.decide.decision == Approve then Approved else Rejected)
  {
    match s
    case DoDecide(c) =>
      DecideExactly(db, c);
      hide AfterDecide;
    case DoCreateQuote(c) =>
      CreateQuoteExactly(db, c);
      hide AfterCreateQuote;
    case _ =>
  }

  /** Over every run, every decision on record was made once, by someone authorized, on a quote that needed it. */
  lemma {:induction false} DecisionsWereAuthorized(steps: seq<Step>, id: Text) returns (i: nat)
    requires id in Run(NO_COMMERCE, steps).quotes && Run(NO_COMMERCE, steps).quotes[id].decision.Some?
    ensures i < |steps| && DecidedAt(steps, i, id, Run(NO_COMMERCE, steps).quotes[id].decision.value)
    decreases |steps|
  {
    hide Next;
    var last := |steps| - 1;
    var before := Run(NO_COMMERCE, steps[..last]);
    RunSplits(NO_COMMERCE, steps);
    if id in before.quotes && before.quotes[id].decision.Some? {
      i := DecisionsWereAuthorized(steps[..last], id);
      assert steps[..last][..i] == steps[..i];
      NextExtends(before, steps[last]);
    } else {
      NewDecisions(before, steps[last], id);
      i := last;
    }
  }
}
