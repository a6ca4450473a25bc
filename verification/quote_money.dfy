/** Quote lines and totals, computed in doubles as the parser and the store compute them. */
module QuoteMoney {
  import opened Wrappers
  import opened Doubles
  import opened Sequences
  import opened SortedByKey

  /** One line as received.  `Some(n)` stands for a whole number of any size, `None` for anything else;
      `described` says whether the description and the sku are acceptable. */
  datatype Raw = Raw(
    lineNumber: Option<int>, quantity: Option<int>, unitPriceCents: Option<int>, unitCostCents: Option<int>,
    described: bool)

  datatype Line = Line(lineNumber: nat, quantity: nat, unitPriceCents: nat, unitCostCents: nat)

  datatype ParseError = InvalidCommand | InvalidMoney

  const MAX_LINES: nat := 200
  const MAX_COUNT: nat := 1_000_000

  // ---------------------------------------------------------------- one line

  predicate PositiveInteger(value: Option<int>) {
    value.Some? && IsSafe(value.value) && 0 < value.value <= MAX_COUNT
  }

  predicate Cents(value: Option<int>) { value.Some? && IsSafe(value.value) && value.value >= 0 }

  predicate Fields(raw: Raw) {
    PositiveInteger(raw.lineNumber) && PositiveInteger(raw.quantity)
    && Cents(raw.unitPriceCents) && Cents(raw.unitCostCents) && raw.described
  }

  function LineOf(raw: Raw): Line
    requires Fields(raw)
  {
    Line(raw.lineNumber.value, raw.quantity.value, raw.unitPriceCents.value, raw.unitCostCents.value)
  }

  function NumberOf(line: Line): int { line.lineNumber }

  function Price(line: Line): nat { line.quantity * line.unitPriceCents }

  function Cost(line: Line): nat { line.quantity * line.unitCostCents }

  function LinesOf(raws: seq<Raw>): (lines: seq<Line>)
    requires forall raw <- raws :: Fields(raw)
    ensures |lines| == |raws| && forall i :: 0 <= i < |raws| ==> lines[i] == LineOf(raws[i])
  {
    seq(|raws|, i requires 0 <= i < |raws| => assert raws[i] in raws; LineOf(raws[i]))
  }

  // ---------------------------------------------------------------- exact totals

  function Subtotal(lines: seq<Line>): nat {
    if lines == [] then 0 else Subtotal(lines[..|lines| - 1]) + Price(lines[|lines| - 1])
  }

  function TotalCost(lines: seq<Line>): nat {
    if lines == [] then 0 else TotalCost(lines[..|lines| - 1]) + Cost(lines[|lines| - 1])
  }

  lemma {:induction false} SubtotalSplit(a: seq<Line>, b: seq<Line>)
    ensures Subtotal(a + b) == Subtotal(a) + Subtotal(b) && TotalCost(a + b) == TotalCost(a) + TotalCost(b)
  {
    if b == [] {
      assert a + b == a;
    } else {
      assert (a + b)[..|a + b| - 1] == a + b[..|b| - 1];
      SubtotalSplit(a, b[..|b| - 1]);
    }
  }

  /** Totals do not depend on the order of the lines. */
  lemma {:induction false} TotalsIgnoreOrder(a: seq<Line>, b: seq<Line>)
    requires multiset(a) == multiset(b)
    ensures Subtotal(a) == Subtotal(b) && TotalCost(a) == TotalCost(b)
    decreases |a|
  {
    if a == [] {
      assert |multiset(b)| == 0;
    } else {
      var x, rest := a[|a| - 1], a[..|a| - 1];
      var i := TakeOut(a, b);
      var others := b[..i] + b[i + 1..];
      TotalsIgnoreOrder(rest, others);
      assert b == b[..i] + ([x] + b[i + 1..]);
      SubtotalSplit(b[..i], b[i + 1..]);
      SubtotalSplit(b[..i], [x] + b[i + 1..]);
      SubtotalSplit([x], b[i + 1..]);
      assert Subtotal([x]) == Price(x) && TotalCost([x]) == Cost(x);
    }
  }

  lemma {:induction false} PartIsLess(lines: seq<Line>, i: nat)
    requires i < |lines|
    ensures Price(lines[i]) <= Subtotal(lines) && Cost(lines[i]) <= TotalCost(lines)
  {
    if i < |lines| - 1 {
      PartIsLess(lines[..|lines| - 1], i);
    }
  }

  // ---------------------------------------------------------------- parsing

  /** What the parser accepts, in exact arithmetic. */
  ghost predicate Acceptable(raws: seq<Raw>) {
    && 1 <= |raws| <= MAX_LINES
    && (forall raw <- raws :: Fields(raw))
    && UniqueBy(NumberOf, LinesOf(raws))
    && Subtotal(LinesOf(raws)) <= MAX_SAFE
    && TotalCost(LinesOf(raws)) <= MAX_SAFE
  }

  method ParseLine(raw: Raw, seen: set<int>) returns (result: Result<Line, ParseError>)
    ensures result.Ok? <==> Fields(raw) && raw.lineNumber.value !in seen
                            && Price(LineOf(raw)) <= MAX_SAFE && Cost(LineOf(raw)) <= MAX_SAFE
    ensures result.Ok? ==> result.value == LineOf(raw)
  {
    if !PositiveInteger(raw.lineNumber) {
      return Err(InvalidMoney);
    }
    if raw.lineNumber.value in seen {
      return Err(InvalidCommand);
    }
    if !PositiveInteger(raw.quantity) || !Cents(raw.unitPriceCents) || !Cents(raw.unitCostCents) {
      return Err(InvalidMoney);
    }
    var quantity, price, cost := raw.quantity.value, raw.unitPriceCents.value, raw.unitCostCents.value;
    SafeExactly(quantity * price);
    SafeExactly(quantity * cost);
    if !IsSafe(Round(quantity * price)) || !IsSafe(Round(quantity * cost)) {
      return Err(InvalidMoney);
    }
    if !raw.described {
      return Err(InvalidCommand);
    }
    return Ok(LineOf(raw));
  }

  /** The subtotal and the cost as a left-to-right reduction in doubles. */
  function FloatSubtotal(lines: seq<Line>): nat {
    if lines == [] then 0
    else Round(FloatSubtotal(lines[..|lines| - 1]) + Round(Price(lines[|lines| - 1])))
  }

  function FloatCost(lines: seq<Line>): nat {
    if lines == [] then 0
    else Round(FloatCost(lines[..|lines| - 1]) + Round(Cost(lines[|lines| - 1])))
  }

  /** Checking only the last sum is enough: it is safe exactly when the exact total is. */
  lemma {:induction false} LastSumDecides(lines: seq<Line>)
    requires forall line <- lines :: Price(line) <= MAX_SAFE && Cost(line) <= MAX_SAFE
    ensures IsSafe(FloatSubtotal(lines)) <==> Subtotal(lines) <= MAX_SAFE
    ensures IsSafe(FloatCost(lines)) <==> TotalCost(lines) <= MAX_SAFE
    ensures IsSafe(FloatSubtotal(lines)) ==> FloatSubtotal(lines) == Subtotal(lines)
    ensures IsSafe(FloatCost(lines)) ==> FloatCost(lines) == TotalCost(lines)
  {
    hide Round, Price, Cost;
    if lines != [] {
      var init, last := lines[..|lines| - 1], lines[|lines| - 1];
      assert last in lines && forall line <- init :: line in lines;
      LastSumDecides(init);
      SafeExactly(Price(last));
      SafeExactly(Cost(last));
      SafeExactly(FloatSubtotal(init) + Price(last));
      SafeExactly(FloatCost(init) + Cost(last));
    }
  }

  /** And when it is safe, no product and no partial sum on the way was rounded. */
  lemma {:induction false} NothingWasRounded(lines: seq<Line>, k: nat)
    requires Subtotal(lines) <= MAX_SAFE && TotalCost(lines) <= MAX_SAFE && k <= |lines|
    ensures FloatSubtotal(lines[..k]) == Subtotal(lines[..k]) && FloatCost(lines[..k]) == TotalCost(lines[..k])
    ensures k < |lines| ==> Round(Price(lines[k])) == Price(lines[k]) && Round(Cost(lines[k])) == Cost(lines[k])
  {
    hide Round, Price, Cost;
    forall line | line in lines ensures Price(line) <= MAX_SAFE && Cost(line) <= MAX_SAFE {
      var i :| 0 <= i < |lines| && lines[i] == line;
      PartIsLess(lines, i);
    }
    SubtotalSplit(lines[..k], lines[k..]);
    assert lines[..k] + lines[k..] == lines;
    LastSumDecides(lines[..k]);
    if k < |lines| {
      SafeExactly(Price(lines[k]));
      SafeExactly(Cost(lines[k]));
    }
  }

  method FloatTotals(lines: seq<Line>) returns (subtotal: nat, cost: nat)
    ensures subtotal == FloatSubtotal(lines) && cost == FloatCost(lines)
  {
    subtotal, cost := 0, 0;
    for i := 0 to |lines|
      invariant subtotal == FloatSubtotal(lines[..i]) && cost == FloatCost(lines[..i])
    {
      assert lines[..i + 1][..i] == lines[..i];
      subtotal := Round(subtotal + Round(Price(lines[i])));
      cost := Round(cost + Round(Cost(lines[i])));
    }
    assert lines[..|lines|] == lines;
  }

  method ParseLines(raws: seq<Raw>) returns (result: Result<seq<Line>, ParseError>)
    requires 1 <= |raws| <= MAX_LINES
    ensures result.Err? ==> !Acceptable(raws)
    ensures result.Ok? ==> (forall raw <- raws :: Fields(raw)) && UniqueBy(NumberOf, result.value)
                           && result.value == LinesOf(raws)
    ensures result.Ok? ==> forall line <- result.value :: Price(line) <= MAX_SAFE && Cost(line) <= MAX_SAFE
  {
    hide Uses, UniqueBy, Acceptable, Fields;
    var seen: set<int>, lines: seq<Line> := {}, [];
    NoneUsed();
    for i := 0 to |raws|
      invariant |lines| == i && forall j :: 0 <= j < i ==> Fields(raws[j]) && lines[j] == LineOf(raws[j])
      invariant forall line <- lines :: Price(line) <= MAX_SAFE && Cost(line) <= MAX_SAFE
      invariant forall n :: n in seen <==> Uses(lines, n)
      invariant UniqueBy(NumberOf, lines)
    {
      var line := ParseLine(raws[i], seen);
      if line.Err? {
        Refused(raws, i, lines);
        return Err(line.error);
      }
      UsesGrows(lines, line.value);
      lines := lines + [line.value];
      seen := seen + {line.value.lineNumber};
    }
    assert lines == LinesOf(raws);
    return Ok(lines);
  }

  /** The parser accepts exactly the commands whose exact totals are safe integers, and returns their lines in
      ascending order. */
  method ParseQuoteLines(raws: seq<Raw>) returns (result: Result<seq<Line>, ParseError>)
    ensures result.Ok? <==> Acceptable(raws)
    ensures result.Ok? ==> Ascending(NumberOf, result.value) && multiset(result.value) == multiset(LinesOf(raws))
  {
    if |raws| < 1 || |raws| > MAX_LINES {
      return Err(InvalidCommand);
    }
    var parsed := ParseLines(raws);
    if parsed.Err? {
      return Err(parsed.error);
    }
    var lines := Sort(NumberOf, parsed.value);
    SortAscends(NumberOf, parsed.value);
    forall line | line in lines ensures Price(line) <= MAX_SAFE && Cost(line) <= MAX_SAFE {
      assert line in multiset(lines);
    }
    var subtotal, cost := FloatTotals(lines);
    LastSumDecides(lines);
    TotalsIgnoreOrder(lines, parsed.value);
    if !IsSafe(subtotal) || !IsSafe(cost) {
      return Err(InvalidMoney);
    }
    return Ok(lines);
  }

  ghost predicate Uses(lines: seq<Line>, n: int) { exists line <- lines :: line.lineNumber == n }

  lemma NoneUsed()
    ensures UniqueBy(NumberOf, []) && forall n :: !Uses([], n)
  {}

  lemma UsesGrows(lines: seq<Line>, line: Line)
    requires UniqueBy(NumberOf, lines)
    ensures forall n :: Uses(lines + [line], n) <==> Uses(lines, n) || n == line.lineNumber
    ensures UniqueBy(NumberOf, lines + [line]) <==> !Uses(lines, line.lineNumber)
  {
    assert line in lines + [line];
    if !Uses(lines, line.lineNumber) {
      assert forall i :: 0 <= i < |lines| ==> lines[i] in lines;
    } else {
      var i :| 0 <= i < |lines| && lines[i].lineNumber == line.lineNumber;
      assert (lines + [line])[i].lineNumber == (lines + [line])[|lines|].lineNumber;
    }
  }

  lemma Refused(raws: seq<Raw>, i: nat, lines: seq<Line>)
    requires i < |raws| && |lines| == i
    requires forall j :: 0 <= j < i ==> Fields(raws[j]) && lines[j] == LineOf(raws[j])
    requires !(Fields(raws[i]) && !Uses(lines, raws[i].lineNumber.value)
               && Price(LineOf(raws[i])) <= MAX_SAFE && Cost(LineOf(raws[i])) <= MAX_SAFE)
    ensures !Acceptable(raws)
  {
    assert raws[i] in raws;
    if forall raw <- raws :: Fields(raw) {
      var all := LinesOf(raws);
      PartIsLess(all, i);
      if Uses(lines, raws[i].lineNumber.value) {
        var j :| 0 <= j < i && lines[j].lineNumber == raws[i].lineNumber.value;
        assert all[j].lineNumber == all[i].lineNumber;
      }
    }
  }

  lemma {:induction false} LinesPermute(a: seq<Raw>, b: seq<Raw>)
    requires multiset(a) == multiset(b) && (forall raw <- a :: Fields(raw)) && forall raw <- b :: Fields(raw)
    ensures multiset(LinesOf(a)) == multiset(LinesOf(b))
    decreases |a|
  {
    hide Fields, LineOf;
    assert |a| == |multiset(a)| == |multiset(b)| == |b|;
    if a != [] {
      var i := TakeOut(a, b);
      LinesRemove(a, |a| - 1);
      LinesRemove(b, i);
      assert a[..|a| - 1] + a[|a| - 1 + 1..] == a[..|a| - 1];
      LinesPermute(a[..|a| - 1], b[..i] + b[i + 1..]);
    }
  }

  lemma LinesRemove(b: seq<Raw>, i: nat)
    requires i < |b| && forall raw <- b :: Fields(raw)
    ensures forall raw <- b[..i] + b[i + 1..] :: Fields(raw)
    ensures multiset(LinesOf(b)) == multiset(LinesOf(b[..i] + b[i + 1..])) + multiset{LineOf(b[i])}
  {
    hide Fields, LineOf;
    var others := b[..i] + b[i + 1..];
    forall raw | raw in others ensures Fields(raw) {
      assert raw in b;
    }
    var lines, left := LinesOf(b), LinesOf(others);
    assert lines[..i] == left[..i] && lines[i + 1..] == left[i..];
    assert lines == lines[..i] + ([lines[i]] + lines[i + 1..]) && left == left[..i] + left[i..];
  }

  /** The order in which the lines were sent changes neither whether they are accepted nor the result. */
  lemma OrderIsIrrelevant(a: seq<Raw>, b: seq<Raw>, lines: seq<Line>, others: seq<Line>)
    requires multiset(a) == multiset(b) && Acceptable(a)
    ensures Acceptable(b)
    ensures (Ascending(NumberOf, lines) && multiset(lines) == multiset(LinesOf(a))
             && Ascending(NumberOf, others) && multiset(others) == multiset(LinesOf(b))) ==> lines == others
  {
    assert |a| == |multiset(a)| == |multiset(b)| == |b|;
    forall raw | raw in b ensures Fields(raw) {
      assert raw in multiset(b);
    }
    LinesPermute(a, b);
    UniquePermutes(NumberOf, LinesOf(a), LinesOf(b));
    TotalsIgnoreOrder(LinesOf(a), LinesOf(b));
    if Ascending(NumberOf, lines) && Ascending(NumberOf, others) && multiset(lines) == multiset(others) {
      AscendingUnique(NumberOf, lines, others);
    }
  }

  /** A whole number within bounds. */
  predicate Within(value: Option<int>, low: int, high: int) { value.Some? && low <= value.value <= high }

  /** The parser's bounds in numbers: 1 to 200 lines with different numbers, numbers and quantities of 1 to a million,
      prices and costs from 0 to the largest safe integer, and totals that are safe integers. */
  lemma AcceptableExactly(raws: seq<Raw>)
    ensures Acceptable(raws) <==>
              && 1 <= |raws| <= 200
              && (forall raw <- raws ::
                    && Within(raw.lineNumber, 1, 1_000_000) && Within(raw.quantity, 1, 1_000_000) && raw.described
                    && Within(raw.unitPriceCents, 0, 9_007_199_254_740_991)
                    && Within(raw.unitCostCents, 0, 9_007_199_254_740_991))
              && (forall i, j :: 0 <= i < j < |raws| ==> raws[i].lineNumber != raws[j].lineNumber)
              && PriceSum(raws) <= 9_007_199_254_740_991 && CostSum(raws) <= 9_007_199_254_740_991
  {
    FieldsExactly(raws);
    if forall raw <- raws :: Fields(raw) {
      SumsExactly(raws);
      UniqueExactly(raws);
    }
    hide Fields, Within, UniqueBy, Subtotal, TotalCost, PriceSum, CostSum;
  }

  /** Quantity times price, and quantity times cost, over all lines as received. */
  function PriceSum(raws: seq<Raw>): int {
    if raws == [] then 0
    else
      var raw := raws[|raws| - 1];
      PriceSum(raws[..|raws| - 1])
      + if raw.quantity.Some? && raw.unitPriceCents.Some? then raw.quantity.value * raw.unitPriceCents.value else 0
  }

  function CostSum(raws: seq<Raw>): int {
    if raws == [] then 0
    else
      var raw := raws[|raws| - 1];
      CostSum(raws[..|raws| - 1])
      + if raw.quantity.Some? && raw.unitCostCents.Some? then raw.quantity.value * raw.unitCostCents.value else 0
  }

  lemma FieldsExactly(raws: seq<Raw>)
    ensures (forall raw <- raws :: Fields(raw)) <==>
            forall raw <- raws ::
              && Within(raw.lineNumber, 1, 1_000_000) && Within(raw.quantity, 1, 1_000_000) && raw.described
              && Within(raw.unitPriceCents, 0, 9_007_199_254_740_991)
              && Within(raw.unitCostCents, 0, 9_007_199_254_740_991)
  {
    assert MAX_SAFE == 9_007_199_254_740_991;
    forall raw <- raws
      ensures Fields(raw) <==>
              && Within(raw.lineNumber, 1, 1_000_000) && Within(raw.quantity, 1, 1_000_000) && raw.described
              && Within(raw.unitPriceCents, 0, 9_007_199_254_740_991)
              && Within(raw.unitCostCents, 0, 9_007_199_254_740_991)
    {}
    hide Fields, Within;
  }

  lemma UniqueExactly(raws: seq<Raw>)
    requires forall raw <- raws :: Fields(raw)
    ensures UniqueBy(NumberOf, LinesOf(raws)) <==>
            forall i, j :: 0 <= i < j < |raws| ==> raws[i].lineNumber != raws[j].lineNumber
  {
    var lines := LinesOf(raws);
    assert forall i :: 0 <= i < |raws| ==> raws[i] in raws && NumberOf(lines[i]) == raws[i].lineNumber.value;
  }

  lemma {:induction false} SumsExactly(raws: seq<Raw>)
    requires forall raw <- raws :: Fields(raw)
    ensures Subtotal(LinesOf(raws)) == PriceSum(raws) && TotalCost(LinesOf(raws)) == CostSum(raws)
  {
    if raws != [] {
      var init := raws[..|raws| - 1];
      assert raws[|raws| - 1] in raws && forall raw <- init :: raw in raws;
      SumsExactly(init);
      assert LinesOf(raws)[..|raws| - 1] == LinesOf(init);
    }
  }

  // ---------------------------------------------------------------- what the store writes

  /** The margin column of a line, in doubles. */
  function StoredMargin(line: Line): int {
    RoundInt(line.quantity * RoundInt(line.unitPriceCents - line.unitCostCents))
  }

  function StoredMargins(lines: seq<Line>): int {
    if lines == [] then 0 else StoredMargins(lines[..|lines| - 1]) + StoredMargin(lines[|lines| - 1])
  }

  lemma MarginIsExact(line: Line)
    requires Price(line) <= MAX_SAFE && Cost(line) <= MAX_SAFE && line.quantity > 0
    requires line.unitPriceCents <= MAX_SAFE && line.unitCostCents <= MAX_SAFE
    ensures StoredMargin(line) == Price(line) - Cost(line)
  {
    hide Round;
    var difference := line.unitPriceCents - line.unitCostCents;
    SafeIntIsExact(difference);
    assert line.quantity * difference == Price(line) - Cost(line) by {
      hide *;
      Distribute(line.quantity, line.unitPriceCents, line.unitCostCents);
    }
    SafeIntIsExact(Price(line) - Cost(line));
  }

  lemma Distribute(q: int, p: int, c: int)
    ensures q * (p - c) == q * p - q * c
  {}

  lemma SafeIntIsExact(n: int)
    requires IsSafe(n)
    ensures RoundInt(n) == n
  {
    SafeIsExact(if n < 0 then -n else n);
  }

  lemma {:induction false} MarginsSum(lines: seq<Line>)
    requires forall line <- lines :: StoredMargin(line) == Price(line) - Cost(line)
    ensures StoredMargins(lines) == Subtotal(lines) - TotalCost(lines)
  {
    hide StoredMargin, Price, Cost;
    if lines != [] {
      var init, last := lines[..|lines| - 1], lines[|lines| - 1];
      assert last in lines && forall line <- init :: line in lines;
      MarginsSum(init);
    }
  }

  /** The margins stored with the lines add up to the stored margin of the quote, subtotal minus cost. */
  lemma MarginsAddUp(lines: seq<Line>)
    requires Subtotal(lines) <= MAX_SAFE && TotalCost(lines) <= MAX_SAFE
    requires forall line <- lines :: line.quantity > 0 && line.unitPriceCents <= MAX_SAFE
                                     && line.unitCostCents <= MAX_SAFE
    ensures StoredMargins(lines) == RoundInt(Subtotal(lines) - TotalCost(lines)) == Subtotal(lines) - TotalCost(lines)
  {
    hide RoundInt, StoredMargin, StoredMargins, Price, Cost, Subtotal, TotalCost;
    SafeIntIsExact(Subtotal(lines) - TotalCost(lines));
    forall line | line in lines ensures StoredMargin(line) == Price(line) - Cost(line) {
      var i :| 0 <= i < |lines| && lines[i] == line;
      PartIsLess(lines, i);
      MarginIsExact(line);
    }
    MarginsSum(lines);
  }
}
