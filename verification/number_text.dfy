/** Numbers as JSON text.  A finite double is represented by what the ECMAScript number-to-string algorithm
    works on: its sign, its shortest round-tripping decimal digits, and the position of the decimal point. */
module NumberText {
  import opened Texts

  const ZERO: Unit := 48
  const MINUS: Unit := 45
  const PLUS: Unit := 43
  const POINT: Unit := 46
  const EXPONENT: Unit := 101
  const UNDERSCORE: Unit := 95

  predicate IsDigit(u: Unit) { 48 <= u <= 57 }

  predicate AllDigits(t: Text) { forall i :: 0 <= i < |t| ==> IsDigit(t[i]) }

  predicate IsNumberUnit(u: Unit) { IsDigit(u) || u == MINUS || u == PLUS || u == POINT || u == EXPONENT }

  // ---------------------------------------------------------------- natural numbers

  function NatText(n: nat): (t: Text)
    ensures AllDigits(t) && t != []
  {
    if n < 10 then [48 + n] else NatText(n / 10) + [48 + n % 10]
  }

  function NatValue(t: Text): nat
    requires AllDigits(t)
  {
    if t == [] then 0 else 10 * NatValue(t[..|t| - 1]) + (t[|t| - 1] - 48)
  }

  lemma {:induction false} NatRoundTrip(n: nat)
    ensures NatValue(NatText(n)) == n
  {
    if n >= 10 {
      NatRoundTrip(n / 10);
      assert NatText(n)[..|NatText(n)| - 1] == NatText(n / 10);
    }
  }

  /** The id of a reconciliation checkpoint: a prefix, the message id and the attempt number. */
  function CheckpointId(prefix: Text, message: Text, attempt: nat): Text {
    prefix + message + [UNDERSCORE] + NatText(attempt)
  }

  /** Although message ids may contain underscores and digits, checkpoint ids never collide. */
  lemma CheckpointIdsDiffer(prefix: Text, m: Text, i: nat, n: Text, j: nat)
    requires CheckpointId(prefix, m, i) == CheckpointId(prefix, n, j)
    ensures m == n && i == j
  {
    var a, b := NatText(i), NatText(j);
    var left, right := CheckpointId(prefix, m, i), CheckpointId(prefix, n, j);
    assert left[|left| - |a| - 1] == UNDERSCORE && right[|right| - |b| - 1] == UNDERSCORE;
    assert forall k :: |left| - |a| <= k < |left| ==> IsDigit(left[k]);
    assert forall k :: |right| - |b| <= k < |right| ==> IsDigit(right[k]);
    assert |a| == |b|;
    assert a == left[|left| - |a|..] == right[|left| - |a|..] == b;
    NatRoundTrip(i);
    NatRoundTrip(j);
    assert m == left[|prefix|..|left| - |a| - 1] == n;
  }

  // ---------------------------------------------------------------- doubles

  /** `Decimal(negative, d1...dk, n)` is the double whose shortest decimal is 0.d1...dk times 10 to the n. */
  datatype Number = Zero | Decimal(negative: bool, digits: Text, point: int)

  predicate ValidNumber(x: Number) {
    x.Decimal? ==> DigitsOf(x.digits)
  }

  function Zeros(n: nat): (t: Text)
    ensures |t| == n && AllDigits(t) && forall i :: 0 <= i < n ==> t[i] == ZERO
  {
    seq(n, i => ZERO)
  }

  function ExponentText(e: int): Text {
    [EXPONENT, if e < 0 then MINUS else PLUS] + NatText(if e < 0 then -e else e)
  }

  /** The digits and point laid out as ECMAScript section 6.1.6.1.20 prescribes. */
  function Magnitude(digits: Text, point: int): Text
    requires digits != []
  {
    var k := |digits|;
    if k <= point <= 21 then digits + Zeros(point - k)
    else if 0 < point <= 21 then digits[..point] + [POINT] + digits[point..]
    else if -6 < point <= 0 then [ZERO, POINT] + Zeros(-point) + digits
    else if k == 1 then digits + ExponentText(point - 1)
    else [digits[0], POINT] + digits[1..] + ExponentText(point - 1)
  }

  function NumberToText(x: Number): Text
    requires ValidNumber(x)
  {
    match x
    case Zero => [ZERO]
    case Decimal(negative, digits, point) => (if negative then [MINUS] else []) + Magnitude(digits, point)
  }

  // ---------------------------------------------------------------- reading a number back

  /** The first position of `u`, or the length of the text. */
  function Find(t: Text, u: Unit): (i: nat)
    ensures i <= |t| && (i < |t| ==> t[i] == u) && forall j :: 0 <= j < i ==> t[j] != u
  {
    if t == [] || t[0] == u then 0 else 1 + Find(t[1..], u)
  }

  function LeadingZeros(t: Text): (n: nat)
    ensures n <= |t| && (n < |t| ==> t[n] != ZERO) && forall j :: 0 <= j < n ==> t[j] == ZERO
  {
    if t == [] || t[0] != ZERO then 0 else 1 + LeadingZeros(t[1..])
  }

  function WithoutTrailingZeros(t: Text): Text {
    if t != [] && t[|t| - 1] == ZERO then WithoutTrailingZeros(t[..|t| - 1]) else t
  }

  function WithoutPoint(t: Text): Text {
    var i := Find(t, POINT);
    if i < |t| then t[..i] + t[i + 1..] else t
  }

  /** The digits and point of an unsigned numeral. */
  function ReadMagnitude(t: Text): (Text, int) {
    var e := Find(t, EXPONENT);
    if e < |t| && e + 2 <= |t| && AllDigits(t[e + 2..]) then
      (WithoutPoint(t[..e]), (if t[e + 1] == MINUS then 1 - NatValue(t[e + 2..]) else 1 + NatValue(t[e + 2..])))
    else
      var i := Find(t, POINT);
      if i == |t| then (WithoutTrailingZeros(t), |t|)
      else if t[..i] == [ZERO] then
        var zeros := LeadingZeros(t[i + 1..]);
        (t[i + 1 + zeros..], 0 - zeros)
      else (t[..i] + t[i + 1..], i)
  }

  function ReadNumber(t: Text): Number {
    if t == [ZERO] then Zero
    else if t != [] && t[0] == MINUS then
      var r := ReadMagnitude(t[1..]);
      Decimal(true, r.0, r.1)
    else
      var r := ReadMagnitude(t);
      Decimal(false, r.0, r.1)
  }

  lemma FindAt(t: Text, u: Unit, i: nat)
    requires i <= |t| && (forall j :: 0 <= j < i ==> t[j] != u) && (i < |t| ==> t[i] == u)
    ensures Find(t, u) == i
  {}

  lemma {:induction false} StripZeros(digits: Text, n: nat)
    requires digits != [] && digits[|digits| - 1] != ZERO
    ensures WithoutTrailingZeros(digits + Zeros(n)) == digits
  {
    var t := digits + Zeros(n);
    if n == 0 {
      assert t == digits;
    } else {
      assert t[..|t| - 1] == digits + Zeros(n - 1);
      StripZeros(digits, n - 1);
    }
  }

  lemma ReadExponent(mantissa: Text, e: int)
    requires forall i :: 0 <= i < |mantissa| ==> mantissa[i] != EXPONENT
    ensures ReadMagnitude(mantissa + ExponentText(e)) == (WithoutPoint(mantissa), e + 1)
  {
    var t := mantissa + ExponentText(e);
    FindAt(t, EXPONENT, |mantissa|);
    assert t[..|mantissa|] == mantissa;
    assert t[|mantissa| + 2..] == NatText(if e < 0 then -e else e);
    NatRoundTrip(if e < 0 then -e else e);
  }

  predicate DigitsOf(digits: Text) {
    digits != [] && AllDigits(digits) && digits[0] != ZERO && digits[|digits| - 1] != ZERO
  }

  lemma WholeRoundTrip(digits: Text, n: nat)
    requires DigitsOf(digits)
    ensures ReadMagnitude(digits + Zeros(n)) == (digits, |digits| + n)
  {
    var t := digits + Zeros(n);
    FindAt(t, EXPONENT, |t|);
    FindAt(t, POINT, |t|);
    StripZeros(digits, n);
  }

  lemma FixedRoundTrip(digits: Text, point: nat)
    requires DigitsOf(digits) && 0 < point < |digits|
    ensures ReadMagnitude(digits[..point] + [POINT] + digits[point..]) == (digits, point)
  {
    var t := digits[..point] + [POINT] + digits[point..];
    FindAt(t, EXPONENT, |t|);
    FindAt(t, POINT, point);
    assert t[..point] == digits[..point] && t[point + 1..] == digits[point..];
    assert digits[..point][0] != ZERO;
    assert digits[..point] + digits[point..] == digits;
    assert Find(t, EXPONENT) == |t|;
    assert t[..point] + t[point + 1..] == digits;
  }

  lemma FractionRoundTrip(digits: Text, zeros: nat)
    requires DigitsOf(digits)
    ensures ReadMagnitude([ZERO, POINT] + Zeros(zeros) + digits) == (digits, 0 - zeros)
  {
    var t := [ZERO, POINT] + Zeros(zeros) + digits;
    FindAt(t, EXPONENT, |t|);
    FindAt(t, POINT, 1);
    assert t[..1] == [ZERO];
    var rest := t[2..];
    assert rest[zeros] == digits[0];
    assert LeadingZeros(rest) == zeros;
    assert t[2 + zeros..] == digits;
  }

  lemma ScientificRoundTrip(digits: Text, e: int)
    requires DigitsOf(digits) && |digits| > 1
    ensures ReadMagnitude([digits[0], POINT] + digits[1..] + ExponentText(e)) == (digits, e + 1)
  {
    var mantissa := [digits[0], POINT] + digits[1..];
    ReadExponent(mantissa, e);
    FindAt(mantissa, POINT, 1);
    assert mantissa[..1] + mantissa[2..] == digits;
  }

  lemma SingleRoundTrip(digits: Text, e: int)
    requires DigitsOf(digits) && |digits| == 1
    ensures ReadMagnitude(digits + ExponentText(e)) == (digits, e + 1)
  {
    ReadExponent(digits, e);
    FindAt(digits, POINT, 1);
  }

  lemma MagnitudeRoundTrip(digits: Text, point: int)
    requires DigitsOf(digits)
    ensures ReadMagnitude(Magnitude(digits, point)) == (digits, point)
    ensures Magnitude(digits, point) != [ZERO]
  {
    hide ReadMagnitude;
    var k := |digits|;
    var t := Magnitude(digits, point);
    if k <= point <= 21 {
      WholeRoundTrip(digits, point - k);
      assert t[0] == digits[0];
    } else if 0 < point <= 21 {
      FixedRoundTrip(digits, point);
      assert t[0] == digits[0];
    } else if -6 < point <= 0 {
      FractionRoundTrip(digits, -point);
    } else if k == 1 {
      SingleRoundTrip(digits, point - 1);
      assert t[0] == digits[0];
    } else {
      ScientificRoundTrip(digits, point - 1);
      assert t[0] == digits[0];
    }
  }

  /** Reading back the printed form recovers the number, so printing is injective. */
  lemma NumberRoundTrip(x: Number)
    requires ValidNumber(x)
    ensures ReadNumber(NumberToText(x)) == x
    ensures NumberToText(x) != [] && (IsDigit(NumberToText(x)[0]) || NumberToText(x)[0] == MINUS)
    ensures forall i :: 0 <= i < |NumberToText(x)| ==> IsNumberUnit(NumberToText(x)[i])
  {
    if x.Decimal? {
      var t := Magnitude(x.digits, x.point);
      MagnitudeRoundTrip(x.digits, x.point);
      MagnitudeUnits(x.digits, x.point);
      if x.negative {
        assert NumberToText(x)[1..] == t;
      } else {
        assert NumberToText(x) == t;
      }
    }
  }

  lemma MagnitudeUnits(digits: Text, point: int)
    requires digits != [] && AllDigits(digits)
    ensures var t := Magnitude(digits, point);
            t != [] && IsDigit(t[0]) && forall i :: 0 <= i < |t| ==> IsNumberUnit(t[i])
  {}
}
