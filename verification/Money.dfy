/**
 * Money in whole cents. Numbers are exact; the margin that the code adds against
 * floating-point error is kept.
 */
module Money {
  const MARGIN: real := 0.000000001

  /** `Math.round`: to the nearest integer, halves up. */
  function Round(x: real): int {
    (x + 0.5).Floor
  }

  /** Division of integers rounded to the nearest, halves up. */
  function RoundDiv(n: int, d: int): int
    requires 0 < d
  {
    (2 * n + d) / (2 * d)
  }

  lemma RoundIs(x: real, n: int)
    requires n as real <= x + 0.5 < n as real + 1.0
    ensures Round(x) == n
  {
  }

  /** The nearest integer, and the upper one of two that are as near. */
  lemma RoundExactly(x: real, n: int)
    ensures Round(x) == n <==> n as real - 0.5 <= x < n as real + 0.5
  {
  }

  lemma RoundDivBounds(n: int, d: int)
    requires 0 < d
    ensures var q := RoundDiv(n, d); 2 * d * q <= 2 * n + d < 2 * d * q + 2 * d
  {
  }

  /** Rounding a quotient of integers, with or without the margin, is integer division. */
  lemma RoundQuotient(n: int, d: int, margin: real)
    requires 0 < d <= 1_000_000 && 0.0 <= margin <= MARGIN
    ensures Round(n as real / d as real + margin) == RoundDiv(n, d)
  {
    var q := RoundDiv(n, d);
    RoundDivBounds(n, d);
    var x, dr := n as real / d as real, d as real;
    assert x * dr == n as real;
    var r := 2 * n + d - 2 * d * q;
    assert 0 <= r <= 2 * d - 1;
    assert (2 * d * q) as real == 2.0 * dr * q as real by { MulAsReal(d, q); }
    assert 2.0 * dr * (x + 0.5) == 2.0 * dr * q as real + r as real;
    var y := x + 0.5 - q as real;
    assert 2.0 * dr * y == r as real;
    NonNegativeQuotient(dr, y, r as real);
    BelowOne(dr, y, r as real, margin);
    RoundIs(x + margin, q);
  }

  lemma MulAsReal(d: int, q: int)
    ensures (2 * d * q) as real == 2.0 * d as real * q as real
  {
    assert (2 * d * q) as real == (2 * d) as real * q as real;
  }

  lemma NonNegativeQuotient(d: real, y: real, r: real)
    requires 0.0 < d && 2.0 * d * y == r && 0.0 <= r
    ensures 0.0 <= y
  {
    assert y < 0.0 ==> d * y < 0.0;
  }

  lemma BelowOne(d: real, y: real, r: real, margin: real)
    requires 0.0 < d <= 1000000.0 && 2.0 * d * y == r && r <= 2.0 * d - 1.0 && margin <= MARGIN
    ensures y + margin < 1.0
  {
    assert 2.0 * d * (1.0 - y) >= 1.0;
    var z := 1.0 - y;
    assert z <= MARGIN ==> d * z <= d * MARGIN <= 1000000.0 * MARGIN;
  }

  // ---- symmetric rounding ----------------------------------------------

  /** `roundHalfAway`. */
  function RoundHalfAway(x: real): int {
    if x > 0.0 then Round(x + MARGIN)
    else if x < 0.0 then -Round(-x + MARGIN)
    else 0
  }

  lemma RoundOpposite(x: real)
    ensures RoundHalfAway(-x) == -RoundHalfAway(x)
  {
  }

  /** The nearest integer, a half and what lacks up to the margin to it going up; below zero it is the opposite. */
  lemma AwayExactly(x: real, n: int)
    requires 0.0 <= x
    ensures RoundHalfAway(x) == n
            <==> if n == 0 then x < 0.499999999
                 else 0 < n && n as real - 0.500000001 <= x < n as real + 0.499999999
    ensures RoundHalfAway(-x) == -RoundHalfAway(x)
  {
  }

  /** Half away from zero on a quotient of integers. */
  function AwayDiv(n: int, d: int): int
    requires 0 < d
  {
    if n >= 0 then RoundDiv(n, d) else -RoundDiv(-n, d)
  }

  lemma SignOfQuotient(n: int, d: int)
    requires 0 < d
    ensures var x := n as real / d as real;
            && (n > 0 ==> x > 0.0) && (n < 0 ==> x < 0.0) && (n == 0 ==> x == 0.0)
            && -x == (-n) as real / d as real
  {
  }

  lemma RoundZero(d: int)
    requires 0 < d
    ensures RoundDiv(0, d) == 0
  {
    RoundDivBounds(0, d);
  }

  /** On amounts with a bounded denominator the margin never changes the result. */
  lemma AwayQuotient(n: int, d: int)
    requires 0 < d <= 1_000_000
    ensures RoundHalfAway(n as real / d as real) == AwayDiv(n, d)
  {
    hide Round, RoundDiv;
    var x := n as real / d as real;
    SignOfQuotient(n, d);
    if n > 0 {
      RoundQuotient(n, d, MARGIN);
    } else if n < 0 {
      RoundQuotient(-n, d, MARGIN);
    } else {
      RoundZero(d);
    }
  }

  // ---- cents -----------------------------------------------------------

  /** `toCents`. */
  function ToCents(euros: real): int {
    RoundHalfAway(euros * 100.0)
  }

  function Euros(cents: int): real {
    cents as real / 100.0
  }

  lemma CentsRoundTrip(cents: int)
    ensures ToCents(Euros(cents)) == cents
    ensures Round(Euros(cents) * 100.0) == cents
  {
    assert Euros(cents) * 100.0 == cents as real;
    AwayQuotient(cents, 1);
    assert cents as real / 1 as real == cents as real;
    assert AwayDiv(cents, 1) == cents;
  }

  /** `addAmounts`, `subtractAmounts`, `isAtLeast` and `isGreaterThan`. */
  function AddAmounts(a: real, b: real): real {
    (ToCents(a) + ToCents(b)) as real / 100.0
  }

  function SubtractAmounts(a: real, b: real): real {
    (ToCents(a) - ToCents(b)) as real / 100.0
  }

  predicate IsAtLeast(a: real, b: real) {
    ToCents(a) >= ToCents(b)
  }

  predicate IsGreaterThan(a: real, b: real) {
    ToCents(a) > ToCents(b)
  }

  /** On amounts in whole cents the operations are exact and subtraction undoes addition. */
  lemma CentOperations(i: int, j: int)
    ensures AddAmounts(Euros(i), Euros(j)) == Euros(i + j)
    ensures SubtractAmounts(AddAmounts(Euros(i), Euros(j)), Euros(j)) == Euros(i)
    ensures IsAtLeast(Euros(i), Euros(j)) <==> i >= j
    ensures IsGreaterThan(Euros(i), Euros(j)) <==> i > j
  {
    hide ToCents, Round;
    CentsRoundTrip(i);
    CentsRoundTrip(j);
    CentsRoundTrip(i + j);
  }

  /** An amount is that of `cents` cents when it is less than half a cent away, drift included. */
  predicate IsNear(euros: real, cents: int) {
    -0.499 <= euros * 100.0 - cents as real <= 0.499
  }

  lemma NearIsCents(euros: real, cents: int)
    requires IsNear(euros, cents)
    ensures ToCents(euros) == cents
  {
    var x := euros * 100.0;
    if 0.0 <= x {
      AwayExactly(x, cents);
    } else {
      AwayExactly(-x, -cents);
    }
  }

  /** On amounts that have drifted from whole cents, the operations are those on the cents. */
  lemma DriftIsAbsorbed(a: real, b: real, i: int, j: int)
    requires IsNear(a, i) && IsNear(b, j)
    ensures AddAmounts(a, b) == Euros(i + j) && SubtractAmounts(a, b) == Euros(i - j)
    ensures (IsAtLeast(a, b) <==> i >= j) && (IsGreaterThan(a, b) <==> i > j)
  {
    hide ToCents, IsNear;
    NearIsCents(a, i);
    NearIsCents(b, j);
  }

  // ---- invoice lines ---------------------------------------------------

  datatype Line = Line(base: int, tax: int, total: int)

  function BaseCents(quantity: real, unitPrice: real): int {
    RoundHalfAway(quantity * unitPrice * 100.0)
  }

  /** The tax on a base that is already rounded. */
  function TaxCents(base: int, taxRate: real): int {
    RoundHalfAway(base as real * taxRate / 100.0)
  }

  /** `lineCents`. */
  function LineCents(quantity: real, unitPrice: real, taxRate: real): Line {
    var base := BaseCents(quantity, unitPrice);
    var tax := TaxCents(base, taxRate);
    Line(base, tax, base + tax)
  }

  /** Base and tax are within half a cent of what they stand for, the tax of the rounded base. */
  lemma LineFits(quantity: real, unitPrice: real, taxRate: real)
    ensures var l := LineCents(quantity, unitPrice, taxRate);
            && IsHalfCentAway(l.base, quantity * unitPrice * 100.0)
            && IsHalfCentAway(l.tax, l.base as real * taxRate / 100.0)
            && l.total == l.base + l.tax
  {
    var l := LineCents(quantity, unitPrice, taxRate);
    AwayIsNear(quantity * unitPrice * 100.0);
    AwayIsNear(l.base as real * taxRate / 100.0);
    hide RoundHalfAway;
  }

  predicate IsHalfCentAway(cents: int, x: real) {
    -0.500000001 <= cents as real - x <= 0.500000001
  }

  lemma AwayIsNear(x: real)
    ensures IsHalfCentAway(RoundHalfAway(x), x)
  {
  }

  lemma NegatedProduct(x: real, y: real)
    ensures (-x) * y == -(x * y)
  {
  }

  lemma OppositeBase(quantity: real, unitPrice: real)
    ensures BaseCents(-quantity, unitPrice) == -BaseCents(quantity, unitPrice)
  {
    hide RoundHalfAway;
    NegatedProduct(quantity, unitPrice);
    RoundOpposite(quantity * unitPrice * 100.0);
  }

  lemma OppositeTax(base: int, taxRate: real)
    ensures TaxCents(-base, taxRate) == -TaxCents(base, taxRate)
  {
    var x, t := base as real * taxRate / 100.0, (-base) as real * taxRate / 100.0;
    NegatedProduct(base as real, taxRate);
    assert (-base) as real == -(base as real);
    assert (-base) as real * taxRate == -(base as real * taxRate);
    assert t == -x;
    RoundOpposite(x);
    hide RoundHalfAway;
    assert RoundHalfAway(t) == RoundHalfAway(-x);
  }

  /** The line of a negated quantity is the exact opposite. */
  lemma OppositeLine(quantity: real, unitPrice: real, taxRate: real)
    ensures var l := LineCents(quantity, unitPrice, taxRate);
            LineCents(-quantity, unitPrice, taxRate) == Line(-l.base, -l.tax, -l.total)
  {
    hide BaseCents, TaxCents;
    OppositeBase(quantity, unitPrice);
    OppositeTax(BaseCents(quantity, unitPrice), taxRate);
  }

  /** Rounded VAT of an amount in cents at a whole rate. */
  function WithVat(cents: int, rate: nat): int {
    RoundDiv(cents * (100 + rate), 100)
  }

  lemma ProductAsReal(x: int, y: int)
    ensures (x * y) as real == x as real * y as real
  {
  }

  lemma BaseOfCents(cents: int)
    ensures BaseCents(1.0, Euros(cents)) == cents
  {
    CentsRoundTrip(cents);
    hide RoundHalfAway;
  }

  lemma TaxOfCents(cents: nat, rate: nat)
    ensures TaxCents(cents, rate as real) == RoundDiv(cents * rate, 100)
  {
    hide RoundHalfAway, RoundDiv;
    ProductAsReal(cents, rate);
    AwayQuotient(cents * rate, 100);
    assert 0 <= cents * rate;
  }

  /** A line of one unit at a price in whole cents costs that price with its rounded VAT. */
  lemma LineOfCents(cents: nat, rate: nat)
    ensures var l := LineCents(1.0, Euros(cents), rate as real);
            l.base == cents && l.total == WithVat(cents, rate)
  {
    hide BaseCents, TaxCents, RoundDiv, Euros, WithVat;
    BaseOfCents(cents);
    TaxOfCents(cents, rate);
    WithVatSplits(cents, rate);
  }

  lemma WithVatSplits(cents: int, rate: nat)
    ensures WithVat(cents, rate) == cents + RoundDiv(cents * rate, 100)
  {
    assert cents * (100 + rate) == cents * 100 + cents * rate;
  }

  /** Rounding VAT on two amounts differs from rounding it on their sum by one cent at most. */
  lemma VatOfSum(a: int, b: int, rate: nat)
    ensures -1 <= WithVat(a, rate) + WithVat(b, rate) - WithVat(a + b, rate) <= 1
  {
    WithVatSplits(a, rate);
    WithVatSplits(b, rate);
    WithVatSplits(a + b, rate);
    assert (a + b) * rate == a * rate + b * rate;
  }
}
