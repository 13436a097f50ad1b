/** `ts/src/ltv.ts`: the client's unbounded-integer twin of the collateral requirement, its
    inverse, and how the two relate to the program and to each other. */
module TsLtv {
  import opened Math
  import Ltv

  /** A value or the RangeError of a zero divisor. */
  datatype Outcome = Value(atoms: nat) | RangeError

  function TsMulScale(a: nat, b: nat): nat {
    a * b / SCALE
  }

  function TsFromScaledCeil(scaled: nat): nat {
    if scaled % SCALE == 0 then scaled / SCALE else scaled / SCALE + 1
  }

  /** The accumulating loop behind the decimal factor. */
  method TsPow10(exp: nat) returns (acc: nat)
    ensures acc == Ltv.Power10(exp)
  {
    acc := 1;
    for i := 0 to exp
      invariant acc == Ltv.Power10(i)
    {
      acc := acc * 10;
    }
  }

  function TsCapWeight(maxLtvBps: nat): nat {
    maxLtvBps * SCALE / Ltv.BPS_PER_UNIT
  }

  function TsNormalized(x: nat, upDecimals: nat, downDecimals: nat): nat {
    if upDecimals >= downDecimals then Product(x, Ltv.Power10(upDecimals - downDecimals))
    else Quotient(x, Ltv.Power10(downDecimals - upDecimals))
  }

  function Min(a: nat, b: nat): nat {
    if a < b then a else b
  }

  function RequiredCollateralAtoms(borrow: nat, debtPrice: nat, collPrice: nat, maxLtvBps: nat, debtDecimals: nat, collDecimals: nat): Outcome {
    var weight := TsCapWeight(maxLtvBps);
    if collPrice == 0 || weight == 0 || debtPrice == 0 then Value(U64_MAX)
    else
      var num1 := TsMulScale(borrow * SCALE, debtPrice);
      var num2 := TsMulScale(num1, SCALE);
      var denom := TsMulScale(collPrice, weight);
      if denom == 0 then RangeError
      else Value(Min(TsFromScaledCeil(TsNormalized(num2 * SCALE / denom, collDecimals, debtDecimals)), U64_MAX))
  }

  function MaxBorrowAtoms(collateral: nat, debtPrice: nat, collPrice: nat, maxLtvBps: nat, debtDecimals: nat, collDecimals: nat): Outcome {
    var weight := TsCapWeight(maxLtvBps);
    if debtPrice == 0 || weight == 0 then Value(0)
    else
      var num1 := TsMulScale(collateral * SCALE, collPrice);
      var num2 := TsMulScale(num1, weight);
      var denom := TsMulScale(debtPrice, SCALE);
      if denom == 0 then RangeError
      else Value(Min(TsNormalized(num2 * SCALE / denom, debtDecimals, collDecimals) / SCALE, U64_MAX))
  }

  // ---- twins ----

  lemma NormalizedTwin(x: U128, debtDecimals: nat, collDecimals: nat)
    requires Ltv.Normalized(x, debtDecimals, collDecimals).Ok?
    ensures Ltv.Normalized(x, debtDecimals, collDecimals).value == TsNormalized(x, collDecimals, debtDecimals)
  {
  }

  /** Wherever the checked program returns a requirement, the client computes the same one. */
  lemma TwinsAgree(debt: U64, debtPrice: U128, collPrice: U128, cap: U16, debtDecimals: nat, collDecimals: nat)
    requires Ltv.RequiredAtCap(debt, debtPrice, collPrice, cap, debtDecimals, collDecimals).Ok?
    ensures RequiredCollateralAtoms(debt, debtPrice, collPrice, cap, debtDecimals, collDecimals)
            == Value(Ltv.RequiredAtCap(debt, debtPrice, collPrice, cap, debtDecimals, collDecimals).value)
  {
    Ltv.CapWeights(cap, cap);
    if collPrice > 0 && debtPrice > 0 && cap > 0 {
      var weight, denom, result, normalized := Ltv.AtCapParts(debt, debtPrice, collPrice, cap, debtDecimals, collDecimals);
      ShiftedProduct(debt, debtPrice);
      DivExact(debt * debtPrice, SCALE);
      NormalizedTwin(result, debtDecimals, collDecimals);
    }
  }

  /** The program returns a requirement exactly when its words are wide enough and the divisor is
      not zero; it otherwise reports a width, or the zero divisor on which the client raises. */
  lemma TwinsFail(debt: U64, debtPrice: U128, collPrice: U128, cap: U16, debtDecimals: nat, collDecimals: nat)
    ensures
      var r := Ltv.RequiredAtCap(debt, debtPrice, collPrice, cap, debtDecimals, collDecimals);
      && (r.Ok? <==> Ltv.RequirementFits(debt, debtPrice, collPrice, cap, debtDecimals, collDecimals))
      && (r.Err? ==> r.error == MathOverflow || r.error == ArithmeticOverflow || r.error == MathDivisionByZero)
      && (r == Err(MathDivisionByZero) <==>
            && debt * debtPrice <= U128_MAX
            && RequiredCollateralAtoms(debt, debtPrice, collPrice, cap, debtDecimals, collDecimals).RangeError?)
  {
    Ltv.CapWeights(cap, cap);
    Ltv.SucceedsExactly(debt, debtPrice, collPrice, cap, debtDecimals, collDecimals);
    DivAtLeast(collPrice * TsCapWeight(cap), SCALE, 1);
  }

  lemma ShiftedProduct(a: nat, b: nat)
    ensures TsMulScale(a * SCALE, b) == a * b
  {
    assert a * SCALE * b == a * b * SCALE;
    DivExact(a * b, SCALE);
  }

  // ---- quote and requirement ----

  /** The integer part of the fixed-point quotient is the plain quotient. */
  lemma WholePart(n: nat, d: nat)
    requires d > 0
    ensures n * SCALE / d / SCALE == n / d
  {
    var b := n / d;
    DivBounds(n, d);
    assert b * SCALE * d == b * d * SCALE;
    DivAtLeast(n * SCALE, d, b * SCALE);
    assert (b * SCALE + SCALE) * d == (b * d + d) * SCALE;
    DivAtMost(n * SCALE, d, b * SCALE + SCALE - 1);
    DivAtLeast(n * SCALE / d, SCALE, b);
    DivAtMost(n * SCALE / d, SCALE, b);
  }

  lemma QuotientOfQuotient(n: nat, a: nat, b: nat)
    requires a > 0 && b > 0
    ensures a * b > 0 && n / a / b == n / (a * b)
  {
    var q := n / a / b;
    MulStrict(0, a, b);
    DivAtLeast(n / a, b, q);
    DivAtLeast(n, a, q * b);
    DivAtMost(n / a, b, q);
    DivAtMost(n, a, (q + 1) * b - 1);
    MulAssoc(q, b, a);
    MulAssoc(q + 1, b, a);
    assert q * (b * a) == q * (a * b) && (q + 1) * (b * a) == (q + 1) * (a * b);
    DivAtLeast(n, a * b, q);
    DivAtMost(n, a * b, q);
  }

  /** The value of `c` atoms of collateral at the cap, in fixed-point debt units. */
  function CapValue(c: nat, collPrice: nat, maxLtvBps: nat): nat {
    c * collPrice * TsCapWeight(maxLtvBps) / SCALE
  }

  /** A quote before it is cut off at 64 bits. The two roundings to fixed point and to whole atoms
      are one when the debt asset has no more decimals than the collateral. */
  function PlainQuote(value: nat, debtPrice: nat, debtDecimals: nat, collDecimals: nat): nat
    requires debtPrice > 0
  {
    if collDecimals >= debtDecimals then
      MulStrict(0, debtPrice, Ltv.Power10(collDecimals - debtDecimals));
      value / (debtPrice * Ltv.Power10(collDecimals - debtDecimals))
    else value * SCALE / debtPrice * Ltv.Power10(debtDecimals - collDecimals) / SCALE
  }

  /** The quote in plain numbers. */
  lemma QuoteParts(c: nat, debtPrice: nat, collPrice: nat, maxLtvBps: nat, debtDecimals: nat, collDecimals: nat)
    requires debtPrice > 0
    ensures MaxBorrowAtoms(c, debtPrice, collPrice, maxLtvBps, debtDecimals, collDecimals)
            == Value(Min(PlainQuote(CapValue(c, collPrice, maxLtvBps), debtPrice, debtDecimals, collDecimals), U64_MAX))
  {
    var value, result := CapValue(c, collPrice, maxLtvBps), CapValue(c, collPrice, maxLtvBps) * SCALE / debtPrice;
    ShiftedProduct(c, collPrice);
    DivExact(debtPrice, SCALE);
    if TsCapWeight(maxLtvBps) == 0 {
      NoValue(debtPrice, debtDecimals, collDecimals);
    } else if collDecimals >= debtDecimals {
      var f := Ltv.Power10(collDecimals - debtDecimals);
      QuotientOfQuotient(value * SCALE, debtPrice, f);
      WholePart(value, debtPrice * f);
      assert debtDecimals == collDecimals ==> f == 1 && result / f == result * 1;
    }
  }

  lemma NoValue(debtPrice: nat, debtDecimals: nat, collDecimals: nat)
    requires debtPrice > 0
    ensures PlainQuote(0, debtPrice, debtDecimals, collDecimals) == 0
  {
    DivAtMost(0, debtPrice, 0);
    if collDecimals >= debtDecimals {
      var f := Ltv.Power10(collDecimals - debtDecimals);
      MulStrict(0, debtPrice, f);
      DivAtMost(0, debtPrice * f, 0);
    }
  }

  /** The requirement stays at or below `limit` exactly when the debt value fits under it. */
  lemma RequirementAtMost(borrow: nat, debtPrice: nat, collPrice: nat, maxLtvBps: nat, debtDecimals: nat, collDecimals: nat, limit: nat)
    requires debtPrice > 0 && TsMulScale(collPrice, TsCapWeight(maxLtvBps)) > 0
    ensures
      var d := TsMulScale(collPrice, TsCapWeight(maxLtvBps));
      var r := RequiredCollateralAtoms(borrow, debtPrice, collPrice, maxLtvBps, debtDecimals, collDecimals);
      r.Value? && (r.atoms <= limit <==> U64_MAX <= limit || Ltv.Under(borrow * debtPrice, limit, d, debtDecimals, collDecimals))
  {
    var d, n := TsMulScale(collPrice, TsCapWeight(maxLtvBps)), borrow * debtPrice;
    WeightPositive(collPrice, maxLtvBps);
    ShiftedProduct(borrow, debtPrice);
    DivExact(n, SCALE);
    CeilAtMost(TsNormalized(n * SCALE / d, collDecimals, debtDecimals), limit);
    if collDecimals >= debtDecimals {
      Ltv.UnderUp(n, d, Ltv.Power10(collDecimals - debtDecimals), limit);
    } else {
      Ltv.UnderDown(n, d, Ltv.Power10(debtDecimals - collDecimals), limit);
    }
  }

  lemma WeightPositive(collPrice: nat, maxLtvBps: nat)
    requires TsMulScale(collPrice, TsCapWeight(maxLtvBps)) > 0
    ensures TsCapWeight(maxLtvBps) > 0 && collPrice > 0
  {
  }

  lemma CeilAtMost(q: nat, limit: nat)
    ensures TsFromScaledCeil(q) <= limit <==> q <= limit * SCALE
  {
  }

  /** What the module promises of a quote: the collateral it was made for meets its requirement. */
  predicate WithinCap(quote: Outcome, c: nat, debtPrice: nat, collPrice: nat, maxLtvBps: nat, debtDecimals: nat, collDecimals: nat) {
    quote.Value? &&
    var required := RequiredCollateralAtoms(quote.atoms, debtPrice, collPrice, maxLtvBps, debtDecimals, collDecimals);
    required.Value? && required.atoms <= c
  }

  // Both conditions compare `lost`, the value that is given up by flooring the collateral price
  // to `d`, with what the roundings of quote and requirement allow. A quote that is cut off at
  // 64 bits has to fit as it is.

  predicate FitsUp(c: nat, value: nat, lost: nat, d: nat, debtPrice: nat, f: nat)
    requires debtPrice > 0 && f > 0
  {
    MulStrict(0, debtPrice, f);
    if value >= (U64_MAX + 1) * (debtPrice * f) then U64_MAX * debtPrice * SCALE < (c * SCALE / f + 1) * d
    else lost * SCALE < value % (debtPrice * f) * SCALE + (f - c * SCALE % f) * d
  }

  predicate FitsDown(c: nat, value: nat, lost: nat, d: nat, debtPrice: nat, f: nat)
    requires debtPrice > 0 && f > 0
  {
    var scaled := value * SCALE / debtPrice * f;
    if scaled >= (U64_MAX + 1) * SCALE then U64_MAX * debtPrice * SCALE < (c * SCALE + 1) * f * d
    else lost * SCALE * f < (d + value * SCALE % debtPrice) * f + scaled % SCALE * debtPrice
  }

  /** When the promise is kept, on the inputs of the quote. */
  predicate QuoteFits(c: nat, debtPrice: nat, collPrice: nat, maxLtvBps: nat, debtDecimals: nat, collDecimals: nat) {
    var product := collPrice * TsCapWeight(maxLtvBps);
    var d, value, lost := product / SCALE, c * product / SCALE, c * (product % SCALE) / SCALE;
    if debtPrice == 0 || product == 0 then U64_MAX <= c
    else if d == 0 then false
    else if U64_MAX <= c then true
    else if collDecimals >= debtDecimals then FitsUp(c, value, lost, d, debtPrice, Ltv.Power10(collDecimals - debtDecimals))
    else FitsDown(c, value, lost, d, debtPrice, Ltv.Power10(debtDecimals - collDecimals))
  }

  /** The module's own claim, that a quote never exceeds what the cap allows, is true exactly on
      the inputs that `QuoteFits` describes: never when the floored collateral price is zero, and
      otherwise when the flooring of that price costs less than the other roundings leave.
      Degenerate prices and caps quote nothing, which the fail-closed requirement still refuses. */
  lemma QuoteIsSafe(c: nat, debtPrice: nat, collPrice: nat, maxLtvBps: nat, debtDecimals: nat, collDecimals: nat)
    ensures
      var quote := MaxBorrowAtoms(c, debtPrice, collPrice, maxLtvBps, debtDecimals, collDecimals);
      && (WithinCap(quote, c, debtPrice, collPrice, maxLtvBps, debtDecimals, collDecimals)
          <==> QuoteFits(c, debtPrice, collPrice, maxLtvBps, debtDecimals, collDecimals))
      && (debtPrice == 0 || collPrice == 0 || TsCapWeight(maxLtvBps) == 0 ==> quote == Value(0))
  {
    if debtPrice == 0 || collPrice == 0 || TsCapWeight(maxLtvBps) == 0 {
      DegenerateQuote(c, debtPrice, collPrice, maxLtvBps, debtDecimals, collDecimals);
    } else if TsMulScale(collPrice, TsCapWeight(maxLtvBps)) == 0 {
      UnpricedQuote(c, debtPrice, collPrice, maxLtvBps, debtDecimals, collDecimals);
    } else {
      PricedQuote(c, debtPrice, collPrice, maxLtvBps, debtDecimals, collDecimals);
      PricedFits(c, debtPrice, collPrice, maxLtvBps, debtDecimals, collDecimals);
    }
  }

  /** With a floored price of zero there is no requirement to meet. */
  lemma UnpricedQuote(c: nat, debtPrice: nat, collPrice: nat, maxLtvBps: nat, debtDecimals: nat, collDecimals: nat)
    requires debtPrice > 0 && collPrice > 0 && TsCapWeight(maxLtvBps) > 0 && TsMulScale(collPrice, TsCapWeight(maxLtvBps)) == 0
    ensures !WithinCap(MaxBorrowAtoms(c, debtPrice, collPrice, maxLtvBps, debtDecimals, collDecimals),
                       c, debtPrice, collPrice, maxLtvBps, debtDecimals, collDecimals)
    ensures !QuoteFits(c, debtPrice, collPrice, maxLtvBps, debtDecimals, collDecimals)
    ensures forall borrow: nat :: RequiredCollateralAtoms(borrow, debtPrice, collPrice, maxLtvBps, debtDecimals, collDecimals) == RangeError
  {
    MulStrict(0, collPrice, TsCapWeight(maxLtvBps));
  }

  /** The quote fits under the collateral at the floored price. */
  predicate QuoteIsUnder(c: nat, debtPrice: nat, collPrice: nat, maxLtvBps: nat, debtDecimals: nat, collDecimals: nat)
    requires debtPrice > 0
  {
    Ltv.Under(Min(PlainQuote(CapValue(c, collPrice, maxLtvBps), debtPrice, debtDecimals, collDecimals), U64_MAX) * debtPrice,
          c, TsMulScale(collPrice, TsCapWeight(maxLtvBps)), debtDecimals, collDecimals)
  }

  lemma PricedQuote(c: nat, debtPrice: nat, collPrice: nat, maxLtvBps: nat, debtDecimals: nat, collDecimals: nat)
    requires debtPrice > 0 && TsMulScale(collPrice, TsCapWeight(maxLtvBps)) > 0
    ensures WithinCap(MaxBorrowAtoms(c, debtPrice, collPrice, maxLtvBps, debtDecimals, collDecimals),
                      c, debtPrice, collPrice, maxLtvBps, debtDecimals, collDecimals)
            <==> U64_MAX <= c || QuoteIsUnder(c, debtPrice, collPrice, maxLtvBps, debtDecimals, collDecimals)
  {
    QuoteParts(c, debtPrice, collPrice, maxLtvBps, debtDecimals, collDecimals);
    var quote := MaxBorrowAtoms(c, debtPrice, collPrice, maxLtvBps, debtDecimals, collDecimals).atoms;
    RequirementAtMost(quote, debtPrice, collPrice, maxLtvBps, debtDecimals, collDecimals, c);
  }

  lemma PricedFits(c: nat, debtPrice: nat, collPrice: nat, maxLtvBps: nat, debtDecimals: nat, collDecimals: nat)
    requires debtPrice > 0 && collPrice > 0 && TsCapWeight(maxLtvBps) > 0 && TsMulScale(collPrice, TsCapWeight(maxLtvBps)) > 0
    ensures QuoteFits(c, debtPrice, collPrice, maxLtvBps, debtDecimals, collDecimals)
            <==> U64_MAX <= c || QuoteIsUnder(c, debtPrice, collPrice, maxLtvBps, debtDecimals, collDecimals)
  {
    var product := collPrice * TsCapWeight(maxLtvBps);
    MulStrict(0, collPrice, TsCapWeight(maxLtvBps));
    MulAssoc(c, collPrice, TsCapWeight(maxLtvBps));
    ValueParts(c, product);
    QuoteUnder(c, c * product / SCALE, c * (product % SCALE) / SCALE, product / SCALE, debtPrice, debtDecimals, collDecimals);
  }

  lemma DegenerateQuote(c: nat, debtPrice: nat, collPrice: nat, maxLtvBps: nat, debtDecimals: nat, collDecimals: nat)
    requires debtPrice == 0 || collPrice == 0 || TsCapWeight(maxLtvBps) == 0
    ensures MaxBorrowAtoms(c, debtPrice, collPrice, maxLtvBps, debtDecimals, collDecimals) == Value(0)
    ensures RequiredCollateralAtoms(0, debtPrice, collPrice, maxLtvBps, debtDecimals, collDecimals) == Value(U64_MAX)
    ensures debtPrice == 0 || collPrice * TsCapWeight(maxLtvBps) == 0
  {
    if debtPrice > 0 {
      QuoteParts(c, debtPrice, collPrice, maxLtvBps, debtDecimals, collDecimals);
      assert c * collPrice * TsCapWeight(maxLtvBps) == 0;
      NoValue(debtPrice, debtDecimals, collDecimals);
    }
  }

  /** The value at the cap is the value at the floored price and what that flooring gives up. */
  lemma ValueParts(c: nat, product: nat)
    ensures c * product / SCALE == c * (product / SCALE) + c * (product % SCALE) / SCALE
  {
    var d, r := product / SCALE, product % SCALE;
    assert c * product == c * d * SCALE + c * r by {
      assert product == d * SCALE + r;
      MulAdd(d * SCALE, r, c);
      MulAssoc(c, d, SCALE);
    }
    WholeAndRest(c * d, c * r);
  }

  lemma WholeAndRest(a: nat, b: nat)
    ensures (a * SCALE + b) / SCALE == a + b / SCALE
  {
  }

  /** The quote fits under the collateral exactly when the input condition holds. */
  lemma QuoteUnder(c: nat, value: nat, lost: nat, d: nat, debtPrice: nat, debtDecimals: nat, collDecimals: nat)
    requires debtPrice > 0 && d > 0 && value == c * d + lost
    ensures
      Ltv.Under(Min(PlainQuote(value, debtPrice, debtDecimals, collDecimals), U64_MAX) * debtPrice, c, d, debtDecimals, collDecimals)
      <==> if collDecimals >= debtDecimals then FitsUp(c, value, lost, d, debtPrice, Ltv.Power10(collDecimals - debtDecimals))
           else FitsDown(c, value, lost, d, debtPrice, Ltv.Power10(debtDecimals - collDecimals))
  {
    if collDecimals >= debtDecimals {
      var f := Ltv.Power10(collDecimals - debtDecimals);
      MulStrict(0, debtPrice, f);
      DivAtLeast(value, debtPrice * f, U64_MAX + 1);
      UpUnder(c, value, lost, d, debtPrice, f);
    } else {
      var f := Ltv.Power10(debtDecimals - collDecimals);
      DivAtLeast(value * SCALE / debtPrice * f, SCALE, U64_MAX + 1);
      DownUnder(c, value, lost, d, debtPrice, f);
    }
  }

  lemma UpUnder(c: nat, value: nat, lost: nat, d: nat, debtPrice: nat, f: nat)
    requires debtPrice > 0 && f > 0 && debtPrice * f > 0 && value == c * d + lost
    ensures value / (debtPrice * f) * debtPrice * SCALE < (c * SCALE / f + 1) * d
            <==> lost * SCALE < value % (debtPrice * f) * SCALE + (f - c * SCALE % f) * d
  {
    var q, r := value / (debtPrice * f), value % (debtPrice * f);
    var k, m := c * SCALE / f, c * SCALE % f;
    DivMod(value, debtPrice * f);
    DivMod(c * SCALE, f);
    UpRescaled(c, value, lost, d, debtPrice, f, q, r, k, m);
  }

  lemma DivMod(n: nat, d: nat)
    requires d > 0
    ensures n == n / d * d + n % d && n % d < d
  {
  }

  lemma UpRescaled(c: nat, value: nat, lost: nat, d: nat, debtPrice: nat, f: nat, q: nat, r: nat, k: nat, m: nat)
    requires f > 0 && value == c * d + lost && value == q * (debtPrice * f) + r && c * SCALE == k * f + m && m < f
    ensures q * debtPrice * SCALE < (k + 1) * d <==> lost * SCALE < r * SCALE + (f - m) * d
  {
    var a, b := q * debtPrice * SCALE, (k + 1) * d;
    assert a < b <==> a * f < b * f by {
      if a < b { MulStrict(a, b, f); } else { MulMonotone(b, a, f); }
    }
    assert a * f == (value - r) * SCALE by {
      assert a * f == q * (debtPrice * f) * SCALE;
    }
    assert b * f == c * SCALE * d + (f - m) * d by {
      assert b * f == (k * f + f) * d;
      MulAdd(c * SCALE, f - m, d);
    }
    assert c * SCALE * d == c * d * SCALE;
  }

  lemma DownUnder(c: nat, value: nat, lost: nat, d: nat, debtPrice: nat, f: nat)
    requires debtPrice > 0 && f > 0 && value == c * d + lost
    ensures
      var scaled := value * SCALE / debtPrice * f;
      scaled / SCALE * debtPrice * SCALE < (c * SCALE + 1) * f * d
      <==> lost * SCALE * f < (d + value * SCALE % debtPrice) * f + scaled % SCALE * debtPrice
  {
    var t, r := value * SCALE / debtPrice, value * SCALE % debtPrice;
    DivMod(value * SCALE, debtPrice);
    DivMod(t * f, SCALE);
    DownRescaled(c, value, lost, d, debtPrice, f, t, r, t * f / SCALE, t * f % SCALE);
  }

  lemma DownRescaled(c: nat, value: nat, lost: nat, d: nat, debtPrice: nat, f: nat, t: nat, r: nat, q: nat, m: nat)
    requires value == c * d + lost && value * SCALE == t * debtPrice + r && t * f == q * SCALE + m
    ensures q * debtPrice * SCALE < (c * SCALE + 1) * f * d <==> lost * SCALE * f < (d + r) * f + m * debtPrice
  {
    assert q * debtPrice * SCALE + m * debtPrice == t * debtPrice * f by {
      MulAdd(q * SCALE, m, debtPrice);
      assert t * f * debtPrice == t * debtPrice * f;
      assert q * SCALE * debtPrice == q * debtPrice * SCALE;
    }
    assert t * debtPrice * f + r * f == c * d * SCALE * f + lost * SCALE * f by {
      MulAdd(t * debtPrice, r, f);
      MulAdd(c * d, lost, SCALE);
      MulAdd(c * d * SCALE, lost * SCALE, f);
    }
    assert (c * SCALE + 1) * f * d == c * d * SCALE * f + d * f by {
      MulAdd(c * SCALE, 1, f);
      MulAdd(c * SCALE * f, f, d);
      assert c * SCALE * f * d == c * d * SCALE * f;
    }
    MulAdd(d, r, f);
  }

  /** A collateral price whose product with the cap weight is not a whole number of units can
      break the claim: here the quote needs half as much collateral again. */
  lemma QuoteCanExceed()
    ensures
      var quote := MaxBorrowAtoms(10, 1, 2, 8_000, 6, 6);
      && quote == Value(15)
      && RequiredCollateralAtoms(quote.atoms, 1, 2, 8_000, 6, 6) == Value(15)
  {
    assert TsCapWeight(8_000) == 225_179_981_368_524;
    assert Ltv.Power10(0) == 1;
    QuoteParts(10, 1, 2, 8_000, 6, 6);
    assert MaxBorrowAtoms(10, 1, 2, 8_000, 6, 6) == Value(15);
    assert TsMulScale(2, TsCapWeight(8_000)) == 1;
    ShiftedProduct(15, 1);
  }

  /** A product below one unit breaks it altogether: the quote has no requirement at all. */
  lemma QuoteCanBeRefused()
    ensures MaxBorrowAtoms(10, 1, 1, 8_000, 6, 6) == Value(7)
    ensures RequiredCollateralAtoms(7, 1, 1, 8_000, 6, 6) == RangeError
  {
    assert TsCapWeight(8_000) == 225_179_981_368_524;
    assert Ltv.Power10(0) == 1;
    QuoteParts(10, 1, 1, 8_000, 6, 6);
  }

  /** When that product is whole, the claim holds for any decimals. */
  lemma QuoteSafeWhenWhole(c: nat, debtPrice: nat, collPrice: nat, maxLtvBps: nat, debtDecimals: nat, collDecimals: nat)
    requires debtPrice > 0 && TsMulScale(collPrice, TsCapWeight(maxLtvBps)) > 0
    requires collPrice * TsCapWeight(maxLtvBps) % SCALE == 0
    ensures WithinCap(MaxBorrowAtoms(c, debtPrice, collPrice, maxLtvBps, debtDecimals, collDecimals),
                      c, debtPrice, collPrice, maxLtvBps, debtDecimals, collDecimals)
  {
    var d := TsMulScale(collPrice, TsCapWeight(maxLtvBps));
    WeightPositive(collPrice, maxLtvBps);
    QuoteParts(c, debtPrice, collPrice, maxLtvBps, debtDecimals, collDecimals);
    var value := CapValue(c, collPrice, maxLtvBps);
    WholeValue(c, collPrice, TsCapWeight(maxLtvBps), d);
    var plain := PlainQuote(value, debtPrice, debtDecimals, collDecimals);
    PlainFits(c, d, debtPrice, debtDecimals, collDecimals);
    SmallerUnder(Min(plain, U64_MAX) * debtPrice, plain * debtPrice, c, d, debtDecimals, collDecimals) by {
      MulMonotone(Min(plain, U64_MAX), plain, debtPrice);
    }
    RequirementAtMost(Min(plain, U64_MAX), debtPrice, collPrice, maxLtvBps, debtDecimals, collDecimals, c);
  }

  lemma SmallerUnder(less: nat, more: nat, limit: nat, d: nat, debtDecimals: nat, collDecimals: nat)
    requires less <= more && Ltv.Under(more, limit, d, debtDecimals, collDecimals)
    ensures Ltv.Under(less, limit, d, debtDecimals, collDecimals)
  {
  }

  /** With nothing lost to the floored price even the plain quote fits. */
  lemma PlainFits(c: nat, d: nat, debtPrice: nat, debtDecimals: nat, collDecimals: nat)
    requires debtPrice > 0 && d > 0
    ensures Ltv.Under(PlainQuote(c * d, debtPrice, debtDecimals, collDecimals) * debtPrice, c, d, debtDecimals, collDecimals)
  {
    if collDecimals >= debtDecimals {
      var f := Ltv.Power10(collDecimals - debtDecimals);
      MulStrict(0, debtPrice, f);
      UpUnder(c, c * d, 0, d, debtPrice, f);
      MulStrict(0, f - c * SCALE % f, d);
    } else {
      var f := Ltv.Power10(debtDecimals - collDecimals);
      DownUnder(c, c * d, 0, d, debtPrice, f);
      MulStrict(0, d + c * d * SCALE % debtPrice, f);
    }
  }

  lemma WholeValue(c: nat, collPrice: nat, w: nat, d: nat)
    requires collPrice * w == d * SCALE
    ensures c * collPrice * w / SCALE == c * d
  {
    assert c * collPrice * w == c * (collPrice * w);
    assert c * (d * SCALE) == c * d * SCALE;
    DivExact(c * d, SCALE);
  }

  /** With any decimals the quoted debt is worth no more than the weighted collateral. */
  lemma QuoteIsBacked(c: nat, debtPrice: nat, collPrice: nat, maxLtvBps: nat, debtDecimals: nat, collDecimals: nat)
    requires debtPrice > 0
    ensures
      var value := c * collPrice * TsCapWeight(maxLtvBps) / SCALE;
      var quote := MaxBorrowAtoms(c, debtPrice, collPrice, maxLtvBps, debtDecimals, collDecimals);
      quote.Value? &&
      if debtDecimals >= collDecimals then quote.atoms * debtPrice <= value * Ltv.Power10(debtDecimals - collDecimals)
      else quote.atoms * debtPrice * Ltv.Power10(collDecimals - debtDecimals) <= value
  {
    var w := TsCapWeight(maxLtvBps);
    if w > 0 {
      var value := c * collPrice * w / SCALE;
      ShiftedProduct(c, collPrice);
      DivExact(debtPrice, SCALE);
      var result := value * SCALE / debtPrice;
      var quote := MaxBorrowAtoms(c, debtPrice, collPrice, maxLtvBps, debtDecimals, collDecimals).atoms;
      var whole := TsNormalized(result, debtDecimals, collDecimals);
      assert quote <= whole / SCALE;
      if debtDecimals >= collDecimals {
        BackedUp(quote, value, debtPrice, result, Ltv.Power10(debtDecimals - collDecimals));
      } else {
        BackedDown(quote, value, debtPrice, result, Ltv.Power10(collDecimals - debtDecimals));
      }
    }
  }

  lemma BackedUp(quote: nat, value: nat, debtPrice: nat, result: nat, f: nat)
    requires debtPrice > 0 && result == value * SCALE / debtPrice && quote <= result * f / SCALE
    ensures quote * debtPrice <= value * f
  {
    DivBounds(value * SCALE, debtPrice);
    DivAtLeast(result * f, SCALE, quote);
    MulMonotone(quote * SCALE, result * f, debtPrice);
    MulMonotone(result * debtPrice, value * SCALE, f);
    MulAssoc(quote, SCALE, debtPrice);
    MulAssoc(result, f, debtPrice);
    MulAssoc(result, debtPrice, f);
    MulAssoc(value, SCALE, f);
  }

  lemma BackedDown(quote: nat, value: nat, debtPrice: nat, result: nat, f: nat)
    requires debtPrice > 0 && f > 0 && result == value * SCALE / debtPrice && quote <= result / f / SCALE
    ensures quote * debtPrice * f <= value
  {
    DivBounds(value * SCALE, debtPrice);
    DivAtLeast(result / f, SCALE, quote);
    DivAtLeast(result, f, quote * SCALE);
    MulMonotone(quote * SCALE * f, result, debtPrice);
    assert quote * SCALE * f * debtPrice == quote * debtPrice * f * SCALE;
  }

  /** In general the collateral that a quote requires exceeds the collateral it was made for by
      at most that collateral over the floored price, rounded up, whatever the decimals; a zero
      debt price is the only exception, where the quote is zero and the requirement is the
      fail-closed maximum. */
  lemma QuoteExcess(c: nat, debtPrice: nat, collPrice: nat, maxLtvBps: nat, debtDecimals: nat, collDecimals: nat)
    requires TsMulScale(collPrice, TsCapWeight(maxLtvBps)) > 0
    ensures
      var d := TsMulScale(collPrice, TsCapWeight(maxLtvBps));
      var quote := MaxBorrowAtoms(c, debtPrice, collPrice, maxLtvBps, debtDecimals, collDecimals);
      WithinCap(quote, c + (c + d - 1) / d, debtPrice, collPrice, maxLtvBps, debtDecimals, collDecimals)
      <==> debtPrice > 0 || U64_MAX <= c + (c + d - 1) / d
  {
    WeightPositive(collPrice, maxLtvBps);
    var w := TsCapWeight(maxLtvBps);
    var d := TsMulScale(collPrice, w);
    if debtPrice > 0 {
      QuoteIsBacked(c, debtPrice, collPrice, maxLtvBps, debtDecimals, collDecimals);
      ValueBound(c, collPrice, w, d);
      var quote, e := MaxBorrowAtoms(c, debtPrice, collPrice, maxLtvBps, debtDecimals, collDecimals).atoms, (c + d - 1) / d;
      RoundedUp(c, d, e);
      BackedUnder(quote * debtPrice, CapValue(c, collPrice, maxLtvBps), c + e, d, debtDecimals, collDecimals);
      RequirementAtMost(quote, debtPrice, collPrice, maxLtvBps, debtDecimals, collDecimals, c + e);
    }
  }

  /** A debt backed by a value that the limit covers at the floored price fits under the limit. */
  lemma BackedUnder(debtValue: nat, value: nat, limit: nat, d: nat, debtDecimals: nat, collDecimals: nat)
    requires d > 0 && value <= limit * d
    requires if debtDecimals >= collDecimals then debtValue <= value * Ltv.Power10(debtDecimals - collDecimals)
             else debtValue * Ltv.Power10(collDecimals - debtDecimals) <= value
    ensures Ltv.Under(debtValue, limit, d, debtDecimals, collDecimals)
  {
    if collDecimals >= debtDecimals {
      assert Ltv.Power10(0) == 1;
      LimitUp(debtValue, limit, d, Ltv.Power10(collDecimals - debtDecimals));
    } else {
      var f := Ltv.Power10(debtDecimals - collDecimals);
      MulMonotone(value, limit * d, f);
      LimitDown(debtValue, limit, d, f);
    }
  }

  lemma LimitUp(n: nat, limit: nat, d: nat, f: nat)
    requires d > 0 && f > 0 && n * f <= limit * d
    ensures n * SCALE < (limit * SCALE / f + 1) * d
  {
    var k := limit * SCALE / f + 1;
    DivAtMost(limit * SCALE, f, k - 1);
    MulStrict(limit * SCALE, k * f, d);
    assert n * SCALE * f <= limit * SCALE * d by {
      MulMonotone(n * f, limit * d, SCALE);
    }
    MulAssoc(k, d, f);
    MulAssoc(k, f, d);
    if n * SCALE >= k * d {
      MulMonotone(k * d, n * SCALE, f);
    }
  }

  lemma LimitDown(n: nat, limit: nat, d: nat, f: nat)
    requires d > 0 && f > 0 && n <= limit * d * f
    ensures n * SCALE < (limit * SCALE + 1) * f * d
  {
    MulMonotone(n, limit * d * f, SCALE);
    MulAdd(limit * SCALE, 1, f);
    MulAdd(limit * SCALE * f, f, d);
    MulStrict(0, f, d);
    assert limit * d * f * SCALE == limit * SCALE * f * d;
  }

  lemma RoundedUp(c: nat, d: nat, e: nat)
    requires d > 0 && e == (c + d - 1) / d
    ensures c * d + c <= (c + e) * d
  {
    DivBounds(c + d - 1, d);
    assert (c + e) * d == c * d + e * d;
  }

  lemma ValueBound(c: nat, collPrice: nat, w: nat, d: nat)
    requires d == collPrice * w / SCALE
    ensures c * collPrice * w / SCALE <= c * d + c
  {
    DivBounds(collPrice * w, SCALE);
    MulMonotone(collPrice * w, d * SCALE + SCALE, c);
    assert c * collPrice * w == c * (collPrice * w);
    assert c * (d * SCALE + SCALE) == (c * d + c) * SCALE;
    DivMonotone(c * collPrice * w, (c * d + c) * SCALE, SCALE);
    DivExact(c * d + c, SCALE);
  }
}
