/** `programs/ydelta/src/state/ltv.rs`: the collateral that a debt requires, and the gate that
    opens a Fixed loan for liquidation. */
module Ltv {
  import opened Math

  const BPS_PER_UNIT: nat := 10_000
  const MIN_LIQ_GAP_BPS: nat := 200

  function Power10(n: nat): (p: nat)
    ensures p > 0
  {
    if n == 0 then 1 else 10 * Power10(n - 1)
  }

  lemma {:induction false} Power10Grows(a: nat, b: nat)
    requires a <= b
    ensures Power10(a) <= Power10(b)
    decreases b
  {
    if a < b {
      Power10Grows(a, b - 1);
    }
  }

  lemma {:induction false} Power10Add(a: nat, b: nat)
    ensures Power10(a + b) == Power10(a) * Power10(b)
  {
    if a > 0 {
      Power10Add(a - 1, b);
      assert Power10(a + b) == 10 * Power10(a - 1 + b);
    }
  }

  /** The checked power: it fails exactly when the power does not fit. */
  function Pow10(exp: nat): Result<U128> {
    if Power10(exp) > U128_MAX then Err(ArithmeticOverflow) else Ok(Power10(exp))
  }

  /** The accumulating loop, which stops at the first product that does not fit. */
  method Pow10Loop(exp: nat) returns (r: Result<U128>)
    ensures r == Pow10(exp)
  {
    var acc: nat := 1;
    for i := 0 to exp
      invariant acc == Power10(i) && acc <= U128_MAX
    {
      if acc * 10 > U128_MAX {
        Power10Grows(i + 1, exp);
        return Err(ArithmeticOverflow);
      }
      acc := acc * 10;
    }
    r := Ok(acc);
  }

  /** Decimal normalisation of a fixed-point amount. */
  function Normalized(x: U128, debtDecimals: nat, collateralDecimals: nat): Result<U128> {
    if collateralDecimals >= debtDecimals then
      var factor :- Pow10(collateralDecimals - debtDecimals);
      MulDiv(x, factor, 1, false)
    else
      var factor :- Pow10(debtDecimals - collateralDecimals);
      MulDiv(x, 1, factor, false)
  }

  function ClampToU64(atoms: nat): U64 {
    if atoms > U64_MAX then U64_MAX else atoms
  }

  function RequiredCollateral(debt: U64, debtPrice: U128, collPrice: U128, liabWeight: U128, collWeight: U128,
                              debtDecimals: nat, collDecimals: nat): Result<U64> {
    if collPrice == 0 || collWeight == 0 || debtPrice == 0 || liabWeight == 0 then Ok(U64_MAX)
    else
      assert debt * SCALE <= U128_MAX;
      var num1 :- MulScale(debt * SCALE, debtPrice);
      var num2 :- MulScale(num1, liabWeight);
      var denom :- MulScale(collPrice, collWeight);
      var result :- DivScale(num2, denom);
      var normalized :- Normalized(result, debtDecimals, collDecimals);
      var atoms :- FromScaledCeil(normalized);
      Ok(ClampToU64(atoms))
  }

  function CapWeight(cap: U16): Result<U128> {
    var scaled :- ToScaled(cap);
    Ok(scaled / BPS_PER_UNIT)
  }

  function RequiredAtCap(debt: U64, debtPrice: U128, collPrice: U128, cap: U16, debtDecimals: nat, collDecimals: nat): Result<U64> {
    var weight :- CapWeight(cap);
    RequiredCollateral(debt, debtPrice, collPrice, SCALE, weight, debtDecimals, collDecimals)
  }

  function EffectiveOriginationCap(maxLtv: U16, buffer: U16): U16 {
    SaturatingSub(maxLtv, buffer)
  }

  /** The Fixed branch of the liquidation gate; `Ok` lets the liquidation proceed. */
  function AssertLtvBreachFixed(stampedLtv: U16, outstanding: U64, collateral: U64, debtPrice: U128, collPrice: U128,
                                debtDecimals: nat, collDecimals: nat): Result<()> {
    if outstanding == 0 then Err(InvalidArgument)
    else if collateral == 0 then Err(LiquidationCollateralUnderflow)
    else if collPrice == 0 || debtPrice == 0 then Err(OracleDegenerate)
    else if stampedLtv == 0 then Err(InvalidArgument)
    else
      var required :- RequiredAtCap(outstanding, debtPrice, collPrice, stampedLtv, debtDecimals, collDecimals);
      if collateral < required then Ok(()) else Err(LoanStillSolvent)
  }

  // ---- monotonicity ----

  lemma NormalizedMonotone(x: U128, y: U128, debtDecimals: nat, collDecimals: nat)
    requires x <= y && Normalized(x, debtDecimals, collDecimals).Ok? && Normalized(y, debtDecimals, collDecimals).Ok?
    ensures Normalized(x, debtDecimals, collDecimals).value <= Normalized(y, debtDecimals, collDecimals).value
  {
    if collDecimals >= debtDecimals {
      MulMonotone(x, y, Power10(collDecimals - debtDecimals));
    } else {
      DivMonotone(x * 1, y * 1, Power10(debtDecimals - collDecimals));
    }
  }

  lemma CeilMonotone(x: U128, y: U128)
    requires x <= y
    ensures FromScaledCeil(x).Ok? && FromScaledCeil(y).Ok? && FromScaledCeil(x).value <= FromScaledCeil(y).value
  {
    FromScaledCeilBounds(x);
    FromScaledCeilBounds(y);
  }

  lemma MulScaleMonotone(a: U128, b: U128, c: U128, d: U128)
    requires a <= c && b <= d && MulScale(a, b).Ok? && MulScale(c, d).Ok?
    ensures MulScale(a, b).value <= MulScale(c, d).value
  {
    MulMonotone(a, c, b);
    MulMonotone(b, d, c);
    DivMonotone(a * b, c * d, SCALE);
  }

  lemma DivScaleMonotone(a: U128, b: U128, c: U128, d: U128)
    requires a <= c && b >= d && DivScale(a, b).Ok? && DivScale(c, d).Ok?
    ensures DivScale(a, b).value <= DivScale(c, d).value
  {
    DivAntitone(a * SCALE, d, b);
    DivMonotone(a * SCALE, c * SCALE, d);
  }

  /** More debt, a dearer debt asset or a higher liability weight never lowers the requirement;
      a dearer collateral or a higher collateral weight never raises it. */
  lemma RequiredMonotone(debt: U64, debtPrice: U128, collPrice: U128, liabWeight: U128, collWeight: U128,
                         debt': U64, debtPrice': U128, collPrice': U128, liabWeight': U128, collWeight': U128,
                         debtDecimals: nat, collDecimals: nat)
    requires debt <= debt' && debtPrice <= debtPrice' && liabWeight <= liabWeight' && collPrice >= collPrice' && collWeight >= collWeight'
    requires debtPrice > 0 && liabWeight > 0 && collPrice' > 0 && collWeight' > 0
    ensures
      var less := RequiredCollateral(debt, debtPrice, collPrice, liabWeight, collWeight, debtDecimals, collDecimals);
      var more := RequiredCollateral(debt', debtPrice', collPrice', liabWeight', collWeight', debtDecimals, collDecimals);
      less.Ok? && more.Ok? ==> less.value <= more.value
  {
    if && RequiredCollateral(debt, debtPrice, collPrice, liabWeight, collWeight, debtDecimals, collDecimals).Ok?
       && RequiredCollateral(debt', debtPrice', collPrice', liabWeight', collWeight', debtDecimals, collDecimals).Ok? {
      assert debt * SCALE <= debt' * SCALE <= U128_MAX;
      var num1, num1' := MulScale(debt * SCALE, debtPrice).value, MulScale(debt' * SCALE, debtPrice').value;
      MulScaleMonotone(debt * SCALE, debtPrice, debt' * SCALE, debtPrice');
      var num2, num2' := MulScale(num1, liabWeight).value, MulScale(num1', liabWeight').value;
      MulScaleMonotone(num1, liabWeight, num1', liabWeight');
      var denom, denom' := MulScale(collPrice, collWeight).value, MulScale(collPrice', collWeight').value;
      MulScaleMonotone(collPrice', collWeight', collPrice, collWeight);
      DivScaleMonotone(num2, denom, num2', denom');
      var result, result' := DivScale(num2, denom).value, DivScale(num2', denom').value;
      NormalizedMonotone(result, result', debtDecimals, collDecimals);
      CeilMonotone(Normalized(result, debtDecimals, collDecimals).value, Normalized(result', debtDecimals, collDecimals).value);
    }
  }

  // ---- when there is a requirement ----

  lemma LargestPower10()
    ensures Power10(38) <= U128_MAX < Power10(39)
  {
    assert Power10(4) == 10_000;
    Power10Add(4, 4);
    Power10Add(8, 8);
    Power10Add(16, 16);
    Power10Add(32, 4);
    assert Power10(38) == 100 * Power10(36) && Power10(39) == 10 * Power10(38);
  }

  lemma Pow10Fits(exp: nat)
    ensures Pow10(exp).Ok? <==> exp <= 38
  {
    LargestPower10();
    if exp <= 38 {
      Power10Grows(exp, 38);
    } else {
      Power10Grows(39, exp);
    }
  }

  /** A value over a divisor, with decimals applied, fits its 128 bits at every step. */
  predicate QuotientFits(value: nat, divisor: nat, debtDecimals: nat, collDecimals: nat) {
    && 0 < divisor <= U128_MAX && Quotient(value * SCALE, divisor) <= U128_MAX
    && if collDecimals >= debtDecimals then
         && collDecimals - debtDecimals <= 38
         && Product(Quotient(value * SCALE, divisor), Power10(collDecimals - debtDecimals)) <= U128_MAX
       else debtDecimals - collDecimals <= 38
  }

  /** Degenerate inputs, or every intermediate result fits its 128 bits and the divisor is not zero. */
  predicate RequirementFits(debt: U64, debtPrice: U128, collPrice: U128, cap: U16, debtDecimals: nat, collDecimals: nat) {
    || debtPrice == 0 || collPrice == 0 || cap == 0
    || (&& debt * debtPrice <= U128_MAX
        && QuotientFits(debt * debtPrice, collPrice * (cap * SCALE / BPS_PER_UNIT) / SCALE, debtDecimals, collDecimals))
  }

  lemma NormalizedFits(x: U128, debtDecimals: nat, collDecimals: nat)
    ensures Normalized(x, debtDecimals, collDecimals).Ok? <==>
            if collDecimals >= debtDecimals then
              collDecimals - debtDecimals <= 38 && Product(x, Power10(collDecimals - debtDecimals)) <= U128_MAX
            else debtDecimals - collDecimals <= 38
  {
    if collDecimals >= debtDecimals {
      Pow10Fits(collDecimals - debtDecimals);
      DivExact(x * Power10(collDecimals - debtDecimals), 1);
    } else {
      Pow10Fits(debtDecimals - collDecimals);
      DivAntitone(x, 1, Power10(debtDecimals - collDecimals));
      DivExact(x, 1);
    }
  }

  /** The requirement exists exactly under those conditions, and a zero divisor is reported exactly
      when it is reached. */
  lemma SucceedsExactly(debt: U64, debtPrice: U128, collPrice: U128, cap: U16, debtDecimals: nat, collDecimals: nat)
    ensures
      var r := RequiredAtCap(debt, debtPrice, collPrice, cap, debtDecimals, collDecimals);
      && (r.Ok? <==> RequirementFits(debt, debtPrice, collPrice, cap, debtDecimals, collDecimals))
      && (r == Err(MathDivisionByZero) <==>
            && debtPrice > 0 && collPrice > 0 && cap > 0
            && debt * debtPrice <= U128_MAX && collPrice * (cap * SCALE / BPS_PER_UNIT) < SCALE)
  {
    CapWeights(cap, cap);
    if debtPrice > 0 && collPrice > 0 && cap > 0 {
      MulScaledAtoms(debt, debtPrice);
      if debt * debtPrice <= U128_MAX {
        MulScaleOne(debt * debtPrice);
        var divisor := collPrice * CapWeight(cap).value / SCALE;
        DivAtLeast(collPrice * CapWeight(cap).value, SCALE, 1);
        if 0 < divisor <= U128_MAX && Quotient(debt * debtPrice * SCALE, divisor) <= U128_MAX {
          var result := Quotient(debt * debtPrice * SCALE, divisor);
          NormalizedFits(result, debtDecimals, collDecimals);
          if Normalized(result, debtDecimals, collDecimals).Ok? {
            FromScaledCeilBounds(Normalized(result, debtDecimals, collDecimals).value);
          }
        }
      }
    }
  }

  // ---- no loan is born liquidatable ----

  lemma CapWeights(cap: U16, stamp: U16)
    requires cap <= stamp
    ensures CapWeight(cap) == Ok(cap * SCALE / BPS_PER_UNIT) && CapWeight(stamp) == Ok(stamp * SCALE / BPS_PER_UNIT)
    ensures CapWeight(cap).value <= CapWeight(stamp).value
    ensures CapWeight(cap).value == 0 <==> cap == 0
  {
  }

  /** Collateral that met the origination requirement keeps the liquidation gate shut at the
      same prices and any debt that is no larger, zero caps and saturated requirements included.
      The stamp only has to be at least the effective origination cap. */
  lemma NotBornLiquidatable(debt: U64, outstanding: U64, collateral: U64, debtPrice: U128, collPrice: U128,
                            maxLtv: U16, buffer: U16, stampedLtv: U16, debtDecimals: nat, collDecimals: nat)
    requires stampedLtv >= EffectiveOriginationCap(maxLtv, buffer) && outstanding <= debt
    requires
      var required := RequiredAtCap(debt, debtPrice, collPrice, EffectiveOriginationCap(maxLtv, buffer), debtDecimals, collDecimals);
      required.Ok? && collateral >= required.value
    ensures AssertLtvBreachFixed(stampedLtv, outstanding, collateral, debtPrice, collPrice, debtDecimals, collDecimals).Err?
  {
    var cap := EffectiveOriginationCap(maxLtv, buffer);
    CapWeights(cap, stampedLtv);
    if cap > 0 && collPrice > 0 && debtPrice > 0
       && RequiredAtCap(outstanding, debtPrice, collPrice, stampedLtv, debtDecimals, collDecimals).Ok? {
      RequiredMonotone(outstanding, debtPrice, collPrice, SCALE, CapWeight(stampedLtv).value,
                       debt, debtPrice, collPrice, SCALE, CapWeight(cap).value, debtDecimals, collDecimals);
    }
  }

  /** The rule for sub-vaults, with its minimum gap, satisfies that condition. */
  lemma GapIsEnough(debt: U64, outstanding: U64, collateral: U64, debtPrice: U128, collPrice: U128,
                    maxLtv: U16, buffer: U16, stampedLtv: U16, debtDecimals: nat, collDecimals: nat)
    requires stampedLtv >= maxLtv + MIN_LIQ_GAP_BPS && outstanding <= debt
    requires
      var required := RequiredAtCap(debt, debtPrice, collPrice, EffectiveOriginationCap(maxLtv, buffer), debtDecimals, collDecimals);
      required.Ok? && collateral >= required.value
    ensures AssertLtvBreachFixed(stampedLtv, outstanding, collateral, debtPrice, collPrice, debtDecimals, collDecimals).Err?
  {
    NotBornLiquidatable(debt, outstanding, collateral, debtPrice, collPrice, maxLtv, buffer, stampedLtv, debtDecimals, collDecimals);
  }

  // ---- how far the requirement may fall short ----

  /** The fixed-point result at a cap before decimals are applied, in plain numbers. */
  lemma AtCapParts(debt: U64, debtPrice: U128, collPrice: U128, cap: U16, debtDecimals: nat, collDecimals: nat)
    returns (weight: nat, denom: nat, result: U128, normalized: U128)
    requires cap > 0 && debtPrice > 0 && collPrice > 0
    requires RequiredAtCap(debt, debtPrice, collPrice, cap, debtDecimals, collDecimals).Ok?
    ensures weight == cap * SCALE / BPS_PER_UNIT && denom == collPrice * weight / SCALE && denom > 0
    ensures result == debt * debtPrice * SCALE / denom
    ensures Normalized(result, debtDecimals, collDecimals) == Ok(normalized)
    ensures FromScaledCeil(normalized).Ok?
    ensures RequiredAtCap(debt, debtPrice, collPrice, cap, debtDecimals, collDecimals).value == ClampToU64(FromScaledCeil(normalized).value)
  {
    CapWeights(cap, cap);
    weight := CapWeight(cap).value;
    MulScaledAtoms(debt, debtPrice);
    MulScaleOne(debt * debtPrice);
    denom := MulScale(collPrice, weight).value;
    result := DivScale(debt * debtPrice, denom).value;
    normalized := Normalized(result, debtDecimals, collDecimals).value;
  }

  /** `atoms` of collateral at `price`, both in fixed point, cover a debt of this value but for
      rounding: one power of ten of fixed-point units when scaling up, two units when scaling down. */
  ghost predicate CoveredBy(debtValue: nat, price: nat, atoms: nat, debtDecimals: nat, collDecimals: nat) {
    if collDecimals >= debtDecimals then
      var f := Power10(collDecimals - debtDecimals);
      debtValue * SCALE * SCALE * f < (atoms * SCALE + f) * price
    else
      var f := Power10(debtDecimals - collDecimals);
      debtValue * SCALE * SCALE < (atoms * SCALE + 2) * price * f
  }

  lemma MoreCovers(debtValue: nat, price: nat, atoms: nat, more: nat, debtDecimals: nat, collDecimals: nat)
    requires atoms <= more && CoveredBy(debtValue, price, atoms, debtDecimals, collDecimals)
    ensures CoveredBy(debtValue, price, more, debtDecimals, collDecimals)
  {
    if collDecimals >= debtDecimals {
      var f := Power10(collDecimals - debtDecimals);
      MulMonotone(atoms * SCALE + f, more * SCALE + f, price);
    } else {
      var f := Power10(debtDecimals - collDecimals);
      MulMonotone(atoms * SCALE + 2, more * SCALE + 2, price);
      MulMonotone((atoms * SCALE + 2) * price, (more * SCALE + 2) * price, f);
    }
  }

  /** The exact requirement is debt value over collateral price times the cap weight, times the
      power of ten. A result below the maximum falls short of it by less than that power in
      fixed-point units when scaling up, and by less than two units when scaling down. */
  lemma UnderAsk(debt: U64, debtPrice: U128, collPrice: U128, cap: U16, debtDecimals: nat, collDecimals: nat)
    requires cap > 0 && debtPrice > 0 && collPrice > 0
    requires RequiredAtCap(debt, debtPrice, collPrice, cap, debtDecimals, collDecimals).Ok?
    requires RequiredAtCap(debt, debtPrice, collPrice, cap, debtDecimals, collDecimals).value < U64_MAX
    ensures CoveredBy(debt * debtPrice, collPrice * (cap * SCALE / BPS_PER_UNIT),
                      RequiredAtCap(debt, debtPrice, collPrice, cap, debtDecimals, collDecimals).value, debtDecimals, collDecimals)
  {
    var weight, denom, result, normalized := AtCapParts(debt, debtPrice, collPrice, cap, debtDecimals, collDecimals);
    var required := RequiredAtCap(debt, debtPrice, collPrice, cap, debtDecimals, collDecimals).value;
    FromScaledCeilBounds(normalized);
    assert normalized <= required * SCALE;
    var n, price := debt * debtPrice, collPrice * weight;
    QuotientShort(n, price, denom, result);
    if collDecimals >= debtDecimals {
      var f := Power10(collDecimals - debtDecimals);
      assert normalized == result * f;
      ScaledUp(n, price, result, f, required * SCALE);
    } else {
      var f := Power10(debtDecimals - collDecimals);
      assert normalized == result / f;
      DivBounds(result, f);
      ScaledDown(n, price, result, f, required * SCALE);
    }
  }

  lemma QuotientShort(n: nat, price: nat, denom: nat, result: nat)
    requires denom > 0 && denom == price / SCALE && result == n * SCALE / denom
    ensures n * SCALE * SCALE < (result + 1) * price
  {
    DivBounds(n * SCALE, denom);
    DivBounds(price, SCALE);
    assert n * SCALE < (result + 1) * denom;
    MulMonotone(denom * SCALE, price, result + 1);
    assert (result + 1) * denom * SCALE == (result + 1) * (denom * SCALE);
  }

  lemma ScaledUp(n: nat, price: nat, result: nat, f: nat, asked: nat)
    requires f > 0 && n * SCALE * SCALE < (result + 1) * price && result * f <= asked
    ensures n * SCALE * SCALE * f < (asked + f) * price
  {
    MulStrict(n * SCALE * SCALE, (result + 1) * price, f);
    assert (result + 1) * price * f == (result * f + f) * price;
    MulMonotone(result * f + f, asked + f, price);
  }

  lemma ScaledDown(n: nat, price: nat, result: nat, f: nat, asked: nat)
    requires f > 0 && n * SCALE * SCALE < (result + 1) * price && result < result / f * f + f && result / f <= asked
    ensures n * SCALE * SCALE < (asked + 2) * price * f
  {
    assert result + 1 <= (result / f + 1) * f by {
      assert (result / f + 1) * f == result / f * f + f;
    }
    MulMonotone(result / f + 1, asked + 2, f);
    MulMonotone(result + 1, (asked + 2) * f, price);
    assert (asked + 2) * f * price == (asked + 2) * price * f;
  }

  // ---- what an open gate means ----

  /** Degenerate inputs never open the gate and are never mistaken for solvency. */
  lemma DegenerateNeverOpens(stampedLtv: U16, outstanding: U64, collateral: U64, debtPrice: U128, collPrice: U128,
                             debtDecimals: nat, collDecimals: nat)
    requires outstanding == 0 || collateral == 0 || debtPrice == 0 || collPrice == 0 || stampedLtv == 0
    ensures
      var r := AssertLtvBreachFixed(stampedLtv, outstanding, collateral, debtPrice, collPrice, debtDecimals, collDecimals);
      r.Err? && r.error != LoanStillSolvent
  {
  }

  /** The gate opens only on a real breach: the debt is worth more than the collateral at the
      floored product of its price and the stamped weight. */
  lemma BreachIsReal(stampedLtv: U16, outstanding: U64, collateral: U64, debtPrice: U128, collPrice: U128,
                     debtDecimals: nat, collDecimals: nat)
    ensures
      var price := collPrice * (stampedLtv * SCALE / BPS_PER_UNIT) / SCALE;
      AssertLtvBreachFixed(stampedLtv, outstanding, collateral, debtPrice, collPrice, debtDecimals, collDecimals).Ok? ==>
        if collDecimals >= debtDecimals then
          collateral * price < outstanding * debtPrice * Power10(collDecimals - debtDecimals)
        else
          collateral * price * Power10(debtDecimals - collDecimals) < outstanding * debtPrice
  {
    if AssertLtvBreachFixed(stampedLtv, outstanding, collateral, debtPrice, collPrice, debtDecimals, collDecimals).Ok? {
      var weight, denom, result, normalized := AtCapParts(outstanding, debtPrice, collPrice, stampedLtv, debtDecimals, collDecimals);
      FromScaledCeilBounds(normalized);
      assert collateral * SCALE < normalized;
      if collDecimals >= debtDecimals {
        AboveScaledUp(collateral, outstanding * debtPrice, denom, result, Power10(collDecimals - debtDecimals));
      } else {
        AboveScaledDown(collateral, outstanding * debtPrice, denom, result, Power10(debtDecimals - collDecimals));
      }
    }
  }

  lemma AboveScaledUp(c: nat, n: nat, denom: nat, result: nat, f: nat)
    requires denom > 0 && result == n * SCALE / denom && c * SCALE < result * f
    ensures c * denom < n * f
  {
    DivBounds(n * SCALE, denom);
    MulStrict(c * SCALE, result * f, denom);
    MulMonotone(result * denom, n * SCALE, f);
    MulAssoc(c, SCALE, denom);
    MulAssoc(result, f, denom);
    MulAssoc(result, denom, f);
    MulAssoc(n, SCALE, f);
  }

  lemma AboveScaledDown(c: nat, n: nat, denom: nat, result: nat, f: nat)
    requires denom > 0 && f > 0 && result == n * SCALE / denom && c * SCALE < result / f
    ensures c * denom * f < n
  {
    DivAtLeast(result, f, c * SCALE + 1);
    MulAdd(c * SCALE, 1, f);
    DivBounds(n * SCALE, denom);
    MulStrict(c * SCALE * f, result, denom);
    assert c * SCALE * f * denom == c * denom * f * SCALE;
  }

  /** A loan that the gate calls solvent is covered by its collateral up to rounding. */
  lemma SolventIsCovered(stampedLtv: U16, outstanding: U64, collateral: U64, debtPrice: U128, collPrice: U128,
                         debtDecimals: nat, collDecimals: nat)
    requires collateral < U64_MAX
    ensures
      AssertLtvBreachFixed(stampedLtv, outstanding, collateral, debtPrice, collPrice, debtDecimals, collDecimals) == Err(LoanStillSolvent) ==>
        CoveredBy(outstanding * debtPrice, collPrice * (stampedLtv * SCALE / BPS_PER_UNIT), collateral, debtDecimals, collDecimals)
  {
    if AssertLtvBreachFixed(stampedLtv, outstanding, collateral, debtPrice, collPrice, debtDecimals, collDecimals) == Err(LoanStillSolvent) {
      var required := StillSolvent(stampedLtv, outstanding, collateral, debtPrice, collPrice, debtDecimals, collDecimals);
      UnderAsk(outstanding, debtPrice, collPrice, stampedLtv, debtDecimals, collDecimals);
      MoreCovers(outstanding * debtPrice, collPrice * (stampedLtv * SCALE / BPS_PER_UNIT), required, collateral, debtDecimals, collDecimals);
    }
  }

  lemma StillSolvent(stampedLtv: U16, outstanding: U64, collateral: U64, debtPrice: U128, collPrice: U128,
                     debtDecimals: nat, collDecimals: nat) returns (required: nat)
    requires AssertLtvBreachFixed(stampedLtv, outstanding, collateral, debtPrice, collPrice, debtDecimals, collDecimals) == Err(LoanStillSolvent)
    ensures stampedLtv > 0 && debtPrice > 0 && collPrice > 0
    ensures RequiredAtCap(outstanding, debtPrice, collPrice, stampedLtv, debtDecimals, collDecimals) == Ok(required) && required <= collateral
  {
    CapWeights(stampedLtv, stampedLtv);
    required := RequiredAtCap(outstanding, debtPrice, collPrice, stampedLtv, debtDecimals, collDecimals).value;
  }

  // ---- the requirement for any weights ----

  /** Degenerate inputs, or every intermediate result fits its 128 bits and the divisor is not zero. */
  predicate WeightedFits(debt: U64, debtPrice: U128, collPrice: U128, liabWeight: U128, collWeight: U128, debtDecimals: nat, collDecimals: nat) {
    || debtPrice == 0 || collPrice == 0 || liabWeight == 0 || collWeight == 0
    || (&& debt * debtPrice <= U128_MAX && Product(debt * debtPrice, liabWeight) / SCALE <= U128_MAX
        && QuotientFits(Product(debt * debtPrice, liabWeight) / SCALE, Product(collPrice, collWeight) / SCALE, debtDecimals, collDecimals))
  }

  /** A zero price or weight asks for the maximum; otherwise the requirement exists exactly when it fits. */
  lemma WeightedSucceeds(debt: U64, debtPrice: U128, collPrice: U128, liabWeight: U128, collWeight: U128, debtDecimals: nat, collDecimals: nat)
    ensures debtPrice == 0 || collPrice == 0 || liabWeight == 0 || collWeight == 0 ==>
              RequiredCollateral(debt, debtPrice, collPrice, liabWeight, collWeight, debtDecimals, collDecimals) == Ok(U64_MAX)
    ensures RequiredCollateral(debt, debtPrice, collPrice, liabWeight, collWeight, debtDecimals, collDecimals).Ok?
            <==> WeightedFits(debt, debtPrice, collPrice, liabWeight, collWeight, debtDecimals, collDecimals)
  {
    if debtPrice > 0 && collPrice > 0 && liabWeight > 0 && collWeight > 0 {
      MulScaledAtoms(debt, debtPrice);
      var value, divisor := Product(debt * debtPrice, liabWeight) / SCALE, Product(collPrice, collWeight) / SCALE;
      if debt * debtPrice <= U128_MAX && value <= U128_MAX && 0 < divisor <= U128_MAX && Quotient(value * SCALE, divisor) <= U128_MAX {
        var result := Quotient(value * SCALE, divisor);
        NormalizedFits(result, debtDecimals, collDecimals);
        if Normalized(result, debtDecimals, collDecimals).Ok? {
          FromScaledCeilBounds(Normalized(result, debtDecimals, collDecimals).value);
        }
      }
    }
  }

  /** The intermediate results in plain numbers. */
  lemma WeightedParts(debt: U64, debtPrice: U128, collPrice: U128, liabWeight: U128, collWeight: U128, debtDecimals: nat, collDecimals: nat)
    returns (num: nat, denom: nat, result: U128, normalized: U128)
    requires debtPrice > 0 && collPrice > 0 && liabWeight > 0 && collWeight > 0
    requires RequiredCollateral(debt, debtPrice, collPrice, liabWeight, collWeight, debtDecimals, collDecimals).Ok?
    ensures num == debt * debtPrice * liabWeight / SCALE && denom == collPrice * collWeight / SCALE && denom > 0
    ensures result == num * SCALE / denom
    ensures Normalized(result, debtDecimals, collDecimals) == Ok(normalized) && FromScaledCeil(normalized).Ok?
    ensures RequiredCollateral(debt, debtPrice, collPrice, liabWeight, collWeight, debtDecimals, collDecimals).value
            == ClampToU64(FromScaledCeil(normalized).value)
  {
    MulScaledAtoms(debt, debtPrice);
    num := MulScale(debt * debtPrice, liabWeight).value;
    denom := MulScale(collPrice, collWeight).value;
    result := DivScale(num, denom).value;
    normalized := Normalized(result, debtDecimals, collDecimals).value;
  }

  /** `atoms` cover a weighted debt but for rounding: one unit of the quotient and one of the
      numerator, both in fixed point. */
  ghost predicate WeightedCover(debtValue: nat, price: nat, atoms: nat, debtDecimals: nat, collDecimals: nat) {
    if collDecimals >= debtDecimals then
      var f := Power10(collDecimals - debtDecimals);
      debtValue * SCALE * f < (atoms * SCALE + f) * price + SCALE * SCALE * f
    else
      var f := Power10(debtDecimals - collDecimals);
      debtValue * SCALE < (atoms * SCALE + 1) * f * price + SCALE * SCALE
  }

  /** One atom less would not be asked for even at a price that is one unit lower. */
  ghost predicate WeightedLeast(debtValue: nat, price: nat, atoms: nat, debtDecimals: nat, collDecimals: nat) {
    atoms > 0 ==>
      if collDecimals >= debtDecimals then (atoms - 1) * (price - SCALE) < debtValue * Power10(collDecimals - debtDecimals)
      else (atoms - 1) * Power10(debtDecimals - collDecimals) * (price - SCALE) < debtValue
  }

  /** For any prices and weights the requirement is the weighted debt value over the weighted
      collateral price, times the power of ten, up to rounding on both sides, and cut off at the
      64-bit maximum. */
  lemma WeightedBounds(debt: U64, debtPrice: U128, collPrice: U128, liabWeight: U128, collWeight: U128, debtDecimals: nat, collDecimals: nat)
    requires debtPrice > 0 && collPrice > 0 && liabWeight > 0 && collWeight > 0
    ensures
      var r := RequiredCollateral(debt, debtPrice, collPrice, liabWeight, collWeight, debtDecimals, collDecimals);
      r.Ok? ==>
        && WeightedLeast(debt * debtPrice * liabWeight, collPrice * collWeight, r.value, debtDecimals, collDecimals)
        && (r.value < U64_MAX ==> WeightedCover(debt * debtPrice * liabWeight, collPrice * collWeight, r.value, debtDecimals, collDecimals))
  {
    var r := RequiredCollateral(debt, debtPrice, collPrice, liabWeight, collWeight, debtDecimals, collDecimals);
    if r.Ok? {
      var num, denom, result, normalized := WeightedParts(debt, debtPrice, collPrice, liabWeight, collWeight, debtDecimals, collDecimals);
      FromScaledCeilBounds(normalized);
      var n, price := debt * debtPrice * liabWeight, collPrice * collWeight;
      DivBounds(n, SCALE);
      DivBounds(price, SCALE);
      DivBounds(num * SCALE, denom);
      if collDecimals >= debtDecimals {
        var f := Power10(collDecimals - debtDecimals);
        if r.value < U64_MAX {
          CoverUp(n, price, num, denom, result, f, r.value * SCALE);
        }
        LeastUp(n, price, num, denom, result, f, r.value);
      } else {
        var f := Power10(debtDecimals - collDecimals);
        DivBounds(result, f);
        if r.value < U64_MAX {
          CoverDown(n, price, num, denom, result, f, r.value * SCALE);
        }
        LeastDown(n, price, num, denom, result, f, r.value);
      }
    }
  }

  /** Both floors before the division, undone. */
  lemma FloorsUndone(n: nat, price: nat, num: nat, denom: nat, result: nat)
    requires n < num * SCALE + SCALE && denom * SCALE <= price && num * SCALE < result * denom + denom
    ensures n * SCALE < (result + 1) * price + SCALE * SCALE
  {
    MulStrict(n, num * SCALE + SCALE, SCALE);
    MulMonotone(denom * SCALE, price, result + 1);
    MulAdd(result, 1, denom);
    MulStrict(num * SCALE, (result + 1) * denom, SCALE);
    MulAssoc(result + 1, denom, SCALE);
  }

  lemma CoverUp(n: nat, price: nat, num: nat, denom: nat, result: nat, f: nat, asked: nat)
    requires n < num * SCALE + SCALE && denom * SCALE <= price && num * SCALE < result * denom + denom
    requires f > 0 && result * f <= asked
    ensures n * SCALE * f < (asked + f) * price + SCALE * SCALE * f
  {
    FloorsUndone(n, price, num, denom, result);
    MulStrict(n * SCALE, (result + 1) * price + SCALE * SCALE, f);
    MulAdd((result + 1) * price, SCALE * SCALE, f);
    assert (result + 1) * price * f == (result * f + f) * price by {
      MulAssoc(result + 1, price, f);
      MulAdd(result, 1, f);
      assert price * ((result + 1) * f) == (result * f + f) * price;
    }
    MulMonotone(result * f + f, asked + f, price);
  }

  lemma CoverDown(n: nat, price: nat, num: nat, denom: nat, result: nat, f: nat, asked: nat)
    requires n < num * SCALE + SCALE && denom * SCALE <= price && num * SCALE < result * denom + denom
    requires f > 0 && result / f <= asked
    ensures n * SCALE < (asked + 1) * f * price + SCALE * SCALE
  {
    FloorsUndone(n, price, num, denom, result);
    DivAtMost(result, f, asked);
    MulMonotone(result + 1, (asked + 1) * f, price);
  }

  /** The floored price is less than one unit below the exact one. */
  lemma PriceFloored(price: nat, denom: nat, k: nat)
    requires price < denom * SCALE + SCALE && price >= SCALE
    ensures k * (price - SCALE) <= k * denom * SCALE
  {
    MulMonotone(price - SCALE, denom * SCALE, k);
    MulAssoc(k, denom, SCALE);
  }

  lemma LeastUp(n: nat, price: nat, num: nat, denom: nat, result: nat, f: nat, atoms: nat)
    requires num * SCALE <= n && denom * SCALE <= price < denom * SCALE + SCALE && denom > 0 && result * denom <= num * SCALE
    requires f > 0 && (atoms > 0 ==> (atoms - 1) * SCALE < result * f)
    ensures atoms > 0 ==> (atoms - 1) * (price - SCALE) < n * f
  {
    if atoms > 0 {
      var k := atoms - 1;
      MulStrict(k * SCALE, result * f, denom);
      MulMonotone(result * denom, n, f);
      MulAssoc(result, f, denom);
      MulAssoc(result, denom, f);
      MulAssoc(k, SCALE, denom);
      PriceFloored(price, denom, k);
    }
  }

  lemma LeastDown(n: nat, price: nat, num: nat, denom: nat, result: nat, f: nat, atoms: nat)
    requires num * SCALE <= n && denom * SCALE <= price < denom * SCALE + SCALE && denom > 0 && result * denom <= num * SCALE
    requires f > 0 && result / f * f <= result && (atoms > 0 ==> (atoms - 1) * SCALE < result / f)
    ensures atoms > 0 ==> (atoms - 1) * f * (price - SCALE) < n
  {
    if atoms > 0 {
      var k := atoms - 1;
      MulStrict(k * SCALE, result / f, f);
      MulStrict(k * SCALE * f, result, denom);
      assert k * SCALE * f * denom == k * f * denom * SCALE;
      PriceFloored(price, denom, k * f);
    }
  }

  // ---- when the gate opens ----

  /** A debt value fits under a limit at the floored collateral price, decimals and roundings included. */
  predicate Under(debtValue: nat, limit: nat, d: nat, debtDecimals: nat, collDecimals: nat) {
    if collDecimals >= debtDecimals then
      debtValue * SCALE < (limit * SCALE / Power10(collDecimals - debtDecimals) + 1) * d
    else debtValue * SCALE < (limit * SCALE + 1) * Power10(debtDecimals - collDecimals) * d
  }

  lemma UnderUp(n: nat, d: nat, f: nat, limit: nat)
    requires d > 0 && f > 0
    ensures Product(n * SCALE / d, f) <= limit * SCALE <==> n * SCALE < (limit * SCALE / f + 1) * d
  {
    DivAtLeast(limit * SCALE, f, n * SCALE / d);
    DivAtMost(n * SCALE, d, limit * SCALE / f);
  }

  lemma UnderDown(n: nat, d: nat, f: nat, limit: nat)
    requires d > 0 && f > 0
    ensures Quotient(n * SCALE / d, f) <= limit * SCALE <==> n * SCALE < (limit * SCALE + 1) * f * d
  {
    DivAtMost(n * SCALE / d, f, limit * SCALE);
    MulStrict(0, limit * SCALE + 1, f);
    DivAtMost(n * SCALE, d, (limit * SCALE + 1) * f - 1);
  }

  lemma CeilAtMost(x: U128, limit: nat)
    ensures FromScaledCeil(x).Ok? && (FromScaledCeil(x).value <= limit <==> x <= limit * SCALE)
  {
    FromScaledCeilBounds(x);
    if FromScaledCeil(x).value <= limit {
      MulMonotone(FromScaledCeil(x).value, limit, SCALE);
    }
  }

  lemma NormalizedPlain(x: U128, debtDecimals: nat, collDecimals: nat)
    ensures Normalized(x, debtDecimals, collDecimals).Ok? ==>
              Normalized(x, debtDecimals, collDecimals).value
              == if collDecimals >= debtDecimals then Product(x, Power10(collDecimals - debtDecimals))
                 else Quotient(x, Power10(debtDecimals - collDecimals))
  {
    if collDecimals >= debtDecimals {
      DivExact(x * Power10(collDecimals - debtDecimals), 1);
    }
  }

  /** A requirement at a cap stays at or below `limit` exactly when the debt value fits under it. */
  lemma RequiredAtMost(debt: U64, debtPrice: U128, collPrice: U128, cap: U16, debtDecimals: nat, collDecimals: nat, limit: nat)
    requires cap > 0 && debtPrice > 0 && collPrice > 0
    ensures
      var r := RequiredAtCap(debt, debtPrice, collPrice, cap, debtDecimals, collDecimals);
      var d := collPrice * (cap * SCALE / BPS_PER_UNIT) / SCALE;
      r.Ok? ==> (r.value <= limit <==> U64_MAX <= limit || Under(debt * debtPrice, limit, d, debtDecimals, collDecimals))
  {
    var r := RequiredAtCap(debt, debtPrice, collPrice, cap, debtDecimals, collDecimals);
    if r.Ok? {
      var weight, denom, result, normalized := AtCapParts(debt, debtPrice, collPrice, cap, debtDecimals, collDecimals);
      NormalizedPlain(result, debtDecimals, collDecimals);
      CeilAtMost(normalized, limit);
      if collDecimals >= debtDecimals {
        UnderUp(debt * debtPrice, denom, Power10(collDecimals - debtDecimals), limit);
      } else {
        UnderDown(debt * debtPrice, denom, Power10(debtDecimals - collDecimals), limit);
      }
    }
  }

  /** The Fixed gate in plain numbers. It opens exactly when nothing is degenerate, the widths fit,
      and the debt value does not fit under the collateral at the floored price; it calls a loan
      solvent exactly when that value does fit, or the collateral is the 64-bit maximum. */
  lemma GateOpens(stampedLtv: U16, outstanding: U64, collateral: U64, debtPrice: U128, collPrice: U128, debtDecimals: nat, collDecimals: nat)
    ensures
      var gate := AssertLtvBreachFixed(stampedLtv, outstanding, collateral, debtPrice, collPrice, debtDecimals, collDecimals);
      var sound := outstanding > 0 && collateral > 0 && debtPrice > 0 && collPrice > 0 && stampedLtv > 0;
      var fits := RequirementFits(outstanding, debtPrice, collPrice, stampedLtv, debtDecimals, collDecimals);
      var d := collPrice * (stampedLtv * SCALE / BPS_PER_UNIT) / SCALE;
      var covered := collateral == U64_MAX || Under(outstanding * debtPrice, collateral, d, debtDecimals, collDecimals);
      && (gate.Ok? <==> sound && fits && !covered)
      && (gate == Err(LoanStillSolvent) <==> sound && fits && covered)
      && (sound && !fits ==> gate.Err? && gate.error in {MathOverflow, ArithmeticOverflow, MathDivisionByZero})
  {
    if outstanding > 0 && collateral > 0 && debtPrice > 0 && collPrice > 0 && stampedLtv > 0 {
      SucceedsExactly(outstanding, debtPrice, collPrice, stampedLtv, debtDecimals, collDecimals);
      RequiredAtMost(outstanding, debtPrice, collPrice, stampedLtv, debtDecimals, collDecimals, collateral);
      WidthErrors(outstanding, debtPrice, collPrice, stampedLtv, debtDecimals, collDecimals);
    }
  }

  lemma WidthErrors(debt: U64, debtPrice: U128, collPrice: U128, cap: U16, debtDecimals: nat, collDecimals: nat)
    ensures
      var r := RequiredAtCap(debt, debtPrice, collPrice, cap, debtDecimals, collDecimals);
      r.Err? ==> r.error in {MathOverflow, ArithmeticOverflow, MathDivisionByZero}
  {
    CapWeights(cap, cap);
  }

  /** Which degenerate input is reported, in this order. */
  lemma GateRefuses(stampedLtv: U16, outstanding: U64, collateral: U64, debtPrice: U128, collPrice: U128, debtDecimals: nat, collDecimals: nat)
    ensures
      var gate := AssertLtvBreachFixed(stampedLtv, outstanding, collateral, debtPrice, collPrice, debtDecimals, collDecimals);
      && (outstanding == 0 ==> gate == Err(InvalidArgument))
      && (outstanding > 0 && collateral == 0 ==> gate == Err(LiquidationCollateralUnderflow))
      && (outstanding > 0 && collateral > 0 && (debtPrice == 0 || collPrice == 0) ==> gate == Err(OracleDegenerate))
      && (outstanding > 0 && collateral > 0 && debtPrice > 0 && collPrice > 0 && stampedLtv == 0 ==> gate == Err(InvalidArgument))
  {
  }

  /** The cap and the buffer add up to the maximum, or the buffer uses it up. */
  lemma CapLeavesBuffer(maxLtv: U16, buffer: U16)
    ensures
      var cap := EffectiveOriginationCap(maxLtv, buffer);
      if buffer <= maxLtv then cap + buffer == maxLtv else cap == 0
  {
  }
}
