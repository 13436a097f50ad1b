/** `programs/ydelta/src/math.rs`: fixed-point arithmetic with 48 fractional bits on 128-bit
    words, every product taken in 256 bits and every result checked to fit. */
module Math {

  const SCALE: nat := 0x1_0000_0000_0000
  const U32_MAX: nat := 0xFFFF_FFFF
  const U64_MAX: nat := 0xFFFF_FFFF_FFFF_FFFF
  const U128_MAX: nat := 0xFFFF_FFFF_FFFF_FFFF_FFFF_FFFF_FFFF_FFFF

  type U16 = x: nat | x <= 0xFFFF
  type U32 = x: nat | x <= U32_MAX
  type U64 = x: nat | x <= U64_MAX
  type U128 = x: nat | x <= U128_MAX

  datatype Error =
    | MathOverflow
    | MathDivisionByZero
    | ArithmeticOverflow
    | InvalidArgument
    | InvalidIntegrationAccount
    | LiquidationCollateralUnderflow
    | OracleDegenerate
    | LoanStillSolvent

  datatype Result<+T> = Ok(value: T) | Err(error: Error) {
    predicate IsFailure() {
      Err?
    }

    function PropagateFailure<U>(): Result<U>
      requires Err?
    {
      Err(error)
    }

    function Extract(): T
      requires Ok?
    {
      value
    }
  }

  /** Narrowing to a word. */
  function ToU128(x: nat): Result<U128> {
    if x > U128_MAX then Err(MathOverflow) else Ok(x)
  }

  function SaturatingAdd(a: U128, b: U128): U128 {
    if a + b > U128_MAX then U128_MAX else a + b
  }

  function SaturatingSub(a: nat, b: nat): nat {
    if a < b then 0 else a - b
  }

  function MulScale(a: U128, b: U128): Result<U128> {
    ToU128(a * b / SCALE)
  }

  function DivScale(a: U128, b: U128): Result<U128> {
    if b == 0 then Err(MathDivisionByZero) else ToU128(a * SCALE / b)
  }

  function ToScaled(amount: U128): Result<U128> {
    if amount / 0x1_0000_0000_0000_0000_0000 != 0 then Err(MathOverflow) else ToU128(amount * SCALE)
  }

  function FromScaledFloor(scaled: U128): U128 {
    scaled / SCALE
  }

  function FromScaledCeil(scaled: U128): Result<U128> {
    var truncated := scaled / SCALE;
    if scaled % SCALE != 0 then ToU128(truncated + 1) else Ok(truncated)
  }

  function Product(a: nat, b: nat): nat {
    a * b
  }

  function Quotient(n: nat, d: nat): nat
    requires d > 0
  {
    n / d
  }

  function MulDiv(a: U128, b: U128, c: U128, ceil: bool): Result<U128> {
    if c == 0 then Err(MathDivisionByZero)
    else
      var product := Product(a, b);
      var quotient := Quotient(product, c);
      if ceil && product % c != 0 then ToU128(quotient + 1) else ToU128(quotient)
  }

  // ---- non-linear facts ----

  /** The quotient is the one number with this remainder range. */
  lemma DivBounds(n: nat, d: nat)
    requires d > 0
    ensures n / d * d <= n < n / d * d + d
  {
  }

  lemma MulMonotone(a: nat, b: nat, c: nat)
    requires a <= b
    ensures a * c <= b * c && c * a <= c * b
  {
  }

  lemma MulAssoc(a: nat, b: nat, c: nat)
    ensures a * b * c == a * (b * c) == b * (a * c)
  {
  }

  lemma MulAdd(a: nat, b: nat, c: nat)
    ensures (a + b) * c == a * c + b * c
  {
  }

  lemma MulStrict(a: nat, b: nat, c: nat)
    requires a < b && c > 0
    ensures a * c < b * c
  {
  }

  /** A bound on a quotient is a bound on the product. */
  lemma DivAtMost(n: nat, d: nat, q: nat)
    requires d > 0
    ensures n / d <= q <==> n < (q + 1) * d
  {
    DivBounds(n, d);
    if n / d <= q {
      MulMonotone(n / d, q, d);
      assert (q + 1) * d == q * d + d;
    } else {
      MulMonotone(q + 1, n / d, d);
    }
  }

  lemma DivAtLeast(n: nat, d: nat, q: nat)
    requires d > 0
    ensures n / d >= q <==> n >= q * d
  {
    if q > 0 {
      DivAtMost(n, d, q - 1);
      assert (q - 1 + 1) * d == q * d;
    } else {
      assert q * d == 0;
    }
  }

  lemma DivMonotone(m: nat, n: nat, d: nat)
    requires m <= n && d > 0
    ensures m / d <= n / d
  {
    DivBounds(m, d);
    DivAtLeast(n, d, m / d);
  }

  lemma DivAntitone(n: nat, d: nat, e: nat)
    requires 0 < d <= e
    ensures n / e <= n / d
  {
    DivBounds(n, e);
    MulMonotone(d, e, n / e);
    DivAtLeast(n, d, n / e);
  }

  lemma DivExact(q: nat, d: nat)
    requires d > 0
    ensures q * d / d == q
  {
    DivAtMost(q * d, d, q);
    DivAtLeast(q * d, d, q);
  }

  // ---- the primitives ----

  /** Both scaled operations round down by less than one unit in the last place, and fail only
      where the result does not fit or the divisor is zero. */
  lemma MulScaleBounds(a: U128, b: U128)
    ensures MulScale(a, b).Ok? ==>
              MulScale(a, b).value * SCALE <= a * b < MulScale(a, b).value * SCALE + SCALE
    ensures MulScale(a, b).Err? <==> a * b >= (U128_MAX + 1) * SCALE
    ensures MulScale(a, b).Err? ==> MulScale(a, b).error == MathOverflow
  {
    DivBounds(a * b, SCALE);
    DivAtLeast(a * b, SCALE, U128_MAX + 1);
  }

  lemma DivScaleBounds(a: U128, b: U128)
    ensures b == 0 ==> DivScale(a, b) == Err(MathDivisionByZero)
    ensures DivScale(a, b).Ok? ==>
              DivScale(a, b).value * b <= a * SCALE < DivScale(a, b).value * b + b
    ensures b > 0 ==> (DivScale(a, b) == Err(MathOverflow) <==> a * SCALE >= (U128_MAX + 1) * b)
    ensures b > 0 && DivScale(a, b).Err? ==> DivScale(a, b).error == MathOverflow
  {
    if b > 0 {
      DivBounds(a * SCALE, b);
      DivAtLeast(a * SCALE, b, U128_MAX + 1);
    }
  }

  /** Multiplying by one changes nothing. */
  lemma MulScaleOne(a: U128)
    ensures MulScale(a, SCALE) == Ok(a)
  {
    DivExact(a, SCALE);
  }

  /** A scaled atom count times a price is the plain product. */
  lemma MulScaledAtoms(atoms: U64, price: U128)
    ensures atoms * SCALE <= U128_MAX
    ensures MulScale(atoms * SCALE, price) == ToU128(atoms * price)
  {
    assert atoms * SCALE * price == atoms * price * SCALE;
    DivExact(atoms * price, SCALE);
  }

  /** The wide division rounds down or up by less than one, and fails only when the result does not fit. */
  lemma MulDivBounds(a: U128, b: U128, c: U128, ceil: bool)
    ensures c == 0 ==> MulDiv(a, b, c, ceil) == Err(MathDivisionByZero)
    ensures MulDiv(a, b, c, ceil).Ok? ==>
              var q := MulDiv(a, b, c, ceil).value;
              if ceil then a * b <= q * c < a * b + c else q * c <= a * b < q * c + c
    ensures c > 0 ==> (MulDiv(a, b, c, ceil) == Err(MathOverflow) <==> if ceil then a * b > U128_MAX * c else a * b >= U128_MAX * c + c)
    ensures c > 0 && MulDiv(a, b, c, ceil).Err? ==> MulDiv(a, b, c, ceil).error == MathOverflow
  {
    if c == 0 {
      return;
    }
    var n, q := Product(a, b), Quotient(Product(a, b), c);
    DivBounds(n, c);
    assert n == q * c + n % c;
    assert (q + 1) * c == q * c + c;
    if q < U128_MAX {
      MulMonotone(q + 1, U128_MAX, c);
    } else if q > U128_MAX {
      MulMonotone(U128_MAX + 1, q, c);
    }
  }

  lemma FromScaledFloorBounds(s: U128)
    ensures FromScaledFloor(s) * SCALE <= s < FromScaledFloor(s) * SCALE + SCALE
  {
    DivBounds(s, SCALE);
  }

  lemma FromScaledCeilBounds(s: U128)
    ensures FromScaledCeil(s).Ok?
    ensures
      var r := FromScaledCeil(s).value;
      s <= r * SCALE < s + SCALE && forall q: nat :: s <= q * SCALE ==> r <= q
  {
    var r := FromScaledCeil(s).value;
    DivBounds(s, SCALE);
    assert r * SCALE < s + SCALE;
  }

  /** Scaling up and taking the integer part is the identity on what fits. */
  lemma ScaledRoundTrip(x: U128)
    ensures x < 0x1_0000_0000_0000_0000_0000 <==> ToScaled(x).Ok?
    ensures ToScaled(x).Ok? ==> FromScaledFloor(ToScaled(x).value) == x && FromScaledCeil(ToScaled(x).value) == Ok(x)
  {
    DivAtMost(x, 0x1_0000_0000_0000_0000_0000, 0);
    DivExact(x, SCALE);
  }
}
