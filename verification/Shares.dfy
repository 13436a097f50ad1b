/** Share and atom conversions of `programs/ydelta/src/protocol/marginfi.rs`, over a share
    value that has already been read from the bank. */
module Shares {
  import opened Math

  const SCALE2: nat := SCALE * SCALE

  function SharesToAmount(assetShareValue: U128, shares: U128): Result<U64> {
    var atoms :- MulScale(shares, assetShareValue);
    if FromScaledFloor(atoms) > U64_MAX then Err(ArithmeticOverflow) else Ok(FromScaledFloor(atoms))
  }

  function AmountToAssetShares(assetShareValue: U128, amount: U64): Result<U128> {
    var scaled :- ToScaled(amount);
    DivScale(scaled, assetShareValue)
  }

  function AmountToAssetSharesCeil(assetShareValue: U128, amount: U64): Result<U128> {
    var scaled :- ToScaled(amount);
    var sharesFloor :- DivScale(scaled, assetShareValue);
    var back :- MulScale(sharesFloor, assetShareValue);
    if FromScaledFloor(back) < amount then
      if sharesFloor + 1 > U128_MAX then Err(ArithmeticOverflow) else Ok(sharesFloor + 1)
    else Ok(sharesFloor)
  }

  function LiabilitySharesToAtomsCeil(shares: U128, liabilityShareValue: U128): Result<U64> {
    var scaled :- MulScale(shares, liabilityShareValue);
    var atoms :- FromScaledCeil(scaled);
    if atoms > U64_MAX then Err(ArithmeticOverflow) else Ok(atoms)
  }

  /** The atoms that `shares` are worth, rounded down. */
  function Worth(assetShareValue: nat, shares: nat): nat {
    shares * assetShareValue / SCALE / SCALE
  }

  lemma WorthAtLeast(v: nat, shares: nat, atoms: nat)
    ensures Worth(v, shares) >= atoms <==> shares * v >= atoms * SCALE2
  {
    var n := shares * v;
    DivAtLeast(n / SCALE, SCALE, atoms);
    DivAtLeast(n, SCALE, atoms * SCALE);
  }

  /** Where it returns a value, the conversion to atoms is the worth. */
  lemma SharesToAmountIsWorth(v: U128, shares: U128)
    ensures SharesToAmount(v, shares).Ok? <==> Worth(v, shares) <= U64_MAX
    ensures SharesToAmount(v, shares).Ok? ==> SharesToAmount(v, shares).value == Worth(v, shares)
    ensures SharesToAmount(v, shares) == Err(MathOverflow) <==> shares * v >= (U128_MAX + 1) * SCALE
    ensures SharesToAmount(v, shares).Err? ==> SharesToAmount(v, shares).error in {MathOverflow, ArithmeticOverflow}
  {
    var p := shares * v / SCALE;
    MulScaleBounds(shares, v);
    if p > U128_MAX {
      DivAtLeast(p, SCALE, U64_MAX + 1);
    }
  }

  /** The floored share count in plain numbers, and when it does not fit. */
  lemma FlooredShares(v: U128, amount: U64)
    ensures v == 0 ==> AmountToAssetShares(v, amount) == Err(MathDivisionByZero)
    ensures v > 0 ==>
              var q := amount * SCALE2 / v;
              && AmountToAssetShares(v, amount) == ToU128(q)
              && q * v <= amount * SCALE2 < q * v + v
  {
    assert amount * SCALE * SCALE == amount * SCALE2;
    DivAtMost(amount, 0x1_0000_0000_0000_0000_0000, 0);
    if v > 0 {
      DivBounds(amount * SCALE2, v);
    }
  }

  /** The result of the ceiling version in plain numbers: the rounded-up quotient. */
  lemma CeilShares(v: U128, amount: U64)
    requires v > 0
    ensures AmountToAssetSharesCeil(v, amount).Ok? ==>
              var r := AmountToAssetSharesCeil(v, amount).value;
              amount * SCALE2 <= r * v < amount * SCALE2 + v
  {
    FlooredShares(v, amount);
    if AmountToAssetShares(v, amount).Ok? {
      var q := AmountToAssetShares(v, amount).value;
      WorthAtLeast(v, q, amount);
      MulAdd(q, 1, v);
    }
  }

  /** The ceiling version returns the least share count that is worth the target. */
  lemma CeilIsLeast(v: U128, amount: U64, shares: nat)
    requires v > 0
    ensures AmountToAssetSharesCeil(v, amount).Ok? ==>
              (Worth(v, shares) >= amount <==> shares >= AmountToAssetSharesCeil(v, amount).value)
  {
    if AmountToAssetSharesCeil(v, amount).Ok? {
      var r := AmountToAssetSharesCeil(v, amount).value;
      CeilShares(v, amount);
      WorthAtLeast(v, shares, amount);
      LeastCover(amount * SCALE2, v, r, shares);
    }
  }

  /** A rounded-up quotient is the least cover. */
  lemma LeastCover(target: nat, v: nat, r: nat, shares: nat)
    requires v > 0 && target <= r * v < target + v
    ensures shares * v >= target <==> shares >= r
  {
    if shares >= r {
      MulMonotone(r, shares, v);
    } else {
      MulMonotone(shares, r - 1, v);
      MulAdd(r - 1, 1, v);
    }
  }

  /** What it is worth: less than one share more than the target, so exactly the target as long
      as one share is worth at most one atom. */
  lemma CeilWorth(v: U128, amount: U64)
    requires v > 0
    ensures AmountToAssetSharesCeil(v, amount).Ok? ==>
              var r := AmountToAssetSharesCeil(v, amount).value;
              Worth(v, r) >= amount && (v <= SCALE2 ==> SharesToAmount(v, r) == Ok(amount))
  {
    if AmountToAssetSharesCeil(v, amount).Ok? {
      var r := AmountToAssetSharesCeil(v, amount).value;
      CeilShares(v, amount);
      WorthAtLeast(v, r, amount);
      WorthAtLeast(v, r, amount + 1);
      SharesToAmountIsWorth(v, r);
    }
  }

  /** It fails exactly when the least covering share count does not fit. */
  lemma CeilFails(v: U128, amount: U64)
    ensures v == 0 ==> AmountToAssetSharesCeil(v, amount) == Err(MathDivisionByZero)
    ensures v > 0 ==> (AmountToAssetSharesCeil(v, amount).Err? <==> U128_MAX * v < amount * SCALE2)
    ensures v > 0 ==> (AmountToAssetSharesCeil(v, amount) == Err(MathOverflow) <==> U128_MAX * v + v <= amount * SCALE2)
    ensures v > 0 && AmountToAssetSharesCeil(v, amount).Err? ==> AmountToAssetSharesCeil(v, amount).error in {MathOverflow, ArithmeticOverflow}
  {
    DivAtMost(amount, 0x1_0000_0000_0000_0000_0000, 0);
    if v > 0 {
      FlooredShares(v, amount);
      var q := amount * SCALE2 / v;
      DivAtMost(amount * SCALE2, v, U128_MAX);
      MulAdd(U128_MAX, 1, v);
      if q <= U128_MAX {
        BackFits(v, amount, q);
        WorthAtLeast(v, q, amount);
        if q == U128_MAX {
        } else {
          MulMonotone(q + 1, U128_MAX, v);
          MulAdd(q, 1, v);
        }
      } else {
        DivAtLeast(amount * SCALE2, v, U128_MAX + 1);
      }
    }
  }

  lemma BackFits(v: U128, amount: U64, q: U128)
    requires q * v <= amount * SCALE2
    ensures MulScale(q, v).Ok?
  {
    DivMonotone(q * v, amount * SCALE2, SCALE);
    assert amount * SCALE2 == amount * SCALE * SCALE;
    DivExact(amount * SCALE, SCALE);
  }

  lemma QuotientExact(n: nat, d: nat)
    requires d > 0
    ensures n == n / d * d <==> n % d == 0
  {
    assert n == n / d * d + n % d;
  }

  /** The floored round trip never gains and, while a share is worth at most one atom, loses at
      most one; it loses nothing exactly when the share value divides the scaled amount. */
  lemma FlooredRoundTrip(v: U128, amount: U64)
    requires v > 0 && AmountToAssetShares(v, amount).Ok?
    ensures
      var back := SharesToAmount(v, AmountToAssetShares(v, amount).value);
      && back.Ok? && back.value <= amount
      && (v <= SCALE2 ==> back.value + 1 >= amount)
      && (back.value == amount <==> amount * SCALE2 % v == 0)
  {
    FlooredShares(v, amount);
    var q := AmountToAssetShares(v, amount).value;
    WorthAtLeast(v, q, amount);
    WorthAtLeast(v, q, amount + 1);
    if amount > 0 {
      WorthAtLeast(v, q, amount - 1);
    }
    SharesToAmountIsWorth(v, q);
    QuotientExact(amount * SCALE2, v);
  }

  /** Liability atoms err by less than one fixed-point unit below and one atom above. The first
      product may overflow 128 bits, then the atoms 64 bits, and nothing else fails. */
  lemma LiabilityAtoms(shares: U128, v: U128)
    ensures LiabilitySharesToAtomsCeil(shares, v) == Err(MathOverflow) <==> shares * v >= (U128_MAX + 1) * SCALE
    ensures LiabilitySharesToAtomsCeil(shares, v) == Err(ArithmeticOverflow)
            <==> (U64_MAX * SCALE + 1) * SCALE <= shares * v < (U128_MAX + 1) * SCALE
    ensures LiabilitySharesToAtomsCeil(shares, v).Ok? <==> shares * v < (U64_MAX * SCALE + 1) * SCALE
    ensures
      var r := LiabilitySharesToAtomsCeil(shares, v);
      r.Ok? ==> shares * v < r.value * SCALE2 + SCALE && r.value * SCALE2 < shares * v + SCALE2
  {
    MulScaleBounds(shares, v);
    if MulScale(shares, v).Ok? {
      FromScaledCeilBounds(MulScale(shares, v).value);
      DivAtMost(shares * v, SCALE, U64_MAX * SCALE);
    }
  }

  /** Twice the rounding up covers a split: two parts of a position never owe less than the whole. */
  lemma LiabilitySplit(a: U128, b: U128, v: U128)
    requires a + b <= U128_MAX && LiabilitySharesToAtomsCeil(a, v).Ok? && LiabilitySharesToAtomsCeil(b, v).Ok?
    requires LiabilitySharesToAtomsCeil(a + b, v).Ok?
    ensures LiabilitySharesToAtomsCeil(a + b, v).value <=
            LiabilitySharesToAtomsCeil(a, v).value + LiabilitySharesToAtomsCeil(b, v).value + 1
  {
    LiabilityAtoms(a, v);
    LiabilityAtoms(b, v);
    LiabilityAtoms(a + b, v);
    MulAdd(a, b, v);
  }
}
