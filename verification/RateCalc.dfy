/** `programs/ydelta/src/protocol/marginfi_rate_calc.rs`: interest curves, the split of the
    rate between lenders and borrowers, and share-value accrual, from decoded bank records. */
module RateCalc {
  import opened Math

  const SECONDS_PER_YEAR: nat := 31_557_600
  const I64_MAX: nat := 0x7FFF_FFFF_FFFF_FFFF
  const CURVE_LEGACY: nat := 0
  const CURVE_SEVEN_POINT: nat := 1

  datatype Point = Point(util: U32, rate: U32)

  datatype RateConfig = RateConfig(
    optimalUtilization: U128,
    plateauRate: U128,
    maxRate: U128,
    insuranceFeeFixedApr: U128,
    insuranceIrFee: U128,
    protocolFixedFeeApr: U128,
    protocolIrFee: U128,
    zeroUtilRate: U32,
    hundredUtilRate: U32,
    points: seq<Point>,
    curveType: nat)

  datatype ProgramFees = ProgramFees(enabled: bool, feeFixed: U128, feeRate: U128)

  datatype Bank = Bank(
    lastUpdate: int,
    assetShares: U128,
    liabilityShares: U128,
    assetShareValue: U128,
    liabilityShareValue: U128,
    config: RateConfig)

  // ---- knots ----

  function RateOf(rate: U32): Result<U128> {
    MulDiv(rate, 10 * SCALE, U32_MAX, false)
  }

  function UtilOf(util: U32): Result<U128> {
    MulDiv(util, SCALE, U32_MAX, false)
  }

  lemma KnotsFit(u: U32)
    ensures RateOf(u) == Ok(u * (10 * SCALE) / U32_MAX) && UtilOf(u) == Ok(u * SCALE / U32_MAX)
    ensures UtilOf(u).value <= SCALE
  {
    DivMonotone(u * (10 * SCALE), U32_MAX * (10 * SCALE), U32_MAX);
    DivMonotone(u * SCALE, U32_MAX * SCALE, U32_MAX);
  }

  /** Decoding keeps the order of utilisations strictly and that of rates weakly. */
  lemma KnotsOrdered(a: U32, b: U32)
    ensures a < b ==> UtilOf(a).Ok? && UtilOf(b).Ok? && UtilOf(a).value < UtilOf(b).value
    ensures a <= b ==> RateOf(a).Ok? && RateOf(b).Ok? && RateOf(a).value <= RateOf(b).value
    ensures UtilOf(0) == Ok(0)
  {
    KnotsFit(a);
    KnotsFit(b);
    if a <= b {
      DivMonotone(a * (10 * SCALE), b * (10 * SCALE), U32_MAX);
    }
    if a < b {
      var x := a * SCALE / U32_MAX;
      DivBounds(a * SCALE, U32_MAX);
      DivAtLeast(b * SCALE, U32_MAX, x + 1);
    }
  }

  // ---- interpolation ----

  function Lerp(startX: U128, startY: U128, endX: U128, endY: U128, x: U128): Result<U128> {
    if endX <= startX then Err(InvalidArgument)
    else if x < startX || x > endX then Err(InvalidArgument)
    else if endY < startY then Err(InvalidArgument)
    else
      var proportion :- DivScale(x - startX, endX - startX);
      var rise :- MulScale(endY - startY, proportion);
      Ok(SaturatingAdd(startY, rise))
  }

  /** A segment that rises, and a place on it. */
  ghost predicate OnSegment(startX: U128, startY: U128, endX: U128, endY: U128, x: U128) {
    startX < endX && startX <= x <= endX && startY <= endY
  }

  /** `y` lies on or below the line that starts at `start` and rises by `rise` over `run`, at the
      offset `off`, by less than one unit plus the rise in whole units. */
  ghost predicate OnLine(y: nat, start: nat, rise: nat, off: nat, run: nat) {
    && y >= start && (y - start) * run <= rise * off
    && rise * off * SCALE < (y - start + 1) * run * SCALE + rise * run
  }

  lemma LerpParts(startX: U128, startY: U128, endX: U128, endY: U128, x: U128)
    requires OnSegment(startX, startY, endX, endY, x)
    ensures
      var p := (x - startX) * SCALE / (endX - startX);
      var s := (endY - startY) * p / SCALE;
      && p <= SCALE && s <= endY - startY
      && Lerp(startX, startY, endX, endY, x) == Ok(startY + s)
  {
    var off, dx, dy := x - startX, endX - startX, endY - startY;
    var p := off * SCALE / dx;
    MulMonotone(off, dx, SCALE);
    DivMonotone(off * SCALE, dx * SCALE, dx);
    assert dx * SCALE == SCALE * dx;
    DivExact(SCALE, dx);
    MulMonotone(p, SCALE, dy);
    DivMonotone(dy * p, dy * SCALE, SCALE);
    DivExact(dy, SCALE);
  }

  /** The interpolation fails exactly off a rising segment. On it the result stays between the ends,
      meets both ends exactly, and lies on the exact line but for rounding. */
  lemma LerpAccuracy(startX: U128, startY: U128, endX: U128, endY: U128, x: U128)
    ensures !OnSegment(startX, startY, endX, endY, x) ==> Lerp(startX, startY, endX, endY, x) == Err(InvalidArgument)
    ensures OnSegment(startX, startY, endX, endY, x) ==>
              var r := Lerp(startX, startY, endX, endY, x);
              && r.Ok? && startY <= r.value <= endY
              && (x == startX ==> r.value == startY) && (x == endX ==> r.value == endY)
              && OnLine(r.value, startY, endY - startY, x - startX, endX - startX)
  {
    if !OnSegment(startX, startY, endX, endY, x) {
      return;
    }
    var off, dx, dy := x - startX, endX - startX, endY - startY;
    var p := off * SCALE / dx;
    var s := dy * p / SCALE;
    LerpParts(startX, startY, endX, endY, x);
    DivBounds(off * SCALE, dx);
    DivBounds(dy * p, SCALE);
    if off == 0 {
      assert p == 0 by { DivAtMost(0, dx, 0); }
      assert dy * p == 0;
    }
    if off == dx {
      assert off * SCALE == SCALE * dx;
      DivExact(SCALE, dx);
      DivExact(dy, SCALE);
    }
    LineBounds(off, dx, dy, p, s);
  }

  lemma LineBounds(off: nat, dx: nat, dy: nat, p: nat, s: nat)
    requires dx > 0 && p * dx <= off * SCALE < p * dx + dx
    requires s * SCALE <= dy * p < s * SCALE + SCALE
    ensures s * dx <= dy * off
    ensures dy * off * SCALE < (s + 1) * dx * SCALE + dy * dx
  {
    // s * SCALE * dx <= dy * p * dx <= dy * off * SCALE
    MulMonotone(s * SCALE, dy * p, dx);
    MulMonotone(p * dx, off * SCALE, dy);
    assert dy * p * dx == dy * (p * dx);
    assert s * SCALE * dx == s * dx * SCALE;
    assert dy * (off * SCALE) == dy * off * SCALE;
    // dy * off * SCALE <= dy * p * dx + dy * dx < (s + 1) * SCALE * dx + dy * dx
    MulMonotone(off * SCALE, p * dx + dx, dy);
    assert dy * (p * dx + dx) == dy * p * dx + dy * dx;
    MulStrict(dy * p, s * SCALE + SCALE, dx);
    assert (s * SCALE + SCALE) * dx == (s + 1) * dx * SCALE;
  }

  lemma LerpMonotone(startX: U128, startY: U128, endX: U128, endY: U128, x: U128, z: U128)
    requires OnSegment(startX, startY, endX, endY, x) && OnSegment(startX, startY, endX, endY, z) && x <= z
    ensures Lerp(startX, startY, endX, endY, x).Ok? && Lerp(startX, startY, endX, endY, z).Ok?
    ensures Lerp(startX, startY, endX, endY, x).value <= Lerp(startX, startY, endX, endY, z).value
  {
    var dx, dy := endX - startX, endY - startY;
    var p, q := (x - startX) * SCALE / dx, (z - startX) * SCALE / dx;
    LerpParts(startX, startY, endX, endY, x);
    LerpParts(startX, startY, endX, endY, z);
    DivMonotone((x - startX) * SCALE, (z - startX) * SCALE, dx);
    MulMonotone(p, q, dy);
    DivMonotone(dy * p, dy * q, SCALE);
  }

  // ---- the seven-point curve ----

  /** The curve from knot (`x0`, `y0`) on; points with utilisation zero are unused slots. */
  function Walk(x0: U128, y0: U128, points: seq<Point>, hundred: U128, ur: U128): Result<U128>
    decreases |points|
  {
    if points == [] then Lerp(x0, y0, SCALE, hundred, ur)
    else if points[0].util == 0 then Walk(x0, y0, points[1..], hundred, ur)
    else
      var x :- UtilOf(points[0].util);
      var y :- RateOf(points[0].rate);
      if x <= x0 then Err(InvalidArgument)
      else if ur <= x then Lerp(x0, y0, x, y, ur)
      else Walk(x, y, points[1..], hundred, ur)
  }

  /** Utilisation counts up to one. */
  function Clamped(ur: U128): U128 {
    if ur > SCALE then SCALE else ur
  }

  function SevenPoint(ur: U128, cfg: RateConfig): Result<U128> {
    var zero :- RateOf(cfg.zeroUtilRate);
    var hundred :- RateOf(cfg.hundredUtilRate);
    Walk(0, zero, cfg.points, hundred, Clamped(ur))
  }

  /** The curve as the source computes it, walking the points in a loop. */
  method InterestRateCurveSevenPoint(ur: U128, cfg: RateConfig) returns (r: Result<U128>)
    ensures r == SevenPoint(ur, cfg)
  {
    var zero := RateOf(cfg.zeroUtilRate);
    if zero.Err? {
      return zero;
    }
    var hundred := RateOf(cfg.hundredUtilRate);
    if hundred.Err? {
      return hundred;
    }
    var clamped := Clamped(ur);
    var prevUtil, prevRate := 0, zero.value;
    var i := 0;
    while i < |cfg.points|
      invariant i <= |cfg.points| && 0 <= prevUtil <= U128_MAX && 0 <= prevRate <= U128_MAX
      invariant SevenPoint(ur, cfg) == Walk(prevUtil, prevRate, cfg.points[i..], hundred.value, clamped)
    {
      var point := cfg.points[i];
      assert cfg.points[i..][1..] == cfg.points[i + 1..];
      i := i + 1;
      if point.util == 0 {
        continue;
      }
      var pointUtil := UtilOf(point.util);
      if pointUtil.Err? {
        return pointUtil;
      }
      var pointRate := RateOf(point.rate);
      if pointRate.Err? {
        return pointRate;
      }
      if pointUtil.value <= prevUtil {
        return Err(InvalidArgument);
      }
      if clamped <= pointUtil.value {
        return Lerp(prevUtil, prevRate, pointUtil.value, pointRate.value, clamped);
      }
      prevUtil, prevRate := pointUtil.value, pointRate.value;
    }
    r := Lerp(prevUtil, prevRate, SCALE, hundred.value, clamped);
  }

  /** Used points rise strictly in utilisation and weakly in rate, up to the last rate. */
  predicate Rising(util: U32, rate: U32, points: seq<Point>, hundred: U32)
    decreases |points|
  {
    if points == [] then rate <= hundred
    else if points[0].util == 0 then Rising(util, rate, points[1..], hundred)
    else util < points[0].util && rate <= points[0].rate && Rising(points[0].util, points[0].rate, points[1..], hundred)
  }

  predicate RisingConfig(cfg: RateConfig) {
    Rising(0, cfg.zeroUtilRate, cfg.points, cfg.hundredUtilRate)
  }

  /** A decoded knot. */
  ghost predicate Knot(util: U32, rate: U32, x: U128, y: U128) {
    UtilOf(util) == Ok(x) && RateOf(rate) == Ok(y)
  }

  /** From a knot on the curve succeeds and stays between this knot's rate and the last. */
  lemma {:induction false} WalkRange(util: U32, rate: U32, x0: U128, y0: U128, points: seq<Point>, last: U32, hundred: U128, ur: U128)
    requires Rising(util, rate, points, last) && Knot(util, rate, x0, y0) && RateOf(last) == Ok(hundred)
    requires x0 <= ur <= SCALE && x0 < SCALE
    ensures Walk(x0, y0, points, hundred, ur).Ok? && y0 <= Walk(x0, y0, points, hundred, ur).value <= hundred
    decreases |points|
  {
    if points == [] {
      KnotsOrdered(rate, last);
      LerpAccuracy(x0, y0, SCALE, hundred, ur);
    } else if points[0].util == 0 {
      WalkRange(util, rate, x0, y0, points[1..], last, hundred, ur);
    } else {
      var p := points[0];
      KnotsFit(p.util);
      KnotsFit(p.rate);
      KnotsOrdered(util, p.util);
      KnotsOrdered(rate, p.rate);
      RatesReach(p.util, p.rate, points[1..], last);
      KnotsOrdered(p.rate, last);
      var x, y := UtilOf(p.util).value, RateOf(p.rate).value;
      if ur <= x {
        LerpAccuracy(x0, y0, x, y, ur);
      } else {
        WalkRange(p.util, p.rate, x, y, points[1..], last, hundred, ur);
      }
    }
  }

  lemma {:induction false} RatesReach(util: U32, rate: U32, points: seq<Point>, last: U32)
    requires Rising(util, rate, points, last)
    ensures rate <= last
    decreases |points|
  {
    if points != [] {
      if points[0].util == 0 {
        RatesReach(util, rate, points[1..], last);
      } else {
        RatesReach(points[0].util, points[0].rate, points[1..], last);
      }
    }
  }

  lemma {:induction false} WalkMonotone(util: U32, rate: U32, x0: U128, y0: U128, points: seq<Point>, last: U32, hundred: U128, ur: U128, vr: U128)
    requires Rising(util, rate, points, last) && Knot(util, rate, x0, y0) && RateOf(last) == Ok(hundred)
    requires x0 <= ur <= vr <= SCALE && x0 < SCALE
    ensures Walk(x0, y0, points, hundred, ur).Ok? && Walk(x0, y0, points, hundred, vr).Ok?
    ensures Walk(x0, y0, points, hundred, ur).value <= Walk(x0, y0, points, hundred, vr).value
    decreases |points|
  {
    if points == [] {
      KnotsOrdered(rate, last);
      LerpMonotone(x0, y0, SCALE, hundred, ur, vr);
    } else if points[0].util == 0 {
      WalkMonotone(util, rate, x0, y0, points[1..], last, hundred, ur, vr);
    } else {
      var p := points[0];
      KnotsFit(p.util);
      KnotsFit(p.rate);
      KnotsOrdered(util, p.util);
      KnotsOrdered(rate, p.rate);
      var x, y := UtilOf(p.util).value, RateOf(p.rate).value;
      if vr <= x {
        LerpMonotone(x0, y0, x, y, ur, vr);
      } else if ur <= x {
        LerpAccuracy(x0, y0, x, y, ur);
        WalkRange(p.util, p.rate, x, y, points[1..], last, hundred, vr);
      } else {
        WalkMonotone(p.util, p.rate, x, y, points[1..], last, hundred, ur, vr);
      }
    }
  }

  /** Every used knot is met exactly. */
  lemma {:induction false} WalkHits(util: U32, rate: U32, x0: U128, y0: U128, points: seq<Point>, last: U32, hundred: U128, k: nat)
    requires Rising(util, rate, points, last) && Knot(util, rate, x0, y0) && RateOf(last) == Ok(hundred) && x0 < SCALE
    requires k < |points| && points[k].util != 0
    ensures UtilOf(points[k].util).Ok? && Walk(x0, y0, points, hundred, UtilOf(points[k].util).value) == RateOf(points[k].rate)
    ensures util < points[k].util
    decreases |points|
  {
    var p := points[0];
    if p.util == 0 {
      WalkHits(util, rate, x0, y0, points[1..], last, hundred, k - 1);
    } else {
      KnotsFit(p.util);
      KnotsFit(p.rate);
      KnotsOrdered(util, p.util);
      KnotsOrdered(rate, p.rate);
      var x, y := UtilOf(p.util).value, RateOf(p.rate).value;
      if k == 0 {
        LerpAccuracy(x0, y0, x, y, x);
      } else {
        LaterUtil(p.util, p.rate, points[1..], last, k - 1);
        KnotsOrdered(p.util, points[k].util);
        KnotsFit(points[k].util);
        WalkHits(p.util, p.rate, x, y, points[1..], last, hundred, k - 1);
      }
    }
  }

  lemma {:induction false} LaterUtil(util: U32, rate: U32, points: seq<Point>, last: U32, k: nat)
    requires Rising(util, rate, points, last) && k < |points| && points[k].util != 0
    ensures util < points[k].util
    decreases |points|
  {
    if k > 0 {
      if points[0].util == 0 {
        LaterUtil(util, rate, points[1..], last, k - 1);
      } else {
        LaterUtil(points[0].util, points[0].rate, points[1..], last, k - 1);
      }
    }
  }

  /** On a rising configuration the curve never fails, keeps to the range of its end rates and is
      monotone in utilisation. */
  lemma CurveIsMonotone(ur: U128, vr: U128, cfg: RateConfig)
    requires RisingConfig(cfg) && ur <= vr
    ensures SevenPoint(ur, cfg).Ok? && SevenPoint(vr, cfg).Ok? && RateOf(cfg.zeroUtilRate).Ok? && RateOf(cfg.hundredUtilRate).Ok?
    ensures RateOf(cfg.zeroUtilRate).value <= SevenPoint(ur, cfg).value <= SevenPoint(vr, cfg).value <= RateOf(cfg.hundredUtilRate).value
  {
    KnotsFit(cfg.zeroUtilRate);
    KnotsFit(cfg.hundredUtilRate);
    KnotsOrdered(0, 0);
    var zero, hundred := RateOf(cfg.zeroUtilRate).value, RateOf(cfg.hundredUtilRate).value;
    var a, b := Clamped(ur), Clamped(vr);
    WalkMonotone(0, cfg.zeroUtilRate, 0, zero, cfg.points, cfg.hundredUtilRate, hundred, a, b);
    WalkRange(0, cfg.zeroUtilRate, 0, zero, cfg.points, cfg.hundredUtilRate, hundred, a);
    WalkRange(0, cfg.zeroUtilRate, 0, zero, cfg.points, cfg.hundredUtilRate, hundred, b);
  }

  lemma CurveMeetsKnots(cfg: RateConfig, k: nat)
    requires RisingConfig(cfg) && k < |cfg.points| && cfg.points[k].util != 0
    ensures UtilOf(cfg.points[k].util).Ok? && SevenPoint(UtilOf(cfg.points[k].util).value, cfg) == RateOf(cfg.points[k].rate)
  {
    KnotsFit(cfg.zeroUtilRate);
    KnotsFit(cfg.hundredUtilRate);
    KnotsFit(cfg.points[k].util);
    KnotsOrdered(0, 0);
    WalkHits(0, cfg.zeroUtilRate, 0, RateOf(cfg.zeroUtilRate).value, cfg.points, cfg.hundredUtilRate, RateOf(cfg.hundredUtilRate).value, k);
  }

  /** The curve leaves from the knot it starts at. */
  lemma {:induction false} WalkStart(util: U32, rate: U32, x0: U128, y0: U128, points: seq<Point>, last: U32, hundred: U128)
    requires Rising(util, rate, points, last) && Knot(util, rate, x0, y0) && RateOf(last) == Ok(hundred) && x0 < SCALE
    ensures Walk(x0, y0, points, hundred, x0) == Ok(y0)
    decreases |points|
  {
    if points == [] {
      KnotsOrdered(rate, last);
      LerpAccuracy(x0, y0, SCALE, hundred, x0);
    } else if points[0].util == 0 {
      WalkStart(util, rate, x0, y0, points[1..], last, hundred);
    } else {
      var p := points[0];
      KnotsFit(p.util);
      KnotsFit(p.rate);
      KnotsOrdered(util, p.util);
      KnotsOrdered(rate, p.rate);
      LerpAccuracy(x0, y0, UtilOf(p.util).value, RateOf(p.rate).value, x0);
    }
  }

  /** No used point that decodes to full utilisation has another rate than the last one. */
  predicate FullAgrees(points: seq<Point>, last: U32) {
    forall p <- points :: p.util == U32_MAX ==> RateOf(p.rate) == RateOf(last)
  }

  lemma {:induction false} WalkEnd(util: U32, rate: U32, x0: U128, y0: U128, points: seq<Point>, last: U32, hundred: U128)
    requires Rising(util, rate, points, last) && Knot(util, rate, x0, y0) && RateOf(last) == Ok(hundred) && x0 < SCALE
    ensures Walk(x0, y0, points, hundred, SCALE) == Ok(hundred) <==> FullAgrees(points, last)
    decreases |points|
  {
    if points == [] {
      KnotsOrdered(rate, last);
      LerpAccuracy(x0, y0, SCALE, hundred, SCALE);
    } else {
      var p := points[0];
      assert FullAgrees(points, last) <==> FullAgrees(points[1..], last) && (p.util == U32_MAX ==> RateOf(p.rate) == RateOf(last)) by {
        assert points == [p] + points[1..];
      }
      if p.util == 0 {
        WalkEnd(util, rate, x0, y0, points[1..], last, hundred);
      } else {
        KnotsFit(p.util);
        KnotsFit(p.rate);
        KnotsOrdered(util, p.util);
        KnotsOrdered(rate, p.rate);
        KnotsOrdered(p.util, U32_MAX);
        FullUtil();
        var x, y := UtilOf(p.util).value, RateOf(p.rate).value;
        if p.util == U32_MAX {
          LerpAccuracy(x0, y0, x, y, SCALE);
          NoneAfterFull(p.rate, points[1..], last);
        } else {
          WalkEnd(p.util, p.rate, x, y, points[1..], last, hundred);
        }
      }
    }
  }

  lemma FullUtil()
    ensures UtilOf(U32_MAX) == Ok(SCALE)
  {
    KnotsFit(U32_MAX);
    DivExact(SCALE, U32_MAX);
  }

  lemma {:induction false} NoneAfterFull(rate: U32, points: seq<Point>, last: U32)
    requires Rising(U32_MAX, rate, points, last)
    ensures forall p <- points :: p.util == 0
    decreases |points|
  {
    if points != [] {
      NoneAfterFull(rate, points[1..], last);
    }
  }

  /** The end knots: the curve always meets the zero rate, and from full utilisation on it meets
      the hundred rate unless a used point at full utilisation decodes to another rate. */
  lemma CurveMeetsEnds(ur: U128, cfg: RateConfig)
    requires RisingConfig(cfg)
    ensures SevenPoint(0, cfg) == RateOf(cfg.zeroUtilRate)
    ensures ur >= SCALE ==> (SevenPoint(ur, cfg) == RateOf(cfg.hundredUtilRate) <==> FullAgrees(cfg.points, cfg.hundredUtilRate))
  {
    KnotsFit(cfg.zeroUtilRate);
    KnotsFit(cfg.hundredUtilRate);
    KnotsOrdered(0, 0);
    var zero, hundred := RateOf(cfg.zeroUtilRate).value, RateOf(cfg.hundredUtilRate).value;
    WalkStart(0, cfg.zeroUtilRate, 0, zero, cfg.points, cfg.hundredUtilRate, hundred);
    WalkEnd(0, cfg.zeroUtilRate, 0, zero, cfg.points, cfg.hundredUtilRate, hundred);
  }

  /** A rising configuration whose last point shadows the hundred rate. */
  lemma CurveCanMissHundred(cfg: RateConfig)
    requires cfg.zeroUtilRate == 0 && cfg.hundredUtilRate == U32_MAX && cfg.points == [Point(U32_MAX, 1)]
    ensures RisingConfig(cfg) && SevenPoint(SCALE, cfg) == RateOf(1) && RateOf(1) != RateOf(cfg.hundredUtilRate)
  {
    KnotsFit(1);
    KnotsFit(U32_MAX);
    DivExact(10 * SCALE, U32_MAX);
    assert Rising(U32_MAX, 1, cfg.points[1..], U32_MAX);
    FullUtil();
    KnotsOrdered(0, 1);
    LerpAccuracy(0, RateOf(0).value, SCALE, RateOf(1).value, SCALE);
  }

  ghost predicate UpTo(points: seq<Point>, x: U128) {
    forall p <- points :: p.util != 0 ==> UtilOf(p.util).Ok? && UtilOf(p.util).value <= x
  }

  /** No used point lies strictly between the two utilisations. */
  ghost predicate NoneBetween(points: seq<Point>, startX: U128, endX: U128) {
    forall p <- points :: p.util != 0 ==> UtilOf(p.util).Ok? && (UtilOf(p.util).value <= startX || endX <= UtilOf(p.util).value)
  }

  lemma {:induction false} RestFrom(util: U32, rate: U32, points: seq<Point>, last: U32, x: U128)
    requires Rising(util, rate, points, last) && UtilOf(util) == Ok(x)
    ensures forall p <- points :: p.util != 0 ==> UtilOf(p.util).Ok? && x <= UtilOf(p.util).value
    decreases |points|
  {
    if points != [] {
      var p := points[0];
      assert points == [p] + points[1..];
      if p.util == 0 {
        RestFrom(util, rate, points[1..], last, x);
      } else {
        KnotsOrdered(util, p.util);
        RestFrom(p.util, p.rate, points[1..], last, UtilOf(p.util).value);
      }
    }
  }

  /** The two neighbouring knots that decide a utilisation; the last rate is one of them only
      beyond every used point. */
  lemma {:induction false} WalkSegment(util: U32, rate: U32, x0: U128, y0: U128, points: seq<Point>, last: U32, hundred: U128, ur: U128)
    returns (startX: U128, startY: U128, endX: U128, endY: U128)
    requires Rising(util, rate, points, last) && Knot(util, rate, x0, y0) && RateOf(last) == Ok(hundred)
    requires x0 <= ur <= SCALE && x0 < SCALE
    ensures x0 <= startX && endX <= SCALE && OnSegment(startX, startY, endX, endY, ur) && NoneBetween(points, startX, endX)
    ensures Walk(x0, y0, points, hundred, ur) == Lerp(startX, startY, endX, endY, ur)
    ensures (startX, startY) == (x0, y0) || exists p <- points :: p.util != 0 && Knot(p.util, p.rate, startX, startY)
    ensures ((endX, endY) == (SCALE, hundred) && UpTo(points, startX)) || exists p <- points :: p.util != 0 && Knot(p.util, p.rate, endX, endY)
    decreases |points|
  {
    if points == [] {
      KnotsOrdered(rate, last);
      return x0, y0, SCALE, hundred;
    }
    var p := points[0];
    assert points == [p] + points[1..];
    if p.util == 0 {
      startX, startY, endX, endY := WalkSegment(util, rate, x0, y0, points[1..], last, hundred, ur);
    } else {
      KnotsFit(p.util);
      KnotsFit(p.rate);
      KnotsOrdered(util, p.util);
      KnotsOrdered(rate, p.rate);
      var x, y := UtilOf(p.util).value, RateOf(p.rate).value;
      assert p in points && Knot(p.util, p.rate, x, y);
      if ur <= x {
        RestFrom(p.util, p.rate, points[1..], last, x);
        return x0, y0, x, y;
      } else {
        startX, startY, endX, endY := WalkSegment(p.util, p.rate, x, y, points[1..], last, hundred, ur);
      }
    }
  }

  /** The curve interpolates between the two neighbouring knots around a utilisation, where it lies
      on or below the exact line by less than one unit plus the rise in whole units. */
  lemma CurveAccuracy(ur: U128, cfg: RateConfig) returns (startX: U128, startY: U128, endX: U128, endY: U128)
    requires RisingConfig(cfg)
    ensures endX <= SCALE && OnSegment(startX, startY, endX, endY, Clamped(ur)) && NoneBetween(cfg.points, startX, endX)
    ensures || (startX == 0 && RateOf(cfg.zeroUtilRate) == Ok(startY))
            || exists p <- cfg.points :: p.util != 0 && Knot(p.util, p.rate, startX, startY)
    ensures || (endX == SCALE && RateOf(cfg.hundredUtilRate) == Ok(endY) && UpTo(cfg.points, startX))
            || exists p <- cfg.points :: p.util != 0 && Knot(p.util, p.rate, endX, endY)
    ensures SevenPoint(ur, cfg) == Lerp(startX, startY, endX, endY, Clamped(ur)) && SevenPoint(ur, cfg).Ok?
    ensures
      var y := SevenPoint(ur, cfg).value;
      startY <= y <= endY && OnLine(y, startY, endY - startY, Clamped(ur) - startX, endX - startX)
  {
    KnotsFit(cfg.zeroUtilRate);
    KnotsFit(cfg.hundredUtilRate);
    KnotsOrdered(0, 0);
    var zero, hundred := RateOf(cfg.zeroUtilRate).value, RateOf(cfg.hundredUtilRate).value;
    startX, startY, endX, endY := WalkSegment(0, cfg.zeroUtilRate, 0, zero, cfg.points, cfg.hundredUtilRate, hundred, Clamped(ur));
    LerpAccuracy(startX, startY, endX, endY, Clamped(ur));
  }

  /** Knot (`x`, `y`) comes just before point `k`: the last used point there, or the start. */
  ghost predicate Previous(points: seq<Point>, k: nat, x0: U128, y0: U128, x: U128, y: U128)
    requires k <= |points|
  {
    || ((x, y) == (x0, y0) && forall i | 0 <= i < k :: points[i].util == 0)
    || exists j | 0 <= j < k :: points[j].util != 0 && Knot(points[j].util, points[j].rate, x, y) && forall i | j < i < k :: points[i].util == 0
  }

  /** The used points before `k` rise strictly from `x0` and stay below `ur`. */
  ghost predicate Passed(points: seq<Point>, k: nat, x0: U128, ur: U128)
    requires k <= |points|
  {
    && (forall i | 0 <= i < k && points[i].util != 0 :: UtilOf(points[i].util).Ok? && x0 < UtilOf(points[i].util).value < ur)
    && forall i, j | 0 <= i < j < k && points[i].util != 0 && points[j].util != 0 ::
         UtilOf(points[i].util).Ok? && UtilOf(points[j].util).Ok? && UtilOf(points[i].util).value < UtilOf(points[j].util).value
  }

  /** A segment gives the place on its line, or is refused when it does not rise. */
  ghost predicate Segment(r: Result<U128>, startX: U128, startY: U128, endX: U128, endY: U128, ur: U128) {
    if OnSegment(startX, startY, endX, endY, ur) then
      r.Ok? && startY <= r.value <= endY && OnLine(r.value, startY, endY - startY, ur - startX, endX - startX)
    else r == Err(InvalidArgument)
  }

  /** The walk ends at point `k` behind knot (`x`, `y`): it does not rise, or is not below `ur`, or
      there is none left. The segment that ends there gives the result. */
  ghost predicate StopsAt(r: Result<U128>, points: seq<Point>, hundred: U128, ur: U128, k: nat, x: U128, y: U128)
    requires k <= |points|
  {
    if k == |points| then Segment(r, x, y, SCALE, hundred, ur)
    else
      var p := points[k];
      && p.util != 0 && UtilOf(p.util).Ok? && RateOf(p.rate).Ok?
      && (UtilOf(p.util).value <= x || ur <= UtilOf(p.util).value)
      && Segment(r, x, y, UtilOf(p.util).value, RateOf(p.rate).value, ur)
  }

  /** How the walk from a knot ends. */
  ghost predicate Outcome(x0: U128, y0: U128, points: seq<Point>, hundred: U128, ur: U128, k: nat, x: U128, y: U128) {
    && k <= |points| && Passed(points, k, x0, ur) && Previous(points, k, x0, y0, x, y)
    && StopsAt(Walk(x0, y0, points, hundred, ur), points, hundred, ur, k, x, y)
  }

  lemma StopsHere(x0: U128, y0: U128, points: seq<Point>, hundred: U128, ur: U128)
    requires points == [] || (points[0].util != 0 && UtilOf(points[0].util).Ok? && (UtilOf(points[0].util).value <= x0 || ur <= UtilOf(points[0].util).value))
    ensures Outcome(x0, y0, points, hundred, ur, 0, x0, y0)
  {
    if points == [] {
      LerpAccuracy(x0, y0, SCALE, hundred, ur);
    } else {
      KnotsFit(points[0].rate);
      LerpAccuracy(x0, y0, UtilOf(points[0].util).value, RateOf(points[0].rate).value, ur);
    }
  }

  /** One point is put in front: unused, or the knot from which the others rise. */
  lemma PassedShift(points: seq<Point>, k: nat, px: U128, x0: U128, ur: U128)
    requires 0 < |points| && k < |points| && Passed(points[1..], k, px, ur) && x0 <= px
    requires points[0].util != 0 ==> UtilOf(points[0].util) == Ok(px) && x0 < px < ur
    ensures Passed(points, k + 1, x0, ur)
  {
    var rest := points[1..];
    forall i | 0 <= i < k + 1 && points[i].util != 0
      ensures UtilOf(points[i].util).Ok? && x0 < UtilOf(points[i].util).value < ur && (i > 0 ==> px < UtilOf(points[i].util).value)
    {
      if i > 0 {
        assert rest[i - 1] == points[i];
      }
    }
    forall i, j | 0 <= i < j < k + 1 && points[i].util != 0 && points[j].util != 0
      ensures UtilOf(points[i].util).Ok? && UtilOf(points[j].util).Ok? && UtilOf(points[i].util).value < UtilOf(points[j].util).value
    {
      if i > 0 {
        assert rest[i - 1] == points[i] && rest[j - 1] == points[j];
      }
    }
  }

  lemma PreviousShift(points: seq<Point>, k: nat, px: U128, py: U128, x0: U128, y0: U128, x: U128, y: U128)
    requires 0 < |points| && k < |points| && Previous(points[1..], k, px, py, x, y)
    requires if points[0].util == 0 then (px, py) == (x0, y0) else Knot(points[0].util, points[0].rate, px, py)
    ensures Previous(points, k + 1, x0, y0, x, y)
  {
    var rest := points[1..];
    assert forall i | 0 <= i < k :: rest[i] == points[i + 1];
    if (x, y) == (px, py) && forall i | 0 <= i < k :: rest[i].util == 0 {
      assert forall i | 0 < i < k + 1 :: points[i] == rest[i - 1];
    } else {
      var j :| 0 <= j < k && rest[j].util != 0 && Knot(rest[j].util, rest[j].rate, x, y) && forall i | j < i < k :: rest[i].util == 0;
      assert forall i | j + 1 < i < k + 1 :: points[i] == rest[i - 1];
      assert points[j + 1] == rest[j];
    }
  }

  /** The point in front is passed: it is unused, or the knot from which the rest goes on. */
  lemma StopsLater(x0: U128, y0: U128, px: U128, py: U128, points: seq<Point>, hundred: U128, ur: U128, k: nat, x: U128, y: U128)
    requires points != [] && Outcome(px, py, points[1..], hundred, ur, k, x, y)
    requires if points[0].util == 0 then (px, py) == (x0, y0) else Knot(points[0].util, points[0].rate, px, py) && x0 < px < ur
    ensures Outcome(x0, y0, points, hundred, ur, k + 1, x, y)
  {
    PassedShift(points, k, px, x0, ur);
    PreviousShift(points, k, px, py, x0, y0, x, y);
  }

  lemma {:induction false} WalkStops(x0: U128, y0: U128, points: seq<Point>, hundred: U128, ur: U128) returns (k: nat, x: U128, y: U128)
    ensures Outcome(x0, y0, points, hundred, ur, k, x, y)
    decreases |points|
  {
    k, x, y := 0, x0, y0;
    if points == [] {
      StopsHere(x0, y0, points, hundred, ur);
      return;
    }
    var p := points[0];
    if p.util == 0 {
      k, x, y := WalkStops(x0, y0, points[1..], hundred, ur);
      StopsLater(x0, y0, x0, y0, points, hundred, ur, k, x, y);
      k := k + 1;
      return;
    }
    KnotsFit(p.util);
    KnotsFit(p.rate);
    var px, py := UtilOf(p.util).value, RateOf(p.rate).value;
    if px <= x0 || ur <= px {
      StopsHere(x0, y0, points, hundred, ur);
    } else {
      k, x, y := WalkStops(px, py, points[1..], hundred, ur);
      StopsLater(x0, y0, px, py, points, hundred, ur, k, x, y);
      k := k + 1;
    }
  }

  /** Any configuration, rising or not: the walk passes the used points below the utilisation while
      they rise strictly. It ends at the first that does not, or at the first that is not below, or
      behind the last point; the segment that ends there decides, and is refused unless it rises. */
  lemma CurveStops(ur: U128, cfg: RateConfig) returns (k: nat, x: U128, y: U128)
    ensures RateOf(cfg.zeroUtilRate).Ok? && RateOf(cfg.hundredUtilRate).Ok?
    ensures k <= |cfg.points| && Passed(cfg.points, k, 0, Clamped(ur)) && Previous(cfg.points, k, 0, RateOf(cfg.zeroUtilRate).value, x, y)
    ensures StopsAt(SevenPoint(ur, cfg), cfg.points, RateOf(cfg.hundredUtilRate).value, Clamped(ur), k, x, y)
  {
    KnotsFit(cfg.zeroUtilRate);
    KnotsFit(cfg.hundredUtilRate);
    k, x, y := WalkStops(0, RateOf(cfg.zeroUtilRate).value, cfg.points, RateOf(cfg.hundredUtilRate).value, Clamped(ur));
  }

  // ---- the legacy curve ----

  function Legacy(ur: U128, cfg: RateConfig): Result<U128> {
    if cfg.optimalUtilization == 0 then Err(InvalidArgument)
    else if ur <= cfg.optimalUtilization then
      var proportion :- DivScale(ur, cfg.optimalUtilization);
      MulScale(proportion, cfg.plateauRate)
    else
      var denominator := SaturatingSub(SCALE, cfg.optimalUtilization);
      if denominator == 0 then Err(InvalidArgument)
      else
        var proportion :- DivScale(ur - cfg.optimalUtilization, denominator);
        var scaled :- MulScale(proportion, SaturatingSub(cfg.maxRate, cfg.plateauRate));
        Ok(SaturatingAdd(cfg.plateauRate, scaled))
  }

  /** Below the optimum the legacy curve never exceeds the plateau, above it never falls below;
      it is monotone wherever it returns a rate, even when the maximum is below the plateau. */
  lemma LegacyIsMonotone(ur: U128, vr: U128, cfg: RateConfig)
    requires ur <= vr && Legacy(ur, cfg).Ok? && Legacy(vr, cfg).Ok?
    ensures Legacy(ur, cfg).value <= Legacy(vr, cfg).value
    ensures ur <= cfg.optimalUtilization ==> Legacy(ur, cfg).value <= cfg.plateauRate
    ensures vr >= cfg.optimalUtilization ==> Legacy(vr, cfg).value >= cfg.plateauRate
  {
    var opt, plateau := cfg.optimalUtilization, cfg.plateauRate;
    if ur <= opt {
      var p := ur * SCALE / opt;
      MulMonotone(ur, opt, SCALE);
      DivMonotone(ur * SCALE, opt * SCALE, opt);
      assert opt * SCALE == SCALE * opt;
      DivExact(SCALE, opt);
      MulMonotone(p, SCALE, plateau);
      DivMonotone(p * plateau, SCALE * plateau, SCALE);
      DivExact(plateau, SCALE);
      assert SCALE * plateau == plateau * SCALE;
      if vr <= opt {
        var q := vr * SCALE / opt;
        DivMonotone(ur * SCALE, vr * SCALE, opt);
        MulMonotone(p, q, plateau);
        DivMonotone(p * plateau, q * plateau, SCALE);
      }
    } else {
      var d, spread := SaturatingSub(SCALE, opt), SaturatingSub(cfg.maxRate, plateau);
      var p, q := (ur - opt) * SCALE / d, (vr - opt) * SCALE / d;
      DivMonotone((ur - opt) * SCALE, (vr - opt) * SCALE, d);
      MulMonotone(p, q, spread);
      DivMonotone(p * spread, q * spread, SCALE);
    }
  }

  lemma LegacyIsLerp(ur: U128, cfg: RateConfig)
    requires 0 < cfg.optimalUtilization && ur <= cfg.optimalUtilization
    ensures Legacy(ur, cfg) == Lerp(0, 0, cfg.optimalUtilization, cfg.plateauRate, ur)
  {
    var p := DivScale(ur, cfg.optimalUtilization);
    if p.Ok? {
      assert p.value * cfg.plateauRate == cfg.plateauRate * p.value;
    }
  }

  /** Up to the optimum the legacy curve is the line from zero to the plateau. */
  lemma LegacyBelow(ur: U128, cfg: RateConfig)
    requires 0 < cfg.optimalUtilization && ur <= cfg.optimalUtilization
    ensures
      var r := Legacy(ur, cfg);
      && r.Ok? && OnLine(r.value, 0, cfg.plateauRate, ur, cfg.optimalUtilization)
      && (ur == 0 ==> r.value == 0) && (ur == cfg.optimalUtilization ==> r.value == cfg.plateauRate)
  {
    LegacyIsLerp(ur, cfg);
    LerpAccuracy(0, 0, cfg.optimalUtilization, cfg.plateauRate, ur);
  }

  /** The rise above the plateau; none when the maximum is below it. */
  ghost function Spread(cfg: RateConfig): nat {
    if cfg.maxRate > cfg.plateauRate then cfg.maxRate - cfg.plateauRate else 0
  }

  lemma LegacyParts(ur: U128, cfg: RateConfig)
    requires 0 < cfg.optimalUtilization < ur && cfg.optimalUtilization < SCALE
    ensures
      var p := (ur - cfg.optimalUtilization) * SCALE / (SCALE - cfg.optimalUtilization);
      var s := Product(p, Spread(cfg)) / SCALE;
      Legacy(ur, cfg) == if p > U128_MAX || s > U128_MAX then Err(MathOverflow) else Ok(SaturatingAdd(cfg.plateauRate, s))
  {
  }

  /** Beyond the optimum it is the line from the plateau towards the maximum at full utilisation,
      cut off at the largest value. */
  lemma LegacyAbove(ur: U128, cfg: RateConfig)
    requires 0 < cfg.optimalUtilization < ur && cfg.optimalUtilization < SCALE
    ensures
      var r, off, run := Legacy(ur, cfg), ur - cfg.optimalUtilization, SCALE - cfg.optimalUtilization;
      && (r.Ok? ==> cfg.plateauRate <= r.value && (r.value - cfg.plateauRate) * run <= Spread(cfg) * off)
      && (r.Ok? && r.value < U128_MAX ==> OnLine(r.value, cfg.plateauRate, Spread(cfg), off, run))
  {
    var off, run := ur - cfg.optimalUtilization, SCALE - cfg.optimalUtilization;
    LegacyParts(ur, cfg);
    DivBounds(off * SCALE, run);
    var p := off * SCALE / run;
    var s := Product(p, Spread(cfg)) / SCALE;
    DivBounds(Product(p, Spread(cfg)), SCALE);
    LineBounds(off, run, Spread(cfg), p, s);
    if Legacy(ur, cfg).Ok? {
      MulMonotone(Legacy(ur, cfg).value - cfg.plateauRate, s, run);
    }
  }

  /** Beyond the optimum it fails only where one of the two products does not fit, never up to full
      utilisation, where it meets the maximum, or the plateau if that is larger. */
  lemma LegacyFits(ur: U128, cfg: RateConfig)
    requires 0 < cfg.optimalUtilization < ur && cfg.optimalUtilization < SCALE
    ensures
      var p := (ur - cfg.optimalUtilization) * SCALE / (SCALE - cfg.optimalUtilization);
      && (Legacy(ur, cfg).Ok? <==> p <= U128_MAX && p * Spread(cfg) < (U128_MAX + 1) * SCALE)
      && (Legacy(ur, cfg).Err? ==> Legacy(ur, cfg) == Err(MathOverflow))
      && (ur <= SCALE ==> Legacy(ur, cfg).Ok?)
      && (ur == SCALE ==> Legacy(ur, cfg) == Ok(if cfg.maxRate > cfg.plateauRate then cfg.maxRate else cfg.plateauRate))
  {
    var p := (ur - cfg.optimalUtilization) * SCALE / (SCALE - cfg.optimalUtilization);
    LegacyParts(ur, cfg);
    DivAtLeast(Product(p, Spread(cfg)), SCALE, U128_MAX + 1);
    if ur <= SCALE {
      LerpParts(cfg.optimalUtilization, 0, SCALE, Spread(cfg), ur);
    }
    if ur == SCALE {
      DivExact(SCALE, SCALE - cfg.optimalUtilization);
      DivExact(Spread(cfg), SCALE);
    }
  }

  /** Degenerate configurations are the only ones refused as such. */
  lemma LegacyRefuses(ur: U128, cfg: RateConfig)
    ensures Legacy(ur, cfg) == Err(InvalidArgument) <==>
            cfg.optimalUtilization == 0 || (ur > cfg.optimalUtilization && cfg.optimalUtilization >= SCALE)
  {
    if 0 < cfg.optimalUtilization < SCALE {
      if ur <= cfg.optimalUtilization {
        LegacyBelow(ur, cfg);
      } else {
        LegacyParts(ur, cfg);
      }
    } else if 0 < cfg.optimalUtilization && ur <= cfg.optimalUtilization {
      LegacyBelow(ur, cfg);
    }
  }

  // ---- the split and the accrual ----

  datatype Rates = Rates(lending: U128, borrowing: U128)

  function BaseRate(utilization: U128, cfg: RateConfig): Result<U128> {
    if cfg.curveType == CURVE_LEGACY then Legacy(utilization, cfg)
    else if cfg.curveType == CURVE_SEVEN_POINT then SevenPoint(utilization, cfg)
    else Err(InvalidIntegrationAccount)
  }

  function InterestRates(utilization: U128, cfg: RateConfig, fees: ProgramFees): Result<Rates> {
    var programRate := if fees.enabled then fees.feeRate else 0;
    var programFixed := if fees.enabled then fees.feeFixed else 0;
    var feeIr := SaturatingAdd(SaturatingAdd(cfg.insuranceIrFee, cfg.protocolIrFee), programRate);
    var feeFixed := SaturatingAdd(SaturatingAdd(cfg.insuranceFeeFixedApr, cfg.protocolFixedFeeApr), programFixed);
    var base :- BaseRate(utilization, cfg);
    var lending :- MulScale(base, utilization);
    var gross :- MulScale(base, SaturatingAdd(SCALE, feeIr));
    Ok(Rates(lending, SaturatingAdd(gross, feeFixed)))
  }

  function Accrued(apr: U128, dt: U128, shareValue: U128): Result<U128> {
    if dt == 0 || apr == 0 || shareValue == 0 then Ok(shareValue)
    else
      var periodRate :- MulDiv(apr, dt, SECONDS_PER_YEAR, false);
      var accrued :- MulScale(shareValue, periodRate);
      Ok(SaturatingAdd(shareValue, accrued))
  }

  /** Seconds since the last accrual; the source takes both times as 64-bit integers. */
  function Elapsed(bank: Bank, now: int): nat {
    if now < bank.lastUpdate then 0 else now - bank.lastUpdate
  }

  function ProjectedLiabilityShareValue(bank: Bank, fees: ProgramFees, now: int): Result<U128>
    requires Elapsed(bank, now) <= I64_MAX
  {
    var dt := Elapsed(bank, now);
    if dt == 0 then Ok(bank.liabilityShareValue)
    else
      var assets :- MulScale(bank.assetShares, bank.assetShareValue);
      var liabilities :- MulScale(bank.liabilityShares, bank.liabilityShareValue);
      if assets == 0 || liabilities == 0 then Ok(bank.liabilityShareValue)
      else
        var utilization :- DivScale(liabilities, assets);
        var rates :- InterestRates(utilization, bank.config, fees);
        Accrued(rates.borrowing, dt, bank.liabilityShareValue)
  }

  function ProjectedAssetShareValue(bank: Bank, fees: ProgramFees, now: int): Result<U128>
    requires Elapsed(bank, now) <= I64_MAX
  {
    var dt := Elapsed(bank, now);
    if dt == 0 then Ok(bank.assetShareValue)
    else
      var assets :- MulScale(bank.assetShares, bank.assetShareValue);
      var liabilities :- MulScale(bank.liabilityShares, bank.liabilityShareValue);
      if assets == 0 || liabilities == 0 then Ok(bank.assetShareValue)
      else
        var utilization :- DivScale(liabilities, assets);
        var rates :- InterestRates(utilization, bank.config, fees);
        Accrued(rates.lending, dt, bank.assetShareValue)
  }

  /** Interest is due: time has passed and there are both assets and liabilities. */
  ghost predicate Accrues(bank: Bank, now: int) {
    var assets, liabilities := MulScale(bank.assetShares, bank.assetShareValue), MulScale(bank.liabilityShares, bank.liabilityShareValue);
    Elapsed(bank, now) > 0 && assets.Ok? && liabilities.Ok? && assets.value > 0 && liabilities.value > 0
  }

  /** The rates at the utilisation of the bank. */
  ghost function CurrentRates(bank: Bank, fees: ProgramFees, now: int): Result<Rates>
    requires Accrues(bank, now)
  {
    var utilization :- DivScale(MulScale(bank.liabilityShares, bank.liabilityShareValue).value,
                                MulScale(bank.assetShares, bank.assetShareValue).value);
    InterestRates(utilization, bank.config, fees)
  }

  /** Borrowers pay at least the base rate, saturation included. */
  lemma BorrowersPayBase(utilization: U128, cfg: RateConfig, fees: ProgramFees)
    ensures InterestRates(utilization, cfg, fees).Ok? ==> BaseRate(utilization, cfg).Ok?
    ensures InterestRates(utilization, cfg, fees).Ok? ==>
              var r, base := InterestRates(utilization, cfg, fees).value, BaseRate(utilization, cfg).value;
              r.borrowing >= base && r.lending * SCALE <= base * utilization
  {
    if InterestRates(utilization, cfg, fees).Err? {
      return;
    }
    var base := BaseRate(utilization, cfg).value;
    var feeIr := SaturatingAdd(SaturatingAdd(cfg.insuranceIrFee, cfg.protocolIrFee), if fees.enabled then fees.feeRate else 0);
    var factor := SaturatingAdd(SCALE, feeIr);
    assert factor >= SCALE;
    MulScaleBounds(base, utilization);
    MulMonotone(SCALE, factor, base);
    DivMonotone(base * SCALE, base * factor, SCALE);
    DivExact(base, SCALE);
  }

  function Capped(n: nat): U128 {
    if n > U128_MAX then U128_MAX else n
  }

  ghost function RelativeFees(cfg: RateConfig, fees: ProgramFees): nat {
    cfg.insuranceIrFee + cfg.protocolIrFee + if fees.enabled then fees.feeRate else 0
  }

  ghost function FixedFees(cfg: RateConfig, fees: ProgramFees): nat {
    cfg.insuranceFeeFixedApr + cfg.protocolFixedFeeApr + if fees.enabled then fees.feeFixed else 0
  }

  /** The rates that follow from a base rate, saturated sums included. */
  ghost predicate Split(r: Rates, base: U128, utilization: U128, cfg: RateConfig, fees: ProgramFees) {
    var relative, fixed := RelativeFees(cfg, fees), FixedFees(cfg, fees);
    && r.lending * SCALE <= base * utilization < r.lending * SCALE + SCALE
    && r.borrowing == Capped(Product(base, Capped(SCALE + relative)) / SCALE + fixed)
    && (SCALE + relative <= U128_MAX && r.borrowing < U128_MAX ==>
          r.borrowing >= fixed && (r.borrowing - fixed) * SCALE <= base * (SCALE + relative) < (r.borrowing - fixed) * SCALE + SCALE)
  }

  /** Both products of a base rate fit. */
  ghost predicate SplitFits(base: U128, utilization: U128, cfg: RateConfig, fees: ProgramFees) {
    base * utilization < (U128_MAX + 1) * SCALE && base * Capped(SCALE + RelativeFees(cfg, fees)) < (U128_MAX + 1) * SCALE
  }

  /** What the rates are when the curve gives `curve`. */
  ghost predicate RatesFrom(curve: Result<U128>, r: Result<Rates>, utilization: U128, cfg: RateConfig, fees: ProgramFees) {
    match curve
    case Err(e) => r == Err(e)
    case Ok(base) =>
      if SplitFits(base, utilization, cfg, fees) then r.Ok? && Split(r.value, base, utilization, cfg, fees)
      else r == Err(MathOverflow)
  }

  /** Each curve type takes its own curve, and an unknown type is refused. Away from saturation both
      rates are the exact products rounded down by less than one unit: base times utilisation for
      lenders, base times one plus the relative fees, plus the fixed fees, for borrowers. */
  lemma RatesAreExact(utilization: U128, cfg: RateConfig, fees: ProgramFees)
    ensures cfg.curveType == CURVE_LEGACY ==> RatesFrom(Legacy(utilization, cfg), InterestRates(utilization, cfg, fees), utilization, cfg, fees)
    ensures cfg.curveType == CURVE_SEVEN_POINT ==>
              RatesFrom(SevenPoint(utilization, cfg), InterestRates(utilization, cfg, fees), utilization, cfg, fees)
    ensures cfg.curveType != CURVE_LEGACY && cfg.curveType != CURVE_SEVEN_POINT ==>
              InterestRates(utilization, cfg, fees) == Err(InvalidIntegrationAccount)
  {
    if BaseRate(utilization, cfg).Ok? {
      var base, factor := BaseRate(utilization, cfg).value, Capped(SCALE + RelativeFees(cfg, fees));
      MulScaleBounds(base, utilization);
      MulScaleBounds(base, factor);
      DivBounds(Product(base, factor), SCALE);
    }
  }

  /** On the legacy curve both rates follow from a base rate on one of its two lines. */
  lemma LegacyRates(utilization: U128, cfg: RateConfig, fees: ProgramFees) returns (base: U128)
    requires cfg.curveType == CURVE_LEGACY && Legacy(utilization, cfg).Ok?
    ensures
      var opt, plateau := cfg.optimalUtilization, cfg.plateauRate;
      if utilization <= opt then OnLine(base, 0, plateau, utilization, opt)
      else base >= plateau && (base < U128_MAX ==> OnLine(base, plateau, Spread(cfg), utilization - opt, SCALE - opt))
    ensures RatesFrom(Ok(base), InterestRates(utilization, cfg, fees), utilization, cfg, fees)
  {
    RatesAreExact(utilization, cfg, fees);
    if utilization <= cfg.optimalUtilization {
      LegacyBelow(utilization, cfg);
    } else {
      LegacyAbove(utilization, cfg);
    }
    base := Legacy(utilization, cfg).value;
  }

  /** On a rising seven-point configuration both rates follow from a base rate on the line between
      the two knots next to the utilisation. */
  lemma SevenPointRates(utilization: U128, cfg: RateConfig, fees: ProgramFees)
    returns (startX: U128, startY: U128, endX: U128, endY: U128, base: U128)
    requires cfg.curveType == CURVE_SEVEN_POINT && RisingConfig(cfg)
    ensures endX <= SCALE && OnSegment(startX, startY, endX, endY, Clamped(utilization)) && NoneBetween(cfg.points, startX, endX)
    ensures || (startX == 0 && RateOf(cfg.zeroUtilRate) == Ok(startY))
            || exists p <- cfg.points :: p.util != 0 && Knot(p.util, p.rate, startX, startY)
    ensures || (endX == SCALE && RateOf(cfg.hundredUtilRate) == Ok(endY) && UpTo(cfg.points, startX))
            || exists p <- cfg.points :: p.util != 0 && Knot(p.util, p.rate, endX, endY)
    ensures startY <= base <= endY && OnLine(base, startY, endY - startY, Clamped(utilization) - startX, endX - startX)
    ensures RatesFrom(Ok(base), InterestRates(utilization, cfg, fees), utilization, cfg, fees)
  {
    RatesAreExact(utilization, cfg, fees);
    startX, startY, endX, endY := CurveAccuracy(utilization, cfg);
    base := SevenPoint(utilization, cfg).value;
  }

  /** Time only ever adds interest. */
  lemma AccruedMonotone(apr: U128, dt: U128, later: U128, shareValue: U128)
    requires dt <= later
    ensures Accrued(apr, dt, shareValue).Ok? && Accrued(apr, later, shareValue).Ok? ==>
              shareValue <= Accrued(apr, dt, shareValue).value <= Accrued(apr, later, shareValue).value
  {
    MulMonotone(dt, later, apr);
    DivMonotone(apr * dt, apr * later, SECONDS_PER_YEAR);
    var p, q := apr * dt / SECONDS_PER_YEAR, apr * later / SECONDS_PER_YEAR;
    MulMonotone(p, q, shareValue);
    DivMonotone(shareValue * p, shareValue * q, SCALE);
  }

  /** Both projections of one bank state never fall as time passes. */
  lemma ProjectionsMonotone(bank: Bank, fees: ProgramFees, now: int, later: int)
    requires now <= later && Elapsed(bank, later) <= I64_MAX
    ensures ProjectedLiabilityShareValue(bank, fees, now).Ok? && ProjectedLiabilityShareValue(bank, fees, later).Ok? ==>
              bank.liabilityShareValue <= ProjectedLiabilityShareValue(bank, fees, now).value <= ProjectedLiabilityShareValue(bank, fees, later).value
    ensures ProjectedAssetShareValue(bank, fees, now).Ok? && ProjectedAssetShareValue(bank, fees, later).Ok? ==>
              bank.assetShareValue <= ProjectedAssetShareValue(bank, fees, now).value <= ProjectedAssetShareValue(bank, fees, later).value
  {
    if Accrues(bank, later) {
      var rates := CurrentRates(bank, fees, later);
      if rates.Ok? {
        AccruedMonotone(rates.value.borrowing, Elapsed(bank, now), Elapsed(bank, later), bank.liabilityShareValue);
        AccruedMonotone(rates.value.lending, Elapsed(bank, now), Elapsed(bank, later), bank.assetShareValue);
      }
    }
  }

  /** What a share value grows by in a period, before it is cut off at its width. */
  function Growth(apr: nat, dt: nat, shareValue: nat): nat {
    shareValue * (apr * dt / SECONDS_PER_YEAR) / SCALE
  }

  lemma GrowthBounds(apr: nat, dt: nat, shareValue: nat)
    ensures
      var rate, growth := apr * dt / SECONDS_PER_YEAR, Growth(apr, dt, shareValue);
      growth * SCALE <= shareValue * rate < growth * SCALE + SCALE
  {
    DivBounds(shareValue * (apr * dt / SECONDS_PER_YEAR), SCALE);
  }

  /** Both products of an accrual fit, or nothing accrues. */
  ghost predicate GrowthFits(apr: U128, dt: nat, stored: U128) {
    || dt == 0 || apr == 0 || stored == 0
    || (apr * dt < (U128_MAX + 1) * SECONDS_PER_YEAR && stored * (apr * dt / SECONDS_PER_YEAR) < (U128_MAX + 1) * SCALE)
  }

  /** `r` is a share value after `dt` seconds at a yearly rate, stopped at the largest value. */
  ghost predicate Grown(r: Result<U128>, stored: U128, apr: U128, dt: nat) {
    r == if GrowthFits(apr, dt, stored) then Ok(Capped(stored + Growth(apr, dt, stored))) else Err(MathOverflow)
  }

  /** The accrued share value, as if there were no special cases: it grows by the floored share of
      the floored period rate, and stops at the largest value. */
  lemma AccruedBounds(apr: U128, dt: U128, shareValue: U128)
    ensures Grown(Accrued(apr, dt, shareValue), shareValue, apr, dt)
    ensures
      var rate, growth := apr * dt / SECONDS_PER_YEAR, Growth(apr, dt, shareValue);
      growth * SCALE <= shareValue * rate < growth * SCALE + SCALE
  {
    GrowthBounds(apr, dt, shareValue);
    if dt == 0 || apr == 0 || shareValue == 0 {
      NoGrowth(apr, dt, shareValue);
    } else {
      MulDivBounds(apr, dt, SECONDS_PER_YEAR, false);
      if apr * dt / SECONDS_PER_YEAR <= U128_MAX {
        MulScaleBounds(shareValue, apr * dt / SECONDS_PER_YEAR);
      }
    }
  }

  lemma NoGrowth(apr: nat, dt: nat, stored: nat)
    requires dt == 0 || apr == 0 || stored == 0
    ensures Growth(apr, dt, stored) == 0
  {
    assert apr * dt == 0 || stored == 0;
    assert stored * (apr * dt / SECONDS_PER_YEAR) == 0;
  }

  /** The part of the growth of the liability share value that does not fit its width. */
  ghost function CutOff(bank: Bank, fees: ProgramFees, now: int): nat
    requires Accrues(bank, now) && CurrentRates(bank, fees, now).Ok?
  {
    SaturatingSub(bank.liabilityShareValue
                  + Growth(CurrentRates(bank, fees, now).value.borrowing, Elapsed(bank, now), bank.liabilityShareValue), U128_MAX)
  }

  /** The floored totals of a bank, its utilisation and its base rate. */
  lemma BankTotals(bank: Bank, fees: ProgramFees, now: int) returns (assets: nat, liabilities: nat, u: nat, base: nat)
    requires Accrues(bank, now) && CurrentRates(bank, fees, now).Ok?
    ensures assets > 0 && liabilities > 0 && liabilities == bank.liabilityShares * bank.liabilityShareValue / SCALE
    ensures assets * SCALE <= bank.assetShares * bank.assetShareValue < assets * SCALE + SCALE
    ensures liabilities * SCALE <= bank.liabilityShares * bank.liabilityShareValue
    ensures u * assets <= liabilities * SCALE
    ensures CurrentRates(bank, fees, now).value.lending * SCALE <= base * u && base <= CurrentRates(bank, fees, now).value.borrowing
  {
    assets := MulScale(bank.assetShares, bank.assetShareValue).value;
    liabilities := MulScale(bank.liabilityShares, bank.liabilityShareValue).value;
    u := DivScale(liabilities, assets).value;
    base := BaseRate(u, bank.config).value;
    BorrowersPayBase(u, bank.config, fees);
    MulScaleBounds(bank.assetShares, bank.assetShareValue);
    MulScaleBounds(bank.liabilityShares, bank.liabilityShareValue);
    DivScaleBounds(liabilities, assets);
  }

  /** Both projections of a bank in plain numbers. Nothing changes until the clock passes the last
      update, or while a floored total is zero. Totals or a utilisation that do not fit are refused,
      and so is whatever the rates refuse; otherwise lenders grow at the lending rate, borrowers at
      the borrowing rate, for the seconds in between. */
  lemma ProjectionsExact(bank: Bank, fees: ProgramFees, now: int)
    requires now - bank.lastUpdate <= I64_MAX
    ensures
      var asset, liability := ProjectedAssetShareValue(bank, fees, now), ProjectedLiabilityShareValue(bank, fees, now);
      var assets, liabilities := bank.assetShares * bank.assetShareValue, bank.liabilityShares * bank.liabilityShareValue;
      if now <= bank.lastUpdate then
        asset == Ok(bank.assetShareValue) && liability == Ok(bank.liabilityShareValue)
      else if assets >= (U128_MAX + 1) * SCALE || liabilities >= (U128_MAX + 1) * SCALE then
        asset == liability == Err(MathOverflow)
      else if assets < SCALE || liabilities < SCALE then
        asset == Ok(bank.assetShareValue) && liability == Ok(bank.liabilityShareValue)
      else
        && assets / SCALE > 0
        && var u := Quotient(liabilities / SCALE * SCALE, assets / SCALE);
           if u > U128_MAX then asset == liability == Err(MathOverflow)
           else
             match InterestRates(u, bank.config, fees)
             case Err(e) => asset == liability == Err(e)
             case Ok(rates) =>
               && Grown(asset, bank.assetShareValue, rates.lending, now - bank.lastUpdate)
               && Grown(liability, bank.liabilityShareValue, rates.borrowing, now - bank.lastUpdate)
  {
    if now > bank.lastUpdate {
      MulScaleBounds(bank.assetShares, bank.assetShareValue);
      MulScaleBounds(bank.liabilityShares, bank.liabilityShareValue);
      DivAtLeast(bank.assetShares * bank.assetShareValue, SCALE, 1);
      DivAtLeast(bank.liabilityShares * bank.liabilityShareValue, SCALE, 1);
      if Accrues(bank, now) && CurrentRates(bank, fees, now).Ok? {
        var rates := CurrentRates(bank, fees, now).value;
        AccruedBounds(rates.lending, now - bank.lastUpdate, bank.assetShareValue);
        AccruedBounds(rates.borrowing, now - bank.lastUpdate, bank.liabilityShareValue);
      }
    }
  }

  /** Growth that is not cut off, on the bank state alone. */
  lemma GrowthIsConserved(bank: Bank, fees: ProgramFees, now: int)
    requires Accrues(bank, now)
    ensures CurrentRates(bank, fees, now).Ok? ==>
              var rates, dt := CurrentRates(bank, fees, now).value, Elapsed(bank, now);
              bank.assetShares * Growth(rates.lending, dt, bank.assetShareValue)
              - bank.liabilityShares * Growth(rates.borrowing, dt, bank.liabilityShareValue)
              < rates.lending * dt / SECONDS_PER_YEAR + bank.liabilityShares * bank.liabilityShareValue / SCALE + bank.liabilityShares
  {
    if CurrentRates(bank, fees, now).Ok? {
      var dt, rates := Elapsed(bank, now), CurrentRates(bank, fees, now).value;
      var assets, liabilities, u, base := BankTotals(bank, fees, now);
      Conservation(bank.assetShares, bank.assetShareValue, bank.liabilityShares, bank.liabilityShareValue,
                   assets, liabilities, u, base, rates.lending, rates.borrowing, dt);
    }
  }

  /** What both projections come to when interest is due. */
  lemma ProjectedGrowth(bank: Bank, fees: ProgramFees, now: int)
    requires Elapsed(bank, now) <= I64_MAX && Accrues(bank, now)
    requires ProjectedAssetShareValue(bank, fees, now).Ok? && ProjectedLiabilityShareValue(bank, fees, now).Ok?
    ensures CurrentRates(bank, fees, now).Ok?
    ensures
      var rates, dt := CurrentRates(bank, fees, now).value, Elapsed(bank, now);
      && bank.assetShareValue <= ProjectedAssetShareValue(bank, fees, now).value
         <= bank.assetShareValue + Growth(rates.lending, dt, bank.assetShareValue)
      && ProjectedLiabilityShareValue(bank, fees, now).value + CutOff(bank, fees, now)
         == bank.liabilityShareValue + Growth(rates.borrowing, dt, bank.liabilityShareValue)
      && ProjectedLiabilityShareValue(bank, fees, now).value >= bank.liabilityShareValue
  {
    var rates := CurrentRates(bank, fees, now).value;
    AccruedBounds(rates.lending, Elapsed(bank, now), bank.assetShareValue);
    AccruedBounds(rates.borrowing, Elapsed(bank, now), bank.liabilityShareValue);
  }

  lemma WithCutOff(a: nat, grownA: nat, growthA: nat, l: nat, grownL: nat, cutOff: nat, bound: nat)
    requires grownA <= growthA && a * growthA - l * (grownL + cutOff) < bound
    ensures a * grownA - l * grownL < bound + l * cutOff
  {
    MulMonotone(grownA, growthA, a);
    MulAdd(grownL, cutOff, l);
  }

  /** The interest that lenders are credited never exceeds what borrowers are charged, except for
      rounding and for what is cut off: by less than the floored lending rate of the period, the
      total liabilities and the liability shares together, plus the liability shares times the
      growth that does not fit, in raw units of shares times share value. */
  lemma InterestIsConserved(bank: Bank, fees: ProgramFees, now: int)
    requires Elapsed(bank, now) <= I64_MAX
    requires ProjectedAssetShareValue(bank, fees, now).Ok? && ProjectedLiabilityShareValue(bank, fees, now).Ok?
    ensures
      var grownA := ProjectedAssetShareValue(bank, fees, now).value - bank.assetShareValue;
      var grownL := ProjectedLiabilityShareValue(bank, fees, now).value - bank.liabilityShareValue;
      && grownA >= 0 && grownL >= 0
      && (!Accrues(bank, now) ==> grownA == 0 && grownL == 0)
      && (Accrues(bank, now) ==>
            && CurrentRates(bank, fees, now).Ok?
            && bank.assetShares * grownA - bank.liabilityShares * grownL
               < CurrentRates(bank, fees, now).value.lending * Elapsed(bank, now) / SECONDS_PER_YEAR
                 + bank.liabilityShares * bank.liabilityShareValue / SCALE + bank.liabilityShares
                 + bank.liabilityShares * CutOff(bank, fees, now))
  {
    if Accrues(bank, now) {
      ProjectedGrowth(bank, fees, now);
      GrowthIsConserved(bank, fees, now);
      var rates, dt := CurrentRates(bank, fees, now).value, Elapsed(bank, now);
      WithCutOff(bank.assetShares, ProjectedAssetShareValue(bank, fees, now).value - bank.assetShareValue,
                 Growth(rates.lending, dt, bank.assetShareValue),
                 bank.liabilityShares, ProjectedLiabilityShareValue(bank, fees, now).value - bank.liabilityShareValue, CutOff(bank, fees, now),
                 rates.lending * dt / SECONDS_PER_YEAR + bank.liabilityShares * bank.liabilityShareValue / SCALE + bank.liabilityShares);
    }
  }

  /** The term for what is cut off is needed: with a saturated liability share value lenders can be
      credited what borrowers are not charged, here in one year at a rate of one over a fully used
      bank. */
  lemma SaturationBreaksConservation(bank: Bank, fees: ProgramFees)
    requires bank.lastUpdate == 0 && bank.config.curveType == CURVE_LEGACY && !fees.enabled
    requires bank.assetShares == U128_MAX && bank.assetShareValue == SCALE
    requires bank.liabilityShares == SCALE && bank.liabilityShareValue == U128_MAX
    requires bank.config.optimalUtilization == bank.config.plateauRate == SCALE
    requires bank.config.insuranceIrFee == bank.config.protocolIrFee == 0
    requires bank.config.insuranceFeeFixedApr == bank.config.protocolFixedFeeApr == 0
    ensures
      var now := SECONDS_PER_YEAR;
      && ProjectedAssetShareValue(bank, fees, now) == Ok(2 * SCALE)
      && ProjectedLiabilityShareValue(bank, fees, now) == Ok(U128_MAX)
      && CurrentRates(bank, fees, now) == Ok(Rates(SCALE, SCALE))
      && bank.assetShares * (2 * SCALE - bank.assetShareValue) - bank.liabilityShares * (U128_MAX - bank.liabilityShareValue)
         > SCALE * Elapsed(bank, now) / SECONDS_PER_YEAR + bank.liabilityShares * bank.liabilityShareValue / SCALE + bank.liabilityShares
  {
    var now := SECONDS_PER_YEAR;
    MulScaleOne(U128_MAX);
    MulScaleOne(SCALE);
    assert MulScale(SCALE, U128_MAX) == Ok(U128_MAX);
    assert DivScale(U128_MAX, U128_MAX) == Ok(SCALE);
    assert Legacy(SCALE, bank.config) == Ok(SCALE);
    assert InterestRates(SCALE, bank.config, fees) == Ok(Rates(SCALE, SCALE));
    assert MulDiv(SCALE, now, SECONDS_PER_YEAR, false) == Ok(SCALE);
    assert Accrued(SCALE, now, SCALE) == Ok(2 * SCALE);
    assert Accrued(SCALE, now, U128_MAX) == Ok(U128_MAX);
  }

  /** The inequality in plain numbers. Capital letters are share counts and their values, `ta`
      and `tl` the floored totals, `pa` and `pb` the floored rates of the period. */
  lemma Conservation(a: nat, asv: nat, l: nat, lsv: nat, ta: nat, tl: nat, u: nat, base: nat, lending: nat, borrowing: nat, dt: nat)
    requires ta * SCALE <= a * asv < ta * SCALE + SCALE && tl * SCALE <= l * lsv && ta > 0 && tl > 0
    requires u * ta <= tl * SCALE
    requires lending * SCALE <= base * u && base <= borrowing
    ensures a * Growth(lending, dt, asv) - l * Growth(borrowing, dt, lsv) < lending * dt / SECONDS_PER_YEAR + tl + l
  {
    var pa, pb := lending * dt / SECONDS_PER_YEAR, borrowing * dt / SECONDS_PER_YEAR;
    GrowthBounds(lending, dt, asv);
    GrowthBounds(borrowing, dt, lsv);
    Credited(a, asv, ta, pa, Growth(lending, dt, asv));
    Charged(l, lsv, tl, pb, Growth(borrowing, dt, lsv));
    RatesMatch(ta, tl, u, base, lending, borrowing, dt, pa, pb);
  }

  lemma Credited(a: nat, asv: nat, ta: nat, pa: nat, grown: nat)
    requires a * asv < ta * SCALE + SCALE && grown * SCALE <= asv * pa
    ensures a * grown <= ta * pa + pa
  {
    MulMonotone(grown * SCALE, asv * pa, a);
    assert a * (grown * SCALE) == a * grown * SCALE;
    assert a * (asv * pa) == a * asv * pa;
    MulMonotone(a * asv, ta * SCALE + SCALE, pa);
    assert (ta * SCALE + SCALE) * pa == (ta * pa + pa) * SCALE;
  }

  lemma Charged(l: nat, lsv: nat, tl: nat, pb: nat, grown: nat)
    requires tl * SCALE <= l * lsv && lsv * pb < grown * SCALE + SCALE
    ensures tl * pb <= l * grown + l
  {
    MulMonotone(lsv * pb, grown * SCALE + SCALE, l);
    assert l * (lsv * pb) == l * lsv * pb;
    assert l * (grown * SCALE + SCALE) == (l * grown + l) * SCALE;
    MulMonotone(tl * SCALE, l * lsv, pb);
    assert tl * SCALE * pb == tl * pb * SCALE;
  }

  /** Lending out the liabilities at the base rate covers the lending rate on all assets. */
  lemma LendingCovered(ta: nat, tl: nat, u: nat, base: nat, lending: nat, borrowing: nat)
    requires u * ta <= tl * SCALE && lending * SCALE <= base * u && base <= borrowing
    ensures ta * lending <= tl * borrowing
  {
    MulMonotone(lending * SCALE, base * u, ta);
    MulMonotone(u * ta, tl * SCALE, base);
    assert base * u * ta == base * (u * ta);
    assert base * (tl * SCALE) == tl * base * SCALE;
    assert lending * SCALE * ta == ta * lending * SCALE;
    MulMonotone(base, borrowing, tl);
  }

  /** Flooring both rates to the period costs the borrowing side less than `tl`. */
  lemma PeriodCovered(ta: nat, tl: nat, lending: nat, borrowing: nat, pa: nat, pb: nat)
    requires tl > 0 && ta * lending <= tl * borrowing
    requires pa * SECONDS_PER_YEAR <= lending && borrowing < pb * SECONDS_PER_YEAR + SECONDS_PER_YEAR
    ensures ta * pa < tl * pb + tl
  {
    MulMonotone(pa * SECONDS_PER_YEAR, lending, ta);
    MulStrict(borrowing, pb * SECONDS_PER_YEAR + SECONDS_PER_YEAR, tl);
    assert ta * (pa * SECONDS_PER_YEAR) == ta * pa * SECONDS_PER_YEAR;
    assert tl * (pb * SECONDS_PER_YEAR + SECONDS_PER_YEAR) == (tl * pb + tl) * SECONDS_PER_YEAR;
  }

  /** Total credited at the lending rate stays below total charged at the borrowing rate. */
  lemma RatesMatch(ta: nat, tl: nat, u: nat, base: nat, lending: nat, borrowing: nat, dt: nat, pa: nat, pb: nat)
    requires tl > 0 && u * ta <= tl * SCALE && lending * SCALE <= base * u && base <= borrowing
    requires pa == lending * dt / SECONDS_PER_YEAR && pb == borrowing * dt / SECONDS_PER_YEAR
    ensures ta * pa < tl * pb + tl
  {
    DivBounds(lending * dt, SECONDS_PER_YEAR);
    DivBounds(borrowing * dt, SECONDS_PER_YEAR);
    LendingCovered(ta, tl, u, base, lending, borrowing);
    MulMonotone(ta * lending, tl * borrowing, dt);
    MulAssoc(ta, lending, dt);
    MulAssoc(tl, borrowing, dt);
    PeriodCovered(ta, tl, lending * dt, borrowing * dt, pa, pb);
  }
}
