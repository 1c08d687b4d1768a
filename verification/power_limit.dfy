/**
 * VirtualLedStripWithPowerLimit: a surface that keeps the colours asked for
 * in a buffer of its own and, on every flush, writes them to the backing
 * strip dimmed until a linear milliamp model is within the configured limit.
 *
 * The backing strip is modelled as a plain readable buffer (reading index i
 * gives what was last written to i), milliamp values as exact reals.
 */
module PowerLimit {
  import opened Color

  /** LedPowerConsumptionInfo: milliamps of one LED at rest, per full colour channel, for full white. */
  datatype PowerInfo = PowerInfo(base: real, colorMax: real, whiteMax: real)

  /** Coefficients a physical LED has: none negative. */
  predicate Physical(info: PowerInfo)
  {
    info.base >= 0.0 && info.colorMax >= 0.0 && info.whiteMax >= 0.0
  }

  /** calculateColorChannelPowerConsumption / calculateWhiteChannelPowerConsumption. */
  function ChannelPower(v: u8, max: real): real
  {
    (v as real) * (1.0 / 255.0) * max
  }

  /** calculatePowerConsumption: the milliamps one LED draws showing `c`. */
  function PixelPower(info: PowerInfo, c: RGBW): (p: real)
  {
    info.base + ChannelPower(c.r, info.colorMax) + ChannelPower(c.g, info.colorMax)
              + ChannelPower(c.b, info.colorMax) + ChannelPower(c.w, info.whiteMax)
  }

  /** The per-LED draw written out: rest current plus each channel's share of its full-scale draw. */
  lemma PixelPowerFormula(info: PowerInfo, c: RGBW)
    ensures PixelPower(info, c) == info.base + ((c.r + c.g + c.b) as real) * info.colorMax / 255.0
                                             + (c.w as real) * info.whiteMax / 255.0
  {
  }

  /** A channel that is no brighter draws no more. */
  lemma ChannelPowerMonotone(u: u8, v: u8, max: real)
    requires u <= v && max >= 0.0
    ensures ChannelPower(u, max) <= ChannelPower(v, max)
  {
    assert (v as real) * (1.0 / 255.0) - (u as real) * (1.0 / 255.0) == ((v - u) as real) * (1.0 / 255.0);
  }

  lemma PixelPowerMonotone(info: PowerInfo, c: RGBW, d: RGBW)
    requires Physical(info) && NoBrighter(c, d)
    ensures PixelPower(info, c) <= PixelPower(info, d)
  {
    ChannelPowerMonotone(c.r, d.r, info.colorMax);
    ChannelPowerMonotone(c.g, d.g, info.colorMax);
    ChannelPowerMonotone(c.b, d.b, info.colorMax);
    ChannelPowerMonotone(c.w, d.w, info.whiteMax);
  }

  /** A dark LED still draws its rest current. */
  lemma PixelPowerAtLeastBase(info: PowerInfo, c: RGBW)
    requires Physical(info)
    ensures PixelPower(info, c) >= info.base
  {
    PixelPowerMonotone(info, Off, c);
  }

  /** getCurrentPowerConsumption_mA: the summed draw of all LEDs, in index order. */
  function Consumption(info: PowerInfo, leds: seq<RGBW>): real
  {
    if |leds| == 0 then 0.0
    else Consumption(info, leds[..|leds| - 1]) + PixelPower(info, leds[|leds| - 1])
  }

  /** Every LED of `a` is no brighter than the LED at the same index of `b`. */
  predicate Dimmer(a: seq<RGBW>, b: seq<RGBW>)
  {
    |a| == |b| && forall k :: 0 <= k < |a| ==> NoBrighter(a[k], b[k])
  }

  /** Dimming never raises the consumption. */
  lemma {:induction false} ConsumptionMonotone(info: PowerInfo, a: seq<RGBW>, b: seq<RGBW>)
    requires Physical(info) && Dimmer(a, b)
    ensures Consumption(info, a) <= Consumption(info, b)
    decreases |a|
  {
    if |a| > 0 {
      var n := |a| - 1;
      ConsumptionMonotone(info, a[..n], b[..n]);
      PixelPowerMonotone(info, a[n], b[n]);
    }
  }

  /** The draw of n dark LEDs. */
  function RestCurrent(info: PowerInfo, n: nat): real
  {
    (n as real) * info.base
  }

  /** However dark, n LEDs draw at least n times the rest current. */
  lemma {:induction false} ConsumptionAtLeastBase(info: PowerInfo, leds: seq<RGBW>)
    requires Physical(info)
    ensures Consumption(info, leds) >= RestCurrent(info, |leds|)
    decreases |leds|
  {
    if |leds| > 0 {
      var n := |leds| - 1;
      ConsumptionAtLeastBase(info, leds[..n]);
      PixelPowerAtLeastBase(info, leds[n]);
    }
  }

  /** Dark LEDs draw exactly their rest current. */
  lemma {:induction false} ConsumptionOfDark(info: PowerInfo, n: nat)
    ensures Consumption(info, seq(n, _ => Off)) == RestCurrent(info, n)
  {
    if n > 0 {
      var leds := seq(n, _ => Off);
      assert leds[..n - 1] == seq(n - 1, _ => Off);
      ConsumptionOfDark(info, n - 1);
    }
  }

  // ---------------------------------------------------------------------------
  // The reduction pass

  /** The step below which an LED is left alone, and by which it is lowered. */
  const ReduceStep: nat := 10

  /** One LED in a reduction pass: lowered by 10 in total brightness when it has at least 10. */
  function ReduceLed(c: RGBW): (d: RGBW)
    ensures Brightness(c) >= ReduceStep ==> Brightness(d) <= Brightness(c) - ReduceStep
    ensures Brightness(c) < ReduceStep ==> d == c
    ensures NoBrighter(d, c) && Brightness(d) <= Brightness(c)
  {
    var b := Brightness(c);
    if b >= ReduceStep then
      WithTotalBrightnessNeverRaises(c, b - ReduceStep);
      WithTotalBrightness(c, b - ReduceStep)
    else c
  }

  /** The inner for-loop from counter i on: LEDs before i are already done. */
  function ReduceFrom(leds: seq<RGBW>, i: nat): (r: seq<RGBW>)
    requires i <= |leds|
    ensures |r| == |leds|
    ensures forall k :: 0 <= k < |leds| ==> r[k] == if k < i then leds[k] else ReduceLed(leds[k])
    decreases |leds| - i
  {
    if i == |leds| then leds
    else ReduceFrom(leds[i := ReduceLed(leds[i])], i + 1)
  }

  /** One pass of the reduction loop over the backing strip. */
  function ReducePass(leds: seq<RGBW>): (r: seq<RGBW>)
    ensures |r| == |leds| && forall k :: 0 <= k < |leds| ==> r[k] == ReduceLed(leds[k])
  {
    ReduceFrom(leds, 0)
  }

  /** Total brightness over all LEDs: the measure every pass lowers. */
  function TotalBrightness(leds: seq<RGBW>): nat
  {
    if |leds| == 0 then 0 else TotalBrightness(leds[..|leds| - 1]) + Brightness(leds[|leds| - 1])
  }

  /** Some LED is bright enough to be lowered. */
  predicate Reducible(leds: seq<RGBW>)
  {
    exists k :: 0 <= k < |leds| && Brightness(leds[k]) >= ReduceStep
  }

  /** A pass changes nothing exactly when no LED has brightness 10 or more. */
  lemma PassFixedIff(leds: seq<RGBW>)
    ensures ReducePass(leds) == leds <==> !Reducible(leds)
  {
    var r := ReducePass(leds);
    if Reducible(leds) {
      var k :| 0 <= k < |leds| && Brightness(leds[k]) >= ReduceStep;
      assert Brightness(r[k]) < Brightness(leds[k]);
    } else {
      assert forall k :: 0 <= k < |leds| ==> r[k] == leds[k];
    }
  }

  /** Brightness sums over LEDs that are pointwise no brighter, and once 10 lower, drop by 10. */
  lemma {:induction false} TotalBrightnessDrops(a: seq<RGBW>, b: seq<RGBW>, j: nat)
    requires |a| == |b| && j < |a|
    requires forall k :: 0 <= k < |a| ==> Brightness(a[k]) <= Brightness(b[k])
    requires Brightness(a[j]) + ReduceStep <= Brightness(b[j])
    ensures TotalBrightness(a) + ReduceStep <= TotalBrightness(b)
    decreases |a|
  {
    var n := |a| - 1;
    if j == n {
      TotalBrightnessBelow(a[..n], b[..n]);
    } else {
      TotalBrightnessDrops(a[..n], b[..n], j);
    }
  }

  lemma {:induction false} TotalBrightnessBelow(a: seq<RGBW>, b: seq<RGBW>)
    requires |a| == |b|
    requires forall k :: 0 <= k < |a| ==> Brightness(a[k]) <= Brightness(b[k])
    ensures TotalBrightness(a) <= TotalBrightness(b)
    decreases |a|
  {
    if |a| > 0 {
      TotalBrightnessBelow(a[..|a| - 1], b[..|b| - 1]);
    }
  }

  /** A pass over a strip with a reducible LED lowers the total brightness by at least 10. */
  lemma PassLowersTotal(leds: seq<RGBW>)
    requires Reducible(leds)
    ensures TotalBrightness(ReducePass(leds)) + ReduceStep <= TotalBrightness(leds)
  {
    var k :| 0 <= k < |leds| && Brightness(leds[k]) >= ReduceStep;
    var r := ReducePass(leds);
    forall j | 0 <= j < |leds|
      ensures Brightness(r[j]) <= Brightness(leds[j])
    {
      assert r[j] == ReduceLed(leds[j]);
    }
    assert r[k] == ReduceLed(leds[k]);
    TotalBrightnessDrops(r, leds, k);
  }

  /**
   * What the while-loop ends in: the limit met, or a state where a pass
   * changes nothing while the consumption is still above the limit, from
   * which the loop in the library never leaves.
   */
  datatype Outcome = Settled(leds: seq<RGBW>) | Stuck(leds: seq<RGBW>)

  /** Step 2 of updateLeds: reduction passes while the consumption exceeds the limit. */
  function Throttle(info: PowerInfo, limit: real, leds: seq<RGBW>): (o: Outcome)
    ensures Dimmer(o.leds, leds)
    ensures o.Settled? ==> Consumption(info, o.leds) <= limit
    ensures o.Stuck? ==> Consumption(info, o.leds) > limit && !Reducible(o.leds)
    ensures Consumption(info, leds) <= limit ==> o == Settled(leds)
    decreases TotalBrightness(leds)
  {
    if Consumption(info, leds) <= limit then Settled(leds)
    else if !Reducible(leds) then Stuck(leds)
    else
      var next := ReducePass(leds);
      PassLowersTotal(leds);
      PassDims(leds);
      var o := Throttle(info, limit, next);
      DimmerTrans(o.leds, next, leds);
      o
  }

  /** A pass never brightens any channel of any LED. */
  lemma PassDims(leds: seq<RGBW>)
    ensures Dimmer(ReducePass(leds), leds)
  {
    var r := ReducePass(leds);
    forall j | 0 <= j < |leds|
      ensures NoBrighter(r[j], leds[j])
    {
      assert r[j] == ReduceLed(leds[j]);
    }
  }

  lemma DimmerTrans(a: seq<RGBW>, b: seq<RGBW>, c: seq<RGBW>)
    requires Dimmer(a, b) && Dimmer(b, c)
    ensures Dimmer(a, c)
  {
  }

  /** A strip whose loop ends in Stuck never leaves it: the next pass sees the same LEDs. */
  lemma StuckIsFinal(info: PowerInfo, limit: real, leds: seq<RGBW>)
    requires Throttle(info, limit, leds).Stuck?
    ensures var s := Throttle(info, limit, leds).leds;
      !Reducible(s) && Throttle(info, limit, s) == Stuck(s)
  {
    var s := Throttle(info, limit, leds).leds;
    PassFixedIff(s);
  }

  /** When no LED can be lowered and the draw exceeds the limit, the loop never ends. */
  lemma StuckWhenDark(info: PowerInfo, limit: real, leds: seq<RGBW>)
    requires forall k :: 0 <= k < |leds| ==> Brightness(leds[k]) < ReduceStep
    requires Consumption(info, leds) > limit
    ensures Throttle(info, limit, leds) == Stuck(leds)
  {
  }

  /**
   * A limit below the rest current of all LEDs can never be met: the loop
   * dims everything it can and then spins.
   */
  lemma {:induction false} StuckBelowRestCurrent(info: PowerInfo, limit: real, leds: seq<RGBW>)
    requires Physical(info) && limit < RestCurrent(info, |leds|)
    ensures Throttle(info, limit, leds).Stuck?
    decreases TotalBrightness(leds)
  {
    ConsumptionAtLeastBase(info, leds);
    if Reducible(leds) {
      PassLowersTotal(leds);
      StuckBelowRestCurrent(info, limit, ReducePass(leds));
    }
  }

  // ---------------------------------------------------------------------------
  // The surface

  /**
   * VirtualLedStripWithPowerLimit: the colours asked for (`desired`, the
   * LedBufferStorage member), the backing strip's LEDs (`base`), the power
   * model and the limit.
   */
  datatype PowerStrip = PowerStrip(desired: seq<RGBW>, base: seq<RGBW>, info: PowerInfo, limit: real)

  /** The desired buffer was made with the backing strip's count, at most 255. */
  predicate Wf(s: PowerStrip)
  {
    |s.desired| == |s.base| < 0x100
  }

  /**
   * The result of an operation: the new state and whether the backing
   * strip's updateLeds ran, or Hangs with the state the reduction loop
   * spins in forever.
   */
  datatype Run = Done(strip: PowerStrip, baseFlushed: bool) | Hangs(strip: PowerStrip)

  /** The constructor: an all-dark desired buffer; the backing strip is not touched. */
  function NewPowerStrip(base: seq<RGBW>, info: PowerInfo, limit: real): (s: PowerStrip)
    requires |base| < 0x100
    ensures Wf(s) && s.base == base && s.info == info && s.limit == limit
    ensures forall k :: 0 <= k < |s.desired| ==> s.desired[k] == Off
  {
    PowerStrip(seq(|base|, _ => Off), base, info, limit)
  }

  /** getLedCount: the backing strip's count. */
  function LedCount(s: PowerStrip): (n: u8)
    requires Wf(s)
    ensures n == |s.desired|
  {
    |s.base|
  }

  /** getLed: the desired colour, never the dimmed one. */
  function GetLed(s: PowerStrip, i: u8): (c: RGBW)
    requires Wf(s) && i < LedCount(s)
    ensures c == UpdateLeds(s).strip.desired[i]
    ensures NoBrighter(UpdateLeds(s).strip.base[i], c)
  {
    s.desired[i]
  }

  /** Step 1 of updateLeds from counter i on: the desired colours written to the backing strip, unflushed. */
  function ApplyFrom(base: seq<RGBW>, desired: seq<RGBW>, i: nat): (r: seq<RGBW>)
    requires |base| == |desired| && i <= |base|
    ensures |r| == |base|
    ensures forall k :: 0 <= k < |r| ==> r[k] == if k < i then base[k] else desired[k]
    decreases |base| - i
  {
    if i == |base| then base
    else ApplyFrom(base[i := desired[i]], desired, i + 1)
  }

  /** After step 1 the backing strip holds exactly the desired colours. */
  lemma ApplyAll(base: seq<RGBW>, desired: seq<RGBW>)
    requires |base| == |desired|
    ensures ApplyFrom(base, desired, 0) == desired
  {
  }

  /**
   * updateLeds: write the desired colours to the backing strip, dim them
   * until the limit is met, then flush the backing strip once.
   */
  function UpdateLeds(s: PowerStrip): (r: Run)
    requires Wf(s)
    ensures Wf(r.strip)
    ensures r.strip.desired == s.desired && r.strip.info == s.info && r.strip.limit == s.limit
    ensures Dimmer(r.strip.base, s.desired)
    ensures r.Done? ==> r.baseFlushed && Consumption(s.info, r.strip.base) <= s.limit
    ensures r.Hangs? ==> Consumption(s.info, r.strip.base) > s.limit && !Reducible(r.strip.base)
    ensures Consumption(s.info, s.desired) <= s.limit ==> r == Done(s.(base := s.desired), true)
  {
    var applied := ApplyFrom(s.base, s.desired, 0);
    ApplyAll(s.base, s.desired);
    var o := Throttle(s.info, s.limit, applied);
    if o.Stuck? then Hangs(s.(base := o.leds))
    else Done(s.(base := o.leds), true)
  }

  /** setLed: store in the desired buffer; with flush, run updateLeds. */
  function SetLed(s: PowerStrip, i: u8, c: RGBW, flush: bool): (r: Run)
    requires Wf(s) && i < LedCount(s)
    ensures Wf(r.strip)
    ensures r.strip.desired == s.desired[i := c]
    ensures !flush ==> r == Done(s.(desired := s.desired[i := c]), false)
    ensures flush ==> r == UpdateLeds(s.(desired := s.desired[i := c]))
  {
    var t := s.(desired := s.desired[i := c]);
    if flush then UpdateLeds(t) else Done(t, false)
  }

  /** getLed after setLed reads the colour just set, dimmed or not, and every other index as before. */
  lemma GetAfterSetLed(s: PowerStrip, i: u8, j: u8, c: RGBW, flush: bool)
    requires Wf(s) && i < LedCount(s) && j < LedCount(s)
    ensures GetLed(SetLed(s, i, c, flush).strip, j) == if i == j then c else GetLed(s, j)
  {
  }

  /** setPowerLimit: store the limit and rerun updateLeds. */
  function SetPowerLimit(s: PowerStrip, limit: real): (r: Run)
    requires Wf(s)
    ensures r == UpdateLeds(s.(limit := limit))
    ensures r.strip.limit == limit && r.strip.desired == s.desired
    ensures Dimmer(r.strip.base, s.desired)
    ensures r.Done? ==> r.baseFlushed && Consumption(s.info, r.strip.base) <= limit
    ensures r.Hangs? ==> Consumption(s.info, r.strip.base) > limit && !Reducible(r.strip.base)
    ensures Consumption(s.info, s.desired) <= limit ==> r == Done(s.(limit := limit, base := s.desired), true)
  {
    UpdateLeds(s.(limit := limit))
  }

  /** getCurrentPowerConsumption_mA(): the draw of the backing strip as it is now. */
  function PowerConsumption(s: PowerStrip): (mA: real)
    ensures Physical(s.info) ==> mA >= RestCurrent(s.info, |s.base|)
    ensures (forall k :: 0 <= k < |s.base| ==> s.base[k] == Off) ==> mA == RestCurrent(s.info, |s.base|)
  {
    RestCurrentBounds(s.info, s.base);
    Consumption(s.info, s.base)
  }

  /** The rest current of the LEDs bounds a physical draw from below, and is the draw of dark LEDs. */
  lemma RestCurrentBounds(info: PowerInfo, leds: seq<RGBW>)
    ensures Physical(info) ==> Consumption(info, leds) >= RestCurrent(info, |leds|)
    ensures (forall k :: 0 <= k < |leds| ==> leds[k] == Off) ==> Consumption(info, leds) == RestCurrent(info, |leds|)
  {
    if Physical(info) {
      ConsumptionAtLeastBase(info, leds);
    }
    if forall k :: 0 <= k < |leds| ==> leds[k] == Off {
      assert leds == seq(|leds|, _ => Off);
      ConsumptionOfDark(info, |leds|);
    }
  }

  /** After a flush that ends, the reported consumption is within the limit. */
  lemma FlushMeetsLimit(s: PowerStrip)
    requires Wf(s) && UpdateLeds(s).Done?
    ensures PowerConsumption(UpdateLeds(s).strip) <= s.limit
  {
  }

  /** A limit below the rest current of all LEDs makes every flush hang. */
  lemma FlushHangsBelowRestCurrent(s: PowerStrip)
    requires Wf(s) && Physical(s.info) && s.limit < RestCurrent(s.info, |s.base|)
    ensures UpdateLeds(s).Hangs?
  {
    ApplyAll(s.base, s.desired);
    StuckBelowRestCurrent(s.info, s.limit, s.desired);
  }
}
