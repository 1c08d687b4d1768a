/**
 * The 4-channel colour value of the library (RGBW.h): three colour channels and
 * a dedicated white channel, each an unsigned 8-bit value.
 *
 * Factors that are `float` in the library are exact `real`s here, and the
 * float-to-uint8 conversion truncates toward zero; it is defined only for
 * values in (-1, 256), and every conversion here requires that.
 */
module Color {

  type u8 = x: int | 0 <= x < 0x100
  type u16 = x: int | 0 <= x < 0x1_0000
  type u32 = x: int | 0 <= x < 0x1_0000_0000

  datatype RGBW = RGBW(r: u8, g: u8, b: u8, w: u8)

  /** `RGBW()` and `COLOR_OFF`: every channel zero. */
  const Off: RGBW := RGBW(0, 0, 0, 0)

  /** Largest value of getTotalBrightness, 4 * 0xFF. */
  const MaxBrightness: int := 0xFF * 4

  function Min(a: int, b: int): int { if a <= b then a else b }
  function Max(a: int, b: int): int { if a <= b then b else a }

  /** Every channel set to the same value `v`. */
  function Grey(v: u8): RGBW { RGBW(v, v, v, v) }

  // ---------------------------------------------------------------------------
  // Packed 32-bit form, byte order WRGB: W in bits 31-24, R in 23-16, G in 15-8, B in 7-0

  /**
   * getAsPackedColor. The shifts and masks of the library are the divisions
   * and remainders by powers of 0x100 below.
   */
  function Pack(c: RGBW): (p: u32)
    ensures p / 0x100_0000 == c.w
    ensures (p / 0x1_0000) % 0x100 == c.r
    ensures (p / 0x100) % 0x100 == c.g
    ensures p % 0x100 == c.b
  {
    var wr := c.w * 0x100 + c.r;
    var wrg := wr * 0x100 + c.g;
    var p := wrg * 0x100 + c.b;
    assert p / 0x100 == wrg;
    assert wrg / 0x100 == wr;
    ShiftTwice(p);
    p
  }

  /**
   * The `RGBW(uint32_t packedColor)` constructor: the word is read as the
   * base-256 digits W, R, G, B, so no bit of it is lost.
   */
  function Unpack(p: u32): (c: RGBW)
    ensures p == ((c.w * 0x100 + c.r) * 0x100 + c.g) * 0x100 + c.b
  {
    ShiftTwice(p);
    var x1 := p / 0x100;
    var x2 := x1 / 0x100;
    assert p == x1 * 0x100 + p % 0x100;
    assert x1 == x2 * 0x100 + x1 % 0x100;
    assert x2 == (x2 / 0x100) * 0x100 + x2 % 0x100;
    RGBW(x2 % 0x100, x1 % 0x100, p % 0x100, p / 0x100_0000)
  }

  /** Two successive 8-bit shifts are one 16-bit shift. */
  lemma ShiftTwice(n: nat)
    ensures (n / 0x100) / 0x100 == n / 0x1_0000
    ensures (n / 0x1_0000) / 0x100 == n / 0x100_0000
  {
  }

  /** Packing then unpacking gives the colour back. */
  lemma UnpackPack(c: RGBW)
    ensures Unpack(Pack(c)) == c
  {
  }

  /** Unpacking then packing gives every 32-bit word back: no bit is lost. */
  lemma PackUnpack(p: u32)
    ensures Pack(Unpack(p)) == p
  {
  }

  /** The packed-colour cases of the library's unit test. */
  lemma PackTestVectors()
    ensures Unpack(0xAA11_2233) == RGBW(0x11, 0x22, 0x33, 0xAA)
    ensures Pack(RGBW(1, 2, 3, 4)) == 0x0401_0203
  {
  }

  // ---------------------------------------------------------------------------
  // Saturating addition

  /** AddWOOverflow: the sum of two channels, capped at 0xFF. */
  function AddSat(a: u8, b: u8): (s: u8)
    ensures a <= s && b <= s && s <= a + b
    ensures s == 0xFF || s == a + b
  {
    if a + b > 0xFF then 0xFF else a + b
  }

  /** operator+: channel-wise saturating addition. */
  function Plus(x: RGBW, y: RGBW): (s: RGBW)
    ensures s.r == Min(0xFF, x.r + y.r) && s.g == Min(0xFF, x.g + y.g)
    ensures s.b == Min(0xFF, x.b + y.b) && s.w == Min(0xFF, x.w + y.w)
  {
    RGBW(AddSat(x.r, y.r), AddSat(x.g, y.g), AddSat(x.b, y.b), AddSat(x.w, y.w))
  }

  // ---------------------------------------------------------------------------
  // Equality, brightness, Min / Max

  /** operator==: all four channels equal. */
  predicate Equals(x: RGBW, y: RGBW)
    ensures Equals(x, y) <==> x == y
  {
    x.r == y.r && x.g == y.g && x.b == y.b && x.w == y.w
  }

  /** operator!=: some channel differs. */
  predicate NotEquals(x: RGBW, y: RGBW)
    ensures NotEquals(x, y) <==> !Equals(x, y)
  {
    x.r != y.r || x.g != y.g || x.b != y.b || x.w != y.w
  }

  /** getTotalBrightness: the sum of the four channels. */
  function Brightness(c: RGBW): (t: nat)
    ensures t <= MaxBrightness
    ensures c.r <= t && c.g <= t && c.b <= t && c.w <= t
    ensures t == 0 <==> c == Off
  {
    c.r + c.g + c.b + c.w
  }

  /** RGBW::Max: channel-wise maximum. */
  function MaxColor(x: RGBW, y: RGBW): (m: RGBW)
    ensures x.r <= m.r && y.r <= m.r && (m.r == x.r || m.r == y.r)
    ensures x.g <= m.g && y.g <= m.g && (m.g == x.g || m.g == y.g)
    ensures x.b <= m.b && y.b <= m.b && (m.b == x.b || m.b == y.b)
    ensures x.w <= m.w && y.w <= m.w && (m.w == x.w || m.w == y.w)
  {
    RGBW(Max(x.r, y.r), Max(x.g, y.g), Max(x.b, y.b), Max(x.w, y.w))
  }

  /** RGBW::Min: channel-wise minimum. */
  function MinColor(x: RGBW, y: RGBW): (m: RGBW)
    ensures m.r <= x.r && m.r <= y.r && (m.r == x.r || m.r == y.r)
    ensures m.g <= x.g && m.g <= y.g && (m.g == x.g || m.g == y.g)
    ensures m.b <= x.b && m.b <= y.b && (m.b == x.b || m.b == y.b)
    ensures m.w <= x.w && m.w <= y.w && (m.w == x.w || m.w == y.w)
  {
    RGBW(Min(x.r, y.r), Min(x.g, y.g), Min(x.b, y.b), Min(x.w, y.w))
  }

  // ---------------------------------------------------------------------------
  // Scaling and interpolation

  /** A non-negative value times a factor in [0, 1] lies between 0 and the value. */
  lemma FractionBounds(d: real, f: real)
    requires 0.0 <= d && 0.0 <= f <= 1.0
    ensures 0.0 <= d * f <= d
  {
  }

  /** No channel brighter than in `d`. */
  predicate NoBrighter(c: RGBW, d: RGBW)
  {
    c.r <= d.r && c.g <= d.g && c.b <= d.b && c.w <= d.w
  }

  /**
   * A float the conversion to uint8_t is defined for: its truncation toward
   * zero lies in [0, 255]. Outside this range the conversion is undefined.
   */
  predicate ByteConvertible(x: real)
  {
    -1.0 < x < 256.0
  }

  /** `v` is `x` truncated toward zero, as a float-to-integer conversion does. */
  predicate TruncatesTo(x: real, v: int)
  {
    if x < 0.0 then v == 0 else v as real <= x < v as real + 1.0
  }

  /** The float-to-uint8_t conversion. */
  function ToByte(x: real): (v: u8)
    requires ByteConvertible(x)
    ensures TruncatesTo(x, v)
  {
    if x < 0.0 then 0 else x.Floor
  }

  /** One channel times `f` can be converted back to uint8. */
  predicate ChannelScalable(a: u8, f: real)
  {
    ByteConvertible(a as real * f)
  }

  /** Any channel can be scaled by a factor in [0, 1]. */
  lemma FractionChannel(a: u8, f: real)
    requires 0.0 <= f <= 1.0
    ensures ChannelScalable(a, f)
  {
    FractionBounds(a as real, f);
    assert a as real <= 255.0;
  }

  /** One channel times a factor, converted back to uint8 (truncated toward zero). */
  function ScaleChannel(a: u8, f: real): (v: u8)
    requires ChannelScalable(a, f)
    ensures TruncatesTo(a as real * f, v)
  {
    ToByte(a as real * f)
  }

  /** Every channel of `c` times `f` can be converted back to uint8. */
  predicate Scalable(c: RGBW, f: real)
  {
    && ChannelScalable(c.r, f) && ChannelScalable(c.g, f)
    && ChannelScalable(c.b, f) && ChannelScalable(c.w, f)
  }

  /** Any colour can be scaled by a factor in [0, 1]. */
  lemma FractionScalable(c: RGBW, f: real)
    requires 0.0 <= f <= 1.0
    ensures Scalable(c, f)
  {
    FractionChannel(c.r, f);
    FractionChannel(c.g, f);
    FractionChannel(c.b, f);
    FractionChannel(c.w, f);
  }

  /** operator*(float): every channel multiplied and truncated toward zero. */
  function Times(c: RGBW, f: real): (s: RGBW)
    requires Scalable(c, f)
    ensures TruncatesTo(c.r as real * f, s.r) && TruncatesTo(c.g as real * f, s.g)
    ensures TruncatesTo(c.b as real * f, s.b) && TruncatesTo(c.w as real * f, s.w)
  {
    RGBW(ScaleChannel(c.r, f), ScaleChannel(c.g, f), ScaleChannel(c.b, f), ScaleChannel(c.w, f))
  }

  /** The scalar-multiplication case of the unit test: with factor 1.5 every product stays in range. */
  lemma TimesTestVector()
    ensures Scalable(RGBW(10, 20, 30, 40), 1.5)
    ensures Times(RGBW(10, 20, 30, 40), 1.5) == RGBW(15, 30, 45, 60)
  {
    assert ToByte(15.0) == 15 && ToByte(30.0) == 30 && ToByte(45.0) == 45 && ToByte(60.0) == 60;
  }

  lemma Regroup(x: real, y: real, f: real)
    ensures x * (1.0 - f) + y * f == x + (y - x) * f
    ensures x * (1.0 - f) + y * f == y + (x - y) * (1.0 - f)
  {
  }

  /** The exact mix `x * (1 - f) + y * f` is at least the smaller endpoint. */
  lemma MixAbove(x: real, y: real, f: real)
    requires 0.0 <= f <= 1.0
    ensures (if x <= y then x else y) <= x * (1.0 - f) + y * f
  {
    Regroup(x, y, f);
    if x <= y {
      FractionBounds(y - x, f);
    } else {
      FractionBounds(x - y, 1.0 - f);
    }
  }

  /** The exact mix `x * (1 - f) + y * f` is at most the larger endpoint. */
  lemma MixBelow(x: real, y: real, f: real)
    requires 0.0 <= f <= 1.0
    ensures x * (1.0 - f) + y * f <= (if x <= y then y else x)
  {
    Regroup(x, y, f);
    if x <= y {
      FractionBounds(y - x, f);
    } else {
      FractionBounds(x - y, 1.0 - f);
    }
  }

  /** One channel of interpolateTo before saturation: the two truncated parts. */
  function MixChannel(a: u8, b: u8, f: real): (v: int)
    requires 0.0 <= f <= 1.0
    ensures v as real <= a as real * (1.0 - f) + b as real * f
    ensures a as real * (1.0 - f) + b as real * f < v as real + 2.0
  {
    FractionChannel(a, 1.0 - f);
    FractionChannel(b, f);
    var u: int := ScaleChannel(a, 1.0 - f);
    var w: int := ScaleChannel(b, f);
    u + w
  }

  /** The truncated mix of one channel: never above the larger endpoint, never two below the smaller. */
  lemma MixBounds(a: u8, b: u8, f: real)
    requires 0.0 <= f <= 1.0
    ensures Min(a, b) - 1 <= MixChannel(a, b, f)
    ensures MixChannel(a, b, f) <= Max(a, b)
  {
    MixAbove(a as real, b as real, f);
    MixBelow(a as real, b as real, f);
    var v := MixChannel(a, b, f);
    assert v as real <= Max(a, b) as real;
    assert (Min(a, b) - 2) as real < v as real;
  }

  /**
   * interpolateTo: `this * (1 - f) + other * f`, each operand truncated
   * before the saturating sum. For f in [0, 1] the sum never saturates, and
   * every channel lies between the smaller endpoint minus one and the larger
   * endpoint.
   */
  function Interpolate(x: RGBW, y: RGBW, f: real): (m: RGBW)
    requires 0.0 <= f <= 1.0
    ensures m.r == MixChannel(x.r, y.r, f) && m.g == MixChannel(x.g, y.g, f)
    ensures m.b == MixChannel(x.b, y.b, f) && m.w == MixChannel(x.w, y.w, f)
    ensures Min(x.r, y.r) - 1 <= m.r <= Max(x.r, y.r)
    ensures Min(x.g, y.g) - 1 <= m.g <= Max(x.g, y.g)
    ensures Min(x.b, y.b) - 1 <= m.b <= Max(x.b, y.b)
    ensures Min(x.w, y.w) - 1 <= m.w <= Max(x.w, y.w)
  {
    MixBounds(x.r, y.r, f);
    MixBounds(x.g, y.g, f);
    MixBounds(x.b, y.b, f);
    MixBounds(x.w, y.w, f);
    FractionScalable(x, 1.0 - f);
    FractionScalable(y, f);
    Plus(Times(x, 1.0 - f), Times(y, f))
  }

  /** Factor 0 gives the start colour and factor 1 the end colour, exactly. */
  lemma InterpolateEndpoints(x: RGBW, y: RGBW)
    ensures Interpolate(x, y, 0.0) == x
    ensures Interpolate(x, y, 1.0) == y
  {
  }

  /** Half of a channel, truncated. */
  lemma HalfTrunc(a: u8)
    ensures ScaleChannel(a, 1.0 - 0.5) == a / 2
    ensures ScaleChannel(a, 0.5) == a / 2
  {
    var q := a / 2;
    assert a == 2 * q || a == 2 * q + 1;
  }

  /** Factor 0.5 is the channel-wise sum of the truncated halves. */
  lemma InterpolateHalf(x: RGBW, y: RGBW)
    ensures Interpolate(x, y, 0.5).r == x.r / 2 + y.r / 2
    ensures Interpolate(x, y, 0.5).g == x.g / 2 + y.g / 2
    ensures Interpolate(x, y, 0.5).b == x.b / 2 + y.b / 2
    ensures Interpolate(x, y, 0.5).w == x.w / 2 + y.w / 2
  {
    HalfTrunc(x.r); HalfTrunc(y.r);
    HalfTrunc(x.g); HalfTrunc(y.g);
    HalfTrunc(x.b); HalfTrunc(y.b);
    HalfTrunc(x.w); HalfTrunc(y.w);
  }

  /** The arithmetic cases of the library's unit test. */
  lemma ArithmeticTestVectors()
    ensures Interpolate(Off, RGBW(100, 200, 255, 50), 0.5) == RGBW(50, 100, 127, 25)
    ensures Plus(RGBW(10, 20, 30, 40), RGBW(5, 5, 5, 5)) == RGBW(15, 25, 35, 45)
    ensures Plus(RGBW(250, 251, 100, 0), RGBW(5, 5, 5, 5)) == RGBW(255, 255, 105, 5)
    ensures Brightness(RGBW(10, 20, 30, 40)) == 100
  {
    InterpolateHalf(Off, RGBW(100, 200, 255, 50));
  }

  // ---------------------------------------------------------------------------
  // getWithTotalBrightness

  /** Every channel lowered by `k`, stopping at zero. */
  function Lower(c: RGBW, k: nat): RGBW
  {
    RGBW(Max(0, c.r - k), Max(0, c.g - k), Max(0, c.b - k), Max(0, c.w - k))
  }

  /** One iteration of the decrement loop: every non-zero channel minus one. */
  function StepDown(c: RGBW): (d: RGBW)
    ensures d == Lower(c, 1)
    ensures c != Off ==> Brightness(d) < Brightness(c)
  {
    RGBW(if c.r > 0 then c.r - 1 else 0,
         if c.g > 0 then c.g - 1 else 0,
         if c.b > 0 then c.b - 1 else 0,
         if c.w > 0 then c.w - 1 else 0)
  }

  /** One decrement step and then `k` more: `k + 1` in all. */
  lemma LowerAgain(c: RGBW, k: nat)
    ensures Lower(StepDown(c), k) == Lower(c, k + 1)
  {
  }

  /**
   * The decrement loop of getWithTotalBrightness, from any start value: it
   * stops, it meets the target, and it never raises a channel.
   */
  function DecrementUntil(v: RGBW, target: nat): (d: RGBW)
    ensures Brightness(d) <= target
    ensures NoBrighter(d, v)
    decreases Brightness(v)
  {
    if Brightness(v) <= target then v else DecrementUntil(StepDown(v), target)
  }

  /** How many iterations the decrement loop runs from `v`. */
  function Steps(v: RGBW, target: nat): nat
    decreases Brightness(v)
  {
    if Brightness(v) <= target then 0 else 1 + Steps(StepDown(v), target)
  }

  /**
   * The loop lowers every channel uniformly: its result is the start value
   * with every channel lowered by the number of iterations, stopping at zero.
   */
  lemma {:induction false} DecrementIsUniform(v: RGBW, target: nat)
    ensures DecrementUntil(v, target) == Lower(v, Steps(v, target))
    decreases Brightness(v)
  {
    if Brightness(v) <= target {
      assert Lower(v, 0) == v;
    } else {
      var next := StepDown(v);
      DecrementIsUniform(next, target);
      assert DecrementUntil(v, target) == DecrementUntil(next, target);
      LowerAgain(v, Steps(next, target));
    }
  }

  /** The loop stops as early as it can: one iteration fewer would not have met the target. */
  lemma {:induction false} DecrementIsLeast(v: RGBW, target: nat)
    ensures Steps(v, target) > 0 ==> Brightness(Lower(v, Steps(v, target) - 1)) > target
    decreases Brightness(v)
  {
    if Brightness(v) > target {
      var next := StepDown(v);
      var k := Steps(next, target);
      if k > 0 {
        DecrementIsLeast(next, target);
        LowerAgain(v, k - 1);
        assert Lower(next, k - 1) == Lower(v, k);
      } else {
        assert Lower(v, 0) == v;
      }
    }
  }

  /** The target clamped to 4 * 0xFF. */
  function ClampTarget(target: u16): (t: nat)
    ensures t <= MaxBrightness && t <= target
    ensures target <= MaxBrightness ==> t == target
  {
    Min(target, MaxBrightness)
  }

  /**
   * One channel of the proportional rescale: `uint16(ch * factor)` capped at
   * 0xFF, with factor = target / current, computed as the integer quotient
   * it equals (RescaleChannelTruncates). Up to the current brightness it
   * never raises the channel.
   */
  function RescaleChannel(ch: u8, t: nat, current: nat): (v: u8)
    requires ch <= current && 0 < current
    ensures t <= current ==> v <= ch
  {
    QuotientAtMost(ch, t, current);
    Min(0xFF, (ch * t) / current)
  }

  /** The channel is the product of the channel and the factor target / current, truncated and capped. */
  lemma RescaleChannelTruncates(ch: u8, t: nat, current: nat)
    requires ch <= current && 0 < current
    ensures RescaleChannel(ch, t, current) == Min(0xFF, (ch as real * (t as real / current as real)).Floor)
  {
    TruncatedQuotient(ch, t, current);
  }

  /** Multiplying by a factor at most the divisor cannot raise the quotient above the value. */
  lemma QuotientAtMost(ch: nat, t: nat, d: nat)
    requires 0 < d
    ensures 0 <= (ch * t) / d
    ensures t <= d ==> (ch * t) / d <= ch
  {
    assert 0 <= ch * t;
    if t <= d {
      QuotientTimes(ch * t, d);
      MulLeft(ch, t, d);
      MulLeCancel((ch * t) / d, ch, d);
    }
  }

  lemma MulLeft(c: nat, a: nat, b: nat)
    requires a <= b
    ensures c * a <= c * b
  {
    assert c * b - c * a == c * (b - a);
  }

  /** The truncated product of a channel and a ratio is an integer quotient. */
  lemma TruncatedQuotient(ch: nat, t: nat, d: nat)
    requires 0 < d
    ensures (ch as real * (t as real / d as real)).Floor == (ch * t) / d
  {
    var n := ch * t;
    var q := n / d;
    var m := n % d;
    assert n == q * d + m;
    assert ch as real * (t as real / d as real) == n as real / d as real;
    assert n as real / d as real == q as real + m as real / d as real;
    assert 0.0 <= m as real / d as real < 1.0;
  }

  /** The proportional rescale of a non-zero colour to brightness `t`. */
  function Rescale(c: RGBW, t: nat): (d: RGBW)
    requires c != Off
    ensures t <= Brightness(c) ==> NoBrighter(d, c)
  {
    var current := Brightness(c);
    RGBW(RescaleChannel(c.r, t, current), RescaleChannel(c.g, t, current),
         RescaleChannel(c.b, t, current), RescaleChannel(c.w, t, current))
  }

  /** getWithTotalBrightness. */
  function WithTotalBrightness(c: RGBW, target: u16): (d: RGBW)
    ensures Brightness(d) <= ClampTarget(target)
    ensures target == 0 ==> d == Off
  {
    var t := ClampTarget(target);
    if c.r == 0 && c.g == 0 && c.b == 0 && c.w == 0 then
      Grey(Min(t / 4, 0xFF))
    else if t == 0 then
      Off
    else
      DecrementUntil(Rescale(c, t), t)
  }

  /** An all-zero source gives the grey whose channels are a quarter of the clamped target. */
  lemma WithTotalBrightnessOfOff(target: u16)
    ensures WithTotalBrightness(Off, target) == Grey(ClampTarget(target) / 4)
  {
  }

  /** Below the current brightness no channel is raised. */
  lemma WithTotalBrightnessNeverRaises(c: RGBW, target: u16)
    requires target < Brightness(c)
    ensures NoBrighter(WithTotalBrightness(c, target), c)
  {
    if target > 0 {
      WithTotalBrightnessIsRescale(c, target);
    }
  }

  lemma QuotientTimes(n: nat, d: nat)
    requires 0 < d
    ensures (n / d) * d <= n
  {
  }

  lemma MulStrict(x: int, y: int, d: int)
    requires 0 < d && y < x
    ensures y * d < x * d
  {
    assert (x - y) * d > 0;
    assert x * d - y * d == (x - y) * d;
  }

  lemma MulLeCancel(x: int, y: int, d: int)
    requires 0 < d && x * d <= y * d
    ensures x <= y
  {
    if y < x {
      MulStrict(x, y, d);
    }
  }

  /**
   * In exact arithmetic the proportional rescale already meets the target:
   * the truncated channels sum to at most target / current * current. The
   * decrement loop only corrects float rounding, so with exact factors
   * getWithTotalBrightness is the proportional rescale itself.
   */
  lemma RescaleMeetsTarget(c: RGBW, t: nat)
    requires c != Off
    ensures Brightness(Rescale(c, t)) <= t
  {
    SumOfQuotients(c.r, c.g, c.b, c.w, t);
  }

  lemma SumOfQuotients(a: nat, b: nat, c: nat, e: nat, t: nat)
    requires a + b + c + e > 0
    ensures var d := a + b + c + e;
      (a * t) / d + (b * t) / d + (c * t) / d + (e * t) / d <= t
  {
    var d := a + b + c + e;
    QuotientTimes(a * t, d); QuotientTimes(b * t, d);
    QuotientTimes(c * t, d); QuotientTimes(e * t, d);
    var s := (a * t) / d + (b * t) / d + (c * t) / d + (e * t) / d;
    assert s * d == ((a * t) / d) * d + ((b * t) / d) * d + ((c * t) / d) * d + ((e * t) / d) * d;
    assert a * t + b * t + c * t + e * t == t * d;
    MulLeCancel(s, t, d);
  }

  /** With a non-zero source and target, the result is the proportional rescale. */
  lemma WithTotalBrightnessIsRescale(c: RGBW, target: u16)
    requires c != Off && target > 0
    ensures WithTotalBrightness(c, target) == Rescale(c, ClampTarget(target))
  {
    RescaleMeetsTarget(c, ClampTarget(target));
  }

  /** The brightness-rescale cases of the library's unit test. */
  lemma WithTotalBrightnessTestVectors()
    ensures WithTotalBrightness(RGBW(200, 150, 100, 50), 300) == RGBW(120, 90, 60, 30)
    ensures WithTotalBrightness(RGBW(200, 150, 100, 50), 0) == Off
    ensures WithTotalBrightness(RGBW(200, 150, 100, 50), 1) == Off
  {
    var c := RGBW(200, 150, 100, 50);
    WithTotalBrightnessIsRescale(c, 300);
    RescaleTestVectors();
    WithTotalBrightnessIsRescale(c, 1);
  }

  /** The proportional rescale of the unit test's colour, channel by channel. */
  lemma RescaleTestVectors()
    ensures Rescale(RGBW(200, 150, 100, 50), 300) == RGBW(120, 90, 60, 30)
    ensures Rescale(RGBW(200, 150, 100, 50), 1) == Off
  {
    assert Brightness(RGBW(200, 150, 100, 50)) == 500;
    assert RescaleChannel(200, 300, 500) == 120;
    assert RescaleChannel(150, 300, 500) == 90;
    assert RescaleChannel(100, 300, 500) == 60;
    assert RescaleChannel(50, 300, 500) == 30;
    assert RescaleChannel(200, 1, 500) == 0;
    assert RescaleChannel(150, 1, 500) == 0;
    assert RescaleChannel(100, 1, 500) == 0;
    assert RescaleChannel(50, 1, 500) == 0;
  }
}
