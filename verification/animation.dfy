/**
 * The animations of AnimationManager.h: a progress factor over u32
 * milliseconds, and the three kinds of single-LED animation that write
 * through a surface without flushing it.
 */
module Animations {
  import opened Color
  import opened Surfaces

  /** u32 arithmetic wraps modulo 2^32. */
  const Wrap: int := 0x1_0000_0000

  /** getEndTime: start plus duration in u32 arithmetic. */
  function EndTime(start: u32, duration: u32): (e: u32)
    ensures start + duration < Wrap ==> e == start + duration
    ensures start + duration >= Wrap ==> e == start + duration - Wrap && e < start
  {
    (start + duration) % Wrap
  }

  /**
   * getFactor: 0 before the start, 1 after the end, and the elapsed part of
   * the duration in between. When the end time wraps past 2^32 it lies
   * before the start, and the factor is 1 from the start on. With duration
   * 0 at the start instant the library divides 0 by 0; that instant is
   * excluded.
   */
  function GetFactor(start: u32, duration: u32, now: u32): (f: real)
    requires duration > 0 || now != start
    ensures 0.0 <= f <= 1.0
    ensures now < start ==> f == 0.0
    ensures (start <= now && now > EndTime(start, duration)) ==> f == 1.0
    ensures start <= now <= EndTime(start, duration) ==>
              duration > 0 && f == ((now - start) as real) / (duration as real)
  {
    var end := EndTime(start, duration);
    if now < start then 0.0
    else if now > end then 1.0
    else
      assert end == start + duration;
      var remaining := end - now;
      ElapsedPart(now - start, remaining, duration);
      1.0 - (remaining as real) / (duration as real)
  }

  /** The part of a duration still to run, subtracted from 1, is the part elapsed. */
  lemma ElapsedPart(elapsed: nat, remaining: nat, duration: nat)
    requires duration > 0 && elapsed + remaining == duration
    ensures 1.0 - (remaining as real) / (duration as real) == (elapsed as real) / (duration as real)
    ensures 0.0 <= (elapsed as real) / (duration as real) <= 1.0
  {
    var d, e, r := duration as real, elapsed as real, remaining as real;
    var inv := 1.0 / d;
    assert r / d == r * inv && e / d == e * inv && d * inv == 1.0;
    assert (d - r) * inv == d * inv - r * inv;
    assert 0.0 <= e * inv <= d * inv by {
      assert 0.0 <= e && 0.0 <= d - e && 0.0 < inv;
      assert 0.0 <= (d - e) * inv;
    }
  }

  /** For a duration that does not wrap, the factor is 0 at the start and 1 at the end. */
  lemma FactorAtEndpoints(start: u32, duration: u32)
    requires duration > 0 && start + duration < Wrap
    ensures GetFactor(start, duration, start) == 0.0
    ensures GetFactor(start, duration, EndTime(start, duration)) == 1.0
  {
  }

  /** When the end time wraps, the factor is 1 as soon as the start is reached. */
  lemma FactorWrapped(start: u32, duration: u32, now: u32)
    requires start + duration >= Wrap && start <= now
    ensures GetFactor(start, duration, now) == 1.0
  {
  }

  lemma DivMonotone(a: nat, b: nat, d: nat)
    requires a <= b && d > 0
    ensures (a as real) / (d as real) <= (b as real) / (d as real)
  {
  }

  /** The factor never decreases as time goes on. */
  lemma FactorMonotone(start: u32, duration: u32, t1: u32, t2: u32)
    requires duration > 0 && t1 <= t2
    ensures GetFactor(start, duration, t1) <= GetFactor(start, duration, t2)
  {
    var end := EndTime(start, duration);
    if start <= t1 && t2 <= end {
      DivMonotone(t1 - start, t2 - start, duration);
    }
  }

  // ---------------------------------------------------------------------------

  /**
   * The kinds of animation with their private state: FadeFromExisting reads
   * its start colour on the first update, Blink reads the colour to restore
   * on its first update and counts the flashes still to show.
   */
  datatype Kind =
    | Fade(from: RGBW, to: RGBW)
    | FadeFromExisting(started: bool, from: RGBW, to: RGBW)
    | Blink(color: RGBW, previous: RGBW, count: u16, started: bool, active: bool)

  /** An ALedAnimation: timing, the surface it writes, the LED index (u16) and its kind. */
  datatype Animation = Animation(start: u32, duration: u32, target: Surface, ledIndex: u16, kind: Kind)

  /** FadeAnimation's constructor. */
  function NewFade(start: u32, duration: u32, target: Surface, ledIndex: u16, from: RGBW, to: RGBW): (a: Animation)
    ensures a.kind.Fade? && a.kind.from == from && a.kind.to == to
    ensures a.start == start && a.duration == duration && a.target == target && a.ledIndex == ledIndex
  {
    Animation(start, duration, target, ledIndex, Fade(from, to))
  }

  /** FadeFromExistingAnimation's constructor: nothing read yet, start colour dark. */
  function NewFadeFromExisting(start: u32, duration: u32, target: Surface, ledIndex: u16, to: RGBW): (a: Animation)
    ensures a.kind == FadeFromExisting(false, Off, to)
    ensures a.start == start && a.duration == duration && a.target == target && a.ledIndex == ledIndex
  {
    Animation(start, duration, target, ledIndex, FadeFromExisting(false, Off, to))
  }

  /** The length of one blink period in milliseconds: 100 on, 300 off. */
  const BlinkPeriod: nat := 400

  /** BlinkAnimation's constructor: one period per flash, not started, not showing. */
  function NewBlink(start: u32, count: u16, target: Surface, ledIndex: u16, color: RGBW): (a: Animation)
    ensures a.duration == count * BlinkPeriod
    ensures a.kind == Blink(color, Off, count, false, false)
    ensures a.start == start && a.target == target && a.ledIndex == ledIndex
  {
    Animation(start, count * BlinkPeriod, target, ledIndex, Blink(color, Off, count, false, false))
  }

  /** The LED index narrowed to the surfaces' u8 index type. */
  function Pin(a: Animation): (p: u8)
    ensures a.ledIndex < 0x100 ==> p == a.ledIndex
    ensures p <= a.ledIndex && (a.ledIndex - p) % 0x100 == 0
  {
    a.ledIndex % 0x100
  }

  /**
   * An animation the engine can place on a surface shape: its surface is
   * well formed and its LED index reaches a pixel or the empty tail.
   */
  predicate Ready(sh: Shape, a: Animation)
  {
    && Valid(sh, a.target)
    && Resolve(sh, a.target, Pin(a)) != Fault
  }

  /**
   * An animation whose update at `now` is defined: every instant except the
   * start of a fade of duration 0, where getFactor divides 0 by 0.
   */
  predicate Runnable(a: Animation, now: u32)
  {
    a.kind.Blink? || a.duration > 0 || now != a.start
  }

  /** The pixel an animation writes. */
  function Spot(sh: Shape, a: Animation): Route
    requires Valid(sh, a.target)
  {
    Resolve(sh, a.target, Pin(a))
  }

  /** An update: the animation with its new private state, and the new arena. */
  datatype Step = Step(anim: Animation, arena: Arena)

  /** The same animation apart from its private state. */
  predicate SameSlot(a: Animation, b: Animation)
  {
    a.start == b.start && a.duration == b.duration && a.target == b.target &&
    a.ledIndex == b.ledIndex && a.kind.Fade? == b.kind.Fade? &&
    a.kind.FadeFromExisting? == b.kind.FadeFromExisting? && a.kind.Blink? == b.kind.Blink?
  }

  /** The colour of a fade at `now`. */
  function FadeColor(a: Animation, from: RGBW, to: RGBW, now: u32): (c: RGBW)
    requires a.duration > 0 || now != a.start
    ensures now < a.start ==> c == from
    ensures (a.start <= now && now > EndTime(a.start, a.duration)) ==> c == to
  {
    InterpolateEndpoints(from, to);
    Interpolate(from, to, GetFactor(a.start, a.duration, now))
  }

  /** FadeAnimation::update: write the interpolated colour, without flushing. */
  function FadeUpdate(a: Animation, arena: Arena, now: u32): (s: Step)
    requires a.kind.Fade? && Ready(ShapeOf(arena), a) && Runnable(a, now)
    ensures s.anim == a
    ensures s.arena == WriteAt(arena, Spot(ShapeOf(arena), a), FadeColor(a, a.kind.from, a.kind.to, now))
  {
    Step(a, Set(arena, a.target, Pin(a), FadeColor(a, a.kind.from, a.kind.to, now), false).arena)
  }

  /**
   * FadeFromExistingAnimation::update: on the first call read the start
   * colour from the target pixel, then fade as FadeAnimation does.
   */
  function FadeFromExistingUpdate(a: Animation, arena: Arena, now: u32): (s: Step)
    requires a.kind.FadeFromExisting? && Ready(ShapeOf(arena), a) && Runnable(a, now)
    ensures SameSlot(s.anim, a) && s.anim.kind.started && s.anim.kind.to == a.kind.to
    ensures s.anim.kind.from == if a.kind.started then a.kind.from else PixelAt(arena, Spot(ShapeOf(arena), a))
    ensures s.arena == WriteAt(arena, Spot(ShapeOf(arena), a), FadeColor(a, s.anim.kind.from, a.kind.to, now))
  {
    var from := if a.kind.started then a.kind.from else Get(arena, a.target, Pin(a));
    Step(a.(kind := FadeFromExisting(true, from, a.kind.to)),
         Set(arena, a.target, Pin(a), FadeColor(a, from, a.kind.to, now), false).arena)
  }

  /**
   * Blink's phase test: ((start - now) mod 2^32) mod 400 <= 100, written
   * with the subtraction in the library's order.
   */
  predicate OnPhase(start: u32, now: u32)
  {
    ((start - now) % Wrap) % BlinkPeriod <= 100
  }

  /**
   * Since 2^32 leaves 96 modulo 400, the phase test is "on" for the first
   * 97 and the last 4 milliseconds of each period after the start, not for
   * the first 101 as the class comment describes.
   */
  lemma BlinkPhase(start: u32, now: u32)
    ensures var m := ((now - start) % Wrap) % BlinkPeriod;
      OnPhase(start, now) <==> (m <= 96 || m >= 396)
  {
    var e := (now - start) % Wrap;
    var m := e % BlinkPeriod;
    if e == 0 {
      assert (start - now) % Wrap == 0;
    } else {
      assert (start - now) % Wrap == Wrap - e;
      assert Wrap == 10737418 * 400 + 96;
      var q := e / 400;
      assert e == q * 400 + m;
      assert Wrap - e == (10737418 - q) * 400 + (96 - m);
      if m <= 96 {
        WithinPeriod(Wrap - e, 10737418 - q, 96 - m);
      } else {
        assert Wrap - e == (10737418 - q - 1) * 400 + (496 - m);
        WithinPeriod(Wrap - e, 10737418 - q - 1, 496 - m);
      }
    }
  }

  lemma WithinPeriod(x: int, q: int, r: int)
    requires 0 <= r < 400 && x == q * 400 + r
    ensures x % 400 == r
  {
  }

  /** The Blink state after its first update: the colour to restore is fixed. */
  function Restore(a: Animation, arena: Arena): (prev: RGBW)
    requires a.kind.Blink? && Ready(ShapeOf(arena), a)
    ensures prev == if a.kind.started then a.kind.previous else PixelAt(arena, Spot(ShapeOf(arena), a))
  {
    if a.kind.started then a.kind.previous else Get(arena, a.target, Pin(a))
  }

  /**
   * BlinkAnimation::update. In the on-phase a hidden flash is shown if any
   * remain, spending one; in the off-phase a shown flash is replaced by the
   * colour that was there before. Nothing else writes.
   */
  function BlinkUpdate(a: Animation, arena: Arena, now: u32): (s: Step)
    requires a.kind.Blink? && Ready(ShapeOf(arena), a)
    ensures SameSlot(s.anim, a) && s.anim.kind.started && s.anim.kind.color == a.kind.color
    ensures s.anim.kind.previous == Restore(a, arena)
    ensures var turnOn := OnPhase(a.start, now) && !a.kind.active && a.kind.count > 0;
      && s.anim.kind.count == (if turnOn then a.kind.count - 1 else a.kind.count)
      && s.anim.kind.active == (if OnPhase(a.start, now) then a.kind.active || turnOn else false)
    ensures s.arena == if OnPhase(a.start, now) && !a.kind.active && a.kind.count > 0
                       then WriteAt(arena, Spot(ShapeOf(arena), a), a.kind.color)
                       else if !OnPhase(a.start, now) && a.kind.active
                       then WriteAt(arena, Spot(ShapeOf(arena), a), Restore(a, arena))
                       else arena
  {
    var k := a.kind;
    var prev := Restore(a, arena);
    if OnPhase(a.start, now) then
      if !k.active && k.count > 0 then
        Step(a.(kind := Blink(k.color, prev, k.count - 1, true, true)),
             Set(arena, a.target, Pin(a), k.color, false).arena)
      else
        Step(a.(kind := Blink(k.color, prev, k.count, true, k.active)), arena)
    else if k.active then
      Step(a.(kind := Blink(k.color, prev, k.count, true, false)),
           Set(arena, a.target, Pin(a), prev, false).arena)
    else
      Step(a.(kind := Blink(k.color, prev, k.count, true, false)), arena)
  }

  /** update(now) of any animation: only the pixel it addresses can change, and the arena keeps its shape. */
  function Update(a: Animation, arena: Arena, now: u32): (s: Step)
    requires Ready(ShapeOf(arena), a) && Runnable(a, now)
    ensures SameSlot(s.anim, a)
    ensures ShapeOf(s.arena) == ShapeOf(arena)
    ensures forall id, p :: (id in arena && 0 <= p < |arena[id]| && Pixel(id, p) != Spot(ShapeOf(arena), a)) ==>
              s.arena[id][p] == arena[id][p]
  {
    match a.kind
    case Fade(_, _) => FadeUpdate(a, arena, now)
    case FadeFromExisting(_, _, _) => FadeFromExistingUpdate(a, arena, now)
    case Blink(_, _, _, _, _) => BlinkUpdate(a, arena, now)
  }

  /** A fade updated after its end shows exactly its end colour. */
  lemma FadeEndsAtTarget(a: Animation, arena: Arena, now: u32)
    requires a.kind.Fade? && Ready(ShapeOf(arena), a) && Runnable(a, now)
    requires a.start <= now && now >= EndTime(a.start, a.duration) && a.start + a.duration < Wrap
    requires Spot(ShapeOf(arena), a).Pixel?
    ensures PixelAt(Update(a, arena, now).arena, Spot(ShapeOf(arena), a)) == a.kind.to
  {
    var f := GetFactor(a.start, a.duration, now);
    assert f == 1.0;
    InterpolateEndpoints(a.kind.from, a.kind.to);
  }

  /** A FadeFromExisting reads its start colour once: a second update keeps it. */
  lemma FadeFromExistingReadsOnce(a: Animation, arena: Arena, now: u32, arena2: Arena, later: u32)
    requires a.kind.FadeFromExisting? && Ready(ShapeOf(arena), a) && ShapeOf(arena2) == ShapeOf(arena)
    requires Runnable(a, now) && Runnable(a, later)
    ensures var b := Update(a, arena, now).anim;
      Update(b, arena2, later).anim == b
  {
  }

  /**
   * A fade of duration 0 jumps: before its start it shows the start colour,
   * after it the end colour.
   */
  lemma ZeroDurationFade(a: Animation, from: RGBW, to: RGBW, now: u32)
    requires a.duration == 0 && now != a.start
    ensures FadeColor(a, from, to, now) == if now < a.start then from else to
  {
  }

  /** A Blink never shows more flashes than it was given: each showing spends one of the count. */
  lemma BlinkSpends(a: Animation, arena: Arena, now: u32)
    requires a.kind.Blink? && Ready(ShapeOf(arena), a)
    ensures var s := Update(a, arena, now);
      s.anim.kind.count <= a.kind.count &&
      (s.anim.kind.active && !a.kind.active ==> s.anim.kind.count == a.kind.count - 1)
  {
  }
}
