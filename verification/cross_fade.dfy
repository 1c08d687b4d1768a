/**
 * LedStripCrossFadeHandler: two callback buffers, strip0 and strip1, of the
 * target's count; the target shows strip0 interpolated towards strip1 by
 * the fade factor. Flushing either buffer notifies the handler, which
 * recomputes the target unless that buffer cannot be visible at the
 * current factor.
 */
module CrossFade {
  import opened Color
  import opened Surfaces
  import opened StripOps
  import CallbackStorage

  /** The two internal buffers, as getBaseLeds0 and getBaseLeds1 hand them out. */
  datatype Side = Base0 | Base1

  /**
   * The handler: its target surface, the fade factor, the two buffers and
   * its own identity, the listener both buffers notify.
   */
  datatype Handler = Handler(target: Surface, factor: real,
                             strip0: CallbackStorage.CbStorage, strip1: CallbackStorage.CbStorage,
                             me: CallbackStorage.Handle)

  /** A handler's state and the effect on the arena of one of its operations. */
  datatype Step = Step(handler: Handler, effect: Effect)

  /**
   * The target is usable, both buffers have its count and notify this
   * handler, and the factor is in [0, 1] as setFactor asks of its callers.
   */
  predicate Wf(sh: Shape, h: Handler)
  {
    && AllOk(sh, h.target)
    && |h.strip0.pixels| == Count(sh, h.target) && |h.strip1.pixels| == Count(sh, h.target)
    && h.strip0.callback == CallbackStorage.Notify(h.me) && h.strip1.callback == CallbackStorage.Notify(h.me)
    && 0.0 <= h.factor <= 1.0
  }

  /** The constructor: two dark buffers of the target's count, both registered with this handler. */
  function NewHandler(sh: Shape, target: Surface, initialFactor: real, me: CallbackStorage.Handle): (h: Handler)
    requires AllOk(sh, target) && 0.0 <= initialFactor <= 1.0
    ensures Wf(sh, h) && h.target == target && h.factor == initialFactor
    ensures forall i :: 0 <= i < Count(sh, target) ==> h.strip0.pixels[i] == Off && h.strip1.pixels[i] == Off
  {
    var n := Count(sh, target);
    Handler(target, initialFactor,
            CallbackStorage.NewCbStorage(n, CallbackStorage.Notify(me)),
            CallbackStorage.NewCbStorage(n, CallbackStorage.Notify(me)), me)
  }

  /** The colour target index i gets: strip0's colour at i interpolated towards strip1's. */
  function Mix(h: Handler, i: nat): RGBW
    requires i < |h.strip0.pixels| && i < |h.strip1.pixels| && 0.0 <= h.factor <= 1.0
  {
    Interpolate(h.strip0.pixels[i], h.strip1.pixels[i], h.factor)
  }

  /**
   * The loop of updateLeds from counter i on: target index k gets the mix
   * at k. Pixels no target index from i on addresses keep their colour.
   */
  function MixFrom(arena: Arena, h: Handler, i: nat): (a: Arena)
    requires Wf(ShapeOf(arena), h) && i <= Count(ShapeOf(arena), h.target)
    ensures ShapeOf(a) == ShapeOf(arena)
    ensures forall id, p ::
              (id in arena && 0 <= p < |arena[id]| &&
               !Targeted(ShapeOf(arena), h.target, 0, i, Count(ShapeOf(arena), h.target), id, p)) ==>
              a[id][p] == arena[id][p]
    decreases Count(ShapeOf(arena), h.target) - i
  {
    if i == Count(ShapeOf(arena), h.target) then arena
    else
      var next := Set(arena, h.target, i, Mix(h, i), false).arena;
      assert Offset(0, i) == i;
      MixFrom(next, h, i + 1)
  }

  /** updateLeds: every target index set to its mix without flushing, then one flush of the target. */
  function UpdateLeds(h: Handler, arena: Arena): (e: Effect)
    requires Wf(ShapeOf(arena), h)
    ensures ShapeOf(e.arena) == ShapeOf(arena)
    ensures e.flushed == Flush(h.target)
    ensures forall id, p ::
              (id in arena && 0 <= p < |arena[id]| &&
               !Targeted(ShapeOf(arena), h.target, 0, 0, Count(ShapeOf(arena), h.target), id, p)) ==>
              e.arena[id][p] == arena[id][p]
  {
    Effect(MixFrom(arena, h, 0), Flush(h.target))
  }

  /** One turn of the updateLeds loop: write the mix at i to target index i. */
  lemma MixFromUnfold(arena: Arena, sh: Shape, h: Handler, i: nat)
    requires ShapeOf(arena) == sh && Wf(sh, h) && i < Count(sh, h.target)
    ensures var next := WriteAt(arena, Resolve(sh, h.target, i), Mix(h, i));
      && ShapeOf(next) == sh
      && MixFrom(arena, h, i) == MixFrom(next, h, i + 1)
  {
  }

  /** Target index i, once written, is not overwritten by the later turns. */
  lemma MixFromFirst(arena: Arena, sh: Shape, h: Handler, i: nat)
    requires ShapeOf(arena) == sh && Wf(sh, h) && i < Count(sh, h.target)
    requires Injective(sh, h.target, i, Count(sh, h.target))
    ensures PixelAt(MixFrom(arena, h, i), Resolve(sh, h.target, i)) == Mix(h, i)
  {
    MixFromUnfold(arena, sh, h, i);
    NotTargetedLater(sh, h.target, Count(sh, h.target), i + 1, i);
  }

  /**
   * On a target whose indices address distinct pixels, the loop from i on
   * leaves the mix at k in the pixel of every target index k >= i.
   */
  lemma {:induction false} MixFromShows(arena: Arena, sh: Shape, h: Handler, i: nat, k: nat)
    requires ShapeOf(arena) == sh && Wf(sh, h) && i <= k < Count(sh, h.target)
    requires Injective(sh, h.target, i, Count(sh, h.target))
    ensures PixelAt(MixFrom(arena, h, i), Resolve(sh, h.target, k)) == Mix(h, k)
    decreases Count(sh, h.target) - i
  {
    if k == i {
      MixFromFirst(arena, sh, h, i);
    } else {
      MixFromUnfold(arena, sh, h, i);
      var next := WriteAt(arena, Resolve(sh, h.target, i), Mix(h, i));
      MixFromShows(next, sh, h, i + 1, k);
    }
  }

  /**
   * After updateLeds, on a target whose indices address distinct pixels,
   * every target index reads strip0's colour interpolated towards strip1's
   * by the factor.
   */
  lemma UpdateLedsShowsMix(h: Handler, arena: Arena, k: nat)
    requires Wf(ShapeOf(arena), h) && Injective(ShapeOf(arena), h.target, 0, Count(ShapeOf(arena), h.target))
    requires k < Count(ShapeOf(arena), h.target)
    ensures Get(UpdateLeds(h, arena).arena, h.target, k) == Mix(h, k)
  {
    MixFromShows(arena, ShapeOf(arena), h, 0, k);
  }

  /** At factor 0 the target shows strip0, at factor 1 strip1. */
  lemma UpdateLedsAtEndpoints(h: Handler, arena: Arena, k: nat)
    requires Wf(ShapeOf(arena), h) && Injective(ShapeOf(arena), h.target, 0, Count(ShapeOf(arena), h.target))
    requires k < Count(ShapeOf(arena), h.target)
    ensures h.factor == 0.0 ==> Get(UpdateLeds(h, arena).arena, h.target, k) == h.strip0.pixels[k]
    ensures h.factor == 1.0 ==> Get(UpdateLeds(h, arena).arena, h.target, k) == h.strip1.pixels[k]
  {
    UpdateLedsShowsMix(h, arena, k);
    InterpolateEndpoints(h.strip0.pixels[k], h.strip1.pixels[k]);
  }

  /** The buffer whose changes cannot show: strip1 at factor 0, strip0 at factor 1. */
  predicate Skips(factor: real, source: Side)
  {
    (factor == 0.0 && source == Base1) || (factor == 1.0 && source == Base0)
  }

  /** onUpdate(source): ignore a buffer that cannot show, else recompute the whole target. */
  function OnUpdate(h: Handler, arena: Arena, source: Side): (e: Effect)
    requires Wf(ShapeOf(arena), h)
    ensures Skips(h.factor, source) ==> e == Effect(arena, [])
    ensures !Skips(h.factor, source) ==> e == UpdateLeds(h, arena)
  {
    if h.factor == 0.0 && source != Base0 then Effect(arena, [])
    else if h.factor == 1.0 && source != Base1 then Effect(arena, [])
    else UpdateLeds(h, arena)
  }

  /** At factor 0 strip1 does not enter the mix: any contents give the same target colour. */
  lemma HiddenStrip1(h: Handler, other: CallbackStorage.CbStorage, k: nat)
    requires h.factor == 0.0
    requires k < |h.strip0.pixels| && k < |h.strip1.pixels| && k < |other.pixels|
    ensures Mix(h.(strip1 := other), k) == Mix(h, k) == h.strip0.pixels[k]
  {
    InterpolateEndpoints(h.strip0.pixels[k], h.strip1.pixels[k]);
    InterpolateEndpoints(h.strip0.pixels[k], other.pixels[k]);
  }

  /** At factor 1 strip0 does not enter the mix: any contents give the same target colour. */
  lemma HiddenStrip0(h: Handler, other: CallbackStorage.CbStorage, k: nat)
    requires h.factor == 1.0
    requires k < |h.strip0.pixels| && k < |h.strip1.pixels| && k < |other.pixels|
    ensures Mix(h.(strip0 := other), k) == Mix(h, k) == h.strip1.pixels[k]
  {
    InterpolateEndpoints(h.strip0.pixels[k], h.strip1.pixels[k]);
    InterpolateEndpoints(other.pixels[k], h.strip1.pixels[k]);
  }

  /** The buffer a skipped notification comes from does not enter the mix: any contents give the same target. */
  lemma SkipIsSound(h: Handler, source: Side, other: CallbackStorage.CbStorage, k: nat)
    requires Skips(h.factor, source)
    requires k < |h.strip0.pixels| && k < |h.strip1.pixels| && k < |other.pixels|
    ensures source == Base1 ==> Mix(h.(strip1 := other), k) == Mix(h, k)
    ensures source == Base0 ==> Mix(h.(strip0 := other), k) == Mix(h, k)
  {
    if source == Base1 {
      HiddenStrip1(h, other, k);
    } else {
      HiddenStrip0(h, other, k);
    }
  }

  /** setFactor(newFactor, updateTarget): store the factor; recompute the target iff asked. */
  function SetFactor(h: Handler, arena: Arena, f: real, updateTarget: bool): (r: Step)
    requires Wf(ShapeOf(arena), h) && 0.0 <= f <= 1.0
    ensures r.handler == h.(factor := f) && Wf(ShapeOf(arena), r.handler)
    ensures updateTarget ==> r.effect == UpdateLeds(r.handler, arena)
    ensures !updateTarget ==> r.effect == Effect(arena, [])
  {
    var g := h.(factor := f);
    Step(g, if updateTarget then UpdateLeds(g, arena) else Effect(arena, []))
  }

  /** getFactor. */
  function GetFactor(h: Handler): (f: real)
    ensures (exists sh :: Wf(sh, h)) ==> 0.0 <= f <= 1.0
  {
    h.factor
  }

  /** getFactor returns what setFactor stored, whether or not the target was recomputed. */
  lemma GetAfterSetFactor(h: Handler, arena: Arena, f: real, updateTarget: bool)
    requires Wf(ShapeOf(arena), h) && 0.0 <= f <= 1.0
    ensures GetFactor(SetFactor(h, arena, f, updateTarget).handler) == f
  {
  }

  /**
   * setLed on getBaseLeds0() or getBaseLeds1(): the buffer stores the
   * colour; with flush, its updateLeds notifies this handler, whose
   * onUpdate then runs with that buffer as the source.
   */
  function SetBaseLed(h: Handler, arena: Arena, side: Side, i: u8, c: RGBW, flush: bool): (r: Step)
    requires Wf(ShapeOf(arena), h) && i < Count(ShapeOf(arena), h.target)
    ensures Wf(ShapeOf(arena), r.handler)
    ensures r.handler.target == h.target && r.handler.factor == h.factor && r.handler.me == h.me
    ensures side == Base0 ==> r.handler.strip0.pixels == h.strip0.pixels[i := c] && r.handler.strip1 == h.strip1
    ensures side == Base1 ==> r.handler.strip1.pixels == h.strip1.pixels[i := c] && r.handler.strip0 == h.strip0
    ensures !flush ==> r.effect == Effect(arena, [])
    ensures flush ==> r.effect == OnUpdate(r.handler, arena, side)
  {
    var strip := if side == Base0 then h.strip0 else h.strip1;
    var f := CallbackStorage.SetLed(strip, i, c, flush);
    var g := if side == Base0 then h.(strip0 := f.storage) else h.(strip1 := f.storage);
    assert f.storage.pixels == strip.pixels[i := c];
    Step(g, if f.calls == [] then Effect(arena, []) else OnUpdate(g, arena, side))
  }

  /** At factor 0, a flushing write to strip1 changes nothing and flushes nothing. */
  lemma HiddenWriteIsIgnored(h: Handler, arena: Arena, i: u8, c: RGBW)
    requires Wf(ShapeOf(arena), h) && i < Count(ShapeOf(arena), h.target) && h.factor == 0.0
    ensures SetBaseLed(h, arena, Base1, i, c, true).effect == Effect(arena, [])
  {
  }

  /** At factor 0, a flushing write to strip0 reaches the target at once. */
  lemma VisibleWriteReachesTarget(h: Handler, arena: Arena, i: u8, c: RGBW)
    requires Wf(ShapeOf(arena), h) && Injective(ShapeOf(arena), h.target, 0, Count(ShapeOf(arena), h.target))
    requires i < Count(ShapeOf(arena), h.target) && h.factor == 0.0
    ensures var r := SetBaseLed(h, arena, Base0, i, c, true);
      Get(r.effect.arena, h.target, i) == c && r.effect.flushed == Flush(h.target)
  {
    var r := SetBaseLed(h, arena, Base0, i, c, true);
    UpdateLedsAtEndpoints(r.handler, arena, i);
  }
}
