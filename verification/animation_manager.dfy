/**
 * AnimationManager: a queue of animations advanced by `update`. The clock
 * reading is a parameter. Each tick updates the animations that have
 * started, in queue order, flushes every surface they write once, and then
 * removes the ones whose end lies before the tick.
 */
module AnimationManager {
  import opened Color
  import opened Surfaces
  import opened Animations

  datatype Manager = Manager(queue: seq<Animation>)

  /** The constructor: an empty queue. */
  function NewManager(): (m: Manager)
    ensures Empty(m)
  {
    Manager([])
  }

  /** empty(): no animation is queued. */
  predicate Empty(m: Manager)
    ensures Empty(m) <==> forall a :: a !in m.queue
  {
    assert |m.queue| > 0 ==> m.queue[0] in m.queue;
    |m.queue| == 0
  }

  /** addAnimation: append at the end of the queue. */
  function AddAnimation(m: Manager, a: Animation): (r: Manager)
    ensures |r.queue| == |m.queue| + 1 && r.queue[|m.queue|] == a && r.queue[..|m.queue|] == m.queue
    ensures !Empty(r)
  {
    Manager(m.queue + [a])
  }

  /** clear: drop every animation without updating any. */
  function Clear(m: Manager): (r: Manager)
    ensures Empty(r)
  {
    Manager([])
  }

  /** Every animation of the queue can run on the shape. */
  predicate AllReady(sh: Shape, q: seq<Animation>)
  {
    forall k :: 0 <= k < |q| ==> Ready(sh, q[k])
  }

  /** Every animation of the queue has a defined update at `now`. */
  predicate AllRunnable(q: seq<Animation>, now: u32)
  {
    forall k :: 0 <= k < |q| ==> Runnable(q[k], now)
  }

  /** Not started yet at `now`: skipped by the tick. */
  predicate Pending(a: Animation, now: u32)
  {
    now < a.start
  }

  /** Started and past its end at `now`: removed by the tick. */
  predicate Expired(a: Animation, now: u32)
  {
    !Pending(a, now) && now > EndTime(a.start, a.duration)
  }

  /** The first loop of update so far: the queue with the animations updated, and the arena. */
  datatype Pass = Pass(queue: seq<Animation>, arena: Arena)

  /** The pixel a queue entry writes: Nowhere for one that cannot run on the shape. */
  function Addr(sh: Shape, a: Animation): (r: Route)
    ensures Ready(sh, a) ==> r == Spot(sh, a)
  {
    if Ready(sh, a) then Spot(sh, a) else Nowhere
  }

  /**
   * One turn of the first loop of update: an animation that has not started
   * is skipped, any other is updated. The queue entries a tick accepts can
   * all run at its instant; the loop skips one that could not (a bad index,
   * or a fade of duration 0 at its start), so that it needs no precondition
   * of its own.
   */
  function Turn(p: Pass, now: u32, i: nat): (r: Pass)
    requires i < |p.queue|
    ensures |r.queue| == |p.queue| && ShapeOf(r.arena) == ShapeOf(p.arena)
    ensures forall k :: 0 <= k < |p.queue| && k != i ==> r.queue[k] == p.queue[k]
    ensures SameSlot(r.queue[i], p.queue[i])
    ensures Pending(p.queue[i], now) ==> r == p
    ensures forall id, pos :: (id in p.arena && 0 <= pos < |p.arena[id]| &&
                               Pixel(id, pos) != Addr(ShapeOf(p.arena), p.queue[i])) ==>
              r.arena[id][pos] == p.arena[id][pos]
  {
    var a := p.queue[i];
    if Pending(a, now) || !Ready(ShapeOf(p.arena), a) || !Runnable(a, now) then p
    else
      var s := Animations.Update(a, p.arena, now);
      Pass(p.queue[i := s.anim], s.arena)
  }

  /** The updates of the first loop of update from counter i on. */
  function UpdateFrom(p: Pass, now: u32, i: nat): (r: Pass)
    requires i <= |p.queue|
    ensures |r.queue| == |p.queue| && ShapeOf(r.arena) == ShapeOf(p.arena)
    ensures forall k :: 0 <= k < |p.queue| ==> SameSlot(r.queue[k], p.queue[k])
    ensures forall k :: 0 <= k < |p.queue| && (k < i || Pending(p.queue[k], now)) ==> r.queue[k] == p.queue[k]
    decreases |p.queue| - i
  {
    if i == |p.queue| then p
    else UpdateFrom(Turn(p, now, i), now, i + 1)
  }

  /** An update keeps what makes an animation runnable. */
  lemma SameSlotReady(sh: Shape, a: Animation, b: Animation)
    requires SameSlot(a, b)
    ensures Ready(sh, a) <==> Ready(sh, b)
  {
  }

  /** No started animation from queue position i on addresses the pixel `r`. */
  predicate Unaddressed(q: seq<Animation>, sh: Shape, now: u32, i: nat, r: Route)
  {
    forall k :: i <= k < |q| && !Pending(q[k], now) ==> Addr(sh, q[k]) != r
  }

  /** The pixel `r`, which no started animation from i on addresses, keeps its colour through the loop. */
  lemma {:induction false} UpdateFromKeeps(p: Pass, sh: Shape, now: u32, i: nat, r: Route)
    requires ShapeOf(p.arena) == sh && i <= |p.queue|
    requires r.Pixel? && r.id in sh && r.pos < sh[r.id]
    requires Unaddressed(p.queue, sh, now, i, r)
    ensures PixelAt(UpdateFrom(p, now, i).arena, r) == PixelAt(p.arena, r)
    decreases |p.queue| - i
  {
    if i < |p.queue| {
      var t := Turn(p, now, i);
      UpdateFromUnfold(p, now, i);
      TurnKeeps(p, sh, now, i, r);
      UpdateFromKeeps(t, sh, now, i + 1, r);
    } else {
      assert UpdateFrom(p, now, i) == p;
    }
  }

  /** The loop from counter i is turn i followed by the loop from i + 1. */
  lemma UpdateFromUnfold(p: Pass, now: u32, i: nat)
    requires i < |p.queue|
    ensures UpdateFrom(p, now, i).arena == UpdateFrom(Turn(p, now, i), now, i + 1).arena
  {
  }

  /** One turn keeps the pixel `r` that no started animation from i on addresses, and that fact for the rest. */
  lemma TurnKeeps(p: Pass, sh: Shape, now: u32, i: nat, r: Route)
    requires ShapeOf(p.arena) == sh && i < |p.queue|
    requires r.Pixel? && r.id in sh && r.pos < sh[r.id]
    requires Unaddressed(p.queue, sh, now, i, r)
    ensures ShapeOf(Turn(p, now, i).arena) == sh
    ensures PixelAt(Turn(p, now, i).arena, r) == PixelAt(p.arena, r)
    ensures Unaddressed(Turn(p, now, i).queue, sh, now, i + 1, r)
  {
    TurnKeepsUnaddressed(p, now, i, sh, r);
  }

  /**
   * Queue entry k is a started fade that can run, whose pixel `r` no later
   * started animation addresses, and `c` is its colour at `now`.
   */
  predicate LastFade(q: seq<Animation>, sh: Shape, now: u32, k: nat, r: Route, c: RGBW)
  {
    && k < |q| && Ready(sh, q[k]) && Runnable(q[k], now) && q[k].kind.Fade? && !Pending(q[k], now)
    && r.Pixel? && r == Spot(sh, q[k])
    && c == FadeColor(q[k], q[k].kind.from, q[k].kind.to, now)
    && Unaddressed(q, sh, now, k + 1, r)
  }

  /** The turn of a started fade writes its colour to its pixel. */
  lemma FadeTurnWrites(p: Pass, sh: Shape, now: u32, k: nat, r: Route, c: RGBW)
    requires ShapeOf(p.arena) == sh && LastFade(p.queue, sh, now, k, r, c)
    ensures PixelAt(Turn(p, now, k).arena, r) == c
  {
    var a := p.queue[k];
    assert Animations.Update(a, p.arena, now) == FadeUpdate(a, p.arena, now);
  }

  /** A turn changes no queue entry after its own. */
  lemma TurnKeepsUnaddressed(p: Pass, now: u32, i: nat, sh: Shape, r: Route)
    requires i < |p.queue| && Unaddressed(p.queue, sh, now, i + 1, r)
    ensures Unaddressed(Turn(p, now, i).queue, sh, now, i + 1, r)
  {
    var q := Turn(p, now, i).queue;
    forall j | i + 1 <= j < |q| && !Pending(q[j], now) ensures Addr(sh, q[j]) != r {
      assert q[j] == p.queue[j];
    }
  }

  /** The turn of the last fade on its pixel writes it, and no later turn overwrites it. */
  lemma FadeLastTurn(p: Pass, sh: Shape, now: u32, k: nat, r: Route, c: RGBW)
    requires ShapeOf(p.arena) == sh && LastFade(p.queue, sh, now, k, r, c)
    ensures PixelAt(UpdateFrom(p, now, k).arena, r) == c
  {
    var t := Turn(p, now, k);
    UpdateFromUnfold(p, now, k);
    FadeTurnWrites(p, sh, now, k, r, c);
    TurnKeepsUnaddressed(p, now, k, sh, r);
    UpdateFromKeeps(t, sh, now, k + 1, r);
  }

  /** The first loop of update from counter i up to, not including, counter k. */
  function UpdateUpTo(p: Pass, now: u32, i: nat, k: nat): (r: Pass)
    requires i <= k <= |p.queue|
    ensures |r.queue| == |p.queue| && ShapeOf(r.arena) == ShapeOf(p.arena)
    ensures forall j :: k <= j < |p.queue| ==> r.queue[j] == p.queue[j]
    decreases k - i
  {
    if i == k then p else UpdateUpTo(Turn(p, now, i), now, i + 1, k)
  }

  /** The loop from counter i is the turns up to k followed by the loop from k. */
  lemma {:induction false} UpdateFromSplit(p: Pass, now: u32, i: nat, k: nat)
    requires i <= k <= |p.queue|
    ensures UpdateFrom(p, now, i) == UpdateFrom(UpdateUpTo(p, now, i, k), now, k)
    decreases k - i
  {
    if i < k {
      UpdateFromSplit(Turn(p, now, i), now, i + 1, k);
    }
  }

  /** The turns before the last fade's own keep it the last fade on its pixel. */
  lemma LastFadeUpTo(p: Pass, sh: Shape, now: u32, i: nat, k: nat, r: Route, c: RGBW)
    requires ShapeOf(p.arena) == sh && i <= k && LastFade(p.queue, sh, now, k, r, c)
    ensures ShapeOf(UpdateUpTo(p, now, i, k).arena) == sh && LastFade(UpdateUpTo(p, now, i, k).queue, sh, now, k, r, c)
  {
    var q := UpdateUpTo(p, now, i, k).queue;
    forall j | k + 1 <= j < |q| && !Pending(q[j], now) ensures Addr(sh, q[j]) != r {
      assert q[j] == p.queue[j];
    }
  }

  /**
   * Animations are updated in queue order: the pixel of a started fade that
   * no later started animation addresses ends the loop with that fade's
   * colour.
   */
  lemma FadeLastWins(p: Pass, sh: Shape, now: u32, i: nat, k: nat, r: Route, c: RGBW)
    requires ShapeOf(p.arena) == sh && i <= k && LastFade(p.queue, sh, now, k, r, c)
    ensures PixelAt(UpdateFrom(p, now, i).arena, r) == c
  {
    UpdateFromSplit(p, now, i, k);
    LastFadeUpTo(p, sh, now, i, k, r, c);
    FadeLastTurn(UpdateUpTo(p, now, i, k), sh, now, k, r, c);
  }

  /** The indices below `i` marked for removal, in ascending order. */
  predicate Ascending(drops: seq<nat>)
  {
    forall j, k :: 0 <= j < k < |drops| ==> drops[j] < drops[k]
  }

  /**
   * dropIndex as the first loop of update collects it from counter i on.
   * Marks, like the set of touched surfaces, depend only on the start,
   * duration and target of each animation, which updates never change, so
   * both are computed from the queue before the updates.
   */
  function Marks(q: seq<Animation>, now: u32, i: nat): (drops: seq<nat>)
    requires i <= |q|
    ensures Ascending(drops)
    ensures forall k :: 0 <= k < |drops| ==> i <= drops[k] < |q|
    ensures forall d :: d in drops <==> i <= d < |q| && Expired(q[d], now)
    decreases |q| - i
  {
    if i == |q| then []
    else (if Expired(q[i], now) then [i] else []) + Marks(q, now, i + 1)
  }

  /** affectedLeds as the first loop of update collects it from counter i on. */
  function Touched(q: seq<Animation>, now: u32, i: nat): (ts: set<Surface>)
    requires i <= |q|
    ensures forall s :: s in ts <==> exists k :: i <= k < |q| && !Pending(q[k], now) && q[k].target == s
    decreases |q| - i
  {
    if i == |q| then {}
    else (if Pending(q[i], now) then {} else {q[i].target}) + Touched(q, now, i + 1)
  }

  /** The survivors of removing the indices in `gone`, in their queue order. */
  function Survivors(q: seq<Animation>, gone: set<nat>): (r: seq<Animation>)
    ensures |r| <= |q|
  {
    if |q| == 0 then []
    else Survivors(q[..|q| - 1], gone) + (if |q| - 1 in gone then [] else [q[|q| - 1]])
  }

  /** Appending animations past every removed index keeps them all. */
  lemma {:induction false} SurvivorsKeepTail(q: seq<Animation>, t: seq<Animation>, gone: set<nat>)
    requires forall d :: d in gone ==> d < |q|
    ensures Survivors(q + t, gone) == Survivors(q, gone) + t
    decreases |t|
  {
    if |t| == 0 {
      assert q + t == q;
    } else {
      var n := |t| - 1;
      assert (q + t)[..|q + t| - 1] == q + t[..n];
      assert (q + t)[|q + t| - 1] == t[n];
      assert |q + t| - 1 !in gone;
      SurvivorsKeepTail(q, t[..n], gone);
      assert t == t[..n] + [t[n]];
    }
  }

  /** Erasing index d, above every other removed index, is removing d along with them. */
  lemma EraseOne(q: seq<Animation>, d: nat, gone: set<nat>)
    requires d < |q| && forall g :: g in gone ==> g < d
    ensures Survivors(q[..d] + q[d + 1..], gone) == Survivors(q, gone + {d})
  {
    SurvivorsKeepTail(q[..d], q[d + 1..], gone);
    assert q == q[..d + 1] + q[d + 1..];
    SurvivorsKeepTail(q[..d + 1], q[d + 1..], gone + {d});
    SurvivorsDropLast(q[..d + 1], gone);
    assert q[..d + 1][..d] == q[..d];
  }

  /** Removing the last index, above every other removed one, leaves the survivors of the rest. */
  lemma SurvivorsDropLast(q: seq<Animation>, gone: set<nat>)
    requires |q| > 0 && forall g :: g in gone ==> g < |q| - 1
    ensures Survivors(q, gone + {|q| - 1}) == Survivors(q[..|q| - 1], gone)
  {
    SurvivorsSame(q[..|q| - 1], gone, gone + {|q| - 1});
  }

  /** Survivors only look at the removed indices below the queue length. */
  lemma {:induction false} SurvivorsSame(q: seq<Animation>, g1: set<nat>, g2: set<nat>)
    requires forall d :: d < |q| ==> (d in g1 <==> d in g2)
    ensures Survivors(q, g1) == Survivors(q, g2)
    decreases |q|
  {
    if |q| > 0 {
      SurvivorsSame(q[..|q| - 1], g1, g2);
    }
  }

  /** Removing nothing keeps the whole queue. */
  lemma {:induction false} SurvivorsNone(q: seq<Animation>)
    ensures Survivors(q, {}) == q
    decreases |q|
  {
    if |q| > 0 {
      SurvivorsNone(q[..|q| - 1]);
    }
  }

  /** The marks of indices below `n`, in ascending order. */
  predicate DropsBelow(drops: seq<nat>, n: nat)
  {
    Ascending(drops) && forall k :: 0 <= k < |drops| ==> drops[k] < n
  }

  /** The while-loop of update: erase the marked indices from the last one back. */
  function Evict(q: seq<Animation>, drops: seq<nat>): (r: seq<Animation>)
    requires DropsBelow(drops, |q|)
    ensures |r| == |q| - |drops|
    ensures forall a :: a in r ==> a in q
    decreases |drops|
  {
    if |drops| == 0 then q
    else
      var d := drops[|drops| - 1];
      Evict(q[..d] + q[d + 1..], drops[..|drops| - 1])
  }

  /** Erasing back to front removes exactly the marked animations and keeps the rest in order. */
  lemma {:induction false} EvictIsSurvivors(q: seq<Animation>, drops: seq<nat>)
    requires DropsBelow(drops, |q|)
    ensures Evict(q, drops) == Survivors(q, set k | 0 <= k < |drops| :: drops[k])
    decreases |drops|
  {
    var gone := set k | 0 <= k < |drops| :: drops[k];
    if |drops| == 0 {
      assert gone == {};
      SurvivorsNone(q);
    } else {
      var n := |drops| - 1;
      var d := drops[n];
      var rest := set k | 0 <= k < n :: drops[..n][k];
      EvictIsSurvivors(q[..d] + q[d + 1..], drops[..n]);
      assert gone == rest + {d} by {
        forall x | x in gone ensures x in rest + {d} {
          var k :| 0 <= k < |drops| && drops[k] == x;
          if k < n { assert drops[..n][k] == x; }
        }
      }
      EraseOne(q, d, rest);
    }
  }

  /** What a tick produces: the new manager, the arena, and the surfaces whose updateLeds ran. */
  datatype TickResult = TickResult(manager: Manager, arena: Arena, flushed: set<Surface>)

  /** The queue positions of the animations that have started and ended before `now`. */
  function ExpiredAt(q: seq<Animation>, now: u32): set<nat>
  {
    set k | 0 <= k < |q| && Expired(q[k], now)
  }

  /**
   * update(), with the clock reading `now`: advance every animation that
   * has started, in queue order; flush each surface written, once; then
   * remove the animations that have started and ended before `now`,
   * keeping the others in order.
   */
  function Tick(m: Manager, arena: Arena, now: u32): (t: TickResult)
    requires AllReady(ShapeOf(arena), m.queue) && AllRunnable(m.queue, now)
    ensures ShapeOf(t.arena) == ShapeOf(arena) && |t.manager.queue| <= |m.queue|
    ensures forall s :: s in t.flushed <==>
              exists k :: 0 <= k < |m.queue| && !Pending(m.queue[k], now) && m.queue[k].target == s
  {
    var p := UpdateFrom(Pass(m.queue, arena), now, 0);
    var drops := Marks(m.queue, now, 0);
    EvictIsSurvivors(p.queue, drops);
    TickResult(Manager(Evict(p.queue, drops)), p.arena, Touched(m.queue, now, 0))
  }

  /**
   * A tick removes exactly the animations that have started and ended
   * before `now`, keeps the others in queue order, each updated once if
   * it has started, and leaves them all runnable.
   */
  lemma TickQueue(m: Manager, arena: Arena, now: u32)
    requires AllReady(ShapeOf(arena), m.queue) && AllRunnable(m.queue, now)
    ensures Tick(m, arena, now).manager.queue == Survivors(Advanced(m, arena, now), ExpiredAt(m.queue, now))
    ensures AllReady(ShapeOf(arena), Tick(m, arena, now).manager.queue)
  {
    var p := UpdateFrom(Pass(m.queue, arena), now, 0);
    var drops := Marks(m.queue, now, 0);
    EvictIsSurvivors(p.queue, drops);
    MarksAreExpired(m.queue, now);
    AdvancedReady(m, arena, now);
    SurvivorsReady(p.queue, ExpiredAt(m.queue, now), ShapeOf(arena));
  }

  /** The marks of a whole pass are the expired positions. */
  lemma MarksAreExpired(q: seq<Animation>, now: u32)
    ensures (set k | 0 <= k < |Marks(q, now, 0)| :: Marks(q, now, 0)[k]) == ExpiredAt(q, now)
  {
    var drops := Marks(q, now, 0);
    forall x | x in ExpiredAt(q, now) ensures x in (set k | 0 <= k < |drops| :: drops[k]) {
      var k :| 0 <= k < |drops| && drops[k] == x;
    }
  }

  /** The updates keep every animation of the queue runnable. */
  lemma AdvancedReady(m: Manager, arena: Arena, now: u32)
    requires AllReady(ShapeOf(arena), m.queue)
    ensures AllReady(ShapeOf(arena), UpdateFrom(Pass(m.queue, arena), now, 0).queue)
  {
    var q := UpdateFrom(Pass(m.queue, arena), now, 0).queue;
    forall k | 0 <= k < |q| ensures Ready(ShapeOf(arena), q[k]) {
      SameSlotReady(ShapeOf(arena), q[k], m.queue[k]);
    }
  }

  lemma {:induction false} SurvivorsReady(q: seq<Animation>, gone: set<nat>, sh: Shape)
    requires AllReady(sh, q)
    ensures AllReady(sh, Survivors(q, gone))
    decreases |q|
  {
    if |q| > 0 {
      SurvivorsReady(q[..|q| - 1], gone, sh);
    }
  }

  /** The queue after the first loop of a tick: every animation that has started updated once. */
  function Advanced(m: Manager, arena: Arena, now: u32): (q: seq<Animation>)
    requires AllReady(ShapeOf(arena), m.queue)
    ensures |q| == |m.queue|
    ensures forall k :: 0 <= k < |q| ==> SameSlot(q[k], m.queue[k])
    ensures forall k :: 0 <= k < |q| && Pending(m.queue[k], now) ==> q[k] == m.queue[k]
  {
    UpdateFrom(Pass(m.queue, arena), now, 0).queue
  }

  /**
   * After a tick, the pixel of a started fade that no later started
   * animation addresses shows that fade's colour at `now`.
   */
  lemma TickLastFadeWins(m: Manager, arena: Arena, now: u32, k: nat)
    requires AllReady(ShapeOf(arena), m.queue) && AllRunnable(m.queue, now) && k < |m.queue|
    requires m.queue[k].kind.Fade? && !Pending(m.queue[k], now) && Spot(ShapeOf(arena), m.queue[k]).Pixel?
    requires forall j :: k < j < |m.queue| && !Pending(m.queue[j], now) ==>
               Spot(ShapeOf(arena), m.queue[j]) != Spot(ShapeOf(arena), m.queue[k])
    ensures PixelAt(Tick(m, arena, now).arena, Spot(ShapeOf(arena), m.queue[k])) ==
            FadeColor(m.queue[k], m.queue[k].kind.from, m.queue[k].kind.to, now)
  {
    var a := m.queue[k];
    FadeLastWins(Pass(m.queue, arena), ShapeOf(arena), now, 0, k, Spot(ShapeOf(arena), a),
                 FadeColor(a, a.kind.from, a.kind.to, now));
  }

  /** A tick changes no pixel that no started animation addresses. */
  lemma TickKeepsOthers(m: Manager, arena: Arena, now: u32, id: Id, pos: nat)
    requires AllReady(ShapeOf(arena), m.queue) && AllRunnable(m.queue, now) && id in arena && pos < |arena[id]|
    requires forall k :: 0 <= k < |m.queue| && !Pending(m.queue[k], now) ==> Spot(ShapeOf(arena), m.queue[k]) != Pixel(id, pos)
    ensures Tick(m, arena, now).arena[id][pos] == arena[id][pos]
  {
    UpdateFromKeeps(Pass(m.queue, arena), ShapeOf(arena), now, 0, Pixel(id, pos));
  }

  /**
   * At its end instant an animation is updated but kept; on the first tick
   * after its end it is updated once more and removed.
   */
  lemma EndInstantKeeps(a: Animation, now: u32)
    requires a.start + a.duration < Wrap
    ensures now == EndTime(a.start, a.duration) ==> !Pending(a, now) && !Expired(a, now)
    ensures now > EndTime(a.start, a.duration) ==> Expired(a, now)
  {
  }
}
