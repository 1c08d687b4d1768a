/**
 * LED surfaces (ILedStrip / ILedStripWithStorage) and the composition
 * adapters of VirtualLedStrip.h.
 *
 * Every LedBufferStorage is a leaf buffer in an arena, addressed by an id
 * in place of a C++ reference. Adapters form a tree over the leaves. A
 * surface operation either reads the arena or returns the new arena
 * together with the ids of the leaves whose updateLeds ran, in order.
 *
 * Counts and routing depend only on the arena's shape (the pixel count of
 * every leaf), which no write changes.
 */
module Surfaces {
  import opened Color

  /** Leaf storages are addressed by id instead of by reference. */
  type Id = nat

  /** The pixel vector of a LedBufferStorage; its count is a ledoffset_t (uint8_t). */
  type Buffer = b: seq<RGBW> | |b| < 0x100

  type Arena = map<Id, Buffer>

  /** What routing depends on: the pixel count of every leaf. */
  type Shape = map<Id, u8>

  /** The shape of an arena. */
  function ShapeOf(arena: Arena): (m: Shape)
    ensures m.Keys == arena.Keys
    ensures forall id :: id in arena ==> m[id] == |arena[id]|
  {
    map id | id in arena :: |arena[id]|
  }

  /**
   * A readable LED surface:
   *  - Storage: a LedBufferStorage leaf;
   *  - Empty / Concat: VirtualMultiLedStrip with no strips, and with a
   *    first strip followed by the multi-strip of the rest;
   *  - Passthrough, Mapped, Inversed: the single-base adapters.
   */
  datatype Surface =
    | Storage(id: Id)
    | Empty
    | Concat(first: Surface, rest: Surface)
    | Passthrough(base: Surface)
    | Mapped(base: Surface, indices: seq<u8>)
    | Inversed(base: Surface)

  /** The shape of a VirtualMultiLedStrip: the rest of a concatenation is again one. */
  predicate IsChain(s: Surface)
  {
    match s
    case Empty => true
    case Concat(_, rest) => IsChain(rest)
    case _ => false
  }

  /** Every referenced leaf exists, and every concatenation is a chain. */
  predicate Valid(sh: Shape, s: Surface)
  {
    match s
    case Storage(id) => id in sh
    case Empty => true
    case Concat(first, rest) => Valid(sh, first) && Valid(sh, rest) && IsChain(rest)
    case Passthrough(base) => Valid(sh, base)
    case Mapped(base, _) => Valid(sh, base)
    case Inversed(base) => Valid(sh, base)
  }

  /** The strips of a multi-strip, in constructor order. */
  function Parts(s: Surface): (ps: seq<Surface>)
    requires IsChain(s)
    ensures s.Empty? <==> ps == []
  {
    match s
    case Empty => []
    case Concat(first, rest) => [first] + Parts(rest)
  }

  /** VirtualMultiLedStrip<...>(parts...). */
  function Multi(parts: seq<Surface>): (s: Surface)
    ensures IsChain(s) && Parts(s) == parts
  {
    if parts == [] then Empty else Concat(parts[0], Multi(parts[1..]))
  }

  // ---------------------------------------------------------------------------
  // Count

  /**
   * getLedCount. Each adapter narrows to ledoffset_t: the sum of a
   * concatenation and the size of an index vector wrap modulo 0x100.
   */
  function Count(sh: Shape, s: Surface): (n: u8)
    requires Valid(sh, s)
    ensures s.Storage? ==> n == sh[s.id]
    ensures s.Empty? ==> n == 0
    ensures s.Mapped? ==> n == |s.indices| % 0x100
  {
    match s
    case Storage(id) => sh[id]
    case Empty => 0
    case Concat(first, rest) => (Count(sh, first) + Count(sh, rest)) % 0x100
    case Passthrough(base) => Count(sh, base)
    case Mapped(_, indices) => |indices| % 0x100
    case Inversed(base) => Count(sh, base)
  }

  /** The sum of the strip counts, without the uint8 narrowing. */
  function SumCounts(sh: Shape, parts: seq<Surface>): nat
    requires forall k :: 0 <= k < |parts| ==> Valid(sh, parts[k])
  {
    if parts == [] then 0 else Count(sh, parts[0]) + SumCounts(sh, parts[1..])
  }

  /** A multi-strip counts the sum of its strips' counts, modulo 0x100; no strips count 0. */
  lemma {:induction false} MultiCount(sh: Shape, parts: seq<Surface>)
    requires forall k :: 0 <= k < |parts| ==> Valid(sh, parts[k])
    ensures Valid(sh, Multi(parts))
    ensures Count(sh, Multi(parts)) == SumCounts(sh, parts) % 0x100
  {
    if parts != [] {
      var rest := parts[1..];
      assert forall k :: 0 <= k < |rest| ==> rest[k] == parts[k + 1];
      MultiCount(sh, rest);
      ModAdd(Count(sh, parts[0]), SumCounts(sh, rest));
    }
  }

  lemma ModAdd(a: nat, b: nat)
    ensures (a + b % 0x100) % 0x100 == (a + b) % 0x100
  {
  }

  /** The sum of the counts of a multi-strip's strips. */
  function ChainSum(sh: Shape, s: Surface): nat
    requires Valid(sh, s) && IsChain(s)
  {
    if s.Empty? then 0 else Count(sh, s.first) + ChainSum(sh, s.rest)
  }

  // ---------------------------------------------------------------------------
  // Routing

  /**
   * Where an index of a surface lands: a leaf pixel; Nowhere when it runs
   * past the last strip of a multi-strip (the empty tail ignores writes and
   * reads RGBW()); Fault when the code would index a vector out of range.
   */
  datatype Route = Pixel(id: Id, pos: nat) | Nowhere | Fault

  /** VirtualInversedLedStrip::calcOffset: `count - 1 - index` narrowed to uint8. */
  function CalcOffset(count: u8, index: u8): (o: u8)
    ensures index < count ==> o == count - 1 - index
  {
    (count - 1 - index) % 0x100
  }

  /** Mirroring is an involution on [0, count): it stays inside and undoes itself. */
  lemma CalcOffsetInvolution(count: u8, index: u8)
    requires index < count
    ensures CalcOffset(count, index) < count
    ensures CalcOffset(count, CalcOffset(count, index)) == index
  {
  }

  /** The leaf pixel that index `i` of `s` addresses. */
  function Resolve(sh: Shape, s: Surface, i: u8): (r: Route)
    requires Valid(sh, s)
    ensures r.Pixel? ==> r.id in sh && r.pos < sh[r.id]
  {
    match s
    case Storage(id) => if i < sh[id] then Pixel(id, i) else Fault
    case Empty => Nowhere
    case Concat(first, rest) =>
      var n := Count(sh, first);
      if i < n then Resolve(sh, first, i) else Resolve(sh, rest, i - n)
    case Passthrough(base) => Resolve(sh, base, i)
    case Mapped(base, indices) =>
      if i < |indices| then Resolve(sh, base, indices[i]) else Fault
    case Inversed(base) => Resolve(sh, base, CalcOffset(Count(sh, base), i))
  }

  /** The colour stored at a route; RGBW() where nothing is stored. */
  function PixelAt(arena: Arena, r: Route): RGBW
    requires r.Pixel? ==> r.id in arena && r.pos < |arena[r.id]|
  {
    if r.Pixel? then arena[r.id][r.pos] else Off
  }

  /** The arena with the pixel at a route replaced; unchanged where nothing is stored. */
  function WriteAt(arena: Arena, r: Route, c: RGBW): (a: Arena)
    requires r.Pixel? ==> r.id in arena && r.pos < |arena[r.id]|
    ensures ShapeOf(a) == ShapeOf(arena)
    ensures r.Pixel? ==> a[r.id][r.pos] == c
    ensures forall id, p :: id in arena && 0 <= p < |arena[id]| && Pixel(id, p) != r ==>
              a[id][p] == arena[id][p]
  {
    if r.Pixel? then arena[r.id := arena[r.id][r.pos := c]] else arena
  }

  // ---------------------------------------------------------------------------
  // getLed, setLed, updateLeds, following each class's own code

  /** The new arena and the leaves whose updateLeds ran, in order. */
  datatype Effect = Effect(arena: Arena, flushed: seq<Id>)

  /** updateLeds: every leaf below the surface, in constructor order. */
  function Flush(s: Surface): (ids: seq<Id>)
    ensures s.Storage? ==> ids == [s.id]
    ensures s.Empty? ==> ids == []
  {
    match s
    case Storage(id) => [id]
    case Empty => []
    case Concat(first, rest) => Flush(first) + Flush(rest)
    case Passthrough(base) => Flush(base)
    case Mapped(base, _) => Flush(base)
    case Inversed(base) => Flush(base)
  }

  function FlushAll(parts: seq<Surface>): seq<Id>
  {
    if parts == [] then [] else Flush(parts[0]) + FlushAll(parts[1..])
  }

  /** A multi-strip flushes each of its strips once, in constructor order. */
  lemma {:induction false} MultiFlush(parts: seq<Surface>)
    ensures Flush(Multi(parts)) == FlushAll(parts)
  {
    if parts != [] {
      MultiFlush(parts[1..]);
    }
  }

  /** getLed. */
  function Get(arena: Arena, s: Surface, i: u8): (c: RGBW)
    requires Valid(ShapeOf(arena), s) && Resolve(ShapeOf(arena), s, i) != Fault
    ensures c == PixelAt(arena, Resolve(ShapeOf(arena), s, i))
  {
    match s
    case Storage(id) => arena[id][i]
    case Empty => Off
    case Concat(first, rest) =>
      var n := Count(ShapeOf(arena), first);
      if i < n then Get(arena, first, i) else Get(arena, rest, i - n)
    case Passthrough(base) => Get(arena, base, i)
    case Mapped(base, indices) => Get(arena, base, indices[i])
    case Inversed(base) => Get(arena, base, CalcOffset(Count(ShapeOf(arena), base), i))
  }

  /**
   * setLed: the pixel the index addresses is replaced, and with `flush` the
   * leaf holding it runs updateLeds. The empty tail of a multi-strip drops
   * both the write and the flush.
   */
  function Set(arena: Arena, s: Surface, i: u8, c: RGBW, flush: bool): (e: Effect)
    requires Valid(ShapeOf(arena), s) && Resolve(ShapeOf(arena), s, i) != Fault
    ensures e.arena == WriteAt(arena, Resolve(ShapeOf(arena), s, i), c)
    ensures e.flushed == if flush && Resolve(ShapeOf(arena), s, i).Pixel?
                         then [Resolve(ShapeOf(arena), s, i).id] else []
  {
    match s
    case Storage(id) => Effect(arena[id := arena[id][i := c]], if flush then [id] else [])
    case Empty => Effect(arena, [])
    case Concat(first, rest) =>
      var n := Count(ShapeOf(arena), first);
      if i < n then Set(arena, first, i, c, flush) else Set(arena, rest, i - n, c, flush)
    case Passthrough(base) => Set(arena, base, i, c, flush)
    case Mapped(base, indices) => Set(arena, base, indices[i], c, flush)
    case Inversed(base) => Set(arena, base, CalcOffset(Count(ShapeOf(arena), base), i), c, flush)
  }

  /** Reading back an index that reaches a pixel gives the colour just written. */
  lemma GetAfterSet(arena: Arena, s: Surface, i: u8, c: RGBW, flush: bool)
    requires Valid(ShapeOf(arena), s) && Resolve(ShapeOf(arena), s, i).Pixel?
    ensures var a := Set(arena, s, i, c, flush).arena;
      ShapeOf(a) == ShapeOf(arena) && Get(a, s, i) == c
  {
  }

  /** Every index that addresses a different pixel reads back unchanged. */
  lemma GetAfterSetOther(arena: Arena, s: Surface, i: u8, j: u8, c: RGBW, flush: bool)
    requires Valid(ShapeOf(arena), s)
    requires Resolve(ShapeOf(arena), s, i) != Fault && Resolve(ShapeOf(arena), s, j) != Fault
    requires Resolve(ShapeOf(arena), s, j) != Resolve(ShapeOf(arena), s, i)
    ensures var a := Set(arena, s, i, c, flush).arena;
      ShapeOf(a) == ShapeOf(arena) && Get(a, s, j) == Get(arena, s, j)
  {
  }

  // ---------------------------------------------------------------------------
  // Routing of the individual adapters

  /**
   * A multi-strip routes an index below the first strip's count to the first
   * strip at the same index, and any other index to the rest, lowered by that
   * count. Reads and writes share the routing.
   */
  lemma ConcatRouting(sh: Shape, first: Surface, rest: Surface, i: u8)
    requires Valid(sh, Concat(first, rest))
    ensures i < Count(sh, first) ==> Resolve(sh, Concat(first, rest), i) == Resolve(sh, first, i)
    ensures i >= Count(sh, first) ==>
              Resolve(sh, Concat(first, rest), i) == Resolve(sh, rest, i - Count(sh, first))
  {
  }

  /** A passthrough forwards count, routing and flush unchanged. */
  lemma PassthroughForwards(sh: Shape, base: Surface, i: u8)
    requires Valid(sh, base)
    ensures Count(sh, Passthrough(base)) == Count(sh, base)
    ensures Resolve(sh, Passthrough(base), i) == Resolve(sh, base, i)
    ensures Flush(Passthrough(base)) == Flush(base)
  {
  }

  /** A mapped strip addresses base pixel `indices[i]` and nothing else. */
  lemma MappedRouting(sh: Shape, base: Surface, indices: seq<u8>, i: u8)
    requires Valid(sh, base) && i < |indices|
    ensures Resolve(sh, Mapped(base, indices), i) == Resolve(sh, base, indices[i])
    ensures Flush(Mapped(base, indices)) == Flush(base)
  {
  }

  /**
   * Writing index `i` of an inversed strip writes base index count - 1 - i,
   * so reading that base index gives the colour back.
   */
  lemma InversedSet(arena: Arena, base: Surface, i: u8, c: RGBW, flush: bool)
    requires Valid(ShapeOf(arena), base) && i < Count(ShapeOf(arena), base)
    requires Resolve(ShapeOf(arena), base, Count(ShapeOf(arena), base) - 1 - i).Pixel?
    ensures var a := Set(arena, Inversed(base), i, c, flush).arena;
      ShapeOf(a) == ShapeOf(arena) && Get(a, base, Count(ShapeOf(arena), base) - 1 - i) == c
  {
  }

  /** Inverting twice addresses the same pixels as the base. */
  lemma InversedTwice(sh: Shape, base: Surface, i: u8)
    requires Valid(sh, base) && i < Count(sh, base)
    ensures Resolve(sh, Inversed(Inversed(base)), i) == Resolve(sh, base, i)
  {
    CalcOffsetInvolution(Count(sh, base), i);
  }

  // ---------------------------------------------------------------------------
  // getAffectedLedStrip

  /**
   * getAffectedLedStrip of a multi-strip with at least one strip: the
   * position of the strip an offset falls into and the offset inside it.
   * Past the last strip the answer is the last strip, with the offset lowered
   * by every strip's count.
   */
  function AffectedStrip(sh: Shape, s: Surface, offset: u8): (r: (nat, u8))
    requires Valid(sh, s) && IsChain(s) && s.Concat?
    ensures r.0 < |Parts(s)|
  {
    var n := Count(sh, s.first);
    if offset < n then (0, offset)
    else if s.rest.Empty? then (0, offset - n)
    else
      var (k, local) := AffectedStrip(sh, s.rest, offset - n);
      (k + 1, local)
  }

  /**
   * The strip getAffectedLedStrip names is the one setLed and getLed use:
   * routing the offset through the multi-strip is routing the local offset
   * through that strip, unless the offset runs past every strip.
   */
  lemma {:induction false} AffectedStripRoutes(sh: Shape, s: Surface, offset: u8)
    requires Valid(sh, s) && IsChain(s) && s.Concat?
    ensures var (k, local) := AffectedStrip(sh, s, offset);
      Valid(sh, Parts(s)[k]) &&
      (Resolve(sh, s, offset) == Nowhere ||
       Resolve(sh, s, offset) == Resolve(sh, Parts(s)[k], local))
  {
    var n := Count(sh, s.first);
    if offset >= n && !s.rest.Empty? {
      AffectedStripRoutes(sh, s.rest, offset - n);
    }
  }

  /**
   * An offset at or past the sum of the strip counts names the last strip,
   * with the offset lowered by every strip's count.
   */
  lemma {:induction false} AffectedStripPastEnd(sh: Shape, s: Surface, offset: u8)
    requires Valid(sh, s) && IsChain(s) && s.Concat?
    requires offset >= ChainSum(sh, s)
    ensures AffectedStrip(sh, s, offset) == (|Parts(s)| - 1, offset - ChainSum(sh, s))
  {
    if !s.rest.Empty? {
      AffectedStripPastEnd(sh, s.rest, offset - Count(sh, s.first));
    }
  }

  /** An offset below the sum of the strip counts never runs past the last strip. */
  lemma {:induction false} AffectedStripInRange(sh: Shape, s: Surface, offset: u8)
    requires Valid(sh, s) && IsChain(s) && s.Concat?
    requires offset < ChainSum(sh, s)
    ensures var (k, local) := AffectedStrip(sh, s, offset);
      Valid(sh, Parts(s)[k]) &&
      local < Count(sh, Parts(s)[k]) &&
      Resolve(sh, s, offset) == Resolve(sh, Parts(s)[k], local)
  {
    var n := Count(sh, s.first);
    if offset >= n {
      AffectedStripInRange(sh, s.rest, offset - n);
    }
  }
}
