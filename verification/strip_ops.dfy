/**
 * The operations ILedStrip and ILedStripWithStorage define on top of
 * getLed / setLed / updateLeds (setRange, setAll, clear, isAnyActive,
 * copyTo), and the LedBufferStorage leaf itself.
 *
 * Each loop of the library is a recursive function over the loop counter.
 */
module StripOps {
  import opened Color
  import opened Surfaces

  // ---------------------------------------------------------------------------
  // LedBufferStorage

  /** `LedBufferStorage(ledCount)`: `ledCount` pixels, all RGBW(). */
  function NewStorage(count: u8): (b: Buffer)
    ensures |b| == count
    ensures forall i :: 0 <= i < |b| ==> b[i] == Off
  {
    seq(count, _ => Off)
  }

  /** A fresh storage counts its constructor argument and is not active. */
  lemma NewStorageIsDark(arena: Arena, id: Id, count: u8)
    requires id in arena && arena[id] == NewStorage(count)
    ensures Count(ShapeOf(arena), Storage(id)) == count
    ensures AllOk(ShapeOf(arena), Storage(id)) && ScanOk(arena, Storage(id), 0)
    ensures !IsAnyActive(arena, Storage(id))
  {
  }

  /**
   * setLed on a storage leaf replaces exactly one pixel and keeps the count;
   * with `flush` it runs updateLeds once, which for a plain storage changes
   * nothing further.
   */
  lemma StorageSet(arena: Arena, id: Id, i: u8, c: RGBW, flush: bool)
    requires id in arena && i < |arena[id]|
    ensures var e := Set(arena, Storage(id), i, c, flush);
      && e.arena == arena[id := arena[id][i := c]]
      && e.flushed == (if flush then [id] else [])
      && Count(ShapeOf(e.arena), Storage(id)) == Count(ShapeOf(arena), Storage(id))
  {
  }

  // ---------------------------------------------------------------------------
  // setRange, setAll, clear

  /** Index `index + i` as ledoffset_t arithmetic computes it. */
  function Offset(index: u8, i: int): u8
  {
    (index + i) % 0x100
  }

  /** Every index a range writes reaches a pixel or the empty tail, never out of range. */
  predicate RangeOk(sh: Shape, s: Surface, index: u8, count: u8)
    requires Valid(sh, s)
  {
    forall i :: 0 <= i < count ==> Resolve(sh, s, Offset(index, i)) != Fault
  }

  /** Some index `index + i` with lo <= i < hi addresses the given pixel. */
  predicate Targeted(sh: Shape, s: Surface, index: u8, lo: int, hi: int, id: Id, p: nat)
    requires Valid(sh, s)
  {
    exists i :: lo <= i < hi && Resolve(sh, s, Offset(index, i)) == Pixel(id, p)
  }

  /**
   * The loop of setRange from counter `i` on: every pixel an index
   * `index + k` (i <= k < count) addresses becomes `c`; every other pixel
   * keeps its colour.
   */
  function FillFrom(arena: Arena, s: Surface, index: u8, count: u8, i: nat, c: RGBW): (a: Arena)
    requires Valid(ShapeOf(arena), s) && RangeOk(ShapeOf(arena), s, index, count) && i <= count
    ensures ShapeOf(a) == ShapeOf(arena)
    ensures forall k :: i <= k < count && Resolve(ShapeOf(arena), s, Offset(index, k)).Pixel? ==>
              PixelAt(a, Resolve(ShapeOf(arena), s, Offset(index, k))) == c
    ensures forall id, p ::
              (id in arena && 0 <= p < |arena[id]| && !Targeted(ShapeOf(arena), s, index, i, count, id, p)) ==>
              a[id][p] == arena[id][p]
    decreases count - i
  {
    if i == count then arena
    else
      FillFrom(Set(arena, s, Offset(index, i), c, false).arena, s, index, count, i + 1, c)
  }

  /**
   * setRange(index, count, color, flush): `count` writes without flush at
   * `index + i` (uint8 arithmetic), then one updateLeds iff `flush`.
   */
  function SetRange(arena: Arena, s: Surface, index: u8, count: u8, c: RGBW, flush: bool): (e: Effect)
    requires Valid(ShapeOf(arena), s) && RangeOk(ShapeOf(arena), s, index, count)
    ensures ShapeOf(e.arena) == ShapeOf(arena)
    ensures forall k :: 0 <= k < count && Resolve(ShapeOf(arena), s, Offset(index, k)).Pixel? ==>
              PixelAt(e.arena, Resolve(ShapeOf(arena), s, Offset(index, k))) == c
    ensures forall id, p ::
              (id in arena && 0 <= p < |arena[id]| && !Targeted(ShapeOf(arena), s, index, 0, count, id, p)) ==>
              e.arena[id][p] == arena[id][p]
    ensures e.flushed == if flush then Flush(s) else []
  {
    Effect(FillFrom(arena, s, index, count, 0, c), if flush then Flush(s) else [])
  }

  /** Every index in the range that reaches a pixel reads back as the range colour. */
  lemma SetRangeReadBack(arena: Arena, s: Surface, index: u8, count: u8, c: RGBW, flush: bool, k: nat)
    requires Valid(ShapeOf(arena), s) && RangeOk(ShapeOf(arena), s, index, count)
    requires k < count && Resolve(ShapeOf(arena), s, Offset(index, k)).Pixel?
    ensures var a := SetRange(arena, s, index, count, c, flush).arena;
      ShapeOf(a) == ShapeOf(arena) && Get(a, s, Offset(index, k)) == c
  {
  }

  /** An empty range writes nothing, and flushes exactly as asked. */
  lemma SetRangeEmpty(arena: Arena, s: Surface, index: u8, c: RGBW, flush: bool)
    requires Valid(ShapeOf(arena), s)
    ensures SetRange(arena, s, index, 0, c, flush) == Effect(arena, if flush then Flush(s) else [])
  {
    var a := SetRange(arena, s, index, 0, c, flush).arena;
    assert a.Keys == arena.Keys;
    forall id | id in arena ensures a[id] == arena[id] {
      assert |a[id]| == |arena[id]|;
    }
  }

  /** On a storage leaf, position p after a range that does not wrap: the colour inside, the old one outside. */
  lemma SetRangeOnStoragePixel(arena: Arena, id: Id, index: u8, count: u8, c: RGBW, flush: bool, p: nat)
    requires id in arena && index + count <= |arena[id]| && p < |arena[id]|
    requires RangeOk(ShapeOf(arena), Storage(id), index, count)
    ensures SetRange(arena, Storage(id), index, count, c, flush).arena[id][p] ==
              if index <= p < index + count then c else arena[id][p]
  {
    var sh := ShapeOf(arena);
    if index <= p < index + count {
      assert Resolve(sh, Storage(id), Offset(index, p - index)) == Pixel(id, p);
    } else {
      forall i | 0 <= i < count ensures Resolve(sh, Storage(id), Offset(index, i)) != Pixel(id, p) {
        assert Offset(index, i) == index + i;
      }
    }
  }

  /** On a storage leaf, a range that does not wrap is a splice of `count` copies of the colour. */
  lemma SetRangeOnStorage(arena: Arena, id: Id, index: u8, count: u8, c: RGBW, flush: bool)
    requires id in arena && index + count <= |arena[id]|
    ensures RangeOk(ShapeOf(arena), Storage(id), index, count)
    ensures var b := arena[id];
      SetRange(arena, Storage(id), index, count, c, flush).arena[id] ==
        b[..index] + seq(count, _ => c) + b[index + count..]
  {
    StorageRangeOk(arena, id, index, count);
    var r := SetRange(arena, Storage(id), index, count, c, flush).arena[id];
    var want := arena[id][..index] + seq(count, _ => c) + arena[id][index + count..];
    assert |r| == |want|;
    forall p | 0 <= p < |want| ensures r[p] == want[p] {
      SetRangeOnStoragePixel(arena, id, index, count, c, flush, p);
      SpliceAt(arena[id], index, count, c, p);
    }
  }

  /** On a storage leaf, every index of a range that does not wrap reaches a pixel. */
  lemma StorageRangeOk(arena: Arena, id: Id, index: u8, count: u8)
    requires id in arena && index + count <= |arena[id]|
    ensures RangeOk(ShapeOf(arena), Storage(id), index, count)
  {
    forall i | 0 <= i < count ensures Resolve(ShapeOf(arena), Storage(id), Offset(index, i)) != Fault {
      assert Offset(index, i) == index + i;
    }
  }

  /** Position p of `b` with `count` elements from `index` replaced by `c`. */
  lemma SpliceAt<T>(b: seq<T>, index: nat, count: nat, c: T, p: nat)
    requires index + count <= |b| && p < |b|
    ensures (b[..index] + seq(count, _ => c) + b[index + count..])[p] == if index <= p < index + count then c else b[p]
  {
  }

  /** Every index below the count reaches a pixel or the empty tail. */
  predicate AllOk(sh: Shape, s: Surface)
  {
    Valid(sh, s) && forall i: u8 :: i < Count(sh, s) ==> Resolve(sh, s, i) != Fault
  }

  /** setAll(color, flush): setRange(0, getLedCount(), color, flush). */
  function SetAll(arena: Arena, s: Surface, c: RGBW, flush: bool): (e: Effect)
    requires AllOk(ShapeOf(arena), s)
    ensures ShapeOf(e.arena) == ShapeOf(arena)
    ensures forall i :: 0 <= i < Count(ShapeOf(arena), s) && Resolve(ShapeOf(arena), s, i).Pixel? ==>
              Get(e.arena, s, i) == c
    ensures e.flushed == if flush then Flush(s) else []
  {
    var n := Count(ShapeOf(arena), s);
    WholeRange(ShapeOf(arena), s);
    var e := SetRange(arena, s, 0, n, c, flush);
    SetRangeWhole(arena, s, c, flush);
    e
  }

  /** Offsets from 0 are the indices themselves, so a whole-strip range is well defined. */
  lemma WholeRange(sh: Shape, s: Surface)
    requires AllOk(sh, s)
    ensures RangeOk(sh, s, 0, Count(sh, s))
    ensures forall i :: 0 <= i < 0x100 ==> Offset(0, i) == i
  {
  }

  lemma SetRangeWhole(arena: Arena, s: Surface, c: RGBW, flush: bool)
    requires AllOk(ShapeOf(arena), s)
    ensures RangeOk(ShapeOf(arena), s, 0, Count(ShapeOf(arena), s))
    ensures var a := SetRange(arena, s, 0, Count(ShapeOf(arena), s), c, flush).arena;
      forall i :: 0 <= i < Count(ShapeOf(arena), s) && Resolve(ShapeOf(arena), s, i).Pixel? ==>
        Get(a, s, i) == c
  {
    WholeRange(ShapeOf(arena), s);
    var a := SetRange(arena, s, 0, Count(ShapeOf(arena), s), c, flush).arena;
    forall i | 0 <= i < Count(ShapeOf(arena), s) && Resolve(ShapeOf(arena), s, i).Pixel?
      ensures Get(a, s, i) == c
    {
      assert Offset(0, i) == i;
    }
  }

  /** clear(flush): setRange(0, getLedCount(), RGBW(), flush); afterwards every index reads COLOR_OFF. */
  function Clear(arena: Arena, s: Surface, flush: bool): (e: Effect)
    requires AllOk(ShapeOf(arena), s)
    ensures ShapeOf(e.arena) == ShapeOf(arena)
    ensures forall i :: 0 <= i < Count(ShapeOf(arena), s) ==> Get(e.arena, s, i) == Off
    ensures e.flushed == if flush then Flush(s) else []
  {
    SetAll(arena, s, Off, flush)
  }

  // ---------------------------------------------------------------------------
  // isAnyActive

  /** Index `k` lies below the count, reaches a pixel or the empty tail, and reads a colour other than COLOR_OFF. */
  predicate LitAt(arena: Arena, s: Surface, k: int)
    requires Valid(ShapeOf(arena), s)
  {
    && 0 <= k < Count(ShapeOf(arena), s)
    && Resolve(ShapeOf(arena), s, k) != Fault
    && Get(arena, s, k) != Off
  }

  /** Every index from `i` up to `k` (exclusive) is readable and reads COLOR_OFF. */
  predicate DarkBetween(arena: Arena, s: Surface, i: nat, k: nat)
    requires Valid(ShapeOf(arena), s)
  {
    forall j: u8 :: i <= j < k ==> Resolve(ShapeOf(arena), s, j) != Fault && Get(arena, s, j) == Off
  }

  /**
   * What the isAnyActive loop from counter `i` needs: every index it reaches,
   * one with only dark indices between `i` and it, is readable. The loop
   * returns at the first lit index, so indices after it are never read.
   */
  predicate ScanOk(arena: Arena, s: Surface, i: nat)
  {
    && Valid(ShapeOf(arena), s)
    && forall k: u8 :: i <= k < Count(ShapeOf(arena), s) && DarkBetween(arena, s, i, k) ==>
         Resolve(ShapeOf(arena), s, k) != Fault
  }

  /** The loop of isAnyActive from counter `i` on. */
  function AnyActiveFrom(arena: Arena, s: Surface, i: nat): (active: bool)
    requires ScanOk(arena, s, i)
    ensures active <==> exists k :: i <= k && LitAt(arena, s, k)
    decreases Count(ShapeOf(arena), s) - i
  {
    var sh := ShapeOf(arena);
    if i >= Count(sh, s) then false
    else
      assert DarkBetween(arena, s, i, i);
      if Get(arena, s, i) != Off then
        assert LitAt(arena, s, i);
        true
      else
        assert ScanOk(arena, s, i + 1) by {
          forall k: u8 | i + 1 <= k < Count(sh, s) && DarkBetween(arena, s, i + 1, k)
            ensures Resolve(sh, s, k) != Fault
          {
            assert DarkBetween(arena, s, i, k);
          }
        }
        assert !LitAt(arena, s, i);
        AnyActiveFrom(arena, s, i + 1)
  }

  /** isAnyActive: some index below the count reads a colour other than COLOR_OFF. */
  function IsAnyActive(arena: Arena, s: Surface): (active: bool)
    requires ScanOk(arena, s, 0)
    ensures active <==> exists k :: LitAt(arena, s, k)
  {
    AnyActiveFrom(arena, s, 0)
  }

  /**
   * A strip whose later indices fault is still scanned when an earlier index
   * is lit: a mapped strip over one storage with indices [0, 5] is active.
   */
  lemma ScanStopsAtFirstLit()
    ensures var arena := map[0 := [RGBW(1, 0, 0, 0), Off]];
      var s := Mapped(Storage(0), [0, 5]);
      && !AllOk(ShapeOf(arena), s) && ScanOk(arena, s, 0) && IsAnyActive(arena, s)
  {
    var arena := map[0 := [RGBW(1, 0, 0, 0), Off]];
    var s := Mapped(Storage(0), [0, 5]);
    var sh := ShapeOf(arena);
    assert Resolve(sh, s, 1) == Fault;
    assert Get(arena, s, 0) != Off;
    assert LitAt(arena, s, 0);
  }

  /** After clear(), no surface is active. */
  lemma ClearDeactivates(arena: Arena, s: Surface, flush: bool)
    requires AllOk(ShapeOf(arena), s)
    ensures var a := Clear(arena, s, flush).arena;
      ScanOk(a, s, 0) && !IsAnyActive(a, s)
  {
  }

  // ---------------------------------------------------------------------------
  // copyTo

  /** The storage leaves a surface reads and writes. */
  function Leaves(s: Surface): (ids: set<Id>)
    ensures s.Storage? ==> ids == {s.id}
  {
    match s
    case Storage(id) => {id}
    case Empty => {}
    case Concat(first, rest) => Leaves(first) + Leaves(rest)
    case Passthrough(base) => Leaves(base)
    case Mapped(base, _) => Leaves(base)
    case Inversed(base) => Leaves(base)
  }

  /** Every pixel a surface reaches lies in one of its leaves. */
  lemma {:induction false} ResolveInLeaves(sh: Shape, s: Surface, i: u8)
    requires Valid(sh, s)
    ensures Resolve(sh, s, i).Pixel? ==> Resolve(sh, s, i).id in Leaves(s)
  {
    match s
    case Storage(_) =>
    case Empty =>
    case Concat(first, rest) =>
      var n := Count(sh, first);
      if i < n { ResolveInLeaves(sh, first, i); } else { ResolveInLeaves(sh, rest, i - n); }
    case Passthrough(base) => ResolveInLeaves(sh, base, i);
    case Mapped(base, indices) =>
      if i < |indices| { ResolveInLeaves(sh, base, indices[i]); }
    case Inversed(base) => ResolveInLeaves(sh, base, CalcOffset(Count(sh, base), i));
  }

  /** The number of pixels copyTo copies: the smaller of the two counts. */
  function CopyCount(sh: Shape, src: Surface, dst: Surface): (n: u8)
    requires Valid(sh, src) && Valid(sh, dst)
    ensures n <= Count(sh, src) && n <= Count(sh, dst)
    ensures n == Count(sh, src) || n == Count(sh, dst)
  {
    Min(Count(sh, src), Count(sh, dst))
  }

  /**
   * The copy length fits both surfaces, and every index below it reaches a
   * pixel or the empty tail in both; indices from n on are never touched.
   */
  predicate CopyOk(sh: Shape, src: Surface, dst: Surface, n: u8)
  {
    && Valid(sh, src) && Valid(sh, dst)
    && n <= Count(sh, src) && n <= Count(sh, dst)
    && forall i: u8 :: i < n ==> Resolve(sh, src, i) != Fault && Resolve(sh, dst, i) != Fault
  }

  /** What copyTo needs: both surfaces usable on the indices below the smaller count. */
  predicate CopyToOk(sh: Shape, src: Surface, dst: Surface)
  {
    Valid(sh, src) && Valid(sh, dst) && CopyOk(sh, src, dst, CopyCount(sh, src, dst))
  }

  /**
   * The loop of copyTo from counter `i` on: target index k gets the colour
   * the source reads at k at that moment (source and target may share
   * leaves). Pixels no target index i..n addresses keep their colour.
   */
  function CopyFrom(arena: Arena, src: Surface, dst: Surface, n: u8, i: nat): (a: Arena)
    requires CopyOk(ShapeOf(arena), src, dst, n) && i <= n
    ensures ShapeOf(a) == ShapeOf(arena)
    ensures forall id, p ::
              (id in arena && 0 <= p < |arena[id]| && !Targeted(ShapeOf(arena), dst, 0, i, n, id, p)) ==>
              a[id][p] == arena[id][p]
    decreases n - i
  {
    if i == n then arena
    else
      var next := Set(arena, dst, i, Get(arena, src, i), false).arena;
      assert Offset(0, i) == i;
      CopyFrom(next, src, dst, n, i + 1)
  }

  /** copyTo(target, flush). */
  function CopyTo(arena: Arena, src: Surface, dst: Surface, flush: bool): (e: Effect)
    requires CopyToOk(ShapeOf(arena), src, dst)
    ensures ShapeOf(e.arena) == ShapeOf(arena)
    ensures forall id, p ::
              (id in arena && 0 <= p < |arena[id]| &&
               !Targeted(ShapeOf(arena), dst, 0, 0, CopyCount(ShapeOf(arena), src, dst), id, p)) ==>
              e.arena[id][p] == arena[id][p]
    ensures e.flushed == if flush then Flush(dst) else []
  {
    Effect(CopyFrom(arena, src, dst, CopyCount(ShapeOf(arena), src, dst), 0), if flush then Flush(dst) else [])
  }

  /** Indices lo..n of the target each address a pixel, all different. */
  predicate Injective(sh: Shape, dst: Surface, lo: nat, n: u8)
    requires Valid(sh, dst)
  {
    && (forall k :: lo <= k < n ==> Resolve(sh, dst, k).Pixel?)
    && (forall j, k :: lo <= j < k < n ==> Resolve(sh, dst, j) != Resolve(sh, dst, k))
  }

  /** Dropping the first index keeps the indices distinct. */
  lemma InjectiveSuffix(sh: Shape, dst: Surface, lo: nat, n: u8)
    requires Valid(sh, dst) && Injective(sh, dst, lo, n)
    ensures Injective(sh, dst, lo + 1, n)
  {
  }

  /** A pixel of a leaf the target does not use is never addressed by the target. */
  lemma NotTargetedOutside(sh: Shape, dst: Surface, lo: int, hi: int, id: Id, p: nat)
    requires Valid(sh, dst) && id !in Leaves(dst)
    ensures !Targeted(sh, dst, 0, lo, hi, id, p)
  {
    forall m | lo <= m < hi ensures Resolve(sh, dst, Offset(0, m)) != Pixel(id, p) {
      ResolveInLeaves(sh, dst, Offset(0, m));
    }
  }

  /** A target pixel that no index i..n addresses is not targeted by the loop from `i`. */
  lemma NotTargetedLater(sh: Shape, dst: Surface, n: u8, i: nat, j: nat)
    requires Valid(sh, dst) && j < n && Resolve(sh, dst, j).Pixel?
    requires forall m :: i <= m < n ==> Resolve(sh, dst, m) != Resolve(sh, dst, j)
    ensures !Targeted(sh, dst, 0, i, n, Resolve(sh, dst, j).id, Resolve(sh, dst, j).pos)
  {
    forall m | i <= m < n ensures Resolve(sh, dst, Offset(0, m)) != Resolve(sh, dst, j) {
      assert Offset(0, m) == m;
    }
  }

  /** One turn of the copyTo loop: the source's colour at i written through the target's route for i. */
  function Turn(arena: Arena, sh: Shape, src: Surface, dst: Surface, n: u8, i: nat): (a: Arena)
    requires ShapeOf(arena) == sh && CopyOk(sh, src, dst, n) && i < n
    ensures ShapeOf(a) == sh
  {
    WriteAt(arena, Resolve(sh, dst, i), Get(arena, src, i))
  }

  /** The loop from `i` is one turn and then the loop from `i + 1`. */
  lemma CopyFromUnfold(arena: Arena, sh: Shape, src: Surface, dst: Surface, n: u8, i: nat)
    requires ShapeOf(arena) == sh && CopyOk(sh, src, dst, n) && i < n
    ensures CopyFrom(arena, src, dst, n, i) == CopyFrom(Turn(arena, sh, src, dst, n, i), src, dst, n, i + 1)
  {
    assert Offset(0, i) == i;
  }

  /** Target index i, once written, is not overwritten by the later turns. */
  lemma CopyFromFirst(arena: Arena, sh: Shape, src: Surface, dst: Surface, n: u8, i: nat)
    requires ShapeOf(arena) == sh && CopyOk(sh, src, dst, n) && i < n && Injective(sh, dst, i, n)
    ensures PixelAt(CopyFrom(arena, src, dst, n, i), Resolve(sh, dst, i)) == PixelAt(arena, Resolve(sh, src, i))
  {
    CopyFromUnfold(arena, sh, src, dst, n, i);
    NotTargetedLater(sh, dst, n, i + 1, i);
  }

  /** The write to target index i leaves the pixel of source index k alone. */
  lemma CopyStepKeepsSource(arena: Arena, sh: Shape, src: Surface, dst: Surface, n: u8, i: nat, k: nat)
    requires ShapeOf(arena) == sh && CopyOk(sh, src, dst, n) && i < n && k < n
    requires Leaves(src) !! Leaves(dst)
    ensures PixelAt(Turn(arena, sh, src, dst, n, i), Resolve(sh, src, k)) == PixelAt(arena, Resolve(sh, src, k))
  {
    ResolveInLeaves(sh, dst, i);
    ResolveInLeaves(sh, src, k);
  }

  /** Before the turn that writes target index k, a turn moves the loop on and keeps the source's k. */
  lemma CopyFromSkip(arena: Arena, sh: Shape, src: Surface, dst: Surface, n: u8, i: nat, k: nat)
    requires ShapeOf(arena) == sh && CopyOk(sh, src, dst, n) && i < k < n
    requires Leaves(src) !! Leaves(dst)
    ensures var next := Turn(arena, sh, src, dst, n, i);
      && CopyFrom(arena, src, dst, n, i) == CopyFrom(next, src, dst, n, i + 1)
      && PixelAt(next, Resolve(sh, src, k)) == PixelAt(arena, Resolve(sh, src, k))
  {
    CopyFromUnfold(arena, sh, src, dst, n, i);
    CopyStepKeepsSource(arena, sh, src, dst, n, i, k);
  }

  /**
   * With disjoint leaves and a target whose indices address distinct pixels,
   * the loop from `i` on leaves in the pixel of target index k (i <= k < n)
   * the colour the source held at k when the loop started.
   */
  lemma {:induction false} CopyFromDisjoint(arena: Arena, sh: Shape, src: Surface, dst: Surface, n: u8, i: nat, k: nat)
    requires ShapeOf(arena) == sh && CopyOk(sh, src, dst, n) && i <= k < n
    requires Leaves(src) !! Leaves(dst) && Injective(sh, dst, i, n)
    ensures PixelAt(CopyFrom(arena, src, dst, n, i), Resolve(sh, dst, k)) == PixelAt(arena, Resolve(sh, src, k))
    decreases n - i
  {
    if k == i {
      CopyFromFirst(arena, sh, src, dst, n, i);
    } else {
      var next := Turn(arena, sh, src, dst, n, i);
      CopyFromSkip(arena, sh, src, dst, n, i, k);
      InjectiveSuffix(sh, dst, i, n);
      CopyFromDisjoint(next, sh, src, dst, n, i + 1, k);
    }
  }

  /** copyTo never writes a pixel of a source that shares no leaf with the target. */
  lemma CopyToKeepsSource(arena: Arena, src: Surface, dst: Surface, flush: bool, k: nat)
    requires CopyToOk(ShapeOf(arena), src, dst)
    requires Leaves(src) !! Leaves(dst) && k < Count(ShapeOf(arena), src) && Resolve(ShapeOf(arena), src, k) != Fault
    ensures Get(CopyTo(arena, src, dst, flush).arena, src, k) == Get(arena, src, k)
  {
    var sh := ShapeOf(arena);
    var r := Resolve(sh, src, k);
    ResolveInLeaves(sh, src, k);
    if r.Pixel? {
      NotTargetedOutside(sh, dst, 0, CopyCount(sh, src, dst), r.id, r.pos);
    }
  }

  /** After copyTo between disjoint surfaces, target index k reads the source's old colour at k. */
  lemma CopyToReadsSource(arena: Arena, src: Surface, dst: Surface, flush: bool, k: nat)
    requires CopyToOk(ShapeOf(arena), src, dst)
    requires Leaves(src) !! Leaves(dst) && Injective(ShapeOf(arena), dst, 0, CopyCount(ShapeOf(arena), src, dst))
    requires k < CopyCount(ShapeOf(arena), src, dst)
    ensures Get(CopyTo(arena, src, dst, flush).arena, dst, k) == Get(arena, src, k)
  {
    CopyFromDisjoint(arena, ShapeOf(arena), src, dst, CopyCount(ShapeOf(arena), src, dst), 0, k);
  }

}
