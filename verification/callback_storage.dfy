/**
 * LedBufferStorageWithCallback: a LedBufferStorage that, whenever it is
 * flushed, first notifies the listener it holds (the onUpdate of an
 * ILedBufferStorageCallback), if any.
 *
 * A listener is an object identity; the notifications an operation sends
 * are returned in the order they happen.
 */
module CallbackStorage {
  import opened Color
  import opened Surfaces

  /** The identity of an ILedBufferStorageCallback object. */
  type Handle = nat

  /** The callback pointer: null, or a listener. */
  datatype Listener = Null | Notify(handle: Handle)

  datatype CbStorage = CbStorage(pixels: Buffer, callback: Listener)

  /** What updateLeds did: the storage afterwards and the listeners it called, in order. */
  datatype Flushed = Flushed(storage: CbStorage, calls: seq<Handle>)

  /** The constructor: `count` pixels, all RGBW(), and the given listener. */
  function NewCbStorage(count: u8, callback: Listener): (s: CbStorage)
    ensures |s.pixels| == count && s.callback == callback
    ensures forall i :: 0 <= i < count ==> s.pixels[i] == Off
  {
    CbStorage(seq(count, _ => Off), callback)
  }

  /** setCallbackHandler: only the listener changes. */
  function SetCallbackHandler(s: CbStorage, callback: Listener): (t: CbStorage)
    ensures t.pixels == s.pixels && t.callback == callback
  {
    s.(callback := callback)
  }

  /**
   * updateLeds: a non-null listener is called once with this storage, then
   * the LedBufferStorage part does nothing.
   */
  function UpdateLeds(s: CbStorage): (f: Flushed)
    ensures f.storage == s
    ensures |f.calls| <= 1
    ensures s.callback.Null? <==> f.calls == []
    ensures forall h :: h in f.calls <==> s.callback == Notify(h)
  {
    match s.callback
    case Null => Flushed(s, [])
    case Notify(h) => Flushed(s, [h])
  }

  /** getLed: reads as a storage leaf of a strip does. */
  function GetLed(s: CbStorage, i: u8): (c: RGBW)
    requires i < |s.pixels|
    ensures c == Get(map[0 := s.pixels], Storage(0), i)
  {
    s.pixels[i]
  }

  /** setLed: store the colour; with flush, run this storage's updateLeds afterwards. */
  function SetLed(s: CbStorage, i: u8, c: RGBW, flush: bool): (f: Flushed)
    requires i < |s.pixels|
    ensures |f.storage.pixels| == |s.pixels| && f.storage.callback == s.callback
    ensures f.storage.pixels[i] == c
    ensures forall j :: 0 <= j < |s.pixels| && j != i ==> f.storage.pixels[j] == s.pixels[j]
    ensures !flush ==> f.calls == []
    ensures flush ==> f.calls == UpdateLeds(f.storage).calls
  {
    var t := s.(pixels := s.pixels[i := c]);
    if flush then UpdateLeds(t) else Flushed(t, [])
  }

  /** Reading back after setLed: the colour at i, every other index unchanged. */
  lemma GetAfterSetLed(s: CbStorage, i: u8, j: u8, c: RGBW, flush: bool)
    requires i < |s.pixels| && j < |s.pixels|
    ensures GetLed(SetLed(s, i, c, flush).storage, j) == if j == i then c else GetLed(s, j)
  {
  }

  /** Every later flush notifies the listener last set, and only it. */
  lemma NotifiesLatestHandler(s: CbStorage, first: Handle, second: Listener)
    ensures UpdateLeds(SetCallbackHandler(SetCallbackHandler(s, Notify(first)), second)).calls ==
            if second.Notify? then [second.handle] else []
  {
  }

  /** A flushing setLed on a storage with a listener notifies it exactly once, after the write. */
  lemma FlushingSetLedNotifiesOnce(s: CbStorage, i: u8, c: RGBW, h: Handle)
    requires i < |s.pixels| && s.callback == Notify(h)
    ensures SetLed(s, i, c, true).calls == [h]
    ensures SetLed(s, i, c, true).storage.pixels == s.pixels[i := c]
  {
  }
}
