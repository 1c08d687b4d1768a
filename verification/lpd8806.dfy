/**
 * LedStrip_LPD8806: a LedBufferStorage that also keeps the send buffer of an
 * LPD8806 strip. The buffer holds three gamma-corrected bytes per LED, in
 * the order red, green, blue, each with its top bit set, and then three
 * latch bytes. Only the buffer is modelled; transmitting it is I/O.
 */
module Lpd8806 {
  import opened Color
  import Surfaces

  /**
   * The gamma table is built from the curve (i / 255) ^ 2.5, computed in
   * float arithmetic. The curve is a parameter here: its 256 values, each in
   * [0, 1], with value 0 at 0 and 1 at 255, as the float `pow` gives there.
   */
  predicate Curve(p: seq<real>)
  {
    |p| == 256 && p[0] == 0.0 && p[255] == 1.0 && forall i :: 0 <= i < 256 ==> 0.0 <= p[i] <= 1.0
  }

  /** One table entry: 0x80 OR the curve value scaled to 127, rounded half up by truncation. */
  function GammaEntry(x: real): (e: u8)
    requires 0.0 <= x <= 1.0
    ensures 0x80 <= e
    ensures (e - 0x80) as real <= x * 127.0 + 0.5 < (e - 0x80 + 1) as real
  {
    var level := (x * 127.0 + 0.5).Floor;
    assert level <= 127 by {
      assert x * 127.0 + 0.5 < 128.0;
    }
    0x80 + level
  }

  /** CreateGammaTable. */
  function GammaTable(p: seq<real>): (t: seq<u8>)
    requires Curve(p)
    ensures |t| == 256
    ensures forall i :: 0 <= i < 256 ==> t[i] >= 0x80
    ensures t[0] == 0x80 && t[255] == 0xFF
  {
    seq(256, i requires 0 <= i < 256 => GammaEntry(p[i]))
  }

  /** A brighter input never gets a darker entry when the curve rises. */
  lemma GammaMonotone(p: seq<real>, i: int, j: int)
    requires Curve(p) && 0 <= i <= j < 256 && p[i] <= p[j]
    ensures GammaTable(p)[i] <= GammaTable(p)[j]
  {
  }

  /** The stored pixels (the LedBufferStorage part) and the send buffer. */
  datatype Lpd8806 = Lpd8806(pixels: seq<RGBW>, send: seq<u8>)

  /** The count is an ledoffset_t; the buffer has three bytes per LED and three latch bytes. */
  predicate Wf(s: Lpd8806)
  {
    |s.pixels| < 0x100 && |s.send| == 3 * |s.pixels| + 3
  }

  /** The three latch bytes at the end of the buffer. */
  function Latch(s: Lpd8806): seq<u8>
    requires Wf(s)
  {
    s.send[|s.send| - 3..]
  }

  /** The constructor: `count` pixels RGBW(), and a zeroed buffer of 3 * count + 3 bytes. */
  function New(count: u8): (s: Lpd8806)
    ensures Wf(s) && |s.pixels| == count
    ensures forall i :: 0 <= i < count ==> s.pixels[i] == Off
    ensures Latch(s) == [0, 0, 0]
  {
    Lpd8806(seq(count, _ => Off), seq(3 * count + 3, _ => 0))
  }

  /**
   * setLed: white is forced to 0, the colour is stored, and the LED's three
   * buffer bytes get the gamma entries of red, green and blue.
   */
  function SetLed(s: Lpd8806, p: seq<real>, index: u8, c: RGBW): (t: Lpd8806)
    requires Wf(s) && Curve(p) && index < |s.pixels|
    ensures Wf(t) && |t.pixels| == |s.pixels|
    ensures t.pixels[index] == RGBW(c.r, c.g, c.b, 0)
    ensures forall j :: 0 <= j < |s.pixels| && j != index ==> t.pixels[j] == s.pixels[j]
    ensures t.send[3 * index..3 * index + 3] == [GammaTable(p)[c.r], GammaTable(p)[c.g], GammaTable(p)[c.b]]
    ensures forall j :: 0 <= j < |s.send| && !(3 * index <= j < 3 * index + 3) ==> t.send[j] == s.send[j]
  {
    var color := c.(w := 0);
    var gamma := GammaTable(p);
    var o := index * 3;
    Lpd8806(s.pixels[index := color],
            s.send[o := gamma[color.r]][o + 1 := gamma[color.g]][o + 2 := gamma[color.b]])
  }

  /** getLed, from the LedBufferStorage part. */
  function GetLed(s: Lpd8806, index: u8): (c: RGBW)
    requires Wf(s) && index < |s.pixels|
    ensures c == Surfaces.Get(map[0 := s.pixels], Surfaces.Storage(0), index)
  {
    s.pixels[index]
  }

  /** Reading back after setLed: the colour without its white, other LEDs as before. */
  lemma GetAfterSetLed(s: Lpd8806, p: seq<real>, i: u8, j: u8, c: RGBW)
    requires Wf(s) && Curve(p) && i < |s.pixels| && j < |s.pixels|
    ensures GetLed(SetLed(s, p, i, c), j) == if i == j then c.(w := 0) else GetLed(s, j)
  {
  }

  /** One write of a sequence of setLed calls. */
  datatype Write = Write(index: u8, color: RGBW)

  /** The writes all address LEDs of a strip of `count`. */
  predicate InRange(writes: seq<Write>, count: nat)
  {
    forall k :: 0 <= k < |writes| ==> writes[k].index < count
  }

  /** The strip after the writes, in order. */
  function SetLeds(s: Lpd8806, p: seq<real>, writes: seq<Write>): (t: Lpd8806)
    requires Wf(s) && Curve(p) && InRange(writes, |s.pixels|)
    ensures Wf(t) && |t.pixels| == |s.pixels|
    decreases |writes|
  {
    if |writes| == 0 then s
    else SetLeds(SetLed(s, p, writes[0].index, writes[0].color), p, writes[1..])
  }

  /** No write reaches the latch bytes, so they stay as the constructor left them. */
  lemma {:induction false} LatchNeverWritten(s: Lpd8806, p: seq<real>, writes: seq<Write>)
    requires Wf(s) && Curve(p) && InRange(writes, |s.pixels|)
    ensures Latch(SetLeds(s, p, writes)) == Latch(s)
    decreases |writes|
  {
    if |writes| > 0 {
      var t := SetLed(s, p, writes[0].index, writes[0].color);
      assert Latch(t) == Latch(s);
      LatchNeverWritten(t, p, writes[1..]);
    }
  }

  /** Every byte of a written LED carries the top bit the LPD8806 expects of colour data. */
  lemma WrittenBytesHaveTopBit(s: Lpd8806, p: seq<real>, index: u8, c: RGBW, j: int)
    requires Wf(s) && Curve(p) && index < |s.pixels|
    requires 3 * index <= j < 3 * index + 3
    ensures SetLed(s, p, index, c).send[j] >= 0x80
  {
    var t := SetLed(s, p, index, c);
    assert t.send[j] == t.send[3 * index..3 * index + 3][j - 3 * index];
  }

  /** An unlit colour is sent as 0x80 on every channel, full red as 0xFF in the red byte. */
  lemma GammaEndpoints(s: Lpd8806, p: seq<real>, index: u8)
    requires Wf(s) && Curve(p) && index < |s.pixels|
    ensures SetLed(s, p, index, Off).send[3 * index..3 * index + 3] == [0x80, 0x80, 0x80]
    ensures SetLed(s, p, index, RGBW(255, 0, 0, 0)).send[3 * index..3 * index + 3] == [0xFF, 0x80, 0x80]
  {
  }
}
