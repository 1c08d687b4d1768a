/**
 * LedStrip_APA102: the send buffer of an APA102 strip. The buffer holds a
 * 4-byte start frame and then one 4-byte frame per LED: a header byte
 * carrying a 5-bit brightness, then blue, green and red. Only the buffer is
 * modelled; transmitting it bit by bit over the clock and data pins is I/O.
 */
module Apa102 {
  import opened Color

  /** countLeds is a uint16_t; `send` is the byte vector handed to the pins. */
  datatype Apa102 = Apa102(countLeds: u16, send: seq<u8>)

  /** The buffer has the start frame and one frame per LED. */
  predicate Wf(s: Apa102)
  {
    |s.send| == 4 + 4 * s.countLeds
  }

  /** Where the frame of LED `index` starts. */
  function Offset(index: int): int
  {
    4 + index * 4
  }

  /** The four bytes of the frame of LED `index`. */
  function Frame(s: Apa102, index: int): seq<u8>
    requires Wf(s) && 0 <= index < s.countLeds
  {
    s.send[Offset(index)..Offset(index) + 4]
  }

  /**
   * getLedCount returns the count as an ledoffset_t (uint8_t): the 16-bit
   * count cut to its low byte.
   */
  function LedCount(s: Apa102): (n: u8)
    ensures n <= s.countLeds
    ensures s.countLeds < 0x100 ==> n == s.countLeds
    ensures (s.countLeds - n) % 0x100 == 0
  {
    s.countLeds % 0x100
  }

  /**
   * The header byte: 0x07 shifted into the three top bits, OR the brightness
   * masked to its low five bits. The two parts share no bit, so the OR is a sum.
   */
  function Header(brightness: u8): (h: u8)
    ensures h / 32 == 7
    ensures h % 32 == brightness % 32
  {
    0x07 * 32 + brightness % 32
  }

  /** setLed(index, color, brightness): write the LED's frame. */
  function SetLedWith(s: Apa102, index: u8, c: RGBW, brightness: u8): (t: Apa102)
    requires Wf(s) && index < s.countLeds
    ensures Wf(t) && t.countLeds == s.countLeds
    ensures Frame(t, index) == [Header(brightness), c.b, c.g, c.r]
    ensures forall j :: 0 <= j < |s.send| && !(Offset(index) <= j < Offset(index) + 4) ==>
              t.send[j] == s.send[j]
  {
    var o := Offset(index);
    s.(send := s.send[o := Header(brightness)][o + 1 := c.b][o + 2 := c.g][o + 3 := c.r])
  }

  /** The brightness of the three-argument setLed: full when any of red, green, blue is lit. */
  function AutoBrightness(c: RGBW): (br: u8)
    ensures br == 0 || br == 31
    ensures br == 31 <==> c.r > 0 || c.g > 0 || c.b > 0
  {
    if c.r > 0 || c.g > 0 || c.b > 0 then 31 else 0
  }

  /** setLed(index, color): the frame with the brightness chosen from the colour; white is dropped. */
  function SetLed(s: Apa102, index: u8, c: RGBW): (t: Apa102)
    requires Wf(s) && index < s.countLeds
    ensures Wf(t) && t.countLeds == s.countLeds
    ensures Frame(t, index) == [if c.r > 0 || c.g > 0 || c.b > 0 then 0xFF else 0xE0, c.b, c.g, c.r]
    ensures forall j :: 0 <= j < |s.send| && !(Offset(index) <= j < Offset(index) + 4) ==>
              t.send[j] == s.send[j]
  {
    SetLedWith(s, index, c, AutoBrightness(c))
  }

  /** getLed: red, green and blue read back from the frame; white is always 0. */
  function GetLed(s: Apa102, index: u8): (c: RGBW)
    requires Wf(s) && index < s.countLeds
    ensures c.w == 0
    ensures [c.b, c.g, c.r] == Frame(s, index)[1..]
  {
    var o := Offset(index);
    RGBW(s.send[o + 3], s.send[o + 2], s.send[o + 1], 0)
  }

  /** Reading back: the colour just written without its white, other LEDs as before. */
  lemma GetAfterSetLed(s: Apa102, i: u8, j: u8, c: RGBW, brightness: u8)
    requires Wf(s) && i < s.countLeds && j < s.countLeds
    ensures GetLed(SetLedWith(s, i, c, brightness), j) ==
            if i == j then c.(w := 0) else GetLed(s, j)
  {
    var t := SetLedWith(s, i, c, brightness);
    if i != j {
      var o := Offset(j);
      assert !(Offset(i) <= o + 1 < Offset(i) + 4) by {
        assert i < j || j < i;
      }
      assert t.send[o + 1] == s.send[o + 1] && t.send[o + 2] == s.send[o + 2] && t.send[o + 3] == s.send[o + 3];
    }
  }

  /** No setLed touches the start frame. */
  lemma StartFrameUntouched(s: Apa102, index: u8, c: RGBW, brightness: u8)
    requires Wf(s) && index < s.countLeds
    ensures SetLedWith(s, index, c, brightness).send[..4] == s.send[..4]
  {
  }

  /** What the buffer holds after the first `n` LEDs were cleared: headers 0xE0 there, zeros elsewhere. */
  function Cleared(j: int, n: int): u8
  {
    if 4 <= j < Offset(n) && j % 4 == 0 then 0xE0 else 0
  }

  /**
   * The constructor: a zeroed buffer of 4 + 4 * count bytes, then clear(),
   * which sets RGBW() on LEDs 0 .. getLedCount() - 1. Only the low byte of
   * the count is seen there, so LEDs from 256 on keep an all-zero frame.
   */
  method New(countLeds: u16) returns (s: Apa102)
    ensures Wf(s) && s.countLeds == countLeds
    ensures s.send[..4] == [0, 0, 0, 0]
    ensures forall i :: 0 <= i < LedCount(s) ==> Frame(s, i) == [0xE0, 0, 0, 0]
    ensures forall i :: LedCount(s) <= i < countLeds ==> Frame(s, i) == [0, 0, 0, 0]
  {
    s := Apa102(countLeds, seq(4 + 4 * countLeds, _ => 0));
    var n := LedCount(s);
    var i: u8 := 0;
    while i < n
      invariant i <= n
      invariant Wf(s) && s.countLeds == countLeds
      invariant forall j :: 0 <= j < |s.send| ==> s.send[j] == Cleared(j, i)
    {
      ClearStep(s, i);
      s := SetLed(s, i, Off);
      i := i + 1;
    }
    forall k | 0 <= k < countLeds
      ensures Frame(s, k) == if k < n then [0xE0, 0, 0, 0] else [0, 0, 0, 0]
    {
      ClearedFrame(s, n, k);
    }
  }

  /** Clearing LED i extends the cleared prefix by one frame. */
  lemma ClearStep(s: Apa102, i: u8)
    requires Wf(s) && i < s.countLeds
    requires forall j :: 0 <= j < |s.send| ==> s.send[j] == Cleared(j, i)
    ensures forall j :: 0 <= j < |s.send| ==> SetLed(s, i, Off).send[j] == Cleared(j, i + 1)
  {
    var t := SetLed(s, i, Off);
    var o := Offset(i);
    forall j | 0 <= j < |s.send|
      ensures t.send[j] == Cleared(j, i + 1)
    {
      if o <= j < o + 4 {
        assert t.send[j] == Frame(t, i)[j - o];
      } else {
        assert t.send[j] == s.send[j];
      }
    }
  }

  /** A frame of a buffer cleared up to LED n reads as cleared or as all zero. */
  lemma ClearedFrame(s: Apa102, n: int, k: int)
    requires Wf(s) && 0 <= k < s.countLeds
    requires forall j :: 0 <= j < |s.send| ==> s.send[j] == Cleared(j, n)
    ensures Frame(s, k) == if k < n then [0xE0, 0, 0, 0] else [0, 0, 0, 0]
  {
    var o := Offset(k);
    assert Frame(s, k) == [s.send[o], s.send[o + 1], s.send[o + 2], s.send[o + 3]];
  }

  /** A strip of fewer than 256 LEDs starts with every LED off at brightness 0. */
  lemma NewStripIsDark(s: Apa102, i: u8)
    requires Wf(s) && s.countLeds < 0x100 && i < s.countLeds
    requires forall k :: 0 <= k < LedCount(s) ==> Frame(s, k) == [0xE0, 0, 0, 0]
    ensures GetLed(s, i) == Off
  {
    assert Frame(s, i) == [0xE0, 0, 0, 0];
  }
}
