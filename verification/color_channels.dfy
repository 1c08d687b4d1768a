/**
 * ColorChannels: which of the four colour channels a strip uses, from four
 * flags or from a NUL-terminated string of channel letters such as "RGB".
 * The string is a sequence of characters; it ends at its first '\0', or
 * at the end of the sequence when it holds none.
 */
module ColorChannels {
  /** The four-bool constructor is the datatype constructor: it stores the flags as given. */
  datatype ColorChannels = ColorChannels(r: bool, g: bool, b: bool, w: bool)

  /** The flags before any letter is read. */
  const NoChannels := ColorChannels(false, false, false, false)

  /** The characters up to, not including, the first '\0'. */
  function Terminated(s: seq<char>): (p: seq<char>)
    ensures |p| <= |s| && p == s[..|p|]
    ensures forall i :: 0 <= i < |p| ==> p[i] != '\0'
    ensures |p| < |s| ==> s[|p|] == '\0'
  {
    if |s| == 0 || s[0] == '\0' then [] else [s[0]] + Terminated(s[1..])
  }

  /** Some character of `s` is the letter, in lower or upper case. */
  predicate Mentions(s: seq<char>, lower: char, upper: char)
  {
    exists i :: 0 <= i < |s| && (s[i] == lower || s[i] == upper)
  }

  /** One case of the switch: a channel letter in either case raises its flag; anything else is ignored. */
  function Read(cc: ColorChannels, c: char): ColorChannels
  {
    match c
    case 'r' => cc.(r := true)
    case 'R' => cc.(r := true)
    case 'g' => cc.(g := true)
    case 'G' => cc.(g := true)
    case 'b' => cc.(b := true)
    case 'B' => cc.(b := true)
    case 'w' => cc.(w := true)
    case 'W' => cc.(w := true)
    case _ => cc
  }

  /** The flags after reading every character of `s` in order: each set iff its letter occurs. */
  function {:induction false} Letters(s: seq<char>): (cc: ColorChannels)
    ensures cc.r <==> Mentions(s, 'r', 'R')
    ensures cc.g <==> Mentions(s, 'g', 'G')
    ensures cc.b <==> Mentions(s, 'b', 'B')
    ensures cc.w <==> Mentions(s, 'w', 'W')
  {
    if |s| == 0 then NoChannels
    else
      var n := |s| - 1;
      var prev := Letters(s[..n]);
      MentionsSnoc(s, n);
      Read(prev, s[n])
  }

  /** A letter occurs in `s` iff it occurs before its last character or is that character. */
  lemma MentionsSnoc(s: seq<char>, n: nat)
    requires n == |s| - 1
    ensures forall lower, upper :: Mentions(s, lower, upper) <==>
              Mentions(s[..n], lower, upper) || s[n] == lower || s[n] == upper
  {
    forall lower, upper | Mentions(s, lower, upper)
      ensures Mentions(s[..n], lower, upper) || s[n] == lower || s[n] == upper
    {
      var i :| 0 <= i < |s| && (s[i] == lower || s[i] == upper);
      if i < n {
        assert s[..n][i] == s[i];
      }
    }
    forall lower, upper | Mentions(s[..n], lower, upper)
      ensures Mentions(s, lower, upper)
    {
      var i :| 0 <= i < n && (s[..n][i] == lower || s[..n][i] == upper);
      assert s[i] == s[..n][i];
    }
  }

  /** ColorChannels(const char*): read characters until the terminating '\0'. */
  method Parse(channels: seq<char>) returns (cc: ColorChannels)
    ensures cc == Letters(Terminated(channels))
  {
    var prefix := Terminated(channels);
    cc := NoChannels;
    var offset := 0;
    while offset < |channels| && channels[offset] != '\0'
      invariant offset <= |prefix|
      invariant channels[..offset] == prefix[..offset]
      invariant cc == Letters(prefix[..offset])
      decreases |channels| - offset
    {
      var c := channels[offset];
      offset := offset + 1;
      assert prefix[..offset][..offset - 1] == prefix[..offset - 1];
      cc := Read(cc, c);
    }
    assert prefix[..offset] == prefix;
  }

  /** The flags depend only on which characters occur, not on their order or repetition. */
  lemma SameLettersSameChannels(s: seq<char>, t: seq<char>)
    requires forall c :: c in s <==> c in t
    ensures Letters(s) == Letters(t)
  {
    forall lower, upper | Mentions(s, lower, upper) ensures Mentions(t, lower, upper) {
      var i :| 0 <= i < |s| && (s[i] == lower || s[i] == upper);
      assert s[i] in t;
    }
    forall lower, upper | Mentions(t, lower, upper) ensures Mentions(s, lower, upper) {
      var i :| 0 <= i < |t| && (t[i] == lower || t[i] == upper);
      assert t[i] in s;
    }
  }

  /** Anything but a channel letter leaves the flags as they were. */
  lemma OtherCharactersIgnored(s: seq<char>, c: char)
    requires c !in "rRgGbBwW"
    ensures Letters(s + [c]) == Letters(s)
  {
    assert (s + [c])[..|s|] == s;
  }

  /** The empty string, and one that starts with '\0', select no channel. */
  lemma EmptySelectsNothing(s: seq<char>)
    requires |s| == 0 || s[0] == '\0'
    ensures Letters(Terminated(s)) == NoChannels
  {
  }

  /** "RGBW" in any case selects all four channels; characters after the '\0' are never read. */
  lemma ParseExamples()
    ensures Letters(Terminated("RGB")) == ColorChannels(true, true, true, false)
    ensures Letters(Terminated("wbgr")) == ColorChannels(true, true, true, true)
    ensures Letters(Terminated("R\0G")) == ColorChannels(true, false, false, false)
  {
    assert Terminated("RGB") == "RGB";
    assert Mentions("RGB", 'r', 'R') by { assert "RGB"[0] == 'R'; }
    assert Mentions("RGB", 'g', 'G') by { assert "RGB"[1] == 'G'; }
    assert Mentions("RGB", 'b', 'B') by { assert "RGB"[2] == 'B'; }
    assert Terminated("wbgr") == "wbgr";
    assert Mentions("wbgr", 'w', 'W') by { assert "wbgr"[0] == 'w'; }
    assert Mentions("wbgr", 'b', 'B') by { assert "wbgr"[1] == 'b'; }
    assert Mentions("wbgr", 'g', 'G') by { assert "wbgr"[2] == 'g'; }
    assert Mentions("wbgr", 'r', 'R') by { assert "wbgr"[3] == 'r'; }
    assert Terminated("R\0G") == "R";
    assert Mentions("R", 'r', 'R') by { assert "R"[0] == 'R'; }
  }
}
