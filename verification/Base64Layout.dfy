/** An encoding character by character (RFC 4648, section 4): which letter stands where, how the end
  is padded, and where the lines break. */
module Base64Layout {
  import opened Bytes
  import opened Base64

  /** Three bytes as one number of 24 bits; bytes behind the end count as zero. */
  function GroupNumber(s: Text, g: nat): nat {
    ByteAt(s, 3 * g) * 0x1_0000 + ByteAt(s, 3 * g + 1) * 0x100 + ByteAt(s, 3 * g + 2)
  }

  function ByteAt(s: Text, i: nat): Byte {
    if i < |s| then s[i] else 0
  }

  /** The k-th six bits of 24 from the high end. */
  function SixBits(n: nat, k: nat): (r: nat)
    ensures r < 64
  {
    (if k == 0 then n / 0x4_0000 else if k == 1 then n / 0x1000 else if k == 2 then n / 0x40 else n) % 64
  }

  /** As many letters as it takes for six bits each. */
  function LetterCount(n: nat): nat {
    n / 3 * 4 + if n % 3 == 0 then 0 else n % 3 + 1
  }

  lemma NumberParts(c0: Byte, c1: Byte, c2: Byte)
    ensures var n := c0 * 0x1_0000 + c1 * 0x100 + c2;
      && SixBits(n, 0) == Sextet0(c0) && SixBits(n, 1) == Sextet1(c0, c1)
      && SixBits(n, 2) == Sextet2(c1, c2) && SixBits(n, 3) == Sextet3(c2)
  {
    hide *;
    FirstPart(c0, c1, c2);
    SecondPart(c0, c1, c2);
    ThirdPart(c0, c1, c2);
    FourthPart(c0, c1, c2);
  }

  lemma FirstPart(c0: Byte, c1: Byte, c2: Byte)
    ensures SixBits(c0 * 0x1_0000 + c1 * 0x100 + c2, 0) == Sextet0(c0)
  {
    var n := c0 * 0x1_0000 + c1 * 0x100 + c2;
    assert n == 0x4_0000 * (c0 / 4) + (c0 % 4 * 0x1_0000 + c1 * 0x100 + c2);
    assert n / 0x4_0000 == c0 / 4;
  }

  lemma SecondPart(c0: Byte, c1: Byte, c2: Byte)
    ensures SixBits(c0 * 0x1_0000 + c1 * 0x100 + c2, 1) == Sextet1(c0, c1)
  {
    var n, q := c0 * 0x1_0000 + c1 * 0x100 + c2, c0 * 16 + c1 / 16;
    assert n == 0x1000 * q + (c1 % 16 * 0x100 + c2);
    assert n / 0x1000 == q;
    assert q == 64 * (c0 / 4) + (c0 % 4 * 16 + c1 / 16);
  }

  lemma ThirdPart(c0: Byte, c1: Byte, c2: Byte)
    ensures SixBits(c0 * 0x1_0000 + c1 * 0x100 + c2, 2) == Sextet2(c1, c2)
  {
    var n, q := c0 * 0x1_0000 + c1 * 0x100 + c2, c0 * 0x400 + c1 * 4 + c2 / 64;
    assert n == 0x40 * q + c2 % 64;
    assert n / 0x40 == q;
    assert q == 64 * (c0 * 16 + c1 / 16) + (c1 % 16 * 4 + c2 / 64);
  }

  lemma FourthPart(c0: Byte, c1: Byte, c2: Byte)
    ensures SixBits(c0 * 0x1_0000 + c1 * 0x100 + c2, 3) == Sextet3(c2)
  {
    assert c0 * 0x1_0000 + c1 * 0x100 + c2 == 64 * (c0 * 0x400 + c1 * 4 + c2 / 64) + c2 % 64;
  }

  /** A character of an encoding without line breaks. */
  ghost predicate IsPlaced(b: Codec, s: Text, i: nat, c: Byte)
    requires |b.alphabet| == 65
  {
    c == if i < LetterCount(|s|) then b.alphabet[SixBits(GroupNumber(s, i / 4), i % 4)] else b.alphabet[64]
  }

  lemma ShortIsPlaced(b: Codec, s: Text, written: nat, layout: Layout, i: nat)
    requires |b.alphabet| == 65 && |s| < 3 && i < |Encoding(b, s, written, layout)|
    ensures IsPlaced(b, s, i, Encoding(b, s, written, layout)[i]) && i < 4
  {
    hide Encoding;
    hide Spelled;
    hide SixBits;
    hide Sextet0;
    hide Sextet1;
    hide Sextet2;
    EncodingEnd(b, s, written, layout);
    NumberParts(ByteAt(s, 0), ByteAt(s, 1), ByteAt(s, 2));
    assert GroupNumber(s, 0) == ByteAt(s, 0) * 0x1_0000 + ByteAt(s, 1) * 0x100 + ByteAt(s, 2);
  }

  lemma GroupIsPlaced(b: Codec, s: Text, i: nat)
    requires |b.alphabet| == 65 && |s| >= 3 && i < 4
    ensures IsPlaced(b, s, i, Group(b, s[0], s[1], s[2])[i])
  {
    hide SixBits;
    hide Sextet0;
    hide Sextet1;
    hide Sextet2;
    hide Sextet3;
    NumberParts(ByteAt(s, 0), ByteAt(s, 1), ByteAt(s, 2));
    assert GroupNumber(s, 0) == ByteAt(s, 0) * 0x1_0000 + ByteAt(s, 1) * 0x100 + ByteAt(s, 2);
    hide GroupNumber;
    assert LetterCount(|s|) >= 4;
  }

  lemma RestIsPlaced(b: Codec, s: Text, i: nat, c: Byte)
    requires |b.alphabet| == 65 && |s| >= 3 && i >= 4 && IsPlaced(b, s[3..], i - 4, c)
    ensures IsPlaced(b, s, i, c)
  {
    var g := i / 4;
    assert (i - 4) / 4 == g - 1 && (i - 4) % 4 == i % 4;
    assert ByteAt(s[3..], 3 * (g - 1)) == ByteAt(s, 3 * g);
    assert ByteAt(s[3..], 3 * (g - 1) + 1) == ByteAt(s, 3 * g + 1);
    assert ByteAt(s[3..], 3 * (g - 1) + 2) == ByteAt(s, 3 * g + 2);
    hide ByteAt;
    assert GroupNumber(s[3..], g - 1) == GroupNumber(s, g);
    hide GroupNumber;
    hide SixBits;
    assert LetterCount(|s|) == LetterCount(|s| - 3) + 4;
  }

  lemma PlainStep(b: Codec, s: Text, written: nat, layout: Layout)
    requires |b.alphabet| == 65 && !layout.autoNewline && |s| >= 3
    ensures Encoding(b, s, written, layout)
         == Group(b, s[0], s[1], s[2]) + Encoding(b, s[3..], written + 4, layout)
  {
    hide Encoding;
    hide Group;
    assert s[0..] == s;
    EncodingStep(b, s, 0, written, layout);
  }

  /** Every character of an encoding without line breaks. */
  lemma {:induction false} PlainAt(b: Codec, s: Text, written: nat, layout: Layout, i: nat)
    requires |b.alphabet| == 65 && !layout.autoNewline && i < |Encoding(b, s, written, layout)|
    ensures IsPlaced(b, s, i, Encoding(b, s, written, layout)[i])
    decreases |s|
  {
    hide IsPlaced;
    hide Encoding;
    hide Group;
    if |s| < 3 {
      ShortIsPlaced(b, s, written, layout, i);
    } else {
      PlainStep(b, s, written, layout);
      if i < 4 {
        GroupIsPlaced(b, s, i);
      } else {
        PlainAt(b, s[3..], written + 4, layout, i - 4);
        RestIsPlaced(b, s, i, Encoding(b, s[3..], written + 4, layout)[i - 4]);
      }
    }
  }

  /** How many characters there are: a multiple of four with the padding. */
  lemma {:induction false} PlainLength(b: Codec, s: Text, written: nat, layout: Layout)
    requires |b.alphabet| == 65 && !layout.autoNewline
    ensures |Encoding(b, s, written, layout)| == if layout.noPadding then LetterCount(|s|) else (|s| + 2) / 3 * 4
    decreases |s|
  {
    hide Encoding;
    hide Group;
    hide Spelled;
    if |s| < 3 {
      EncodingEnd(b, s, written, layout);
    } else {
      PlainStep(b, s, written, layout);
      PlainLength(b, s[3..], written + 4, layout);
      assert LetterCount(|s|) == LetterCount(|s| - 3) + 4;
    }
  }

  // ---------- line breaks ----------

  /** The encoding does not depend on what is written before when no lines are broken. */
  lemma {:induction false} PlainIsFree(b: Codec, s: Text, v: nat, w: nat, layout: Layout)
    requires |b.alphabet| == 65 && !layout.autoNewline
    ensures Encoding(b, s, v, layout) == Encoding(b, s, w, layout)
    decreases |s|
  {
    if |s| >= 3 {
      PlainStep(b, s, v, layout);
      PlainStep(b, s, w, layout);
      PlainIsFree(b, s[3..], v + 4, w + 4, layout);
    }
  }

  /** Behind w characters: the breaks stand where a line of 76 is full, and between them the
      characters of the encoding without breaks. */
  ghost predicate IsBroken(out: Text, plain: Text, w: nat) {
    && (forall i :: 0 <= i < |out| ==>
          if (w + i) % 77 == 76 then out[i] == 0x0A
          else 0 <= i - Breaks(w, i) < |plain| && out[i] == plain[i - Breaks(w, i)])
    && |plain| == |out| - Breaks(w, |out|)
  }

  function Breaks(w: nat, i: nat): nat {
    (w + i) / 77 - w / 77
  }

  /** A group of four fits on its line, and fills it or not. */
  predicate AtGroup(w: nat) {
    w % 77 % 4 == 0 && w % 77 <= 72
  }

  lemma OnTheLine(w: nat, k: nat)
    requires w % 77 + k < 77
    ensures (w + k) / 77 == w / 77 && (w + k) % 77 == w % 77 + k
  {
    assert w + k == 77 * (w / 77) + (w % 77 + k);
  }

  lemma NextLine(w: nat)
    requires w % 77 == 72
    ensures (w + 5) / 77 == w / 77 + 1 && (w + 5) % 77 == 0
  {
    assert w + 5 == 77 * (w / 77 + 1);
  }

  /** The characters of a group are on its line; it is full behind them, or not. */
  lemma NextGroup(w: nat, i: nat)
    requires AtGroup(w)
    ensures i < 4 ==> (w + i) % 77 != 76
    ensures i <= 4 ==> Breaks(w, i) == 0
    ensures if w % 77 == 72 then (w + 5) % 77 == 0 && (w + 4) % 77 == 76 && AtGroup(w + 5)
            else (w + 5) % 77 != 0 && AtGroup(w + 4)
    ensures Breaks(w, if w % 77 == 72 then 5 else 4) == if w % 77 == 72 then 1 else 0
  {
    if i <= 4 {
      OnTheLine(w, i);
    }
    OnTheLine(w, 4);
    if w % 77 == 72 {
      NextLine(w);
    } else {
      OnTheLine(w, 5);
    }
  }

  lemma BreaksAdd(w: nat, n: nat, i: nat)
    ensures Breaks(w, n + i) == Breaks(w, n) + Breaks(w + n, i)
  {
  }

  lemma ShortIsBroken(out: Text, w: nat)
    requires AtGroup(w) && |out| <= 4
    ensures IsBroken(out, out, w)
  {
    forall i | 0 <= i <= |out| ensures Breaks(w, i) == 0 && (i < |out| ==> (w + i) % 77 != 76) {
      NextGroup(w, i);
    }
  }

  lemma GroupIsBroken(group: Text, ending: Text, out: Text, plain: Text, w: nat)
    requires AtGroup(w) && |group| == 4 && ending == if (w + 5) % 77 == 0 then [0x0A] else []
    requires IsBroken(out, plain, w + 4 + |ending|)
    ensures IsBroken(group + ending + out, group + plain, w)
  {
    hide Breaks;
    hide AtGroup;
    var n := 4 + |ending|;
    var all := group + ending + out;
    NextGroup(w, 0);
    BreaksAdd(w, n, |out|);
    forall i | 0 <= i < |all|
      ensures if (w + i) % 77 == 76 then all[i] == 0x0A
              else 0 <= i - Breaks(w, i) < 4 + |plain| && all[i] == (group + plain)[i - Breaks(w, i)]
    {
      if i < 4 {
        NextGroup(w, i);
      } else if i >= n {
        BreaksAdd(w, n, i - n);
        assert all[i] == out[i - n] && w + i == w + n + (i - n);
      }
    }
  }

  lemma {:induction false} EncodingIsBroken(b: Codec, s: Text, w: nat, layout: Layout)
    requires |b.alphabet| == 65 && layout.autoNewline && AtGroup(w)
    ensures IsBroken(Encoding(b, s, w, layout), Encoding(b, s, w, layout.(autoNewline := false)), w)
    decreases |s|
  {
    hide Encoding;
    hide Group;
    hide IsBroken;
    hide AtGroup;
    var plain := layout.(autoNewline := false);
    if |s| < 3 {
      EncodingEnd(b, s, w, layout);
      EncodingEnd(b, s, w, plain);
      ShortIsBroken(Encoding(b, s, w, layout), w);
    } else {
      assert s[0..] == s;
      EncodingStep(b, s, 0, w, layout);
      PlainStep(b, s, w, plain);
      var v := w + 4 + |Break(w + 4, layout)|;
      NextGroup(w, 0);
      EncodingIsBroken(b, s[3..], v, layout);
      PlainIsFree(b, s[3..], v, w + 4, plain);
      GroupIsBroken(Group(b, s[0], s[1], s[2]), Break(w + 4, layout), Encoding(b, s[3..], v, layout),
                    Encoding(b, s[3..], w + 4, plain), w);
    }
  }

  /** With line breaks: a break stands behind every 76 characters, and nowhere else. A full last
      line has one when the bytes make whole groups. */
  lemma BreaksStand(b: Codec, s: Text, layout: Layout)
    requires |b.alphabet| == 65 && layout.autoNewline
    ensures var out, plain := Encoding(b, s, 0, layout), Encoding(b, s, 0, layout.(autoNewline := false));
      && |plain| == |out| - |out| / 77
      && forall i :: 0 <= i < |out| ==>
           if i % 77 == 76 then out[i] == 0x0A else 0 <= i - i / 77 < |plain| && out[i] == plain[i - i / 77]
  {
    hide Encoding;
    EncodingIsBroken(b, s, 0, layout);
    var out, plain := Encoding(b, s, 0, layout), Encoding(b, s, 0, layout.(autoNewline := false));
    assert Breaks(0, |out|) == |out| / 77;
    forall i | 0 <= i < |out|
      ensures if i % 77 == 76 then out[i] == 0x0A else 0 <= i - i / 77 < |plain| && out[i] == plain[i - i / 77]
    {
      assert Breaks(0, i) == i / 77 && (0 + i) % 77 == i % 77;
    }
  }
}
