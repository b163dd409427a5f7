/** Base64 there and back: decoding undoes encoding, and encoding undoes decoding. */
module Base64RoundTrip {
  import opened Bytes
  import opened Base64

  predicate Covers(len: int, text: CString) {
    len < 0 || len >= |text|
  }

  // ---------- reading an encoding ----------

  lemma ScanLetter(b: Codec, text: CString, len: int, tolerance: Tolerance, pos: nat, x: Sextet)
    requires Valid(b) && Covers(len, text) && pos < |text| && text[pos] == b.alphabet[x]
    ensures Scan(b, text, len, tolerance, pos) == Read(x, Scan(b, text, len, tolerance, pos + 1))
  {
  }

  /** The padding and the end of the text stop the decoder without an error. */
  predicate Ends(s: Scanned) {
    s.sextets == [] && !s.refused
  }

  lemma ScanEnd(b: Codec, text: CString, len: int, tolerance: Tolerance, pos: nat)
    requires Valid(b) && pos <= |text| && (pos < |text| ==> text[pos] == b.alphabet[64])
    ensures Ends(Scan(b, text, len, tolerance, pos))
  {
  }

  /** A line break before a character of the alphabet is passed over, and so is one at the end. */
  lemma ScanBreak(b: Codec, text: CString, len: int, tolerance: Tolerance, pos: nat)
    requires Valid(b) && Covers(len, text) && pos < |text| && text[pos] == LINE_FEED
    requires LINE_FEED !in b.alphabet && tolerance != Strict
    requires pos + 1 < |text| ==> text[pos + 1] in b.alphabet
    ensures if pos + 1 < |text| then Scan(b, text, len, tolerance, pos) == Scan(b, text, len, tolerance, pos + 1)
            else Ends(Scan(b, text, len, tolerance, pos))
  {
    assert b.detab[LINE_FEED] == OUTSIDE;
    if pos + 1 < |text| {
      var i :| 0 <= i < 65 && b.alphabet[i] == text[pos + 1];
      assert b.detab[text[pos + 1]] == i;
      assert Skipped(b, text, tolerance, pos + 1) == pos + 1;
    }
  }

  lemma ScanFour(b: Codec, text: CString, len: int, tolerance: Tolerance, pos: nat, c0: Byte, c1: Byte, c2: Byte)
    requires Valid(b) && Covers(len, text) && pos + 4 <= |text| && text[pos..pos + 4] == Group(b, c0, c1, c2)
    ensures Scan(b, text, len, tolerance, pos)
         == ReadAll(Quad(c0, c1, c2), Scan(b, text, len, tolerance, pos + 4))
  {
    GroupSpells(b, c0, c1, c2);
    var q, g := Quad(c0, c1, c2), Group(b, c0, c1, c2);
    hide *;
    forall i | 0 <= i < 4 ensures text[pos + i] == g[i] {
      assert text[pos..pos + 4][i] == text[pos + i];
    }
    ScanLetter(b, text, len, tolerance, pos, q[0]);
    ScanLetter(b, text, len, tolerance, pos + 1, q[1]);
    ScanLetter(b, text, len, tolerance, pos + 2, q[2]);
    ScanLetter(b, text, len, tolerance, pos + 3, q[3]);
    ReadFour(q, Scan(b, text, len, tolerance, pos + 4));
  }

  lemma ReadFour(q: seq<Sextet>, rest: Scanned)
    requires |q| == 4
    ensures Read(q[0], Read(q[1], Read(q[2], Read(q[3], rest)))) == ReadAll(q, rest)
  {
    assert q == [q[0], q[1], q[2], q[3]];
  }

  lemma GroupSpells(b: Codec, c0: Byte, c1: Byte, c2: Byte)
    requires Valid(b)
    ensures |b.alphabet| == 65 && |Group(b, c0, c1, c2)| == 4
    ensures forall i :: 0 <= i < 4 ==> Group(b, c0, c1, c2)[i] == b.alphabet[Quad(c0, c1, c2)[i]]
  {
  }

  lemma GroupIsText(b: Codec, c0: Byte, c1: Byte, c2: Byte)
    requires Valid(b)
    ensures |Group(b, c0, c1, c2)| == 4 && 0 !in Group(b, c0, c1, c2) && Group(b, c0, c1, c2)[0] in b.alphabet
  {
    forall x: Sextet ensures b.alphabet[x] != 0 && b.alphabet[x] in b.alphabet {
    }
  }

  lemma JoinsText(g: Text, br: Text, rest: Text)
    requires 0 !in g && 0 !in br && 0 !in rest && g != []
    ensures 0 !in g + br + rest && (g + br + rest)[0] == g[0]
  {
  }

  lemma ShortIsText(b: Codec, s: Text, written: nat, layout: Layout)
    requires Valid(b) && |s| < 3
    ensures var e := Encoding(b, s, written, layout);
      0 !in e && (e != [] ==> e[0] in b.alphabet)
  {
    EncodingEnd(b, s, written, layout);
    hide Encoding;
    hide Spelled;
    hide Sextets;
    var pad := if layout.noPadding then [] else Padding(b, |s|);
    assert forall i :: 0 <= i < |pad| ==> pad[i] == b.alphabet[64];
    hide Padding;
    forall x: Sextet ensures b.alphabet[x] != 0 && b.alphabet[x] in b.alphabet {
    }
  }

  /** An encoding begins with a letter and holds no NUL. */
  lemma {:induction false} EncodingIsText(b: Codec, s: Text, written: nat, layout: Layout)
    requires Valid(b)
    ensures var e := Encoding(b, s, written, layout);
      0 !in e && (e != [] ==> e[0] in b.alphabet)
    decreases |s|
  {
    hide *;
    if |s| < 3 {
      ShortIsText(b, s, written, layout);
    } else {
      Sizes(b, written + 4, layout);
      EncodingStep(b, s, 0, written, layout);
      assert s[0..] == s;
      EncodingIsText(b, s[3..], written + 4 + |Break(written + 4, layout)|, layout);
      GroupIsText(b, s[0], s[1], s[2]);
      JoinsText(Group(b, s[0], s[1], s[2]), Break(written + 4, layout),
                Encoding(b, s[3..], written + 4 + |Break(written + 4, layout)|, layout));
    }
  }

  lemma ScanShort(b: Codec, text: CString, len: int, tolerance: Tolerance, pos: nat,
                  s: Text, written: nat, layout: Layout)
    requires Valid(b) && Covers(len, text) && pos <= |text| && |s| < 3
    requires text[pos..] == Encoding(b, s, written, layout)
    ensures var scanned := Scan(b, text, len, tolerance, pos);
      scanned.sextets == Sextets(s) && !scanned.refused
  {
    EncodingEnd(b, s, written, layout);
    ShortSextets(s);
    var x := Sextets(s);
    SpelledFour(b, x);
    var e := Encoding(b, s, written, layout);
    assert forall i :: 0 <= i < |x| ==> e[i] == b.alphabet[x[i]];
    assert forall i :: |x| <= i < |e| ==> e[i] == b.alphabet[64];
    hide Encoding;
    hide Spelled;
    hide Sextets;
    hide Padding;
    ScanShortText(b, text, len, tolerance, pos, x, e);
  }

  lemma ShortSextets(s: Text)
    requires |s| < 3
    ensures |Sextets(s)| == if s == [] then 0 else |s| + 1
  {
  }

  /** A few letters, and padding or the end behind them. */
  lemma {:induction false} ScanShortText(b: Codec, text: CString, len: int, tolerance: Tolerance, pos: nat,
                                         x: seq<Sextet>, e: Text)
    requires Valid(b) && Covers(len, text) && pos <= |text| && |x| <= |e| && text[pos..] == e
    requires forall i :: 0 <= i < |x| ==> e[i] == b.alphabet[x[i]]
    requires forall i :: |x| <= i < |e| ==> e[i] == b.alphabet[64]
    ensures var scanned := Scan(b, text, len, tolerance, pos);
      scanned.sextets == x && !scanned.refused
    decreases |x|
  {
    assert forall i :: 0 <= i < |e| ==> text[pos + i] == e[i];
    if x == [] {
      ScanEnd(b, text, len, tolerance, pos);
    } else {
      assert text[pos] == e[0];
      ScanLetter(b, text, len, tolerance, pos, x[0]);
      hide Scan;
      ScanShortText(b, text, len, tolerance, pos + 1, x[1..], e[1..]);
      assert x == [x[0]] + x[1..];
    }
  }

  lemma {:induction false} ScanOfEncoding(b: Codec, text: CString, len: int, tolerance: Tolerance, pos: nat,
                                          s: Text, written: nat, layout: Layout)
    requires Valid(b) && Covers(len, text) && pos <= |text|
    requires layout.autoNewline ==> LINE_FEED !in b.alphabet && tolerance != Strict
    requires text[pos..] == Encoding(b, s, written, layout)
    ensures var scanned := Scan(b, text, len, tolerance, pos);
      scanned.sextets == Sextets(s) && !scanned.refused
    decreases |s|
  {
    hide *;
    if |s| < 3 {
      ScanShort(b, text, len, tolerance, pos, s, written, layout);
    } else {
      SextetsStep(s);
      Sizes(b, written + 4, layout);
      var br := Break(written + 4, layout);
      var next := written + 4 + |br|;
      EncodingStep(b, s, 0, written, layout);
      assert s[0..] == s;
      GroupIsText(b, s[0], s[1], s[2]);
      SplitSuffix(text, pos, Group(b, s[0], s[1], s[2]), br, Encoding(b, s[3..], next, layout));
      ScanFour(b, text, len, tolerance, pos, s[0], s[1], s[2]);
      ScanOfEncoding(b, text, len, tolerance, pos + 4 + |br|, s[3..], next, layout);
      if br != [] {
        ScanPastBreak(b, text, len, tolerance, pos + 4, s[3..], next, layout);
      }
      ReadAllAdds(Quad(s[0], s[1], s[2]), Scan(b, text, len, tolerance, pos + 4));
    }
  }

  lemma Sizes(b: Codec, written: nat, layout: Layout)
    requires Valid(b)
    ensures |b.alphabet| == 65 && 0 !in Break(written, layout)
    ensures Break(written, layout) == [] || (layout.autoNewline && Break(written, layout) == [LINE_FEED])
  {
  }

  lemma ReadAllAdds(x: seq<Sextet>, rest: Scanned)
    ensures ReadAll(x, rest).sextets == x + rest.sextets && ReadAll(x, rest).refused == rest.refused
  {
  }

  /** A line break in front of the rest of an encoding changes nothing. */
  lemma ScanPastBreak(b: Codec, text: CString, len: int, tolerance: Tolerance, pos: nat,
                      s: Text, written: nat, layout: Layout)
    requires Valid(b) && Covers(len, text) && pos < |text| && text[pos] == LINE_FEED
    requires LINE_FEED !in b.alphabet && tolerance != Strict
    requires text[pos + 1..] == Encoding(b, s, written, layout)
    requires var scanned := Scan(b, text, len, tolerance, pos + 1); scanned.sextets == Sextets(s) && !scanned.refused
    ensures var scanned := Scan(b, text, len, tolerance, pos); scanned.sextets == Sextets(s) && !scanned.refused
  {
    EncodingIsText(b, s, written, layout);
    assert pos + 1 < |text| ==> text[pos + 1] == text[pos + 1..][0];
    ScanBreak(b, text, len, tolerance, pos);
    ScanAfterBreak(b, text, len, tolerance, pos + 1, s, written, layout);
    hide Scan;
    hide Encoding;
    hide Sextets;
  }

  lemma SextetsStep(s: Text)
    requires |s| >= 3
    ensures Sextets(s)
         == Quad(s[0], s[1], s[2]) + Sextets(s[3..])
  {
  }

  lemma ScanAfterBreak(b: Codec, text: CString, len: int, tolerance: Tolerance, pos: nat,
                       s: Text, written: nat, layout: Layout)
    requires Valid(b) && pos <= |text| && text[pos..] == Encoding(b, s, written, layout)
    ensures pos == |text| ==> Sextets(s) == []
  {
    if |s| >= 3 {
      EncodingStep(b, s, 0, written, layout);
      assert s[0..] == s;
    } else {
      EncodingEnd(b, s, written, layout);
    }
  }

  lemma SplitSuffix(text: Text, pos: nat, g: Text, br: Text, rest: Text)
    requires pos <= |text| && text[pos..] == g + br + rest
    ensures pos + |g| + |br| <= |text| && text[pos..pos + |g|] == g
    ensures text[pos + |g|..pos + |g| + |br|] == br && text[pos + |g| + |br|..] == rest
    ensures br != [] ==> text[pos + |g|] == br[0]
  {
    var t := text[pos..];
    assert t[..|g|] == g && t[|g|..|g| + |br|] == br && t[|g| + |br|..] == rest;
    assert br != [] ==> t[|g|] == br[0];
  }

  /** Whatever the padding and the line breaks, decoding gives back what was encoded. Line breaks
      must be foreign to the alphabet and tolerated; the alphabet is otherwise free. */
  lemma DecodeUndoesEncode(b: Codec, s: Text, layout: Layout, len: int, tolerance: Tolerance)
    requires Valid(b)
    requires layout.autoNewline ==> LINE_FEED !in b.alphabet && tolerance != Strict
    requires len < 0 || len >= |Encoding(b, s, 0, layout)|
    ensures 0 !in Encoding(b, s, 0, layout)
    ensures Decoding(b, Encoding(b, s, 0, layout), len, tolerance) == Output(s)
  {
    hide Encoding;
    EncodingIsText(b, s, 0, layout);
    var text: CString := Encoding(b, s, 0, layout);
    assert text[0..] == text;
    ScanOfEncoding(b, text, len, tolerance, 0, s, 0, layout);
    OctetsOfSextets(s);
  }

  // ---------- encoding what was decoded ----------

  /** The places in the alphabet of the characters of a text. */
  function Places(b: Codec, text: Text): seq<Sextet>
    requires Valid(b) && forall i :: 0 <= i < |text| ==> b.detab[text[i]] < 64
  {
    if text == [] then [] else [b.detab[text[0]]] + Places(b, text[1..])
  }

  lemma {:induction false} SpelledPlaces(b: Codec, text: Text)
    requires Valid(b) && forall i :: 0 <= i < |text| ==> b.detab[text[i]] < 64
    ensures Spelled(b, Places(b, text)) == text
  {
    if text != [] {
      SpelledPlaces(b, text[1..]);
      var x := b.detab[text[0]];
      assert text[0] in b.alphabet by {
        assert b.detab[text[0]] != OUTSIDE;
      }
      assert b.alphabet[x] == text[0];
      assert text == [text[0]] + text[1..];
    }
  }

  lemma {:induction false} ScanOfLetters(b: Codec, text: CString, len: int, tolerance: Tolerance, pos: nat)
    requires Valid(b) && Covers(len, text) && pos <= |text|
    requires forall i :: 0 <= i < |text| ==> b.detab[text[i]] < 64
    ensures var scanned := Scan(b, text, len, tolerance, pos);
      scanned.sextets == Places(b, text[pos..]) && !scanned.refused
    decreases |text| - pos
  {
    if pos < |text| {
      ScanOfLetters(b, text, len, tolerance, pos + 1);
      assert text[pos..][1..] == text[pos + 1..];
    }
  }

  lemma {:induction false} SpelledSum(b: Codec, x: seq<Sextet>, y: seq<Sextet>)
    requires |b.alphabet| == 65
    ensures Spelled(b, x + y) == Spelled(b, x) + Spelled(b, y)
  {
    if x == [] {
      assert x + y == y;
    } else {
      SpelledSum(b, x[1..], y);
      assert (x + y)[1..] == x[1..] + y;
    }
  }

  /** Without padding and line breaks an encoding is its sextets spelled out. */
  lemma {:induction false} PlainEncoding(b: Codec, s: Text, written: nat)
    requires |b.alphabet| == 65
    ensures Encoding(b, s, written, Layout(true, false)) == Spelled(b, Sextets(s))
    decreases |s|
  {
    if |s| >= 3 {
      PlainEncoding(b, s[3..], written + 4);
      SpelledSum(b, Sextets(s[..3]), Sextets(s[3..]));
      assert s[..3][3..] == [];
      assert Sextets(s) == Sextets(s[..3]) + Sextets(s[3..]);
    }
  }

  /** Of the texts of letters the decoder takes exactly those whose sextets make whole bytes, and
      encoding what it gives restores the text. */
  lemma EncodeUndoesDecode(b: Codec, text: CString, len: int, tolerance: Tolerance)
    requires Valid(b) && (len < 0 || len >= |text|)
    requires forall i :: 0 <= i < |text| ==> b.detab[text[i]] < 64
    ensures Decoding(b, text, len, tolerance).Output? <==> Whole(Places(b, text))
    ensures Decoding(b, text, len, tolerance).Output? ==>
      Encoding(b, Decoding(b, text, len, tolerance).bytes, 0, Layout(true, false)) == text
  {
    hide Encoding;
    hide Spelled;
    ScanOfLetters(b, text, len, tolerance, 0);
    assert text[0..] == text;
    var x := Places(b, text);
    if Whole(x) {
      SextetsOfOctets(x);
      PlainEncoding(b, Octets(x), 0);
      SpelledPlaces(b, text);
    }
  }
}
