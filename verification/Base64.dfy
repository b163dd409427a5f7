/** base64.c: encoding with padding and line breaks, and the decoder that collects bits as it goes.
  The alphabets and the line-free form are those of sections 4 and 5 of RFC 4648. */
module Base64 {
  import opened Bytes
  import opened Sequences

  type Sextet = x: int | 0 <= x < 64

  /** A base64_t: 64 characters and the padding one, and the place of each byte among them. */
  datatype Codec = Codec(alphabet: seq<Byte>, detab: seq<Byte>)

  /** The flags of base64_encode. */
  datatype Layout = Layout(noPadding: bool, autoNewline: bool)

  /** The flags of base64_decode; ignoring what is not in the alphabet wins. */
  datatype Tolerance = Strict | IgnoreSpace | IgnoreNonAlphabet

  /** What base64_decode returns and writes: the bytes, or how much of the text it had consumed. */
  datatype Decoded = Output(bytes: Text) | Failure(consumed: nat)

  const OUTSIDE: Byte := 65
  const EQUALS: Byte := 0x3D
  const LINE := 77

  ghost predicate Valid(b: Codec) {
    && |b.alphabet| == 65 && |b.detab| == 256
    && (forall i, j :: 0 <= i < j < 65 ==> b.alphabet[i] != b.alphabet[j])
    && (forall i :: 0 <= i < 65 ==> b.alphabet[i] != 0 && b.detab[b.alphabet[i]] == i)
    && (forall c: Byte :: c !in b.alphabet ==> b.detab[c] == OUTSIDE)
  }

  // ---------- bytes and sextets ----------

  /** The four sextets of three bytes. */
  function Sextet0(c0: int): Sextet
    requires 0 <= c0 < 256
  {
    c0 / 4
  }

  function Sextet1(c0: int, c1: int): Sextet
    requires 0 <= c0 < 256 && 0 <= c1 < 256
  {
    c0 % 4 * 16 + c1 / 16
  }

  function Sextet2(c1: int, c2: int): Sextet
    requires 0 <= c1 < 256 && 0 <= c2 < 256
  {
    c1 % 16 * 4 + c2 / 64
  }

  function Sextet3(c2: int): Sextet
    requires 0 <= c2 < 256
  {
    c2 % 64
  }

  function Quad(c0: Byte, c1: Byte, c2: Byte): (r: seq<Sextet>)
    ensures |r| == 4
  {
    [Sextet0(c0), Sextet1(c0, c1), Sextet2(c1, c2), Sextet3(c2)]
  }

  /** The bits of the bytes in groups of six, the last group filled up with zeros. */
  function Sextets(s: Text): seq<Sextet> {
    if s == [] then []
    else if |s| == 1 then [Sextet0(s[0]), Sextet1(s[0], 0)]
    else if |s| == 2 then [Sextet0(s[0]), Sextet1(s[0], s[1]), Sextet2(s[1], 0)]
    else Quad(s[0], s[1], s[2]) + Sextets(s[3..])
  }

  /** The three bytes of a group of four sextets. */
  function Byte0(x: int, y: int): Byte
    requires 0 <= x < 64 && 0 <= y < 64
  {
    x * 4 + y / 16
  }

  function Byte1(x: int, y: int): Byte
    requires 0 <= x < 64 && 0 <= y < 64
  {
    x % 16 * 16 + y / 4
  }

  function Byte2(x: int, y: int): Byte
    requires 0 <= x < 64 && 0 <= y < 64
  {
    x % 4 * 64 + y
  }

  /** The full bytes in a row of sextets. */
  function Octets(x: seq<Sextet>): Text {
    if |x| < 2 then []
    else if |x| == 2 then [Byte0(x[0], x[1])]
    else if |x| == 3 then [Byte0(x[0], x[1]), Byte1(x[1], x[2])]
    else [Byte0(x[0], x[1]), Byte1(x[1], x[2]), Byte2(x[2], x[3])] + Octets(x[4..])
  }

  /** Nothing in the bits of the last sextet of an open group that no byte takes up. */
  predicate NothingSpare(x: int, n: int) {
    n == 0 || (n == 2 && x % 16 == 0) || (n == 3 && x % 4 == 0)
  }

  function Last(x: seq<Sextet>): int {
    if x == [] then 0 else x[|x| - 1]
  }

  /** Sextets that some bytes have: no lonely sextet at the end, and nothing in the bits to spare. */
  predicate Whole(x: seq<Sextet>) {
    NothingSpare(Last(x), |x| % 4)
  }

  lemma DivMod(q: nat, r: nat)
    ensures r < 4 ==> (q * 4 + r) / 4 == q && (q * 4 + r) % 4 == r
    ensures r < 16 ==> (q * 16 + r) / 16 == q && (q * 16 + r) % 16 == r
    ensures r < 64 ==> (q * 64 + r) / 64 == q && (q * 64 + r) % 64 == r
  {
  }

  lemma FirstByteIsHeld(c0: Byte, c1: Byte)
    ensures Byte0(Sextet0(c0), Sextet1(c0, c1)) == c0 && NothingSpare(Sextet1(c0, 0), 2)
  {
    DivMod(c0 % 4, c1 / 16);
    DivMod(c0 % 4, 0);
  }

  lemma SecondByteIsHeld(c0: Byte, c1: Byte, c2: Byte)
    ensures Byte1(Sextet1(c0, c1), Sextet2(c1, c2)) == c1 && NothingSpare(Sextet2(c1, 0), 3)
  {
    DivMod(c0 % 4, c1 / 16);
    DivMod(c1 % 16, c2 / 64);
    DivMod(c1 % 16, 0);
  }

  lemma ThirdByteIsHeld(c1: Byte, c2: Byte)
    ensures Byte2(Sextet2(c1, c2), Sextet3(c2)) == c2
  {
    DivMod(c1 % 16, c2 / 64);
  }

  lemma SextetsHoldBytes(c0: Byte, c1: Byte, c2: Byte)
    ensures Byte0(Sextet0(c0), Sextet1(c0, c1)) == c0
    ensures Byte1(Sextet1(c0, c1), Sextet2(c1, c2)) == c1
    ensures Byte2(Sextet2(c1, c2), Sextet3(c2)) == c2
    ensures NothingSpare(Sextet1(c0, 0), 2) && NothingSpare(Sextet2(c1, 0), 3)
  {
    hide *;
    FirstByteIsHeld(c0, c1);
    SecondByteIsHeld(c0, c1, c2);
    ThirdByteIsHeld(c1, c2);
  }

  lemma BytesHoldSextets(w: Sextet, x: Sextet, y: Sextet, z: Sextet)
    ensures Sextet0(Byte0(w, x)) == w && Sextet1(Byte0(w, x), Byte1(x, y)) == x
    ensures Sextet2(Byte1(x, y), Byte2(y, z)) == y && Sextet3(Byte2(y, z)) == z
    ensures NothingSpare(x, 2) ==> Sextet1(Byte0(w, x), 0) == x
    ensures NothingSpare(y, 3) ==> Sextet2(Byte1(x, y), 0) == y
  {
    DivMod(w, x / 16);
    DivMod(x % 16, y / 4);
    DivMod(y % 4, z);
  }

  lemma WholeTail(x: seq<Sextet>, tail: seq<Sextet>)
    requires |x| == 4
    ensures Whole(x + tail) <==> Whole(tail)
  {
    assert |x + tail| % 4 == |tail| % 4;
  }

  lemma SmallSizes(x: seq<Sextet>)
    requires |x| < 4
    ensures Whole(x) <==> NothingSpare(Last(x), |x|)
    ensures !NothingSpare(Last(x), 1)
  {
  }

  lemma {:induction false} OctetsOfSextets(s: Text)
    ensures Octets(Sextets(s)) == s && Whole(Sextets(s))
    decreases |s|
  {
    hide Byte0;
    hide Byte1;
    hide Byte2;
    hide Sextet0;
    hide Sextet1;
    hide Sextet2;
    hide Sextet3;
    hide Whole;
    hide NothingSpare;
    if |s| < 3 {
      SextetsHoldBytes(if s == [] then 0 else s[0], if |s| == 2 then s[1] else 0, 0);
      SmallSizes(Sextets(s));
      assert |s| == 1 ==> s == [s[0]];
      assert NothingSpare(0, 0) by {
        EmptyIsWhole();
      }
    } else {
      OctetsOfSextets(s[3..]);
      WholeTail(Sextets(s)[..4], Sextets(s[3..]));
      SextetsHoldBytes(s[0], s[1], s[2]);
      assert Sextets(s)[4..] == Sextets(s[3..]);
      assert s == [s[0], s[1], s[2]] + s[3..];
    }
  }

  lemma EmptyIsWhole()
    ensures NothingSpare(0, 0)
  {
  }

  lemma {:induction false} SextetsOfOctets(x: seq<Sextet>)
    requires Whole(x)
    ensures Sextets(Octets(x)) == x
    decreases |x|
  {
    hide Byte0;
    hide Byte1;
    hide Byte2;
    hide Sextet0;
    hide Sextet1;
    hide Sextet2;
    hide Sextet3;
    hide Whole;
    hide NothingSpare;
    if |x| < 4 {
      SmallSizes(x);
      if |x| >= 2 {
        BytesHoldSextets(x[0], x[1], if |x| == 3 then x[2] else 0, 0);
      }
    } else {
      assert x == x[..4] + x[4..];
      WholeTail(x[..4], x[4..]);
      SextetsOfOctets(x[4..]);
      BytesHoldSextets(x[0], x[1], x[2], x[3]);
      assert Octets(x)[3..] == Octets(x[4..]);
    }
  }

  lemma OpenGroup(n: nat)
    requires n >= 4
    ensures (n - 4) % 4 == n % 4
  {
  }

  /** One sextet more, after whole groups of four and n others. */
  lemma {:induction false} OctetsGrow(x: seq<Sextet>, y: Sextet)
    ensures Octets(x + [y]) == Octets(x) +
      match |x| % 4
      case 0 => []
      case 1 => [Byte0(x[|x| - 1], y)]
      case 2 => [Byte1(x[|x| - 1], y)]
      case _ => [Byte2(x[|x| - 1], y)]
    decreases |x|
  {
    hide Byte0;
    hide Byte1;
    hide Byte2;
    if |x| >= 4 {
      OctetsGrow(x[4..], y);
      assert (x + [y])[4..] == x[4..] + [y];
      OpenGroup(|x|);
    }
  }

  // ---------- the encoding ----------

  function Letter(b: Codec, x: Sextet): Byte
    requires |b.alphabet| == 65
  {
    b.alphabet[x]
  }

  function Spelled(b: Codec, x: seq<Sextet>): Text
    requires |b.alphabet| == 65
  {
    if x == [] then [] else [Letter(b, x[0])] + Spelled(b, x[1..])
  }

  /** The padding that makes up the last group. */
  function Padding(b: Codec, remain: nat): Text
    requires |b.alphabet| == 65
  {
    if remain == 1 then [b.alphabet[64], b.alphabet[64]] else if remain == 2 then [b.alphabet[64]] else []
  }

  /** The encoding of s behind the given number of characters: a line break follows each group
      that ends a line of 76. */
  function Encoding(b: Codec, s: Text, written: nat, layout: Layout): Text
    requires |b.alphabet| == 65
    decreases |s|
  {
    if |s| < 3 then Spelled(b, Sextets(s)) + (if layout.noPadding then [] else Padding(b, |s|))
    else
      var ending := Break(written + 4, layout);
      Spelled(b, Sextets(s[..3])) + ending + Encoding(b, s[3..], written + 4 + |ending|, layout)
  }

  /** The first n characters differ from all that stand behind them. */
  ghost predicate Differ(a: seq<Byte>, n: nat) {
    forall i, j :: 0 <= i < n && i < j < |a| ==> a[i] != a[j]
  }

  lemma OneMoreDiffers(a: seq<Byte>, n: nat)
    requires n < |a| && Differ(a, n)
    ensures if a[n] in a[n + 1..] then exists j :: n < j < |a| && a[n] == a[j] else Differ(a, n + 1)
  {
    assert forall j :: n < j < |a| ==> a[n + 1..][j - n - 1] == a[j];
  }

  lemma CharactersInUse(alphabet: CString)
    requires |alphabet| >= 64
    ensures alphabet[..64] + [if |alphabet| > 64 then alphabet[64] else EQUALS]
         == if |alphabet| < 65 then alphabet + [EQUALS] else alphabet[..65]
  {
  }

  method Init(alphabet: CString) returns (result: Option<Codec>)
    ensures var chars := if |alphabet| < 65 then alphabet + [0x3D] else alphabet[..65];
      if |alphabet| < 64 || exists i, j :: 0 <= i < j < 65 && chars[i] == chars[j] then result == None
      else result.Some? && Valid(result.value) && result.value.alphabet == chars
  {
    if |alphabet| < 64 {
      return None;
    }
    CharactersInUse(alphabet);
    var a := alphabet[..64] + [if |alphabet| > 64 then alphabet[64] else EQUALS];
    for i := 0 to 65
      invariant Differ(a, i)
    {
      OneMoreDiffers(a, i);
      if a[i] in a[i + 1..] {
        return None;
      }
    }
    var detab := Table(a);
    return Some(Codec(a, detab));
  }

  /** The decoding table: the place of each character, and 65 for the others. */
  method Table(a: seq<Byte>) returns (detab: seq<Byte>)
    requires |a| == 65 && forall i, j :: 0 <= i < j < 65 ==> a[i] != a[j]
    ensures |detab| == 256
    ensures forall i :: 0 <= i < 65 ==> detab[a[i]] == i
    ensures forall c: Byte :: c !in a ==> detab[c] == OUTSIDE
  {
    detab := seq(256, _ => OUTSIDE);
    for i := 0 to 65
      invariant |detab| == 256
      invariant forall k :: 0 <= k < i ==> detab[a[k]] == k
      invariant forall c: Byte :: c !in a[..i] ==> detab[c] == OUTSIDE
    {
      detab := detab[a[i] := i];
    }
    assert a[..65] == a;
  }

  /** The four letters of three bytes. */
  function Group(b: Codec, c0: Byte, c1: Byte, c2: Byte): (r: Text)
    requires |b.alphabet| == 65
    ensures |r| == 4
  {
    [b.alphabet[Sextet0(c0)], b.alphabet[Sextet1(c0, c1)], b.alphabet[Sextet2(c1, c2)], b.alphabet[Sextet3(c2)]]
  }

  /** The line break behind the given number of characters. */
  function Break(written: nat, layout: Layout): Text {
    if layout.autoNewline && (written + 1) % LINE == 0 then [LINE_FEED] else []
  }

  lemma SpelledFour(b: Codec, x: seq<Sextet>)
    requires |b.alphabet| == 65 && |x| <= 4
    ensures Spelled(b, x) == seq(|x|, i requires 0 <= i < |x| => b.alphabet[x[i]])
  {
    if |x| > 1 {
      assert x[1..][1..] == x[2..];
      if |x| > 2 {
        assert x[2..][1..] == x[3..];
      }
    }
  }

  lemma EncodingStep(b: Codec, s: Text, pos: nat, written: nat, layout: Layout)
    requires |b.alphabet| == 65 && pos + 3 <= |s|
    ensures Encoding(b, s[pos..], written, layout)
         == Group(b, s[pos], s[pos + 1], s[pos + 2]) + Break(written + 4, layout)
            + Encoding(b, s[pos + 3..], written + 4 + |Break(written + 4, layout)|, layout)
  {
    hide Sextet0;
    hide Sextet1;
    hide Sextet2;
    hide Sextet3;
    hide Spelled;
    var three := s[pos..][..3];
    assert Sextets(three[3..]) == [];
    SpelledFour(b, Sextets(three));
    assert s[pos..][3..] == s[pos + 3..];
  }

  lemma EncodingEnd(b: Codec, s: Text, written: nat, layout: Layout)
    requires |b.alphabet| == 65 && |s| < 3
    ensures Encoding(b, s, written, layout) ==
      Spelled(b, Sextets(s)) + if layout.noPadding then [] else Padding(b, |s|)
    ensures Spelled(b, Sextets(s)) ==
      if |s| == 1 then [b.alphabet[Sextet0(s[0])], b.alphabet[Sextet1(s[0], 0)]]
      else if |s| == 2 then [b.alphabet[Sextet0(s[0])], b.alphabet[Sextet1(s[0], s[1])], b.alphabet[Sextet2(s[1], 0)]]
      else []
  {
    SpelledFour(b, Sextets(s));
  }

  method Encode(b: Codec, s: Text, layout: Layout) returns (out: Text)
    requires Valid(b)
    ensures out == Encoding(b, s, 0, layout)
  {
    hide Encoding;
    hide Group;
    hide Break;
    var remain := |s| % 3;
    var end := |s| - remain;
    var pos := 0;
    out := [];
    assert s[0..] == s;
    while pos < end
      invariant 0 <= pos <= end && (end - pos) % 3 == 0
      invariant out + Encoding(b, s[pos..], |out|, layout) == Encoding(b, s, 0, layout)
    {
      EncodingStep(b, s, pos, |out|, layout);
      ghost var before, after := out, Encoding(b, s[pos + 3..], |out| + 4 + |Break(|out| + 4, layout)|, layout);
      var c0, c1, c2 := s[pos], s[pos + 1], s[pos + 2];
      pos := pos + 3;
      out := EncodeGroup(b, c0, c1, c2, out, layout);
      Regroup(before, Group(b, c0, c1, c2) + Break(|before| + 4, layout), after);
    }
    var rest := EncodeRest(b, s[pos..], |out|, layout);
    out := out + rest;
  }

  /** Three bytes, and the line break behind them. */
  method EncodeGroup(b: Codec, c0: Byte, c1: Byte, c2: Byte, done: Text, layout: Layout) returns (out: Text)
    requires Valid(b)
    ensures out == done + (Group(b, c0, c1, c2) + Break(|done| + 4, layout))
  {
    out := done;
    out := out + [b.alphabet[c0 / 4]];
    out := out + [b.alphabet[c0 % 4 * 16 + c1 / 16]];
    out := out + [b.alphabet[c1 % 16 * 4 + c2 / 64]];
    out := out + [b.alphabet[c2 % 64]];
    if layout.autoNewline && (|out| + 1) % LINE == 0 {
      out := out + [LINE_FEED];
    }
  }

  /** The one or two bytes that make no whole group. */
  method EncodeRest(b: Codec, s: Text, ghost written: nat, layout: Layout) returns (out: Text)
    requires Valid(b) && |s| < 3
    ensures out == Encoding(b, s, written, layout)
  {
    hide Encoding;
    hide Spelled;
    EncodingEnd(b, s, written, layout);
    out := [];
    if |s| == 1 {
      out := out + [b.alphabet[s[0] / 4]];
      out := out + [b.alphabet[s[0] % 4 * 16]];
      if !layout.noPadding {
        out := out + [b.alphabet[64]];
        out := out + [b.alphabet[64]];
      }
    } else if |s| == 2 {
      out := out + [b.alphabet[s[0] / 4]];
      out := out + [b.alphabet[s[0] % 4 * 16 + s[1] / 16]];
      out := out + [b.alphabet[s[1] % 16 * 4]];
      if !layout.noPadding {
        out := out + [b.alphabet[64]];
      }
    }
  }

  // ---------- the decoding ----------

  /** Reading may go on at the position; a negative length sets no limit. */
  predicate InReach(pos: nat, len: int) {
    len < 0 || pos < len
  }

  /** What the decoder has read when it stops: the sextets, how far it came, and whether the
      character that stopped it is an error. */
  datatype Scanned = Scanned(sextets: seq<Sextet>, consumed: nat, refused: bool)

  /** Stopped by c. A byte that ends the text within its length is never an error. */
  function Stopped(b: Codec, c: Byte, consumed: nat, len: int): Scanned
    requires |b.alphabet| == 65
  {
    Scanned([], consumed, InReach(consumed, len) && c != 0 && c != b.alphabet[64])
  }

  predicate Skips(b: Codec, tolerance: Tolerance, c: Byte)
    requires |b.detab| == 256
  {
    b.detab[c] > 64 && (tolerance == IgnoreNonAlphabet || (tolerance == IgnoreSpace && IsSpace(c)))
  }

  /** The first position the inner loops do not pass over. They look at no length. */
  function Skipped(b: Codec, text: CString, tolerance: Tolerance, pos: nat): (r: nat)
    requires |b.detab| == 256 && pos <= |text|
    ensures pos <= r <= |text|
    decreases |text| - pos
  {
    if pos == |text| || !Skips(b, tolerance, text[pos]) then pos else Skipped(b, text, tolerance, pos + 1)
  }

  /** The sextets from a position on, up to what stops the decoder. */
  function Scan(b: Codec, text: CString, len: int, tolerance: Tolerance, pos: nat): Scanned
    requires Valid(b) && pos <= |text|
    decreases |text| - pos
  {
    if !InReach(pos, len) then Scanned([], pos, false)
    else if pos == |text| then Stopped(b, 0, pos + 1, len)
    else if b.detab[text[pos]] < 64 then Read(b.detab[text[pos]], Scan(b, text, len, tolerance, pos + 1))
    else if b.detab[text[pos]] == 64 || tolerance == Strict then Stopped(b, text[pos], pos + 1, len)
    else
      var q := Skipped(b, text, tolerance, pos + 1);
      if q == |text| then Stopped(b, 0, q + 1, len)
      else if b.detab[text[q]] >= 64 then Stopped(b, text[q], q + 1, len)
      else Read(b.detab[text[q]], Scan(b, text, len, tolerance, q + 1))
  }

  function Read(x: Sextet, rest: Scanned): Scanned {
    rest.(sextets := [x] + rest.sextets)
  }

  function ReadAll(x: seq<Sextet>, rest: Scanned): Scanned {
    rest.(sextets := x + rest.sextets)
  }

  /** The sextets make whole bytes, and nothing but the padding or the end stopped the decoder. */
  function Decoding(b: Codec, text: CString, len: int, tolerance: Tolerance): Decoded
    requires Valid(b)
  {
    var scanned := Scan(b, text, len, tolerance, 0);
    if scanned.refused || !Whole(scanned.sextets) then Failure(scanned.consumed) else Output(Octets(scanned.sextets))
  }

  /** The bits that the last sextet of an open group has left over, as the decoder keeps them. */
  predicate Keeps(x: seq<Sextet>, n: nat, r: nat) {
    && n == |x| % 4
    && (n == 1 ==> r == Last(x) * 4)
    && (n == 2 ==> r == Last(x) * 16)
    && (n == 3 ==> r == Last(x) * 64)
  }

  lemma ReadOneMore(x: seq<Sextet>, y: Sextet, rest: Scanned)
    ensures ReadAll(x, Read(y, rest)) == ReadAll(x + [y], rest)
  {
    assert x + ([y] + rest.sextets) == x + [y] + rest.sextets;
  }

  lemma NothingIsRead(rest: Scanned)
    ensures ReadAll([], rest) == rest
  {
  }

  lemma NothingIsLeftToRead(x: seq<Sextet>, rest: Scanned)
    requires rest.sextets == []
    ensures ReadAll(x, rest) == rest.(sextets := x)
  {
  }

  lemma EmptyIsKept()
    ensures Keeps([], 0, 0) && Octets([]) == []
  {
  }

  lemma LowByte(high: nat, low: nat)
    requires low < 256
    ensures (high * 256 + low) % 256 == low
  {
  }

  lemma KeptBits(x: Sextet, y: Sextet)
    ensures (x * 4 + y / 16) % 256 == Byte0(x, y)
    ensures (x * 16 + y / 4) % 256 == Byte1(x, y)
    ensures (x * 64 + y) % 256 == Byte2(x, y)
  {
    LowByte(0, x * 4 + y / 16);
    LowByte(x / 16, x % 16 * 16 + y / 4);
    LowByte(x / 4, x % 4 * 64 + y);
    assert x == x / 16 * 16 + x % 16;
    assert x == x / 4 * 4 + x % 4;
  }

  /** What is left over at the end is nothing exactly when the sextets make whole bytes. */
  lemma KeptAtTheEnd(x: seq<Sextet>, n: nat, r: nat)
    requires Keeps(x, n, r)
    ensures (n == 1 || (n != 0 && r % 256 != 0)) <==> !Whole(x)
  {
    if n >= 2 {
      var y := Last(x);
      assert y * 16 == y / 16 * 256 + y % 16 * 16;
      assert y * 64 == y / 4 * 256 + y % 4 * 64;
    }
  }

  /** One turn of the switch: a sextet joins, and completes a byte unless it opens a group. */
  method Collect(ghost x: seq<Sextet>, y: Sextet, n: nat, r: nat, d: Text) returns (n': nat, r': nat, d': Text)
    requires Keeps(x, n, r) && d == Octets(x)
    ensures Keeps(x + [y], n', r') && d' == Octets(x + [y])
  {
    hide Octets;
    hide Byte0;
    hide Byte1;
    hide Byte2;
    OctetsGrow(x, y);
    if n > 0 {
      KeptBits(x[|x| - 1], y);
    }
    match n {
      case 0 => n', r', d' := 1, y * 4, d;
      case 1 => n', r', d' := 2, y * 16, d + [(r + y / 16) % 256];
      case 2 => n', r', d' := 3, y * 64, d + [(r + y / 4) % 256];
      case _ => n', r', d' := 0, r, d + [(r + y) % 256];
    }
  }

  method Decode(b: Codec, text: CString, len: int, tolerance: Tolerance) returns (result: Decoded)
    requires Valid(b)
    ensures result == Decoding(b, text, len, tolerance)
  {
    hide Octets;
    hide Whole;
    hide Skipped;
    hide Keeps;
    hide Read;
    hide ReadAll;
    assert Keeps([], 0, 0) && Octets([]) == [] by {
      EmptyIsKept();
    }
    ghost var x: seq<Sextet> := [];
    var pos, n, r, d := 0, 0, 0, [];
    var c: Byte := 0;
    ghost var whole := Scan(b, text, len, tolerance, 0);
    ghost var rest := whole;
    NothingIsRead(whole);
    while true
      invariant pos <= |text|
      invariant Keeps(x, n, r) && d == Octets(x)
      invariant rest == Scan(b, text, len, tolerance, pos) && whole == ReadAll(x, rest)
      decreases |text| - pos
    {
      if !InReach(pos, len) {
        break;
      }
      c := if pos < |text| then text[pos] else 0;
      pos := pos + 1;
      if c == 0 {
        break;
      }
      var y := b.detab[c];
      if y >= 64 {
        if y == 64 || tolerance == Strict {
          break;
        }
        c, pos := Skip(b, text, tolerance, pos);
        if c == 0 || b.detab[c] >= 64 {
          break;
        }
        y := b.detab[c];
      }
      rest := Scan(b, text, len, tolerance, pos);
      ReadOneMore(x, y, rest);
      n, r, d := Collect(x, y, n, r, d);
      x := x + [y];
    }
    KeptAtTheEnd(x, n, r);
    NothingIsLeftToRead(x, rest);
    if (InReach(pos, len) && c != 0 && c != b.alphabet[64]) || n == 1 || (n != 0 && r % 256 != 0) {
      return Failure(pos);
    }
    return Output(d);
  }

  /** The inner loops: read on to the first byte that is not passed over. */
  method Skip(b: Codec, text: CString, tolerance: Tolerance, start: nat) returns (c: Byte, pos: nat)
    requires Valid(b) && start <= |text|
    ensures pos == Skipped(b, text, tolerance, start) + 1
    ensures c == if pos - 1 == |text| then 0 else text[pos - 1]
  {
    pos := start;
    while pos < |text| && Skips(b, tolerance, text[pos])
      invariant start <= pos <= |text|
      invariant Skipped(b, text, tolerance, start) == Skipped(b, text, tolerance, pos)
    {
      pos := pos + 1;
    }
    c := if pos < |text| then text[pos] else 0;
    pos := pos + 1;
  }
}
