/** The parser's grammar reads every derived text, whatever the writer chose, as the tree that the
  text denotes. */
module JsonConformance {
  import opened Bytes
  import opened JsonTree
  import opened JsonGrammar
  import opened Utf8
  import S = JsonTexts

  // ---------- text at a position ----------

  /** The bytes of `word` stand at p. */
  ghost predicate Spells(src: Source, p: nat, word: Text) {
    p + |word| <= |src.text| && forall i :: 0 <= i < |word| ==> src.At(p + i) == word[i]
  }

  lemma SpellsSplit(src: Source, p: nat, a: Text, b: Text)
    requires Spells(src, p, a + b)
    ensures Spells(src, p, a) && Spells(src, p + |a|, b)
  {
    forall i | 0 <= i < |a| ensures src.At(p + i) == a[i] {
      assert (a + b)[i] == a[i];
    }
    forall i | 0 <= i < |b| ensures src.At(p + |a| + i) == b[i] {
      assert (a + b)[|a| + i] == b[i];
    }
  }

  lemma SpellsAt(src: Source, p: nat, word: Text, i: nat)
    requires Spells(src, p, word) && i < |word|
    ensures src.At(p + i) == word[i]
  {
  }

  lemma SpelledText(src: Source, p: nat, word: Text)
    requires Spells(src, p, word)
    ensures src.text[p..p + |word|] == word
  {
    forall i | 0 <= i < |word| ensures src.text[p..p + |word|][i] == word[i] {
      SpellsAt(src, p, word, i);
    }
  }

  // ---------- white space ----------

  lemma {:induction false} GapIsSkipped(src: Source, p: nat, gap: Text)
    requires S.IsGap(gap) && Spells(src, p, gap)
    ensures src.Skip(p) == src.Skip(p + |gap|)
    decreases |gap|
  {
    if gap != [] {
      assert [gap[0]] + gap[1..] == gap;
      SpellsSplit(src, p, [gap[0]], gap[1..]);
      SpellsAt(src, p, gap, 0);
      GapIsSkipped(src, p + 1, gap[1..]);
    }
  }

  /** A gap in front of something that is no white space. */
  lemma GapEnds(src: Source, p: nat, gap: Text)
    requires S.IsGap(gap) && Spells(src, p, gap) && !IsSpace(src.At(p + |gap|))
    ensures src.Skip(p) == p + |gap|
  {
    GapIsSkipped(src, p, gap);
  }

  // ---------- strings ----------

  lemma Cons(a: Byte, b: Text, c: Text)
    ensures [a] + (b + c) == [a] + b + c
  {
  }

  /** Bytes that are neither NUL nor quote nor backslash stand for themselves. */
  lemma {:induction false} PlainBytesRead(src: Source, p: nat, unit: Text, rest: Text, end: nat)
    requires Spells(src, p, unit) && src.StringBody(p + |unit|) == Match(rest, end)
    requires forall i :: 0 <= i < |unit| ==> unit[i] != 0 && unit[i] != QUOTE && unit[i] != BACKSLASH
    ensures src.StringBody(p) == Match(unit + rest, end)
    decreases |unit|
  {
    if unit == [] {
      assert unit + rest == rest;
    } else {
      var others := unit[1..];
      assert src.At(p) == unit[0] && Spells(src, p + 1, others) by {
        assert [unit[0]] + others == unit;
        SpellsSplit(src, p, [unit[0]], others);
        SpellsAt(src, p, unit, 0);
      }
      assert p + 1 + |others| == p + |unit|;
      PlainBytesRead(src, p + 1, others, rest, end);
      Cons(unit[0], others, rest);
      assert [unit[0]] + others == unit;
    }
  }

  lemma EscapeReads(src: Source, p: nat, c: Text, q: nat, rest: Text, end: nat)
    requires src.At(p) == BACKSLASH && src.Escape(p + 1) == Match(c, q)
    requires src.StringBody(q) == Match(rest, end)
    ensures src.StringBody(p) == Match(c + rest, end)
  {
  }

  /** A hexadecimal digit in either case. */
  lemma HexLetterReads(d: int, upper: bool)
    requires 0 <= d < 0x10
    ensures HexDigit(S.HexLetter(d, upper)) == Some(d)
  {
  }

  lemma UnitReads(src: Source, p: nat, u: int, upper: seq<bool>)
    requires 0 <= u < 0x10000 && |upper| == 4 && Spells(src, p, S.UnitText(u, upper))
    ensures src.At(p) == BACKSLASH && src.At(p + 1) == LOWER_U && src.HexWord(p + 2) == Some(u)
  {
    var text := S.UnitText(u, upper);
    var (a, b, c, d) := (u / 0x1000, u / 0x100 % 0x10, u / 0x10 % 0x10, u % 0x10);
    HexLetterReads(a, upper[0]);
    HexLetterReads(b, upper[1]);
    HexLetterReads(c, upper[2]);
    HexLetterReads(d, upper[3]);
    hide HexDigit;
    hide S.HexLetter;
    SpellsAt(src, p, text, 0);
    SpellsAt(src, p, text, 1);
    SpellsAt(src, p, text, 2);
    SpellsAt(src, p, text, 3);
    SpellsAt(src, p, text, 4);
    SpellsAt(src, p, text, 5);
    assert src.At(p + 2 + 1) == text[3] && src.At(p + 2 + 2) == text[4] && src.At(p + 2 + 3) == text[5];
    FourDigits(u);
  }

  lemma FourDigits(u: int)
    requires 0 <= u < 0x10000
    ensures 0x1000 * (u / 0x1000) + 0x100 * (u / 0x100 % 0x10) + 0x10 * (u / 0x10 % 0x10) + u % 0x10 == u
  {
    var a, b := u / 0x10, u / 0x100;
    assert u == 0x10 * a + u % 0x10;
    assert a / 0x10 == b && a == 0x10 * b + a % 0x10;
    assert b / 0x10 == u / 0x1000 && b == 0x10 * (u / 0x1000) + b % 0x10;
  }

  lemma PairHoldsPoint(bits: int)
    requires 0 <= bits < 0x100000
    ensures 0 <= bits / 0x400 < 0x400 && 0 <= bits % 0x400 < 0x400
    ensures 0x400 * (bits / 0x400) + bits % 0x400 == bits
  {
  }

  lemma EscapedReads(src: Source, p: nat, c: S.Character)
    requires c.Escaped? && S.IsWritten(c) && Spells(src, p, S.CharacterText(c))
    ensures src.At(p) == BACKSLASH
    ensures src.Escape(p + 1) == Match(EncodeUtf8(c.point), p + |S.CharacterText(c)|)
  {
    hide EncodeUtf8;
    hide S.UnitText;
    if c.point < 0x10000 {
      UnitReads(src, p, c.point, c.upper);
    } else {
      var bits := c.point - 0x10000;
      PairHoldsPoint(bits);
      var lead := S.UnitText(0xD800 + bits / 0x400, c.upper[..4]);
      var trail := S.UnitText(0xDC00 + bits % 0x400, c.upper[4..]);
      SpellsSplit(src, p, lead, trail);
      UnitReads(src, p, 0xD800 + bits / 0x400, c.upper[..4]);
      UnitReads(src, p + 6, 0xDC00 + bits % 0x400, c.upper[4..]);
      assert src.At(p + 2 + 4) == BACKSLASH && src.At(p + 2 + 5) == LOWER_U;
      assert src.HexWord(p + 2 + 6) == Some(0xDC00 + bits % 0x400);
      hide Source.HexWord;
      assert src.CodePoint(p + 2) == Match(c.point, p + 12);
    }
  }

  lemma ShortReads(src: Source, p: nat, c: S.Character)
    requires (c.Short? || c.Dropped?) && S.IsWritten(c) && Spells(src, p, S.CharacterText(c))
    ensures src.At(p) == BACKSLASH && src.Escape(p + 1) == Match(S.Octets(c), p + 2)
  {
    SpellsAt(src, p, S.CharacterText(c), 0);
    SpellsAt(src, p, S.CharacterText(c), 1);
  }

  /** The octets of a character that stands for itself are not special. */
  lemma OctetsArePlain(p: int)
    requires IsScalar(p) && p >= 0x20 && p != 0x22 && p != 0x5C
    ensures var c := EncodeUtf8(p);
      forall i :: 0 <= i < |c| ==> c[i] >= 0x20 && c[i] != QUOTE && c[i] != BACKSLASH
  {
  }

  lemma CharacterReads(src: Source, p: nat, c: S.Character, rest: Text, end: nat)
    requires S.IsWritten(c) && Spells(src, p, S.CharacterText(c))
    requires src.StringBody(p + |S.CharacterText(c)|) == Match(rest, end)
    ensures src.StringBody(p) == Match(S.Octets(c) + rest, end)
  {
    hide EncodeUtf8;
    hide Source.StringBody;
    hide Source.Escape;
    match c {
      case Unescaped(point) =>
        OctetsArePlain(point);
        PlainBytesRead(src, p, EncodeUtf8(point), rest, end);
      case Short(_) =>
        ShortReads(src, p, c);
        EscapeReads(src, p, S.Octets(c), p + 2, rest, end);
      case Escaped(point, _) =>
        EscapedReads(src, p, c);
        EscapeReads(src, p, EncodeUtf8(point), p + |S.CharacterText(c)|, rest, end);
      case Raw(b) => PlainBytesRead(src, p, [b], rest, end);
      case Dropped(_) =>
        ShortReads(src, p, c);
        EscapeReads(src, p, S.Octets(c), p + 2, rest, end);
    }
  }

  lemma QuoteReads(src: Source, p: nat)
    requires src.At(p) == QUOTE
    ensures src.StringBody(p) == Match([], p + 1)
  {
  }

  lemma {:induction false} BodyReads(src: Source, p: nat, s: seq<S.Character>)
    requires S.IsString(s) && Spells(src, p, S.BodyText(s) + [QUOTE])
    ensures src.StringBody(p) == Match(S.StringMeaning(s), p + |S.BodyText(s)| + 1)
    decreases |s|
  {
    hide Source.StringBody;
    hide S.CharacterText;
    SpellsSplit(src, p, S.BodyText(s), [QUOTE]);
    if s == [] {
      SpellsAt(src, p, [QUOTE], 0);
      QuoteReads(src, p);
    } else {
      var unit, tail := S.CharacterText(s[0]), S.BodyText(s[1..]);
      assert S.BodyText(s) + [QUOTE] == unit + (tail + [QUOTE]);
      SpellsSplit(src, p, unit, tail + [QUOTE]);
      BodyReads(src, p + |unit|, s[1..]);
      CharacterReads(src, p, s[0], S.StringMeaning(s[1..]), p + |S.BodyText(s)| + 1);
    }
  }

  /** A string in its quotes. */
  lemma StringReads(src: Source, p: nat, s: seq<S.Character>)
    requires S.IsString(s) && Spells(src, p, S.StringText(s))
    ensures src.At(p) == QUOTE && src.StringBody(p + 1) == Match(S.StringMeaning(s), p + |S.StringText(s)|)
  {
    hide S.BodyText;
    hide S.StringMeaning;
    hide Source.StringBody;
    SpellsSplit(src, p, [QUOTE], S.BodyText(s) + [QUOTE]);
    SpellsAt(src, p, [QUOTE], 0);
    BodyReads(src, p + 1, s);
  }

  // ---------- numbers ----------

  lemma {:induction false} DigitsConvert(s: Text)
    requires S.AreDigits(s)
    ensures AllDigits(s) && DecimalValue(s) == S.Decimals(s)
  {
    if s != [] {
      DigitsConvert(s[..|s| - 1]);
    }
  }

  lemma {:induction false} NoOccurrence(s: Text, a: Byte, b: Byte)
    requires forall i :: 0 <= i < |s| ==> s[i] != a && s[i] != b
    ensures Occurrences(s, a, b) == 0
  {
    if s != [] {
      NoOccurrence(s[..|s| - 1], a, b);
    }
  }

  lemma {:induction false} OccurrencesSum(s: Text, t: Text, a: Byte, b: Byte)
    ensures Occurrences(s + t, a, b) == Occurrences(s, a, b) + Occurrences(t, a, b)
  {
    if t == [] {
      assert s + t == s;
    } else {
      OccurrencesSum(s, t[..|t| - 1], a, b);
      assert (s + t)[..|s + t| - 1] == s + t[..|t| - 1];
    }
  }

  /** How often a text holds a point, and an exponent letter. */
  ghost predicate Counts(s: Text, points: nat, letters: nat) {
    Occurrences(s, DOT, DOT) == points && Occurrences(s, LOWER_E, UPPER_E) == letters
  }

  lemma CountsSum(s: Text, t: Text, points: nat, letters: nat, morePoints: nat, moreLetters: nat)
    requires Counts(s, points, letters) && Counts(t, morePoints, moreLetters)
    ensures Counts(s + t, points + morePoints, letters + moreLetters)
  {
    OccurrencesSum(s, t, DOT, DOT);
    OccurrencesSum(s, t, LOWER_E, UPPER_E);
  }

  lemma DigitsCount(s: Text)
    requires forall i :: 0 <= i < |s| ==> IsDigit(s[i]) || s[i] == PLUS || s[i] == MINUS
    ensures Counts(s, 0, 0)
  {
    NoOccurrence(s, DOT, DOT);
    NoOccurrence(s, LOWER_E, UPPER_E);
  }

  lemma SingleCount(b: Byte)
    ensures Counts([b], if b == DOT then 1 else 0, if b == LOWER_E || b == UPPER_E then 1 else 0)
  {
    assert [b][..0] == [];
  }

  function Head(n: S.Number): Text {
    (if n.minus then [MINUS] else []) + n.digits
  }

  function FractionText(n: S.Number): Text {
    if n.fraction == [] then [] else [DOT] + n.fraction
  }

  lemma NumberPieces(n: S.Number)
    ensures S.NumberText(n) == Head(n) + (FractionText(n) + S.ExponentText(n.exponent))
  {
  }

  lemma FractionCounts(n: S.Number)
    requires S.IsNumber(n)
    ensures Counts(FractionText(n), if n.fraction == [] then 0 else 1, 0)
  {
    DigitsCount(n.fraction);
    if n.fraction == [] {
      DigitsCount([]);
    } else {
      SingleCount(DOT);
      CountsSum([DOT], n.fraction, 1, 0, 0, 0);
    }
  }

  lemma ExponentCounts(n: S.Number)
    requires S.IsNumber(n)
    ensures Counts(S.ExponentText(n.exponent), 0, if n.exponent.NoExponent? then 0 else 1)
  {
    if n.exponent.NoExponent? {
      DigitsCount([]);
    } else {
      var letter: Byte := if n.exponent.upper then UPPER_E else LOWER_E;
      SingleCount(letter);
      DigitsCount(n.exponent.sign + n.exponent.digits);
      CountsSum([letter], n.exponent.sign + n.exponent.digits, 0, 1, 0, 0);
    }
  }

  lemma NumberCounts(n: S.Number)
    requires S.IsNumber(n)
    ensures Counts(S.NumberText(n), if n.fraction == [] then 0 else 1, if n.exponent.NoExponent? then 0 else 1)
  {
    hide Counts;
    hide S.NumberText;
    NumberPieces(n);
    DigitsCount(Head(n));
    FractionCounts(n);
    ExponentCounts(n);
    var points, letters := if n.fraction == [] then 0 else 1, if n.exponent.NoExponent? then 0 else 1;
    CountsSum(FractionText(n), S.ExponentText(n.exponent), points, 0, 0, letters);
    CountsSum(Head(n), FractionText(n) + S.ExponentText(n.exponent), 0, 0, points, letters);
  }

  lemma NumberBytes(n: S.Number)
    requires S.IsNumber(n)
    ensures S.NumberText(n) != []
    ensures forall i :: 0 <= i < |S.NumberText(n)| ==> IsNumberByte(S.NumberText(n)[i])
  {
    hide Occurrences;
    hide S.Decimals;
    var head, fraction, exponent := Head(n), FractionText(n), S.ExponentText(n.exponent);
    NumberPieces(n);
    assert forall i :: 0 <= i < |head| ==> IsNumberByte(head[i]);
    assert forall i :: 0 <= i < |fraction| ==> IsNumberByte(fraction[i]);
    assert forall i :: 0 <= i < |exponent| ==> IsNumberByte(exponent[i]);
    hide S.NumberText;
  }

  lemma WholeNumberText(n: S.Number)
    requires S.IsNumber(n) && S.IsWhole(n)
    ensures S.NumberText(n) == Head(n) && Head(n)[|Head(n)| - |n.digits|..] == n.digits
    ensures n.digits[0] != PLUS && n.digits[0] != MINUS
  {
  }

  lemma NumberConverts(src: Source, n: S.Number)
    requires S.IsNumber(n) && S.Fits(n, src.strtod)
    ensures S.NumberText(n) != []
    ensures src.NumberValue(S.NumberText(n)) == Some(S.NumberMeaning(n, src.strtod))
  {
    NumberBytes(n);
    NumberCounts(n);
    if S.IsWhole(n) {
      WholeNumberText(n);
      DigitsConvert(n.digits);
      hide S.NumberText;
    } else {
      hide S.NumberText;
    }
    hide Occurrences;
    hide DecimalValue;
    hide S.Decimals;
  }

  lemma {:induction false} OccurrencesInBag(s: Text, a: Byte, b: Byte)
    ensures Occurrences(s, a, b) == multiset(s)[a] + if a == b then 0 else multiset(s)[b]
  {
    if s != [] {
      OccurrencesInBag(s[..|s| - 1], a, b);
      assert s == s[..|s| - 1] + [s[|s| - 1]];
    }
  }

  lemma LooseConverts(src: Source, text: Text)
    requires S.IsLoose(text)
    ensures if S.LooseFits(text, src.strtod) then src.NumberValue(text) == Some(S.LooseMeaning(text, src.strtod))
            else src.NumberValue(text) == None
  {
    OccurrencesInBag(text, DOT, DOT);
    OccurrencesInBag(text, LOWER_E, UPPER_E);
    if S.AreDigits(S.LooseDigits(text)) {
      DigitsConvert(S.LooseDigits(text));
    }
    hide Occurrences;
    hide DecimalValue;
    hide S.Decimals;
  }

  lemma {:induction false} NumberRunEnds(src: Source, p: nat, text: Text)
    requires Spells(src, p, text) && forall i :: 0 <= i < |text| ==> IsNumberByte(text[i])
    requires !IsNumberByte(src.At(p + |text|))
    ensures src.NumberEnd(p) == p + |text|
    decreases |text|
  {
    if text != [] {
      SpellsAt(src, p, text, 0);
      assert [text[0]] + text[1..] == text;
      SpellsSplit(src, p, [text[0]], text[1..]);
      NumberRunEnds(src, p + 1, text[1..]);
    }
  }

  lemma NotAWord(src: Source, p: nat)
    requires IsNumberByte(src.At(p))
    ensures src.Value(p) == src.Number(p)
  {
    forall word: Text | word in [TRUE_WORD, FALSE_WORD, NULL_WORD] ensures !src.HasWord(p, word) {
      WordStart(src, p, word);
    }
  }

  /** A row of number characters that converts. */
  lemma RowReads(src: Source, p: nat, text: Text)
    requires text != [] && forall i :: 0 <= i < |text| ==> IsNumberByte(text[i])
    requires Spells(src, p, text) && !IsNumberByte(src.At(p + |text|)) && src.NumberValue(text).Some?
    ensures src.Value(p) == Match(src.NumberValue(text).value, p + |text|)
  {
    hide Source.NumberValue;
    NumberRunEnds(src, p, text);
    SpellsAt(src, p, text, 0);
    NotAWord(src, p);
    SpelledText(src, p, text);
  }

  lemma NumberReads(src: Source, p: nat, n: S.Number)
    requires S.IsNumber(n) && S.Fits(n, src.strtod)
    requires Spells(src, p, S.NumberText(n)) && !IsNumberByte(src.At(p + |S.NumberText(n)|))
    ensures IsNumberByte(src.At(p))
    ensures src.Value(p) == Match(S.NumberMeaning(n, src.strtod), p + |S.NumberText(n)|)
  {
    hide S.NumberText;
    hide S.NumberMeaning;
    hide Source.NumberValue;
    hide Source.Value;
    NumberBytes(n);
    NumberConverts(src, n);
    SpellsAt(src, p, S.NumberText(n), 0);
    RowReads(src, p, S.NumberText(n));
  }

  lemma LooseReads(src: Source, p: nat, text: Text)
    requires S.IsLoose(text) && S.LooseFits(text, src.strtod)
    requires Spells(src, p, text) && !IsNumberByte(src.At(p + |text|))
    ensures src.Value(p) == Match(S.LooseMeaning(text, src.strtod), p + |text|)
  {
    hide Source.NumberValue;
    hide Source.Value;
    hide S.LooseMeaning;
    LooseConverts(src, text);
    RowReads(src, p, text);
  }

  /** What may stand behind a value. */
  predicate IsDelimiter(b: Byte) {
    b == 0 || IsSpace(b) || b == COMMA || b == RIGHT_BRACE || b == RIGHT_BRACKET
  }

  lemma WordStands(src: Source, p: nat, text: Text, word: string, lower: Text)
    requires |word| == |lower| && forall i :: 0 <= i < |word| ==> 'a' <= word[i] <= 'z' && lower[i] == S.Ascii(word[i])
    requires S.IsWord(text, word) && Spells(src, p, text)
    ensures src.HasWordAnyCase(p, lower)
  {
    forall i | 0 <= i < |lower| ensures Lower(src.text[p + i]) == lower[i] {
      SpellsAt(src, p, text, i);
    }
  }

  /** A word that is not spelled is not found: a byte of it is another one. */
  lemma NoWordAt(src: Source, p: nat, word: Text, i: nat)
    requires i < |word| && Lower(src.At(p + i)) != word[i]
    ensures !src.HasWordAnyCase(p, word)
  {
  }

  lemma WordAt(src: Source, p: nat, word: Text, i: nat)
    requires i < |word|
    ensures src.HasWord(p, word) ==> src.At(p + i) == word[i]
  {
    if src.HasWord(p, word) {
      assert src.text[p..p + |word|][i] == word[i];
    }
  }

  /** A word of letters, in either case. */
  lemma WordLetter(text: Text, word: string, i: nat)
    requires forall k :: 0 <= k < |word| ==> 'a' <= word[k] <= 'z'
    requires S.IsWord(text, word) && i < |word|
    ensures i < |text| && Lower(text[i]) == S.Ascii(word[i])
  {
  }

  lemma NotALiteral(src: Source, p: nat)
    requires Lower(src.At(p)) == 0x69 || (Lower(src.At(p)) == LOWER_N && Lower(src.At(p + 1)) == LOWER_A)
    ensures src.Value(p) == src.Number(p)
  {
    WordAt(src, p, TRUE_WORD, 0);
    WordAt(src, p, FALSE_WORD, 0);
    WordAt(src, p, NULL_WORD, 0);
    WordAt(src, p, NULL_WORD, 1);
  }

  lemma SpecialReads(src: Source, p: nat, text: Text)
    requires S.IsSpecial(text) && Spells(src, p, text) && IsDelimiter(src.At(p + |text|))
    ensures src.Value(p) == Match(Real(if S.IsWord(text, "nan") then NotANumber else Infinite), p + |text|)
  {
    hide Source.Value;
    hide S.IsWord;
    hide Source.HasWordAnyCase;
    if S.IsWord(text, "nan") {
      FirstLetters(src, p, text, "nan");
      WordStands(src, p, text, "nan", NAN_WORD);
    } else if S.IsWord(text, "inf") {
      FirstLetters(src, p, text, "inf");
      WordStands(src, p, text, "inf", INF_WORD);
      NoWordAt(src, p, NAN_WORD, 0);
      NoWordAt(src, p, INFINITY_WORD, 3);
    } else {
      FirstLetters(src, p, text, "infinity");
      WordStands(src, p, text, "infinity", INFINITY_WORD);
      NoWordAt(src, p, NAN_WORD, 0);
    }
    NotALiteral(src, p);
  }

  lemma FirstLetters(src: Source, p: nat, text: Text, word: string)
    requires |word| > 1 && forall k :: 0 <= k < |word| ==> 'a' <= word[k] <= 'z'
    requires S.IsWord(text, word) && Spells(src, p, text)
    ensures |text| == |word|
    ensures Lower(src.At(p)) == S.Ascii(word[0]) && Lower(src.At(p + 1)) == S.Ascii(word[1])
    ensures !IsNumberByte(src.At(p)) || Lower(src.At(p)) == LOWER_E
  {
    SpellsAt(src, p, text, 0);
    SpellsAt(src, p, text, 1);
    WordLetter(text, word, 0);
    WordLetter(text, word, 1);
  }

  // ---------- values ----------

  /** A value starts with no white space and no closing bracket. */
  lemma ValueStarts(src: Source, p: nat, v: S.Value)
    requires S.IsValue(v) && Spells(src, p, S.ValueText(v))
    ensures S.ValueText(v) != [] && !IsSpace(src.At(p)) && src.At(p) != RIGHT_BRACKET
  {
    hide S.NumberText;
    hide S.MembersText;
    hide S.ElementsText;
    if v.Numeral? {
      NumberBytes(v.number);
    }
    SpellsAt(src, p, S.ValueText(v), 0);
  }

  lemma WordReads(src: Source, p: nat, v: S.Value)
    requires (v.True? || v.False? || v.NullWord?) && Spells(src, p, S.ValueText(v))
    ensures src.Value(p) == Match(S.Meaning(v, src.strtod), p + |S.ValueText(v)|)
  {
    hide Source.Members;
    hide Source.Elements;
    hide Source.Number;
    SpellsAt(src, p, S.ValueText(v), 0);
    SpelledText(src, p, S.ValueText(v));
    WordStart(src, p, TRUE_WORD);
    WordStart(src, p, FALSE_WORD);
  }

  lemma QuotedReads(src: Source, p: nat, s: seq<S.Character>)
    requires S.IsString(s) && Spells(src, p, S.StringText(s))
    ensures src.Value(p) == Match(String(S.StringMeaning(s)), p + |S.StringText(s)|)
  {
    hide S.StringText;
    hide S.StringMeaning;
    hide Source.StringBody;
    StringReads(src, p, s);
  }

  lemma {:induction false} ValueReads(src: Source, p: nat, v: S.Value)
    requires S.IsValue(v) && S.Denotes(v, src.strtod) && Spells(src, p, S.ValueText(v))
    requires IsDelimiter(src.At(p + |S.ValueText(v)|))
    ensures src.Value(p) == Match(S.Meaning(v, src.strtod), p + |S.ValueText(v)|)
    decreases v
  {
    hide S.NumberText;
    hide S.StringText;
    hide S.MembersText;
    hide S.ElementsText;
    hide S.NumberMeaning;
    hide S.LooseMeaning;
    hide S.LooseFits;
    hide S.Fits;
    hide S.IsSpecial;
    hide S.IsLoose;
    hide S.IsNumber;
    hide S.IsString;
    hide Source.Members;
    hide Source.Elements;
    hide Source.Literal;
    hide Source.StringBody;
    hide Source.Skip;
    match v {
      case True => WordReads(src, p, v);
      case False => WordReads(src, p, v);
      case NullWord => WordReads(src, p, v);
      case Numeral(n) => NumberReads(src, p, n);
      case Loose(s) => LooseReads(src, p, s);
      case Special(s) => SpecialReads(src, p, s);
      case Quoted(s) => QuotedReads(src, p, s);
      case Braces(members) =>
        SpellsSplit(src, p, [LEFT_BRACE], S.MembersText(members, true));
        SpellsAt(src, p, [LEFT_BRACE], 0);
        var none: map<Text, Json> := map[];
        assert none.Keys == {};
        MembersRead(src, p + 1, members, true, none);
      case Brackets(elements) =>
        SpellsSplit(src, p, [LEFT_BRACKET], S.ElementsText(elements, true));
        SpellsAt(src, p, [LEFT_BRACKET], 0);
        ElementsRead(src, p + 1, elements, true, []);
        assert [] + S.ElementsMeaning(elements, src.strtod) == S.ElementsMeaning(elements, src.strtod);
    }
  }

  // ---------- objects ----------

  /** What the grammar reads at what is left of an object. */
  function MembersScan(src: Source, p: nat, first: bool, dict: map<Text, Json>): Scan<Json> {
    if first then src.Members(src.Skip(p), dict) else src.AfterMember(src.Skip(p), dict)
  }

  /** The comma that is there but before the first item, and the gap behind it. */
  lemma CommaReads(src: Source, p: nat, first: bool, gap: Text, tail: Text) returns (at: nat)
    requires S.IsGap(gap) && Spells(src, p, S.Comma(first) + (gap + tail))
    requires tail != [] && !IsSpace(tail[0])
    ensures at == p + |S.Comma(first)| + |gap| && Spells(src, at, tail)
    ensures if first then src.Skip(p) == at else src.At(p) == COMMA && src.Skip(p) == p && src.Skip(p + 1) == at
  {
    SpellsSplit(src, p, S.Comma(first), gap + tail);
    SpellsSplit(src, p + |S.Comma(first)|, gap, tail);
    at := p + |S.Comma(first)| + |gap|;
    SpellsAt(src, at, tail, 0);
    GapEnds(src, p + |S.Comma(first)|, gap);
    if !first {
      SpellsAt(src, p, [COMMA], 0);
    }
  }

  /** The first byte behind a value does not belong to it. */
  lemma ValueEnds(src: Source, p: nat, gap: Text, tail: Text)
    requires S.IsGap(gap) && Spells(src, p, gap + tail) && tail != []
    requires S.IsGap([tail[0]]) || tail[0] == COMMA || tail[0] == RIGHT_BRACE || tail[0] == RIGHT_BRACKET
    ensures IsDelimiter(src.At(p)) && Spells(src, p + |gap|, tail)
    ensures src.Skip(p) == src.Skip(p + |gap|)
  {
    SpellsAt(src, p, gap + tail, 0);
    assert (gap + tail)[0] == if gap == [] then tail[0] else gap[0];
    var first := [tail[0]];
    assert S.IsGap(first) ==> IsSpace(first[0]);
    SpellsSplit(src, p, gap, tail);
    GapIsSkipped(src, p, gap);
  }

  lemma MembersStart(m: S.Members)
    requires S.AreMembers(m)
    ensures var t := S.MembersText(m, false); t != [] && (S.IsGap([t[0]]) || t[0] == COMMA || t[0] == RIGHT_BRACE)
  {
    hide S.StringText;
    hide S.ValueText;
  }

  /** The key, the colon and the gaps around it, in front of the value. */
  lemma KeyReads(src: Source, p: nat, m: S.Members, tail: Text) returns (colonAt: nat, valueAt: nat)
    requires m.Member? && S.AreMembers(m) && tail != [] && !IsSpace(tail[0])
    requires Spells(src, p, S.StringText(m.key) + (m.behindKey + ([COLON] + (m.behindColon + tail))))
    ensures src.At(p) == QUOTE && src.StringBody(p + 1).Match? && src.StringBody(p + 1).value == S.StringMeaning(m.key)
    ensures src.Skip(src.StringBody(p + 1).next) == colonAt && src.At(colonAt) == COLON
    ensures src.Skip(colonAt + 1) == valueAt && Spells(src, valueAt, tail)
    ensures valueAt == p + |S.StringText(m.key)| + |m.behindKey| + 1 + |m.behindColon|
  {
    hide S.StringText;
    hide S.StringMeaning;
    hide S.IsString;
    hide Source.StringBody;
    var keyEnd := p + |S.StringText(m.key)|;
    SpellsSplit(src, p, S.StringText(m.key), m.behindKey + ([COLON] + (m.behindColon + tail)));
    StringReads(src, p, m.key);
    SpellsSplit(src, keyEnd, m.behindKey, [COLON] + (m.behindColon + tail));
    colonAt := keyEnd + |m.behindKey|;
    SpellsSplit(src, colonAt, [COLON], m.behindColon + tail);
    SpellsAt(src, colonAt, [COLON], 0);
    GapEnds(src, keyEnd, m.behindKey);
    SpellsSplit(src, colonAt + 1, m.behindColon, tail);
    valueAt := colonAt + 1 + |m.behindColon|;
    SpellsAt(src, valueAt, tail, 0);
    GapEnds(src, colonAt + 1, m.behindColon);
  }

  lemma MemberIsRead(src: Source, p: nat, dict: map<Text, Json>, key: Text, colonAt: nat, valueAt: nat, value: Json,
                     end: nat)
    requires src.At(p) == QUOTE && src.StringBody(p + 1).Match? && src.StringBody(p + 1).value == key
    requires src.Skip(src.StringBody(p + 1).next) == colonAt && src.At(colonAt) == COLON
    requires src.Skip(colonAt + 1) == valueAt && key !in dict && src.Value(valueAt) == Match(value, end)
    ensures src.Members(p, dict) == src.AfterMember(src.Skip(end), dict[key := value])
  {
    hide Source.StringBody;
    hide Source.Value;
    hide Source.Skip;
    assert src.Members(p, dict) == src.AfterKey(colonAt, dict, key);
    assert src.AfterKey(colonAt, dict, key) == src.MemberValue(valueAt, dict, key);
  }

  /** The closing brace, with a comma in front of it or not. */
  lemma LastMember(src: Source, p: nat, m: S.Members, first: bool, dict: map<Text, Json>)
    requires !m.Member? && S.IsGap(m.gap) && (m.LastComma? ==> !first)
    requires Spells(src, p, S.Comma(!m.LastComma?) + (m.gap + [RIGHT_BRACE]))
    ensures MembersScan(src, p, first, dict) == Match(Object(dict), p + |S.Comma(!m.LastComma?)| + |m.gap| + 1)
  {
    var at := CommaReads(src, p, !m.LastComma?, m.gap, [RIGHT_BRACE]);
    SpellsAt(src, at, [RIGHT_BRACE], 0);
    assert src.Members(at, dict) == Match(Object(dict), at + 1);
  }

  /** Where the parts of a member stand. */
  lemma MemberPieces(src: Source, p: nat, m: S.Members, first: bool)
    returns (at: nat, colonAt: nat, valueAt: nat, end: nat)
    requires m.Member? && S.AreMembers(m) && Spells(src, p, S.MembersText(m, first))
    ensures if first then src.Skip(p) == at else src.At(p) == COMMA && src.Skip(p) == p && src.Skip(p + 1) == at
    ensures src.At(at) == QUOTE && src.StringBody(at + 1).Match?
    ensures src.StringBody(at + 1).value == S.StringMeaning(m.key)
    ensures src.Skip(src.StringBody(at + 1).next) == colonAt && src.At(colonAt) == COLON
    ensures src.Skip(colonAt + 1) == valueAt && Spells(src, valueAt, S.ValueText(m.value))
    ensures end == valueAt + |S.ValueText(m.value)| && IsDelimiter(src.At(end))
    ensures var q := end + |m.behind|;
      && src.Skip(end) == src.Skip(q) && Spells(src, q, S.MembersText(m.rest, false))
      && q + |S.MembersText(m.rest, false)| == p + |S.MembersText(m, first)|
  {
    hide Source.StringBody;
    hide Source.Skip;
    hide Spells;
    hide S.StringText;
    hide S.StringMeaning;
    hide S.ValueText;
    hide S.IsGap;
    hide S.IsString;
    hide S.IsValue;
    hide IsSpace;
    hide IsDelimiter;
    var last := S.MembersText(m.rest, false);
    var text := S.ValueText(m.value) + (m.behind + last);
    var tail := m.behindKey + ([COLON] + (m.behindColon + text));
    StringIsQuoted(m.key, tail);
    at := CommaReads(src, p, first, m.gap, S.StringText(m.key) + tail);
    ValueIsVisible(m.value, m.behind + last);
    colonAt, valueAt := KeyReads(src, at, m, text);
    end := valueAt + |S.ValueText(m.value)|;
    SpellsSplit(src, valueAt, S.ValueText(m.value), m.behind + last);
    MembersStart(m.rest);
    ValueEnds(src, end, m.behind, last);
  }

  lemma {:induction false} MembersRead(src: Source, p: nat, m: S.Members, first: bool, dict: map<Text, Json>)
    requires S.AreMembers(m) && S.MembersDenote(m, dict.Keys, src.strtod) && Spells(src, p, S.MembersText(m, first))
    requires m.LastComma? ==> !first
    ensures MembersScan(src, p, first, dict)
         == Match(Object(S.MembersMeaning(m, dict, src.strtod)), p + |S.MembersText(m, first)|)
    decreases m
  {
    hide Source.StringBody;
    hide Source.Value;
    hide Source.Skip;
    hide Source.Members;
    hide Spells;
    hide S.StringMeaning;
    hide S.MembersText;
    hide S.ValueText;
    hide S.IsGap;
    if !m.Member? {
      NoMemberText(m, first);
      LastMember(src, p, m, first, dict);
    } else {
      var at, colonAt, valueAt, end := MemberPieces(src, p, m, first);
      var key, value := S.StringMeaning(m.key), S.Meaning(m.value, src.strtod);
      ValueReads(src, valueAt, m.value);
      MemberIsRead(src, at, dict, key, colonAt, valueAt, value, end);
      assert dict[key := value].Keys == dict.Keys + {key};
      MembersRead(src, end + |m.behind|, m.rest, false, dict[key := value]);
    }
  }

  lemma NoMemberText(m: S.Members, first: bool)
    requires !m.Member? && S.AreMembers(m)
    ensures S.IsGap(m.gap) && S.MembersText(m, first) == S.Comma(!m.LastComma?) + (m.gap + [RIGHT_BRACE])
  {
    assert [] + (m.gap + [RIGHT_BRACE]) == m.gap + [RIGHT_BRACE];
  }

  lemma StringIsQuoted(s: seq<S.Character>, tail: Text)
    requires S.IsString(s)
    ensures var t := S.StringText(s) + tail; t != [] && t[0] == QUOTE && !IsSpace(t[0])
  {
  }

  lemma ValueIsVisible(v: S.Value, tail: Text)
    requires S.IsValue(v)
    ensures var t := S.ValueText(v) + tail; t != [] && !IsSpace(t[0])
  {
    hide S.NumberText;
    hide S.MembersText;
    hide S.ElementsText;
    if v.Numeral? {
      NumberBytes(v.number);
    }
  }

  // ---------- arrays ----------

  function ElementsScan(src: Source, p: nat, first: bool, list: seq<Json>): Scan<Json> {
    if first then src.Elements(src.Skip(p), list) else src.AfterElement(src.Skip(p), list)
  }

  lemma ElementsStart(e: S.Elements)
    requires S.AreElements(e)
    ensures var t := S.ElementsText(e, false); t != [] && (S.IsGap([t[0]]) || t[0] == COMMA || t[0] == RIGHT_BRACKET)
  {
    hide S.ValueText;
  }

  lemma LastElement(src: Source, p: nat, e: S.Elements, first: bool, list: seq<Json>)
    requires !e.Element? && S.IsGap(e.gap) && (e.EndComma? ==> !first)
    requires Spells(src, p, S.Comma(!e.EndComma?) + (e.gap + [RIGHT_BRACKET]))
    ensures ElementsScan(src, p, first, list) == Match(Array(list), p + |S.Comma(!e.EndComma?)| + |e.gap| + 1)
  {
    var at := CommaReads(src, p, !e.EndComma?, e.gap, [RIGHT_BRACKET]);
    SpellsAt(src, at, [RIGHT_BRACKET], 0);
    assert src.Elements(at, list) == Match(Array(list), at + 1);
  }

  lemma NoElementText(e: S.Elements, first: bool)
    requires !e.Element? && S.AreElements(e)
    ensures S.IsGap(e.gap) && S.ElementsText(e, first) == S.Comma(!e.EndComma?) + (e.gap + [RIGHT_BRACKET])
  {
    assert [] + (e.gap + [RIGHT_BRACKET]) == e.gap + [RIGHT_BRACKET];
  }

  lemma ElementIsRead(src: Source, p: nat, list: seq<Json>, value: Json, end: nat)
    requires src.At(p) != RIGHT_BRACKET && src.Value(p) == Match(value, end)
    ensures src.Elements(p, list) == src.AfterElement(src.Skip(end), list + [value])
  {
    hide Source.Value;
    hide Source.Skip;
  }

  lemma {:induction false} ElementsRead(src: Source, p: nat, e: S.Elements, first: bool, list: seq<Json>)
    requires S.AreElements(e) && S.ElementsDenote(e, src.strtod) && Spells(src, p, S.ElementsText(e, first))
    requires e.EndComma? ==> !first
    ensures ElementsScan(src, p, first, list)
         == Match(Array(list + S.ElementsMeaning(e, src.strtod)), p + |S.ElementsText(e, first)|)
    decreases e
  {
    hide Source.Value;
    hide Source.Skip;
    hide Source.Elements;
    hide Spells;
    hide S.ValueText;
    hide S.IsGap;
    hide IsSpace;
    if !e.Element? {
      NoElementText(e, first);
      LastElement(src, p, e, first, list);
      assert list + [] == list;
    } else {
      var value, last := S.Meaning(e.value, src.strtod), S.ElementsText(e.rest, false);
      ElementsStart(e.rest);
      ValueIsVisible(e.value, e.behind + last);
      var at := CommaReads(src, p, first, e.gap, S.ValueText(e.value) + (e.behind + last));
      var end := at + |S.ValueText(e.value)|;
      SpellsSplit(src, at, S.ValueText(e.value), e.behind + last);
      ValueStarts(src, at, e.value);
      ValueEnds(src, end, e.behind, last);
      ValueReads(src, at, e.value);
      ElementIsRead(src, at, list, value, end);
      ElementsRead(src, end + |e.behind|, e.rest, false, list + [value]);
      assert list + [value] + S.ElementsMeaning(e.rest, src.strtod) == list + S.ElementsMeaning(e, src.strtod);
    }
  }

  // ---------- documents ----------

  lemma {:induction false} BodyHasNoNul(s: seq<S.Character>)
    requires S.IsString(s)
    ensures 0 !in S.BodyText(s)
    decreases |s|
  {
    if s != [] {
      CharacterHasNoNul(s[0]);
      BodyHasNoNul(s[1..]);
    }
  }

  lemma CharacterHasNoNul(c: S.Character)
    requires S.IsWritten(c)
    ensures 0 !in S.CharacterText(c)
  {
    if c.Unescaped? {
      OctetsArePlain(c.point);
    }
  }

  lemma {:induction false} ValueHasNoNul(v: S.Value)
    requires S.IsValue(v)
    ensures 0 !in S.ValueText(v)
    decreases v
  {
    hide S.NumberText;
    hide S.BodyText;
    hide S.MembersText;
    hide S.ElementsText;
    match v {
      case Numeral(n) => NumberBytes(n);
      case Quoted(s) => BodyHasNoNul(s);
      case Braces(members) => MembersHaveNoNul(members, true);
      case Brackets(elements) => ElementsHaveNoNul(elements, true);
      case _ =>
    }
  }

  lemma StringHasNoNul(s: seq<S.Character>)
    requires S.IsString(s)
    ensures 0 !in S.StringText(s)
  {
    hide S.BodyText;
    BodyHasNoNul(s);
  }

  lemma MemberHasNoNul(a: Text, b: Text, c: Text, d: Text, e: Text, f: Text, g: Text, first: bool)
    requires 0 !in b && 0 !in e && 0 !in g && S.IsGap(a) && S.IsGap(c) && S.IsGap(d) && S.IsGap(f)
    ensures 0 !in S.Comma(first) + (a + (b + (c + ([COLON] + (d + (e + (f + g)))))))
  {
  }

  lemma {:induction false} MembersHaveNoNul(m: S.Members, first: bool)
    requires S.AreMembers(m)
    ensures 0 !in S.MembersText(m, first)
    decreases m
  {
    hide S.BodyText;
    hide S.ValueText;
    hide S.IsValue;
    hide S.IsString;
    hide S.StringText;
    if m.Member? {
      StringHasNoNul(m.key);
      ValueHasNoNul(m.value);
      MembersHaveNoNul(m.rest, false);
      MemberHasNoNul(m.gap, S.StringText(m.key), m.behindKey, m.behindColon, S.ValueText(m.value), m.behind,
                     S.MembersText(m.rest, false), first);
    }
  }

  lemma {:induction false} ElementsHaveNoNul(e: S.Elements, first: bool)
    requires S.AreElements(e)
    ensures 0 !in S.ElementsText(e, first)
    decreases e
  {
    hide S.ValueText;
    if e.Element? {
      ValueHasNoNul(e.value);
      ElementsHaveNoNul(e.rest, false);
    }
  }

  /** Json::parse on any derived text that denotes a tree: the document is that tree. */
  lemma DerivedTextsAreRead(d: S.Document, strtod: Text -> Option<real>)
    requires S.IsDocument(d) && S.Denotes(d.value, strtod)
    ensures 0 !in S.DocumentText(d)
    ensures Source(S.DocumentText(d), strtod).Document() == Some(S.Meaning(d.value, strtod))
  {
    hide S.ValueText;
    hide S.Denotes;
    hide S.Meaning;
    ValueHasNoNul(d.value);
    DocumentIsRead(Source(S.DocumentText(d), strtod), d);
  }

  lemma DocumentIsRead(src: Source, d: S.Document)
    requires S.IsDocument(d) && S.Denotes(d.value, src.strtod) && src.text == S.DocumentText(d)
    ensures src.Document() == Some(S.Meaning(d.value, src.strtod))
  {
    hide *;
    var at := ValueIsFound(src, d);
    ValueReads(src, at, d.value);
    DocumentIsWhole(src, at, at + |S.ValueText(d.value)|, S.Meaning(d.value, src.strtod));
  }

  lemma ValueIsFound(src: Source, d: S.Document) returns (at: nat)
    requires S.IsDocument(d) && src.text == S.DocumentText(d)
    ensures src.Skip(0) == at && Spells(src, at, S.ValueText(d.value)) && S.IsValue(d.value)
    ensures var end := at + |S.ValueText(d.value)|; src.Skip(end) == |src.text| && IsDelimiter(src.At(end))
  {
    hide S.ValueText;
    hide S.IsValue;
    hide S.IsGap;
    hide Source.Skip;
    hide Spells;
    hide IsDelimiter;
    hide IsSpace;
    at := |d.gap|;
    WholeText(src);
    SpellsSplit(src, 0, d.gap, S.ValueText(d.value) + d.behind);
    SpellsSplit(src, at, S.ValueText(d.value), d.behind);
    ValueStarts(src, at, d.value);
    GapEnds(src, 0, d.gap);
    LastGap(src, at + |S.ValueText(d.value)|, d.behind);
  }

  lemma WholeText(src: Source)
    ensures Spells(src, 0, src.text)
  {
  }

  lemma LastGap(src: Source, p: nat, gap: Text)
    requires S.IsGap(gap) && Spells(src, p, gap) && p + |gap| == |src.text|
    ensures src.Skip(p) == |src.text| && IsDelimiter(src.At(p))
  {
    GapEnds(src, p, gap);
    if gap != [] {
      SpellsAt(src, p, gap, 0);
    }
  }

  lemma DocumentIsWhole(src: Source, at: nat, end: nat, value: Json)
    requires src.Skip(0) == at && src.Value(at) == Match(value, end) && src.Skip(end) == |src.text|
    ensures src.Document() == Some(value)
  {
  }
}
