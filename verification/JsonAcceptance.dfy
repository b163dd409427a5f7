/** The parser's grammar takes derived texts only, so that the derivations say exactly which texts it
  takes and what it makes of them. */
module JsonAcceptance {
  import opened Bytes
  import opened JsonTree
  import opened JsonGrammar
  import opened JsonConformance
  import opened Utf8
  import S = JsonTexts

  // ---------- texts joined ----------

  lemma SpellsJoin(src: Source, p: nat, a: Text, b: Text)
    requires Spells(src, p, a) && Spells(src, p + |a|, b)
    ensures Spells(src, p, a + b)
  {
    forall i | 0 <= i < |a + b| ensures src.At(p + i) == (a + b)[i] {
      if i < |a| {
        SpellsAt(src, p, a, i);
      } else {
        SpellsAt(src, p + |a|, b, i - |a|);
      }
    }
  }

  lemma SliceSpells(src: Source, p: nat, q: nat)
    requires p <= q <= |src.text|
    ensures Spells(src, p, src.text[p..q])
  {
  }

  lemma ByteSpells(src: Source, p: nat, b: Byte)
    requires src.At(p) == b != 0
    ensures Spells(src, p, [b])
  {
  }

  /** White space as far as it goes. */
  function GapAt(src: Source, p: nat): Text
    requires p <= |src.text|
  {
    src.text[p..src.Skip(p)]
  }

  lemma {:induction false} GapIsDerived(src: Source, p: nat)
    requires p <= |src.text|
    ensures S.IsGap(GapAt(src, p)) && Spells(src, p, GapAt(src, p)) && p + |GapAt(src, p)| == src.Skip(p) <= |src.text|
    decreases |src.text| - p
  {
    if IsSpace(src.At(p)) {
      GapIsDerived(src, p + 1);
      assert GapAt(src, p) == [src.text[p]] + GapAt(src, p + 1);
    }
    SliceSpells(src, p, src.Skip(p));
  }

  // ---------- strings ----------

  predicate IsUpper(b: Byte) {
    UPPER_A <= b <= UPPER_F
  }

  lemma DigitIsDerived(b: Byte)
    requires HexDigit(b).Some?
    ensures S.HexLetter(HexDigit(b).value, IsUpper(b)) == b
  {
  }

  lemma UnitIsDerived(src: Source, p: nat) returns (upper: seq<bool>)
    requires src.At(p) == BACKSLASH && src.At(p + 1) == LOWER_U && src.HexWord(p + 2).Some?
    ensures |upper| == 4 && Spells(src, p, S.UnitText(src.HexWord(p + 2).value, upper))
  {
    hide S.UnitText;
    hide HexDigit;
    var (a, b, c, d) := (src.At(p + 2), src.At(p + 3), src.At(p + 4), src.At(p + 5));
    assert p + 2 + 1 == p + 3 && p + 2 + 2 == p + 4 && p + 2 + 3 == p + 5;
    upper := [IsUpper(a), IsUpper(b), IsUpper(c), IsUpper(d)];
    UnitTextOf(a, b, c, d);
  }

  lemma UnitTextOf(a: Byte, b: Byte, c: Byte, d: Byte)
    requires HexDigit(a).Some? && HexDigit(b).Some? && HexDigit(c).Some? && HexDigit(d).Some?
    ensures S.UnitText(0x1000 * HexDigit(a).value + 0x100 * HexDigit(b).value + 0x10 * HexDigit(c).value
                       + HexDigit(d).value, [IsUpper(a), IsUpper(b), IsUpper(c), IsUpper(d)])
         == [BACKSLASH, LOWER_U, a, b, c, d]
  {
    hide HexDigit;
    hide IsUpper;
    hide S.HexLetter;
    DigitIsDerived(a);
    DigitIsDerived(b);
    DigitIsDerived(c);
    DigitIsDerived(d);
    FourDigitsOf(HexDigit(a).value, HexDigit(b).value, HexDigit(c).value, HexDigit(d).value);
  }

  lemma FourDigitsOf(a: int, b: int, c: int, d: int)
    requires 0 <= a < 0x10 && 0 <= b < 0x10 && 0 <= c < 0x10 && 0 <= d < 0x10
    ensures var u := 0x1000 * a + 0x100 * b + 0x10 * c + d;
      u / 0x1000 == a && u / 0x100 % 0x10 == b && u / 0x10 % 0x10 == c && u % 0x10 == d
  {
    var u := 0x1000 * a + 0x100 * b + 0x10 * c + d;
    assert u / 0x10 == 0x100 * a + 0x10 * b + c;
    assert u / 0x100 == 0x10 * a + b;
  }

  lemma PointIsDerived(src: Source, p: nat) returns (c: S.Character)
    requires src.At(p) == BACKSLASH && src.At(p + 1) == LOWER_U && src.CodePoint(p + 2).Match?
    ensures c.Escaped? && S.IsWritten(c) && Spells(src, p, S.CharacterText(c))
    ensures src.CodePoint(p + 2) == Match(c.point, p + |S.CharacterText(c)|)
  {
    hide S.UnitText;
    hide Source.HexWord;
    hide Spells;
    PointParts(src, p);
    var point := src.CodePoint(p + 2).value;
    var lead := UnitIsDerived(src, p);
    hide Source.CodePoint;
    if point < 0x10000 {
      c := S.Escaped(point, lead);
    } else {
      var trail := UnitIsDerived(src, p + 6);
      c := S.Escaped(point, lead + trail);
      var high, low := src.HexWord(p + 2).value, src.HexWord(p + 8).value;
      PairIsDerived(high - 0xD800, low - 0xDC00);
      assert (lead + trail)[..4] == lead && (lead + trail)[4..] == trail;
      SpellsJoin(src, p, S.UnitText(high, lead), S.UnitText(low, trail));
    }
  }

  /** The one or two units of a code point. */
  lemma PointParts(src: Source, p: nat)
    requires src.CodePoint(p + 2).Match?
    ensures src.HexWord(p + 2).Some?
    ensures var point, high := src.CodePoint(p + 2), src.HexWord(p + 2).value;
      if point.value < 0x10000 then point == Match(high, p + 6)
      else
        && src.At(p + 6) == BACKSLASH && src.At(p + 7) == LOWER_U && src.HexWord(p + 8).Some?
        && var low := src.HexWord(p + 8).value;
        && 0xD800 <= high < 0xDC00 && 0xDC00 <= low < 0xE000
        && point == Match(0x10000 + 0x400 * (high - 0xD800) + (low - 0xDC00), p + 12)
  {
    hide Source.HexWord;
    assert p + 2 + 4 == p + 6 && p + 2 + 5 == p + 7 && p + 2 + 6 == p + 8;
  }

  lemma PairIsDerived(high: int, low: int)
    requires 0 <= high < 0x400 && 0 <= low < 0x400
    ensures (0x400 * high + low) / 0x400 == high && (0x400 * high + low) % 0x400 == low
  {
  }

  lemma EscapeIsDerived(src: Source, p: nat) returns (c: S.Character)
    requires src.At(p) == BACKSLASH && src.Escape(p + 1).Match?
    ensures S.IsWritten(c) && Spells(src, p, S.CharacterText(c))
    ensures src.Escape(p + 1) == Match(S.Octets(c), p + |S.CharacterText(c)|)
  {
    hide Source.CodePoint;
    var b := src.At(p + 1);
    if b == LOWER_B {
      c := S.Short('b');
    } else if b == LOWER_F {
      c := S.Short('f');
    } else if b == LOWER_N {
      c := S.Short('n');
    } else if b == LOWER_R {
      c := S.Short('r');
    } else if b == LOWER_T {
      c := S.Short('t');
    } else if b == LOWER_U {
      c := PointIsDerived(src, p);
    } else {
      c := S.Dropped(b);
    }
  }

  lemma {:induction false} BodyIsDerived(src: Source, p: nat) returns (s: seq<S.Character>)
    requires src.StringBody(p).Match?
    ensures S.IsString(s) && Spells(src, p, S.BodyText(s) + [QUOTE])
    ensures src.StringBody(p) == Match(S.StringMeaning(s), p + |S.BodyText(s)| + 1)
    decreases |src.text| - p
  {
    hide Source.Escape;
    hide S.CharacterText;
    hide S.IsWritten;
    hide S.Octets;
    if src.At(p) == QUOTE {
      s := [];
      ByteSpells(src, p, QUOTE);
      assert S.BodyText([]) + [QUOTE] == [QUOTE];
    } else {
      var c := CharacterIsDerived(src, p);
      var unit := S.CharacterText(c);
      var rest := BodyIsDerived(src, p + |unit|);
      s := [c] + rest;
      assert s[1..] == rest;
      SpellsJoin(src, p, unit, S.BodyText(rest) + [QUOTE]);
      assert S.BodyText(s) + [QUOTE] == unit + (S.BodyText(rest) + [QUOTE]);
    }
  }

  lemma CharacterIsDerived(src: Source, p: nat) returns (c: S.Character)
    requires src.StringBody(p).Match? && src.At(p) != QUOTE
    ensures S.IsWritten(c) && Spells(src, p, S.CharacterText(c)) && S.CharacterText(c) != []
    ensures var q := p + |S.CharacterText(c)|;
      && src.StringBody(q).Match?
      && src.StringBody(p) == Match(S.Octets(c) + src.StringBody(q).value, src.StringBody(q).next)
  {
    hide Source.Escape;
    if src.At(p) == BACKSLASH {
      c := EscapeIsDerived(src, p);
    } else {
      c := S.Raw(src.At(p));
    }
  }

  lemma StringIsDerived(src: Source, p: nat) returns (s: seq<S.Character>)
    requires src.At(p) == QUOTE && src.StringBody(p + 1).Match?
    ensures S.IsString(s) && Spells(src, p, S.StringText(s))
    ensures src.StringBody(p + 1) == Match(S.StringMeaning(s), p + |S.StringText(s)|)
  {
    hide Source.StringBody;
    hide S.BodyText;
    hide S.StringMeaning;
    s := BodyIsDerived(src, p + 1);
    ByteSpells(src, p, QUOTE);
    SpellsJoin(src, p, [QUOTE], S.BodyText(s) + [QUOTE]);
  }

  // ---------- numbers and words ----------

  lemma {:induction false} RunIsLoose(src: Source, p: nat)
    requires p <= |src.text|
    ensures forall i :: p <= i < src.NumberEnd(p) ==> i < |src.text| && IsNumberByte(src.text[i])
    decreases |src.text| - p
  {
    if IsNumberByte(src.At(p)) {
      RunIsLoose(src, p + 1);
    }
  }

  /** A derivation at a position, with what the grammar reads there. */
  ghost predicate Derives(src: Source, p: nat, v: S.Value, scan: Scan<Json>) {
    && S.IsValue(v) && S.Denotes(v, src.strtod) && Spells(src, p, S.ValueText(v))
    && scan == Match(S.Meaning(v, src.strtod), p + |S.ValueText(v)|)
  }

  lemma NumberIsDerived(src: Source, p: nat) returns (v: S.Value)
    requires p < src.NumberEnd(p) <= |src.text| && src.NumberValue(src.text[p..src.NumberEnd(p)]).Some?
    ensures Derives(src, p, v, Match(src.NumberValue(src.text[p..src.NumberEnd(p)]).value, src.NumberEnd(p)))
  {
    hide Source.NumberValue;
    hide S.LooseFits;
    hide S.LooseMeaning;
    var text := src.text[p..src.NumberEnd(p)];
    RunIsLoose(src, p);
    SliceSpells(src, p, src.NumberEnd(p));
    assert S.IsLoose(text);
    LooseConverts(src, text);
    v := S.Loose(text);
  }

  lemma SpecialIsDerived(src: Source, p: nat, word: string, lower: Text) returns (v: S.Value)
    requires |word| == |lower| && forall i :: 0 <= i < |word| ==> 'a' <= word[i] <= 'z' && lower[i] == S.Ascii(word[i])
    requires src.HasWordAnyCase(p, lower) && word in {"nan", "inf", "infinity"}
    ensures Derives(src, p, v, Match(Real(if word == "nan" then NotANumber else Infinite), p + |word|))
  {
    var text := src.text[p..p + |word|];
    SliceSpells(src, p, p + |word|);
    forall i | 0 <= i < |text| ensures text[i] == S.Ascii(word[i]) || text[i] == S.Ascii(word[i]) - 0x20 {
      assert Lower(src.text[p + i]) == lower[i];
    }
    assert S.IsWord(text, word);
    assert text[0] == S.Ascii(word[0]) || text[0] == S.Ascii(word[0]) - 0x20;
    v := S.Special(text);
  }

  lemma LiteralIsDerived(src: Source, p: nat) returns (v: S.Value)
    requires p <= |src.text| && src.Literal(p).Match?
    ensures Derives(src, p, v, src.Literal(p))
  {
    hide Source.NumberValue;
    hide Source.HasWordAnyCase;
    if src.HasWord(p, TRUE_WORD) {
      v := S.True;
      SliceSpells(src, p, p + 4);
    } else if src.HasWord(p, FALSE_WORD) {
      v := S.False;
      SliceSpells(src, p, p + 5);
    } else if src.HasWord(p, NULL_WORD) {
      v := S.NullWord;
      SliceSpells(src, p, p + 4);
    } else if p < src.NumberEnd(p) {
      v := NumberIsDerived(src, p);
    } else if src.HasWordAnyCase(p, NAN_WORD) {
      v := SpecialIsDerived(src, p, "nan", NAN_WORD);
    } else if src.HasWordAnyCase(p, INFINITY_WORD) {
      v := SpecialIsDerived(src, p, "infinity", INFINITY_WORD);
    } else {
      v := SpecialIsDerived(src, p, "inf", INF_WORD);
    }
  }

  // ---------- values ----------

  lemma {:induction false} ValueIsDerived(src: Source, p: nat) returns (v: S.Value)
    requires p <= |src.text| && src.Value(p).Match?
    ensures Derives(src, p, v, src.Value(p))
    decreases |src.text| - p, 0
  {
    hide Source.Members;
    hide Source.Elements;
    hide Source.Literal;
    hide Source.StringBody;
    hide Source.Skip;
    hide S.StringText;
    hide S.MembersText;
    hide S.ElementsText;
    var b := src.At(p);
    if b == LEFT_BRACE {
      var none: map<Text, Json> := map[];
      assert none.Keys == {};
      var m := MembersAreDerived(src, p + 1, true, none);
      v := S.Braces(m);
      ByteSpells(src, p, b);
      SpellsJoin(src, p, [b], S.MembersText(m, true));
    } else if b == LEFT_BRACKET {
      var e := ElementsAreDerived(src, p + 1, true, []);
      v := S.Brackets(e);
      ByteSpells(src, p, b);
      SpellsJoin(src, p, [b], S.ElementsText(e, true));
      assert [] + S.ElementsMeaning(e, src.strtod) == S.ElementsMeaning(e, src.strtod);
    } else if b == QUOTE {
      var s := StringIsDerived(src, p);
      v := S.Quoted(s);
    } else {
      v := LiteralIsDerived(src, p);
    }
  }

  ghost predicate MembersDerive(src: Source, p: nat, m: S.Members, first: bool, dict: map<Text, Json>) {
    && S.AreMembers(m) && (m.LastComma? ==> !first) && S.MembersDenote(m, dict.Keys, src.strtod)
    && Spells(src, p, S.MembersText(m, first))
    && MembersScan(src, p, first, dict)
       == Match(Object(S.MembersMeaning(m, dict, src.strtod)), p + |S.MembersText(m, first)|)
  }

  /** The comma that is there but before the first item, and the gap behind it. */
  lemma StartIsDerived(src: Source, p: nat, first: bool) returns (gap: Text, at: nat)
    requires p <= |src.text| && (first || src.At(p) == COMMA)
    ensures S.IsGap(gap) && Spells(src, p, S.Comma(first)) && Spells(src, p + |S.Comma(first)|, gap)
    ensures at == p + |S.Comma(first)| + |gap| == src.Skip(p + |S.Comma(first)|) <= |src.text|
  {
    if !first {
      ByteSpells(src, p, COMMA);
    }
    gap := GapAt(src, p + |S.Comma(first)|);
    GapIsDerived(src, p + |S.Comma(first)|);
    at := src.Skip(p + |S.Comma(first)|);
  }

  lemma EndOfMembers(src: Source, p: nat, first: bool, comma: bool, dict: map<Text, Json>, gap: Text, at: nat)
    returns (m: S.Members)
    requires S.IsGap(gap) && Spells(src, p, S.Comma(!comma)) && Spells(src, p + |S.Comma(!comma)|, gap)
    requires at == p + |S.Comma(!comma)| + |gap| && src.At(at) == RIGHT_BRACE && (comma ==> !first)
    requires MembersScan(src, p, first, dict) == Match(Object(dict), at + 1)
    ensures MembersDerive(src, p, m, first, dict) && !m.Member?
  {
    ByteSpells(src, at, RIGHT_BRACE);
    SpellsJoin(src, p + |S.Comma(!comma)|, gap, [RIGHT_BRACE]);
    SpellsJoin(src, p, S.Comma(!comma), gap + [RIGHT_BRACE]);
    m := if comma then S.Members.LastComma(gap) else S.NoMember(gap);
    assert [] + (gap + [RIGHT_BRACE]) == gap + [RIGHT_BRACE];
  }

  /** What the grammar has read of a member: where its parts end. */
  ghost predicate MemberStands(src: Source, at: nat, key: Text, keyEnd: nat, valueAt: nat, value: Json, end: nat,
                               dict: map<Text, Json>) {
    && src.At(at) == QUOTE && src.StringBody(at + 1) == Match(key, keyEnd) && key !in dict
    && src.At(src.Skip(keyEnd)) == COLON && valueAt == src.Skip(src.Skip(keyEnd) + 1)
    && src.Value(valueAt) == Match(value, end) && at < valueAt < end <= |src.text|
    && src.Members(at, dict) == src.AfterMember(src.Skip(end), dict[key := value])
  }

  lemma MemberIsFound(src: Source, at: nat, dict: map<Text, Json>)
    returns (key: Text, keyEnd: nat, valueAt: nat, value: Json, end: nat)
    requires src.Members(at, dict).Match? && src.At(at) != RIGHT_BRACE
    ensures MemberStands(src, at, key, keyEnd, valueAt, value, end, dict)
  {
    hide Source.StringBody;
    hide Source.Value;
    hide Source.Skip;
    hide Source.AfterMember;
    key, keyEnd := src.StringBody(at + 1).value, src.StringBody(at + 1).next;
    assert src.Members(at, dict) == src.AfterKey(src.Skip(keyEnd), dict, key);
    valueAt := src.Skip(src.Skip(keyEnd) + 1);
    assert src.AfterKey(src.Skip(keyEnd), dict, key) == src.MemberValue(valueAt, dict, key);
    value, end := src.Value(valueAt).value, src.Value(valueAt).next;
  }

  /** The text of a member in front of the text of the rest. */
  lemma MemberJoins(src: Source, p: nat, m: S.Members, first: bool, at: nat, keyEnd: nat, valueAt: nat, end: nat)
    requires m.Member? && S.AreMembers(m) && Spells(src, p, S.Comma(first)) && Spells(src, p + |S.Comma(first)|, m.gap)
    requires at == p + |S.Comma(first)| + |m.gap| && Spells(src, at, S.StringText(m.key))
    requires keyEnd == at + |S.StringText(m.key)| && Spells(src, keyEnd, m.behindKey)
    requires src.At(keyEnd + |m.behindKey|) == COLON && Spells(src, keyEnd + |m.behindKey| + 1, m.behindColon)
    requires valueAt == keyEnd + |m.behindKey| + 1 + |m.behindColon| && Spells(src, valueAt, S.ValueText(m.value))
    requires end == valueAt + |S.ValueText(m.value)| && Spells(src, end, m.behind)
    requires Spells(src, end + |m.behind|, S.MembersText(m.rest, false))
    ensures Spells(src, p, S.MembersText(m, first))
    ensures p + |S.MembersText(m, first)| == end + |m.behind| + |S.MembersText(m.rest, false)|
  {
    hide Spells;
    hide S.StringText;
    hide S.ValueText;
    var last := m.behind + S.MembersText(m.rest, false);
    SpellsJoin(src, end, m.behind, S.MembersText(m.rest, false));
    SpellsJoin(src, valueAt, S.ValueText(m.value), last);
    var value := S.ValueText(m.value) + last;
    var colonAt := keyEnd + |m.behindKey|;
    SpellsJoin(src, colonAt + 1, m.behindColon, value);
    ByteSpells(src, colonAt, COLON);
    SpellsJoin(src, colonAt, [COLON], m.behindColon + value);
    SpellsJoin(src, keyEnd, m.behindKey, [COLON] + (m.behindColon + value));
    var key := S.StringText(m.key) + (m.behindKey + ([COLON] + (m.behindColon + value)));
    SpellsJoin(src, at, S.StringText(m.key), m.behindKey + ([COLON] + (m.behindColon + value)));
    SpellsJoin(src, p + |S.Comma(first)|, m.gap, key);
    SpellsJoin(src, p, S.Comma(first), m.gap + key);
  }

  lemma {:induction false} MembersAreDerived(src: Source, p: nat, first: bool, dict: map<Text, Json>)
    returns (m: S.Members)
    requires p <= |src.text| && MembersScan(src, p, first, dict).Match? && (!first ==> src.Skip(p) == p)
    ensures MembersDerive(src, p, m, first, dict)
    decreases |src.text| - p, 2
  {
    hide Source.StringBody;
    hide Source.Value;
    hide Source.Skip;
    hide Spells;
    hide S.IsGap;
    hide Source.Members;
    hide Source.AfterMember;
    MembersGoOn(src, p, first, dict);
    if !first && src.At(p) == RIGHT_BRACE {
      EmptySpells(src, p);
      m := EndOfMembers(src, p, first, false, dict, [], p);
    } else {
      var gap, at := StartIsDerived(src, p, first);
      MembersEnd(src, at, dict);
      if src.At(at) == RIGHT_BRACE {
        m := EndOfMembers(src, p, first, !first, dict, gap, at);
      } else {
        m := MemberIsDerived(src, p, first, dict, gap, at);
      }
    }
  }

  /** Behind a member stands the closing brace, or a comma and what is left. */
  lemma MembersGoOn(src: Source, p: nat, first: bool, dict: map<Text, Json>)
    requires MembersScan(src, p, first, dict).Match? && (!first ==> src.Skip(p) == p)
    ensures first ==> MembersScan(src, p, first, dict) == src.Members(src.Skip(p), dict)
    ensures !first ==> src.At(p) == RIGHT_BRACE || src.At(p) == COMMA
    ensures !first && src.At(p) == RIGHT_BRACE ==> MembersScan(src, p, first, dict) == Match(Object(dict), p + 1)
    ensures !first && src.At(p) == COMMA ==> MembersScan(src, p, first, dict) == src.Members(src.Skip(p + 1), dict)
  {
    hide Source.Members;
    hide Source.Skip;
  }

  lemma MembersEnd(src: Source, at: nat, dict: map<Text, Json>)
    ensures src.At(at) == RIGHT_BRACE ==> src.Members(at, dict) == Match(Object(dict), at + 1)
  {
  }

  lemma EmptySpells(src: Source, p: nat)
    requires p <= |src.text|
    ensures Spells(src, p, []) && S.IsGap([])
  {
  }

  lemma {:induction false} MemberIsDerived(src: Source, p: nat, first: bool, dict: map<Text, Json>, gap: Text, at: nat)
    returns (m: S.Members)
    requires p <= at <= |src.text| && MembersScan(src, p, first, dict).Match? && src.At(at) != RIGHT_BRACE
    requires S.IsGap(gap) && Spells(src, p, S.Comma(first)) && Spells(src, p + |S.Comma(first)|, gap)
    requires at == p + |S.Comma(first)| + |gap| && MembersScan(src, p, first, dict) == src.Members(at, dict)
    ensures MembersDerive(src, p, m, first, dict)
    decreases |src.text| - p, 1
  {
    hide Source.StringBody;
    hide Source.Value;
    hide Source.Skip;
    hide Source.Members;
    hide Source.AfterMember;
    hide Spells;
    hide S.IsGap;
    hide S.IsString;
    hide S.IsValue;
    hide S.StringText;
    hide S.ValueText;
    hide S.StringMeaning;
    hide S.Denotes;
    hide S.Meaning;
    var keyText, keyEnd, valueAt, json, end := MemberIsFound(src, at, dict);
    var key := StringIsDerived(src, at);
    GapIsDerived(src, keyEnd);
    GapIsDerived(src, src.Skip(keyEnd) + 1);
    var value := ValueIsDerived(src, valueAt);
    GapIsDerived(src, end);
    var next := src.Skip(end);
    SkipStops(src, end);
    var more := dict[keyText := json];
    assert more.Keys == dict.Keys + {keyText};
    var rest := MembersAreDerived(src, next, false, more);
    m := S.Member(gap, key, GapAt(src, keyEnd), GapAt(src, src.Skip(keyEnd) + 1), value, GapAt(src, end), rest);
    hide GapAt;
    MemberJoins(src, p, m, first, at, keyEnd, valueAt, end);
    hide S.MembersText;
  }

  lemma SkipStops(src: Source, p: nat)
    ensures src.Skip(src.Skip(p)) == src.Skip(p)
  {
  }

  // ---------- arrays ----------

  ghost predicate ElementsDerive(src: Source, p: nat, e: S.Elements, first: bool, list: seq<Json>) {
    && S.AreElements(e) && (e.EndComma? ==> !first) && S.ElementsDenote(e, src.strtod)
    && Spells(src, p, S.ElementsText(e, first))
    && ElementsScan(src, p, first, list)
       == Match(Array(list + S.ElementsMeaning(e, src.strtod)), p + |S.ElementsText(e, first)|)
  }

  lemma EndOfElements(src: Source, p: nat, first: bool, comma: bool, list: seq<Json>, gap: Text, at: nat)
    returns (e: S.Elements)
    requires S.IsGap(gap) && Spells(src, p, S.Comma(!comma)) && Spells(src, p + |S.Comma(!comma)|, gap)
    requires at == p + |S.Comma(!comma)| + |gap| && src.At(at) == RIGHT_BRACKET && (comma ==> !first)
    requires ElementsScan(src, p, first, list) == Match(Array(list), at + 1)
    ensures ElementsDerive(src, p, e, first, list)
  {
    ByteSpells(src, at, RIGHT_BRACKET);
    SpellsJoin(src, p + |S.Comma(!comma)|, gap, [RIGHT_BRACKET]);
    SpellsJoin(src, p, S.Comma(!comma), gap + [RIGHT_BRACKET]);
    e := if comma then S.EndComma(gap) else S.NoElement(gap);
    assert [] + (gap + [RIGHT_BRACKET]) == gap + [RIGHT_BRACKET] && list + [] == list;
  }

  lemma {:induction false} ElementsAreDerived(src: Source, p: nat, first: bool, list: seq<Json>)
    returns (e: S.Elements)
    requires p <= |src.text| && ElementsScan(src, p, first, list).Match? && (!first ==> src.Skip(p) == p)
    ensures ElementsDerive(src, p, e, first, list)
    decreases |src.text| - p, 2
  {
    hide Source.Value;
    hide Source.Skip;
    hide Spells;
    hide S.IsGap;
    hide Source.Elements;
    hide Source.AfterElement;
    ElementsGoOn(src, p, first, list);
    if !first && src.At(p) == RIGHT_BRACKET {
      EmptySpells(src, p);
      e := EndOfElements(src, p, first, false, list, [], p);
    } else {
      var gap, at := StartIsDerived(src, p, first);
      ElementsEnd(src, at, list);
      if src.At(at) == RIGHT_BRACKET {
        e := EndOfElements(src, p, first, !first, list, gap, at);
      } else {
        e := ElementIsDerived(src, p, first, list, gap, at);
      }
    }
  }

  lemma ElementsGoOn(src: Source, p: nat, first: bool, list: seq<Json>)
    requires ElementsScan(src, p, first, list).Match? && (!first ==> src.Skip(p) == p)
    ensures first ==> ElementsScan(src, p, first, list) == src.Elements(src.Skip(p), list)
    ensures !first ==> src.At(p) == RIGHT_BRACKET || src.At(p) == COMMA
    ensures !first && src.At(p) == RIGHT_BRACKET ==> ElementsScan(src, p, first, list) == Match(Array(list), p + 1)
    ensures !first && src.At(p) == COMMA ==> ElementsScan(src, p, first, list) == src.Elements(src.Skip(p + 1), list)
  {
    hide Source.Elements;
    hide Source.Skip;
  }

  lemma ElementsEnd(src: Source, at: nat, list: seq<Json>)
    ensures src.At(at) == RIGHT_BRACKET ==> src.Elements(at, list) == Match(Array(list), at + 1)
  {
  }

  lemma {:induction false} ElementIsDerived(src: Source, p: nat, first: bool, list: seq<Json>, gap: Text, at: nat)
    returns (e: S.Elements)
    requires p <= at <= |src.text| && ElementsScan(src, p, first, list).Match? && src.At(at) != RIGHT_BRACKET
    requires S.IsGap(gap) && Spells(src, p, S.Comma(first)) && Spells(src, p + |S.Comma(first)|, gap)
    requires at == p + |S.Comma(first)| + |gap| && ElementsScan(src, p, first, list) == src.Elements(at, list)
    ensures ElementsDerive(src, p, e, first, list)
    decreases |src.text| - p, 1
  {
    hide Source.Value;
    hide Source.Skip;
    hide Source.Elements;
    hide Source.AfterElement;
    hide Spells;
    hide S.IsGap;
    hide S.IsValue;
    hide S.ValueText;
    hide S.Denotes;
    hide S.Meaning;
    ElementIsFound(src, at, list);
    var json, end := src.Value(at).value, src.Value(at).next;
    var value := ValueIsDerived(src, at);
    GapIsDerived(src, end);
    SkipStops(src, end);
    var next := src.Skip(end);
    var rest := ElementsAreDerived(src, next, false, list + [json]);
    e := S.Element(gap, value, GapAt(src, end), rest);
    hide GapAt;
    ElementJoins(src, p, e, first, at, end);
    hide S.ElementsText;
    assert list + [json] + S.ElementsMeaning(rest, src.strtod) == list + S.ElementsMeaning(e, src.strtod);
  }

  lemma ElementIsFound(src: Source, at: nat, list: seq<Json>)
    requires src.Elements(at, list).Match? && src.At(at) != RIGHT_BRACKET
    ensures var v := src.Value(at);
      v.Match? && src.Elements(at, list) == src.AfterElement(src.Skip(v.next), list + [v.value])
  {
    hide Source.Value;
    hide Source.Skip;
    hide Source.AfterElement;
  }

  lemma ElementJoins(src: Source, p: nat, e: S.Elements, first: bool, at: nat, end: nat)
    requires e.Element? && S.AreElements(e) && Spells(src, p, S.Comma(first))
    requires Spells(src, p + |S.Comma(first)|, e.gap) && at == p + |S.Comma(first)| + |e.gap|
    requires Spells(src, at, S.ValueText(e.value)) && end == at + |S.ValueText(e.value)| && Spells(src, end, e.behind)
    requires Spells(src, end + |e.behind|, S.ElementsText(e.rest, false))
    ensures Spells(src, p, S.ElementsText(e, first))
    ensures p + |S.ElementsText(e, first)| == end + |e.behind| + |S.ElementsText(e.rest, false)|
  {
    hide Spells;
    hide S.ValueText;
    var last := e.behind + S.ElementsText(e.rest, false);
    SpellsJoin(src, end, e.behind, S.ElementsText(e.rest, false));
    SpellsJoin(src, at, S.ValueText(e.value), last);
    SpellsJoin(src, p + |S.Comma(first)|, e.gap, S.ValueText(e.value) + last);
    SpellsJoin(src, p, S.Comma(first), e.gap + (S.ValueText(e.value) + last));
  }

  // ---------- documents ----------

  ghost predicate IsDerived(src: Source, d: S.Document, v: Json) {
    && S.IsDocument(d) && S.Denotes(d.value, src.strtod)
    && S.DocumentText(d) == src.text && S.Meaning(d.value, src.strtod) == v
  }

  lemma DocumentIsDerived(src: Source) returns (d: S.Document)
    requires src.Document().Some?
    ensures IsDerived(src, d, src.Document().value)
  {
    hide Source.Value;
    hide Source.Skip;
    hide S.IsValue;
    hide S.ValueText;
    hide S.Denotes;
    hide S.Meaning;
    GapIsDerived(src, 0);
    var at := src.Skip(0);
    var value := ValueIsDerived(src, at);
    var end := src.Value(at).next;
    GapIsDerived(src, end);
    d := S.Document(GapAt(src, 0), value, GapAt(src, end));
    SpellsJoin(src, at, S.ValueText(value), GapAt(src, end));
    SpellsJoin(src, 0, GapAt(src, 0), S.ValueText(value) + GapAt(src, end));
    SpelledText(src, 0, S.DocumentText(d));
    assert src.text[0..|src.text|] == src.text;
  }

  /** The texts that Json::parse takes are the derived ones, and each is read as the tree that its
      derivations denote; two derivations of a text denote the same tree. */
  lemma AcceptedTextsAreTheDerived(src: Source, v: Json)
    ensures src.Document() == Some(v) <==> exists d :: IsDerived(src, d, v)
  {
    if src.Document() == Some(v) {
      var d := DocumentIsDerived(src);
    } else if d :| IsDerived(src, d, v) {
      DocumentIsRead(src, d);
      assert false;
    }
  }
}
