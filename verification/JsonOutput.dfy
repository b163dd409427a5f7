/** What the printer writes is a JSON text of RFC 8259, in visible characters. */
module JsonOutput {
  import opened Bytes
  import opened JsonTree
  import opened JsonPrinting
  import opened Utf8
  import S = JsonTexts

  /** A tree that the class can hold, with well-formed strings and keys and without Real nodes. */
  predicate Printable(v: Json) {
    match v
    case Object(dict) => forall k :: k in dict ==> WellFormedUtf8(k) && Printable(dict[k])
    case Array(list) => forall i :: 0 <= i < |list| ==> Printable(list[i])
    case String(s) => WellFormedUtf8(s)
    case Integer(i) => -INT64_LIMIT <= i < INT64_LIMIT
    case UInteger(u) => 0 <= u < UINT64_LIMIT
    case Real(_) => false
    case Boolean(_) => true
    case Null => true
    case Uninit => true
  }

  /** The tree after one trip: Uninit has become Null, a small UInteger an Integer. */
  function Normal(v: Json): Json {
    match v
    case Object(dict) => Object(map k | k in dict :: Normal(dict[k]))
    case Array(list) => Array(seq(|list|, i requires 0 <= i < |list| => Normal(list[i])))
    case UInteger(u) => if u < INT64_LIMIT then Integer(u) else v
    case Uninit => Null
    case _ => v
  }

  // ---------- strings ----------

  /** The escaper takes a character of several octets as one unit, whose octets are not special. */
  lemma CharacterIsUnit(s: Text)
    requires CharacterLength(s) > 0
    ensures UnitLength(s) == CharacterLength(s)
    ensures UnitLength(s) == 1 ==> s[0] < 0x80
    ensures UnitLength(s) > 1 ==> forall i :: 0 <= i < UnitLength(s) ==> s[i] >= 0x80
  {
  }

  /** What the escaper writes for a byte below 0x80 is one of the standard's forms of it. */
  lemma EscapedByteIsStandard(b: Byte) returns (c: S.Character)
    requires b < 0x80
    ensures S.IsWritten(c) && S.IsStandardCharacter(c) && S.CharacterText(c) == EscapeByte(b) && S.Octets(c) == [b]
  {
    if b == BACKSLASH {
      c := S.Short('\\');
    } else if b == QUOTE {
      c := S.Short('\"');
    } else if b == BACKSPACE {
      c := S.Short('b');
    } else if b == FORM_FEED {
      c := S.Short('f');
    } else if b == LINE_FEED {
      c := S.Short('n');
    } else if b == CARRIAGE_RETURN {
      c := S.Short('r');
    } else if b == TAB {
      c := S.Short('t');
    } else if 0x1F < b < 0x7F {
      c := S.Unescaped(b);
    } else {
      c := S.Escaped(b, [false, false, false, false]);
    }
  }

  lemma CharacterIsStandard(s: Text) returns (c: S.Character)
    requires CharacterLength(s) > 0
    ensures var n := UnitLength(s);
      && n == CharacterLength(s) && S.IsWritten(c) && S.IsStandardCharacter(c) && S.Octets(c) == s[..n]
      && S.CharacterText(c) == if n == 1 then EscapeByte(s[0]) else s[..n]
  {
    hide EscapeByte;
    CharacterIsUnit(s);
    OctetsOfCharacter(s);
    var unit := s[..UnitLength(s)];
    if |unit| == 1 {
      c := EscapedByteIsStandard(s[0]);
      assert unit == [s[0]];
    } else {
      c := S.Unescaped(DecodeUtf8(unit));
      EncodeUndoesDecode(unit);
      assert DecodeUtf8(unit) >= 0x80 by {
        assert unit[0] == s[0];
      }
    }
  }

  /** A character in front of a string that is written already. */
  lemma CharacterJoins(s: Text, c: S.Character, rest: seq<S.Character>)
    requires s != [] && S.IsWritten(c) && S.IsStandardCharacter(c) && S.Octets(c) == s[..UnitLength(s)]
    requires S.CharacterText(c) == if UnitLength(s) == 1 then EscapeByte(s[0]) else s[..UnitLength(s)]
    requires S.IsString(rest) && S.IsStandardString(rest)
    requires S.BodyText(rest) == EscapeText(s[UnitLength(s)..]) && S.StringMeaning(rest) == s[UnitLength(s)..]
    ensures var cs := [c] + rest;
      && S.IsString(cs) && S.IsStandardString(cs) && S.BodyText(cs) == EscapeText(s) && S.StringMeaning(cs) == s
  {
    hide EscapeByte;
    hide UnitLength;
    hide S.Octets;
    hide S.CharacterText;
    hide S.IsWritten;
    hide S.IsStandardCharacter;
    var cs := [c] + rest;
    assert cs[1..] == rest && s == s[..UnitLength(s)] + s[UnitLength(s)..];
  }

  lemma {:induction false} EscapedIsStandard(s: Text) returns (cs: seq<S.Character>)
    requires WellFormedUtf8(s)
    ensures S.IsString(cs) && S.IsStandardString(cs)
    ensures S.BodyText(cs) == EscapeText(s) && S.StringMeaning(cs) == s
    decreases |s|
  {
    hide EscapeByte;
    hide UnitLength;
    hide CharacterLength;
    hide S.Octets;
    hide S.CharacterText;
    hide S.IsWritten;
    hide S.IsStandardCharacter;
    if s == [] {
      cs := [];
    } else {
      var c := CharacterIsStandard(s);
      var rest := EscapedIsStandard(s[UnitLength(s)..]);
      cs := [c] + rest;
      CharacterJoins(s, c, rest);
    }
  }

  // ---------- numbers ----------

  lemma {:induction false} DecimalIsStandard(n: nat)
    ensures var text := Decimal(n);
      && text != [] && S.AreDigits(text) && S.Decimals(text) == n
      && (text[0] == DIGIT_0 ==> n == 0) && (n == 0 ==> |text| == 1)
    decreases n
  {
    if n >= 10 {
      DecimalIsStandard(n / 10);
      var text := Decimal(n);
      assert text[..|text| - 1] == Decimal(n / 10);
    } else {
      assert Decimal(n)[..0] == [];
    }
  }

  lemma IntegerIsStandard(n: int) returns (k: S.Number)
    ensures S.IsNumber(k) && S.NumberText(k) == IntegerText(n) && S.IsWhole(k) && S.WholeValue(k) == n
  {
    var digits := Decimal(if n < 0 then -n else n);
    DecimalIsStandard(if n < 0 then -n else n);
    k := S.Number(n < 0, digits, [], S.NoExponent);
    assert digits + ([] + []) == digits;
  }

  // ---------- trees ----------

  /** A standard form of a value: its text and its meaning. */
  ghost predicate Derives(d: S.Value, text: Text, v: Json, strtod: Text -> Option<real>) {
    S.IsValue(d) && S.IsStandard(d) && S.Denotes(d, strtod) && S.ValueText(d) == text && S.Meaning(d, strtod) == v
  }

  lemma NumberIsStandard(n: int, strtod: Text -> Option<real>) returns (d: S.Value)
    requires -INT64_LIMIT <= n < UINT64_LIMIT
    ensures Derives(d, IntegerText(n), if n < INT64_LIMIT then Integer(n) else UInteger(n), strtod)
  {
    hide IntegerText;
    hide S.NumberText;
    hide S.WholeValue;
    hide S.IsNumber;
    var k := IntegerIsStandard(n);
    d := S.Numeral(k);
  }

  /** The output for a printable tree is a value of the standard, which denotes the normal form of
      the tree. */
  lemma {:induction false} OutputIsStandard(v: Json, format: Double -> Text, strtod: Text -> Option<real>)
    returns (d: S.Value)
    requires Printable(v)
    ensures Derives(d, Str(v, format), Normal(v), strtod)
    decreases v, 1, 0
  {
    hide EscapeText;
    hide IntegerText;
    hide WellFormedUtf8;
    hide SortedKeys;
    hide Derives;
    hide JsonPrinting.MembersText;
    hide JsonPrinting.ElementsText;
    match v {
      case String(s) => d := StringIsStandard(s, strtod);
      case Integer(i) => d := NumberIsStandard(i, strtod);
      case UInteger(u) => d := NumberIsStandard(u, strtod);
      case Object(dict) =>
        var none: map<Text, Json> := map[];
        var keys := SortedKeys(dict.Keys);
        assert none.Keys == {} && Prefix(v, keys, 0) == none;
        var members := MembersAreStandard(v, keys, 0, none, format, strtod);
        hide S.MembersAreStandard;
        d := BracesDerive(members, none, strtod);
      case Array(list) =>
        var elements := ElementsAreStandard(v, 0, format, strtod);
        d := BracketsDerive(elements, strtod);
        assert Normal(v).list[0..] == Normal(v).list;
      case Boolean(b) => d := WordIsStandard(v, strtod);
      case Null => d := WordIsStandard(v, strtod);
      case Uninit => d := WordIsStandard(Null, strtod);
    }
  }

  lemma StringIsStandard(s: Text, strtod: Text -> Option<real>) returns (d: S.Value)
    requires WellFormedUtf8(s)
    ensures Derives(d, [QUOTE] + EscapeText(s) + [QUOTE], String(s), strtod)
  {
    hide EscapeText;
    hide S.BodyText;
    hide S.StringMeaning;
    hide S.IsString;
    hide S.IsStandardString;
    var cs := EscapedIsStandard(s);
    d := S.Quoted(cs);
    assert [QUOTE] + (EscapeText(s) + [QUOTE]) == [QUOTE] + EscapeText(s) + [QUOTE];
  }

  lemma WordIsStandard(v: Json, strtod: Text -> Option<real>) returns (d: S.Value)
    requires v.Boolean? || v.Null?
    ensures Derives(d, if v.Null? then NULL_TEXT else if v.flag then TRUE_TEXT else FALSE_TEXT, v, strtod)
  {
    d := if v.Null? then S.NullWord else if v.flag then S.True else S.False;
  }

  lemma BracesDerive(m: S.Members, none: map<Text, Json>, strtod: Text -> Option<real>) returns (d: S.Value)
    requires S.AreMembers(m) && S.MembersAreStandard(m) && none == map[] && S.MembersDenote(m, none.Keys, strtod)
    ensures Derives(d, [LEFT_BRACE] + S.MembersText(m, true), Object(S.MembersMeaning(m, none, strtod)), strtod)
  {
    hide S.MembersText;
    hide S.MembersMeaning;
    assert none.Keys == {};
    d := S.Braces(m);
  }

  lemma BracketsDerive(e: S.Elements, strtod: Text -> Option<real>) returns (d: S.Value)
    requires S.AreElements(e) && S.ElementsAreStandard(e) && S.ElementsDenote(e, strtod)
    ensures Derives(d, [LEFT_BRACKET] + S.ElementsText(e, true), Array(S.ElementsMeaning(e, strtod)), strtod)
  {
    hide S.ElementsText;
    hide S.ElementsMeaning;
    d := S.Brackets(e);
  }

  /** The keys of an object, in order. */
  ghost predicate Enumerates(keys: seq<Text>, v: Json) {
    v.Object? && Ascending(keys) && forall k :: k in keys <==> k in v.dict
  }

  lemma KeyIsNew(keys: seq<Text>, i: nat)
    requires Ascending(keys) && i < |keys|
    ensures keys[i] !in keys[..i]
  {
    BeforeIsIrreflexive(keys[i]);
  }

  /** The dictionary after the first i keys. */
  ghost function Prefix(v: Json, keys: seq<Text>, i: nat): map<Text, Json>
    requires v.Object? && i <= |keys| && forall k :: k in keys ==> k in v.dict
  {
    map k | k in keys[..i] :: Normal(v.dict[k])
  }

  lemma MemberFacts(v: Json, keys: seq<Text>, i: nat)
    requires v.Object? && Printable(v) && Enumerates(keys, v) && i < |keys|
    ensures forall k :: k in keys ==> k in v.dict
    ensures keys[i] in v.dict && WellFormedUtf8(keys[i]) && Printable(v.dict[keys[i]])
    ensures keys[i] !in Prefix(v, keys, i)
    ensures Prefix(v, keys, i + 1) == Prefix(v, keys, i)[keys[i] := Normal(v.dict[keys[i]])]
  {
    KeyIsNew(keys, i);
    assert keys[i] in keys && keys[i] in v.dict;
    assert WellFormedUtf8(keys[i]) && Printable(v.dict[keys[i]]);
    hide Ascending;
    hide Printable;
    hide WellFormedUtf8;
    hide Normal;
    PrefixGrows(v, keys, i);
    assert keys[i] !in Prefix(v, keys, i);
  }

  lemma PrefixGrows(v: Json, keys: seq<Text>, i: nat)
    requires v.Object? && i < |keys| && forall k :: k in keys ==> k in v.dict
    ensures keys[i] in v.dict
    ensures Prefix(v, keys, i + 1) == Prefix(v, keys, i)[keys[i] := Normal(v.dict[keys[i]])]
  {
    hide Normal;
    assert keys[i] in keys;
    assert keys[..i + 1] == keys[..i] + [keys[i]];
  }

  lemma AllKeys(v: Json, keys: seq<Text>)
    requires Enumerates(keys, v)
    ensures Prefix(v, keys, |keys|) == Normal(v).dict
  {
    assert keys[..|keys|] == keys;
  }

  /** The text of a member as the standard joins it. */
  lemma MemberJoins(i: nat, body: Text, value: Text, rest: Text)
    ensures var gap := if i == 0 then [] else [SPACE];
      Separator(i) + ([QUOTE] + body + [QUOTE, COLON] + value) + rest
      == S.Comma(i == 0) + (gap + (([QUOTE] + (body + [QUOTE])) + ([] + ([COLON] + ([] + (value + ([] + rest)))))))
  {
    var gap: Text := if i == 0 then [] else [SPACE];
    assert Separator(i) == S.Comma(i == 0) + gap;
    assert [QUOTE] + body + [QUOTE, COLON] + value == ([QUOTE] + (body + [QUOTE])) + ([COLON] + value);
    assert [] + rest == rest;
  }

  lemma {:induction false} MembersAreStandard(v: Json, keys: seq<Text>, i: nat, dict: map<Text, Json>,
                                              format: Double -> Text, strtod: Text -> Option<real>)
    returns (m: S.Members)
    requires v.Object? && Printable(v) && Enumerates(keys, v) && i <= |keys| && dict == Prefix(v, keys, i)
    ensures S.AreMembers(m) && S.MembersAreStandard(m) && S.MembersDenote(m, dict.Keys, strtod)
    ensures S.MembersText(m, i == 0) == MembersText(v, keys, i, format)
    ensures S.MembersMeaning(m, dict, strtod) == Normal(v).dict
    decreases v, 0, |keys| - i
  {
    hide EscapeText;
    hide Str;
    hide Prefix;
    hide Enumerates;
    hide Normal;
    hide Printable;
    hide WellFormedUtf8;
    hide S.StringMeaning;
    hide S.BodyText;
    hide S.IsString;
    hide S.IsStandardString;
    hide S.IsStandard;
    hide S.IsValue;
    hide S.ValueText;
    hide S.Denotes;
    hide S.Meaning;
    if i == |keys| {
      m := S.NoMember([]);
      AllKeys(v, keys);
    } else {
      MemberFacts(v, keys, i);
      var key := EscapedIsStandard(keys[i]);
      var value := OutputIsStandard(v.dict[keys[i]], format, strtod);
      var more := dict[keys[i] := Normal(v.dict[keys[i]])];
      assert more.Keys == dict.Keys + {keys[i]};
      var rest := MembersAreStandard(v, keys, i + 1, more, format, strtod);
      m := S.Member(if i == 0 then [] else [SPACE], key, [], [], value, [], rest);
      MemberJoins(i, EscapeText(keys[i]), Str(v.dict[keys[i]], format), MembersText(v, keys, i + 1, format));
    }
  }

  lemma ElementJoins(i: nat, value: Text, rest: Text)
    ensures var gap := if i == 0 then [] else [SPACE];
      Separator(i) + value + rest == S.Comma(i == 0) + (gap + (value + ([] + rest)))
  {
    var gap: Text := if i == 0 then [] else [SPACE];
    assert Separator(i) == S.Comma(i == 0) + gap;
    assert [] + rest == rest;
  }

  lemma ElementFacts(v: Json, i: nat)
    requires v.Array? && Printable(v) && i < |v.list|
    ensures Printable(v.list[i]) && Normal(v).Array? && |Normal(v).list| == |v.list|
    ensures Normal(v).list[i..] == [Normal(v.list[i])] + Normal(v).list[i + 1..]
  {
  }

  lemma AllElements(v: Json)
    requires v.Array?
    ensures Normal(v).Array? && |Normal(v).list| == |v.list| && Normal(v).list[|v.list|..] == []
  {
  }

  lemma {:induction false} ElementsAreStandard(v: Json, i: nat, format: Double -> Text, strtod: Text -> Option<real>)
    returns (e: S.Elements)
    requires v.Array? && Printable(v) && i <= |v.list|
    ensures S.AreElements(e) && S.ElementsAreStandard(e) && S.ElementsDenote(e, strtod)
    ensures S.ElementsText(e, i == 0) == ElementsText(v, i, format)
    ensures Normal(v).Array? && |Normal(v).list| == |v.list| && S.ElementsMeaning(e, strtod) == Normal(v).list[i..]
    decreases v, 0, |v.list| - i
  {
    hide Str;
    hide SortedKeys;
    hide S.IsStandard;
    hide S.IsValue;
    hide S.ValueText;
    hide S.Denotes;
    hide S.Meaning;
    hide Printable;
    hide Normal;
    if i == |v.list| {
      e := S.NoElement([]);
      AllElements(v);
    } else {
      ElementFacts(v, i);
      var value := OutputIsStandard(v.list[i], format, strtod);
      var rest := ElementsAreStandard(v, i + 1, format, strtod);
      e := S.Element(if i == 0 then [] else [SPACE], value, [], rest);
      ElementJoins(i, Str(v.list[i], format), ElementsText(v, i + 1, format));
    }
  }

  // ---------- bytes ----------

  /** No control character, DEL included. */
  predicate IsVisible(s: Text) {
    forall i :: 0 <= i < |s| ==> s[i] >= 0x20 && s[i] != 0x7F
  }

  lemma {:induction false} EscapedIsVisible(s: Text)
    requires WellFormedUtf8(s)
    ensures IsVisible(EscapeText(s))
    decreases |s|
  {
    if s != [] {
      CharacterIsUnit(s);
      EscapedIsVisible(s[UnitLength(s)..]);
    }
  }

  /** Every byte of the output of a printable tree is visible. */
  lemma {:induction false} OutputIsVisible(v: Json, format: Double -> Text)
    requires Printable(v)
    ensures IsVisible(Str(v, format))
    decreases v, 1, 0
  {
    hide EscapeText;
    hide SortedKeys;
    hide S.Decimals;
    hide JsonPrinting.MembersText;
    hide JsonPrinting.ElementsText;
    match v {
      case String(s) => EscapedIsVisible(s);
      case Integer(i) => DecimalIsStandard(if i < 0 then -i else i);
      case UInteger(u) => DecimalIsStandard(u);
      case Object(dict) => MembersAreVisible(v, SortedKeys(dict.Keys), 0, format);
      case Array(_) => ElementsAreVisible(v, 0, format);
      case _ =>
    }
  }

  lemma {:induction false} MembersAreVisible(v: Json, keys: seq<Text>, i: nat, format: Double -> Text)
    requires v.Object? && Printable(v) && i <= |keys| && forall k :: k in keys ==> k in v.dict
    ensures IsVisible(MembersText(v, keys, i, format))
    decreases v, 0, |keys| - i
  {
    hide EscapeText;
    hide Str;
    hide WellFormedUtf8;
    if i < |keys| {
      assert keys[i] in v.dict;
      EscapedIsVisible(keys[i]);
      OutputIsVisible(v.dict[keys[i]], format);
      MembersAreVisible(v, keys, i + 1, format);
    }
  }

  lemma {:induction false} ElementsAreVisible(v: Json, i: nat, format: Double -> Text)
    requires v.Array? && Printable(v) && i <= |v.list|
    ensures IsVisible(ElementsText(v, i, format))
    decreases v, 0, |v.list| - i
  {
    hide Str;
    if i < |v.list| {
      OutputIsVisible(v.list[i], format);
      ElementsAreVisible(v, i + 1, format);
    }
  }

  // ---------- order and separators ----------

  /** Items with a comma and a space between them. */
  function Joined(items: seq<Text>): Text {
    if items == [] then []
    else if |items| == 1 then items[0]
    else items[0] + ([0x2C, 0x20] + Joined(items[1..]))
  }

  /** The i-th item and those behind it. */
  lemma {:induction false} ElementsAreJoined(v: Json, i: nat, format: Double -> Text, items: seq<Text>)
    requires v.Array? && i < |v.list| && |items| == |v.list| - i
    requires forall k :: 0 <= k < |items| ==> items[k] == Str(v.list[i + k], format)
    ensures ElementsText(v, i, format) == Separator(i) + (Joined(items) + [0x5D])
    decreases |items|
  {
    hide Str;
    var value, rest := Str(v.list[i], format), ElementsText(v, i + 1, format);
    if |items| > 1 {
      ElementsAreJoined(v, i + 1, format, items[1..]);
      Rejoin(Separator(i), value, Joined(items[1..]), 0x5D);
    } else {
      assert rest == [0x5D];
      assert Separator(i) + value + rest == Separator(i) + (value + rest);
    }
  }

  lemma Rejoin(separator: Text, item: Text, rest: Text, end: Byte)
    ensures separator + item + ([0x2C, 0x20] + (rest + [end])) == separator + (item + ([0x2C, 0x20] + rest) + [end])
  {
  }

  lemma {:induction false} MembersAreJoined(v: Json, keys: seq<Text>, i: nat, format: Double -> Text, items: seq<Text>)
    requires v.Object? && i < |keys| && (forall k :: k in keys ==> k in v.dict) && |items| == |keys| - i
    requires forall k :: 0 <= k < |items| ==> items[k] == MemberText(v, keys[i + k], format)
    ensures MembersText(v, keys, i, format) == Separator(i) + (Joined(items) + [0x7D])
    decreases |items|
  {
    hide MemberText;
    var value, rest := MemberText(v, keys[i], format), MembersText(v, keys, i + 1, format);
    if |items| > 1 {
      MembersAreJoined(v, keys, i + 1, format, items[1..]);
      Rejoin(Separator(i), value, Joined(items[1..]), 0x7D);
    } else {
      assert rest == [0x7D];
      assert Separator(i) + value + rest == Separator(i) + (value + rest);
    }
  }

  /** An array: its elements with ", " between them, in their order. */
  lemma ArrayText(v: Json, format: Double -> Text)
    requires v.Array?
    ensures var items := seq(|v.list|, i requires 0 <= i < |v.list| => Str(v.list[i], format));
      Str(v, format) == [0x5B] + (Joined(items) + [0x5D])
  {
    var items := seq(|v.list|, i requires 0 <= i < |v.list| => Str(v.list[i], format));
    if v.list != [] {
      ElementsAreJoined(v, 0, format, items);
      assert [] + (Joined(items) + [0x5D]) == Joined(items) + [0x5D];
    }
  }

  ghost predicate InOrder(keys: seq<Text>) {
    forall i, j :: 0 <= i < j < |keys| ==> Precedes(keys[i], keys[j])
  }

  /** An object: its members with ", " between them, in the byte order of their keys, and a colon
      behind each key. */
  lemma ObjectText(v: Json, format: Double -> Text) returns (keys: seq<Text>, items: seq<Text>)
    requires v.Object?
    ensures InOrder(keys) && (forall k :: k in keys <==> k in v.dict) && |items| == |keys|
    ensures forall i {:trigger items[i]} :: 0 <= i < |items| ==>
      keys[i] in v.dict
      && items[i] == [0x22] + EscapeText(keys[i]) + [0x22, 0x3A] + Str(v.dict[keys[i]], format)
    ensures Str(v, format) == [0x7B] + (Joined(items) + [0x7D])
  {
    hide EscapeText;
    hide SortedKeys;
    keys := SortedKeys(v.dict.Keys);
    forall i, j | 0 <= i < j < |keys| ensures Precedes(keys[i], keys[j]) {
      BeforeMeansPrecedes(keys[i], keys[j]);
    }
    forall i | 0 <= i < |keys| ensures keys[i] in v.dict {
      assert keys[i] in keys;
    }
    items := seq(|keys|, i requires 0 <= i < |keys| => MemberText(v, keys[i], format));
    if keys != [] {
      MembersAreJoined(v, keys, 0, format, items);
      assert [] + (Joined(items) + [0x7D]) == Joined(items) + [0x7D];
    }
  }
}
