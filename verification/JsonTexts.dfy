/** JSON texts as they are derived. A derivation records every choice that a writer has: the white
  space in each gap, how each character of a string is written, and how a number is. The standard
  derivations are those of RFC 8259; the others use one of the leniencies that FPJsonParser.cpp has
  besides. The parser's grammar and the printer have no part in any of this. */
module JsonTexts {
  import opened Bytes
  import opened JsonTree
  import opened Utf8

  function Ascii(c: char): Byte
    requires c < '\U{80}'
  {
    c as int
  }

  /** White space: vertical tabs and form feeds are a leniency. */
  predicate IsGap(s: Text) {
    forall i :: 0 <= i < |s| ==> s[i] == 0x20 || 0x09 <= s[i] <= 0x0D
  }

  predicate IsStandardGap(s: Text) {
    forall i :: 0 <= i < |s| ==> s[i] == 0x20 || s[i] == 0x09 || s[i] == 0x0A || s[i] == 0x0D
  }

  // ---------- strings (section 7) ----------

  /** A character of a string stands for itself, or is written with one of the eight short forms, or
      as the \u form of its code point, of which each digit may be an upper-case one. By leniency
      any octet may stand for itself, control characters and parts of characters included, and a
      backslash in front of any octet that makes no form with it is dropped. */
  datatype Character =
    | Unescaped(point: int)
    | Short(letter: char)
    | Escaped(point: int, upper: seq<bool>)
    | Raw(octet: Byte)
    | Dropped(octet: Byte)

  predicate IsWritten(c: Character) {
    match c
    case Unescaped(p) => IsScalar(p) && p >= 0x20 && p != 0x22 && p != 0x5C
    case Short(l) => l in "\"\\/bfnrt"
    case Escaped(p, upper) => IsScalar(p) && |upper| == if p < 0x10000 then 4 else 8
    case Raw(b) => b != 0 && b != 0x22 && b != 0x5C
    case Dropped(b) =>
      b != 0 && b != Ascii('b') && b != Ascii('f') && b != Ascii('n') && b != Ascii('r') && b != Ascii('t')
      && b != Ascii('u')
  }

  predicate IsStandardCharacter(c: Character) {
    !c.Raw? && !c.Dropped?
  }

  /** What a short form stands for. */
  function ShortPoint(l: char): int
    requires l in "\"\\/bfnrt"
  {
    if l == 'b' then 0x08
    else if l == 't' then 0x09
    else if l == 'n' then 0x0A
    else if l == 'f' then 0x0C
    else if l == 'r' then 0x0D
    else Ascii(l)
  }

  /** The octets of the character in a string. */
  function Octets(c: Character): Text
    requires IsWritten(c)
  {
    match c
    case Unescaped(p) => EncodeUtf8(p)
    case Short(l) => EncodeUtf8(ShortPoint(l))
    case Escaped(p, _) => EncodeUtf8(p)
    case Raw(b) => [b]
    case Dropped(b) => [b]
  }

  function HexLetter(d: int, upper: bool): Byte
    requires 0 <= d < 0x10
  {
    if d < 10 then Ascii('0') + d else (if upper then Ascii('A') else Ascii('a')) + (d - 10)
  }

  /** The \u form of sixteen bits. */
  function UnitText(u: int, upper: seq<bool>): (r: Text)
    requires 0 <= u < 0x10000 && |upper| == 4
    ensures |r| == 6
  {
    [Ascii('\\'), Ascii('u'), HexLetter(u / 0x1000, upper[0]), HexLetter(u / 0x100 % 0x10, upper[1]),
     HexLetter(u / 0x10 % 0x10, upper[2]), HexLetter(u % 0x10, upper[3])]
  }

  function CharacterText(c: Character): Text
    requires IsWritten(c)
  {
    match c
    case Unescaped(p) => EncodeUtf8(p)
    case Short(l) => [Ascii('\\'), Ascii(l)]
    case Escaped(p, upper) =>
      if p < 0x10000 then UnitText(p, upper)
      else
        var bits := p - 0x10000;
        UnitText(0xD800 + bits / 0x400, upper[..4]) + UnitText(0xDC00 + bits % 0x400, upper[4..])
    case Raw(b) => [b]
    case Dropped(b) => [Ascii('\\'), b]
  }

  predicate IsString(s: seq<Character>) {
    forall i :: 0 <= i < |s| ==> IsWritten(s[i])
  }

  /** What stands between the quotes. */
  function BodyText(s: seq<Character>): Text
    requires IsString(s)
  {
    if s == [] then [] else CharacterText(s[0]) + BodyText(s[1..])
  }

  function StringText(s: seq<Character>): Text
    requires IsString(s)
  {
    [Ascii('"')] + (BodyText(s) + [Ascii('"')])
  }

  /** The octets of the characters. */
  function StringMeaning(s: seq<Character>): Text
    requires IsString(s)
  {
    if s == [] then [] else Octets(s[0]) + StringMeaning(s[1..])
  }

  // ---------- numbers (section 6) ----------

  predicate AreDigits(s: Text) {
    forall i :: 0 <= i < |s| ==> Ascii('0') <= s[i] <= Ascii('9')
  }

  datatype Exponent = NoExponent | Exponent(upper: bool, sign: Text, digits: Text)

  /** An empty fraction is none. */
  datatype Number = Number(minus: bool, digits: Text, fraction: Text, exponent: Exponent)

  predicate IsNumber(n: Number) {
    && n.digits != [] && AreDigits(n.digits) && (|n.digits| > 1 ==> n.digits[0] != Ascii('0'))
    && AreDigits(n.fraction)
    && match n.exponent
       case NoExponent => true
       case Exponent(_, sign, digits) =>
         (sign == [] || sign == [Ascii('+')] || sign == [Ascii('-')]) && digits != [] && AreDigits(digits)
  }

  function ExponentText(e: Exponent): Text {
    match e
    case NoExponent => []
    case Exponent(upper, sign, digits) => [if upper then Ascii('E') else Ascii('e')] + (sign + digits)
  }

  function NumberText(n: Number): Text {
    (if n.minus then [Ascii('-')] else [])
    + (n.digits + ((if n.fraction == [] then [] else [Ascii('.')] + n.fraction) + ExponentText(n.exponent)))
  }

  predicate IsWhole(n: Number) {
    n.fraction == [] && n.exponent.NoExponent?
  }

  function Decimals(s: Text): nat
    requires AreDigits(s)
  {
    if s == [] then 0 else 10 * Decimals(s[..|s| - 1]) + (s[|s| - 1] - Ascii('0'))
  }

  function WholeValue(n: Number): int
    requires IsNumber(n)
  {
    if n.minus then -(Decimals(n.digits) as int) else Decimals(n.digits)
  }

  /** The number fits a node of a tree; `strtod` converts those that are not whole. */
  predicate Fits(n: Number, strtod: Text -> Option<real>)
    requires IsNumber(n)
  {
    if IsWhole(n) then -0x8000_0000_0000_0000 <= WholeValue(n) < 0x1_0000_0000_0000_0000
    else strtod(NumberText(n)).Some?
  }

  function NumberMeaning(n: Number, strtod: Text -> Option<real>): Json
    requires IsNumber(n) && Fits(n, strtod)
  {
    if !IsWhole(n) then Real(Finite(strtod(NumberText(n)).value))
    else if WholeValue(n) < 0x8000_0000_0000_0000 then Integer(WholeValue(n))
    else UInteger(WholeValue(n))
  }

  // ---------- other numbers ----------

  /** By leniency any row of digits, signs, points and exponent letters is a number if the C library
      makes one of it: strtod where there is a point or an exponent letter, else strtoimax behind a
      minus and strtoumax elsewhere. */
  predicate IsLoose(s: Text) {
    s != [] && forall i :: 0 <= i < |s| ==>
      Ascii('0') <= s[i] <= Ascii('9') || s[i] == Ascii('+') || s[i] == Ascii('-') || s[i] == Ascii('.')
      || s[i] == Ascii('e') || s[i] == Ascii('E')
  }

  function ExponentLetters(s: Text): nat {
    multiset(s)[Ascii('e')] + multiset(s)[Ascii('E')]
  }

  predicate IsLooseReal(s: Text) {
    Ascii('.') in s || ExponentLetters(s) > 0
  }

  function LooseDigits(s: Text): Text
    requires s != []
  {
    if s[0] == Ascii('-') || s[0] == Ascii('+') then s[1..] else s
  }

  predicate LooseFits(s: Text, strtod: Text -> Option<real>)
    requires IsLoose(s)
  {
    && ExponentLetters(s) <= 1
    && if IsLooseReal(s) then strtod(s).Some?
       else
         && LooseDigits(s) != [] && AreDigits(LooseDigits(s))
         && Decimals(LooseDigits(s))
            < if s[0] == Ascii('-') then 0x8000_0000_0000_0001 else 0x1_0000_0000_0000_0000
  }

  function LooseMeaning(s: Text, strtod: Text -> Option<real>): Json
    requires IsLoose(s) && LooseFits(s, strtod)
  {
    if IsLooseReal(s) then Real(Finite(strtod(s).value))
    else
      var n := Decimals(LooseDigits(s));
      if s[0] == Ascii('-') then Integer(-(n as int))
      else if n < 0x8000_0000_0000_0000 then Integer(n)
      else UInteger(n)
  }

  /** By leniency the words nan, inf and infinity are numbers, in letters of either case. */
  predicate IsWord(s: Text, word: string)
    requires forall i :: 0 <= i < |word| ==> 'a' <= word[i] <= 'z'
  {
    |s| == |word| && forall i :: 0 <= i < |s| ==> s[i] == Ascii(word[i]) || s[i] == Ascii(word[i]) - 0x20
  }

  predicate IsSpecial(s: Text) {
    IsWord(s, "nan") || IsWord(s, "inf") || IsWord(s, "infinity")
  }

  // ---------- values (sections 3 to 5) ----------

  datatype Value =
    | True | False | NullWord
    | Numeral(number: Number)
    | Loose(digits: Text)
    | Special(word: Text)
    | Quoted(characters: seq<Character>)
    | Braces(members: Members)
    | Brackets(elements: Elements)

  /** What is left of an object behind its brace or a member. By leniency a comma may stand in front
      of the closing brace, and of a closing bracket. */
  datatype Members =
    | NoMember(gap: Text)
    | LastComma(gap: Text)
    | Member(gap: Text, key: seq<Character>, behindKey: Text, behindColon: Text, value: Value, behind: Text,
             rest: Members)

  datatype Elements =
    | NoElement(gap: Text)
    | EndComma(gap: Text)
    | Element(gap: Text, value: Value, behind: Text, rest: Elements)

  /** The derivation follows the rules. */
  predicate IsValue(v: Value) {
    match v
    case Numeral(n) => IsNumber(n)
    case Loose(s) => IsLoose(s)
    case Special(s) => IsSpecial(s)
    case Quoted(s) => IsString(s)
    case Braces(members) => !members.LastComma? && AreMembers(members)
    case Brackets(elements) => !elements.EndComma? && AreElements(elements)
    case _ => true
  }

  predicate AreMembers(m: Members) {
    IsGap(m.gap)
    && (m.Member? ==>
          && IsString(m.key) && IsGap(m.behindKey) && IsGap(m.behindColon)
          && IsValue(m.value) && IsGap(m.behind) && AreMembers(m.rest))
  }

  predicate AreElements(e: Elements) {
    IsGap(e.gap) && (e.Element? ==> IsValue(e.value) && IsGap(e.behind) && AreElements(e.rest))
  }

  /** It uses no leniency: it is one of RFC 8259. */
  predicate IsStandard(v: Value) {
    match v
    case Loose(_) => false
    case Special(_) => false
    case Quoted(s) => IsStandardString(s)
    case Braces(members) => MembersAreStandard(members)
    case Brackets(elements) => ElementsAreStandard(elements)
    case _ => true
  }

  predicate IsStandardString(s: seq<Character>) {
    forall i :: 0 <= i < |s| ==> IsStandardCharacter(s[i])
  }

  predicate MembersAreStandard(m: Members) {
    !m.LastComma? && IsStandardGap(m.gap)
    && (m.Member? ==>
          && IsStandardString(m.key) && IsStandardGap(m.behindKey) && IsStandardGap(m.behindColon)
          && IsStandard(m.value) && IsStandardGap(m.behind) && MembersAreStandard(m.rest))
  }

  predicate ElementsAreStandard(e: Elements) {
    !e.EndComma? && IsStandardGap(e.gap)
    && (e.Element? ==> IsStandard(e.value) && IsStandardGap(e.behind) && ElementsAreStandard(e.rest))
  }

  function ValueText(v: Value): Text
    requires IsValue(v)
  {
    match v
    case True => [Ascii('t'), Ascii('r'), Ascii('u'), Ascii('e')]
    case False => [Ascii('f'), Ascii('a'), Ascii('l'), Ascii('s'), Ascii('e')]
    case NullWord => [Ascii('n'), Ascii('u'), Ascii('l'), Ascii('l')]
    case Numeral(n) => NumberText(n)
    case Loose(s) => s
    case Special(s) => s
    case Quoted(s) => StringText(s)
    case Braces(members) => [Ascii('{')] + MembersText(members, true)
    case Brackets(elements) => [Ascii('[')] + ElementsText(elements, true)
  }

  function Comma(first: bool): Text {
    if first then [] else [Ascii(',')]
  }

  function MembersText(m: Members, first: bool): Text
    requires AreMembers(m)
  {
    match m
    case NoMember(gap) => gap + [Ascii('}')]
    case LastComma(gap) => [Ascii(',')] + (gap + [Ascii('}')])
    case Member(gap, key, behindKey, behindColon, value, behind, rest) =>
      Comma(first) + (gap + (StringText(key) + (behindKey + ([Ascii(':')] + (behindColon
      + (ValueText(value) + (behind + MembersText(rest, false))))))))
  }

  function ElementsText(e: Elements, first: bool): Text
    requires AreElements(e)
  {
    match e
    case NoElement(gap) => gap + [Ascii(']')]
    case EndComma(gap) => [Ascii(',')] + (gap + [Ascii(']')])
    case Element(gap, value, behind, rest) =>
      Comma(first) + (gap + (ValueText(value) + (behind + ElementsText(rest, false))))
  }

  /** The derivation denotes a tree: its numbers fit, and no object has a key twice. */
  predicate Denotes(v: Value, strtod: Text -> Option<real>)
    requires IsValue(v)
  {
    match v
    case Numeral(n) => Fits(n, strtod)
    case Loose(s) => LooseFits(s, strtod)
    case Braces(members) => MembersDenote(members, {}, strtod)
    case Brackets(elements) => ElementsDenote(elements, strtod)
    case _ => true
  }

  predicate MembersDenote(m: Members, taken: set<Text>, strtod: Text -> Option<real>)
    requires AreMembers(m)
  {
    m.Member? ==>
      && StringMeaning(m.key) !in taken && Denotes(m.value, strtod)
      && MembersDenote(m.rest, taken + {StringMeaning(m.key)}, strtod)
  }

  predicate ElementsDenote(e: Elements, strtod: Text -> Option<real>)
    requires AreElements(e)
  {
    e.Element? ==> Denotes(e.value, strtod) && ElementsDenote(e.rest, strtod)
  }

  /** The tree. */
  function Meaning(v: Value, strtod: Text -> Option<real>): Json
    requires IsValue(v) && Denotes(v, strtod)
  {
    match v
    case True => Boolean(true)
    case False => Boolean(false)
    case NullWord => Null
    case Numeral(n) => NumberMeaning(n, strtod)
    case Loose(s) => LooseMeaning(s, strtod)
    case Special(s) => Real(if IsWord(s, "nan") then NotANumber else Infinite)
    case Quoted(s) => String(StringMeaning(s))
    case Braces(members) =>
      var none: map<Text, Json> := map[];
      assert none.Keys == {};
      Object(MembersMeaning(members, none, strtod))
    case Brackets(elements) => Array(ElementsMeaning(elements, strtod))
  }

  function MembersMeaning(m: Members, dict: map<Text, Json>, strtod: Text -> Option<real>): map<Text, Json>
    requires AreMembers(m) && MembersDenote(m, dict.Keys, strtod)
  {
    if !m.Member? then dict
    else
      var more := dict[StringMeaning(m.key) := Meaning(m.value, strtod)];
      assert more.Keys == dict.Keys + {StringMeaning(m.key)};
      MembersMeaning(m.rest, more, strtod)
  }

  function ElementsMeaning(e: Elements, strtod: Text -> Option<real>): seq<Json>
    requires AreElements(e) && ElementsDenote(e, strtod)
  {
    if !e.Element? then [] else [Meaning(e.value, strtod)] + ElementsMeaning(e.rest, strtod)
  }

  // ---------- documents ----------

  /** A whole JSON text: a value with white space around it. */
  datatype Document = Document(gap: Text, value: Value, behind: Text)

  predicate IsDocument(d: Document) {
    IsGap(d.gap) && IsValue(d.value) && IsGap(d.behind)
  }

  predicate IsStandardDocument(d: Document) {
    IsStandardGap(d.gap) && IsStandard(d.value) && IsStandardGap(d.behind)
  }

  function DocumentText(d: Document): Text
    requires IsDocument(d)
  {
    d.gap + (ValueText(d.value) + d.behind)
  }
}
