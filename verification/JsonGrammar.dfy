/** The JSON language that FPJsonParser.cpp accepts, as a recursive grammar over the input text.

  Every rule is a function from a position to what it recognises there and the position
  behind it. It is RFC 8259, sections 2 to 7, with the leniencies of the code: a comma may
  precede a closing bracket, C number syntax and the words nan, inf and Infinity are numbers,
  control characters may stand in a string, and an unknown escape stands for its character. */
module JsonGrammar {
  import opened Bytes
  import opened JsonTree
  import opened Utf8

  datatype Scan<+T> = Match(value: T, next: nat) | NoMatch {
    predicate IsFailure() {
      NoMatch?
    }

    function PropagateFailure<U>(): Scan<U>
      requires NoMatch?
    {
      NoMatch
    }

    function Extract(): (T, nat)
      requires Match?
    {
      (value, next)
    }
  }

  const TRUE_WORD: Text := [0x74, 0x72, 0x75, 0x65]
  const FALSE_WORD: Text := [0x66, 0x61, 0x6C, 0x73, 0x65]
  const NULL_WORD: Text := [0x6E, 0x75, 0x6C, 0x6C]
  const NAN_WORD: Text := [0x6E, 0x61, 0x6E]
  const INFINITY_WORD: Text := [0x69, 0x6E, 0x66, 0x69, 0x6E, 0x69, 0x74, 0x79]
  const INF_WORD: Text := [0x69, 0x6E, 0x66]

  predicate IsNumberByte(b: Byte) {
    IsDigit(b) || b == PLUS || b == MINUS || b == DOT || b == LOWER_E || b == UPPER_E
  }

  predicate AllDigits(s: Text) {
    forall i :: 0 <= i < |s| ==> IsDigit(s[i])
  }

  function DecimalValue(s: Text): nat
    requires AllDigits(s)
  {
    if s == [] then 0 else 10 * DecimalValue(s[..|s| - 1]) + (s[|s| - 1] - DIGIT_0)
  }

  function Occurrences(s: Text, a: Byte, b: Byte): nat {
    if s == [] then 0
    else Occurrences(s[..|s| - 1], a, b) + (if s[|s| - 1] == a || s[|s| - 1] == b then 1 else 0)
  }

  /** C `strtoimax` in base ten on a span that starts with '-', all of which must convert. */
  function SignedValue(s: Text): Option<int>
    requires s != []
  {
    var digits := s[1..];
    if digits == [] || !AllDigits(digits) then None
    else if DecimalValue(digits) > INT64_LIMIT then None
    else Some(0 - (DecimalValue(digits) as int))
  }

  /** C `strtoumax` in base ten on a span that does not start with '-', all of which must convert. */
  function UnsignedValue(s: Text): Option<nat>
    requires s != []
  {
    var digits := if s[0] == PLUS then s[1..] else s;
    if digits == [] || !AllDigits(digits) then None
    else if DecimalValue(digits) >= UINT64_LIMIT then None
    else Some(DecimalValue(digits))
  }

  /** The input text with C `strtod`, which gives the value of a span, or nothing when it does
      not convert all of the span or reports an error. */
  datatype Source = Source(text: CString, strtod: Text -> Option<real>) {

    /** The byte at p; the C string ends in NUL. */
    function At(p: nat): (b: Byte)
      ensures p < |text| ==> b == text[p] && b != 0
      ensures p >= |text| ==> b == 0
    {
      if p < |text| then assert text[p] in text; text[p] else 0
    }

    /** The first position from p on that holds no white space. */
    function Skip(p: nat): (q: nat)
      ensures p <= q
      ensures p <= |text| ==> q <= |text|
      ensures !IsSpace(At(q))
      decreases |text| - p
    {
      if IsSpace(At(p)) then Skip(p + 1) else p
    }

    /** Four hexadecimal digits. */
    function HexWord(p: nat): (r: Option<int>)
      ensures r.Some? ==> p + 4 <= |text| && 0 <= r.value < 0x10000
    {
      var (a, b, c, d) := (HexDigit(At(p)), HexDigit(At(p + 1)), HexDigit(At(p + 2)), HexDigit(At(p + 3)));
      if a.Some? && b.Some? && c.Some? && d.Some?
      then Some(0x1000 * a.value + 0x100 * b.value + 0x10 * c.value + d.value)
      else None
    }

    /** RFC 8259, section 7: the code point of \uXXXX, or of a surrogate pair \uXXXX\uXXXX;
        p is behind the 'u'. */
    function CodePoint(p: nat): (r: Scan<int>)
      ensures r.Match? ==> p < r.next <= |text| && IsScalar(r.value)
    {
      var lead := HexWord(p);
      if lead.None? then NoMatch
      else if lead.value < 0xD800 || 0xDFFF < lead.value then Match(lead.value, p + 4)
      else if 0xDBFF < lead.value || At(p + 4) != BACKSLASH || At(p + 5) != LOWER_U then NoMatch
      else
        var trail := HexWord(p + 6);
        if trail.None? || trail.value < 0xDC00 || 0xDFFF < trail.value then NoMatch
        else Match(0x10000 + 0x400 * (lead.value - 0xD800) + (trail.value - 0xDC00), p + 10)
    }

    /** What an escape stands for; p is behind the backslash. */
    function Escape(p: nat): (r: Scan<Text>)
      ensures r.Match? ==> p < r.next <= |text| && r.value != []
    {
      var c := At(p);
      if c == 0 then NoMatch
      else if c == LOWER_B then Match([BACKSPACE], p + 1)
      else if c == LOWER_F then Match([FORM_FEED], p + 1)
      else if c == LOWER_N then Match([LINE_FEED], p + 1)
      else if c == LOWER_R then Match([CARRIAGE_RETURN], p + 1)
      else if c == LOWER_T then Match([TAB], p + 1)
      else if c == LOWER_U then
        var (point, q) :- CodePoint(p + 1);
        Match(EncodeUtf8(point), q)
      else Match([c], p + 1)
    }

    /** The contents of a string; p is behind the opening quote, or anywhere further inside. */
    function StringBody(p: nat): (r: Scan<Text>)
      ensures r.Match? ==> p < r.next <= |text|
      decreases |text| - p
    {
      var c := At(p);
      if c == 0 then NoMatch
      else if c == QUOTE then Match([], p + 1)
      else if c == BACKSLASH then
        var (unit, q) :- Escape(p + 1);
        var (rest, r) :- StringBody(q);
        Match(unit + rest, r)
      else
        var (rest, r) :- StringBody(p + 1);
        Match([c] + rest, r)
    }

    /** The first position from p on that holds no number character. */
    function NumberEnd(p: nat): (q: nat)
      ensures p <= q
      ensures p <= |text| ==> q <= |text|
      decreases |text| - p
    {
      if IsNumberByte(At(p)) then NumberEnd(p + 1) else p
    }

    /** C `strncmp` with the length of the word. */
    predicate HasWord(p: nat, word: Text) {
      p + |word| <= |text| && text[p..p + |word|] == word
    }

    /** C `strncasecmp` with the length of a word in lower case. */
    predicate HasWordAnyCase(p: nat, word: Text) {
      p + |word| <= |text| && forall i :: 0 <= i < |word| ==> Lower(text[p + i]) == word[i]
    }

    /** The value of a run of number characters. */
    function NumberValue(span: Text): Option<Json>
      requires span != []
    {
      if Occurrences(span, LOWER_E, UPPER_E) > 1 then None
      else if Occurrences(span, DOT, DOT) > 0 || Occurrences(span, LOWER_E, UPPER_E) > 0 then
        var d := strtod(span);
        if d.Some? then Some(Real(Finite(d.value))) else None
      else if span[0] == MINUS then
        var i := SignedValue(span);
        if i.Some? then Some(Integer(i.value)) else None
      else
        var u := UnsignedValue(span);
        if u.None? then None
        else if u.value >= INT64_LIMIT then Some(UInteger(u.value))
        else Some(Integer(u.value))
    }

    function Number(p: nat): (r: Scan<Json>)
      ensures r.Match? ==> p < r.next <= |text|
    {
      var end := NumberEnd(p);
      if p < end <= |text| then
        var v := NumberValue(text[p..end]);
        if v.Some? then Match(v.value, end) else NoMatch
      else if HasWordAnyCase(p, NAN_WORD) then Match(Real(NotANumber), p + 3)
      else if HasWordAnyCase(p, INFINITY_WORD) then Match(Real(Infinite), p + 8)
      else if HasWordAnyCase(p, INF_WORD) then Match(Real(Infinite), p + 3)
      else NoMatch
    }

    /** true, false, null or a number. */
    function Literal(p: nat): (r: Scan<Json>)
      ensures r.Match? ==> p < r.next <= |text|
    {
      if HasWord(p, TRUE_WORD) then Match(Boolean(true), p + 4)
      else if HasWord(p, FALSE_WORD) then Match(Boolean(false), p + 5)
      else if HasWord(p, NULL_WORD) then Match(Null, p + 4)
      else Number(p)
    }

    /** A JSON value whose first byte is at p. */
    function Value(p: nat): (r: Scan<Json>)
      ensures r.Match? ==> p < r.next <= |text|
      decreases |text| - p, 1
    {
      var c := At(p);
      if c == LEFT_BRACE then Members(Skip(p + 1), map[])
      else if c == LEFT_BRACKET then Elements(Skip(p + 1), [])
      else if c == QUOTE then
        var (s, q) :- StringBody(p + 1);
        Match(String(s), q)
      else Literal(p)
    }

    /** The rest of an object, at its next key or its end. */
    function Members(p: nat, dict: map<Text, Json>): (r: Scan<Json>)
      ensures r.Match? ==> p < r.next <= |text|
      decreases |text| - p, 0
    {
      var c := At(p);
      if c == RIGHT_BRACE then Match(Object(dict), p + 1)
      else if c == QUOTE then
        var (key, q) :- StringBody(p + 1);
        AfterKey(Skip(q), dict, key)
      else NoMatch
    }

    /** The rest of an object, at the colon. */
    function AfterKey(p: nat, dict: map<Text, Json>, key: Text): (r: Scan<Json>)
      ensures r.Match? ==> p < r.next <= |text|
      decreases |text| - p, 3
    {
      if At(p) == COLON then MemberValue(Skip(p + 1), dict, key) else NoMatch
    }

    /** The rest of an object, at a member's value; keys are unique. */
    function MemberValue(p: nat, dict: map<Text, Json>, key: Text): (r: Scan<Json>)
      ensures r.Match? ==> p < r.next <= |text|
      decreases |text| - p, 2
    {
      if key in dict then NoMatch
      else
        var (v, q) :- Value(p);
        AfterMember(Skip(q), dict[key := v])
    }

    /** The rest of an object, behind a member. */
    function AfterMember(p: nat, dict: map<Text, Json>): (r: Scan<Json>)
      ensures r.Match? ==> p < r.next <= |text|
      decreases |text| - p, 1
    {
      if At(p) == RIGHT_BRACE then Match(Object(dict), p + 1)
      else if At(p) == COMMA then Members(Skip(p + 1), dict)
      else NoMatch
    }

    /** The rest of an array, at its next element or its end. */
    function Elements(p: nat, list: seq<Json>): (r: Scan<Json>)
      ensures r.Match? ==> p < r.next <= |text|
      decreases |text| - p, 2
    {
      if At(p) == RIGHT_BRACKET then Match(Array(list), p + 1)
      else
        var (v, q) :- Value(p);
        AfterElement(Skip(q), list + [v])
    }

    /** The rest of an array, behind an element. */
    function AfterElement(p: nat, list: seq<Json>): (r: Scan<Json>)
      ensures r.Match? ==> p < r.next <= |text|
      decreases |text| - p, 1
    {
      if At(p) == RIGHT_BRACKET then Match(Array(list), p + 1)
      else if At(p) == COMMA then Elements(Skip(p + 1), list)
      else NoMatch
    }

    /** A whole JSON text: one value, white space around it, nothing else. */
    function Document(): Option<Json> {
      var r := Value(Skip(0));
      if r.Match? && Skip(r.next) == |text| then Some(r.value) else None
    }
  }

  /** A word begins with its first letter. */
  lemma WordStart(src: Source, p: nat, word: Text)
    requires word != []
    ensures src.HasWord(p, word) ==> src.At(p) == word[0]
    ensures src.HasWordAnyCase(p, word) ==> Lower(src.At(p)) == word[0]
  {
    if src.HasWord(p, word) {
      assert src.text[p..p + |word|][0] == word[0];
    }
    if src.HasWordAnyCase(p, word) {
      assert Lower(src.text[p + 0]) == word[0];
    }
  }
}
