/** FPJson.cpp: JsonStringEscaper and Json::output. */
module JsonPrinting {
  import opened Bytes
  import opened JsonTree
  import Sequences

  const COMMA_SPACE: Text := [COMMA, SPACE]
  const TRUE_TEXT: Text := [0x74, 0x72, 0x75, 0x65]
  const FALSE_TEXT: Text := [0x66, 0x61, 0x6C, 0x73, 0x65]
  const NULL_TEXT: Text := [0x6E, 0x75, 0x6C, 0x6C]

  function HexCharacter(d: int): Byte
    requires 0 <= d < 16
  {
    if d < 10 then DIGIT_0 + d else LOWER_A + (d - 10)
  }

  /** What `_callMap` writes for one byte. */
  function EscapeByte(b: Byte): (r: Text)
    ensures r != [] && 0 !in r
  {
    if b == BACKSLASH then [BACKSLASH, BACKSLASH]
    else if b == QUOTE then [BACKSLASH, QUOTE]
    else if b == BACKSPACE then [BACKSLASH, LOWER_B]
    else if b == FORM_FEED then [BACKSLASH, LOWER_F]
    else if b == LINE_FEED then [BACKSLASH, LOWER_N]
    else if b == CARRIAGE_RETURN then [BACKSLASH, LOWER_R]
    else if b == TAB then [BACKSLASH, LOWER_T]
    else if 0x1F < b < 0x7F then [b]
    else [BACKSLASH, LOWER_U, DIGIT_0, DIGIT_0, HexCharacter(b / 0x10), HexCharacter(b % 0x10)]
  }

  /** How many bytes the escaper takes at once: the length that the lead byte announces, when
      the string is long enough. (b & 0xE0) == 0xC0 is b / 0x20 == 6, and so on. */
  function UnitLength(s: Text): (n: nat)
    requires s != []
    ensures 1 <= n <= |s|
  {
    var lead := s[0];
    if lead / 0x20 == 6 && |s| >= 2 then 2
    else if lead / 0x10 == 14 && |s| >= 3 then 3
    else if lead / 0x08 == 30 && |s| >= 4 then 4
    else if lead / 0x04 == 62 && |s| >= 5 then 5
    else if lead / 0x02 == 126 && |s| >= 6 then 6
    else 1
  }

  function EscapeText(s: Text): (r: Text)
    ensures s == [] ==> r == []
  {
    if s == [] then []
    else
      var n := UnitLength(s);
      (if n == 1 then EscapeByte(s[0]) else s[..n]) + EscapeText(s[n..])
  }

  lemma EscapeStep(done: Text, tail: Text)
    requires tail != []
    ensures var n := UnitLength(tail);
      done + EscapeText(tail) == done + (if n == 1 then EscapeByte(tail[0]) else tail[..n]) + EscapeText(tail[n..])
  {
    var n := UnitLength(tail);
    Sequences.Regroup(done, if n == 1 then EscapeByte(tail[0]) else tail[..n], EscapeText(tail[n..]));
  }

  /** `os << n` for an integer. */
  function Decimal(n: nat): Text {
    if n < 10 then [DIGIT_0 + n] else Decimal(n / 10) + [DIGIT_0 + n % 10]
  }

  function IntegerText(n: int): Text {
    if n < 0 then [MINUS] + Decimal(-n) else Decimal(n)
  }

  lemma {:induction false} LeastExists(keys: set<Text>) returns (k: Text)
    requires keys != {}
    ensures k in keys && forall j :: j in keys ==> j == k || Before(k, j)
  {
    var x :| x in keys;
    if keys == {x} {
      return x;
    }
    k := LeastExists(keys - {x});
    BeforeIsTotal(k, x);
    if !Before(k, x) {
      forall j | j in keys ensures j == x || Before(x, j) {
        if j != x && j != k {
          BeforeIsTransitive(x, k, j);
        }
      }
      k := x;
    }
  }

  lemma LeastIsUnique(keys: set<Text>)
    ensures forall a, b :: a in keys && b in keys && Before(a, b) ==> !Before(b, a)
  {
    forall a, b | a in keys && b in keys && Before(a, b) ensures !Before(b, a) {
      if Before(b, a) {
        BeforeIsTransitive(a, b, a);
        BeforeIsIrreflexive(a);
      }
    }
  }

  predicate Ascending(s: seq<Text>) {
    forall i, j :: 0 <= i < j < |s| ==> Before(s[i], s[j])
  }

  /** The keys in the iteration order of std::map. */
  function SortedKeys(keys: set<Text>): (r: seq<Text>)
    ensures Ascending(r)
    ensures forall k :: k in r <==> k in keys
  {
    if keys == {} then []
    else
      assert exists k :: k in keys && forall j :: j in keys ==> j == k || Before(k, j) by {
        var _ := LeastExists(keys);
      }
      LeastIsUnique(keys);
      var k :| k in keys && forall j :: j in keys ==> j == k || Before(k, j);
      [k] + SortedKeys(keys - {k})
  }

  /** The output for a tree; `format` is `os << double`. */
  function Str(v: Json, format: Double -> Text): Text
    decreases v, 1, 0
  {
    match v
    case String(s) => [QUOTE] + EscapeText(s) + [QUOTE]
    case Integer(i) => IntegerText(i)
    case UInteger(u) => IntegerText(u)
    case Object(dict) => [LEFT_BRACE] + MembersText(v, SortedKeys(dict.Keys), 0, format)
    case Array(_) => [LEFT_BRACKET] + ElementsText(v, 0, format)
    case Real(d) => format(d)
    case Boolean(b) => if b then TRUE_TEXT else FALSE_TEXT
    case Null => NULL_TEXT
    case Uninit => NULL_TEXT
  }

  function Separator(i: nat): Text {
    if i == 0 then [] else COMMA_SPACE
  }

  function MemberText(v: Json, key: Text, format: Double -> Text): Text
    requires v.Object? && key in v.dict
    decreases v, 0, 0
  {
    [QUOTE] + EscapeText(key) + [QUOTE, COLON] + Str(v.dict[key], format)
  }

  /** The members from the i-th key on, and the closing brace. */
  function MembersText(v: Json, keys: seq<Text>, i: nat, format: Double -> Text): Text
    requires v.Object? && i <= |keys| && forall k :: k in keys ==> k in v.dict
    decreases v, 0, |keys| - i + 1
  {
    if i == |keys| then [RIGHT_BRACE]
    else Separator(i) + MemberText(v, keys[i], format) + MembersText(v, keys, i + 1, format)
  }

  /** The elements from the i-th on, and the closing bracket. */
  function ElementsText(v: Json, i: nat, format: Double -> Text): Text
    requires v.Array? && i <= |v.list|
    decreases v, 0, |v.list| - i
  {
    if i == |v.list| then [RIGHT_BRACKET]
    else Separator(i) + Str(v.list[i], format) + ElementsText(v, i + 1, format)
  }

  /** The byte loop of JsonStringEscaper::escape. */
  method Escape(str: Text) returns (os: Text)
    ensures os == EscapeText(str)
  {
    hide EscapeText;
    hide EscapeByte;
    os := [];
    var i := 0;
    while i < |str|
      invariant 0 <= i <= |str|
      invariant EscapeText(str) == os + EscapeText(str[i..])
    {
      ghost var done, tail := os, str[i..];
      var lead := str[i];
      var size := 1;
      if lead < 0x80 {
        os := os + EscapeByte(lead);
      } else {
        if lead / 0x20 == 6 && i + 1 < |str| {
          size := 2;
        } else if lead / 0x10 == 14 && i + 2 < |str| {
          size := 3;
        } else if lead / 0x08 == 30 && i + 3 < |str| {
          size := 4;
        } else if lead / 0x04 == 62 && i + 4 < |str| {
          size := 5;
        } else if lead / 0x02 == 126 && i + 5 < |str| {
          size := 6;
        }
        os := os + if size == 1 then EscapeByte(lead) else str[i..i + size];
      }
      assert size == UnitLength(tail) && lead == tail[0];
      assert tail[size..] == str[i + size..] && tail[..size] == str[i..i + size];
      EscapeStep(done, tail);
      i := i + size;
    }
  }

  /** Json::output on the stream `os`. */
  method Output(v: Json, os: Text, format: Double -> Text) returns (out: Text)
    ensures out == os + Str(v, format)
    decreases v, 2
  {
    out := os;
    match v {
      case String(s) =>
        var escaped := Escape(s);
        out := out + [QUOTE] + escaped + [QUOTE];
        assert out == os + ([QUOTE] + EscapeText(s) + [QUOTE]);
      case Integer(i) => out := out + IntegerText(i);
      case UInteger(u) => out := out + IntegerText(u);
      case Object(dict) => out := OutputMembers(v, os, format);
      case Array(_) => out := OutputElements(v, os, format);
      case Real(d) => out := out + format(d);
      case Boolean(b) => out := out + if b then TRUE_TEXT else FALSE_TEXT;
      case Null => out := out + NULL_TEXT;
      case Uninit => out := out + NULL_TEXT;
    }
  }

  lemma Regroup(a: Text, b: Text, c: Text, d: Text)
    ensures a + b + c + d == a + (b + c + d)
  {
  }

  method OutputMember(v: Json, key: Text, os: Text, format: Double -> Text) returns (out: Text)
    requires v.Object? && key in v.dict
    ensures out == os + MemberText(v, key, format)
    decreases v, 0
  {
    var escaped := Escape(key);
    out := Output(v.dict[key], os + [QUOTE] + escaped + [QUOTE, COLON], format);
    assert out == os + MemberText(v, key, format);
  }

  method OutputMembers(v: Json, os: Text, format: Double -> Text) returns (out: Text)
    requires v.Object?
    ensures out == os + Str(v, format)
    decreases v, 1
  {
    out := os + [LEFT_BRACE];
    var keys := SortedKeys(v.dict.Keys);
    var first := true;
    for i := 0 to |keys|
      invariant first == (i == 0)
      invariant out + MembersText(v, keys, i, format) == os + Str(v, format)
    {
      ghost var done, rest := out, MembersText(v, keys, i + 1, format);
      if first {
        first := false;
      } else {
        out := out + COMMA_SPACE;
      }
      assert out == done + Separator(i);
      out := OutputMember(v, keys[i], out, format);
      Regroup(done, Separator(i), MemberText(v, keys[i], format), rest);
    }
    out := out + [RIGHT_BRACE];
  }

  method OutputElements(v: Json, os: Text, format: Double -> Text) returns (out: Text)
    requires v.Array?
    ensures out == os + Str(v, format)
    decreases v, 1
  {
    out := os + [LEFT_BRACKET];
    var first := true;
    for i := 0 to |v.list|
      invariant first == (i == 0)
      invariant out + ElementsText(v, i, format) == os + Str(v, format)
    {
      ghost var done, rest := out, ElementsText(v, i + 1, format);
      if first {
        first := false;
      } else {
        out := out + COMMA_SPACE;
      }
      assert out == done + Separator(i);
      out := Output(v.list[i], out, format);
      Regroup(done, Separator(i), Str(v.list[i], format), rest);
    }
    out := out + [RIGHT_BRACKET];
  }
}
