/** FPJsonParser.cpp: the explicit-stack parser driven by four "want" flags and a cursor.

  Its meaning at any moment is its verdict: what the grammar answers for the rest of the
  input, given the containers that are still open. Every handler keeps the verdict, so the
  flag machine computes exactly the grammar's `Document`. */
module JsonParsing {
  import opened Bytes
  import opened JsonTree
  import opened JsonGrammar
  import opened Utf8

  /** An open container on the node stack. While a container opened inside an object is itself
      open, `key` is the key it was added under. */
  datatype Frame =
    | OpenObject(dict: map<Text, Json>, key: Text)
    | OpenArray(list: seq<Json>)

  /** What a handler does: throw, return nullptr, or return the root node. */
  datatype Outcome = Thrown | Pending | Root(value: Json)

  /** The verdict on a value recognised inside the given open containers. */
  ghost function Unwind(src: Source, open: seq<Frame>, scan: Scan<Json>): Option<Json>
    decreases |open|
  {
    if scan.NoMatch? then None
    else if open == [] then
      if src.Skip(scan.next) == |src.text| then Some(scan.value) else None
    else
      var rest := open[..|open| - 1];
      match open[|open| - 1]
      case OpenArray(list) => Unwind(src, rest, src.AfterElement(src.Skip(scan.next), list + [scan.value]))
      case OpenObject(dict, key) =>
        if key in dict then None
        else Unwind(src, rest, src.AfterMember(src.Skip(scan.next), dict[key := scan.value]))
  }

  /** A member's value is read as a value inside its object. */
  lemma UnwindMemberValue(src: Source, open: seq<Frame>, p: nat, dict: map<Text, Json>, key: Text)
    ensures Unwind(src, open, src.MemberValue(p, dict, key))
         == Unwind(src, open + [OpenObject(dict, key)], src.Value(p))
  {
    assert (open + [OpenObject(dict, key)])[..|open|] == open;
  }

  /** An element is read as a value inside its array. */
  lemma UnwindElement(src: Source, open: seq<Frame>, p: nat, list: seq<Json>)
    requires src.At(p) != RIGHT_BRACKET
    ensures Unwind(src, open, src.Elements(p, list))
         == Unwind(src, open + [OpenArray(list)], src.Value(p))
  {
    assert (open + [OpenArray(list)])[..|open|] == open;
  }

  /** No value starts with a structural character other than an opening bracket. */
  lemma NoValueAt(src: Source, p: nat)
    requires src.At(p) == COMMA || src.At(p) == COLON || src.At(p) == RIGHT_BRACE || src.At(p) == RIGHT_BRACKET
    ensures src.Value(p).NoMatch?
  {
    forall word: Text | word in [TRUE_WORD, FALSE_WORD, NULL_WORD, NAN_WORD, INFINITY_WORD, INF_WORD]
      ensures !src.HasWord(p, word) && !src.HasWordAnyCase(p, word)
    {
      WordStart(src, p, word);
    }
  }

  /** The shifts and masks of UTF16ToUTF8; operands of '|' have no bit in common. The bytes of a
      unit that is no surrogate are one UTF-8 character, the one with that number. */
  method Utf16ToUtf8(utf16Char: int) returns (bytes: Text)
    requires 0 <= utf16Char < 0x10000
    ensures IsScalar(utf16Char) ==> IsCharacter(bytes) && DecodeUtf8(bytes) == utf16Char
    ensures bytes == EncodeUtf8(utf16Char)
  {
    if utf16Char <= 0x7F {
      bytes := [utf16Char];
    } else if utf16Char <= 0x7FF {
      bytes := [0xC0 + utf16Char / 0x40, 0x80 + utf16Char % 0x40];
    } else {
      bytes := [0xE0 + utf16Char / 0x1000, 0x80 + utf16Char / 0x40 % 0x40, 0x80 + utf16Char % 0x40];
    }
    if IsScalar(utf16Char) {
      DecodeUndoesEncode(utf16Char);
    }
  }

  /** The bytes of a surrogate pair are one UTF-8 character, the one that the pair stands for by
      RFC 2781, section 2.2. */
  method SurrogatesToUtf8(w1: int, w2: int) returns (bytes: Text)
    requires 0xD800 <= w1 <= 0xDBFF && 0xDC00 <= w2 <= 0xDFFF
    ensures IsCharacter(bytes) && DecodeUtf8(bytes) == 0x10000 + 0x400 * (w1 - 0xD800) + (w2 - 0xDC00)
    ensures bytes == EncodeUtf8(0x10000 + 0x400 * (w1 - 0xD800) + (w2 - 0xDC00))
  {
    var pair := ((w1 - 0xD800) * 0x400 + (w2 - 0xDC00)) + 0x10000;
    bytes := [0xF0 + pair / 0x40000, 0x80 + pair / 0x1000 % 0x40, 0x80 + pair / 0x40 % 0x40, 0x80 + pair % 0x40];
    DecodeUndoesEncode(pair);
  }

  class JsonParser {
    const src: Source
    var pos: nat
    var wantKey: bool
    var wantValue: bool
    var wantComma: bool
    var wantSemicolon: bool
    var key: Text
    var nodeStack: seq<Frame>
    var outStringStream: Text

    /** At most one flag is set; an object on top has exactly one, an array on top only
        `wantComma`, and no container open means no flag. Keys of open members are new. */
    ghost predicate Valid()
      reads this
    {
      && pos <= |src.text|
      && outStringStream == []
      && (if nodeStack == [] then !wantKey && !wantValue && !wantComma && !wantSemicolon
          else if nodeStack[|nodeStack| - 1].OpenObject? then
            (wantKey && !wantValue && !wantComma && !wantSemicolon)
            || (!wantKey && wantValue && !wantComma && !wantSemicolon)
            || (!wantKey && !wantValue && wantComma && !wantSemicolon)
            || (!wantKey && !wantValue && !wantComma && wantSemicolon)
          else !wantKey && !wantValue && !wantSemicolon)
      && (forall i :: 0 <= i < |nodeStack| - 1 && nodeStack[i].OpenObject? ==> nodeStack[i].key !in nodeStack[i].dict)
    }

    /** The grammar's answer for the innermost open container. */
    ghost function TopScan(): Scan<Json>
      requires Valid() && nodeStack != []
      reads this
    {
      var p := src.Skip(pos);
      match nodeStack[|nodeStack| - 1]
      case OpenArray(list) => if wantComma then src.AfterElement(p, list) else src.Elements(p, list)
      case OpenObject(dict, _) =>
        if wantKey then src.Members(p, dict)
        else if wantSemicolon then src.AfterKey(p, dict, key)
        else if wantValue then src.MemberValue(p, dict, key)
        else src.AfterMember(p, dict)
    }

    ghost function Verdict(): Option<Json>
      requires Valid()
      reads this
    {
      if nodeStack == [] then Unwind(src, [], src.Value(src.Skip(pos)))
      else Unwind(src, nodeStack[..|nodeStack| - 1], TopScan())
    }

    /** The open containers as seen from a value that is about to be read. */
    ghost function Enclosing(): seq<Frame>
      requires Valid()
      reads this
    {
      if wantValue then nodeStack[|nodeStack| - 1 := nodeStack[|nodeStack| - 1].(key := key)] else nodeStack
    }

    ghost predicate ValueExpected()
      requires Valid()
      reads this
    {
      !wantKey && !wantComma && !wantSemicolon
    }

    /** The contract of every handler: r answers for the state it leaves, which is valid and has
        consumed input when the parse goes on. */
    twostate predicate Handled(r: Outcome)
      requires old(Valid())
      reads this
    {
      match r
      case Thrown => old(Verdict()) == None
      case Pending => Valid() && old(pos) < pos && Verdict() == old(Verdict())
      case Root(v) => old(pos) < pos <= |src.text| && nodeStack == []
                      && old(Verdict()) == (if src.Skip(pos) == |src.text| then Some(v) else None)
    }

    constructor (src: Source)
      ensures Valid() && this.src == src && pos == 0 && Verdict() == src.Document()
    {
      this.src := src;
      pos := 0;
      wantKey, wantValue, wantComma, wantSemicolon := false, false, false, false;
      key, nodeStack, outStringStream := [], [], [];
    }

    /** Where a value is expected, the verdict is that of the value inside its containers. */
    lemma ValueVerdict()
      requires Valid() && ValueExpected() && src.Skip(pos) == pos
      requires src.At(pos) != RIGHT_BRACKET || wantValue || nodeStack == []
      ensures Verdict() == Unwind(src, Enclosing(), src.Value(pos))
    {
      if nodeStack != [] {
        var rest, top := nodeStack[..|nodeStack| - 1], nodeStack[|nodeStack| - 1];
        match top {
          case OpenArray(list) =>
            UnwindElement(src, rest, pos, list);
            assert nodeStack == rest + [top];
          case OpenObject(dict, _) =>
            UnwindMemberValue(src, rest, pos, dict, key);
            assert Enclosing() == rest + [OpenObject(dict, key)];
        }
      }
    }

    /** A value that is an object or an array is what is read behind its bracket; in front of a key
        that is already there it has no verdict. */
    lemma EntryVerdict()
      requires Valid() && ValueExpected()
      ensures src.At(pos) == LEFT_BRACE ==> src.Value(pos) == src.Members(src.Skip(pos + 1), map[])
      ensures src.At(pos) == LEFT_BRACKET ==> src.Value(pos) == src.Elements(src.Skip(pos + 1), [])
      ensures wantValue && key in nodeStack[|nodeStack| - 1].dict ==> Verdict() == None
    {
      hide Source.Members;
      hide Source.Elements;
    }

    /** Moving the cursor changes nothing about the open containers. */
    twostate lemma CursorMoved()
      requires old(Valid()) && pos <= |src.text| && outStringStream == []
      requires wantKey == old(wantKey) && wantValue == old(wantValue)
      requires wantComma == old(wantComma) && wantSemicolon == old(wantSemicolon)
      requires key == old(key) && nodeStack == old(nodeStack)
      ensures Valid() && Enclosing() == old(Enclosing()) && ValueExpected() == old(ValueExpected())
    {
    }

    /** Add a finished node to the innermost open container: insertNode with fillValue. */
    method InsertNode(node: Json) returns (r: Outcome)
      requires Valid() && ValueExpected()
      modifies this`nodeStack, this`wantKey, this`wantValue, this`wantComma, this`wantSemicolon
      ensures r.Thrown? ==> Unwind(src, old(Enclosing()), Match(node, pos)) == None
      ensures r.Pending? ==> Valid() && Verdict() == Unwind(src, old(Enclosing()), Match(node, pos))
      ensures r.Root? <==> old(nodeStack) == []
      ensures r.Root? ==> r.value == node && nodeStack == []
      ensures r.Root? ==>
        Unwind(src, old(Enclosing()), Match(node, pos)) == if src.Skip(pos) == |src.text| then Some(node) else None
    {
      hide Source.Value;
      hide Source.Members;
      hide Source.AfterKey;
      hide Source.MemberValue;
      hide Source.AfterMember;
      hide Source.Elements;
      hide Source.AfterElement;
      if nodeStack == [] {
        return Root(node);
      }
      var last := |nodeStack| - 1;
      if wantValue {
        var top := nodeStack[last];
        if key in top.dict {
          return Thrown;
        }
        nodeStack := nodeStack[last := OpenObject(top.dict[key := node], top.key)];
        wantKey, wantValue, wantComma, wantSemicolon := false, false, true, false;
      } else {
        nodeStack := nodeStack[last := OpenArray(nodeStack[last].list + [node])];
        wantComma := true;
      }
      return Pending;
    }

    /** Open a container where a value is expected: insertNode, then push. */
    method EnterContainer(node: Frame) returns (r: Outcome)
      requires Valid() && ValueExpected() && src.Skip(pos) == pos && pos < |src.text|
      requires node == OpenObject(map[], []) || node == OpenArray([])
      requires src.At(pos) == if node.OpenObject? then LEFT_BRACE else LEFT_BRACKET
      modifies this
      ensures Handled(r) && !r.Root?
    {
      hide Unwind;
      hide Source.Value;
      hide Source.Members;
      hide Source.AfterKey;
      hide Source.MemberValue;
      hide Source.AfterMember;
      hide Source.Elements;
      hide Source.AfterElement;
      ValueVerdict();
      EntryVerdict();
      if wantValue {
        var last := |nodeStack| - 1;
        if key in nodeStack[last].dict {
          return Thrown;
        }
        nodeStack := nodeStack[last := nodeStack[last].(key := key)];
      }
      nodeStack := nodeStack + [node];
      wantKey, wantValue, wantComma, wantSemicolon := node.OpenObject?, false, false, false;
      pos := pos + 1;
      assert nodeStack[..|nodeStack| - 1] == old(Enclosing());
      assert TopScan() == src.Value(old(pos));
      return Pending;
    }

    method EnterObject() returns (r: Outcome)
      requires Valid() && src.Skip(pos) == pos && src.At(pos) == LEFT_BRACE
      modifies this
      ensures Handled(r) && !r.Root?
    {
      if wantKey || wantSemicolon || wantComma {
        return Thrown;
      }
      r := EnterContainer(OpenObject(map[], []));
    }

    method EnterArray() returns (r: Outcome)
      requires Valid() && src.Skip(pos) == pos && src.At(pos) == LEFT_BRACKET
      modifies this
      ensures Handled(r) && !r.Root?
    {
      if wantKey || wantSemicolon || wantComma {
        return Thrown;
      }
      r := EnterContainer(OpenArray([]));
    }

    /** Close the innermost container, which is now the value `node`. */
    method FinishNode(ghost node: Json) returns (r: Outcome)
      requires Valid() && nodeStack != []
      requires node == match nodeStack[|nodeStack| - 1]
                       case OpenObject(dict, _) => Object(dict)
                       case OpenArray(list) => Array(list)
      modifies this`nodeStack, this`wantKey, this`wantValue, this`wantComma, this`wantSemicolon
      ensures !r.Thrown?
      ensures r.Pending? ==>
        Valid() && Verdict() == Unwind(src, old(nodeStack)[..|old(nodeStack)| - 1], Match(node, pos))
      ensures r.Root? <==> |old(nodeStack)| == 1
      ensures r.Root? ==> r.value == node && nodeStack == []
      ensures r.Root? ==>
        Unwind(src, [], Match(node, pos)) == if src.Skip(pos) == |src.text| then Some(node) else None
    {
      hide Source.Value;
      hide Source.Members;
      hide Source.AfterKey;
      hide Source.MemberValue;
      hide Source.AfterMember;
      hide Source.Elements;
      hide Source.AfterElement;
      var top := nodeStack[|nodeStack| - 1];
      var closed := match top case OpenObject(dict, _) => Object(dict) case OpenArray(list) => Array(list);
      nodeStack := nodeStack[..|nodeStack| - 1];
      if nodeStack == [] {
        return Root(closed);
      }
      var last := |nodeStack| - 1;
      var parent := nodeStack[last];
      match parent {
        case OpenObject(dict, k) => nodeStack := nodeStack[last := OpenObject(dict[k := closed], k)];
        case OpenArray(list) => nodeStack := nodeStack[last := OpenArray(list + [closed])];
      }
      wantKey, wantValue, wantComma, wantSemicolon := false, false, true, false;
      return Pending;
    }

    method ExitObject() returns (r: Outcome)
      requires Valid() && src.Skip(pos) == pos && src.At(pos) == RIGHT_BRACE
      modifies this
      ensures Handled(r)
    {
      NoValueAt(src, pos);
      if wantSemicolon || wantValue || nodeStack == [] || !nodeStack[|nodeStack| - 1].OpenObject? {
        return Thrown;
      }
      pos := pos + 1;
      r := FinishNode(Object(nodeStack[|nodeStack| - 1].dict));
    }

    method ExitArray() returns (r: Outcome)
      requires Valid() && src.Skip(pos) == pos && src.At(pos) == RIGHT_BRACKET
      modifies this
      ensures Handled(r)
    {
      NoValueAt(src, pos);
      if wantSemicolon || wantValue || nodeStack == [] || !nodeStack[|nodeStack| - 1].OpenArray? {
        return Thrown;
      }
      pos := pos + 1;
      r := FinishNode(Array(nodeStack[|nodeStack| - 1].list));
    }

    method ProcessComma() returns (r: Outcome)
      requires Valid() && src.Skip(pos) == pos && src.At(pos) == COMMA
      modifies this
      ensures Handled(r) && !r.Root?
    {
      NoValueAt(src, pos);
      if !wantComma {
        return Thrown;
      }
      wantComma := false;
      if nodeStack[|nodeStack| - 1].OpenObject? {
        wantKey := true;
      }
      pos := pos + 1;
      return Pending;
    }

    method ProcessSemicolon() returns (r: Outcome)
      requires Valid() && src.Skip(pos) == pos && src.At(pos) == COLON
      modifies this
      ensures Handled(r) && !r.Root?
    {
      NoValueAt(src, pos);
      if !wantSemicolon {
        return Thrown;
      }
      wantSemicolon := false;
      wantValue := true;
      pos := pos + 1;
      return Pending;
    }

    /** Four hexadecimal digits at the cursor, which stays. */
    method ParseUtf16Char() returns (r: Option<int>)
      ensures r == src.HexWord(pos)
    {
      HexPrefixIsWord(src, pos);
      hide Source.HexWord;
      hide HexDigit;
      var utf16Char := 0;
      var i := 0;
      while i < 4
        invariant 0 <= i <= 4
        invariant HexPrefix(src, pos, i) == Some(utf16Char)
      {
        var digit := HexDigit(src.At(pos + i));
        if digit.None? {
          return None;
        }
        utf16Char := utf16Char * 0x10 + digit.value;
        i := i + 1;
      }
      return Some(utf16Char);
    }

    /** The escape \uXXXX, or a surrogate pair of them, with the cursor on the 'u'. */
    method ProcessUnicode() returns (ok: bool)
      requires src.At(pos) == LOWER_U
      modifies this`pos, this`outStringStream
      ensures ok == src.CodePoint(old(pos) + 1).Match?
      ensures ok ==> pos == src.CodePoint(old(pos) + 1).next
      ensures ok ==> outStringStream == old(outStringStream) + EncodeUtf8(src.CodePoint(old(pos) + 1).value)
    {
      hide Source.HexWord;
      hide EncodeUtf8;
      pos := pos + 1;
      var w1 := ParseUtf16Char();
      if w1.None? {
        return false;
      }
      pos := pos + 4;
      var bytes: Text;
      if w1.value < 0xD800 || 0xDFFF < w1.value {
        bytes := Utf16ToUtf8(w1.value);
        outStringStream := outStringStream + bytes;
        return true;
      }
      if w1.value > 0xDBFF || src.At(pos) != BACKSLASH || src.At(pos + 1) != LOWER_U {
        return false;
      }
      pos := pos + 2;
      var w2 := ParseUtf16Char();
      if w2.None? || w2.value < 0xDC00 || 0xDFFF < w2.value {
        return false;
      }
      bytes := SurrogatesToUtf8(w1.value, w2.value);
      outStringStream := outStringStream + bytes;
      pos := pos + 4;
      return true;
    }

    /** Write what the escape at the cursor stands for; false means throw. */
    method ProcessSlash() returns (ok: bool)
      requires src.At(pos) == BACKSLASH
      modifies this`pos, this`outStringStream
      ensures ok == src.Escape(old(pos) + 1).Match?
      ensures ok ==> pos == src.Escape(old(pos) + 1).next
      ensures ok ==> outStringStream == old(outStringStream) + src.Escape(old(pos) + 1).value
    {
      pos := pos + 1;
      var c := src.At(pos);
      if c == 0 {
        return false;
      } else if c == LOWER_B {
        outStringStream := outStringStream + [BACKSPACE];
      } else if c == LOWER_F {
        outStringStream := outStringStream + [FORM_FEED];
      } else if c == LOWER_N {
        outStringStream := outStringStream + [LINE_FEED];
      } else if c == LOWER_R {
        outStringStream := outStringStream + [CARRIAGE_RETURN];
      } else if c == LOWER_T {
        outStringStream := outStringStream + [TAB];
      } else if c == LOWER_U {
        ok := ProcessUnicode();
        return;
      } else {
        outStringStream := outStringStream + [c];
      }
      pos := pos + 1;
      return true;
    }

    /** The string whose opening quote is at the cursor. The bytes between escapes are copied in
        runs, and the stream is used only when there is an escape. */
    method FetchString() returns (r: Option<Text>)
      requires src.At(pos) == QUOTE && outStringStream == []
      modifies this`pos, this`outStringStream
      ensures r.Some? == src.StringBody(old(pos) + 1).Match?
      ensures r.Some? ==> src.StringBody(old(pos) + 1) == Match(r.value, pos) && outStringStream == []
    {
      hide Source.StringBody;
      hide Source.Escape;
      pos := pos + 1;
      ghost var body := src.StringBody(pos);
      var start: nat := pos;
      assert body.Match? ==> outStringStream + src.text[start..pos] + body.value == body.value;
      while true
        invariant start <= pos <= |src.text|
        invariant body == Prepend(outStringStream + src.text[start..pos], src.StringBody(pos))
        decreases |src.text| - pos
      {
        ghost var seen := outStringStream + src.text[start..pos];
        StringStep(seen, src, pos);
        var c := src.At(pos);
        if c == 0 {
          return None;
        } else if c == BACKSLASH {
          outStringStream := outStringStream + src.text[start..pos];
          var ok := ProcessSlash();
          if !ok {
            return None;
          }
          start := pos;
          assert outStringStream + src.text[start..pos] == outStringStream;
        } else if c == QUOTE {
          var str := src.text[start..pos];
          if outStringStream == [] {
            assert str == seen;
          } else {
            outStringStream := outStringStream + str;
            str := outStringStream;
            outStringStream := [];
          }
          pos := pos + 1;
          return Some(str);
        } else {
          pos := pos + 1;
          assert seen + [c] == outStringStream + src.text[start..pos];
        }
      }
    }

    method ProcessString() returns (r: Outcome)
      requires Valid() && src.Skip(pos) == pos && src.At(pos) == QUOTE
      modifies this
      ensures Handled(r)
    {
      hide Source.StringBody;
      hide Source.Escape;
      hide Source.Elements;
      hide Source.MemberValue;
      if wantComma || wantSemicolon {
        return Thrown;
      }
      if !wantKey {
        ValueVerdict();
      }
      var str := FetchString();
      if str.None? {
        return Thrown;
      }
      if wantKey {
        key := str.value;
        wantKey, wantValue, wantComma, wantSemicolon := false, false, false, true;
        return Pending;
      }
      CursorMoved();
      r := InsertNode(String(str.value));
    }

    /** Move the cursor behind the number characters, counting '.' and 'e'. */
    method ScanNumber() returns (dot: nat, e: nat)
      requires pos <= |src.text|
      modifies this`pos
      ensures pos == src.NumberEnd(old(pos))
      ensures dot == Occurrences(src.text[old(pos)..pos], DOT, DOT)
      ensures e == Occurrences(src.text[old(pos)..pos], LOWER_E, UPPER_E)
    {
      dot, e := 0, 0;
      var start: nat := pos;
      while IsNumberByte(src.At(pos))
        invariant start <= pos <= |src.text|
        invariant src.NumberEnd(start) == src.NumberEnd(pos)
        invariant dot == Occurrences(src.text[start..pos], DOT, DOT)
        invariant e == Occurrences(src.text[start..pos], LOWER_E, UPPER_E)
        decreases |src.text| - pos
      {
        ghost var span := src.text[start..pos + 1];
        assert span[..|span| - 1] == src.text[start..pos];
        if src.At(pos) == DOT {
          dot := dot + 1;
        } else if src.At(pos) == UPPER_E || src.At(pos) == LOWER_E {
          e := e + 1;
        }
        pos := pos + 1;
      }
    }

    /** The number node of a span of number characters, or a throw. */
    method ConvertNumber(span: Text, dot: nat, e: nat) returns (node: Option<Json>)
      requires span != []
      requires dot == Occurrences(span, DOT, DOT) && e == Occurrences(span, LOWER_E, UPPER_E)
      ensures node == src.NumberValue(span)
    {
      if e > 1 {
        return None;
      }
      if dot > 0 || e > 0 {
        var d := src.strtod(span);
        return if d.Some? then Some(Real(Finite(d.value))) else None;
      }
      if span[0] == MINUS {
        var i := SignedValue(span);
        return if i.Some? then Some(Integer(i.value)) else None;
      }
      var u := UnsignedValue(span);
      if u.None? {
        return None;
      }
      return Some(if u.value >= INT64_LIMIT then UInteger(u.value) else Integer(u.value));
    }

    /** nan, Infinity or inf at the cursor, in any case. */
    method ScanNumberWord() returns (node: Option<Json>)
      modifies this`pos
      ensures src.NumberEnd(old(pos)) == old(pos) ==>
        src.Number(old(pos)) == if node.Some? then Match(node.value, pos) else NoMatch
      ensures node.Some? ==> pos <= |src.text|
    {
      if src.HasWordAnyCase(pos, NAN_WORD) {
        pos := pos + 3;
        return Some(Real(NotANumber));
      }
      if src.HasWordAnyCase(pos, INFINITY_WORD) {
        pos := pos + 8;
        return Some(Real(Infinite));
      }
      if src.HasWordAnyCase(pos, INF_WORD) {
        pos := pos + 3;
        return Some(Real(Infinite));
      }
      return None;
    }

    /** Scan the number at the cursor. */
    method FetchNumber() returns (node: Option<Json>)
      requires pos < |src.text|
      modifies this`pos
      ensures node.Some? == src.Number(old(pos)).Match?
      ensures node.Some? ==> src.Number(old(pos)) == Match(node.value, pos)
    {
      var start: nat := pos;
      var dot, e := ScanNumber();
      if start == pos {
        node := ScanNumberWord();
      } else {
        node := ConvertNumber(src.text[start..pos], dot, e);
      }
    }

    method ProcessNumber() returns (r: Outcome)
      requires Valid() && ValueExpected() && src.Skip(pos) == pos && pos < |src.text|
      requires src.Value(pos) == src.Number(pos)
      requires src.At(pos) != RIGHT_BRACKET
      modifies this
      ensures Handled(r)
    {
      ValueVerdict();
      var node := FetchNumber();
      if node.None? {
        return Thrown;
      }
      CursorMoved();
      r := InsertNode(node.value);
    }

    method GeneralProcess() returns (r: Outcome)
      requires Valid() && src.Skip(pos) == pos && pos < |src.text|
      requires src.At(pos) !in {LEFT_BRACE, RIGHT_BRACE, LEFT_BRACKET, RIGHT_BRACKET, COMMA, COLON, QUOTE}
      modifies this
      ensures Handled(r)
    {
      if wantKey || wantComma || wantSemicolon {
        return Thrown;
      }
      ValueVerdict();
      assert src.Value(pos) == src.Literal(pos);
      var word := FetchWord();
      if word.Some? {
        CursorMoved();
        r := InsertNode(word.value);
      } else {
        r := ProcessNumber();
      }
    }

    /** true, false or null at the cursor. */
    method FetchWord() returns (node: Option<Json>)
      modifies this`pos
      ensures node.Some? ==> src.Literal(old(pos)) == Match(node.value, pos)
      ensures node.None? ==> pos == old(pos) && src.Literal(pos) == src.Number(pos)
    {
      if src.HasWord(pos, TRUE_WORD) {
        pos := pos + 4;
        return Some(Boolean(true));
      }
      if src.HasWord(pos, FALSE_WORD) {
        pos := pos + 5;
        return Some(Boolean(false));
      }
      if src.HasWord(pos, NULL_WORD) {
        pos := pos + 4;
        return Some(Null);
      }
      return None;
    }

    /** The dispatch through `_callMap`. */
    method Dispatch() returns (r: Outcome)
      requires Valid() && src.Skip(pos) == pos && pos < |src.text|
      modifies this
      ensures Handled(r)
    {
      var c := src.At(pos);
      if c == LEFT_BRACE {
        r := EnterObject();
      } else if c == RIGHT_BRACE {
        r := ExitObject();
      } else if c == LEFT_BRACKET {
        r := EnterArray();
      } else if c == RIGHT_BRACKET {
        r := ExitArray();
      } else if c == COMMA {
        r := ProcessComma();
      } else if c == COLON {
        r := ProcessSemicolon();
      } else if c == QUOTE {
        r := ProcessString();
      } else {
        r := GeneralProcess();
      }
    }

    /** JsonParser::parse; None means that it throws. */
    method Parse() returns (result: Option<Json>)
      requires Valid() && pos == 0 && Verdict() == src.Document()
      modifies this
      ensures result == src.Document()
    {
      if src.At(0) == 0 {
        return None;
      }
      var root: Outcome := Pending;
      while src.At(pos) != 0
        invariant !root.Thrown?
        invariant root.Pending? ==> Valid() && Verdict() == src.Document()
        invariant root.Root? ==> pos <= |src.text|
        invariant root.Root? ==> src.Document() == (if src.Skip(pos) == |src.text| then Some(root.value) else None)
        decreases |src.text| - pos
      {
        SkipSpace();
        if root.Root? || src.At(pos) == 0 {
          break;
        }
        root := Dispatch();
        if root.Thrown? {
          return None;
        }
      }
      if src.At(pos) != 0 || root.Pending? {
        return None;
      }
      return Some(root.value);
    }

    /** Move the cursor over white space. */
    method SkipSpace()
      requires pos <= |src.text|
      modifies this`pos
      ensures pos == src.Skip(old(pos))
    {
      while IsSpace(src.At(pos))
        invariant pos <= |src.text| && src.Skip(pos) == src.Skip(old(pos))
        decreases |src.text| - pos
      {
        pos := pos + 1;
      }
    }
  }

  /** Json::parse. */
  method ParseJson(text: CString, strtod: Text -> Option<real>) returns (result: Option<Json>)
    ensures result == Source(text, strtod).Document()
  {
    var parser := new JsonParser(Source(text, strtod));
    result := parser.Parse();
  }

  /** A recognised text with what stands in front of it. */
  ghost function Prepend(head: Text, scan: Scan<Text>): Scan<Text> {
    if scan.Match? then Match(head + scan.value, scan.next) else NoMatch
  }

  /** Reading one more unit of a string moves it into what has been seen. */
  lemma StringStep(seen: Text, src: Source, p: nat)
    ensures src.At(p) == 0 ==> src.StringBody(p).NoMatch?
    ensures src.At(p) == QUOTE ==> Prepend(seen, src.StringBody(p)) == Match(seen, p + 1)
    ensures src.At(p) != 0 && src.At(p) != QUOTE && src.At(p) != BACKSLASH ==>
      Prepend(seen, src.StringBody(p)) == Prepend(seen + [src.At(p)], src.StringBody(p + 1))
    ensures src.At(p) == BACKSLASH && src.Escape(p + 1).NoMatch? ==> src.StringBody(p).NoMatch?
    ensures src.At(p) == BACKSLASH && src.Escape(p + 1).Match? ==>
      Prepend(seen, src.StringBody(p))
        == Prepend(seen + src.Escape(p + 1).value, src.StringBody(src.Escape(p + 1).next))
  {
    if src.At(p) == QUOTE {
      assert seen + [] == seen;
    } else if src.At(p) == BACKSLASH {
      if src.Escape(p + 1).Match? {
        var rest := src.StringBody(src.Escape(p + 1).next);
        assert rest.Match? ==>
          seen + (src.Escape(p + 1).value + rest.value) == seen + src.Escape(p + 1).value + rest.value;
      }
    } else if src.At(p) != 0 {
      var rest := src.StringBody(p + 1);
      assert rest.Match? ==> seen + ([src.At(p)] + rest.value) == seen + [src.At(p)] + rest.value;
    }
  }

  /** The value of the first i hexadecimal digits at p. */
  ghost function HexPrefix(src: Source, p: nat, i: nat): Option<int> {
    if i == 0 then Some(0)
    else
      var (high, digit) := (HexPrefix(src, p, i - 1), HexDigit(src.At(p + i - 1)));
      if high.Some? && digit.Some? then Some(0x10 * high.value + digit.value) else None
  }

  lemma HexPrefixIsWord(src: Source, p: nat)
    ensures HexPrefix(src, p, 4) == src.HexWord(p)
    ensures HexPrefix(src, p, 1).None? || HexPrefix(src, p, 2).None? || HexPrefix(src, p, 3).None?
            ==> src.HexWord(p) == None
  {
    assert HexPrefix(src, p, 1) == HexDigit(src.At(p));
    assert HexPrefix(src, p, 2).Some? ==> HexPrefix(src, p, 1).Some?;
    assert HexPrefix(src, p, 3).Some? ==> HexPrefix(src, p, 2).Some?;
  }
}
