/** Printing undoes parsing: what the parser makes of a UTF-8 text can be printed, and comes back
  from the output as it was. */
module JsonReparse {
  import opened Bytes
  import opened JsonTree
  import opened JsonGrammar
  import opened JsonPrinting
  import opened JsonConformance
  import opened JsonOutput
  import opened JsonRoundTrip
  import opened Utf8

  /** A tree without Real nodes. */
  predicate RealFree(v: Json) {
    match v
    case Object(dict) => forall k :: k in dict ==> RealFree(dict[k])
    case Array(list) => forall i :: 0 <= i < |list| ==> RealFree(list[i])
    case Real(_) => false
    case _ => true
  }

  /** Without Real nodes the tree survives a print and a parse. */
  predicate Survives(v: Json) {
    RealFree(v) ==> Printable(v) && IsNormal(v)
  }

  predicate MembersSurvive(dict: map<Text, Json>) {
    forall k :: k in dict ==> WellFormedUtf8(k) && Survives(dict[k])
  }

  predicate ElementsSurvive(list: seq<Json>) {
    forall i :: 0 <= i < |list| ==> Survives(list[i])
  }

  // ---------- positions between characters ----------

  predicate Aligned(src: Source, p: nat) {
    p <= |src.text| && WellFormedUtf8(src.text[p..])
  }

  /** The character at a position. */
  lemma CharacterAt(src: Source, p: nat) returns (n: nat)
    requires Aligned(src, p) && p < |src.text|
    ensures n > 0 && Aligned(src, p + n) && IsCharacter(src.text[p..p + n])
    ensures n == 1 <==> src.At(p) < 0x80
    ensures n > 1 ==> forall i :: p <= i < p + n ==> src.text[i] >= 0x80
  {
    var s := src.text[p..];
    n := CharacterLength(s);
    OctetsOfCharacter(s);
    assert s[n..] == src.text[p + n..] && s[..n] == src.text[p..p + n];
    forall i | n > 1 && p <= i < p + n ensures src.text[i] >= 0x80 {
      assert s[i - p] == src.text[i];
    }
  }

  lemma {:induction false} AsciiRun(src: Source, p: nat, q: nat)
    requires Aligned(src, p) && p <= q <= |src.text|
    requires forall i :: p <= i < q ==> src.text[i] < 0x80
    ensures Aligned(src, q)
    decreases q - p
  {
    if p < q {
      var n := CharacterAt(src, p);
      AsciiRun(src, p + 1, q);
    }
  }

  lemma AsciiByte(src: Source, p: nat)
    requires Aligned(src, p) && 0 < src.At(p) < 0x80
    ensures Aligned(src, p + 1)
  {
    AsciiRun(src, p, p + 1);
  }

  lemma {:induction false} SkipIsAligned(src: Source, p: nat)
    requires Aligned(src, p)
    ensures Aligned(src, src.Skip(p))
    decreases |src.text| - p
  {
    if IsSpace(src.At(p)) {
      AsciiByte(src, p);
      SkipIsAligned(src, p + 1);
    }
  }

  // ---------- strings ----------

  /** Bytes above 0x7F stand for themselves. */
  lemma {:induction false} HighBytesStand(src: Source, p: nat, q: nat)
    requires p <= q <= |src.text| && forall i :: p <= i < q ==> src.text[i] >= 0x80
    ensures src.StringBody(p).Match? <==> src.StringBody(q).Match?
    ensures src.StringBody(p).Match? ==>
      src.StringBody(p) == Match(src.text[p..q] + src.StringBody(q).value, src.StringBody(q).next)
    decreases q - p
  {
    if p < q {
      HighBytesStand(src, p + 1, q);
      assert [src.text[p]] + src.text[p + 1..q] == src.text[p..q];
      if src.StringBody(q).Match? {
        Cons(src.text[p], src.text[p + 1..q], src.StringBody(q).value);
      }
    } else if src.StringBody(q).Match? {
      assert src.text[p..q] + src.StringBody(q).value == src.StringBody(q).value;
    }
  }

  lemma HexWordIsAscii(src: Source, p: nat)
    requires src.HexWord(p).Some?
    ensures forall i :: p <= i < p + 4 ==> src.text[i] < 0x80
  {
    assert src.At(p + 1) == src.text[p + 1] && src.At(p + 2) == src.text[p + 2] && src.At(p + 3) == src.text[p + 3];
    forall i | p <= i < p + 4 ensures src.text[i] < 0x80 {
      assert i == p || i == p + 1 || i == p + 2 || i == p + 3;
    }
  }

  lemma CodePointIsAscii(src: Source, p: nat)
    requires src.CodePoint(p).Match?
    ensures forall i :: p <= i < src.CodePoint(p).next ==> src.text[i] < 0x80
  {
    HexWordIsAscii(src, p);
    if src.CodePoint(p).next > p + 4 {
      HexWordIsAscii(src, p + 6);
      assert src.At(p + 4) == BACKSLASH && src.At(p + 5) == LOWER_U;
    }
  }

  /** An escape that starts with an ASCII character stands for one character. */
  lemma EscapeIsCharacter(src: Source, p: nat)
    requires Aligned(src, p) && src.Escape(p).Match? && src.At(p) < 0x80
    ensures IsCharacter(src.Escape(p).value) && Aligned(src, src.Escape(p).next)
  {
    AsciiByte(src, p);
    if src.At(p) == LOWER_U {
      var point := src.CodePoint(p + 1);
      CodePointIsAscii(src, p + 1);
      AsciiRun(src, p + 1, point.next);
      DecodeUndoesEncode(point.value);
    }
  }

  /** A character is read, and the body goes on behind it. */
  ghost predicate ReadsCharacter(src: Source, p: nat, c: Text, q: nat) {
    && p < q && Aligned(src, q) && IsCharacter(c) && src.StringBody(q).Match?
    && src.StringBody(p) == Match(c + src.StringBody(q).value, src.StringBody(q).next)
  }

  lemma PlainCharacter(src: Source, p: nat) returns (q: nat)
    requires Aligned(src, p) && src.StringBody(p).Match? && src.At(p) != QUOTE && src.At(p) != BACKSLASH
    ensures p < q <= |src.text| && ReadsCharacter(src, p, src.text[p..q], q)
  {
    var n := CharacterAt(src, p);
    q := p + n;
    if n == 1 {
      assert src.text[p..q] == [src.At(p)];
    } else {
      HighBytesStand(src, p, q);
    }
  }

  /** A backslash in front of a character of several octets is dropped. */
  lemma EscapedHighCharacter(src: Source, p: nat, q: nat)
    requires src.StringBody(p).Match? && src.At(p) == BACKSLASH && p + 1 < q <= |src.text|
    requires forall i :: p + 1 <= i < q ==> src.text[i] >= 0x80
    ensures src.StringBody(q).Match?
    ensures src.StringBody(p) == Match(src.text[p + 1..q] + src.StringBody(q).value, src.StringBody(q).next)
  {
    var c := src.text[p + 1];
    assert src.At(p + 1) == c;
    assert src.Escape(p + 1) == Match([c], p + 2);
    hide Source.Escape;
    HighBytesStand(src, p + 2, q);
    assert [c] + src.text[p + 2..q] == src.text[p + 1..q];
    Cons(c, src.text[p + 2..q], src.StringBody(q).value);
  }

  lemma EscapedCharacter(src: Source, p: nat) returns (c: Text, q: nat)
    requires Aligned(src, p) && src.StringBody(p).Match? && src.At(p) == BACKSLASH
    ensures ReadsCharacter(src, p, c, q)
  {
    hide Aligned;
    hide CharacterLength;
    hide Source.Escape;
    AsciiByte(src, p);
    if src.At(p + 1) < 0x80 {
      EscapeIsCharacter(src, p + 1);
      c, q := src.Escape(p + 1).value, src.Escape(p + 1).next;
    } else {
      hide Source.StringBody;
      var n := CharacterAt(src, p + 1);
      q := p + 1 + n;
      c := src.text[p + 1..q];
      EscapedHighCharacter(src, p, q);
    }
  }

  /** A string read from between characters is well formed, and ends between characters. */
  lemma {:induction false} StringIsWellFormed(src: Source, p: nat)
    requires Aligned(src, p) && src.StringBody(p).Match?
    ensures WellFormedUtf8(src.StringBody(p).value) && Aligned(src, src.StringBody(p).next)
    decreases |src.text| - p
  {
    hide Source.Escape;
    hide CharacterLength;
    if src.At(p) == QUOTE {
      AsciiByte(src, p);
    } else {
      var c, q;
      if src.At(p) == BACKSLASH {
        c, q := EscapedCharacter(src, p);
      } else {
        q := PlainCharacter(src, p);
        c := src.text[p..q];
      }
      hide Source.StringBody;
      StringIsWellFormed(src, q);
      PrependCharacter(c, src.StringBody(q).value);
    }
  }

  // ---------- numbers and words ----------

  lemma {:induction false} NumberRunIsAscii(src: Source, p: nat)
    requires p <= |src.text|
    ensures forall i :: p <= i < src.NumberEnd(p) ==> src.text[i] < 0x80
    decreases |src.text| - p
  {
    if IsNumberByte(src.At(p)) {
      NumberRunIsAscii(src, p + 1);
    }
  }

  lemma WordIsAscii(src: Source, p: nat, word: Text)
    requires src.HasWord(p, word) || src.HasWordAnyCase(p, word)
    requires forall i :: 0 <= i < |word| ==> word[i] < 0x80
    ensures forall i :: p <= i < p + |word| ==> src.text[i] < 0x80
  {
    forall i | p <= i < p + |word| ensures src.text[i] < 0x80 {
      assert src.HasWord(p, word) ==> src.text[p..p + |word|][i - p] == word[i - p];
      assert src.HasWordAnyCase(p, word) ==> Lower(src.text[p + (i - p)]) == word[i - p];
    }
  }

  lemma NumberSurvives(src: Source, span: Text)
    requires span != [] && src.NumberValue(span).Some?
    ensures Survives(src.NumberValue(span).value)
  {
    hide Occurrences;
    hide DecimalValue;
  }

  // ---------- values ----------

  ghost predicate Sound(src: Source, scan: Scan<Json>) {
    scan.Match? ==> Aligned(src, scan.next) && Survives(scan.value)
  }

  lemma LiteralIsSound(src: Source, p: nat)
    requires Aligned(src, p)
    ensures Sound(src, src.Literal(p))
  {
    hide Aligned;
    var scan := src.Literal(p);
    if scan.Match? {
      if src.HasWord(p, TRUE_WORD) {
        WordIsAscii(src, p, TRUE_WORD);
      } else if src.HasWord(p, FALSE_WORD) {
        WordIsAscii(src, p, FALSE_WORD);
      } else if src.HasWord(p, NULL_WORD) {
        WordIsAscii(src, p, NULL_WORD);
      } else if p < src.NumberEnd(p) <= |src.text| {
        NumberRunIsAscii(src, p);
        NumberSurvives(src, src.text[p..src.NumberEnd(p)]);
        hide Source.NumberValue;
      } else if src.HasWordAnyCase(p, NAN_WORD) {
        WordIsAscii(src, p, NAN_WORD);
      } else if src.HasWordAnyCase(p, INFINITY_WORD) {
        WordIsAscii(src, p, INFINITY_WORD);
      } else {
        WordIsAscii(src, p, INF_WORD);
      }
      AsciiRun(src, p, scan.next) by {
        AlignedInside(src, p);
      }
    }
  }

  lemma AlignedInside(src: Source, p: nat)
    requires Aligned(src, p)
    ensures p <= |src.text|
  {
  }

  lemma {:induction false} ValueIsSound(src: Source, p: nat)
    requires Aligned(src, p)
    ensures Sound(src, src.Value(p))
    decreases |src.text| - p, 1
  {
    hide Aligned;
    hide Survives;
    hide Source.Literal;
    hide Source.Members;
    hide Source.Elements;
    AlignedInside(src, p);
    var c := src.At(p);
    if c == LEFT_BRACE {
      Behind(src, p);
      MembersAreSound(src, src.Skip(p + 1), map[]);
    } else if c == LEFT_BRACKET {
      Behind(src, p);
      ElementsAreSound(src, src.Skip(p + 1), []);
    } else if c == QUOTE {
      AsciiByte(src, p);
      if src.StringBody(p + 1).Match? {
        StringIsWellFormed(src, p + 1);
        StringSurvives(src.StringBody(p + 1).value);
      }
    } else {
      LiteralIsSound(src, p);
    }
  }

  lemma StringSurvives(s: Text)
    requires WellFormedUtf8(s)
    ensures Survives(String(s))
  {
  }

  /** The position behind a structural character and white space. */
  lemma Behind(src: Source, p: nat)
    requires Aligned(src, p) && 0 < src.At(p) < 0x80
    ensures Aligned(src, src.Skip(p + 1)) && p < src.Skip(p + 1) <= |src.text|
  {
    AsciiByte(src, p);
    SkipIsAligned(src, p + 1);
  }

  lemma {:induction false} MembersAreSound(src: Source, p: nat, dict: map<Text, Json>)
    requires Aligned(src, p) && MembersSurvive(dict)
    ensures Sound(src, src.Members(p, dict))
    decreases |src.text| - p, 0
  {
    hide Aligned;
    hide MembersSurvive;
    hide Survives;
    hide Source.AfterKey;
    hide Source.StringBody;
    hide Source.Skip;
    AlignedInside(src, p);
    if src.At(p) == RIGHT_BRACE {
      AsciiByte(src, p);
      ObjectSurvives(dict);
    } else if src.At(p) == QUOTE {
      AsciiByte(src, p);
      var key := src.StringBody(p + 1);
      if key.Match? {
        StringIsWellFormed(src, p + 1);
        SkipIsAligned(src, key.next);
        KeyIsSound(src, src.Skip(key.next), dict, key.value);
      }
    }
  }

  lemma {:induction false} KeyIsSound(src: Source, p: nat, dict: map<Text, Json>, key: Text)
    requires Aligned(src, p) && MembersSurvive(dict) && WellFormedUtf8(key)
    ensures Sound(src, src.AfterKey(p, dict, key))
    decreases |src.text| - p, 3
  {
    hide Aligned;
    hide MembersSurvive;
    hide Survives;
    hide Source.MemberValue;
    AlignedInside(src, p);
    if src.At(p) == COLON {
      Behind(src, p);
      MemberIsSound(src, src.Skip(p + 1), dict, key);
    }
  }

  lemma ObjectSurvives(dict: map<Text, Json>)
    requires MembersSurvive(dict)
    ensures Survives(Object(dict))
  {
  }

  lemma {:induction false} MemberIsSound(src: Source, p: nat, dict: map<Text, Json>, key: Text)
    requires Aligned(src, p) && MembersSurvive(dict) && WellFormedUtf8(key)
    ensures Sound(src, src.MemberValue(p, dict, key))
    decreases |src.text| - p, 2
  {
    hide Aligned;
    hide Survives;
    hide WellFormedUtf8;
    hide Source.Value;
    hide Source.Members;
    AlignedInside(src, p);
    ValueIsSound(src, p);
    var v := src.Value(p);
    if key !in dict && v.Match? {
      var q := src.Skip(v.next);
      SkipIsAligned(src, v.next);
      var more := dict[key := v.value];
      if src.At(q) == RIGHT_BRACE {
        AsciiByte(src, q);
        ObjectSurvives(more);
      } else if src.At(q) == COMMA {
        Behind(src, q);
        MembersAreSound(src, src.Skip(q + 1), more);
      }
    }
  }

  lemma {:induction false} ElementsAreSound(src: Source, p: nat, list: seq<Json>)
    requires Aligned(src, p) && ElementsSurvive(list)
    ensures Sound(src, src.Elements(p, list))
    decreases |src.text| - p, 2
  {
    hide Aligned;
    hide Survives;
    hide Source.Value;
    AlignedInside(src, p);
    if src.At(p) == RIGHT_BRACKET {
      AsciiByte(src, p);
      ArraySurvives(list);
    } else {
      ValueIsSound(src, p);
      var v := src.Value(p);
      if v.Match? {
        var q := src.Skip(v.next);
        SkipIsAligned(src, v.next);
        var more := list + [v.value];
        if src.At(q) == RIGHT_BRACKET {
          AsciiByte(src, q);
          ArraySurvives(more);
        } else if src.At(q) == COMMA {
          Behind(src, q);
          ElementsAreSound(src, src.Skip(q + 1), more);
        }
      }
    }
  }

  lemma ArraySurvives(list: seq<Json>)
    requires ElementsSurvive(list)
    ensures Survives(Array(list))
  {
  }

  // ---------- documents ----------

  /** Whatever the parser makes of a UTF-8 text, if it holds no Real node it can be printed, with
      every string and key well formed and every number in the range of its node. */
  lemma ParsedTreeIsPrintable(src: Source)
    requires WellFormedUtf8(src.text) && src.Document().Some? && RealFree(src.Document().value)
    ensures Printable(src.Document().value) && IsNormal(src.Document().value)
  {
    assert src.text[0..] == src.text;
    assert Aligned(src, 0);
    hide Aligned;
    SkipIsAligned(src, 0);
    ValueIsSound(src, src.Skip(0));
  }

  /** Json::str after Json::parse, and Json::parse again: the second parse gives the very tree of
      the first. */
  lemma PrintUndoesParse(src: Source, strtod: Text -> Option<real>, format: Double -> Text)
    requires WellFormedUtf8(src.text) && src.Document().Some? && RealFree(src.Document().value)
    ensures var v := src.Document().value;
      0 !in Str(v, format) && Source(Str(v, format), strtod).Document() == Some(v)
  {
    hide *;
    var v := src.Document().value;
    ParsedTreeIsPrintable(src);
    ParseUndoesPrint(v, strtod, format);
    NormalIsExact(v);
  }
}
