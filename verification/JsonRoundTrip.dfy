/** Parsing undoes printing: the document grammar, run on the output for a tree, gives the tree
  back, up to the two node kinds that JSON text cannot tell apart. The output is a text of the
  standard, and the grammar reads all of those. */
module JsonRoundTrip {
  import opened Bytes
  import opened JsonTree
  import opened JsonGrammar
  import opened JsonPrinting
  import opened JsonConformance
  import opened JsonOutput
  import opened Utf8
  import S = JsonTexts

  /** An escaped string in front of its closing quote. */
  lemma StringReads(src: Source, p: nat, s: Text)
    requires WellFormedUtf8(s) && Spells(src, p, EscapeText(s) + [QUOTE])
    ensures src.StringBody(p) == Match(s, p + |EscapeText(s)| + 1)
  {
    hide *;
    var cs := EscapedIsStandard(s);
    BodyReads(src, p, cs);
  }

  lemma IntegerReads(src: Source, p: nat, n: int)
    requires -INT64_LIMIT <= n < UINT64_LIMIT
    requires Spells(src, p, IntegerText(n)) && !IsNumberByte(src.At(p + |IntegerText(n)|))
    ensures src.Value(p) == Match(if n < INT64_LIMIT then Integer(n) else UInteger(n), p + |IntegerText(n)|)
  {
    hide Source.Value;
    hide IntegerText;
    hide S.WholeValue;
    var k := IntegerIsStandard(n);
    NumberReads(src, p, k);
  }

  /** The output for a printable tree anywhere in a text. */
  lemma OutputReads(src: Source, p: nat, v: Json, format: Double -> Text)
    requires Printable(v) && Spells(src, p, Str(v, format))
    requires IsDelimiter(src.At(p + |Str(v, format)|))
    ensures src.Value(p) == Match(Normal(v), p + |Str(v, format)|)
  {
    hide *;
    var d := OutputIsStandard(v, format, src.strtod);
    DerivationReads(src, p, d, Str(v, format), Normal(v));
  }

  lemma DerivationReads(src: Source, p: nat, d: S.Value, text: Text, v: Json)
    requires Derives(d, text, v, src.strtod) && Spells(src, p, text) && IsDelimiter(src.At(p + |text|))
    ensures src.Value(p) == Match(v, p + |text|)
  {
    hide Source.Value;
    hide S.IsStandard;
    hide S.Denotes;
    hide S.Meaning;
    hide IsDelimiter;
    hide Spells;
    ValueReads(src, p, d);
  }

  lemma OutputHasNoNul(v: Json, format: Double -> Text)
    requires Printable(v)
    ensures 0 !in Str(v, format)
  {
    hide Str;
    OutputIsVisible(v, format);
  }

  /** Json::parse after Json::str: for every printable tree, whatever `strtod` and the printing
      of doubles do, the document that the output denotes is the tree in normal form. */
  lemma ParseUndoesPrint(v: Json, strtod: Text -> Option<real>, format: Double -> Text)
    requires Printable(v)
    ensures 0 !in Str(v, format)
    ensures Source(Str(v, format), strtod).Document() == Some(Normal(v))
  {
    hide Str;
    var value := OutputIsStandard(v, format, strtod);
    var d := S.Document([], value, []);
    hide S.ValueText;
    hide S.Meaning;
    hide S.Denotes;
    hide Normal;
    assert S.DocumentText(d) == Str(v, format);
    DerivedTextsAreRead(d, strtod);
  }

  /** A tree without Uninit and without small UInteger nodes comes back as it was. */
  predicate IsNormal(v: Json) {
    match v
    case Object(dict) => forall k :: k in dict ==> IsNormal(dict[k])
    case Array(list) => forall i :: 0 <= i < |list| ==> IsNormal(list[i])
    case UInteger(u) => INT64_LIMIT <= u
    case Uninit => false
    case _ => true
  }

  lemma {:induction false} NormalIsExact(v: Json)
    ensures Normal(v) == v <==> IsNormal(v)
  {
    match v {
      case Object(dict) =>
        forall k | k in dict ensures Normal(dict[k]) == dict[k] <==> IsNormal(dict[k]) {
          NormalIsExact(dict[k]);
        }
        if forall k :: k in dict ==> Normal(dict[k]) == dict[k] {
          assert Normal(v).dict == dict;
        } else {
          var k :| k in dict && Normal(dict[k]) != dict[k];
          assert Normal(v).dict[k] != dict[k];
        }
      case Array(list) =>
        forall i | 0 <= i < |list| ensures Normal(list[i]) == list[i] <==> IsNormal(list[i]) {
          NormalIsExact(list[i]);
        }
        if forall i :: 0 <= i < |list| ==> Normal(list[i]) == list[i] {
          assert Normal(v).list == list;
        } else {
          var i :| 0 <= i < |list| && Normal(list[i]) != list[i];
          assert Normal(v).list[i] != list[i];
        }
      case _ =>
    }
  }
}
