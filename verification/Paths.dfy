/** pathSplit of FPJson.cpp: a path is cut at every byte that is one of the delimiters. */
module Paths {
  import opened Bytes

  predicate Clear(s: Text, from: nat, to: nat, delim: Text)
    requires to <= |s|
  {
    forall i :: from <= i < to ==> s[i] !in delim
  }

  /** std::string::find_first_of, with the length in the place of npos. */
  function FirstOf(s: Text, delim: Text, start: nat): (pos: nat)
    requires start <= |s|
    ensures start <= pos <= |s| && Clear(s, start, pos, delim)
    ensures pos < |s| ==> s[pos] in delim
    decreases |s| - start
  {
    if start == |s| || s[start] in delim then start else FirstOf(s, delim, start + 1)
  }

  /** Only clear bytes come before the first delimiter. */
  lemma FirstIsFirst(s: Text, delim: Text, start: nat, pos: nat)
    requires start <= pos <= |s| && Clear(s, start, pos, delim) && (pos < |s| ==> s[pos] in delim)
    ensures FirstOf(s, delim, start) == pos
  {
  }

  function Sections(s: Text, delim: Text): (r: seq<Text>)
    ensures r != []
    decreases |s|
  {
    var pos := FirstOf(s, delim, 0);
    if pos == |s| then [s] else [s[..pos]] + Sections(s[pos + 1..], delim)
  }

  /** The delimiters of a path, in order. */
  function Separators(s: Text, delim: Text): Text {
    if s == [] then [] else (if s[0] in delim then [s[0]] else []) + Separators(s[1..], delim)
  }

  /** Sections with separators between them. */
  function Joined(sections: seq<Text>, separators: Text): Text
    requires |sections| == |separators| + 1
  {
    if separators == [] then sections[0]
    else sections[0] + [separators[0]] + Joined(sections[1..], separators[1..])
  }

  lemma {:induction false} SeparatorsAfter(s: Text, pos: nat, delim: Text)
    requires pos <= |s| && Clear(s, 0, pos, delim)
    ensures Separators(s, delim) == Separators(s[pos..], delim)
    decreases pos
  {
    if pos > 0 {
      SeparatorsAfter(s[1..], pos - 1, delim);
      assert s[1..][pos - 1..] == s[pos..];
    } else {
      assert s[pos..] == s;
    }
  }

  /** The first section, its delimiter, and what is behind it. */
  lemma FirstSection(s: Text, pos: nat, delim: Text)
    requires pos < |s| && Clear(s, 0, pos, delim) && s[pos] in delim
    ensures Sections(s, delim) == [s[..pos]] + Sections(s[pos + 1..], delim)
    ensures Separators(s, delim) == [s[pos]] + Separators(s[pos + 1..], delim)
  {
    FirstIsFirst(s, delim, 0, pos);
    SeparatorsAfter(s, pos, delim);
    assert s[pos..][1..] == s[pos + 1..];
  }

  lemma OnlySection(s: Text, delim: Text)
    requires Clear(s, 0, |s|, delim)
    ensures Sections(s, delim) == [s] && Separators(s, delim) == [] && Joined([s], []) == s
  {
    FirstIsFirst(s, delim, 0, |s|);
    SeparatorsAfter(s, |s|, delim);
  }

  lemma JoinedStep(head: Text, separator: Byte, sections: seq<Text>, separators: Text)
    requires |sections| == |separators| + 1
    ensures Joined([head] + sections, [separator] + separators) == head + [separator] + Joined(sections, separators)
  {
    assert ([head] + sections)[1..] == sections && ([separator] + separators)[1..] == separators;
  }

  /** Splitting gives one section more than there are delimiters, none of them holds a delimiter,
      and putting the delimiters back between them restores the path. */
  lemma {:induction false} SplitThenJoin(s: Text, delim: Text)
    ensures |Sections(s, delim)| == |Separators(s, delim)| + 1
    ensures forall section <- Sections(s, delim) :: Clear(section, 0, |section|, delim)
    ensures Joined(Sections(s, delim), Separators(s, delim)) == s
    decreases |s|
  {
    hide Sections;
    hide Separators;
    hide Joined;
    var pos := FirstOf(s, delim, 0);
    if pos == |s| {
      OnlySection(s, delim);
    } else {
      var rest := s[pos + 1..];
      FirstSection(s, pos, delim);
      SplitThenJoin(rest, delim);
      JoinedStep(s[..pos], s[pos], Sections(rest, delim), Separators(rest, delim));
      assert s == s[..pos] + [s[pos]] + rest;
    }
  }

  /** What comes before the first delimiter is the first section. */
  lemma HeadIsSection(head: Text, separator: Byte, rest: Text, delim: Text)
    requires Clear(head, 0, |head|, delim) && separator in delim
    ensures var s := head + [separator] + rest;
      Sections(s, delim) == [head] + Sections(rest, delim)
      && Separators(s, delim) == [separator] + Separators(rest, delim)
  {
    var s := head + [separator] + rest;
    assert s[..|head|] == head && s[|head| + 1..] == rest;
    assert forall i :: 0 <= i < |head| ==> s[i] == head[i];
    FirstSection(s, |head|, delim);
  }

  /** Sections without delimiters come back from their path. */
  lemma {:induction false} JoinThenSplit(sections: seq<Text>, separators: Text, delim: Text)
    requires |sections| == |separators| + 1
    requires forall section <- sections :: Clear(section, 0, |section|, delim)
    requires forall separator <- separators :: separator in delim
    ensures Sections(Joined(sections, separators), delim) == sections
    ensures Separators(Joined(sections, separators), delim) == separators
    decreases |separators|
  {
    hide Sections;
    hide Separators;
    var head := sections[0];
    assert Clear(head, 0, |head|, delim);
    hide Clear;
    if separators == [] {
      OnlySection(head, delim);
    } else {
      JoinThenSplit(sections[1..], separators[1..], delim);
      HeadIsSection(head, separators[0], Joined(sections[1..], separators[1..]), delim);
    }
  }

  /** The sections from some position on. */
  lemma SectionsFrom(s: Text, start: nat, delim: Text)
    requires start <= |s|
    ensures var pos := FirstOf(s, delim, start);
      Sections(s[start..], delim)
      == if pos == |s| then [s[start..]] else [s[start..pos]] + Sections(s[pos + 1..], delim)
  {
    hide Sections;
    hide Separators;
    var pos := FirstOf(s, delim, start);
    if pos == |s| {
      OnlySection(s[start..], delim);
    } else {
      assert s[start..][pos - start] == s[pos];
      FirstSection(s[start..], pos - start, delim);
      assert s[start..][..pos - start] == s[start..pos] && s[start..][pos - start + 1..] == s[pos + 1..];
    }
  }

  method PathSplit(s: Text, delim: Text) returns (elems: seq<Text>)
    ensures elems == Sections(s, delim)
  {
    hide Sections;
    elems := [];
    var start := 0;
    assert s[0..] == s;
    while true
      invariant start <= |s|
      invariant Sections(s, delim) == elems + Sections(s[start..], delim)
      decreases |s| - start
    {
      SectionsFrom(s, start, delim);
      if start == |s| {
        assert s[start..] == [];
        return elems + [[]];
      }
      var pos := FirstOf(s, delim, start);
      assert pos == start ==> s[start..pos] == [];
      ghost var after := if pos < |s| then Sections(s[pos + 1..], delim) else [];
      assert elems + ([s[start..pos]] + after) == elems + [s[start..pos]] + after;
      if pos == start {
        elems := elems + [[]];
        start := start + 1;
      } else if pos < |s| {
        elems := elems + [s[start..pos]];
        start := pos + 1;
      } else {
        return elems + [s[start..]];
      }
    }
  }
}
