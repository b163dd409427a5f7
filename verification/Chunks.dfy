/** Byte strings cut into pieces: the flat string that a chain of blocks stands for, and the lines
  in it. */
module Chunks {
  import opened Bytes
  import opened Sequences

  function Flat(chunks: seq<Text>): Text {
    if chunks == [] then [] else chunks[0] + Flat(chunks[1..])
  }

  /** All blocks but the last are full. */
  predicate Packed(chunks: seq<Text>, capacity: nat) {
    && chunks != []
    && (forall i :: 0 <= i < |chunks| - 1 ==> |chunks[i]| == capacity)
    && |chunks[|chunks| - 1]| <= capacity
  }

  lemma {:induction false} FlatSum(a: seq<Text>, b: seq<Text>)
    ensures Flat(a + b) == Flat(a) + Flat(b)
  {
    if a == [] {
      assert a + b == b;
    } else {
      FlatSum(a[1..], b);
      assert (a + b)[1..] == a[1..] + b;
      Regroup(a[0], Flat(a[1..]), Flat(b));
    }
  }

  /** Bytes added to the last piece are added at the end. */
  lemma FlatGrow(chunks: seq<Text>, more: Text)
    requires chunks != []
    ensures var last := |chunks| - 1;
      var grown := chunks[last := chunks[last] + more];
      Flat(grown) == Flat(chunks) + more
      && forall capacity: nat :: Packed(chunks, capacity) && |grown[last]| <= capacity ==> Packed(grown, capacity)
  {
    var last := |chunks| - 1;
    FlatSum(chunks[..last], [chunks[last]]);
    FlatSum(chunks[..last], [chunks[last] + more]);
    assert chunks == chunks[..last] + [chunks[last]];
    assert chunks[last := chunks[last] + more] == chunks[..last] + [chunks[last] + more];
    assert forall x: Text :: Flat([x]) == x + Flat([x][1..]);
  }

  /** A new empty piece changes nothing once the last one is full. */
  lemma PackedGrow(chunks: seq<Text>, capacity: nat)
    requires Packed(chunks, capacity) && |chunks[|chunks| - 1]| == capacity
    ensures Packed(chunks + [[]], capacity) && Flat(chunks + [[]]) == Flat(chunks)
  {
    FlatSum(chunks, [[]]);
  }

  lemma FlatOne(x: Text)
    ensures Flat([x]) == x
  {
    assert Flat([x][1..]) == [];
  }

  lemma FlatTail(chunks: seq<Text>, i: nat)
    requires i < |chunks|
    ensures Flat(chunks[i..]) == chunks[i] + Flat(chunks[i + 1..])
  {
    assert chunks[i..][1..] == chunks[i + 1..];
  }

  lemma FlatHead(chunks: seq<Text>, i: nat)
    requires i < |chunks|
    ensures Flat(chunks[..i + 1]) == Flat(chunks[..i]) + chunks[i]
  {
    hide Flat;
    FlatOne(chunks[i]);
    FlatSum(chunks[..i], [chunks[i]]);
    assert chunks[..i + 1] == chunks[..i] + [chunks[i]];
  }

  /** The piece i in the whole, with what comes before and after. */
  lemma FlatAt(chunks: seq<Text>, i: nat)
    requires i < |chunks|
    ensures Flat(chunks) == Flat(chunks[..i]) + chunks[i] + Flat(chunks[i + 1..])
    ensures Flat(chunks[..i + 1]) == Flat(chunks[..i]) + chunks[i]
    ensures Flat(chunks[i..]) == chunks[i] + Flat(chunks[i + 1..])
  {
    hide Flat;
    FlatTail(chunks, i);
    FlatHead(chunks, i);
    FlatSum(chunks[..i], chunks[i..]);
    assert chunks == chunks[..i] + chunks[i..];
    Regroup(Flat(chunks[..i]), chunks[i], Flat(chunks[i + 1..]));
  }

  /** The full pieces in front make up the capacity each. */
  lemma {:induction false} FlatFront(chunks: seq<Text>, capacity: nat, i: nat)
    requires Packed(chunks, capacity) && i < |chunks|
    ensures |Flat(chunks[..i])| == i * capacity
  {
    if i > 0 {
      FlatFront(chunks, capacity, i - 1);
      FlatHead(chunks, i - 1);
      assert i * capacity == (i - 1) * capacity + capacity;
      hide Flat;
    }
  }

  /** The number of bytes in front of piece i. */
  function Base(chunks: seq<Text>, i: nat): nat
    requires i <= |chunks|
  {
    |Flat(chunks[..i])|
  }

  lemma BaseStep(chunks: seq<Text>, i: nat)
    requires i < |chunks|
    ensures Base(chunks, i + 1) == Base(chunks, i) + |chunks[i]| <= |Flat(chunks)|
    ensures Base(chunks, |chunks|) == |Flat(chunks)| && Base(chunks, 0) == 0
  {
    FlatAt(chunks, i);
    assert chunks[..|chunks|] == chunks;
  }

  /** The bytes of piece i, found in the whole. */
  lemma SliceAt(chunks: seq<Text>, i: nat, from: nat, to: nat)
    requires i < |chunks| && from <= to <= |chunks[i]|
    ensures Base(chunks, i) + to <= |Flat(chunks)|
    ensures Flat(chunks)[Base(chunks, i) + from..Base(chunks, i) + to] == chunks[i][from..to]
  {
    FlatAt(chunks, i);
    hide Flat;
  }

  /** The bytes in use come first in the whole room of the blocks. */
  lemma {:induction false} FlatPrefix(chunks: seq<Text>, rooms: seq<Text>, capacity: nat)
    requires Packed(chunks, capacity) && |rooms| == |chunks|
    requires forall i :: 0 <= i < |rooms| ==> |rooms[i]| == capacity && rooms[i][..|chunks[i]|] == chunks[i]
    ensures |Flat(chunks)| <= |Flat(rooms)| && Flat(rooms)[..|Flat(chunks)|] == Flat(chunks)
  {
    if |chunks| == 1 {
      assert Flat(chunks[1..]) == [];
    } else {
      assert chunks[0] == rooms[0];
      FlatPrefix(chunks[1..], rooms[1..], capacity);
    }
  }

  // ---------- lines ----------

  predicate IsBreak(b: Byte) {
    b == LINE_FEED || b == CARRIAGE_RETURN
  }

  predicate Unbroken(s: Text) {
    forall i :: 0 <= i < |s| ==> !IsBreak(s[i])
  }

  /** The text ends inside a line. */
  predicate Open(s: Text) {
    s != [] && !IsBreak(s[|s| - 1])
  }

  /** The last line goes on. */
  function Extended(lines: seq<Text>, run: Text): (r: seq<Text>)
    requires lines != []
    ensures |r| == |lines|
  {
    lines[..|lines| - 1] + [lines[|lines| - 1] + run]
  }

  /** The runs of bytes between line breaks, the empty ones left out. */
  function Lines(s: Text): (r: seq<Text>)
    ensures Open(s) ==> r != []
    decreases |s|
  {
    if s == [] then []
    else
      var front, b := s[..|s| - 1], s[|s| - 1];
      if IsBreak(b) then Lines(front)
      else if Open(front) then Extended(Lines(front), [b])
      else Lines(front) + [[b]]
  }

  lemma LinesStep(s: Text, b: Byte)
    ensures Lines(s + [b]) ==
      if IsBreak(b) then Lines(s) else if Open(s) then Extended(Lines(s), [b]) else Lines(s) + [[b]]
    ensures Open(s + [b]) <==> !IsBreak(b)
  {
    assert (s + [b])[..|s|] == s;
  }

  lemma ExtendTwice(lines: seq<Text>, a: Text, b: Text)
    requires lines != []
    ensures Extended(Extended(lines, a), b) == Extended(lines, a + b)
  {
    Regroup(lines[|lines| - 1], a, b);
  }

  lemma ExtendNew(lines: seq<Text>, a: Text, b: Text)
    ensures Extended(lines + [a], b) == lines + [a + b]
  {
    assert (lines + [a])[..|lines|] == lines;
  }

  /** A run without a break either goes on with the last line or makes a new one. */
  lemma {:induction false} LinesGrow(s: Text, run: Text)
    requires run != [] && Unbroken(run)
    ensures Open(s + run)
    ensures Lines(s + run) == if Open(s) then Extended(Lines(s), run) else Lines(s) + [run]
    decreases |run|
  {
    hide Lines;
    hide Open;
    hide Extended;
    var front, b := run[..|run| - 1], run[|run| - 1];
    assert run == front + [b];
    assert s + run == s + front + [b];
    LinesStep(s + front, b);
    if front == [] {
      assert s + front == s;
    } else {
      LinesGrow(s, front);
      hide Unbroken;
      if Open(s) {
        ExtendTwice(Lines(s), front, [b]);
      } else {
        ExtendNew(Lines(s), front, [b]);
      }
    }
  }

  lemma OneLine(s: Text)
    requires Unbroken(s)
    ensures Lines(s) == if s == [] then [] else [s]
  {
    if s == [] {
    } else {
      assert Lines([]) == [] && !Open([]);
      hide *;
      LinesGrow([], s);
      assert [] + s == s;
      assert [] + [s] == [s];
    }
  }

  lemma ExtendSum(a: seq<Text>, b: seq<Text>, run: Text)
    requires b != []
    ensures Extended(a + b, run) == a + Extended(b, run)
  {
    assert (a + b)[..|a + b| - 1] == a + b[..|b| - 1];
  }

  /** One more byte behind a text whose lines end with those of another. */
  lemma PartStep(x: Text, lines: seq<Text>, front: Text, last: Byte)
    requires Lines(x) == lines + Lines(front) && (Open(x) <==> Open(front))
    ensures Lines(x + [last]) == lines + Lines(front + [last])
    ensures Open(x + [last]) <==> Open(front + [last])
  {
    hide Lines;
    hide Open;
    hide Extended;
    LinesStep(x, last);
    LinesStep(front, last);
    if Open(front) {
      ExtendSum(lines, Lines(front), [last]);
    } else {
      Regroup(lines, Lines(front), [[last]]);
    }
  }

  lemma {:induction false} LinesBehindBreak(s: Text, b: Byte, t: Text)
    requires IsBreak(b)
    ensures Lines(s + [b] + t) == Lines(s) + Lines(t)
    ensures Open(s + [b] + t) <==> Open(t)
    decreases |t|
  {
    if t == [] {
      assert Lines(t) == [] && !Open(t);
      hide Lines;
      LinesStep(s, b);
      assert s + [b] + t == s + [b];
    } else {
      hide *;
      var front, last := t[..|t| - 1], t[|t| - 1];
      LinesBehindBreak(s, b, front);
      PartStep(s + [b] + front, Lines(s), front, last);
      assert t == front + [last];
      assert s + [b] + t == s + [b] + front + [last];
    }
  }

  lemma NothingBreaks(s: Text)
    requires 0x0A !in s && 0x0D !in s
    ensures Unbroken(s)
  {
  }

  /** Lines are what stands between the breaks: a text without a break is one line, unless it is
      empty, and a break parts the lines before it from those after it. */
  lemma LinesArePartedByBreaks(s: Text, b: Byte, t: Text)
    requires b == 0x0A || b == 0x0D
    ensures Lines(s + [b] + t) == Lines(s) + Lines(t)
    ensures 0x0A !in s && 0x0D !in s ==> Lines(s) == if s == [] then [] else [s]
    ensures Open(s + [b] + t) <==> Open(t)
  {
    hide Lines;
    hide Open;
    hide Unbroken;
    LinesBehindBreak(s, b, t);
    if 0x0A !in s && 0x0D !in s {
      NothingBreaks(s);
      OneLine(s);
    }
  }

  lemma Adjacent(s: Text, a: nat, b: nat, c: nat)
    requires a <= b <= c <= |s|
    ensures s[a..b] + s[b..c] == s[a..c]
  {
  }

  /** A break behind a stretch of text ends its last line. */
  lemma BreakEnds(s: Text, start: nat, p: nat)
    requires start <= p < |s| && IsBreak(s[p])
    ensures Lines(s[start..p + 1]) == Lines(s[start..p]) && !Open(s[start..p + 1])
  {
    assert s[start..p + 1] == s[start..p] + [s[p]];
    LinesStep(s[start..p], s[p]);
  }

  lemma UnbrokenGrow(s: Text, from: nat, p: nat)
    requires from <= p < |s| && Unbroken(s[from..p]) && !IsBreak(s[p])
    ensures Unbroken(s[from..p + 1])
  {
    assert s[from..p + 1] == s[from..p] + [s[p]];
  }

  lemma NothingYet(s: Text, p: nat)
    requires p <= |s|
    ensures Lines(s[p..p]) == [] && !Open(s[p..p])
  {
  }

  lemma UnbrokenEmpty(s: Text, p: nat)
    requires p <= |s|
    ensures Unbroken(s[p..p])
  {
  }

  /** A run behind a stretch of text leaves its last line open. */
  lemma RunGoesOn(s: Text, start: nat, from: nat, to: nat)
    requires start <= from < to <= |s| && Unbroken(s[from..to])
    ensures Open(s[start..to])
    ensures Lines(s[start..to]) == if Open(s[start..from]) then Extended(Lines(s[start..from]), s[from..to])
                                   else Lines(s[start..from]) + [s[from..to]]
  {
    Adjacent(s, start, from, to);
    LinesGrow(s[start..from], s[from..to]);
  }

  lemma ExtendBehind(a: seq<Text>, lines: seq<Text>, run: Text, open: bool)
    requires open ==> lines != []
    ensures (if open then Extended(a + lines, run) else a + lines + [run])
         == a + if open then Extended(lines, run) else lines + [run]
  {
    if open {
      ExtendSum(a, lines, run);
    }
  }
}
