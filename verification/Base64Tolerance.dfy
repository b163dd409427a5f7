/** Which texts the tolerant decoder takes. */
module Base64Tolerance {
  import opened Bytes
  import opened Base64

  predicate IsLetter(b: Codec, c: Byte)
    requires Valid(b)
  {
    b.detab[c] < 64
  }

  /** Neither a letter nor the padding. */
  predicate Foreign(b: Codec, c: Byte)
    requires Valid(b)
  {
    b.detab[c] > 64
  }

  /** Where a foreign byte may stand. The first of a run of them may be anything, also when only
      white space is to be ignored. */
  predicate Permitted(b: Codec, text: CString, tolerance: Tolerance, i: nat)
    requires Valid(b) && i < |text|
  {
    match tolerance
    case Strict => false
    case IgnoreNonAlphabet => true
    case IgnoreSpace => IsSpace(text[i]) || i == 0 || !Foreign(b, text[i - 1])
  }

  /** How far the decoder looks: to the given length, but when that falls behind a permitted
      foreign byte then on through what is passed over, and to the byte behind. */
  function Reach(b: Codec, text: CString, len: int, tolerance: Tolerance): (r: nat)
    requires Valid(b)
    ensures r <= |text|
    ensures len < 0 || len >= |text| ==> r == |text|
  {
    if len < 0 || len > |text| then |text|
    else if len > 0 && Foreign(b, text[len - 1]) && Permitted(b, text, tolerance, len - 1) then
      var q := Skipped(b, text, tolerance, len);
      if q < |text| then q + 1 else q
    else len
  }

  /** The first padding character, or the given end. */
  function Stop(b: Codec, text: CString, pos: nat, end: nat): (r: nat)
    requires Valid(b) && pos <= end <= |text|
    ensures pos <= r <= end
    ensures forall i :: pos <= i < r ==> b.detab[text[i]] != 64
    ensures r < end ==> b.detab[text[r]] == 64
    decreases end - pos
  {
    if pos == end || b.detab[text[pos]] == 64 then pos else Stop(b, text, pos + 1, end)
  }

  /** The places in the alphabet of the letters among the bytes. */
  function LettersIn(b: Codec, s: Text): seq<Sextet>
    requires Valid(b)
  {
    if s == [] then []
    else (if IsLetter(b, s[0]) then [b.detab[s[0]]] else []) + LettersIn(b, s[1..])
  }

  /** Every foreign byte is permitted, or lies at the very end of the given length. */
  predicate Tolerated(b: Codec, text: CString, len: int, tolerance: Tolerance, pos: nat, end: nat)
    requires Valid(b) && end <= |text|
  {
    forall i :: pos <= i < end && Foreign(b, text[i]) ==> Permitted(b, text, tolerance, i) || !InReach(i + 1, len)
  }

  // ---------- runs of foreign bytes ----------

  lemma {:induction false} SkippedRun(b: Codec, text: CString, tolerance: Tolerance, pos: nat, i: nat)
    requires Valid(b) && pos <= |text| && pos <= i <= Skipped(b, text, tolerance, pos)
    ensures Skipped(b, text, tolerance, i) == Skipped(b, text, tolerance, pos)
    ensures i < Skipped(b, text, tolerance, pos) ==> Skips(b, tolerance, text[i])
    decreases i - pos
  {
    if pos < i {
      SkippedRun(b, text, tolerance, pos + 1, i);
    }
  }

  lemma {:induction false} SkippedEnds(b: Codec, text: CString, tolerance: Tolerance, pos: nat)
    requires Valid(b) && pos <= |text|
    ensures var q := Skipped(b, text, tolerance, pos); q < |text| ==> !Skips(b, tolerance, text[q])
    decreases |text| - pos
  {
    if pos < |text| && Skips(b, tolerance, text[pos]) {
      SkippedEnds(b, text, tolerance, pos + 1);
    }
  }

  /** Foreign bytes hold neither the stop nor a letter. */
  lemma {:induction false} RunIsPassed(b: Codec, text: CString, pos: nat, q: nat, end: nat)
    requires Valid(b) && pos <= q <= end <= |text| && forall i :: pos <= i < q ==> Foreign(b, text[i])
    ensures Stop(b, text, pos, end) == Stop(b, text, q, end)
    ensures LettersIn(b, text[pos..Stop(b, text, pos, end)]) == LettersIn(b, text[q..Stop(b, text, q, end)])
    decreases q - pos
  {
    if pos < q {
      RunIsPassed(b, text, pos + 1, q, end);
      var r := Stop(b, text, q, end);
      assert text[pos..r][1..] == text[pos + 1..r];
    }
  }

  /** Between letters: where the decoder's loop starts a turn. */
  predicate AtHead(b: Codec, text: CString, len: int, tolerance: Tolerance, pos: nat)
    requires Valid(b)
  {
    pos <= Reach(b, text, len, tolerance) && (pos == 0 || IsLetter(b, text[pos - 1]))
  }

  /** A run of foreign bytes that starts within the length, and the byte behind it. */
  ghost predicate IsRun(b: Codec, text: CString, len: int, tolerance: Tolerance, pos: nat, q: nat)
    requires Valid(b)
  {
    && pos < q <= |text| && (pos == 0 || IsLetter(b, text[pos - 1]))
    && tolerance != Strict && InReach(pos, len) && Foreign(b, text[pos])
    && q == Skipped(b, text, tolerance, pos + 1)
  }

  lemma RunIsPermitted(b: Codec, text: CString, len: int, tolerance: Tolerance, pos: nat, q: nat)
    requires Valid(b) && IsRun(b, text, len, tolerance, pos, q)
    ensures forall i :: pos <= i < q ==> Foreign(b, text[i]) && Permitted(b, text, tolerance, i)
    ensures q < |text| ==> !(Foreign(b, text[q]) && Permitted(b, text, tolerance, q))
  {
    forall i | pos <= i < q ensures Foreign(b, text[i]) && Permitted(b, text, tolerance, i) {
      if pos < i {
        SkippedRun(b, text, tolerance, pos + 1, i);
      }
    }
    SkippedEnds(b, text, tolerance, pos + 1);
  }

  /** The decoder looks at the whole run and the byte behind it, and no further when its length
      ends there. */
  lemma RunIsReached(b: Codec, text: CString, len: int, tolerance: Tolerance, pos: nat, q: nat)
    requires Valid(b) && IsRun(b, text, len, tolerance, pos, q)
    ensures var reach := Reach(b, text, len, tolerance);
      if q == |text| then reach == |text| else q < reach && (!InReach(q + 1, len) ==> reach == q + 1)
  {
    RunIsPermitted(b, text, len, tolerance, pos, q);
    if pos < len <= q {
      SkippedRun(b, text, tolerance, pos + 1, len);
    }
  }

  // ---------- the scan ----------

  /** The scan from a position gives the letters up to the stop, or refuses what is not tolerated. */
  ghost predicate ScansFrom(b: Codec, text: CString, len: int, tolerance: Tolerance, pos: nat)
    requires Valid(b) && pos <= Reach(b, text, len, tolerance)
  {
    var end, scanned := Stop(b, text, pos, Reach(b, text, len, tolerance)), Scan(b, text, len, tolerance, pos);
    && (scanned.refused <==> !Tolerated(b, text, len, tolerance, pos, end))
    && (!scanned.refused ==> scanned.sextets == LettersIn(b, text[pos..end]))
  }

  /** A run behind which no letter stands stops the decoder. */
  lemma RunStops(b: Codec, text: CString, len: int, tolerance: Tolerance, pos: nat, q: nat)
    requires Valid(b) && IsRun(b, text, len, tolerance, pos, q) && (q == |text| || !IsLetter(b, text[q]))
    ensures q <= Reach(b, text, len, tolerance) && ScansFrom(b, text, len, tolerance, pos)
  {
    RunIsReached(b, text, len, tolerance, pos, q);
    RunIsPermitted(b, text, len, tolerance, pos, q);
    hide Skipped;
    hide Permitted;
    var reach := Reach(b, text, len, tolerance);
    hide Reach;
    RunIsPassed(b, text, pos, q, reach);
    if q < |text| && Foreign(b, text[q]) {
      assert b.alphabet[64] != text[q];
      assert Stop(b, text, q, reach) > q;
      assert reach == q + 1 ==> text[q..reach] == [text[q]] && LettersIn(b, [text[q]]) == [];
    }
  }

  lemma ScanPastRun(b: Codec, text: CString, len: int, tolerance: Tolerance, pos: nat, q: nat)
    requires Valid(b) && IsRun(b, text, len, tolerance, pos, q) && q < |text| && IsLetter(b, text[q])
    ensures Scan(b, text, len, tolerance, pos) == Read(b.detab[text[q]], Scan(b, text, len, tolerance, q + 1))
  {
    hide Skipped;
  }

  /** A run in front of a letter is passed over. */
  lemma RunGoesOn(b: Codec, text: CString, len: int, tolerance: Tolerance, pos: nat, q: nat)
    requires Valid(b) && IsRun(b, text, len, tolerance, pos, q) && q < |text| && IsLetter(b, text[q])
    requires q < Reach(b, text, len, tolerance) && ScansFrom(b, text, len, tolerance, q + 1)
    ensures ScansFrom(b, text, len, tolerance, pos)
  {
    hide Scan;
    hide Skipped;
    hide Permitted;
    RunIsPermitted(b, text, len, tolerance, pos, q);
    ScanPastRun(b, text, len, tolerance, pos, q);
    var reach := Reach(b, text, len, tolerance);
    hide Reach;
    RunIsPassed(b, text, pos, q, reach);
    var end := Stop(b, text, q, reach);
    assert end == Stop(b, text, q + 1, reach);
    assert text[q..end][1..] == text[q + 1..end];
    assert LettersIn(b, text[q..end]) == [b.detab[text[q]]] + LettersIn(b, text[q + 1..end]);
    hide LettersIn;
    hide Stop;
  }

  lemma LetterGoesOn(b: Codec, text: CString, len: int, tolerance: Tolerance, pos: nat)
    requires Valid(b) && InReach(pos, len) && pos < |text| && IsLetter(b, text[pos])
    requires pos < Reach(b, text, len, tolerance) && ScansFrom(b, text, len, tolerance, pos + 1)
    ensures ScansFrom(b, text, len, tolerance, pos)
  {
    hide Permitted;
    var end := Stop(b, text, pos, Reach(b, text, len, tolerance));
    hide Reach;
    assert text[pos..end][1..] == text[pos + 1..end];
  }

  /** A foreign byte is an error for the strict decoder unless it is the last one of the length. */
  lemma StrictStops(b: Codec, text: CString, len: int, pos: nat)
    requires Valid(b) && InReach(pos, len) && pos < |text| && Foreign(b, text[pos])
    requires pos < Reach(b, text, len, Strict)
    ensures ScansFrom(b, text, len, Strict, pos)
  {
    var reach := Reach(b, text, len, Strict);
    assert Stop(b, text, pos, reach) > pos && b.alphabet[64] != text[pos];
    assert reach == pos + 1 ==> text[pos..reach] == [text[pos]] && LettersIn(b, [text[pos]]) == [];
  }

  lemma {:induction false} ScanIsDeclared(b: Codec, text: CString, len: int, tolerance: Tolerance, pos: nat)
    requires Valid(b) && AtHead(b, text, len, tolerance, pos)
    ensures ScansFrom(b, text, len, tolerance, pos)
    decreases |text| - pos
  {
    hide ScansFrom;
    if !InReach(pos, len) || pos == |text| || b.detab[text[pos]] == 64 {
      HeadStops(b, text, len, tolerance, pos);
    } else if IsLetter(b, text[pos]) {
      ScanIsDeclared(b, text, len, tolerance, pos + 1);
      LetterGoesOn(b, text, len, tolerance, pos);
    } else if tolerance == Strict {
      StrictStops(b, text, len, pos);
    } else {
      var q := Skipped(b, text, tolerance, pos + 1);
      if q == |text| || !IsLetter(b, text[q]) {
        RunStops(b, text, len, tolerance, pos, q);
      } else {
        RunIsReached(b, text, len, tolerance, pos, q);
        ScanIsDeclared(b, text, len, tolerance, q + 1);
        RunGoesOn(b, text, len, tolerance, pos, q);
      }
    }
  }

  /** The end of the length, of the text, or the padding. */
  lemma HeadStops(b: Codec, text: CString, len: int, tolerance: Tolerance, pos: nat)
    requires Valid(b) && AtHead(b, text, len, tolerance, pos)
    requires !InReach(pos, len) || pos == |text| || b.detab[text[pos]] == 64
    ensures ScansFrom(b, text, len, tolerance, pos)
  {
    if !InReach(pos, len) {
      LengthIsOver(b, text, len, tolerance, pos);
    } else if pos < |text| {
      assert text[pos] == b.alphabet[64] by {
        assert text[pos] in b.alphabet;
      }
    }
    assert text[pos..pos] == [];
  }

  lemma LengthIsOver(b: Codec, text: CString, len: int, tolerance: Tolerance, pos: nat)
    requires Valid(b) && AtHead(b, text, len, tolerance, pos) && !InReach(pos, len)
    ensures pos == Reach(b, text, len, tolerance)
  {
    if pos > len {
      SkippedRun(b, text, tolerance, len, pos - 1);
    }
  }

  // ---------- the decoder ----------

  /** What the decoder takes: the letters up to the padding or the end, when every foreign byte
      among them is tolerated and their sextets make whole bytes; nothing else decides. */
  lemma DecoderTakes(b: Codec, text: CString, len: int, tolerance: Tolerance)
    requires Valid(b)
    ensures var end := Stop(b, text, 0, Reach(b, text, len, tolerance));
      var letters := LettersIn(b, text[..end]);
      && (Decoding(b, text, len, tolerance).Output? <==>
            Tolerated(b, text, len, tolerance, 0, end) && Whole(letters))
      && (Decoding(b, text, len, tolerance).Output? ==> Decoding(b, text, len, tolerance).bytes == Octets(letters))
  {
    hide Tolerated;
    hide LettersIn;
    ScanIsDeclared(b, text, len, tolerance, 0);
    var end := Stop(b, text, 0, Reach(b, text, len, tolerance));
    assert text[0..end] == text[..end];
  }

  lemma LettersAreTaken(b: Codec, text: CString)
    requires Valid(b) && forall i :: 0 <= i < |text| ==> IsLetter(b, text[i])
    ensures Decoding(b, text, -1, IgnoreSpace).Output? <==> Whole(LettersIn(b, text))
    ensures Decoding(b, text, -1, IgnoreSpace).Output? ==>
      Decoding(b, text, -1, IgnoreSpace).bytes == Octets(LettersIn(b, text))
  {
    hide Decoding;
    hide LettersIn;
    DecoderTakes(b, text, -1, IgnoreSpace);
    assert Stop(b, text, 0, |text|) == |text|;
    assert text[..|text|] == text;
  }

  /** With white space to be ignored, a single byte of any other kind between letters is passed
      over too: the decoder takes the text as if the byte were not there. */
  lemma LoneForeignByteIsPassed(b: Codec, x: CString, c: Byte, y: CString)
    requires Valid(b) && c != 0 && Foreign(b, c)
    requires forall i :: 0 <= i < |x| ==> IsLetter(b, x[i])
    requires forall i :: 0 <= i < |y| ==> IsLetter(b, y[i])
    ensures var with, without := Decoding(b, x + [c] + y, -1, IgnoreSpace), Decoding(b, x + y, -1, IgnoreSpace);
      (with.Output? <==> without.Output?) && (with.Output? ==> with == without)
  {
    hide Decoding;
    hide LettersIn;
    var text: CString := x + [c] + y;
    DecoderTakes(b, text, -1, IgnoreSpace);
    LettersAreTaken(b, x + y);
    assert forall i :: 0 <= i < |x| ==> text[i] == x[i];
    assert forall i :: |x| < i < |text| ==> text[i] == y[i - |x| - 1];
    assert Stop(b, text, 0, |text|) == |text|;
    assert text[..|text|] == text;
    LettersWithout(b, x, c, y);
  }

  lemma {:induction false} LettersWithout(b: Codec, x: Text, c: Byte, y: Text)
    requires Valid(b) && Foreign(b, c)
    ensures LettersIn(b, x + [c] + y) == LettersIn(b, x + y)
  {
    if x == [] {
      assert x + [c] + y == [c] + y && x + y == y;
    } else {
      LettersWithout(b, x[1..], c, y);
      assert (x + [c] + y)[1..] == x[1..] + [c] + y && (x + y)[1..] == x[1..] + y;
    }
  }
}
