/** The streaming part that md5.c, sha1.c and sha256.c have in common: the buffer of 64 bytes, the
  two words that count, and the padding. The compression of a block is a parameter. */
module Digests {
  import opened Bytes
  import opened Sequences

  const BLOCK := 64
  const WORD: int := 0x1_0000_0000
  const TWO_WORDS: int := 0x1_0000_0000_0000_0000

  // ---------- what a digest is ----------

  /** The compressions of the full blocks of a message, one after the other. */
  function Fold<S>(compress: (S, Text) -> S, state: S, m: Text): S
    decreases |m|
  {
    if |m| < BLOCK then state else Fold(compress, compress(state, m[..BLOCK]), m[BLOCK..])
  }

  /** The bytes behind the full blocks. */
  function Rest(m: Text): Text {
    m[|m| - |m| % BLOCK..]
  }

  /** The k low bytes of a number, the lowest first. */
  function LowFirst(n: nat, k: nat): (r: Text)
    ensures |r| == k
  {
    if k == 0 then [] else [n % 256] + LowFirst(n / 256, k - 1)
  }

  /** The two byte orders: MD5 stores the low byte first, SHA the high one. */
  function Stored(n: nat, k: nat, bigEndian: bool): (r: Text)
    ensures |r| == k
  {
    if bigEndian then Reversed(LowFirst(n, k)) else LowFirst(n, k)
  }

  function Zeros(n: nat): (r: Text)
    ensures |r| == n
  {
    if n == 0 then [] else [0] + Zeros(n - 1)
  }

  /** The bytes that the padding adds in front of the length: one to 64. */
  function PadCount(length: nat): nat {
    var last := length % BLOCK;
    if last < 56 then 56 - last else 120 - last
  }

  /** The padded message: a one bit, zeros up to eight bytes before a block ends, and the number of
      bits modulo 2^64 (RFC 1321, sections 3.1 and 3.2). */
  function Padded(m: Text, bigEndian: bool): Text {
    m + [0x80] + Zeros(PadCount(|m|) - 1) + Stored(Wrapped(|m| * 8), 8, bigEndian)
  }

  lemma {:induction false} FoldSum<S>(compress: (S, Text) -> S, state: S, a: Text, b: Text)
    requires |a| % BLOCK == 0
    ensures Fold(compress, state, a + b) == Fold(compress, Fold(compress, state, a), b)
    decreases |a|
  {
    if a == [] {
      assert a + b == b;
    } else {
      assert |a| >= BLOCK;
      FoldSum(compress, compress(state, a[..BLOCK]), a[BLOCK..], b);
      assert (a + b)[..BLOCK] == a[..BLOCK] && (a + b)[BLOCK..] == a[BLOCK..] + b;
    }
  }

  /** The full blocks of a message. */
  function Front(m: Text): Text {
    m[..|m| - |m| % BLOCK]
  }

  lemma FrontAndRest(m: Text)
    ensures m == Front(m) + Rest(m) && |Front(m)| % BLOCK == 0 && |Rest(m)| == |m| % BLOCK < BLOCK == 64
  {
  }

  lemma OpenRest(n: nat, r: nat)
    requires n % BLOCK == 0 && r < BLOCK
    ensures (n + r) % BLOCK == r && (n + BLOCK) % BLOCK == 0
  {
  }

  lemma FoldOne<S>(compress: (S, Text) -> S, state: S, block: Text)
    ensures |block| == BLOCK ==> Fold(compress, state, block) == compress(state, block)
    ensures |block| < BLOCK ==> Fold(compress, state, block) == state
  {
    if |block| == BLOCK {
      assert block[..BLOCK] == block && block[BLOCK..] == [];
    }
  }

  lemma FoldFront<S>(compress: (S, Text) -> S, state: S, m: Text, more: Text)
    ensures Fold(compress, state, m) == Fold(compress, state, Front(m))
    ensures Fold(compress, state, m + more) == Fold(compress, Fold(compress, state, m), Rest(m) + more)
  {
    FrontAndRest(m);
    hide *;
    FoldSum(compress, state, Front(m), Rest(m));
    FoldOne(compress, Fold(compress, state, Front(m)), Rest(m));
    FoldSum(compress, state, Front(m), Rest(m) + more);
    assert Front(m) + Rest(m) + more == Front(m) + (Rest(m) + more);
  }

  /** Bytes that fill the last block complete it. */
  lemma FoldBlock<S>(compress: (S, Text) -> S, state: S, m: Text, more: Text)
    requires |Rest(m)| + |more| == BLOCK
    ensures Fold(compress, state, m + more) == compress(Fold(compress, state, m), Rest(m) + more)
    ensures |m + more| % BLOCK == 0
  {
    FrontAndRest(m);
    hide *;
    FoldFront(compress, state, m, more);
    FoldOne(compress, Fold(compress, state, m), Rest(m) + more);
    OpenRest(|Front(m)|, 0);
    assert |m + more| == |Front(m)| + BLOCK;
  }

  /** Fewer bytes than the last block lacks leave it open. */
  lemma FoldOpen<S>(compress: (S, Text) -> S, state: S, m: Text, more: Text)
    requires |Rest(m)| + |more| < BLOCK
    ensures Fold(compress, state, m + more) == Fold(compress, state, m)
    ensures Rest(m + more) == Rest(m) + more
  {
    FrontAndRest(m);
    hide *;
    FoldFront(compress, state, m, more);
    FoldOne(compress, Fold(compress, state, m), Rest(m) + more);
    RestIs(Front(m), Rest(m) + more);
    assert m + more == Front(m) + (Rest(m) + more);
  }

  lemma RestIs(front: Text, rest: Text)
    requires |front| % BLOCK == 0 && |rest| < BLOCK
    ensures Rest(front + rest) == rest
  {
    OpenRest(|front|, |rest|);
  }

  /** A number in two 32-bit words. */
  function Wrapped(n: nat): (r: nat)
    ensures r < TWO_WORDS
  {
    n % TWO_WORDS
  }

  lemma Modulo(k: nat, r: nat)
    requires r < TWO_WORDS
    ensures (k * TWO_WORDS + r) % TWO_WORDS == r
  {
  }

  lemma NoHighPart(total1: nat, length: nat)
    requires total1 < WORD
    ensures length % WORD >= length ==> (total1 + length / WORD) % WORD == total1
  {
  }

  /** The carry between the two words, as update computes it. */
  lemma CarryCounts(total0: nat, total1: nat, length: nat)
    requires total0 < WORD && total1 < WORD
    ensures var sum0 := (total0 + length % WORD) % WORD;
      var sum1 := (total1 + length / WORD) % WORD;
      var carried := if sum0 < length % WORD then (sum1 + 1) % WORD else sum1;
      carried * WORD + sum0 == Wrapped(total1 * WORD + total0 + length)
  {
    var len, high := length % WORD, length / WORD;
    var carry := if total0 + len >= WORD then 1 else 0;
    var sum := total1 + high + carry;
    assert total1 * WORD + total0 + length == sum * WORD + (total0 + len - carry * WORD);
    assert sum == sum / WORD * WORD + sum % WORD;
    Modulo(sum / WORD, sum % WORD * WORD + (total0 + len - carry * WORD));
  }

  lemma LowWord(total0: nat, total1: nat, n: nat)
    requires total1 * WORD + total0 == Wrapped(n)
    ensures total0 % BLOCK == n % BLOCK
  {
    assert n == n / TWO_WORDS * TWO_WORDS + total1 * WORD + total0;
    assert n == (n / TWO_WORDS * (TWO_WORDS / BLOCK) + total1 * (WORD / BLOCK)) * BLOCK + total0;
  }

  lemma CountSum(n: nat, length: nat)
    ensures Wrapped(Wrapped(n) + length) == Wrapped(n + length)
  {
    var sum := n % TWO_WORDS + length;
    assert n + length == (n / TWO_WORDS + sum / TWO_WORDS) * TWO_WORDS + sum % TWO_WORDS;
    Modulo(n / TWO_WORDS + sum / TWO_WORDS, sum % TWO_WORDS);
  }

  /** PUT_UINT32. */
  method Put(n: nat, bigEndian: bool) returns (bytes: Text)
    requires n < WORD
    ensures bytes == Stored(n, 4, bigEndian)
  {
    WordBytes(n);
    bytes := [n % 256, n / 0x100 % 256, n / 0x1_0000 % 256, n / 0x100_0000];
    ReversedFour(bytes);
    if bigEndian {
      bytes := [bytes[3], bytes[2], bytes[1], bytes[0]];
    }
  }

  lemma ReversedFour(s: Text)
    requires |s| == 4
    ensures Reversed(s) == [s[3], s[2], s[1], s[0]]
  {
    assert s[1..][1..] == s[2..] && s[2..][1..] == s[3..] && s[3..][1..] == [];
    assert Reversed(s[3..]) == [s[3]];
    assert Reversed(s[2..]) == [s[3], s[2]];
    assert Reversed(s[1..]) == [s[3], s[2], s[1]];
  }

  lemma LowFirstStep(n: nat, k: nat)
    ensures LowFirst(n, k + 1) == [n % 256] + LowFirst(n / 256, k)
  {
  }

  lemma WordBytes(n: nat)
    requires n < WORD
    ensures LowFirst(n, 4) == [n % 256, n / 0x100 % 256, n / 0x1_0000 % 256, n / 0x100_0000]
  {
    hide LowFirst;
    LowFirstStep(n, 3);
    LowFirstStep(n / 0x100, 2);
    LowFirstStep(n / 0x1_0000, 1);
    LowFirstStep(n / 0x100_0000, 0);
    assert n / 0x100 / 256 == n / 0x1_0000 && n / 0x1_0000 / 256 == n / 0x100_0000;
  }

  function Power(k: nat): nat {
    if k == 0 then 1 else 256 * Power(k - 1)
  }

  /** A byte goes from the low word, and the high word moves down behind it. */
  lemma WordStep(n: nat, low: nat, k: nat)
    ensures LowFirst(n * 256 + low, k + 1) == [low % 256] + LowFirst(n + low / 256, k)
  {
    assert (n * 256 + low) % 256 == low % 256 && (n * 256 + low) / 256 == n + low / 256;
  }

  /** A number below 256^j takes the j low bytes, and what is above it the others. */
  lemma {:induction false} LowFirstSplit(low: nat, high: nat, j: nat, k: nat)
    requires low < Power(j)
    ensures LowFirst(high * Power(j) + low, j + k) == LowFirst(low, j) + LowFirst(high, k)
  {
    if j == 0 {
      assert high * Power(0) + low == high;
    } else {
      var p: nat := Power(j - 1);
      Reassociated(high, p);
      assert low / 256 < p;
      LowFirstSplit(low / 256, high, j - 1, k);
      LowFirstStep(low, j - 1);
      WordStep(high * p, low, j - 1 + k);
      assert Power(j) == 256 * p;
      hide *;
      assert [low % 256] + (LowFirst(low / 256, j - 1) + LowFirst(high, k))
          == [low % 256] + LowFirst(low / 256, j - 1) + LowFirst(high, k);
    }
  }

  lemma Reassociated(a: nat, b: nat)
    ensures a * (256 * b) == a * b * 256
  {
  }

  /** Two words make the eight bytes of the number they stand for. */
  lemma WordsStored(low: nat, high: nat, bigEndian: bool)
    requires low < WORD
    ensures Stored(high * WORD + low, 8, bigEndian)
         == if bigEndian then Stored(high, 4, true) + Stored(low, 4, true)
            else Stored(low, 4, false) + Stored(high, 4, false)
  {
    assert Power(4) == WORD;
    LowFirstSplit(low, high, 4, 4);
    ReversedSum(LowFirst(low, 4), LowFirst(high, 4));
  }

  /** The two words of msglen are the number of bits. */
  lemma BitCount(total0: nat, total1: nat, n: nat)
    requires total0 < WORD && total1 < WORD && total1 * WORD + total0 == Wrapped(n)
    ensures var high := total0 / 0x2000_0000 + total1 * 8 % WORD;
      var low := total0 * 8 % WORD;
      high < WORD && high * WORD + low == Wrapped(n * 8)
  {
    var high, low := total0 / 0x2000_0000 + total1 * 8 % WORD, total0 * 8 % WORD;
    var k := total1 * 8 / WORD;
    assert total0 * 8 == total0 / 0x2000_0000 * WORD + low;
    assert total1 * 8 == k * WORD + total1 * 8 % WORD;
    assert total1 * 8 % WORD <= WORD - 8;
    assert n == n / TWO_WORDS * TWO_WORDS + total1 * WORD + total0;
    assert n * 8 == (n / TWO_WORDS * 8 + k) * TWO_WORDS + (high * WORD + low);
    Modulo(n / TWO_WORDS * 8 + k, high * WORD + low);
  }

  lemma {:induction false} ZerosPrefix(n: nat, k: nat)
    requires k <= n
    ensures Zeros(n)[..k] == Zeros(k)
  {
    if k > 0 {
      ZerosPrefix(n - 1, k - 1);
      assert Zeros(n)[..k] == [0] + Zeros(n - 1)[..k - 1];
    }
  }

  lemma PaddingPrefix(padn: nat)
    requires 0 < padn <= 64
    ensures ([0x80] + Zeros(63))[..padn] == [0x80] + Zeros(padn - 1)
  {
    ZerosPrefix(63, padn - 1);
    assert ([0x80] + Zeros(63))[..padn] == [0x80] + Zeros(63)[..padn - 1];
  }

  /** A padded message is a row of full blocks, and the padding is as short as it can be. */
  lemma PaddedIsWhole(m: Text, bigEndian: bool)
    ensures |Padded(m, bigEndian)| % BLOCK == 0
    ensures |m| + 9 <= |Padded(m, bigEndian)| < |m| + 9 + BLOCK
  {
    PadSum(|m|);
    hide Zeros;
    hide Stored;
    hide PadCount;
  }

  lemma PadSum(n: nat)
    ensures 1 <= PadCount(n) <= BLOCK && (n + PadCount(n) + 8) % BLOCK == 0
  {
    Multiple(n / BLOCK + 1);
    Multiple(n / BLOCK + 2);
    assert n == n / BLOCK * BLOCK + n % BLOCK;
  }

  lemma Multiple(k: nat)
    ensures (k * BLOCK) % BLOCK == 0
  {
  }

  function Value(bytes: Text): nat {
    if bytes == [] then 0 else bytes[0] + 256 * Value(bytes[1..])
  }

  lemma {:induction false} ValueOfLowFirst(n: nat, k: nat)
    requires n < Power(k)
    ensures Value(LowFirst(n, k)) == n
  {
    if k > 0 {
      assert n / 256 < Power(k - 1);
      ValueOfLowFirst(n / 256, k - 1);
      assert LowFirst(n, k)[1..] == LowFirst(n / 256, k - 1);
    }
  }

  lemma {:induction false} ReversedTwice(s: Text)
    ensures Reversed(Reversed(s)) == s
  {
    if s != [] {
      ReversedTwice(s[1..]);
      ReversedSum(Reversed(s[1..]), [s[0]]);
      assert Reversed([s[0]]) == [s[0]];
    }
  }

  lemma StoredIsInjective(a: nat, b: nat, k: nat, bigEndian: bool)
    requires a < Power(k) && b < Power(k) && Stored(a, k, bigEndian) == Stored(b, k, bigEndian)
    ensures a == b
  {
    ReversedTwice(LowFirst(a, k));
    ReversedTwice(LowFirst(b, k));
    ValueOfLowFirst(a, k);
    ValueOfLowFirst(b, k);
  }

  lemma PaddedParts(m: Text, bigEndian: bool)
    ensures var p := Padded(m, bigEndian);
      |p| >= |m| + 8 && p[..|m|] == m && p[|p| - 8..] == Stored(Wrapped(|m| * 8), 8, bigEndian)
  {
    hide Stored;
    hide Zeros;
    hide Wrapped;
  }

  /** Messages whose bits can be counted in two words are told apart by their padded forms. */
  lemma PaddingIsInjective(a: Text, b: Text, bigEndian: bool)
    requires |a| * 8 < TWO_WORDS && |b| * 8 < TWO_WORDS
    requires Padded(a, bigEndian) == Padded(b, bigEndian)
    ensures a == b
  {
    PaddedParts(a, bigEndian);
    PaddedParts(b, bigEndian);
    hide Padded;
    hide Stored;
    assert Power(8) == TWO_WORDS;
    StoredIsInjective(|a| * 8, |b| * 8, 8, bigEndian);
  }

  // ---------- byte by byte ----------

  lemma QuotientIs(n: nat, d: nat, q: nat, r: nat)
    requires d > 0 && n == d * q + r && r < d
    ensures n / d == q
  {
    var e := n / d;
    Euclid(n, d);
    if e < q {
      Product(d, e + 1, q);
    } else if e > q {
      Product(d, q + 1, e);
    }
  }

  lemma Euclid(n: nat, d: nat)
    requires d > 0
    ensures n == d * (n / d) + n % d && n % d < d
  {
  }

  lemma Product(d: nat, x: nat, y: nat)
    requires x <= y
    ensures d * x <= d * y
    ensures x > 0 ==> d * (x - 1) == d * x - d
  {
  }

  lemma TwoQuotients(n: nat, b: nat)
    requires b > 0
    ensures n / 256 / b == n / (256 * b)
  {
    var (q, r) := (n / 256, n % 256);
    var (t, s) := (q / b, q % b);
    Euclid(q, b);
    assert n == 256 * (b * t + s) + r;
    assert 256 * (b * t) == 256 * b * t;
    QuotientIs(n, 256 * b, t, 256 * s + r);
  }

  /** The i-th byte of a number from the low end. */
  lemma {:induction false} LowFirstAt(n: nat, k: nat, i: nat)
    requires i < k
    ensures Power(i) > 0 && LowFirst(n, k)[i] == n / Power(i) % 256
    decreases k
  {
    if i > 0 {
      LowFirstAt(n / 256, k - 1, i - 1);
      TwoQuotients(n, Power(i - 1));
    }
  }

  lemma StoredAt(n: nat, k: nat, bigEndian: bool, i: nat)
    requires i < k
    ensures var place := if bigEndian then k - 1 - i else i;
      Power(place) > 0 && Stored(n, k, bigEndian)[i] == n / Power(place) % 256
  {
    if bigEndian {
      ReversedAt(LowFirst(n, k), i);
      LowFirstAt(n, k, k - 1 - i);
    } else {
      LowFirstAt(n, k, i);
    }
  }

  lemma {:induction false} ZerosAt(n: nat, i: nat)
    requires i < n
    ensures Zeros(n)[i] == 0
  {
    if i > 0 {
      ZerosAt(n - 1, i - 1);
    }
  }

  /** Every byte of a padded message: behind the message a byte 0x80, then zeros, and in the last
      eight bytes the number of bits modulo 2^64 in the byte order of the digest. */
  lemma PaddedAt(m: Text, bigEndian: bool, i: nat)
    requires i < |Padded(m, bigEndian)|
    ensures var p := Padded(m, bigEndian);
      var k := i - (|p| - 8);
      var place := if bigEndian then 7 - k else k;
      if i < |m| then p[i] == m[i]
      else if i == |m| then p[i] == 0x80
      else if k < 0 then p[i] == 0
      else Power(place) > 0 && p[i] == |m| * 8 % TWO_WORDS / Power(place) % 256
  {
    hide Stored;
    hide Zeros;
    hide Power;
    var p, zeros := Padded(m, bigEndian), PadCount(|m|) - 1;
    PadSum(|m|);
    hide PadCount;
    var length := Stored(Wrapped(|m| * 8), 8, bigEndian);
    assert |p| == |m| + 1 + zeros + 8;
    if i > |m| && i < |p| - 8 {
      ZerosAt(zeros, i - |m| - 1);
    } else if i >= |p| - 8 {
      StoredAt(Wrapped(|m| * 8), 8, bigEndian, i - (|p| - 8));
      assert p[i] == length[i - (|p| - 8)];
    }
  }

  // ---------- the context ----------

  class Context<S> {
    const compress: (S, Text) -> S
    const start: S
    var total0: nat
    var total1: nat
    var state: S
    const buffer: array<Byte>
    ghost var message: Text

    /** The context depends on the bytes it has got, and not on how they came. */
    ghost predicate Valid()
      reads this, buffer
    {
      && buffer.Length == BLOCK
      && total0 < WORD && total1 < WORD
      && total1 * WORD + total0 == Wrapped(|message|)
      && state == Fold(compress, start, message)
      && |Rest(message)| < BLOCK && buffer[..|Rest(message)|] == Rest(message)
    }

    constructor (compress: (S, Text) -> S, start: S)
      ensures Valid() && message == [] && fresh(buffer)
      ensures this.compress == compress && this.start == start
    {
      this.compress, this.start := compress, start;
      total0, total1, state := 0, 0, start;
      buffer := new Byte[BLOCK](_ => 0);
      message := [];
    }

    /** The two words count on by a length, modulo 2^64. */
    method Count(length: nat)
      requires total0 < WORD && total1 < WORD
      modifies this`total0, this`total1
      ensures total0 < WORD && total1 < WORD
      ensures total1 * WORD + total0 == Wrapped(old(total1 * WORD + total0) + length)
    {
      CarryCounts(total0, total1, length);
      NoHighPart(total1, length);
      hide Wrapped;
      var len := length % WORD;
      if len < length {
        total1 := (total1 + length / WORD) % WORD;
      }
      total0 := (total0 + len) % WORD;
      if total0 < len {
        total1 := (total1 + 1) % WORD;
      }
    }

    /** memcpy into the buffer. */
    method Fill(at: nat, bytes: Text)
      requires buffer.Length == BLOCK && at + |bytes| <= BLOCK
      modifies buffer
      ensures buffer[..] == old(buffer[..at]) + bytes + old(buffer[at + |bytes|..])
    {
      forall i | 0 <= i < |bytes| {
        buffer[at + i] := bytes[i];
      }
    }

    method Process(block: Text)
      requires |block| == BLOCK
      modifies this`state
      ensures state == compress(old(state), block)
    {
      state := compress(state, block);
    }

    /** The buffered block is completed and processed. */
    method Complete(left: nat, head: Text, ghost before: Text)
      requires buffer.Length == BLOCK && left == |Rest(before)| && left + |head| == BLOCK
      requires buffer[..left] == Rest(before) && state == Fold(compress, start, before)
      modifies this`state, buffer
      ensures state == Fold(compress, start, before + head) && |before + head| % BLOCK == 0
    {
      hide Rest;
      hide Fold;
      Fill(left, head);
      assert buffer[..] == Rest(before) + head;
      Process(buffer[..]);
      FoldBlock(compress, start, before, head);
    }

    /** The loop over the blocks that need no buffer, and how far it came. */
    method ProcessBlocks(input: Text, from: nat, ghost before: Text) returns (done: nat)
      requires from <= |input| && state == Fold(compress, start, before + input[..from])
      requires |input| - from >= BLOCK ==> |before + input[..from]| % BLOCK == 0
      modifies this`state
      ensures from <= done <= |input| && |input| - done < BLOCK
      ensures done == from || (done >= from + BLOCK && |before + input[..done]| % BLOCK == 0)
      ensures state == Fold(compress, start, before + input[..done])
    {
      hide Fold;
      hide Rest;
      done := from;
      while |input| - done >= BLOCK
        invariant (done == from || done >= from + BLOCK) && done <= |input|
        invariant |input| - done >= BLOCK || done > from ==> |before + input[..done]| % BLOCK == 0
        invariant state == Fold(compress, start, before + input[..done])
      {
        ghost var so, block := before + input[..done], input[done..done + BLOCK];
        FrontAndRest(so);
        Process(input[done..done + BLOCK]);
        FoldBlock(compress, start, so, block);
        assert so + block == before + input[..done + BLOCK] && Rest(so) + block == block;
        done := done + BLOCK;
      }
    }

    /** The part of update that moves bytes. */
    method Absorb(start0: nat, input: Text, ghost before: Text)
      requires buffer.Length == BLOCK && start0 == |Rest(before)| < BLOCK
      requires buffer[..start0] == Rest(before) && state == Fold(compress, start, before)
      modifies this`state, buffer
      ensures state == Fold(compress, start, before + input)
      ensures |Rest(before + input)| < BLOCK && buffer[..|Rest(before + input)|] == Rest(before + input)
    {
      hide Fold;
      hide Rest;
      var left, done := start0, 0;
      var fill := BLOCK - left;
      assert before + input[..0] == before;
      FrontAndRest(before);
      if left != 0 && |input| >= fill {
        Complete(left, input[..fill], before);
        done := fill;
        left := 0;
      }
      done := ProcessBlocks(input, done, before);
      ghost var so := before + input[..done];
      assert so + input[done..] == before + input;
      FrontAndRest(so);
      FoldOpen(compress, start, so, input[done..]);
      if left != 0 {
        assert done == 0 && so == before;
      }
      assert |Rest(so)| == left;
      Keep(left, input[done..], so);
    }

    method Update(input: Text)
      requires Valid()
      modifies this, buffer
      ensures Valid() && message == old(message) + input
    {
      if input == [] {
        assert message + input == message;
        return;
      }
      hide Fold;
      hide Wrapped;
      ghost var before := message;
      LowWord(total0, total1, |before|);
      FrontAndRest(before);
      hide Rest;
      var left := total0 % BLOCK;
      Count(|input|);
      CountSum(|before|, |input|);
      Absorb(left, input, before);
      message := before + input;
      hide Valid;
      IsValid();
    }

    /** What is left of an input waits in the buffer. */
    method Keep(left: nat, tail: Text, ghost so: Text)
      requires buffer.Length == BLOCK && left == |Rest(so)| && left + |tail| < BLOCK
      requires buffer[..left] == Rest(so)
      modifies buffer
      ensures buffer[..left + |tail|] == Rest(so) + tail
    {
      hide Rest;
      if |tail| > 0 {
        Fill(left, tail);
      }
    }

    /** Pad and process: the state is then the digest of the padded message. */
    method Finish(bigEndian: bool)
      requires Valid()
      modifies this, buffer
      ensures Valid() && message == Padded(old(message), bigEndian)
      ensures state == Fold(compress, start, Padded(old(message), bigEndian))
    {
      hide Fold;
      hide Rest;
      hide Wrapped;
      hide Zeros;
      hide Stored;
      BitCount(total0, total1, |message|);
      LowWord(total0, total1, |message|);
      var high := total0 / 0x2000_0000 + total1 * 8 % WORD;
      var low := total0 * 8 % WORD;
      var lowBytes := Put(low, bigEndian);
      var highBytes := Put(high, bigEndian);
      var msglen := if bigEndian then highBytes + lowBytes else lowBytes + highBytes;
      WordsStored(low, high, bigEndian);
      var last := total0 % BLOCK;
      var padn := if last < 56 then 56 - last else 120 - last;
      PaddingPrefix(padn);
      ghost var before := message;
      Update(([0x80] + Zeros(63))[..padn]);
      Update(msglen);
      Regroup(before, [0x80], Zeros(padn - 1));
    }

    lemma IsValid()
      requires buffer.Length == BLOCK && total0 < WORD && total1 < WORD
      requires total1 * WORD + total0 == Wrapped(|message|)
      requires state == Fold(compress, start, message)
      requires |Rest(message)| <= BLOCK && buffer[..|Rest(message)|] == Rest(message)
      ensures Valid()
    {
    }
  }

  // ---------- the digest ----------

  type Word = n: nat | n < WORD

  /** The words of a state as bytes, in the order of the digest. */
  function Written(words: seq<Word>, bigEndian: bool): (r: Text)
    ensures |r| == 4 * |words|
  {
    if words == [] then [] else Written(words[..|words| - 1], bigEndian) + Stored(words[|words| - 1], 4, bigEndian)
  }

  /** md5_get, sha1_get and sha256_get: every word of the state is put behind those before it. */
  method Get(state: seq<Word>, bigEndian: bool) returns (digest: Text)
    ensures digest == Written(state, bigEndian)
  {
    hide Stored;
    digest := [];
    for i := 0 to |state|
      invariant digest == Written(state[..i], bigEndian)
    {
      var bytes := Put(state[i], bigEndian);
      digest := digest + bytes;
      assert state[..i + 1][..i] == state[..i];
    }
    assert state[..|state|] == state;
  }

  /** The words can be told from the digest. */
  lemma {:induction false} WrittenIsInjective(a: seq<Word>, b: seq<Word>, bigEndian: bool)
    requires |a| == |b| && Written(a, bigEndian) == Written(b, bigEndian)
    ensures a == b
  {
    hide Stored;
    if a != [] {
      var last := |a| - 1;
      var digest := Written(a, bigEndian);
      assert digest[..4 * last] == Written(a[..last], bigEndian) == Written(b[..last], bigEndian);
      assert digest[4 * last..] == Stored(a[last], 4, bigEndian) == Stored(b[last], 4, bigEndian);
      WrittenIsInjective(a[..last], b[..last], bigEndian);
      assert Power(4) == WORD;
      StoredIsInjective(a[last], b[last], 4, bigEndian);
      assert a == a[..last] + [a[last]] && b == b[..last] + [b[last]];
    }
  }

  /** md5_checksum, sha1_checksum and sha256_checksum: the digest of one message. */
  method Checksum(compress: (seq<Word>, Text) -> seq<Word>, start: seq<Word>, input: Text, bigEndian: bool)
    returns (digest: Text)
    ensures digest == Written(Fold(compress, start, Padded(input, bigEndian)), bigEndian)
  {
    hide Fold;
    hide Padded;
    hide Written;
    var ctx := new Context(compress, start);
    ctx.Update(input);
    assert [] + input == input;
    ctx.Finish(bigEndian);
    digest := Get(ctx.state, bigEndian);
  }

  /** Word i of the state stands in bytes 4i to 4i + 3 of the digest. */
  lemma {:induction false} WrittenAt(words: seq<Word>, bigEndian: bool, i: nat)
    requires i < |words|
    ensures Written(words, bigEndian)[4 * i..4 * i + 4] == Stored(words[i], 4, bigEndian)
    decreases |words|
  {
    hide Stored;
    var last := |words| - 1;
    if i < last {
      WrittenAt(words[..last], bigEndian, i);
      assert Written(words, bigEndian)[4 * i..4 * i + 4] == Written(words[..last], bigEndian)[4 * i..4 * i + 4];
    }
  }

  /** Every byte of a digest. */
  lemma DigestAt(words: seq<Word>, bigEndian: bool, j: nat)
    requires j < 4 * |words|
    ensures var place := if bigEndian then 3 - j % 4 else j % 4;
      Power(place) > 0 && Written(words, bigEndian)[j] == words[j / 4] / Power(place) % 256
  {
    hide Stored;
    hide Power;
    hide Written;
    WrittenAt(words, bigEndian, j / 4);
    StoredAt(words[j / 4], 4, bigEndian, j % 4);
    var i := j / 4;
    assert Written(words, bigEndian)[4 * i..4 * i + 4][j % 4] == Written(words, bigEndian)[j];
  }
}
