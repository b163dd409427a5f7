/** Bytes, C strings and the characters that the text formats below give a meaning to. */
module Bytes {
  type Byte = b: int | 0 <= b < 256

  type Text = seq<Byte>

  /** The bytes of a C string in front of its terminating NUL. */
  type CString = s: Text | 0 !in s witness []

  datatype Option<+T> = None | Some(value: T)

  const BACKSPACE: Byte := 0x08
  const TAB: Byte := 0x09
  const LINE_FEED: Byte := 0x0A
  const FORM_FEED: Byte := 0x0C
  const CARRIAGE_RETURN: Byte := 0x0D
  const SPACE: Byte := 0x20
  const QUOTE: Byte := 0x22
  const PLUS: Byte := 0x2B
  const COMMA: Byte := 0x2C
  const MINUS: Byte := 0x2D
  const DOT: Byte := 0x2E
  const DIGIT_0: Byte := 0x30
  const DIGIT_9: Byte := 0x39
  const COLON: Byte := 0x3A
  const UPPER_A: Byte := 0x41
  const UPPER_E: Byte := 0x45
  const UPPER_F: Byte := 0x46
  const UPPER_Z: Byte := 0x5A
  const LEFT_BRACKET: Byte := 0x5B
  const BACKSLASH: Byte := 0x5C
  const RIGHT_BRACKET: Byte := 0x5D
  const LOWER_A: Byte := 0x61
  const LOWER_B: Byte := 0x62
  const LOWER_E: Byte := 0x65
  const LOWER_F: Byte := 0x66
  const LOWER_N: Byte := 0x6E
  const LOWER_R: Byte := 0x72
  const LOWER_T: Byte := 0x74
  const LOWER_U: Byte := 0x75
  const LEFT_BRACE: Byte := 0x7B
  const RIGHT_BRACE: Byte := 0x7D

  /** C `isspace` in the "C" locale. */
  predicate IsSpace(b: Byte) {
    b == SPACE || 0x09 <= b <= 0x0D
  }

  predicate IsDigit(b: Byte) {
    DIGIT_0 <= b <= DIGIT_9
  }

  function Lower(b: Byte): Byte {
    if UPPER_A <= b <= UPPER_Z then b + 0x20 else b
  }

  /** The value of one hexadecimal digit, either case. */
  function HexDigit(b: Byte): (r: Option<int>)
    ensures r.Some? ==> 0 <= r.value < 16
  {
    if IsDigit(b) then Some(b - DIGIT_0)
    else if LOWER_A <= b <= LOWER_F then Some(b - LOWER_A + 10)
    else if UPPER_A <= b <= UPPER_F then Some(b - UPPER_A + 10)
    else None
  }

  /** The order of std::string: first differing byte, a proper prefix first. */
  predicate Before(a: Text, b: Text) {
    b != [] && (a == [] || a[0] < b[0] || (a[0] == b[0] && Before(a[1..], b[1..])))
  }

  /** Text a is a beginning of b, or is smaller than b in the first byte in which they differ. */
  ghost predicate Precedes(a: Text, b: Text) {
    (|a| < |b| && a == b[..|a|]) || exists k :: 0 <= k < |a| && k < |b| && a[..k] == b[..k] && a[k] < b[k]
  }

  lemma {:induction false} BeforeMeansPrecedes(a: Text, b: Text)
    ensures Before(a, b) <==> Precedes(a, b)
  {
    if a != [] && b != [] {
      if a[0] == b[0] {
        BeforeMeansPrecedes(a[1..], b[1..]);
        TailsPrecede(a, b);
      } else if a[0] < b[0] {
        assert a[..0] == b[..0];
      } else {
        assert forall k :: 0 < k < |a| && k < |b| ==> a[..k][0] != b[..k][0];
        assert |a| < |b| ==> b[..|a|][0] != a[0];
      }
    }
  }

  lemma TailsPrecede(a: Text, b: Text)
    requires a != [] && b != [] && a[0] == b[0]
    ensures Precedes(a, b) <==> Precedes(a[1..], b[1..])
  {
    if Precedes(a[1..], b[1..]) {
      if k :| 0 <= k < |a| - 1 && k < |b| - 1 && a[1..][..k] == b[1..][..k] && a[1..][k] < b[1..][k] {
        assert a[..k + 1] == [a[0]] + a[1..][..k] && b[..k + 1] == [b[0]] + b[1..][..k];
        assert a[k + 1] < b[k + 1];
      } else {
        assert a == [a[0]] + a[1..] && b[..|a|] == [b[0]] + b[1..][..|a| - 1];
      }
    }
    if Precedes(a, b) {
      if k :| 0 <= k < |a| && k < |b| && a[..k] == b[..k] && a[k] < b[k] {
        assert a[1..][..k - 1] == a[..k][1..] && b[1..][..k - 1] == b[..k][1..];
        assert a[1..][k - 1] < b[1..][k - 1];
      } else {
        assert b[1..][..|a| - 1] == b[..|a|][1..];
      }
    }
  }

  lemma {:induction false} BeforeIsTotal(a: Text, b: Text)
    ensures Before(a, b) || a == b || Before(b, a)
  {
    if a != [] && b != [] && a[0] == b[0] {
      BeforeIsTotal(a[1..], b[1..]);
      assert a == [a[0]] + a[1..] && b == [b[0]] + b[1..];
    }
  }

  lemma {:induction false} BeforeIsTransitive(a: Text, b: Text, c: Text)
    requires Before(a, b) && Before(b, c)
    ensures Before(a, c)
  {
    if a != [] && a[0] == b[0] && b[0] == c[0] {
      BeforeIsTransitive(a[1..], b[1..], c[1..]);
    }
  }

  lemma {:induction false} BeforeIsIrreflexive(a: Text)
    ensures !Before(a, a)
  {
    if a != [] {
      BeforeIsIrreflexive(a[1..]);
    }
  }
}
