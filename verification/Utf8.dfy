/** UTF-8 by RFC 3629: the encoder of section 3, the syntax of section 4, and the decoder. */
module Utf8 {
  import opened Bytes

  /** A Unicode scalar value: a code point that is no surrogate. */
  predicate IsScalar(c: int) {
    0 <= c < 0xD800 || 0xE000 <= c < 0x110000
  }

  /** RFC 3629, section 3: the octets of a code point. */
  function EncodeUtf8(c: int): (r: Text)
    requires 0 <= c < 0x110000
    ensures 1 <= |r| <= 4
  {
    if c < 0x80 then [c]
    else if c < 0x800 then [0xC0 + c / 0x40, 0x80 + c % 0x40]
    else if c < 0x10000 then [0xE0 + c / 0x1000, 0x80 + c / 0x40 % 0x40, 0x80 + c % 0x40]
    else [0xF0 + c / 0x40000, 0x80 + c / 0x1000 % 0x40, 0x80 + c / 0x40 % 0x40, 0x80 + c % 0x40]
  }

  predicate IsTail(b: Byte) {
    0x80 <= b <= 0xBF
  }

  /** RFC 3629, section 4: the length of the octet sequence of one character, 0 if there is none. */
  function CharacterLength(s: Text): (n: nat)
    ensures n <= 4 && n <= |s|
  {
    if s == [] then 0
    else if s[0] <= 0x7F then 1
    else if 0xC2 <= s[0] <= 0xDF then if |s| >= 2 && IsTail(s[1]) then 2 else 0
    else if 0xE0 <= s[0] <= 0xEF then
      if |s| >= 3 && IsTail(s[1]) && IsTail(s[2])
         && (s[0] == 0xE0 ==> 0xA0 <= s[1]) && (s[0] == 0xED ==> s[1] <= 0x9F) then 3 else 0
    else if 0xF0 <= s[0] <= 0xF4 then
      if |s| >= 4 && IsTail(s[1]) && IsTail(s[2]) && IsTail(s[3])
         && (s[0] == 0xF0 ==> 0x90 <= s[1]) && (s[0] == 0xF4 ==> s[1] <= 0x8F) then 4 else 0
    else 0
  }

  /** RFC 3629, section 4: a sequence of characters. */
  predicate WellFormedUtf8(s: Text) {
    s == [] || (CharacterLength(s) > 0 && WellFormedUtf8(s[CharacterLength(s)..]))
  }

  /** The octets of one character. */
  predicate IsCharacter(s: Text) {
    s != [] && CharacterLength(s) == |s|
  }

  /** The number of a character: the bits its octets carry. */
  function DecodeUtf8(s: Text): int
    requires IsCharacter(s)
  {
    var lead := s[0] as int;
    match |s|
    case 1 => lead
    case 2 => Appended(lead - 0xC0, s[1])
    case 3 => Appended(Appended(lead - 0xE0, s[1]), s[2])
    case _ => Appended(Appended(Appended(lead - 0xF0, s[1]), s[2]), s[3])
  }

  /** Six more bits. */
  function Appended(bits: int, tail: Byte): int {
    0x40 * bits + (tail as int - 0x80)
  }

  lemma SixBits(c: int)
    requires c >= 0
    ensures 0 <= c % 0x40 < 0x40 && c == 0x40 * (c / 0x40) + c % 0x40
    ensures c / 0x40 / 0x40 == c / 0x1000 && c / 0x1000 / 0x40 == c / 0x40000
  {
  }

  lemma DecodeUndoesEncode(c: int)
    requires IsScalar(c)
    ensures IsCharacter(EncodeUtf8(c)) && DecodeUtf8(EncodeUtf8(c)) == c
  {
    SixBits(c);
    SixBits(c / 0x40);
    SixBits(c / 0x1000);
    var s := EncodeUtf8(c);
    if c < 0x80 {
    } else if c < 0x800 {
      assert IsTail(s[1]);
    } else if c < 0x10000 {
      assert IsTail(s[1]) && IsTail(s[2]);
    } else {
      assert IsTail(s[1]) && IsTail(s[2]) && IsTail(s[3]);
    }
  }

  lemma LastSixBits(bits: int, tail: Byte)
    requires bits >= 0 && IsTail(tail)
    ensures Appended(bits, tail) / 0x40 == bits && 0x80 + Appended(bits, tail) % 0x40 == tail
  {
  }

  lemma EncodeUndoesDecode(s: Text)
    requires IsCharacter(s)
    ensures IsScalar(DecodeUtf8(s)) && EncodeUtf8(DecodeUtf8(s)) == s
  {
    var c := DecodeUtf8(s);
    if |s| == 2 {
      LastSixBits(s[0] as int - 0xC0, s[1]);
    } else if |s| == 3 {
      LastSixBits(s[0] as int - 0xE0, s[1]);
      LastSixBits(Appended(s[0] as int - 0xE0, s[1]), s[2]);
      SixBits(c);
    } else if |s| == 4 {
      LastSixBits(s[0] as int - 0xF0, s[1]);
      LastSixBits(Appended(s[0] as int - 0xF0, s[1]), s[2]);
      LastSixBits(Appended(Appended(s[0] as int - 0xF0, s[1]), s[2]), s[3]);
      SixBits(c);
      SixBits(c / 0x40);
    }
  }

  // ---------- texts ----------

  /** Only a character of one octet has an octet below 0x80. */
  lemma OctetsOfCharacter(s: Text)
    requires CharacterLength(s) > 0
    ensures CharacterLength(s) == 1 <==> s[0] < 0x80
    ensures CharacterLength(s) > 1 ==> forall i :: 0 <= i < CharacterLength(s) ==> s[i] >= 0x80
    ensures IsCharacter(s[..CharacterLength(s)])
  {
    var c := s[..CharacterLength(s)];
    assert forall i :: 0 <= i < |c| ==> c[i] == s[i];
  }

  lemma PrependCharacter(c: Text, rest: Text)
    requires IsCharacter(c) && WellFormedUtf8(rest)
    ensures WellFormedUtf8(c + rest)
  {
    var s := c + rest;
    assert forall i :: 0 <= i < |c| ==> s[i] == c[i];
    assert CharacterLength(s) == |c|;
    assert s[|c|..] == rest;
  }
}
