/** HSequence.cpp: the cache of answers over the rendezvous hash, with the power of two of bit.c
  that sizes it. The bit mask of a power of two is a remainder here. */
module HSequences {
  import opened Rendezvous

  const UINT8_MAX := 255
  const UINT16_MAX := 65535
  const INT32_MAX := 0x7FFF_FFFF
  const UINT32_MAX := 0xFFFF_FFFF
  const UINT64_LIMIT: int := 0x1_0000_0000_0000_0000

  function Power(n: nat): (r: nat)
    ensures r > 0
  {
    if n == 0 then 1 else 2 * Power(n - 1)
  }

  lemma {:induction false} PowerGrows(a: nat, b: nat)
    requires a <= b
    ensures Power(a) <= Power(b)
    ensures a < b ==> 2 * Power(a) <= Power(b)
    decreases b
  {
    if a < b {
      PowerGrows(a, b - 1);
    }
  }

  lemma {:induction false} PowerSum(a: nat, b: nat)
    ensures Power(a + b) == Power(a) * Power(b)
  {
    if a > 0 {
      PowerSum(a - 1, b);
    }
  }

  lemma PowerOf32()
    ensures Power(32) == UINT32_MAX + 1
  {
    PowerSum(2, 2);
    PowerSum(4, 4);
    PowerSum(8, 8);
    PowerSum(16, 16);
    assert Power(2) == 4;
  }

  /** The least power of two that is not below x. */
  ghost predicate IsCeiling(x: int, p: nat) {
    && x <= p && (exists r :: p == Power(r))
    && forall r :: x <= Power(r) ==> p <= Power(r)
  }

  /** The number of binary digits, one for zero. */
  function Digits(x: nat): nat {
    if x / 2 == 0 then 1 else 1 + Digits(x / 2)
  }

  lemma {:induction false} DigitsBound(x: nat)
    ensures x < Power(Digits(x))
    ensures x > 0 ==> Power(Digits(x)) <= 2 * x
  {
    if x / 2 != 0 {
      DigitsBound(x / 2);
    }
  }

  lemma CeilingOf(x: nat)
    requires x >= 2
    ensures IsCeiling(x, Power(Digits(x - 1)))
  {
    var r := Digits(x - 1);
    DigitsBound(x - 1);
    forall q: nat | x <= Power(q) ensures Power(r) <= Power(q) {
      if q < r {
        PowerGrows(q, r);
      } else {
        PowerGrows(r, q);
      }
    }
  }

  /** round_up_power_two on uintmax_t: the ceiling for everything from 2 up to where the sign bit
      sets in, but 2 for 1, and 0 for 0 and beyond the sign bit. */
  method RoundUpPowerTwo(x0: nat) returns (p: nat)
    requires x0 < UINT64_LIMIT
    ensures x0 == 0 || x0 >= UINT64_LIMIT / 2 ==> p == 0
    ensures x0 == 1 ==> p == 2
    ensures 2 <= x0 < UINT64_LIMIT / 2 ==> IsCeiling(x0, p) && p <= 2 * (x0 - 1)
    ensures p < UINT64_LIMIT
  {
    var r := 1;
    if x0 == 0 || x0 >= UINT64_LIMIT / 2 {
      return 0;
    }
    var x := (x0 - 1) / 2;
    while x != 0
      invariant r >= 1 && x >= 0
      invariant r + (if x == 0 then 0 else Digits(x)) == Digits(x0 - 1)
    {
      r := r + 1;
      x := x / 2;
    }
    p := Power(r);
    DigitsBound(x0 - 1);
    if x0 >= 2 {
      CeilingOf(x0);
    }
  }

  /** The uncached answer. */
  ghost predicate Answers(hs: HSeq, h: nat, x: nat) {
    IsTop(Scores(hs, h), [x]) && IsAnswer(hs, h, x)
  }

  lemma AnswerIsUnique(hs: HSeq, h: nat, x: nat, y: nat)
    requires Answers(hs, h, x) && Answers(hs, h, y)
    ensures x == y
  {
    TopIsPrefix(Scores(hs, h), [x], [y]);
    assert [x][0] == x && [y][0] == y;
  }

  class HSequence {
    const hs: HSeq
    const mask: nat
    var cacheU8: bool
    var cells: array?<nat>

    /** A cell is empty or holds the answer plus one, and what it holds fits its width. */
    ghost predicate Valid()
      reads this, cells
    {
      && |hs.items| > 0 && IsSound(hs)
      && (cells != null ==>
            && cells.Length == mask + 1
            && |hs.items| < (if cacheU8 then UINT8_MAX else UINT16_MAX)
            && forall h :: 0 <= h <= mask ==>
                 cells[h] <= |hs.items| && (cells[h] == 0 || Answers(hs, h, cells[h] - 1)))
    }

    constructor (hs: HSeq, keymask: nat)
      requires |hs.items| > 0 && IsSound(hs) && keymask <= UINT32_MAX
      ensures Valid() && this.hs == hs && mask <= UINT32_MAX && cells == null
      ensures keymask == 0 ==> mask == UINT32_MAX
      ensures keymask == 1 ==> mask == 1
      ensures keymask > 1 ==> IsCeiling(keymask, mask + 1)
    {
      this.hs := hs;
      var size := 0;
      if keymask != 0 {
        size := RoundUpPowerTwo(keymask);
      }
      cacheU8, cells := false, null;
      mask := if keymask != 0 then size - 1 else UINT32_MAX;
      new;
      PowerOf32();
      assert keymask > 1 ==> size <= Power(32);
    }

    /** enable_cache: cells of one or two bytes for every masked key, all empty, unless there are too
        many keys or buckets, or calloc fails. */
    method EnableCache(granted: bool) returns (enabled: bool)
      requires Valid()
      modifies this`cells, this`cacheU8
      ensures Valid() && enabled == (cells != null)
      ensures old(cells) == null ==>
        (enabled <==> mask <= INT32_MAX && |hs.items| < UINT16_MAX && granted) && (enabled ==> fresh(cells))
      ensures old(cells) != null ==> unchanged(this)
    {
      if cells == null && mask <= INT32_MAX {
        var size := |hs.items|;
        if size < UINT8_MAX {
          cacheU8 := true;
          if granted {
            cells := new nat[mask + 1](_ => 0);
          }
        } else if size < UINT16_MAX {
          cacheU8 := false;
          if granted {
            cells := new nat[mask + 1](_ => 0);
          }
        }
      }
      return cells != null;
    }

    /** which: with or without the cache, and whatever was asked before, the answer for the masked
        key; the cell keeps it. */
    method Which(keyhash: nat) returns (answer: nat)
      requires Valid()
      modifies cells
      ensures Valid() && Answers(hs, keyhash % (mask + 1), answer)
    {
      hide IsTop;
      hide IsAnswer;
      hide IsSound;
      var h := keyhash % (mask + 1);
      if cells != null {
        var x := cells[h];
        if x == 0 {
          x := HashWhich(hs, h);
          x := x + 1;
          cells[h] := if cacheU8 then x % 256 else x % 65536;
        }
        return x - 1;
      }
      answer := HashWhich(hs, h);
    }
  }
}
