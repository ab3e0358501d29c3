/** Word-packed bitmaps (src/lib/kernel/bitmap.c).

    From the outside a bitmap is a sequence of booleans; inside it is an array of
    32-bit words.  Every operation is specified on the sequence. */
module Bitmaps {
  import opened Options

  /** Bits in an `unsigned long` on IA-32. */
  const ELEM_BITS: nat := 32

  // ----- 32-bit words and their bits -------------------------------------------

  function Pow2(k: nat): (p: nat)
    ensures p > 0
  {
    if k == 0 then 1 else 2 * Pow2(k - 1)
  }

  /** An `unsigned long`. */
  type Word = w: nat | w < Pow2(ELEM_BITS)

  /** Bit K of W, counting from the least significant. */
  predicate BitOf(w: nat, k: nat) {
    if k == 0 then w % 2 == 1 else BitOf(w / 2, k - 1)
  }

  /** Bitwise conjunction, disjunction, and conjunction with the complement. */
  function And(a: nat, b: nat): nat {
    if a == 0 || b == 0 then 0 else 2 * And(a / 2, b / 2) + (if a % 2 == 1 && b % 2 == 1 then 1 else 0)
  }

  function Or(a: nat, b: nat): nat {
    if a == 0 && b == 0 then 0 else 2 * Or(a / 2, b / 2) + (if a % 2 == 1 || b % 2 == 1 then 1 else 0)
  }

  function AndNot(a: nat, b: nat): nat {
    if a == 0 then 0 else 2 * AndNot(a / 2, b / 2) + (if a % 2 == 1 && b % 2 == 0 then 1 else 0)
  }

  lemma {:induction false} ZeroHasNoBits(j: nat)
    ensures !BitOf(0, j)
  {
    if j > 0 { ZeroHasNoBits(j - 1); }
  }

  lemma {:induction false} OrBits(a: nat, b: nat, j: nat)
    ensures BitOf(Or(a, b), j) == (BitOf(a, j) || BitOf(b, j))
    decreases j
  {
    if a == 0 && b == 0 {
      ZeroHasNoBits(j);
    } else if j > 0 {
      OrBits(a / 2, b / 2, j - 1);
    }
  }

  lemma {:induction false} AndNotBits(a: nat, b: nat, j: nat)
    ensures BitOf(AndNot(a, b), j) == (BitOf(a, j) && !BitOf(b, j))
    decreases j
  {
    if a == 0 {
      ZeroHasNoBits(j);
    } else if j > 0 {
      AndNotBits(a / 2, b / 2, j - 1);
    }
  }

  lemma {:induction false} PowerBits(k: nat, j: nat)
    ensures BitOf(Pow2(k), j) == (j == k)
  {
    if j == 0 {
    } else if k == 0 {
      ZeroHasNoBits(j - 1);
    } else {
      PowerBits(k - 1, j - 1);
    }
  }

  lemma {:induction false} AndPower(w: nat, k: nat)
    ensures And(w, Pow2(k)) != 0 <==> BitOf(w, k)
    decreases k
  {
    if w == 0 {
      ZeroHasNoBits(k);
    } else if k == 0 {
      assert And(w / 2, 0) == 0;
    } else {
      AndPower(w / 2, k - 1);
    }
  }

  lemma {:induction false} Bounded(a: nat, b: nat, n: nat)
    requires a < Pow2(n) && b < Pow2(n)
    ensures Or(a, b) < Pow2(n) && AndNot(a, b) < Pow2(n)
    decreases n
  {
    if n > 0 { Bounded(a / 2, b / 2, n - 1); }
  }

  lemma {:induction false} PowersGrow(k: nat, n: nat)
    requires k < n
    ensures Pow2(k) < Pow2(n)
  {
    if k < n - 1 { PowersGrow(k, n - 1); }
  }

  function ElemIdx(bitIdx: nat): nat {
    bitIdx / 32
  }

  function BitMask(bitIdx: nat): (m: Word)
    ensures m == Pow2(bitIdx % 32)
  {
    PowersGrow(bitIdx % 32, ELEM_BITS);
    Pow2(bitIdx % 32)
  }

  predicate BitOn(word: Word, bitIdx: nat) {
    And(word, BitMask(bitIdx)) != 0
  }

  function WithBit(word: Word, bitIdx: nat, value: bool): (w: Word)
  {
    Bounded(word, BitMask(bitIdx), ELEM_BITS);
    if value then Or(word, BitMask(bitIdx)) else AndNot(word, BitMask(bitIdx))
  }

  /** Setting or clearing one bit of a word changes that bit and no other. */
  lemma MaskEffect(word: Word, i: nat, value: bool, j: nat)
    ensures BitOn(WithBit(word, i, value), j) == if i % 32 == j % 32 then value else BitOn(word, j)
  {
    var m, k := BitMask(i), j % 32;
    AndPower(word, k);
    AndPower(WithBit(word, i, value), k);
    OrBits(word, m, k);
    AndNotBits(word, m, k);
    PowerBits(i % 32, k);
  }

  // ----- specification on sequences of bits ------------------------------------

  /** BITS with the CNT bits from START on set to VALUE. */
  function SetRange(bits: seq<bool>, start: nat, cnt: nat, value: bool): (r: seq<bool>)
    requires start + cnt <= |bits|
    ensures |r| == |bits|
  {
    seq(|bits|, i requires 0 <= i < |bits| => if start <= i < start + cnt then value else bits[i])
  }

  /** CNT consecutive bits from I on all have the given VALUE. */
  predicate IsGroup(bits: seq<bool>, i: nat, cnt: nat, value: bool) {
    i + cnt <= |bits| && forall k :: i <= k < i + cnt ==> bits[k] == value
  }

  class Bitmap {
    const bitCnt: nat
    const bits: array<Word>

    ghost predicate Valid() {
      bits.Length == (bitCnt + ELEM_BITS - 1) / 32
    }

    /** The abstract value: one boolean per bit. */
    ghost function Bits(): (s: seq<bool>)
      requires Valid()
      reads bits
      ensures |s| == bitCnt
    {
      seq(bitCnt, i requires 0 <= i < bitCnt reads bits => BitOn(bits[ElemIdx(i)], i))
    }

    constructor (bitCnt: nat)
      ensures Valid() && this.bitCnt == bitCnt && fresh(bits)
      ensures Bits() == seq(bitCnt, _ => false)
    {
      this.bitCnt := bitCnt;
      bits := new Word[(bitCnt + ELEM_BITS - 1) / 32](_ => 0);
      new;
      SetAll(false);
    }

    method Set(bitIdx: nat, value: bool)
      requires Valid() && bitIdx < bitCnt
      modifies bits
      ensures Bits() == old(Bits())[bitIdx := value]
    {
      var idx := ElemIdx(bitIdx);
      ghost var word := bits[idx];
      bits[idx] := WithBit(bits[idx], bitIdx, value);
      forall j | 0 <= j < bitCnt
        ensures Bits()[j] == old(Bits())[bitIdx := value][j]
      {
        MaskEffect(word, bitIdx, value, j);
      }
    }

    method Test(idx: nat) returns (on: bool)
      requires Valid() && idx < bitCnt
      ensures on == Bits()[idx]
    {
      on := BitOn(bits[ElemIdx(idx)], idx);
    }

    method SetMultiple(start: nat, cnt: nat, value: bool)
      requires Valid() && start + cnt <= bitCnt
      modifies bits
      ensures Bits() == SetRange(old(Bits()), start, cnt, value)
    {
      for i := 0 to cnt
        invariant Bits() == SetRange(old(Bits()), start, i, value)
      {
        Set(start + i, value);
      }
    }

    method SetAll(value: bool)
      requires Valid()
      modifies bits
      ensures Bits() == seq(bitCnt, _ => value)
    {
      SetMultiple(0, bitCnt, value);
    }

    /** Is any of the CNT bits from START on equal to VALUE? */
    method Contains(start: nat, cnt: nat, value: bool) returns (found: bool)
      requires Valid() && start + cnt <= bitCnt
      ensures found == !IsGroup(Bits(), start, cnt, !value)
    {
      for i := 0 to cnt
        invariant IsGroup(Bits(), start, i, !value)
      {
        var on := Test(start + i);
        if on == value {
          return true;
        }
      }
      return false;
    }

    /** The first group of CNT bits with the given VALUE at or after START. */
    method Scan(start: nat, cnt: nat, value: bool) returns (r: Option<nat>)
      requires Valid() && start <= bitCnt
      ensures r.Some? ==> r.value >= start && IsGroup(Bits(), r.value, cnt, value)
      ensures forall k: nat :: start <= k && (r.Some? ==> k < r.value) ==> !IsGroup(Bits(), k, cnt, value)
    {
      if cnt <= bitCnt {
        var last := bitCnt - cnt;
        var i := start;
        while i <= last
          invariant start <= i
          invariant forall k: nat :: start <= k < i ==> !IsGroup(Bits(), k, cnt, value)
        {
          var other := Contains(i, cnt, !value);
          if !other {
            return Some(i);
          }
          i := i + 1;
        }
      }
      return None;
    }

    method ScanAndFlip(start: nat, cnt: nat, value: bool) returns (r: Option<nat>)
      requires Valid() && start <= bitCnt
      modifies bits
      ensures r.Some? ==> r.value >= start && IsGroup(old(Bits()), r.value, cnt, value)
      ensures forall k: nat :: start <= k && (r.Some? ==> k < r.value) ==> !IsGroup(old(Bits()), k, cnt, value)
      ensures Bits() == if r.Some? then SetRange(old(Bits()), r.value, cnt, !value) else old(Bits())
    {
      ghost var b := Bits();
      r := Scan(start, cnt, value);
      assert Bits() == b;
      if r.Some? {
        SetMultiple(r.value, cnt, !value);
      }
    }
  }
}
