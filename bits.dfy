/**
 * Unsigned 64-bit words as natural numbers below 2^64, and the bit
 * operations the determinant-string code applies to them: `&`, `^`,
 * `1 << b`, the `numpy.uint64` cast, `bin(w).count('1')` and `find1`.
 * Bit `i` of a word is binary digit `i` of the number.
 */
module Bits {
  import opened Lists

  const WordLimit: nat := 0x1_0000_0000_0000_0000

  /** A `numpy.uint64` value. */
  type Word = w: nat | w < 0x1_0000_0000_0000_0000

  /** `1 << n`. */
  function Pow2(n: nat): (r: nat)
    ensures r >= 1
  {
    if n == 0 then 1 else 2 * Pow2(n - 1)
  }

  lemma {:induction false} Pow2Add(a: nat, b: nat)
    ensures Pow2(a + b) == Pow2(a) * Pow2(b)
  {
    if a > 0 {
      Pow2Add(a - 1, b);
    }
  }

  lemma {:induction false} Pow2Mono(lo: nat, hi: nat)
    requires lo <= hi
    ensures Pow2(lo) <= Pow2(hi)
  {
    if lo < hi {
      Pow2Mono(lo, hi - 1);
    }
  }

  /** The word size: `1 << 64` is one past the largest `uint64`. */
  lemma {:induction false} Pow2Word()
    ensures Pow2(64) == WordLimit
  {
    assert Pow2(8) == 256;
    Pow2Add(8, 8);
    assert Pow2(16) == 0x1_0000;
    Pow2Add(16, 16);
    assert Pow2(32) == 0x1_0000_0000;
    Pow2Add(32, 32);
  }

  /** Binary digit `i` of `w` is one. */
  predicate Bit(w: nat, i: nat)
    decreases i, w
  {
    if i == 0 then w % 2 == 1 else Bit(w / 2, i - 1)
  }

  lemma {:induction false} ZeroBit(i: nat)
    ensures !Bit(0, i)
  {
    if i > 0 {
      ZeroBit(i - 1);
    }
  }

  /** A number below `2^n` has no one digit at position `n` or above. */
  lemma {:induction false} HighBitClear(w: nat, n: nat, i: nat)
    requires w < Pow2(n) && n <= i
    ensures !Bit(w, i)
  {
    if w == 0 {
      ZeroBit(i);
    } else {
      HighBitClear(w / 2, n - 1, i - 1);
    }
  }

  /** A word has no one digit at position 64 or above. */
  lemma {:induction false} WordHighBitClear(w: Word, i: nat)
    requires 64 <= i
    ensures !Bit(w, i)
  {
    Pow2Word();
    HighBitClear(w, 64, i);
  }

  /** Two numbers below `2^n` with the same digits below `n` are equal. */
  lemma {:induction false} BitsDetermine(a: nat, b: nat, n: nat)
    requires a < Pow2(n) && b < Pow2(n)
    requires forall i :: 0 <= i < n ==> Bit(a, i) == Bit(b, i)
    ensures a == b
  {
    if n > 0 {
      assert Bit(a, 0) == Bit(b, 0);
      forall i | 0 <= i < n - 1
        ensures Bit(a / 2, i) == Bit(b / 2, i)
      {
        assert Bit(a, i + 1) == Bit(b, i + 1);
      }
      BitsDetermine(a / 2, b / 2, n - 1);
    }
  }

  /** `a & b`. */
  function And(a: nat, b: nat): (r: nat)
    ensures r <= a && r <= b
    decreases a
  {
    if a == 0 || b == 0 then 0
    else 2 * And(a / 2, b / 2) + (if a % 2 == 1 && b % 2 == 1 then 1 else 0)
  }

  /** `a ^ b`. */
  function Xor(a: nat, b: nat): nat
    decreases a + b
  {
    if a == 0 && b == 0 then 0
    else 2 * Xor(a / 2, b / 2) + (if a % 2 != b % 2 then 1 else 0)
  }

  lemma {:induction false} AndBit(a: nat, b: nat, i: nat)
    ensures Bit(And(a, b), i) == (Bit(a, i) && Bit(b, i))
  {
    if a == 0 || b == 0 {
      ZeroBit(i);
    } else if i > 0 {
      AndBit(a / 2, b / 2, i - 1);
    }
  }

  lemma {:induction false} XorBit(a: nat, b: nat, i: nat)
    ensures Bit(Xor(a, b), i) == (Bit(a, i) != Bit(b, i))
  {
    if a == 0 && b == 0 {
      ZeroBit(i);
    } else if i > 0 {
      XorBit(a / 2, b / 2, i - 1);
    }
  }

  lemma {:induction false} XorBound(a: nat, b: nat, n: nat)
    requires a < Pow2(n) && b < Pow2(n)
    ensures Xor(a, b) < Pow2(n)
  {
    if n > 0 && !(a == 0 && b == 0) {
      XorBound(a / 2, b / 2, n - 1);
    }
  }

  /** `a ^ b` of two words. */
  function XorWord(a: Word, b: Word): Word
  {
    Pow2Word();
    XorBound(a, b, 64);
    Xor(a, b)
  }

  /** Each digit of `a ^ b` is set when exactly one of `a`, `b` has it. */
  lemma {:induction false} XorWordBits(a: Word, b: Word)
    ensures forall i :: Bit(XorWord(a, b), i) == (Bit(a, i) != Bit(b, i))
  {
    forall i ensures Bit(Xor(a, b), i) == (Bit(a, i) != Bit(b, i)) {
      XorBit(a, b, i);
    }
  }

  /** `a & b` of two words. */
  function AndWord(a: Word, b: Word): Word
  {
    And(a, b)
  }

  /** Each digit of `a & b` is set when both `a` and `b` have it. */
  lemma {:induction false} AndWordBits(a: Word, b: Word)
    ensures forall i :: Bit(AndWord(a, b), i) == (Bit(a, i) && Bit(b, i))
  {
    forall i ensures Bit(And(a, b), i) == (Bit(a, i) && Bit(b, i)) {
      AndBit(a, b, i);
    }
  }

  /** `1 << b` has exactly digit `b` set. */
  lemma {:induction false} Pow2Bit(b: nat, i: nat)
    ensures Bit(Pow2(b), i) == (i == b)
  {
    if b > 0 && i > 0 {
      Pow2Bit(b - 1, i - 1);
    } else if b == 0 && i > 0 {
      ZeroBit(i - 1);
    }
  }

  /** `(1 << b) - 1` has exactly the digits below `b` set. */
  lemma {:induction false} LowBit(b: nat, i: nat)
    ensures Bit(Pow2(b) - 1, i) == (i < b)
  {
    if b == 0 {
      ZeroBit(i);
    } else if i > 0 {
      LowBit(b - 1, i - 1);
    }
  }

  /** `(1 << hi) - (1 << lo)` has exactly the digits `lo .. hi-1` set. */
  lemma {:induction false} RangeBit(lo: nat, hi: nat, i: nat)
    requires lo <= hi
    ensures Pow2(lo) <= Pow2(hi)
    ensures Bit(Pow2(hi) - Pow2(lo), i) == (lo <= i < hi)
  {
    Pow2Mono(lo, hi);
    if lo == 0 {
      LowBit(hi, i);
    } else if i > 0 {
      RangeBit(lo - 1, hi - 1, i - 1);
    }
  }

  /** `numpy.uint64(x)` of a Python integer: the value modulo 2^64 (a negative value wraps). */
  function ToWord(x: int): (r: Word)
    ensures 0 <= x < WordLimit ==> r == x
    ensures x < 0 && 0 <= x + WordLimit ==> r == x + WordLimit
  {
    x % WordLimit
  }

  /** `numpy.uint64(1 << b)`. */
  function SingleBit(b: nat): Word
    requires b < 64
  {
    Pow2Word();
    Pow2Mono(b + 1, 64);
    Pow2(b)
  }

  /** `numpy.uint64(1 << b)` has exactly digit `b` set. */
  lemma {:induction false} SingleBitBits(b: nat)
    requires b < 64
    ensures forall i :: Bit(SingleBit(b), i) == (i == b)
  {
    forall i ensures Bit(Pow2(b), i) == (i == b) {
      Pow2Bit(b, i);
    }
  }

  /** The number of one digits of `w` at positions `lo .. hi-1`. */
  function Count(w: nat, lo: nat, hi: nat): (r: nat)
    ensures r <= if lo <= hi then hi - lo else 0
    decreases hi, w
  {
    if hi <= lo then 0 else Count(w, lo, hi - 1) + (if Bit(w, hi - 1) then 1 else 0)
  }

  /** `bin(w).count('1')` for a word. */
  function PopCount(w: Word): nat
  {
    Count(w, 0, 64)
  }

  lemma {:induction false} CountSplit(w: nat, lo: nat, mid: nat, hi: nat)
    requires lo <= mid <= hi
    ensures Count(w, lo, hi) == Count(w, lo, mid) + Count(w, mid, hi)
    decreases hi
  {
    if mid < hi {
      CountSplit(w, lo, mid, hi - 1);
    }
  }

  /** Numbers that agree on the digits `lo .. hi-1` have the same count there. */
  lemma {:induction false} CountAgree(a: nat, b: nat, lo: nat, hi: nat)
    requires forall i :: lo <= i < hi ==> Bit(a, i) == Bit(b, i)
    ensures Count(a, lo, hi) == Count(b, lo, hi)
    decreases hi
  {
    if lo < hi {
      CountAgree(a, b, lo, hi - 1);
    }
  }

  /** No digit of `lo .. hi-1` is set: the count there is zero. */
  lemma {:induction false} CountNone(w: nat, lo: nat, hi: nat)
    requires forall i :: lo <= i < hi ==> !Bit(w, i)
    ensures Count(w, lo, hi) == 0
    decreases hi
  {
    if lo < hi {
      CountNone(w, lo, hi - 1);
    }
  }

  /** Every digit of `lo .. hi-1` is set: the count there is the width. */
  lemma {:induction false} CountAll(w: nat, lo: nat, hi: nat)
    requires lo <= hi
    requires forall i :: lo <= i < hi ==> Bit(w, i)
    ensures Count(w, lo, hi) == hi - lo
    decreases hi
  {
    if lo < hi {
      CountAll(w, lo, hi - 1);
    }
  }

  /** A word has no one digit beyond position 63, so counting further adds nothing. */
  lemma {:induction false} WordCountTop(w: Word, lo: nat, hi: nat)
    requires lo <= 64 <= hi
    ensures Count(w, lo, hi) == Count(w, lo, 64)
  {
    CountSplit(w, lo, 64, hi);
    forall i | 64 <= i < hi ensures !Bit(w, i) {
      WordHighBitClear(w, i);
    }
    CountNone(w, 64, hi);
  }

  /** `bin(w & m).count('1')` where the one digits of `m` are exactly `lo .. hi-1`. */
  lemma {:induction false} MaskedPopCount(w: Word, m: Word, lo: nat, hi: nat)
    requires lo <= hi <= 64
    requires forall i: nat :: i < 64 ==> (Bit(m, i) <==> lo <= i < hi)
    ensures PopCount(AndWord(w, m)) == Count(w, lo, hi)
  {
    var x := AndWord(w, m);
    AndWordBits(w, m);
    CountSplit(x, 0, lo, 64);
    CountSplit(x, lo, hi, 64);
    CountNone(x, 0, lo);
    CountNone(x, hi, 64);
    CountAgree(x, w, lo, hi);
  }

  /** The positions below `n` of the one digits of `w`, ascending. */
  function SetBitsBelow(w: nat, n: nat): seq<nat>
    decreases n, w
  {
    if n == 0 then [] else SetBitsBelow(w, n - 1) + (if Bit(w, n - 1) then [n - 1] else [])
  }

  lemma {:induction false} SetBitsLength(w: nat, n: nat)
    ensures |SetBitsBelow(w, n)| == Count(w, 0, n)
  {
    if n > 0 {
      SetBitsLength(w, n - 1);
    }
  }

  lemma {:induction false} SetBitsMembers(w: nat, n: nat)
    ensures forall x: nat :: x in SetBitsBelow(w, n) <==> x < n && Bit(w, x)
  {
    if n > 0 {
      SetBitsMembers(w, n - 1);
    }
  }

  lemma {:induction false} SetBitsIncreasing(w: nat, n: nat)
    ensures StrictlyIncreasing(SetBitsBelow(w, n))
  {
    if n > 0 {
      SetBitsIncreasing(w, n - 1);
      SetBitsMembers(w, n - 1);
      var prefix := SetBitsBelow(w, n - 1);
      forall k | 0 <= k < |prefix| ensures prefix[k] < n - 1 {
        assert prefix[k] in prefix;
      }
    }
  }

  /** `find1(w)`: the positions of the one digits of a word, ascending. */
  function Find1(w: Word): seq<nat>
  {
    SetBitsBelow(w, 64)
  }

  /** `find1` lists every set bit of the word once, in ascending order, and nothing else. */
  lemma {:induction false} Find1Spec(w: Word)
    ensures StrictlyIncreasing(Find1(w))
    ensures forall x: nat :: x in Find1(w) <==> Bit(w, x)
    ensures |Find1(w)| == PopCount(w)
    ensures forall x :: x in Find1(w) ==> x < 64
  {
    SetBitsIncreasing(w, 64);
    SetBitsMembers(w, 64);
    SetBitsLength(w, 64);
    forall x | 64 <= x ensures !Bit(w, x) {
      WordHighBitClear(w, x);
    }
  }
}
