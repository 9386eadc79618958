/**
 * `cre_des_sign(p, q, string)`: the fermionic sign picked up by moving an
 * electron from orbital `q` to orbital `p`, which is `-1` to the power of
 * the number of occupied orbitals strictly between `p` and `q`.
 *
 * The source splits the count by word group. When `p` and `q` lie in
 * different groups it adds the popcounts of the groups in between, the
 * popcount of the low bits of the upper group, and then the shifted VALUE
 * (not the popcount) of the lower group's word. When they share a group it
 * masks word `string[pg]` from the front of the array, not word `-1-pg`.
 * Both agree with the intended sign for single-word strings, which is what
 * `SingleWordSign` proves; `CreDesSign` models the code as written and
 * `CreDesSignCorrected` the intended count.
 */
module CreDes {
  import opened Bits
  import opened DetStrings

  /** `-1 if n1 % 2 else 1`. */
  function Parity(n: nat): int
  {
    if n % 2 == 1 then -1 else 1
  }

  /** Occupied orbitals strictly between `p` and `q`. */
  function Between(p: nat, q: nat, s: seq<Word>): nat
  {
    if p < q then OccCount(s, p + 1, q) else OccCount(s, q + 1, p)
  }

  /** The intended sign. */
  function Sign(p: nat, q: nat, s: seq<Word>): int
  {
    Parity(Between(p, q, s))
  }

  /** `string >> numpy.uint64(k)`: `k` halvings, so 0 once `k` reaches 64, as numpy defines it. */
  function ShiftRight(w: Word, k: nat): Word
  {
    if k == 0 then w else ShiftRight(w / 2, k - 1)
  }

  /**
   * `n1` as written when the upper orbital (group `hg`, bit `hb`) lies in a
   * higher group than the lower one (group `lg`, bit `lb`): the groups
   * strictly between, the bits of the upper word below `hb`, and the value
   * of the lower word shifted right past `lb`.
   */
  function CrossCountAsWritten(hg: nat, hb: nat, lg: nat, lb: nat, s: seq<Word>): nat
    requires lg < hg < |s|
  {
    OccCount(s, 64 * (lg + 1), 64 * hg) + Count(s[|s| - 1 - hg], 0, hb) + ShiftRight(s[|s| - 1 - lg], lb + 1)
  }

  /**
   * `n1` as written when both orbitals lie in group `g`: the bits of word
   * `string[g]` strictly between bits `pb` and `qb`, or, for `pb == qb`, the
   * bits from `pb` up, which is what the mask wraps to.
   */
  function SameCountAsWritten(g: nat, pb: nat, qb: nat, s: seq<Word>): nat
    requires g < |s|
  {
    if pb > qb then Count(s[g], qb + 1, pb)
    else if pb < qb then Count(s[g], pb + 1, qb)
    else Count(s[g], pb, 64)
  }

  /** `n1` as written. */
  function CountAsWritten(p: nat, q: nat, s: seq<Word>): nat
    requires p / 64 < |s| && q / 64 < |s|
  {
    var pg, pb, qg, qb := p / 64, p % 64, q / 64, q % 64;
    if pg > qg then CrossCountAsWritten(pg, pb, qg, qb, s)
    else if pg < qg then CrossCountAsWritten(qg, qb, pg, pb, s)
    else SameCountAsWritten(pg, pb, qb, s)
  }

  /** The sign the source returns. */
  function SignAsWritten(p: nat, q: nat, s: seq<Word>): int
    requires p / 64 < |s| && q / 64 < |s|
  {
    Parity(CountAsWritten(p, q, s))
  }

  /** The mask `numpy.uint64((1 << hi) - (1 << lo))` selects bits `lo .. hi-1`. */
  lemma {:induction false} RangeMaskCount(w: Word, lo: nat, hi: nat)
    requires lo <= hi <= 64
    ensures PopCount(AndWord(w, ToWord(Pow2(hi) - Pow2(lo)))) == Count(w, lo, hi)
  {
    Pow2Word();
    Pow2Mono(hi, 64);
    RangeBit(lo, hi, 0);
    var m := ToWord(Pow2(hi) - Pow2(lo));
    assert m == Pow2(hi) - Pow2(lo);
    forall i: nat | i < 64 ensures Bit(m, i) <==> lo <= i < hi {
      RangeBit(lo, hi, i);
    }
    MaskedPopCount(w, m, lo, hi);
  }

  /** The mask `numpy.uint64((1 << b) - 1)` selects bits `0 .. b-1`. */
  lemma {:induction false} LowMaskCount(w: Word, b: nat)
    requires b <= 64
    ensures PopCount(AndWord(w, ToWord(Pow2(b) - 1))) == Count(w, 0, b)
  {
    assert Pow2(0) == 1;
    RangeMaskCount(w, 0, b);
  }

  /** For `p == q` the mask `(1 << b) - (1 << (b+1))` is negative and wraps to bits `b .. 63`. */
  lemma {:induction false} WrapMaskCount(w: Word, b: nat)
    requires b < 64
    ensures PopCount(AndWord(w, ToWord(Pow2(b) - Pow2(b + 1)))) == Count(w, b, 64)
  {
    Pow2Word();
    Pow2Mono(b, 64);
    assert ToWord(Pow2(b) - Pow2(b + 1)) == Pow2(64) - Pow2(b);
    RangeMaskCount(w, b, 64);
  }

  /** The mask `numpy.uint64(-(1 << b))` wraps to bits `b .. 63`. */
  lemma {:induction false} HighMaskCount(w: Word, b: nat)
    requires b <= 64
    ensures PopCount(AndWord(w, ToWord(-(Pow2(b) as int)))) == Count(w, b, 64)
  {
    Pow2Word();
    Pow2Mono(b, 64);
    assert ToWord(-(Pow2(b) as int)) == Pow2(64) - Pow2(b);
    RangeMaskCount(w, b, 64);
  }

  /** `for i in range(nset-hg, nset-lg-1): n1 += popcount(string[i])`: the groups strictly between. */
  method GroupsBetween(hg: nat, lg: nat, s: seq<Word>) returns (n1: nat)
    requires lg < hg < |s|
    ensures n1 == OccCount(s, 64 * (lg + 1), 64 * hg)
  {
    n1 := 0;
    var i := |s| - hg;
    while i < |s| - lg - 1
      invariant |s| - hg <= i <= |s| - lg - 1
      invariant n1 == OccCount(s, 64 * (|s| - i), 64 * hg)
    {
      WordsStep(s, i, 64 * hg);
      n1 := n1 + PopCount(s[i]);
      i := i + 1;
    }
    assert |s| - i == lg + 1;
  }

  /** The cross-group count as written: the loop, then the two partial words. */
  method CrossCount(hg: nat, hb: nat, lg: nat, lb: nat, s: seq<Word>) returns (n1: nat)
    requires lg < hg < |s| && hb < 64 && lb < 64
    ensures n1 == CrossCountAsWritten(hg, hb, lg, lb, s)
  {
    n1 := GroupsBetween(hg, lg, s);
    LowMaskCount(s[|s| - 1 - hg], hb);
    n1 := n1 + PopCount(AndWord(s[|s| - 1 - hg], ToWord(Pow2(hb) - 1)));
    n1 := n1 + ShiftRight(s[|s| - 1 - lg], lb + 1);
  }

  /** The shared-group mask of the source selects the bits that `SameCountAsWritten` counts. */
  lemma {:induction false} SameMaskCount(p: nat, q: nat, w: Word, mask: Word)
    requires p / 64 == q / 64
    requires mask == if p > q then ToWord(Pow2(p % 64) - Pow2(q % 64 + 1)) else ToWord(Pow2(q % 64) - Pow2(p % 64 + 1))
    ensures PopCount(AndWord(w, mask)) == SameCountAsWritten(0, p % 64, q % 64, [w])
  {
    var pb, qb := p % 64, q % 64;
    assert p == 64 * (p / 64) + pb && q == 64 * (p / 64) + qb;
    if p > q {
      RangeMaskCount(w, qb + 1, pb);
    } else if p < q {
      RangeMaskCount(w, pb + 1, qb);
    } else {
      WrapMaskCount(w, qb);
    }
  }

  /** The shared-group count as written: a mask on word `string[pg]`. */
  method SameCount(p: nat, q: nat, s: seq<Word>) returns (n1: nat)
    requires p / 64 == q / 64 < |s|
    ensures n1 == SameCountAsWritten(p / 64, p % 64, q % 64, s)
  {
    var pg, pb := p / 64, p % 64;
    var qb := q % 64;
    var mask: Word;
    if p > q {
      mask := ToWord(Pow2(pb) - Pow2(qb + 1));
    } else {
      mask := ToWord(Pow2(qb) - Pow2(pb + 1));
    }
    SameMaskCount(p, q, s[pg], mask);
    n1 := PopCount(AndWord(s[pg], mask));
  }

  /** `cre_des_sign(p, q, string)` as written; the words of both groups must exist. */
  method CreDesSign(p: nat, q: nat, s: seq<Word>) returns (sign: int)
    requires p / 64 < |s| && q / 64 < |s|
    ensures sign == SignAsWritten(p, q, s)
    ensures sign == 1 || sign == -1
  {
    var pg, pb := p / 64, p % 64;
    var qg, qb := q / 64, q % 64;
    var n1: nat;
    if pg > qg {
      n1 := CrossCount(pg, pb, qg, qb, s);
    } else if pg < qg {
      n1 := CrossCount(qg, qb, pg, pb, s);
    } else {
      n1 := SameCount(p, q, s);
    }
    if n1 % 2 == 1 {
      sign := -1;
    } else {
      sign := 1;
    }
  }

  /** The source's sign does not depend on the order of `p` and `q`. */
  lemma {:induction false} SignSymmetric(p: nat, q: nat, s: seq<Word>)
    requires p / 64 < |s| && q / 64 < |s|
    ensures SignAsWritten(p, q, s) == SignAsWritten(q, p, s)
  {
  }

  /** The intended sign does not depend on the order of `p` and `q` either. */
  lemma {:induction false} IntendedSignSymmetric(p: nat, q: nat, s: seq<Word>)
    ensures Sign(p, q, s) == Sign(q, p, s)
  {
  }

  /**
   * For a single-word string (`norb <= 64`) the source's sign is the
   * intended one: `-1` exactly when an odd number of orbitals strictly
   * between `p` and `q` is occupied.
   */
  lemma {:induction false} SingleWordSign(p: nat, q: nat, s: seq<Word>)
    requires |s| == 1 && p < 64 && q < 64 && p != q
    ensures SignAsWritten(p, q, s) == Sign(p, q, s)
    ensures SignAsWritten(p, q, s) == -1 <==> Between(p, q, s) % 2 == 1
  {
    assert p / 64 == 0 && q / 64 == 0 && p % 64 == p && q % 64 == q;
    if p < q {
      OccCountWord(s, 0, p + 1, q);
    } else {
      OccCountWord(s, 0, q + 1, p);
    }
  }

  /** Orbitals above bit `lb` of group `lg`: the rest of that word, then the groups above. */
  lemma {:induction false} LowerPart(s: seq<Word>, lg: nat, lb: nat, hi: nat)
    requires lg < |s| && lb < 64 && 64 * (lg + 1) <= hi
    ensures OccCount(s, 64 * lg + lb + 1, hi)
      == Count(s[|s| - 1 - lg], lb + 1, 64) + OccCount(s, 64 * (lg + 1), hi)
  {
    OccCountWord(s, lg, lb + 1, 64);
    OccCountSplit(s, 64 * lg + lb + 1, 64 * lg + 64, hi);
  }

  /** Orbitals below bit `hb` of group `hg`: the groups below, then the low bits of that word. */
  lemma {:induction false} UpperPart(s: seq<Word>, hg: nat, hb: nat, lo: nat)
    requires hg < |s| && hb < 64 && lo <= 64 * hg
    ensures OccCount(s, lo, 64 * hg + hb) == OccCount(s, lo, 64 * hg) + Count(s[|s| - 1 - hg], 0, hb)
  {
    OccCountWordLow(s, hg, hb);
    OccCountSplit(s, lo, 64 * hg, 64 * hg + hb);
  }

  /** The cross-group count by parts: the lower word's rest, the groups between, the upper word's low bits. */
  lemma {:induction false} CrossBetween(hg: nat, hb: nat, lg: nat, lb: nat, s: seq<Word>)
    requires lg < hg < |s| && hb < 64 && lb < 64
    ensures OccCount(s, 64 * lg + lb + 1, 64 * hg + hb)
      == Count(s[|s| - 1 - lg], lb + 1, 64) + OccCount(s, 64 * (lg + 1), 64 * hg) + Count(s[|s| - 1 - hg], 0, hb)
  {
    LowerPart(s, lg, lb, 64 * hg + hb);
    UpperPart(s, hg, hb, 64 * (lg + 1));
  }

  /** The corrected cross-group count, term by term: both partial words by mask. */
  lemma {:induction false} CrossMaskSum(hg: nat, hb: nat, lg: nat, lb: nat, s: seq<Word>)
    requires lg < hg < |s| && hb < 64 && lb < 64
    ensures OccCount(s, 64 * (lg + 1), 64 * hg)
      + PopCount(AndWord(s[|s| - 1 - hg], ToWord(Pow2(hb) - 1)))
      + PopCount(AndWord(s[|s| - 1 - lg], ToWord(-(Pow2(lb + 1) as int))))
      == OccCount(s, 64 * lg + lb + 1, 64 * hg + hb)
  {
    LowMaskCount(s[|s| - 1 - hg], hb);
    HighMaskCount(s[|s| - 1 - lg], lb + 1);
    CrossBetween(hg, hb, lg, lb, s);
  }

  /** The corrected cross-group count: the lower word contributes the popcount of its bits above `lb`. */
  method CrossCountCorrected(hg: nat, hb: nat, lg: nat, lb: nat, s: seq<Word>) returns (n1: nat)
    requires lg < hg < |s| && hb < 64 && lb < 64
    ensures n1 == OccCount(s, 64 * lg + lb + 1, 64 * hg + hb)
  {
    n1 := GroupsBetween(hg, lg, s);
    n1 := n1 + PopCount(AndWord(s[|s| - 1 - hg], ToWord(Pow2(hb) - 1)));
    n1 := n1 + PopCount(AndWord(s[|s| - 1 - lg], ToWord(-(Pow2(lb + 1) as int))));
    CrossMaskSum(hg, hb, lg, lb, s);
  }

  /** Within group `g`, the mask for bits `lo+1 .. hi-1` counts the orbitals strictly between. */
  lemma {:induction false} GroupMaskBetween(s: seq<Word>, g: nat, lo: nat, hi: nat)
    requires g < |s| && lo < hi < 64
    ensures PopCount(AndWord(s[|s| - 1 - g], ToWord(Pow2(hi) - Pow2(lo + 1))))
      == OccCount(s, 64 * g + lo + 1, 64 * g + hi)
  {
    RangeMaskCount(s[|s| - 1 - g], lo + 1, hi);
    OccCountWord(s, g, lo + 1, hi);
  }

  /** The corrected shared-group mask selects the orbitals strictly between bits `pb` and `qb` of group `g`. */
  lemma {:induction false} SameMaskBetween(g: nat, pb: nat, qb: nat, s: seq<Word>, mask: Word)
    requires g < |s| && pb < 64 && qb < 64 && pb != qb
    requires mask == if pb > qb then ToWord(Pow2(pb) - Pow2(qb + 1)) else ToWord(Pow2(qb) - Pow2(pb + 1))
    ensures PopCount(AndWord(s[|s| - 1 - g], mask)) == Between(64 * g + pb, 64 * g + qb, s)
  {
    if pb > qb {
      GroupMaskBetween(s, g, qb, pb);
    } else {
      GroupMaskBetween(s, g, pb, qb);
    }
  }

  /** The corrected shared-group count: a mask on word `-1-pg`; nothing lies strictly between `p` and itself. */
  method SameCountCorrected(p: nat, q: nat, s: seq<Word>) returns (n1: nat)
    requires p / 64 == q / 64 < |s|
    ensures n1 == Between(p, q, s)
  {
    var pg, pb := p / 64, p % 64;
    var qb := q % 64;
    assert p == 64 * pg + pb && q == 64 * pg + qb;
    if p == q {
      n1 := 0;
    } else {
      var mask: Word;
      if p > q {
        mask := ToWord(Pow2(pb) - Pow2(qb + 1));
      } else {
        mask := ToWord(Pow2(qb) - Pow2(pb + 1));
      }
      SameMaskBetween(pg, pb, qb, s, mask);
      n1 := PopCount(AndWord(s[|s| - 1 - pg], mask));
    }
  }

  /** The corrected `cre_des_sign`: the intended sign for strings of any length. */
  method CreDesSignCorrected(p: nat, q: nat, s: seq<Word>) returns (sign: int)
    requires p / 64 < |s| && q / 64 < |s|
    ensures sign == Sign(p, q, s)
  {
    var pg, pb := p / 64, p % 64;
    var qg, qb := q / 64, q % 64;
    var n1: nat;
    if pg > qg {
      n1 := CrossCountCorrected(pg, pb, qg, qb, s);
      assert 64 * qg + qb + 1 == q + 1 && 64 * pg + pb == p;
    } else if pg < qg {
      n1 := CrossCountCorrected(qg, qb, pg, pb, s);
      assert 64 * pg + pb + 1 == p + 1 && 64 * qg + qb == q;
    } else {
      n1 := SameCountCorrected(p, q, s);
    }
    if n1 % 2 == 1 {
      sign := -1;
    } else {
      sign := 1;
    }
  }

  /** The word `6`: bits 1 and 2. */
  lemma {:induction false} SixCount(w: Word)
    requires w == 6
    ensures ShiftRight(w, 1) == 3
    ensures Count(w, 1, 64) == 2
  {
    assert Pow2(1) == 2 && Pow2(3) == 8;
    forall i | 3 <= i < 64 ensures !Bit(w, i) {
      HighBitClear(w, 3, i);
    }
    CountNone(w, 3, 64);
    CountSplit(w, 1, 3, 64);
  }

  /**
   * Cross-group case: with orbitals 1 and 2 occupied, moving an electron
   * between orbitals 0 and 65 passes two electrons, so the sign is `+1`;
   * the source adds the value `6 >> 1 == 3` and returns `-1`.
   */
  lemma {:induction false} CrossWordCounterexample(s: seq<Word>)
    requires s == [0, 6]
    ensures SignAsWritten(65, 0, s) == -1
    ensures Sign(65, 0, s) == 1
  {
    SixCount(s[1]);
    ZeroBit(0);
    assert Count(s[0], 0, 1) == 0;
    CrossBetween(1, 1, 0, 0, s);
  }

  /**
   * Shared-group case: with orbital 65 occupied, moving an electron between
   * orbitals 64 and 66 passes one electron, so the sign is `-1`; the source
   * masks word `string[1]`, which holds orbitals 0 .. 63, and returns `+1`.
   */
  lemma {:induction false} SameWordCounterexample(s: seq<Word>)
    requires s == [2, 0]
    ensures SignAsWritten(64, 66, s) == 1
    ensures Sign(64, 66, s) == -1
  {
    ZeroBit(1);
    assert Count(s[1], 1, 2) == 0;
    assert Bit(s[0], 1);
    OccupiedInWord(s, 1, 1);
    assert OccCount(s, 65, 66) == 1;
  }

  /**
   * Same-orbital case: for `p == q == 0` no orbital lies strictly between,
   * so the sign is `+1`; the mask `(1 << 0) - (1 << 1)` is negative and
   * wraps to bits 0 .. 63, so the source counts the occupied orbital 0 and
   * returns `-1`.
   */
  lemma {:induction false} SameOrbitalCounterexample(s: seq<Word>)
    requires s == [1]
    ensures SignAsWritten(0, 0, s) == -1
    ensures Sign(0, 0, s) == 1
  {
    assert Pow2(1) == 2;
    forall i | 1 <= i < 64 ensures !Bit(s[0], i) {
      HighBitClear(s[0], 1, i);
    }
    CountNone(s[0], 1, 64);
    CountSplit(s[0], 0, 1, 64);
  }
}
