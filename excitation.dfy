/**
 * `excitation_level`: how many electrons of a spin string sit outside the
 * lowest `nelec` orbitals, that is, the string's excitation level with
 * respect to the reference determinant that fills orbitals `0 .. nelec-1`.
 *
 * The source counts the occupied orbitals among `0 .. nelec-1` as "the
 * lowest `nelec % 64` bits of word `-1-g`" plus "every bit of the `g` words
 * below it". The first part is taken from the tail of Python's `bin(w)`
 * string, and `bin(w)[-0:]` is the WHOLE string, so when `nelec` is a
 * multiple of 64 the level is too small by the electrons of orbitals
 * `nelec .. nelec+63`. `ExcitationLevel` is the code as written;
 * `ExcitationLevelCorrected` counts no bits of word `-1-g` in that case.
 */
module Excitation {
  import opened Lists
  import opened Bits
  import opened DetStrings

  /** An optional argument (`nelec=None`). */
  datatype Option<T> = None | Some(value: T)

  /** Number of electrons in the string. */
  function Electrons(s: seq<Word>): nat
  {
    OccCount(s, 0, 64 * |s|)
  }

  /** `nelec`, or the string's own electron count when it is omitted. */
  function Resolve(s: seq<Word>, nelec: Option<nat>): nat
  {
    match nelec
    case None => Electrons(s)
    case Some(n) => n
  }

  /** The excitation level: electrons missing from the lowest `n` orbitals. */
  function Level(s: seq<Word>, n: nat): int
  {
    n - OccCount(s, 0, n)
  }

  /**
   * `bin(w)[-b:].count('1')`: the ones among the last `b` binary digits of
   * `w`, which are its bits `0 .. b-1`; Python reads `[-0:]` as `[0:]`, the
   * whole string.
   */
  function TailOnes(w: Word, b: nat): nat
  {
    if b == 0 then PopCount(w) else Count(w, 0, b)
  }

  /** What the source computes: `nelec` minus the tail of word `-1-g` minus the `g` words below. */
  function LevelAsWritten(s: seq<Word>, n: nat): int
    requires n / 64 < |s|
  {
    n - TailOnes(s[|s| - 1 - n / 64], n % 64) - OccCount(s, 0, 64 * (n / 64))
  }

  /** The corrected count: the tail is the lowest `n % 64` bits, none when that is 0. */
  function LevelCorrected(s: seq<Word>, n: nat): int
    requires n / 64 < |s|
  {
    n - Count(s[|s| - 1 - n / 64], 0, n % 64) - OccCount(s, 0, 64 * (n / 64))
  }

  /** `for s in string[nset-g:]: c += popcount(s)`: the electrons of the lowest `g` words. */
  method LowWordsPopCount(s: seq<Word>, g: nat) returns (c: nat)
    requires g <= |s|
    ensures c == OccCount(s, 0, 64 * g)
  {
    c := 0;
    var k := |s| - g;
    while k < |s|
      invariant |s| - g <= k <= |s|
      invariant c == OccCount(s, 64 * (|s| - k), 64 * g)
    {
      WordsStep(s, k, 64 * g);
      c := c + PopCount(s[k]);
      k := k + 1;
    }
  }

  /** `nelec = sum(popcount(string[i]) for i in range(nset))`. */
  method TotalPopCount(s: seq<Word>) returns (n: nat)
    ensures n == Electrons(s)
  {
    n := 0;
    var k := 0;
    while k < |s|
      invariant 0 <= k <= |s|
      invariant n == OccCount(s, 64 * (|s| - k), 64 * |s|)
    {
      WordsStep(s, k, 64 * |s|);
      n := n + PopCount(s[k]);
      k := k + 1;
    }
  }

  /** `excitation_level(string, nelec)` as written; word `-1-g` must exist. */
  method ExcitationLevel(s: seq<Word>, nelec: Option<nat>) returns (tn: int)
    requires Resolve(s, nelec) / 64 < |s|
    ensures tn == LevelAsWritten(s, Resolve(s, nelec))
  {
    var n: nat;
    match nelec {
      case None =>
        n := TotalPopCount(s);
      case Some(v) =>
        n := v;
    }
    var g, b := n / 64, n % 64;
    tn := n - TailOnes(s[|s| - 1 - g], b);
    var low := LowWordsPopCount(s, g);
    tn := tn - low;
  }

  /** `excitation_level` with the tail of word `-1-g` limited to its lowest `nelec % 64` bits. */
  method ExcitationLevelCorrected(s: seq<Word>, nelec: Option<nat>) returns (tn: int)
    requires Resolve(s, nelec) / 64 < |s|
    ensures tn == Level(s, Resolve(s, nelec))
  {
    var n: nat;
    match nelec {
      case None =>
        n := TotalPopCount(s);
      case Some(v) =>
        n := v;
    }
    var g, b := n / 64, n % 64;
    tn := n - Count(s[|s| - 1 - g], 0, b);
    var low := LowWordsPopCount(s, g);
    tn := tn - low;
    CorrectedIsLevel(s, n);
  }

  /** The corrected count is the excitation level. */
  lemma {:induction false} CorrectedIsLevel(s: seq<Word>, n: nat)
    requires n / 64 < |s|
    ensures LevelCorrected(s, n) == Level(s, n)
  {
    var g, b := n / 64, n % 64;
    assert n == 64 * g + b;
    OccCountWordLow(s, g, b);
    OccCountSplit(s, 0, 64 * g, n);
  }

  /**
   * As written, the level is right unless `nelec` is a multiple of 64; then
   * it is short by the electrons in orbitals `nelec .. nelec+63`.
   */
  lemma {:induction false} AsWrittenLevel(s: seq<Word>, n: nat)
    requires n / 64 < |s|
    ensures n % 64 != 0 ==> LevelAsWritten(s, n) == Level(s, n)
    ensures n % 64 == 0 ==> LevelAsWritten(s, n) == Level(s, n) - OccCount(s, n, n + 64)
  {
    var g, b := n / 64, n % 64;
    assert n == 64 * g + b;
    if b == 0 {
      WordOccCount(s, g);
    } else {
      CorrectedIsLevel(s, n);
    }
  }

  /** With `n` electrons in all, the holes below `n` equal the electrons at or above `n`. */
  lemma {:induction false} LevelCountsExcited(s: seq<Word>, n: nat)
    requires Electrons(s) == n
    ensures Level(s, n) == OccCount(s, n, 64 * |s|)
  {
    if n <= 64 * |s| {
      OccCountSplit(s, 0, n, 64 * |s|);
    } else {
      OccCountBeyond(s, n);
    }
  }

  /** The lowest `hi - lo` orbitals all occupied: the count is full. */
  lemma {:induction false} OccCountFull(s: seq<Word>, lo: nat, hi: nat)
    requires lo <= hi
    requires forall o: nat :: lo <= o < hi ==> Occupied(s, o)
    ensures OccCount(s, lo, hi) == hi - lo
    decreases hi
  {
    if lo < hi {
      OccCountFull(s, lo, hi - 1);
    }
  }

  /**
   * The reference determinant `orblst2str(range(nelec), norb)` has level 0,
   * both as intended and as written, which is the seed level `[0, 0]` of the
   * driver.
   */
  lemma {:induction false} ReferenceLevel(n: nat, norb: nat)
    requires n <= norb
    ensures Fits(Range(n), (norb + 63) / 64)
    ensures Level(Encode(Range(n), norb), n) == 0
    ensures n / 64 < (norb + 63) / 64 ==> LevelAsWritten(Encode(Range(n), norb), n) == 0
  {
    RangeMembers(n);
    BelowNorbFits(Range(n), norb);
    RangeDistinct(n);
    var s := Encode(Range(n), norb);
    EncodeOccupied(Range(n), norb);
    OccCountFull(s, 0, n);
    OccCountNone(s, n, n + 64);
    if n / 64 < |s| {
      AsWrittenLevel(s, n);
    }
  }

  /** Members of `Range(n)`. */
  lemma {:induction false} RangeMembers(n: nat)
    ensures forall x: nat :: x in Range(n) <==> x < n
  {
    forall x: nat ensures x in Range(n) <==> x < n {
      if x < n {
        assert Range(n)[x] == x;
      }
    }
  }

  /** `Range(n)` has no repeated element. */
  lemma {:induction false} RangeDistinct(n: nat)
    ensures Distinct(Range(n))
  {
    forall i, j | 0 <= i < j < |Range(n)| ensures Range(n)[i] != Range(n)[j] {
    }
  }

  /** The word `1`: orbital 0 of its group only. */
  lemma {:induction false} LowestOnlyCount(w: Word)
    requires w == 1
    ensures PopCount(w) == 1
  {
    forall i | 1 <= i < 64 ensures !Bit(w, i) {
      Pow2Bit(0, i);
    }
    CountNone(w, 1, 64);
    CountSplit(w, 0, 1, 64);
  }

  /** The word `0xFFFF_FFFF_FFFF_FFFE`: every orbital of its group but the lowest. */
  lemma {:induction false} AllButLowestCount(w: Word)
    requires w == 0xFFFF_FFFF_FFFF_FFFE
    ensures PopCount(w) == 63
  {
    Pow2Word();
    assert w == Pow2(64) - Pow2(1);
    forall i | 1 <= i < 64 ensures Bit(w, i) {
      RangeBit(1, 64, i);
    }
    CountAll(w, 1, 64);
    CountSplit(w, 0, 1, 64);
  }

  /**
   * With 64 electrons, orbital 0 emptied and orbital 64 filled, the string
   * `s` is singly excited, but the source reports level 0.
   */
  lemma {:induction false} ExcitationCounterexample(s: seq<Word>)
    requires s == [1, 0xFFFF_FFFF_FFFF_FFFE]
    ensures Electrons(s) == 64
    ensures Level(s, 64) == 1
    ensures LevelAsWritten(s, 64) == 0
  {
    LowestOnlyCount(s[0]);
    AllButLowestCount(s[1]);
    WordOccCount(s, 0);
    WordOccCount(s, 1);
    OccCountSplit(s, 0, 64, 128);
  }
}
