/**
 * Spin strings: a determinant's occupation of one spin, packed into 64-bit
 * words. Word `-1-g` (index `|s|-1-g` here) holds orbitals `64g .. 64g+63`;
 * orbital `64g+b` is bit `b` of that word. This module holds `toggle_bit`,
 * `orblst2str`, `str2orblst` and `str_diff`, each as a method proved
 * against a specification function whose meaning is stated in terms of
 * which orbitals are occupied.
 */
module DetStrings {
  import opened Lists
  import opened Bits

  /** Orbital `o` is occupied in string `s`. */
  predicate Occupied(s: seq<Word>, o: nat)
  {
    o / 64 < |s| && Bit(s[|s| - 1 - o / 64], o % 64)
  }

  /** Orbital `64g+b` is bit `b` of word `-1-g`. */
  lemma {:induction false} OccupiedInWord(s: seq<Word>, g: nat, b: nat)
    requires g < |s| && b < 64
    ensures Occupied(s, 64 * g + b) == Bit(s[|s| - 1 - g], b)
  {
    assert (64 * g + b) / 64 == g && (64 * g + b) % 64 == b;
  }

  /** Two strings of the same length with the same occupied orbitals are equal. */
  lemma {:induction false} OccupiedDetermines(s: seq<Word>, t: seq<Word>)
    requires |s| == |t|
    requires forall o: nat :: Occupied(s, o) == Occupied(t, o)
    ensures s == t
  {
    forall k | 0 <= k < |s| ensures s[k] == t[k] {
      var g := |s| - 1 - k;
      forall i | 0 <= i < 64 ensures Bit(s[k], i) == Bit(t[k], i) {
        OccupiedInWord(s, g, i);
        OccupiedInWord(t, g, i);
        assert Occupied(s, 64 * g + i) == Occupied(t, 64 * g + i);
      }
      Pow2Word();
      BitsDetermine(s[k], t[k], 64);
    }
  }

  /** The number of occupied orbitals among `lo .. hi-1`. */
  function OccCount(s: seq<Word>, lo: nat, hi: nat): (r: nat)
    ensures r <= if lo <= hi then hi - lo else 0
    decreases hi, s
  {
    if hi <= lo then 0 else OccCount(s, lo, hi - 1) + (if Occupied(s, hi - 1) then 1 else 0)
  }

  lemma {:induction false} OccCountSplit(s: seq<Word>, lo: nat, mid: nat, hi: nat)
    requires lo <= mid <= hi
    ensures OccCount(s, lo, hi) == OccCount(s, lo, mid) + OccCount(s, mid, hi)
    decreases hi
  {
    if mid < hi {
      OccCountSplit(s, lo, mid, hi - 1);
    }
  }

  /** Within one word, counting orbitals is counting bits of that word. */
  lemma {:induction false} OccCountWord(s: seq<Word>, g: nat, a: nat, b: nat)
    requires g < |s| && a <= b <= 64
    ensures OccCount(s, 64 * g + a, 64 * g + b) == Count(s[|s| - 1 - g], a, b)
    decreases b
  {
    if a < b {
      OccCountWord(s, g, a, b - 1);
      OccupiedInWord(s, g, b - 1);
    }
  }

  /** The lowest `n` orbitals of word `-1-g` are counted by that word's lowest `n` bits. */
  lemma {:induction false} OccCountWordLow(s: seq<Word>, g: nat, n: nat)
    requires g < |s| && n <= 64
    ensures OccCount(s, 64 * g, 64 * g + n) == Count(s[|s| - 1 - g], 0, n)
  {
    OccCountWord(s, g, 0, n);
  }

  /** The orbitals of word `-1-g` are counted by that word's population count. */
  lemma {:induction false} WordOccCount(s: seq<Word>, g: nat)
    requires g < |s|
    ensures OccCount(s, 64 * g, 64 * g + 64) == PopCount(s[|s| - 1 - g])
  {
    OccCountWordLow(s, g, 64);
  }

  /** Word `k`, the next one scanned towards the end of the array, adds its popcount. */
  lemma {:induction false} WordsStep(s: seq<Word>, k: nat, hi: nat)
    requires k < |s| && 64 * (|s| - k) <= hi
    ensures OccCount(s, 64 * (|s| - (k + 1)), hi) == PopCount(s[k]) + OccCount(s, 64 * (|s| - k), hi)
  {
    var g := |s| - 1 - k;
    assert 64 * (|s| - (k + 1)) == 64 * g && 64 * (|s| - k) == 64 * g + 64;
    WordOccCount(s, g);
    OccCountSplit(s, 64 * g, 64 * g + 64, hi);
  }

  /** No orbital of `lo .. hi-1` is occupied. */
  lemma {:induction false} OccCountNone(s: seq<Word>, lo: nat, hi: nat)
    requires forall o: nat :: lo <= o < hi ==> !Occupied(s, o)
    ensures OccCount(s, lo, hi) == 0
    decreases hi
  {
    if lo < hi {
      OccCountNone(s, lo, hi - 1);
    }
  }

  /** A string has no orbital beyond its last word. */
  lemma {:induction false} OccCountBeyond(s: seq<Word>, hi: nat)
    requires 64 * |s| <= hi
    ensures OccCount(s, 0, hi) == OccCount(s, 0, 64 * |s|)
  {
    OccCountSplit(s, 0, 64 * |s|, hi);
    OccCountNone(s, 64 * |s|, hi);
  }

  // ---------------------------------------------------------------- toggle_bit

  /** The string with orbital `place` flipped. */
  function Toggled(s: seq<Word>, place: nat): (r: seq<Word>)
    requires place / 64 < |s|
    ensures |r| == |s|
  {
    var k := |s| - 1 - place / 64;
    s[k := XorWord(s[k], SingleBit(place % 64))]
  }

  /** Flipping orbital `place` changes the occupation of that orbital and of no other. */
  lemma {:induction false} ToggledOccupied(s: seq<Word>, place: nat)
    requires place / 64 < |s|
    ensures forall o: nat :: Occupied(Toggled(s, place), o) == (Occupied(s, o) != (o == place))
  {
    var k := |s| - 1 - place / 64;
    XorWordBits(s[k], SingleBit(place % 64));
    SingleBitBits(place % 64);
    forall o: nat ensures Occupied(Toggled(s, place), o) == (Occupied(s, o) != (o == place)) {
      if o / 64 == place / 64 {
        assert o == 64 * (o / 64) + o % 64 && place == 64 * (place / 64) + place % 64;
      }
    }
  }

  /** Flipping the same orbital twice restores the string. */
  lemma {:induction false} ToggleTwice(s: seq<Word>, place: nat)
    requires place / 64 < |s|
    ensures Toggled(Toggled(s, place), place) == s
  {
    ToggledOccupied(s, place);
    ToggledOccupied(Toggled(s, place), place);
    OccupiedDetermines(Toggled(Toggled(s, place), place), s);
  }

  /** `toggle_bit(s, place)`: flips orbital `place` of the word array in place. */
  method ToggleBit(a: array<Word>, place: nat)
    requires place / 64 < a.Length
    modifies a
    ensures a[..] == Toggled(old(a[..]), place)
  {
    var k := a.Length - 1 - place / 64;
    a[k] := XorWord(a[k], SingleBit(place % 64));
  }

  // ---------------------------------------------------------------- orblst2str

  /** `numpy.zeros(n, dtype=numpy.uint64)`. */
  function Zeros(n: nat): (r: seq<Word>)
    ensures |r| == n
  {
    seq(n, k => 0)
  }

  /** The zero string has no occupied orbital. */
  lemma {:induction false} ZerosEmpty(n: nat)
    ensures forall o: nat :: !Occupied(Zeros(n), o)
  {
    forall o: nat ensures !Occupied(Zeros(n), o) {
      ZeroBit(o % 64);
    }
  }

  /** Every orbital of `lst` fits in a string of `n` words. */
  predicate Fits(lst: seq<nat>, n: nat)
  {
    forall k :: 0 <= k < |lst| ==> lst[k] / 64 < n
  }

  /** `s` with every orbital of `lst` flipped in turn. */
  function Toggles(s: seq<Word>, lst: seq<nat>): (r: seq<Word>)
    requires Fits(lst, |s|)
    ensures |r| == |s|
  {
    if lst == [] then s else Toggled(Toggles(s, lst[..|lst| - 1]), lst[|lst| - 1])
  }

  /** After flipping the orbitals of `lst`, an orbital has changed exactly when it occurs an odd number of times in `lst`. */
  lemma {:induction false} TogglesOccupied(s: seq<Word>, lst: seq<nat>, o: nat)
    requires Fits(lst, |s|)
    ensures Occupied(Toggles(s, lst), o) == (Occupied(s, o) != (Occurrences(lst, o) % 2 == 1))
    decreases |lst|
  {
    if lst != [] {
      var init: seq<nat>, last: nat := lst[..|lst| - 1], lst[|lst| - 1];
      TogglesOccupied(s, init, o);
      var t := Toggles(s, init);
      assert Toggles(s, lst) == Toggled(t, last);
      ToggledOccupied(t, last);
    }
  }

  /** `orblst2str(lst, norb)`: the string of `(norb+63)//64` words that has the orbitals of `lst` flipped. */
  function Encode(lst: seq<nat>, norb: nat): (r: seq<Word>)
    requires Fits(lst, (norb + 63) / 64)
    ensures |r| == (norb + 63) / 64
  {
    Toggles(Zeros((norb + 63) / 64), lst)
  }

  /** An orbital list without repeats encodes to the string occupying exactly those orbitals. */
  lemma {:induction false} EncodeOccupied(lst: seq<nat>, norb: nat)
    requires Distinct(lst) && Fits(lst, (norb + 63) / 64)
    ensures forall o: nat :: Occupied(Encode(lst, norb), o) <==> o in lst
  {
    ZerosEmpty((norb + 63) / 64);
    forall o: nat ensures Occupied(Encode(lst, norb), o) <==> o in lst {
      TogglesOccupied(Zeros((norb + 63) / 64), lst, o);
      DistinctOccurrences(lst, o);
    }
  }

  /** Orbitals below `norb` fit in `(norb+63)//64` words. */
  lemma {:induction false} BelowNorbFits(lst: seq<nat>, norb: nat)
    requires forall x :: x in lst ==> x < norb
    ensures Fits(lst, (norb + 63) / 64)
  {
    forall k | 0 <= k < |lst| ensures lst[k] / 64 < (norb + 63) / 64 {
      assert lst[k] in lst;
      assert (norb + 63) / 64 == (norb - 1) / 64 + 1;
    }
  }

  /** `orblst2str(lst, norb)` on a fresh zero-filled word array. */
  method OrbLst2Str(lst: seq<nat>, norb: nat) returns (a: array<Word>)
    requires Fits(lst, (norb + 63) / 64)
    ensures fresh(a)
    ensures a[..] == Encode(lst, norb)
  {
    a := new Word[(norb + 63) / 64](_ => 0);
    assert a[..] == Zeros(a.Length);
    for j := 0 to |lst|
      invariant a[..] == Toggles(Zeros(a.Length), lst[..j])
    {
      assert lst[..j + 1][..j] == lst[..j];
      ToggleBit(a, lst[j]);
    }
    assert lst[..|lst|] == lst;
  }

  // ---------------------------------------------------------------- str2orblst

  /** The occupied orbitals of word `-1-g`, as `str2orblst` lists them: its set bits shifted by `64g`. */
  function WordOrbitals(s: seq<Word>, g: nat): seq<nat>
    requires g < |s|
  {
    Shift(Find1(s[|s| - 1 - g]), 64 * g)
  }

  lemma {:induction false} WordOrbitalsSpec(s: seq<Word>, g: nat)
    requires g < |s|
    ensures StrictlyIncreasing(WordOrbitals(s, g))
    ensures forall x: nat :: x in WordOrbitals(s, g) <==> 64 * g <= x < 64 * g + 64 && Occupied(s, x)
  {
    var w := s[|s| - 1 - g];
    var off := 64 * g;
    Find1Spec(w);
    ShiftIncreasing(Find1(w), off);
    ShiftMembers(Find1(w), off);
    forall x: nat ensures x in WordOrbitals(s, g) <==> off <= x < off + 64 && Occupied(s, x) {
      if off <= x < off + 64 {
        OccupiedInWord(s, g, x - off);
      }
    }
  }

  lemma {:induction false} WordOrbitalsLength(s: seq<Word>, g: nat)
    requires g < |s|
    ensures |WordOrbitals(s, g)| == OccCount(s, 64 * g, 64 * g + 64)
  {
    SetBitsLength(s[|s| - 1 - g], 64);
    WordOccCount(s, g);
  }

  /** The occupied orbitals of the lowest `m` words, word by word from the last array element backwards. */
  function OccUpTo(s: seq<Word>, m: nat): seq<nat>
    requires m <= |s|
  {
    if m == 0 then [] else OccUpTo(s, m - 1) + WordOrbitals(s, m - 1)
  }

  lemma {:induction false} OccUpToMembers(s: seq<Word>, m: nat)
    requires m <= |s|
    ensures forall x: nat :: x in OccUpTo(s, m) <==> x < 64 * m && Occupied(s, x)
  {
    if m > 0 {
      OccUpToMembers(s, m - 1);
      WordOrbitalsSpec(s, m - 1);
    }
  }

  lemma {:induction false} OccUpToLength(s: seq<Word>, m: nat)
    requires m <= |s|
    ensures |OccUpTo(s, m)| == OccCount(s, 0, 64 * m)
  {
    if m > 0 {
      var off := 64 * (m - 1);
      assert off + 64 == 64 * m;
      OccUpToLength(s, m - 1);
      WordOrbitalsLength(s, m - 1);
      OccCountSplit(s, 0, off, off + 64);
    }
  }

  lemma {:induction false} OccUpToIncreasing(s: seq<Word>, m: nat)
    requires m <= |s|
    ensures StrictlyIncreasing(OccUpTo(s, m))
  {
    if m > 0 {
      OccUpToIncreasing(s, m - 1);
      OccUpToMembers(s, m - 1);
      WordOrbitalsSpec(s, m - 1);
      ConcatIncreasing(OccUpTo(s, m - 1), WordOrbitals(s, m - 1), 64 * (m - 1));
    }
  }

  /** `str2orblst(s, norb)[0]`: the occupied orbitals of `s`, lowest word first. */
  function Orbitals(s: seq<Word>): seq<nat>
  {
    OccUpTo(s, |s|)
  }

  /** The occupied list is ascending, holds exactly the occupied orbitals, and has one entry per set bit. */
  lemma {:induction false} OrbitalsSpec(s: seq<Word>)
    ensures StrictlyIncreasing(Orbitals(s))
    ensures forall x: nat :: x in Orbitals(s) <==> Occupied(s, x)
    ensures |Orbitals(s)| == OccCount(s, 0, 64 * |s|)
  {
    OccUpToIncreasing(s, |s|);
    OccUpToMembers(s, |s|);
    OccUpToLength(s, |s|);
  }

  /** The positions below `n` of the zero digits of `w`, ascending. */
  function ClearBitsBelow(w: Word, n: nat): seq<nat>
    decreases n, w
  {
    if n == 0 then [] else ClearBitsBelow(w, n - 1) + (if Bit(w, n - 1) then [] else [n - 1])
  }

  lemma {:induction false} ClearBitsMembers(w: Word, n: nat)
    ensures forall x: nat :: x in ClearBitsBelow(w, n) <==> x < n && !Bit(w, x)
  {
    if n > 0 {
      ClearBitsMembers(w, n - 1);
    }
  }

  lemma {:induction false} ClearBitsIncreasing(w: Word, n: nat)
    ensures StrictlyIncreasing(ClearBitsBelow(w, n))
  {
    if n > 0 {
      ClearBitsIncreasing(w, n - 1);
      ClearBitsMembers(w, n - 1);
      var prefix := ClearBitsBelow(w, n - 1);
      forall k | 0 <= k < |prefix| ensures prefix[k] < n - 1 {
        assert prefix[k] in prefix;
      }
    }
  }

  /** How many orbitals of the word at offset `off` `str2orblst` scans for virtuals: `min(64, norb-off)`, none when negative. */
  function VirWidth(norb: nat, off: nat): (r: nat)
    ensures r <= 64
  {
    if norb < off then 0 else if norb - off < 64 then norb - off else 64
  }

  /** The unoccupied orbitals among the first `width` orbitals of word `-1-g`, ascending. */
  function WordVirtuals(s: seq<Word>, g: nat, width: nat): seq<nat>
    requires g < |s|
  {
    Shift(ClearBitsBelow(s[|s| - 1 - g], width), 64 * g)
  }

  lemma {:induction false} WordVirtualsMembers(s: seq<Word>, g: nat, width: nat)
    requires g < |s| && width <= 64
    ensures forall x: nat :: x in WordVirtuals(s, g, width) <==> 64 * g <= x < 64 * g + width && !Occupied(s, x)
  {
    var off := 64 * g;
    var clear := ClearBitsBelow(s[|s| - 1 - g], width);
    ClearBitsMembers(s[|s| - 1 - g], width);
    ShiftMembers(clear, off);
    forall x: nat ensures x in Shift(clear, off) <==> off <= x < off + width && !Occupied(s, x) {
      if off <= x < off + width {
        OccupiedInWord(s, g, x - off);
      }
    }
  }

  lemma {:induction false} WordVirtualsIncreasing(s: seq<Word>, g: nat, width: nat)
    requires g < |s|
    ensures StrictlyIncreasing(WordVirtuals(s, g, width))
  {
    ClearBitsIncreasing(s[|s| - 1 - g], width);
    ShiftIncreasing(ClearBitsBelow(s[|s| - 1 - g], width), 64 * g);
  }

  /** The unoccupied orbitals below `norb` of the lowest `m` words. */
  function VirUpTo(s: seq<Word>, norb: nat, m: nat): seq<nat>
    requires m <= |s|
  {
    if m == 0 then [] else VirUpTo(s, norb, m - 1) + WordVirtuals(s, m - 1, VirWidth(norb, 64 * (m - 1)))
  }

  lemma {:induction false} VirUpToMembers(s: seq<Word>, norb: nat, m: nat)
    requires m <= |s|
    ensures forall x: nat :: x in VirUpTo(s, norb, m) <==> x < norb && x < 64 * m && !Occupied(s, x)
  {
    if m > 0 {
      VirUpToMembers(s, norb, m - 1);
      WordVirtualsMembers(s, m - 1, VirWidth(norb, 64 * (m - 1)));
    }
  }

  lemma {:induction false} VirUpToIncreasing(s: seq<Word>, norb: nat, m: nat)
    requires m <= |s|
    ensures StrictlyIncreasing(VirUpTo(s, norb, m))
  {
    if m > 0 {
      var width := VirWidth(norb, 64 * (m - 1));
      VirUpToIncreasing(s, norb, m - 1);
      VirUpToMembers(s, norb, m - 1);
      WordVirtualsIncreasing(s, m - 1, width);
      WordVirtualsMembers(s, m - 1, width);
      ConcatIncreasing(VirUpTo(s, norb, m - 1), WordVirtuals(s, m - 1, width), 64 * (m - 1));
    }
  }

  /** `str2orblst(s, norb)[1]`: the unoccupied orbitals below `norb`, lowest word first. */
  function Virtuals(s: seq<Word>, norb: nat): seq<nat>
  {
    VirUpTo(s, norb, |s|)
  }

  /** The virtual list is ascending and holds exactly the unoccupied orbitals below `norb` that the string covers. */
  lemma {:induction false} VirtualsSpec(s: seq<Word>, norb: nat)
    ensures StrictlyIncreasing(Virtuals(s, norb))
    ensures forall x: nat :: x in Virtuals(s, norb) <==> x < norb && x < 64 * |s| && !Occupied(s, x)
  {
    VirUpToIncreasing(s, norb, |s|);
    VirUpToMembers(s, norb, |s|);
  }

  /** `s & numpy.uint64(1 << i)` is non-zero exactly when bit `i` is set. */
  lemma {:induction false} TestBit(w: Word, i: nat)
    requires i < 64
    ensures AndWord(w, SingleBit(i)) != 0 <==> Bit(w, i)
  {
    var x := AndWord(w, SingleBit(i));
    AndWordBits(w, SingleBit(i));
    SingleBitBits(i);
    if Bit(w, i) {
      ZeroBit(i);
    } else {
      forall j | 0 <= j < 64 ensures Bit(x, j) == Bit(0, j) {
        ZeroBit(j);
      }
      Pow2Word();
      BitsDetermine(x, 0, 64);
    }
  }

  /** One more word appends its occupied orbitals. */
  lemma {:induction false} OccUpToStep(s: seq<Word>, m: nat)
    requires m < |s|
    ensures OccUpTo(s, m + 1) == OccUpTo(s, m) + Shift(Find1(s[|s| - 1 - m]), 64 * m)
  {
  }

  /** One more word appends its unoccupied orbitals below `norb`. */
  lemma {:induction false} VirUpToStep(s: seq<Word>, norb: nat, m: nat)
    requires m < |s|
    ensures VirUpTo(s, norb, m + 1) == VirUpTo(s, norb, m) + Shift(ClearBitsBelow(s[|s| - 1 - m], VirWidth(norb, 64 * m)), 64 * m)
  {
  }

  /** The inner loop of `str2orblst`: the unoccupied orbitals among the lowest `width` bits of word `w`, offset by `off`. */
  method WordVirtualScan(w: Word, width: nat, off: nat) returns (vir: seq<nat>)
    requires width <= 64
    ensures vir == Shift(ClearBitsBelow(w, width), off)
  {
    vir := [];
    var i := 0;
    while i < width
      invariant i <= width
      invariant vir == Shift(ClearBitsBelow(w, i), off)
    {
      TestBit(w, i);
      ShiftConcat(ClearBitsBelow(w, i), if Bit(w, i) then [] else [i], off);
      if AndWord(w, SingleBit(i)) == 0 {
        vir := vir + [i + off];
      }
      i := i + 1;
    }
  }

  /** `str2orblst(string, norb)`: the occupied orbitals, and the unoccupied ones below `norb`. */
  method Str2OrbLst(s: seq<Word>, norb: nat) returns (occ: seq<nat>, vir: seq<nat>)
    ensures occ == Orbitals(s) && vir == Virtuals(s, norb)
  {
    occ := [];
    vir := [];
    var off: nat := 0;
    var m := 0;
    while m < |s|
      invariant m <= |s|
      invariant off == 64 * m
      invariant occ == OccUpTo(s, m)
      invariant vir == VirUpTo(s, norb, m)
    {
      var k := |s| - 1 - m;
      var w := s[k];
      OccUpToStep(s, m);
      VirUpToStep(s, norb, m);
      occ := occ + Shift(Find1(w), off);
      var more := WordVirtualScan(w, VirWidth(norb, off), off);
      vir := vir + more;
      off := off + 64;
      m := m + 1;
    }
  }

  /** With nothing set at or above `norb`, every orbital below `norb` is in exactly one of the two lists, and the lists share out the `norb` orbitals. */
  lemma {:induction false} OccVirPartition(s: seq<Word>, norb: nat)
    requires norb <= 64 * |s|
    requires forall o: nat :: norb <= o ==> !Occupied(s, o)
    ensures forall x: nat :: x < norb ==> (x in Orbitals(s) <==> x !in Virtuals(s, norb))
    ensures forall x: nat :: !(x in Orbitals(s) && x in Virtuals(s, norb))
    ensures |Virtuals(s, norb)| == norb - |Orbitals(s)|
  {
    OrbitalsSpec(s);
    VirtualsSpec(s, norb);
    IncreasingDistinct(Orbitals(s));
    IncreasingDistinct(Virtuals(s, norb));
    forall x: nat ensures x in Orbitals(s) || x in Virtuals(s, norb) <==> x < norb {
      if x >= norb {
        assert !Occupied(s, x);
      }
    }
    PartitionLength(Orbitals(s), Virtuals(s, norb), norb);
  }

  /** Decoding an encoded list of distinct orbitals below `norb` gives the list sorted: ascending, with the same elements. */
  lemma {:induction false} RoundTrip(lst: seq<nat>, norb: nat)
    requires Distinct(lst)
    requires forall x :: x in lst ==> x < norb
    ensures Fits(lst, (norb + 63) / 64)
    ensures StrictlyIncreasing(Orbitals(Encode(lst, norb)))
    ensures multiset(Orbitals(Encode(lst, norb))) == multiset(lst)
  {
    BelowNorbFits(lst, norb);
    var r := Orbitals(Encode(lst, norb));
    OrbitalsSpec(Encode(lst, norb));
    EncodeOccupied(lst, norb);
    IncreasingDistinct(r);
    SameMembersPermutation(r, lst);
  }

  // ---------------------------------------------------------------- str_diff

  /** Word by word, `(s0 ^ s1) & s0`: the bits `s0` has and `s1` lacks. */
  function Lacking(s0: seq<Word>, s1: seq<Word>): seq<Word>
    requires |s1| == |s0|
  {
    seq(|s0|, k requires 0 <= k < |s0| => AndWord(XorWord(s0[k], s1[k]), s0[k]))
  }

  /** Word by word, `(s0 ^ s1) & s1`: the bits `s1` has and `s0` lacks. */
  function Gaining(s0: seq<Word>, s1: seq<Word>): seq<Word>
    requires |s1| == |s0|
  {
    seq(|s0|, k requires 0 <= k < |s0| => AndWord(XorWord(s0[k], s1[k]), s1[k]))
  }

  lemma {:induction false} LackingOccupied(s0: seq<Word>, s1: seq<Word>)
    requires |s1| == |s0|
    ensures forall o: nat :: Occupied(Lacking(s0, s1), o) <==> Occupied(s0, o) && !Occupied(s1, o)
  {
    forall o: nat ensures Occupied(Lacking(s0, s1), o) <==> Occupied(s0, o) && !Occupied(s1, o) {
      if o / 64 < |s0| {
        var k := |s0| - 1 - o / 64;
        XorWordBits(s0[k], s1[k]);
        AndWordBits(XorWord(s0[k], s1[k]), s0[k]);
      }
    }
  }

  lemma {:induction false} XorCommutes(a: Word, b: Word)
    ensures XorWord(a, b) == XorWord(b, a)
  {
    XorWordBits(a, b);
    XorWordBits(b, a);
    Pow2Word();
    BitsDetermine(XorWord(a, b), XorWord(b, a), 64);
  }

  /** What `s1` gains over `s0` is what `s0` lacks from the point of view of `s1`. */
  lemma {:induction false} GainingIsLacking(s0: seq<Word>, s1: seq<Word>)
    requires |s1| == |s0|
    ensures Gaining(s0, s1) == Lacking(s1, s0)
  {
    forall k | 0 <= k < |s0| ensures Gaining(s0, s1)[k] == Lacking(s1, s0)[k] {
      XorCommutes(s0[k], s1[k]);
    }
  }

  /** `str_diff(s0, s1)` as a value: the orbitals emptied and the orbitals filled going from `s0` to `s1`. */
  function Diff(s0: seq<Word>, s1: seq<Word>): (seq<nat>, seq<nat>)
    requires |s1| == |s0|
  {
    (Orbitals(Lacking(s0, s1)), Orbitals(Gaining(s0, s1)))
  }

  /** Both lists are ascending; the first holds the orbitals occupied only in `s0`, the second those occupied only in `s1`. */
  lemma {:induction false} DiffSpec(s0: seq<Word>, s1: seq<Word>)
    requires |s1| == |s0|
    ensures StrictlyIncreasing(Diff(s0, s1).0) && StrictlyIncreasing(Diff(s0, s1).1)
    ensures forall x: nat :: x in Diff(s0, s1).0 <==> Occupied(s0, x) && !Occupied(s1, x)
    ensures forall x: nat :: x in Diff(s0, s1).1 <==> Occupied(s1, x) && !Occupied(s0, x)
  {
    OrbitalsSpec(Lacking(s0, s1));
    OrbitalsSpec(Gaining(s0, s1));
    LackingOccupied(s0, s1);
    GainingIsLacking(s0, s1);
    LackingOccupied(s1, s0);
  }

  /** Word `-1-m` of the emptied orbitals is `(s0 ^ s1) & s0` on word `-1-m`, and likewise for the filled ones. */
  lemma {:induction false} DiffStep(s0: seq<Word>, s1: seq<Word>, m: nat)
    requires |s1| == |s0| && m < |s0|
    ensures var k := |s0| - 1 - m;
      && OccUpTo(Lacking(s0, s1), m + 1) == OccUpTo(Lacking(s0, s1), m) + Shift(Find1(AndWord(XorWord(s0[k], s1[k]), s0[k])), 64 * m)
      && OccUpTo(Gaining(s0, s1), m + 1) == OccUpTo(Gaining(s0, s1), m) + Shift(Find1(AndWord(XorWord(s0[k], s1[k]), s1[k])), 64 * m)
  {
    var k := |s0| - 1 - m;
    var lack, gain := Lacking(s0, s1), Gaining(s0, s1);
    assert |lack| == |gain| == |s0|;
    assert lack[k] == AndWord(XorWord(s0[k], s1[k]), s0[k]);
    assert gain[k] == AndWord(XorWord(s0[k], s1[k]), s1[k]);
    OccUpToStep(lack, m);
    OccUpToStep(gain, m);
  }

  /** `str_diff(string0, string1)`. */
  method StrDiff(s0: seq<Word>, s1: seq<Word>) returns (des: seq<nat>, cre: seq<nat>)
    requires |s1| == |s0|
    ensures (des, cre) == Diff(s0, s1)
  {
    des := [];
    cre := [];
    var off: nat := 0;
    var m := 0;
    while m < |s0|
      invariant m <= |s0|
      invariant off == 64 * m
      invariant des == OccUpTo(Lacking(s0, s1), m)
      invariant cre == OccUpTo(Gaining(s0, s1), m)
    {
      var k := |s0| - 1 - m;
      DiffStep(s0, s1, m);
      var df := XorWord(s0[k], s1[k]);
      des := des + Shift(Find1(AndWord(df, s0[k])), off);
      cre := cre + Shift(Find1(AndWord(df, s1[k])), off);
      off := off + 64;
      m := m + 1;
    }
  }

  /** Exchanging the two strings exchanges the emptied and the filled orbitals. */
  lemma {:induction false} DiffSwap(s0: seq<Word>, s1: seq<Word>)
    requires |s1| == |s0|
    ensures Diff(s1, s0) == (Diff(s0, s1).1, Diff(s0, s1).0)
  {
    GainingIsLacking(s0, s1);
    GainingIsLacking(s1, s0);
  }

  /** The emptied and filled orbitals are disjoint, and flipping them all turns `s0` into `s1`. */
  lemma {:induction false} DiffApplies(s0: seq<Word>, s1: seq<Word>)
    requires |s1| == |s0|
    ensures forall x :: !(x in Diff(s0, s1).0 && x in Diff(s0, s1).1)
    ensures Fits(Diff(s0, s1).0 + Diff(s0, s1).1, |s0|)
    ensures Toggles(s0, Diff(s0, s1).0 + Diff(s0, s1).1) == s1
  {
    DiffSpec(s0, s1);
    var (des, cre) := Diff(s0, s1);
    var both := des + cre;
    assert Fits(both, |s0|) by {
      forall k | 0 <= k < |both| ensures both[k] / 64 < |s0| {
        assert both[k] in des || both[k] in cre;
      }
    }
    IncreasingDistinct(des);
    IncreasingDistinct(cre);
    assert Distinct(both) by {
      forall i, j | 0 <= i < j < |both| ensures both[i] != both[j] {
        if i < |des| && |des| <= j {
          assert both[i] in des && both[j] in cre;
        } else if |des| <= i {
          assert both[i] == cre[i - |des|] && both[j] == cre[j - |des|];
        }
      }
    }
    assert forall x: nat :: x in both <==> Occupied(s0, x) != Occupied(s1, x);
    FlipDifference(s0, s1, both);
  }

  /** Flipping, once each, exactly the orbitals where two strings differ turns one into the other. */
  lemma {:induction false} FlipDifference(s0: seq<Word>, s1: seq<Word>, both: seq<nat>)
    requires |s1| == |s0| && Fits(both, |s0|) && Distinct(both)
    requires forall x: nat :: x in both <==> Occupied(s0, x) != Occupied(s1, x)
    ensures Toggles(s0, both) == s1
  {
    forall o: nat ensures Occupied(Toggles(s0, both), o) == Occupied(s1, o) {
      DistinctOccurrences(both, o);
      FlipOne(s0, both, o, Occupied(s0, o) != Occupied(s1, o));
    }
    OccupiedDetermines(Toggles(s0, both), s1);
  }

  /** Flipping the orbitals of a list that holds `o` at most once changes orbital `o` exactly when the list holds it. */
  lemma {:induction false} FlipOne(s: seq<Word>, lst: seq<nat>, o: nat, listed: bool)
    requires Fits(lst, |s|)
    requires Occurrences(lst, o) == if listed then 1 else 0
    ensures Occupied(Toggles(s, lst), o) == (Occupied(s, o) != listed)
  {
    TogglesOccupied(s, lst, o);
  }
}
