/**
 * The merge step of `enlarge_space`: keep the determinants on which some
 * root has a coefficient above the cutoff, append the candidate strings
 * (with their excitation levels) proposed for each root, remove duplicate
 * strings with `numpy.unique(..., return_index=True)` over a raw-byte view
 * of each row, and zero-extend each root's coefficient vector onto the
 * merged rows.
 *
 * Rows are the concatenated alpha and beta strings of a determinant, all
 * of one width. `numpy.unique` on the byte view orders rows by their
 * little-endian bytes and reports the first occurrence of each distinct row.
 */
module Enlarge {
  import opened Lists
  import opened Bits
  import opened ArgUnique

  /** `256^n`. */
  function Pow256(n: nat): (r: nat)
    ensures r >= 1
  {
    if n == 0 then 1 else 256 * Pow256(n - 1)
  }

  /** The `n` little-endian bytes of `w`, lowest first. */
  function LEBytes(w: nat, n: nat): (r: seq<nat>)
    ensures |r| == n
  {
    if n == 0 then [] else [w % 256] + LEBytes(w / 256, n - 1)
  }

  /** The number whose little-endian bytes are `bs`. */
  function FromLE(bs: seq<nat>): nat
  {
    if bs == [] then 0 else bs[0] + 256 * FromLE(bs[1..])
  }

  /** Reading back the bytes of a number that fits in them gives the number. */
  lemma {:induction false} LEBytesRoundTrip(w: nat, n: nat)
    requires w < Pow256(n)
    ensures FromLE(LEBytes(w, n)) == w
    decreases n
  {
    if n > 0 {
      var hi := w / 256;
      assert hi < Pow256(n - 1);
      LEBytesRoundTrip(hi, n - 1);
      assert LEBytes(w, n)[1..] == LEBytes(hi, n - 1);
    }
  }

  /** A word fills eight bytes. */
  lemma {:induction false} WordBytes()
    ensures Pow256(8) == WordLimit
  {
    assert Pow256(2) == 0x1_0000;
    assert Pow256(4) == 0x1_0000_0000;
    assert Pow256(6) == 0x1_0000_0000_0000;
  }

  /** A row as the bytes its `numpy.void` view compares: each word's eight bytes, in word order. */
  function RowBytes(row: seq<Word>): (r: seq<nat>)
    ensures |r| == 8 * |row|
  {
    if row == [] then [] else LEBytes(row[0], 8) + RowBytes(row[1..])
  }

  /** Rows of one width with the same bytes are the same row. */
  lemma {:induction false} RowBytesInjective(x: seq<Word>, y: seq<Word>)
    requires |x| == |y| && RowBytes(x) == RowBytes(y)
    ensures x == y
    decreases |x|
  {
    if x != [] {
      var rx, ry := RowBytes(x), RowBytes(y);
      assert rx[..8] == LEBytes(x[0], 8) && rx[8..] == RowBytes(x[1..]);
      assert ry[..8] == LEBytes(y[0], 8) && ry[8..] == RowBytes(y[1..]);
      WordBytes();
      LEBytesRoundTrip(x[0], 8);
      LEBytesRoundTrip(y[0], 8);
      RowBytesInjective(x[1..], y[1..]);
      assert x == [x[0]] + x[1..] && y == [y[0]] + y[1..];
    }
  }

  /** The byte view of every row. */
  function ByteRows(strs: seq<seq<Word>>): (r: seq<seq<nat>>)
    ensures |r| == |strs|
  {
    seq(|strs|, i requires 0 <= i < |strs| => RowBytes(strs[i]))
  }

  /** Every row has `w` words. */
  predicate Width(rows: seq<seq<Word>>, w: nat)
  {
    forall i :: 0 <= i < |rows| ==> |rows[i]| == w
  }

  /** `[n-1, ..., 1, 0]`. */
  function Descending(n: nat): (r: seq<nat>)
    ensures |r| == n
  {
    seq(n, k requires 0 <= k < n => n - 1 - k)
  }

  /** The descending positions name every row once. */
  lemma {:induction false} DescendingSpec(keys: seq<seq<nat>>)
    ensures Valid(keys, Descending(|keys|))
    ensures Ordered(Descending(|keys|), false)
    ensures forall i: nat :: i < |keys| ==> i in Descending(|keys|)
  {
    var d := Descending(|keys|);
    forall i: nat | i < |keys| ensures i in d {
      assert d[|keys| - 1 - i] == i;
    }
  }

  /**
   * `numpy.unique(rows, return_index=True)[1]`: the position of the first
   * occurrence of each distinct row, in ascending byte order of the rows.
   * It is computed by the deduplicating quicksort of `argunique` over the
   * positions in descending order, which keeps the last position of each
   * group it sees, that is the first occurrence.
   */
  function UniqueFirst(strs: seq<seq<Word>>): seq<nat>
  {
    DescendingSpec(ByteRows(strs));
    Qsort(ByteRows(strs), Descending(|strs|))
  }

  /** The positions `numpy.unique` reports name rows. */
  lemma {:induction false} UniqueFirstValid(strs: seq<seq<Word>>)
    ensures Valid(ByteRows(strs), UniqueFirst(strs))
  {
    var keys := ByteRows(strs);
    DescendingSpec(keys);
    var u := UniqueFirst(strs);
    QsortMembers(keys, Descending(|strs|));
    forall k | 0 <= k < |u| ensures u[k] < |keys| {
      assert u[k] in Descending(|strs|);
    }
  }

  /** The rows `numpy.unique` reports are strictly ascending in byte order, so no two are equal. */
  lemma {:induction false} UniqueFirstSorted(strs: seq<seq<Word>>, w: nat)
    requires Width(strs, w)
    ensures SortedBy(ByteRows(strs), UniqueFirst(strs))
    ensures Distinct(Pick(strs, UniqueFirst(strs)))
  {
    var keys := ByteRows(strs);
    DescendingSpec(keys);
    QsortSorted(keys, Descending(|strs|));
    var u := UniqueFirst(strs);
    forall a, b | 0 <= a < b < |u| ensures strs[u[a]] != strs[u[b]] {
      CompareOrder(keys[u[a]], keys[u[b]]);
    }
  }

  /** Every row equals a row `numpy.unique` reports. */
  lemma {:induction false} UniqueFirstCovers(strs: seq<seq<Word>>, w: nat, i: nat)
    requires Width(strs, w) && i < |strs|
    ensures exists k :: 0 <= k < |UniqueFirst(strs)| && UniqueFirst(strs)[k] < |strs| && strs[UniqueFirst(strs)[k]] == strs[i]
  {
    var keys := ByteRows(strs);
    DescendingSpec(keys);
    UniqueFirstValid(strs);
    QsortCovers(keys, Descending(|strs|), i);
    var u := UniqueFirst(strs);
    var j :| j in u && j < |keys| && i < |keys| && keys[j] == keys[i];
    RowBytesInjective(strs[j], strs[i]);
    var k :| 0 <= k < |u| && u[k] == j;
  }

  /** Each reported position is the first occurrence of its row. */
  lemma {:induction false} UniqueFirstIsFirst(strs: seq<seq<Word>>, w: nat, k: nat, i: nat)
    requires Width(strs, w) && k < |UniqueFirst(strs)| && i < |strs|
    requires UniqueFirst(strs)[k] < |strs| && strs[i] == strs[UniqueFirst(strs)[k]]
    ensures UniqueFirst(strs)[k] <= i
  {
    var keys := ByteRows(strs);
    DescendingSpec(keys);
    QsortKeepsLast(keys, Descending(|strs|), false);
    var u := UniqueFirst(strs);
    assert u[k] in u && i in Descending(|strs|);
    assert keys[i] == keys[u[k]];
  }

  /** An `_SCIvector`: coefficients with the determinant rows and excitation levels they belong to. */
  datatype SCIVector = SCIVector(coeffs: seq<real>, strs: seq<seq<Word>>, ts: seq<(int, int)>)

  /** The rows and levels `select_strs_ctypes` proposes for one root. */
  datatype Candidates = Candidates(strs: seq<seq<Word>>, ts: seq<(int, int)>)

  /** What a Python call does: raise an exception, or return a value. */
  datatype Outcome<T> = Raised | Returned(value: T)

  /**
   * Every root has at least one candidate. For a root with none,
   * `select_strs_ctypes` returns a three-dimensional empty array, which
   * `numpy.vstack` cannot stack onto the two-dimensional `strs`.
   */
  predicate Proposed(cands: seq<Candidates>)
  {
    forall p :: 0 <= p < |cands| ==> |cands[p].strs| > 0
  }

  function Abs(x: real): real
  {
    if x < 0.0 then -x else x
  }

  /**
   * What the source relies on: at least one root, one coefficient per row
   * for each root, one level pair per row, one candidate set per root with
   * a level pair per candidate, and all rows of width `w`.
   */
  predicate Shaped(coeffs: seq<seq<real>>, strs: seq<seq<Word>>, ts: seq<(int, int)>, cands: seq<Candidates>, w: nat)
  {
    |coeffs| >= 1 && |cands| == |coeffs| && |ts| == |strs| && Width(strs, w) &&
    (forall p :: 0 <= p < |coeffs| ==> |coeffs[p]| == |strs|) &&
    (forall p :: 0 <= p < |cands| ==> |cands[p].ts| == |cands[p].strs| && Width(cands[p].strs, w))
  }

  /** `cidx`: whether some root's coefficient on row `i` exceeds the cutoff in magnitude. */
  function Significant(coeffs: seq<seq<real>>, cutoff: real, n: nat): (m: seq<bool>)
    requires forall p :: 0 <= p < |coeffs| ==> |coeffs[p]| == n
    ensures |m| == n
  {
    seq(n, i requires 0 <= i < n => exists p :: 0 <= p < |coeffs| && Abs(coeffs[p][i]) > cutoff)
  }

  /** `cidx = abs(c0) > cutoff`, then `cidx += abs(cp) > cutoff` for the other roots. */
  method CutoffMask(coeffs: seq<seq<real>>, cutoff: real, n: nat) returns (cidx: seq<bool>)
    requires |coeffs| >= 1 && forall p :: 0 <= p < |coeffs| ==> |coeffs[p]| == n
    ensures |cidx| == n
    ensures forall i :: 0 <= i < n ==> (cidx[i] <==> exists p :: 0 <= p < |coeffs| && Abs(coeffs[p][i]) > cutoff)
  {
    cidx := seq(n, i requires 0 <= i < n => Abs(coeffs[0][i]) > cutoff);
    var p := 1;
    while p < |coeffs|
      invariant 1 <= p <= |coeffs| && |cidx| == n
      invariant forall i :: 0 <= i < n ==> (cidx[i] <==> exists q :: 0 <= q < p && Abs(coeffs[q][i]) > cutoff)
    {
      cidx := seq(n, i requires 0 <= i < n => cidx[i] || Abs(coeffs[p][i]) > cutoff);
      p := p + 1;
    }
  }

  /** `ts_new` after the loop: the kept levels, then every root's candidate levels. */
  function AllTs(cands: seq<Candidates>): (r: seq<(int, int)>)
    ensures cands != [] ==> |r| >= |cands[|cands| - 1].ts|
  {
    if cands == [] then [] else AllTs(cands[..|cands| - 1]) + cands[|cands| - 1].ts
  }

  /** Every root's candidate rows, in root order. */
  function AllStrs(cands: seq<Candidates>): seq<seq<Word>>
  {
    if cands == [] then [] else AllStrs(cands[..|cands| - 1]) + cands[|cands| - 1].strs
  }

  /** `c = zeros(n); c[:len(ci)] = ci`. */
  function ZeroExtend(ci: seq<real>, n: nat): seq<real>
    requires |ci| <= n
  {
    ci + seq(n - |ci|, _ => 0.0)
  }

  /**
   * The tail of `enlarge_space`: deduplicate the merged rows (first
   * occurrence kept, byte order), and for each root pick its zero-extended
   * coefficients, the rows and the levels at the reported positions.
   */
  function Finish(cis: seq<seq<real>>, strsNew: seq<seq<Word>>, tsNew: seq<(int, int)>): (out: seq<SCIVector>)
    requires |strsNew| <= |tsNew| && forall p :: 0 <= p < |cis| ==> |cis[p]| <= |strsNew|
    ensures |out| == |cis|
  {
    var u := UniqueFirst(strsNew);
    UniqueFirstValid(strsNew);
    seq(|cis|, p requires 0 <= p < |cis| =>
      SCIVector(Pick(ZeroExtend(cis[p], |strsNew|), u), Pick(strsNew, u), Pick(tsNew, u)))
  }

  /** The positions of the rows that survive the cutoff. */
  function Kept(coeffs: seq<seq<real>>, cutoff: real, n: nat): (kept: seq<nat>)
    requires forall p :: 0 <= p < |coeffs| ==> |coeffs[p]| == n
    ensures forall k :: 0 <= k < |kept| ==> kept[k] < n
  {
    PositionsSpec(Significant(coeffs, cutoff, n), true);
    Positions(Significant(coeffs, cutoff, n), true)
  }

  /** `enlarge_space` as written: `strs_new` is rebuilt from the kept rows and the LAST root's candidates. */
  function Enlarged(coeffs: seq<seq<real>>, strs: seq<seq<Word>>, ts: seq<(int, int)>, cutoff: real, cands: seq<Candidates>, w: nat): seq<SCIVector>
    requires Shaped(coeffs, strs, ts, cands, w)
  {
    var kept := Kept(coeffs, cutoff, |strs|);
    Finish(seq(|coeffs|, p requires 0 <= p < |coeffs| => Pick(coeffs[p], kept)),
      Pick(strs, kept) + cands[|cands| - 1].strs, Pick(ts, kept) + AllTs(cands))
  }

  /**
   * The loop over the roots: `strs_new = vstack((strs, str_add))`,
   * `ts_new = vstack((ts_new, ts_add))`; the first root without candidates
   * makes `vstack` raise.
   */
  method MergeCandidates(strsKept: seq<seq<Word>>, tsKept: seq<(int, int)>, cands: seq<Candidates>)
    returns (merged: Outcome<(seq<seq<Word>>, seq<(int, int)>)>)
    requires |cands| >= 1
    ensures merged.Raised? <==> !Proposed(cands)
    ensures merged.Returned? ==> merged.value == (strsKept + cands[|cands| - 1].strs, tsKept + AllTs(cands))
  {
    var strsNew, tsNew := strsKept, tsKept;
    var p := 0;
    while p < |cands|
      invariant 0 <= p <= |cands|
      invariant p > 0 ==> strsNew == strsKept + cands[p - 1].strs
      invariant tsNew == tsKept + AllTs(cands[..p])
      invariant forall q :: 0 <= q < p ==> |cands[q].strs| > 0
    {
      if |cands[p].strs| == 0 {
        return Raised;
      }
      strsNew := strsKept + cands[p].strs;
      assert cands[..p + 1][..p] == cands[..p];
      tsNew := tsNew + cands[p].ts;
      p := p + 1;
    }
    assert cands[..p] == cands;
    merged := Returned((strsNew, tsNew));
  }

  /** For each root: `c = zeros(len(strs_new)); c[:len(ci)] = ci; c[tmpidx]`. */
  method ExtendCoefficients(ciCoeff: seq<seq<real>>, n: nat, tmpidx: seq<nat>) returns (newCi: seq<seq<real>>)
    requires forall p :: 0 <= p < |ciCoeff| ==> |ciCoeff[p]| <= n
    requires forall k :: 0 <= k < |tmpidx| ==> tmpidx[k] < n
    ensures |newCi| == |ciCoeff|
    ensures forall p :: 0 <= p < |ciCoeff| ==> newCi[p] == Pick(ZeroExtend(ciCoeff[p], n), tmpidx)
  {
    newCi := [];
    var p := 0;
    while p < |ciCoeff|
      invariant 0 <= p <= |ciCoeff| && |newCi| == p
      invariant forall q :: 0 <= q < p ==> newCi[q] == Pick(ZeroExtend(ciCoeff[q], n), tmpidx)
    {
      var c := ZeroExtend(ciCoeff[p], n);
      newCi := newCi + [Pick(c, tmpidx)];
      p := p + 1;
    }
  }

  /**
   * `enlarge_space(civec, ...)` with the candidates of each root given: it
   * raises when some root has no candidate, and otherwise returns `Enlarged`.
   */
  method EnlargeSpace(coeffs: seq<seq<real>>, strs: seq<seq<Word>>, ts: seq<(int, int)>, cutoff: real, cands: seq<Candidates>, w: nat)
    returns (out: Outcome<seq<SCIVector>>)
    requires Shaped(coeffs, strs, ts, cands, w)
    ensures out.Raised? <==> !Proposed(cands)
    ensures out.Returned? ==> out.value == Enlarged(coeffs, strs, ts, cutoff, cands, w)
  {
    var cidx := CutoffMask(coeffs, cutoff, |strs|);
    assert cidx == Significant(coeffs, cutoff, |strs|);
    var kept := Positions(cidx, true);
    assert kept == Kept(coeffs, cutoff, |strs|);
    var ciCoeff := seq(|coeffs|, p requires 0 <= p < |coeffs| => Pick(coeffs[p], kept));
    var merged := MergeCandidates(Pick(strs, kept), Pick(ts, kept), cands);
    if merged.Raised? {
      return Raised;
    }
    var (strsNew, tsNew) := merged.value;
    var tmpidx := UniqueFirst(strsNew);
    UniqueFirstValid(strsNew);
    var newCi := ExtendCoefficients(ciCoeff, |strsNew|, tmpidx);
    var strsOut, tsOut := Pick(strsNew, tmpidx), Pick(tsNew, tmpidx);
    out := Returned(seq(|coeffs|, q requires 0 <= q < |coeffs| => SCIVector(newCi[q], strsOut, tsOut)));
  }

  /** `v` lists row `x` with coefficient `c` and levels `t`. */
  predicate Carries(v: SCIVector, x: seq<Word>, c: real, t: (int, int))
  {
    exists k :: 0 <= k < |v.strs| && k < |v.coeffs| && k < |v.ts| && v.strs[k] == x && v.coeffs[k] == c && v.ts[k] == t
  }

  /** Rows paired with their levels. */
  function Zip(rows: seq<seq<Word>>, levels: seq<(int, int)>): (z: seq<(seq<Word>, (int, int))>)
    requires |rows| == |levels|
    ensures |z| == |rows|
  {
    seq(|rows|, i requires 0 <= i < |rows| => (rows[i], levels[i]))
  }

  /** The merged rows come out without repeats. */
  lemma {:induction false} FinishDistinct(cis: seq<seq<real>>, strsNew: seq<seq<Word>>, tsNew: seq<(int, int)>, w: nat, p: nat)
    requires |strsNew| <= |tsNew| && forall q :: 0 <= q < |cis| ==> |cis[q]| <= |strsNew|
    requires Width(strsNew, w) && p < |cis|
    ensures Distinct(Finish(cis, strsNew, tsNew)[p].strs)
  {
    UniqueFirstValid(strsNew);
    UniqueFirstSorted(strsNew, w);
  }

  /**
   * A row among the first `|cis[p]|` (the old ones, which have no repeats)
   * comes out with its old coefficient and its levels, since its first
   * occurrence is its old position.
   */
  lemma {:induction false} FinishKeepsOld(cis: seq<seq<real>>, strsNew: seq<seq<Word>>, tsNew: seq<(int, int)>, w: nat, p: nat, i: nat)
    requires |strsNew| <= |tsNew| && forall q :: 0 <= q < |cis| ==> |cis[q]| <= |strsNew|
    requires Width(strsNew, w) && p < |cis| && i < |cis[p]|
    requires Distinct(strsNew[..|cis[p]|])
    ensures Carries(Finish(cis, strsNew, tsNew)[p], strsNew[i], cis[p][i], tsNew[i])
  {
    var u := UniqueFirst(strsNew);
    UniqueFirstValid(strsNew);
    UniqueFirstCovers(strsNew, w, i);
    var k :| 0 <= k < |u| && u[k] < |strsNew| && strsNew[u[k]] == strsNew[i];
    UniqueFirstIsFirst(strsNew, w, k, i);
    var old_ := strsNew[..|cis[p]|];
    assert old_[u[k]] == strsNew[u[k]] && old_[i] == strsNew[i];
    assert u[k] == i;
    var v := Finish(cis, strsNew, tsNew)[p];
    assert v.strs[k] == strsNew[i] && v.coeffs[k] == cis[p][i] && v.ts[k] == tsNew[i];
  }

  /** A row that is not one of the old ones comes out with coefficient 0. */
  lemma {:induction false} FinishNewZero(cis: seq<seq<real>>, strsNew: seq<seq<Word>>, tsNew: seq<(int, int)>, p: nat, k: nat)
    requires |strsNew| <= |tsNew| && forall q :: 0 <= q < |cis| ==> |cis[q]| <= |strsNew|
    requires p < |cis| && k < |Finish(cis, strsNew, tsNew)[p].strs|
    requires Finish(cis, strsNew, tsNew)[p].strs[k] !in strsNew[..|cis[p]|]
    ensures Finish(cis, strsNew, tsNew)[p].coeffs[k] == 0.0
  {
    var u := UniqueFirst(strsNew);
    UniqueFirstValid(strsNew);
    assert forall m :: 0 <= m < |cis[p]| ==> strsNew[..|cis[p]|][m] == strsNew[m];
    assert u[k] >= |cis[p]|;
  }

  /** Every merged row comes out. */
  lemma {:induction false} FinishCovers(cis: seq<seq<real>>, strsNew: seq<seq<Word>>, tsNew: seq<(int, int)>, w: nat, p: nat, j: nat)
    requires |strsNew| <= |tsNew| && forall q :: 0 <= q < |cis| ==> |cis[q]| <= |strsNew|
    requires Width(strsNew, w) && p < |cis| && j < |strsNew|
    ensures strsNew[j] in Finish(cis, strsNew, tsNew)[p].strs
  {
    var u := UniqueFirst(strsNew);
    UniqueFirstValid(strsNew);
    UniqueFirstCovers(strsNew, w, j);
    var k :| 0 <= k < |u| && u[k] < |strsNew| && strsNew[u[k]] == strsNew[j];
    assert Finish(cis, strsNew, tsNew)[p].strs[k] == strsNew[j];
  }

  /** With one level pair per merged row, each row comes out with its own levels. */
  lemma {:induction false} FinishLevelsFollow(cis: seq<seq<real>>, strsNew: seq<seq<Word>>, tsNew: seq<(int, int)>, p: nat, k: nat)
    requires |strsNew| == |tsNew| && forall q :: 0 <= q < |cis| ==> |cis[q]| <= |strsNew|
    requires p < |cis| && k < |Finish(cis, strsNew, tsNew)[p].strs|
    ensures |Finish(cis, strsNew, tsNew)[p].ts| == |Finish(cis, strsNew, tsNew)[p].strs|
    ensures (Finish(cis, strsNew, tsNew)[p].strs[k], Finish(cis, strsNew, tsNew)[p].ts[k]) in Zip(strsNew, tsNew)
  {
    var u := UniqueFirst(strsNew);
    UniqueFirstValid(strsNew);
    assert Zip(strsNew, tsNew)[u[k]] == (strsNew[u[k]], tsNew[u[k]]);
  }

  /** Only merged rows come out. */
  lemma {:induction false} FinishRows(cis: seq<seq<real>>, strsNew: seq<seq<Word>>, tsNew: seq<(int, int)>, p: nat)
    requires |strsNew| <= |tsNew| && forall q :: 0 <= q < |cis| ==> |cis[q]| <= |strsNew|
    requires p < |cis|
    ensures forall x :: x in Finish(cis, strsNew, tsNew)[p].strs ==> x in strsNew
  {
    UniqueFirstValid(strsNew);
  }

  /** When the merge is an old part then a new part, each row comes out with a level paired to it in one part. */
  lemma {:induction false} FinishLevelsSplit(cis: seq<seq<real>>, oldStrs: seq<seq<Word>>, oldTs: seq<(int, int)>,
                                             addStrs: seq<seq<Word>>, addTs: seq<(int, int)>, p: nat, k: nat)
    requires |oldStrs| == |oldTs| && |addStrs| == |addTs|
    requires forall q :: 0 <= q < |cis| ==> |cis[q]| <= |oldStrs + addStrs|
    requires p < |cis| && k < |Finish(cis, oldStrs + addStrs, oldTs + addTs)[p].strs|
    ensures k < |Finish(cis, oldStrs + addStrs, oldTs + addTs)[p].ts|
    ensures var v := Finish(cis, oldStrs + addStrs, oldTs + addTs)[p];
      (v.strs[k], v.ts[k]) in Zip(oldStrs, oldTs) || (v.strs[k], v.ts[k]) in Zip(addStrs, addTs)
  {
    var strsNew, tsNew := oldStrs + addStrs, oldTs + addTs;
    FinishLevelsFollow(cis, strsNew, tsNew, p, k);
    var z := Zip(strsNew, tsNew);
    var i :| 0 <= i < |z| && z[i] == (Finish(cis, strsNew, tsNew)[p].strs[k], Finish(cis, strsNew, tsNew)[p].ts[k]);
    if i < |oldStrs| {
      assert Zip(oldStrs, oldTs)[i] == z[i];
    } else {
      assert Zip(addStrs, addTs)[i - |oldStrs|] == z[i];
    }
  }

  /** Rows and levels taken at the same positions stay paired. */
  lemma {:induction false} ZipPick(strs: seq<seq<Word>>, ts: seq<(int, int)>, kept: seq<nat>)
    requires |strs| == |ts| && forall k :: 0 <= k < |kept| ==> kept[k] < |strs|
    ensures forall e :: e in Zip(Pick(strs, kept), Pick(ts, kept)) ==> e in Zip(strs, ts)
  {
    forall e | e in Zip(Pick(strs, kept), Pick(ts, kept)) ensures e in Zip(strs, ts) {
      var m :| 0 <= m < |kept| && Zip(Pick(strs, kept), Pick(ts, kept))[m] == e;
      assert Zip(strs, ts)[kept[m]] == e;
    }
  }

  /** Every candidate row has width `w`. */
  lemma {:induction false} AllStrsWidth(cands: seq<Candidates>, w: nat)
    requires forall q :: 0 <= q < |cands| ==> Width(cands[q].strs, w)
    ensures Width(AllStrs(cands), w)
    decreases |cands|
  {
    if cands != [] {
      AllStrsWidth(cands[..|cands| - 1], w);
    }
  }

  /** The candidate rows of every root are among `AllStrs`. */
  lemma {:induction false} AllStrsMembers(cands: seq<Candidates>, q: nat, x: seq<Word>)
    requires q < |cands| && x in cands[q].strs
    ensures x in AllStrs(cands)
    decreases |cands|
  {
    if q < |cands| - 1 {
      AllStrsMembers(cands[..|cands| - 1], q, x);
    }
  }

  /** `AllStrs` and `AllTs` pair up: position `i` holds a candidate row of some root with its own levels. */
  lemma {:induction false} AllPairsAligned(cands: seq<Candidates>, i: nat)
    requires forall q :: 0 <= q < |cands| ==> |cands[q].ts| == |cands[q].strs|
    requires i < |AllStrs(cands)|
    ensures |AllTs(cands)| == |AllStrs(cands)|
    ensures exists q :: 0 <= q < |cands| && (AllStrs(cands)[i], AllTs(cands)[i]) in Zip(cands[q].strs, cands[q].ts)
    decreases |cands|
  {
    var init, last := cands[..|cands| - 1], cands[|cands| - 1];
    AllLengths(init);
    if i < |AllStrs(init)| {
      AllPairsAligned(init, i);
      var q :| 0 <= q < |init| && (AllStrs(init)[i], AllTs(init)[i]) in Zip(init[q].strs, init[q].ts);
      assert cands[q] == init[q];
    } else {
      var m := i - |AllStrs(init)|;
      assert Zip(last.strs, last.ts)[m] == (AllStrs(cands)[i], AllTs(cands)[i]);
    }
  }

  /** `AllStrs` and `AllTs` have one length. */
  lemma {:induction false} AllLengths(cands: seq<Candidates>)
    requires forall q :: 0 <= q < |cands| ==> |cands[q].ts| == |cands[q].strs|
    ensures |AllTs(cands)| == |AllStrs(cands)|
    decreases |cands|
  {
    if cands != [] {
      AllLengths(cands[..|cands| - 1]);
    }
  }

  /** `ts_new` after the loop begins with the first root's candidate levels. */
  lemma {:induction false} AllTsFirst(cands: seq<Candidates>)
    requires |cands| >= 1
    ensures |AllTs(cands)| >= |cands[0].ts| && AllTs(cands)[..|cands[0].ts|] == cands[0].ts
    decreases |cands|
  {
    if |cands| > 1 {
      var init := cands[..|cands| - 1];
      AllTsFirst(init);
      assert init[0] == cands[0];
    } else {
      assert cands[..0] == [];
    }
  }

  /** The kept old rows have no repeats when the input rows have none. */
  lemma {:induction false} KeptDistinct(coeffs: seq<seq<real>>, strs: seq<seq<Word>>, cutoff: real)
    requires forall p :: 0 <= p < |coeffs| ==> |coeffs[p]| == |strs|
    requires Distinct(strs)
    ensures Distinct(Pick(strs, Kept(coeffs, cutoff, |strs|)))
  {
    PositionsIncreasing(Significant(coeffs, cutoff, |strs|), true);
    PickDistinct(strs, Kept(coeffs, cutoff, |strs|));
  }

  /** No determinant comes out twice. */
  lemma {:induction false} EnlargeDistinct(coeffs: seq<seq<real>>, strs: seq<seq<Word>>, ts: seq<(int, int)>, cutoff: real, cands: seq<Candidates>, w: nat, p: nat)
    requires Shaped(coeffs, strs, ts, cands, w) && p < |coeffs|
    ensures Distinct(Enlarged(coeffs, strs, ts, cutoff, cands, w)[p].strs)
  {
    var kept := Kept(coeffs, cutoff, |strs|);
    var cis := seq(|coeffs|, q requires 0 <= q < |coeffs| => Pick(coeffs[q], kept));
    var strsNew := Pick(strs, kept) + cands[|cands| - 1].strs;
    FinishDistinct(cis, strsNew, Pick(ts, kept) + AllTs(cands), w, p);
  }

  /**
   * A determinant on which some root's coefficient exceeds the cutoff stays,
   * with each root's old coefficient and its levels (the input rows having
   * no repeats).
   */
  lemma {:induction false} EnlargeKeepsOld(coeffs: seq<seq<real>>, strs: seq<seq<Word>>, ts: seq<(int, int)>, cutoff: real, cands: seq<Candidates>, w: nat,
                                            p: nat, j: nat, out: SCIVector)
    requires Shaped(coeffs, strs, ts, cands, w) && Distinct(strs) && p < |coeffs| && j < |strs|
    requires exists q :: 0 <= q < |coeffs| && Abs(coeffs[q][j]) > cutoff
    requires out == Enlarged(coeffs, strs, ts, cutoff, cands, w)[p]
    ensures Carries(out, strs[j], coeffs[p][j], ts[j])
  {
    var kept := Kept(coeffs, cutoff, |strs|);
    PositionsSpec(Significant(coeffs, cutoff, |strs|), true);
    assert j in kept;
    var m :| 0 <= m < |kept| && kept[m] == j;
    var cis := seq(|coeffs|, q requires 0 <= q < |coeffs| => Pick(coeffs[q], kept));
    var strsNew, tsNew := Pick(strs, kept) + cands[|cands| - 1].strs, Pick(ts, kept) + AllTs(cands);
    KeptDistinct(coeffs, strs, cutoff);
    assert strsNew[..|cis[p]|] == Pick(strs, kept);
    FinishKeepsOld(cis, strsNew, tsNew, w, p, m);
    assert strsNew[m] == strs[j] && cis[p][m] == coeffs[p][j] && tsNew[m] == ts[j];
  }

  /** A determinant that is not an old one kept by the cutoff comes out with coefficient 0. */
  lemma {:induction false} EnlargeNewZero(coeffs: seq<seq<real>>, strs: seq<seq<Word>>, ts: seq<(int, int)>, cutoff: real, cands: seq<Candidates>, w: nat,
                                           p: nat, k: nat, out: SCIVector)
    requires Shaped(coeffs, strs, ts, cands, w) && p < |coeffs|
    requires out == Enlarged(coeffs, strs, ts, cutoff, cands, w)[p] && k < |out.strs|
    requires forall j :: 0 <= j < |strs| && strs[j] == out.strs[k] ==> forall q :: 0 <= q < |coeffs| ==> Abs(coeffs[q][j]) <= cutoff
    ensures k < |out.coeffs| && out.coeffs[k] == 0.0
  {
    var kept := Kept(coeffs, cutoff, |strs|);
    PositionsSpec(Significant(coeffs, cutoff, |strs|), true);
    var cis := seq(|coeffs|, q requires 0 <= q < |coeffs| => Pick(coeffs[q], kept));
    var strsNew, tsNew := Pick(strs, kept) + cands[|cands| - 1].strs, Pick(ts, kept) + AllTs(cands);
    assert strsNew[..|cis[p]|] == Pick(strs, kept);
    forall m | 0 <= m < |kept| ensures Pick(strs, kept)[m] != out.strs[k] {
      assert Significant(coeffs, cutoff, |strs|)[kept[m]];
    }
    FinishNewZero(cis, strsNew, tsNew, p, k);
  }

  /**
   * A determinant on which every root's coefficient is at most the cutoff
   * is dropped, unless the last root proposes it again (the input rows
   * having no repeats).
   */
  lemma {:induction false} EnlargeDrops(coeffs: seq<seq<real>>, strs: seq<seq<Word>>, ts: seq<(int, int)>, cutoff: real, cands: seq<Candidates>, w: nat,
                                         p: nat, j: nat)
    requires Shaped(coeffs, strs, ts, cands, w) && Distinct(strs) && p < |coeffs| && j < |strs|
    requires forall q :: 0 <= q < |coeffs| ==> Abs(coeffs[q][j]) <= cutoff
    requires strs[j] !in cands[|cands| - 1].strs
    ensures strs[j] !in Enlarged(coeffs, strs, ts, cutoff, cands, w)[p].strs
  {
    var kept := Kept(coeffs, cutoff, |strs|);
    PositionsSpec(Significant(coeffs, cutoff, |strs|), true);
    var cis := seq(|coeffs|, q requires 0 <= q < |coeffs| => Pick(coeffs[q], kept));
    var strsNew, tsNew := Pick(strs, kept) + cands[|cands| - 1].strs, Pick(ts, kept) + AllTs(cands);
    forall m | 0 <= m < |kept| ensures Pick(strs, kept)[m] != strs[j] {
      assert Significant(coeffs, cutoff, |strs|)[kept[m]];
    }
    FinishRows(cis, strsNew, tsNew, p);
  }

  /** Every candidate of the last root comes out. */
  lemma {:induction false} EnlargeAddsLast(coeffs: seq<seq<real>>, strs: seq<seq<Word>>, ts: seq<(int, int)>, cutoff: real, cands: seq<Candidates>, w: nat,
                                            p: nat, x: seq<Word>)
    requires Shaped(coeffs, strs, ts, cands, w) && p < |coeffs|
    requires x in cands[|cands| - 1].strs
    ensures x in Enlarged(coeffs, strs, ts, cutoff, cands, w)[p].strs
  {
    var kept := Kept(coeffs, cutoff, |strs|);
    var cis := seq(|coeffs|, q requires 0 <= q < |coeffs| => Pick(coeffs[q], kept));
    var last := cands[|cands| - 1].strs;
    var strsNew, tsNew := Pick(strs, kept) + last, Pick(ts, kept) + AllTs(cands);
    var m :| 0 <= m < |last| && last[m] == x;
    assert strsNew[|kept| + m] == x;
    FinishCovers(cis, strsNew, tsNew, w, p, |kept| + m);
  }

  /** With one root, each determinant comes out with the levels supplied with it. */
  lemma {:induction false} EnlargeSingleRootLevels(coeffs: seq<seq<real>>, strs: seq<seq<Word>>, ts: seq<(int, int)>, cutoff: real, cands: seq<Candidates>, w: nat,
                                                    k: nat, out: SCIVector)
    requires Shaped(coeffs, strs, ts, cands, w) && |coeffs| == 1
    requires out == Enlarged(coeffs, strs, ts, cutoff, cands, w)[0] && k < |out.strs|
    ensures k < |out.ts|
    ensures (out.strs[k], out.ts[k]) in Zip(strs, ts) || (out.strs[k], out.ts[k]) in Zip(cands[0].strs, cands[0].ts)
  {
    var kept := Kept(coeffs, cutoff, |strs|);
    var cis := seq(|coeffs|, q requires 0 <= q < |coeffs| => Pick(coeffs[q], kept));
    var oldStrs, oldTs := Pick(strs, kept), Pick(ts, kept);
    assert out == Finish(cis, oldStrs + cands[0].strs, oldTs + cands[0].ts)[0] by {
      assert cands[..0] == [];
      assert AllTs(cands) == cands[0].ts;
    }
    FinishLevelsSplit(cis, oldStrs, oldTs, cands[0].strs, cands[0].ts, 0, k);
    ZipPick(strs, ts, kept);
  }

  /**
   * As written, with two or more roots a candidate of an earlier root that
   * the last root does not propose and that is not an old row is lost.
   */
  lemma {:induction false} EnlargeLosesCandidates(coeffs: seq<seq<real>>, strs: seq<seq<Word>>, ts: seq<(int, int)>, cutoff: real, cands: seq<Candidates>, w: nat,
                                                   p: nat, x: seq<Word>)
    requires Shaped(coeffs, strs, ts, cands, w) && |cands| >= 2 && p < |coeffs|
    requires x in cands[0].strs && x !in strs && x !in cands[|cands| - 1].strs
    ensures x !in Enlarged(coeffs, strs, ts, cutoff, cands, w)[p].strs
  {
    var kept := Kept(coeffs, cutoff, |strs|);
    var cis := seq(|coeffs|, q requires 0 <= q < |coeffs| => Pick(coeffs[q], kept));
    var strsNew, tsNew := Pick(strs, kept) + cands[|cands| - 1].strs, Pick(ts, kept) + AllTs(cands);
    FinishRows(cis, strsNew, tsNew, p);
  }

  /**
   * As written, with two or more roots the first candidate of the last root
   * (when it is new) comes out with coefficient 0 and the levels of the
   * FIRST root's first candidate, since `ts_new` grows with every root while
   * `strs_new` holds only the last root's candidates.
   */
  lemma {:induction false} EnlargeMislabels(coeffs: seq<seq<real>>, strs: seq<seq<Word>>, ts: seq<(int, int)>, cutoff: real, cands: seq<Candidates>, w: nat,
                                             p: nat)
    requires Shaped(coeffs, strs, ts, cands, w) && |cands| >= 2 && p < |coeffs|
    requires |cands[0].strs| >= 1 && |cands[|cands| - 1].strs| >= 1
    requires cands[|cands| - 1].strs[0] !in strs
    ensures Carries(Enlarged(coeffs, strs, ts, cutoff, cands, w)[p], cands[|cands| - 1].strs[0], 0.0, cands[0].ts[0])
  {
    var kept := Kept(coeffs, cutoff, |strs|);
    var cis := seq(|coeffs|, q requires 0 <= q < |coeffs| => Pick(coeffs[q], kept));
    var strsNew, tsNew := Pick(strs, kept) + cands[|cands| - 1].strs, Pick(ts, kept) + AllTs(cands);
    var y, n := cands[|cands| - 1].strs[0], |kept|;
    AllTsFirst(cands);
    assert strsNew[n] == y && tsNew[n] == cands[0].ts[0];
    var u := UniqueFirst(strsNew);
    UniqueFirstValid(strsNew);
    UniqueFirstCovers(strsNew, w, n);
    var k :| 0 <= k < |u| && u[k] < |strsNew| && strsNew[u[k]] == y;
    UniqueFirstIsFirst(strsNew, w, k, n);
    assert forall m :: 0 <= m < n ==> strsNew[m] in strs;
    assert u[k] == n;
    var v := Finish(cis, strsNew, tsNew)[p];
    assert v.strs[k] == y && v.coeffs[k] == 0.0 && v.ts[k] == cands[0].ts[0];
  }

  /** `enlarge_space` with `strs_new` accumulating every root's candidates, as `ts_new` does. */
  function EnlargedCorrected(coeffs: seq<seq<real>>, strs: seq<seq<Word>>, ts: seq<(int, int)>, cutoff: real, cands: seq<Candidates>, w: nat): seq<SCIVector>
    requires Shaped(coeffs, strs, ts, cands, w)
  {
    var kept := Kept(coeffs, cutoff, |strs|);
    AllLengths(cands);
    Finish(seq(|coeffs|, p requires 0 <= p < |coeffs| => Pick(coeffs[p], kept)),
      Pick(strs, kept) + AllStrs(cands), Pick(ts, kept) + AllTs(cands))
  }

  /** Corrected, every candidate of every root comes out. */
  lemma {:induction false} EnlargeCorrectedAddsAll(coeffs: seq<seq<real>>, strs: seq<seq<Word>>, ts: seq<(int, int)>, cutoff: real, cands: seq<Candidates>, w: nat,
                                                    p: nat, q: nat, x: seq<Word>)
    requires Shaped(coeffs, strs, ts, cands, w) && p < |coeffs| && q < |cands|
    requires x in cands[q].strs
    ensures x in EnlargedCorrected(coeffs, strs, ts, cutoff, cands, w)[p].strs
  {
    var kept := Kept(coeffs, cutoff, |strs|);
    AllLengths(cands);
    var cis := seq(|coeffs|, r requires 0 <= r < |coeffs| => Pick(coeffs[r], kept));
    var all := AllStrs(cands);
    var strsNew, tsNew := Pick(strs, kept) + all, Pick(ts, kept) + AllTs(cands);
    AllStrsMembers(cands, q, x);
    AllStrsWidth(cands, w);
    var m :| 0 <= m < |all| && all[m] == x;
    assert strsNew[|kept| + m] == x;
    FinishCovers(cis, strsNew, tsNew, w, p, |kept| + m);
  }

  /** Corrected, each determinant comes out with the levels supplied with it, for any number of roots. */
  lemma {:induction false} EnlargeCorrectedLevels(coeffs: seq<seq<real>>, strs: seq<seq<Word>>, ts: seq<(int, int)>, cutoff: real, cands: seq<Candidates>, w: nat,
                                                   p: nat, k: nat, out: SCIVector)
    requires Shaped(coeffs, strs, ts, cands, w) && p < |coeffs|
    requires out == EnlargedCorrected(coeffs, strs, ts, cutoff, cands, w)[p] && k < |out.strs|
    ensures k < |out.ts|
    ensures (out.strs[k], out.ts[k]) in Zip(strs, ts) ||
      exists q :: 0 <= q < |cands| && (out.strs[k], out.ts[k]) in Zip(cands[q].strs, cands[q].ts)
  {
    var kept := Kept(coeffs, cutoff, |strs|);
    AllLengths(cands);
    var cis := seq(|coeffs|, r requires 0 <= r < |coeffs| => Pick(coeffs[r], kept));
    FinishLevelsSplit(cis, Pick(strs, kept), Pick(ts, kept), AllStrs(cands), AllTs(cands), p, k);
    ZipPick(strs, ts, kept);
    if (out.strs[k], out.ts[k]) in Zip(AllStrs(cands), AllTs(cands)) {
      var i :| 0 <= i < |AllStrs(cands)| && Zip(AllStrs(cands), AllTs(cands))[i] == (out.strs[k], out.ts[k]);
      AllPairsAligned(cands, i);
    }
  }
}
