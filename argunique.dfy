/**
 * `argunique(strs)`: the indices of one copy of each distinct row of a
 * two-dimensional array of words, ordered by the row comparison `order`.
 * The source is a recursive quicksort over index lists: the pivot is the
 * last index, rows that compare below it go left, rows above it go right,
 * and rows equal to it are dropped, so of each group of equal rows the one
 * that comes last in the index list survives.
 *
 * The rows are compared as sequences of naturals, so the same sort also
 * orders rows by their bytes (see `Enlarge`).
 */
module ArgUnique {
  import opened Lists

  /** `order(x, y)` from position `i` on: the sign of the first difference, 0 when there is none. */
  function CompareFrom(x: seq<nat>, y: seq<nat>, i: nat): int
    decreases |y| - i
  {
    if i >= |y| || i >= |x| then 0
    else if x[i] > y[i] then 1
    else if y[i] > x[i] then -1
    else CompareFrom(x, y, i + 1)
  }

  /** `order(x, y)`: lexicographic comparison from the first word. */
  function Compare(x: seq<nat>, y: seq<nat>): int
  {
    CompareFrom(x, y, 0)
  }

  /** `order(x, y)`: a scan over `range(y.size)` that returns at the first difference. */
  method Order(x: seq<nat>, y: seq<nat>) returns (c: int)
    requires |y| <= |x|
    ensures c == Compare(x, y)
  {
    var i := 0;
    while i < |y|
      invariant 0 <= i <= |y|
      invariant CompareFrom(x, y, i) == Compare(x, y)
    {
      if x[i] > y[i] {
        return 1;
      } else if y[i] > x[i] {
        return -1;
      }
      i := i + 1;
    }
    return 0;
  }

  /** The comparison answers 1, -1 or 0. */
  lemma {:induction false} CompareFromSign(x: seq<nat>, y: seq<nat>, i: nat)
    ensures CompareFrom(x, y, i) in {-1, 0, 1}
    decreases |y| - i
  {
    if i < |y| && i < |x| && x[i] == y[i] {
      CompareFromSign(x, y, i + 1);
    }
  }

  /** Swapping the arguments negates the comparison. */
  lemma {:induction false} CompareFromAntisym(x: seq<nat>, y: seq<nat>, i: nat)
    ensures CompareFrom(x, y, i) == -CompareFrom(y, x, i)
    decreases |y| - i
  {
    if i < |y| && i < |x| && x[i] == y[i] {
      CompareFromAntisym(x, y, i + 1);
    }
  }

  /** Equal-length rows compare 0 from `i` exactly when they agree from `i`. */
  lemma {:induction false} CompareFromZero(x: seq<nat>, y: seq<nat>, i: nat)
    requires |x| == |y| && i <= |x|
    ensures CompareFrom(x, y, i) == 0 <==> x[i..] == y[i..]
    decreases |y| - i
  {
    if i < |x| {
      CompareFromZero(x, y, i + 1);
      assert x[i..] == [x[i]] + x[i + 1..];
      assert y[i..] == [y[i]] + y[i + 1..];
    }
  }

  /** "Below" is transitive on rows of one length. */
  lemma {:induction false} CompareFromTrans(x: seq<nat>, y: seq<nat>, z: seq<nat>, i: nat)
    requires |x| == |y| == |z|
    requires CompareFrom(x, y, i) == -1 && CompareFrom(y, z, i) == -1
    ensures CompareFrom(x, z, i) == -1
    decreases |y| - i
  {
    if x[i] == y[i] && y[i] == z[i] {
      CompareFromTrans(x, y, z, i + 1);
    }
  }

  /** `order` is a strict total order on rows of one length, with equality as its 0. */
  lemma {:induction false} CompareOrder(x: seq<nat>, y: seq<nat>)
    requires |x| == |y|
    ensures Compare(x, y) in {-1, 0, 1}
    ensures Compare(x, y) == -Compare(y, x)
    ensures Compare(x, y) == 0 <==> x == y
  {
    CompareFromSign(x, y, 0);
    CompareFromAntisym(x, y, 0);
    CompareFromZero(x, y, 0);
    assert x[0..] == x && y[0..] == y;
  }

  /** `order` is transitive. */
  lemma {:induction false} CompareTrans(x: seq<nat>, y: seq<nat>, z: seq<nat>)
    requires |x| == |y| == |z|
    requires Compare(x, y) == -1 && Compare(y, z) == -1
    ensures Compare(x, z) == -1
  {
    CompareFromTrans(x, y, z, 0);
  }

  /** Every index refers to a row. */
  predicate Valid(keys: seq<seq<nat>>, idx: seq<nat>)
  {
    forall k :: 0 <= k < |idx| ==> idx[k] < |keys|
  }

  /** All rows have one length (a two-dimensional array). */
  predicate SameWidth(keys: seq<seq<nat>>)
  {
    forall i, j :: 0 <= i < |keys| && 0 <= j < |keys| ==> |keys[i]| == |keys[j]|
  }

  /** Each index is below (`up`) or above every later one. */
  predicate Ordered(idx: seq<nat>, up: bool)
  {
    forall a, b :: 0 <= a < b < |idx| ==> if up then idx[a] < idx[b] else idx[a] > idx[b]
  }

  /** The indices of `idx`, in order, whose row compares to row `ref` as `c`: `group_lt` for -1, `group_gt` for 1. */
  function Select(keys: seq<seq<nat>>, idx: seq<nat>, ref: nat, c: int): (r: seq<nat>)
    requires Valid(keys, idx) && ref < |keys|
    ensures |r| <= |idx|
    decreases |idx|
  {
    if idx == [] then []
    else
      var last := idx[|idx| - 1];
      Select(keys, idx[..|idx| - 1], ref, c) + (if Compare(keys[last], keys[ref]) == c then [last] else [])
  }

  lemma {:induction false} SelectMembers(keys: seq<seq<nat>>, idx: seq<nat>, ref: nat, c: int)
    requires Valid(keys, idx) && ref < |keys|
    ensures forall x :: x in Select(keys, idx, ref, c) <==> x in idx && x < |keys| && Compare(keys[x], keys[ref]) == c
    decreases |idx|
  {
    if idx != [] {
      SelectMembers(keys, idx[..|idx| - 1], ref, c);
      assert idx == idx[..|idx| - 1] + [idx[|idx| - 1]];
    }
  }

  lemma {:induction false} SelectValid(keys: seq<seq<nat>>, idx: seq<nat>, ref: nat, c: int)
    requires Valid(keys, idx) && ref < |keys|
    ensures Valid(keys, Select(keys, idx, ref, c))
  {
    SelectMembers(keys, idx, ref, c);
    var r := Select(keys, idx, ref, c);
    forall k | 0 <= k < |r| ensures r[k] < |keys| {
      assert r[k] in r;
    }
  }

  /** Selecting keeps the order of the index list. */
  lemma {:induction false} SelectOrdered(keys: seq<seq<nat>>, idx: seq<nat>, ref: nat, c: int, up: bool)
    requires Valid(keys, idx) && ref < |keys| && Ordered(idx, up)
    ensures Ordered(Select(keys, idx, ref, c), up)
    decreases |idx|
  {
    if idx != [] {
      var init, last := idx[..|idx| - 1], idx[|idx| - 1];
      SelectOrdered(keys, init, ref, c, up);
      SelectMembers(keys, init, ref, c);
      var s := Select(keys, init, ref, c);
      forall a | 0 <= a < |s| ensures if up then s[a] < last else s[a] > last {
        assert s[a] in init;
        var k :| 0 <= k < |init| && init[k] == s[a];
      }
    }
  }

  /** `qsort_idx(idx)`: pivot `idx[-1]`, the rows below it sorted, the pivot, the rows above it sorted. */
  function Qsort(keys: seq<seq<nat>>, idx: seq<nat>): seq<nat>
    requires Valid(keys, idx)
    decreases |idx|
  {
    if |idx| <= 1 then idx
    else
      var ref, rest := idx[|idx| - 1], idx[..|idx| - 1];
      SelectValid(keys, rest, ref, -1);
      SelectValid(keys, rest, ref, 1);
      Qsort(keys, Select(keys, rest, ref, -1)) + [ref] + Qsort(keys, Select(keys, rest, ref, 1))
  }

  /** `qsort_idx`: the partition loop, then the two recursive calls. */
  method QsortIdx(keys: seq<seq<nat>>, idx: seq<nat>) returns (r: seq<nat>)
    requires Valid(keys, idx) && SameWidth(keys)
    ensures r == Qsort(keys, idx)
    decreases |idx|
  {
    if |idx| <= 1 {
      return idx;
    }
    var ref := idx[|idx| - 1];
    var lt: seq<nat>, gt: seq<nat> := [], [];
    var k := 0;
    while k < |idx| - 1
      invariant 0 <= k <= |idx| - 1
      invariant lt == Select(keys, idx[..k], ref, -1)
      invariant gt == Select(keys, idx[..k], ref, 1)
    {
      var i := idx[k];
      var c := Order(keys[i], keys[ref]);
      assert idx[..k + 1][..k] == idx[..k];
      if c == -1 {
        lt := lt + [i];
      } else if c == 1 {
        gt := gt + [i];
      }
      k := k + 1;
    }
    assert idx[..k] == idx[..|idx| - 1];
    SelectValid(keys, idx[..k], ref, -1);
    SelectValid(keys, idx[..k], ref, 1);
    var below := QsortIdx(keys, lt);
    var above := QsortIdx(keys, gt);
    r := below + [ref] + above;
  }

  /** The sort returns indices taken from its input. */
  lemma {:induction false} QsortMembers(keys: seq<seq<nat>>, idx: seq<nat>)
    requires Valid(keys, idx)
    ensures forall x :: x in Qsort(keys, idx) ==> x in idx
    decreases |idx|
  {
    if |idx| > 1 {
      var ref, rest := idx[|idx| - 1], idx[..|idx| - 1];
      SelectValid(keys, rest, ref, -1);
      SelectValid(keys, rest, ref, 1);
      SelectMembers(keys, rest, ref, -1);
      SelectMembers(keys, rest, ref, 1);
      QsortMembers(keys, Select(keys, rest, ref, -1));
      QsortMembers(keys, Select(keys, rest, ref, 1));
      assert forall x :: x in rest ==> x in idx;
    }
  }

  /** The rows at the returned indices are strictly ascending under `order`. */
  predicate SortedBy(keys: seq<seq<nat>>, r: seq<nat>)
  {
    Valid(keys, r) && forall a, b :: 0 <= a < b < |r| ==> Compare(keys[r[a]], keys[r[b]]) == -1
  }

  /** Sorted runs on either side of a pivot that separates them make one sorted run. */
  lemma {:induction false} JoinSorted(keys: seq<seq<nat>>, below: seq<nat>, ref: nat, above: seq<nat>)
    requires SameWidth(keys) && ref < |keys|
    requires SortedBy(keys, below) && SortedBy(keys, above)
    requires forall a :: 0 <= a < |below| ==> Compare(keys[below[a]], keys[ref]) == -1
    requires forall b :: 0 <= b < |above| ==> Compare(keys[ref], keys[above[b]]) == -1
    ensures SortedBy(keys, below + [ref] + above)
  {
    var r := below + [ref] + above;
    forall a, b | 0 <= a < b < |r| ensures Compare(keys[r[a]], keys[r[b]]) == -1 {
      if b < |below| {
        assert r[a] == below[a] && r[b] == below[b];
      } else if a > |below| {
        assert r[a] == above[a - |below| - 1] && r[b] == above[b - |below| - 1];
      } else if a == |below| {
        assert r[b] == above[b - |below| - 1];
      } else if b == |below| {
        assert r[a] == below[a];
      } else {
        assert r[a] == below[a] && r[b] == above[b - |below| - 1];
        CompareTrans(keys[r[a]], keys[ref], keys[r[b]]);
      }
    }
  }

  lemma {:induction false} QsortSorted(keys: seq<seq<nat>>, idx: seq<nat>)
    requires Valid(keys, idx) && SameWidth(keys)
    ensures SortedBy(keys, Qsort(keys, idx))
    decreases |idx|
  {
    if |idx| > 1 {
      var ref, rest := idx[|idx| - 1], idx[..|idx| - 1];
      SelectValid(keys, rest, ref, -1);
      SelectValid(keys, rest, ref, 1);
      var lt, gt := Select(keys, rest, ref, -1), Select(keys, rest, ref, 1);
      SelectMembers(keys, rest, ref, -1);
      SelectMembers(keys, rest, ref, 1);
      QsortSorted(keys, lt);
      QsortSorted(keys, gt);
      QsortMembers(keys, lt);
      QsortMembers(keys, gt);
      var below, above := Qsort(keys, lt), Qsort(keys, gt);
      forall a | 0 <= a < |below| ensures Compare(keys[below[a]], keys[ref]) == -1 {
        assert below[a] in lt;
      }
      forall b | 0 <= b < |above| ensures Compare(keys[ref], keys[above[b]]) == -1 {
        assert above[b] in gt;
        CompareOrder(keys[ref], keys[above[b]]);
      }
      JoinSorted(keys, below, ref, above);
    }
  }

  /** Every input row has an equal row among the returned indices. */
  lemma {:induction false} QsortCovers(keys: seq<seq<nat>>, idx: seq<nat>, i: nat)
    requires Valid(keys, idx) && SameWidth(keys) && i in idx
    ensures exists j :: j in Qsort(keys, idx) && j < |keys| && i < |keys| && keys[j] == keys[i]
    decreases |idx|
  {
    var r := Qsort(keys, idx);
    if |idx| <= 1 {
      assert i in r;
    } else {
      var ref, rest := idx[|idx| - 1], idx[..|idx| - 1];
      SelectValid(keys, rest, ref, -1);
      SelectValid(keys, rest, ref, 1);
      var lt, gt := Select(keys, rest, ref, -1), Select(keys, rest, ref, 1);
      assert r == Qsort(keys, lt) + [ref] + Qsort(keys, gt);
      if i == ref {
        assert ref in r;
      } else {
        assert idx == rest + [ref];
        assert i in rest;
        SelectMembers(keys, rest, ref, -1);
        SelectMembers(keys, rest, ref, 1);
        CompareOrder(keys[i], keys[ref]);
        if Compare(keys[i], keys[ref]) == -1 {
          QsortCovers(keys, lt, i);
          var j :| j in Qsort(keys, lt) && j < |keys| && i < |keys| && keys[j] == keys[i];
          assert j in r;
        } else if Compare(keys[i], keys[ref]) == 1 {
          QsortCovers(keys, gt, i);
          var j :| j in Qsort(keys, gt) && j < |keys| && i < |keys| && keys[j] == keys[i];
          assert j in r;
        } else {
          assert ref in r;
        }
      }
    }
  }

  /**
   * Of each group of equal rows the sort keeps the one that comes last in
   * the index list: the largest index of an ascending list (`up`), the
   * smallest of a descending one. Stated for one returned index `j` and one
   * input index `i` with an equal row.
   */
  lemma {:induction false} QsortKeepsLastAt(keys: seq<seq<nat>>, idx: seq<nat>, up: bool, j: nat, i: nat)
    requires Valid(keys, idx) && SameWidth(keys) && Ordered(idx, up)
    requires j in Qsort(keys, idx) && j < |keys| && i in idx && i < |keys| && keys[i] == keys[j]
    ensures if up then i <= j else i >= j
    decreases |idx|, 1
  {
    if |idx| <= 1 {
      assert Qsort(keys, idx) == idx;
    } else {
      var ref, rest := idx[|idx| - 1], idx[..|idx| - 1];
      SelectValid(keys, rest, ref, -1);
      SelectValid(keys, rest, ref, 1);
      var lt, gt := Select(keys, rest, ref, -1), Select(keys, rest, ref, 1);
      assert Qsort(keys, idx) == Qsort(keys, lt) + [ref] + Qsort(keys, gt);
      if j in Qsort(keys, lt) {
        KeepsLastSide(keys, idx, up, j, i, -1);
      } else if j in Qsort(keys, gt) {
        KeepsLastSide(keys, idx, up, j, i, 1);
      } else if i != ref {
        assert idx == rest + [ref];
        assert i in rest;
        var k :| 0 <= k < |rest| && rest[k] == i;
        assert idx[k] == i && idx[|idx| - 1] == ref;
      }
    }
  }

  /** The case of `QsortKeepsLastAt` where `j` comes from the side `c` of the pivot. */
  lemma {:induction false} KeepsLastSide(keys: seq<seq<nat>>, idx: seq<nat>, up: bool, j: nat, i: nat, c: int)
    requires Valid(keys, idx) && SameWidth(keys) && Ordered(idx, up) && |idx| > 1 && (c == -1 || c == 1)
    requires Valid(keys, Select(keys, idx[..|idx| - 1], idx[|idx| - 1], c))
    requires j in Qsort(keys, Select(keys, idx[..|idx| - 1], idx[|idx| - 1], c))
    requires j < |keys| && i in idx && i < |keys| && keys[i] == keys[j]
    ensures if up then i <= j else i >= j
    decreases |idx|, 0
  {
    var ref, rest := idx[|idx| - 1], idx[..|idx| - 1];
    var side := Select(keys, rest, ref, c);
    assert j in side by {
      QsortMembers(keys, side);
    }
    assert Compare(keys[j], keys[ref]) == c by {
      SelectMembers(keys, rest, ref, c);
    }
    assert i != ref by {
      CompareOrder(keys[ref], keys[ref]);
    }
    assert i in rest by {
      assert idx == rest + [ref];
    }
    assert i in side by {
      SelectMembers(keys, rest, ref, c);
    }
    SelectOrdered(keys, rest, ref, c, up);
    QsortKeepsLastAt(keys, side, up, j, i);
  }

  /** Of each group of equal rows the sort keeps the one that comes last in the index list. */
  lemma {:induction false} QsortKeepsLast(keys: seq<seq<nat>>, idx: seq<nat>, up: bool)
    requires Valid(keys, idx) && SameWidth(keys) && Ordered(idx, up)
    ensures forall j, i :: j in Qsort(keys, idx) && j < |keys| && i in idx && i < |keys| && keys[i] == keys[j] ==>
      if up then i <= j else i >= j
  {
    forall j, i | j in Qsort(keys, idx) && j < |keys| && i in idx && i < |keys| && keys[i] == keys[j]
      ensures if up then i <= j else i >= j
    {
      QsortKeepsLastAt(keys, idx, up, j, i);
    }
  }

  /** The indices `argunique` returns refer to rows. */
  lemma {:induction false} ArgUniqueValid(strs: seq<seq<nat>>)
    ensures Valid(strs, Qsort(strs, Range(|strs|)))
  {
    var idx := Range(|strs|);
    var r := Qsort(strs, idx);
    QsortMembers(strs, idx);
    forall k | 0 <= k < |r| ensures r[k] < |strs| {
      assert r[k] in idx;
    }
  }

  /** `argunique(strs)` = `qsort_idx(range(len(strs)))`. */
  method ArgUnique(strs: seq<seq<nat>>) returns (r: seq<nat>)
    requires SameWidth(strs)
    ensures r == Qsort(strs, Range(|strs|))
  {
    r := QsortIdx(strs, Range(|strs|));
  }

  /** No two of the indices `r` name equal rows. */
  predicate NoRepeats(strs: seq<seq<nat>>, r: seq<nat>)
  {
    Valid(strs, r) && forall a, b :: 0 <= a < b < |r| ==> strs[r[a]] != strs[r[b]]
  }

  /** Row `i` equals the row at one of the indices `r`. */
  predicate CoveredAt(strs: seq<seq<nat>>, r: seq<nat>, i: nat)
    requires Valid(strs, r) && i < |strs|
  {
    exists k :: 0 <= k < |r| && strs[r[k]] == strs[i]
  }

  /** Every row equals the row at one of the indices `r`. */
  predicate Covers(strs: seq<seq<nat>>, r: seq<nat>)
  {
    Valid(strs, r) && forall i: nat :: i < |strs| ==> CoveredAt(strs, r, i)
  }

  /** Each index of `r` is the last row equal to its own. */
  predicate KeepsLast(strs: seq<seq<nat>>, r: seq<nat>)
  {
    Valid(strs, r) && forall k, i :: 0 <= k < |r| && 0 <= i < |strs| && strs[i] == strs[r[k]] ==> i <= r[k]
  }

  /** `argunique` returns no row twice. */
  lemma {:induction false} ArgUniqueNoRepeats(strs: seq<seq<nat>>)
    requires SameWidth(strs)
    ensures NoRepeats(strs, Qsort(strs, Range(|strs|)))
  {
    var r := Qsort(strs, Range(|strs|));
    QsortSorted(strs, Range(|strs|));
    forall a, b | 0 <= a < b < |r| ensures strs[r[a]] != strs[r[b]] {
      CompareOrder(strs[r[a]], strs[r[b]]);
    }
  }

  /** `argunique` leaves out no row. */
  lemma {:induction false} ArgUniqueCovers(strs: seq<seq<nat>>)
    requires SameWidth(strs)
    ensures Covers(strs, Qsort(strs, Range(|strs|)))
  {
    var idx := Range(|strs|);
    var r := Qsort(strs, idx);
    ArgUniqueValid(strs);
    forall i: nat | i < |strs| ensures CoveredAt(strs, r, i) {
      assert idx[i] == i;
      QsortCovers(strs, idx, i);
      var j :| j in r && j < |strs| && i < |strs| && strs[j] == strs[i];
      var k :| 0 <= k < |r| && r[k] == j;
      assert strs[r[k]] == strs[i];
    }
  }

  /**
   * What `argunique` promises: valid indices whose rows are strictly
   * ascending under `order` (so no row is returned twice), every input row
   * equal to the row at one returned index, and of equal rows the last one
   * kept.
   */
  lemma {:induction false} ArgUniqueSpec(strs: seq<seq<nat>>)
    requires SameWidth(strs)
    ensures SortedBy(strs, Qsort(strs, Range(|strs|)))
    ensures NoRepeats(strs, Qsort(strs, Range(|strs|)))
    ensures Covers(strs, Qsort(strs, Range(|strs|)))
    ensures KeepsLast(strs, Qsort(strs, Range(|strs|)))
  {
    var idx := Range(|strs|);
    var r := Qsort(strs, idx);
    QsortSorted(strs, idx);
    ArgUniqueNoRepeats(strs);
    ArgUniqueCovers(strs);
    QsortKeepsLast(strs, idx, true);
    forall k, i | 0 <= k < |r| && 0 <= i < |strs| && strs[i] == strs[r[k]] ensures i <= r[k] {
      assert idx[i] == i;
      assert r[k] in r;
    }
  }
}
