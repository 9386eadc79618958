/**
 * `argunique_with_t(strs, ts)`: deduplicate determinants within each
 * excitation-level class. Each row of `ts` is a pair `[ta, tb]` of `int32`
 * levels, read as one little-endian `int64` key (`tb` the high half, `ta`
 * the low half as an unsigned number). For each distinct key, in ascending
 * order, the rows with that key are deduplicated by `argunique` and their
 * indices mapped back to the whole array; the results are concatenated.
 */
module Grouping {
  import opened Lists
  import opened ArgUnique

  /** `numpy.int32(x)`: `x` wrapped into `[-2^31, 2^31)`. */
  function Int32(x: int): (r: int)
    ensures -0x8000_0000 <= r < 0x8000_0000
    ensures (r - x) % 0x1_0000_0000 == 0
  {
    (x + 0x8000_0000) % 0x1_0000_0000 - 0x8000_0000
  }

  /** The `int64` that the two `int32` halves `[ta, tb]` of a row of `ts` form. */
  function Key(t: (int, int)): int
  {
    Int32(t.1) * 0x1_0000_0000 + Int32(t.0) % 0x1_0000_0000
  }

  /** `ts.view(numpy.int64).ravel()`. */
  function Keys(ts: seq<(int, int)>): (r: seq<int>)
    ensures |r| == |ts|
  {
    seq(|ts|, i requires 0 <= i < |ts| => Key(ts[i]))
  }

  /**
   * Keys order the level pairs by `tb`, then by `ta` read as unsigned; in
   * particular two pairs share a key exactly when their `int32` values agree.
   */
  lemma {:induction false} KeyOrder(a: (int, int), b: (int, int))
    ensures Key(a) < Key(b) <==>
      Int32(a.1) < Int32(b.1) || (Int32(a.1) == Int32(b.1) && Int32(a.0) % 0x1_0000_0000 < Int32(b.0) % 0x1_0000_0000)
    ensures Key(a) == Key(b) <==> Int32(a.1) == Int32(b.1) && Int32(a.0) == Int32(b.0)
  {
    var ha, hb := Int32(a.1), Int32(b.1);
    var la, lb := Int32(a.0) % 0x1_0000_0000, Int32(b.0) % 0x1_0000_0000;
    assert 0 <= la < 0x1_0000_0000 && 0 <= lb < 0x1_0000_0000;
    if ha < hb {
      assert ha * 0x1_0000_0000 + 0x1_0000_0000 <= hb * 0x1_0000_0000;
    } else if hb < ha {
      assert hb * 0x1_0000_0000 + 0x1_0000_0000 <= ha * 0x1_0000_0000;
    }
    if la == lb {
      var x, y := Int32(a.0), Int32(b.0);
      assert x == (if x < 0 then la - 0x1_0000_0000 else la);
      assert y == (if y < 0 then lb - 0x1_0000_0000 else lb);
    }
  }

  /** Strictly ascending integers. */
  ghost predicate Ascending(u: seq<int>)
  {
    forall a, b :: 0 <= a < b < |u| ==> u[a] < u[b]
  }

  /** `x` put in its place in the ascending list `u`, unless it is there already. */
  function Insert(u: seq<int>, x: int): seq<int>
  {
    if u == [] then [x]
    else if x < u[0] then [x] + u
    else if x == u[0] then u
    else [u[0]] + Insert(u[1..], x)
  }

  /** `numpy.unique(keys)`: the distinct keys, ascending. */
  function Unique(keys: seq<int>): seq<int>
  {
    if keys == [] then [] else Insert(Unique(keys[..|keys| - 1]), keys[|keys| - 1])
  }

  lemma {:induction false} InsertSpec(u: seq<int>, x: int)
    requires Ascending(u)
    ensures Ascending(Insert(u, x))
    ensures forall y :: y in Insert(u, x) <==> y in u || y == x
    decreases |u|
  {
    if u != [] && x > u[0] {
      InsertSpec(u[1..], x);
      var t := Insert(u[1..], x);
      forall k | 0 <= k < |t| ensures u[0] < t[k] {
        assert t[k] in t;
        if t[k] != x {
          var m :| 0 <= m < |u[1..]| && u[1..][m] == t[k];
          assert u[m + 1] == t[k];
        }
      }
      assert u == [u[0]] + u[1..];
    }
  }

  /** `numpy.unique` answers each key once, ascending, and nothing else. */
  lemma {:induction false} UniqueSpec(keys: seq<int>)
    ensures Ascending(Unique(keys))
    ensures forall y :: y in Unique(keys) <==> y in keys
    decreases |keys|
  {
    if keys != [] {
      var init := keys[..|keys| - 1];
      UniqueSpec(init);
      InsertSpec(Unique(init), keys[|keys| - 1]);
      assert keys == init + [keys[|keys| - 1]];
    }
  }

  /** The positions `numpy.where` finds index the rows. */
  lemma {:induction false} PositionsValid(strs: seq<seq<nat>>, keys: seq<int>, v: int)
    requires |keys| == |strs|
    ensures Valid(strs, Positions(keys, v))
  {
    PositionsSpec(keys, v);
  }

  /** Rows taken from a two-dimensional array keep one width. */
  lemma {:induction false} RowsSameWidth(strs: seq<seq<nat>>, idx: seq<nat>)
    requires Valid(strs, idx) && SameWidth(strs)
    ensures SameWidth(Pick(strs, idx))
  {
  }

  /** The group of rows with key `v`, deduplicated and mapped back to row indices. */
  function GroupPart(strs: seq<seq<nat>>, keys: seq<int>, v: int): seq<nat>
    requires |keys| == |strs|
  {
    var idx := Positions(keys, v);
    PositionsValid(strs, keys, v);
    var rows := Pick(strs, idx);
    ArgUniqueValid(rows);
    Pick(idx, Qsort(rows, Range(|idx|)))
  }

  /** The groups of the keys `u`, in that order, concatenated (`numpy.hstack`). */
  function Groups(strs: seq<seq<nat>>, keys: seq<int>, u: seq<int>): seq<nat>
    requires |keys| == |strs|
  {
    if u == [] then [] else Groups(strs, keys, u[..|u| - 1]) + GroupPart(strs, keys, u[|u| - 1])
  }

  /** `argunique_with_t(strs, ts)` with `argunique` for the deduplication of each group. */
  method ArgUniqueWithT(strs: seq<seq<nat>>, ts: seq<(int, int)>) returns (r: seq<nat>)
    requires |ts| == |strs| && SameWidth(strs)
    ensures r == Groups(strs, Keys(ts), Unique(Keys(ts)))
  {
    if |strs| == 0 {
      return [];
    }
    var keys := Keys(ts);
    var u := Unique(keys);
    r := [];
    var j := 0;
    while j < |u|
      invariant 0 <= j <= |u|
      invariant r == Groups(strs, keys, u[..j])
    {
      var idx := Positions(keys, u[j]);
      PositionsValid(strs, keys, u[j]);
      RowsSameWidth(strs, idx);
      var rows := Pick(strs, idx);
      var part := ArgUnique.ArgUnique(rows);
      ArgUniqueValid(rows);
      assert u[..j + 1][..j] == u[..j];
      assert Pick(idx, part) == GroupPart(strs, keys, u[j]);
      r := r + Pick(idx, part);
      j := j + 1;
    }
    assert u[..j] == u;
  }

  /** The indices `r` name rows whose keys are among `u`. */
  predicate InKeys(keys: seq<int>, r: seq<nat>, u: seq<int>)
  {
    forall k :: 0 <= k < |r| ==> r[k] < |keys| && keys[r[k]] in u
  }

  /** The indices `r` come in key order, and no two with one key name equal rows. */
  predicate KeyOrdered(strs: seq<seq<nat>>, keys: seq<int>, r: seq<nat>)
    requires |keys| == |strs|
  {
    Valid(strs, r) &&
    forall a, b :: 0 <= a < b < |r| ==>
      keys[r[a]] < keys[r[b]] || (keys[r[a]] == keys[r[b]] && strs[r[a]] != strs[r[b]])
  }

  /** Row `i` is represented in `r` by an index with its key and an equal row. */
  predicate Represented(strs: seq<seq<nat>>, keys: seq<int>, r: seq<nat>, i: nat)
    requires |keys| == |strs| && i < |strs|
  {
    exists k :: 0 <= k < |r| && r[k] < |strs| && keys[r[k]] == keys[i] && strs[r[k]] == strs[i]
  }

  /** One group holds indices of rows with key `v`. */
  lemma {:induction false} GroupPartValid(strs: seq<seq<nat>>, keys: seq<int>, v: int)
    requires |keys| == |strs|
    ensures InKeys(keys, GroupPart(strs, keys, v), [v])
  {
    var idx := Positions(keys, v);
    PositionsSpec(keys, v);
    var rows := Pick(strs, idx);
    ArgUniqueValid(rows);
    var q := Qsort(rows, Range(|idx|));
    var g := Pick(idx, q);
    assert g == GroupPart(strs, keys, v);
    forall k | 0 <= k < |g| ensures g[k] < |keys| && keys[g[k]] in [v] {
      assert g[k] == idx[q[k]];
    }
  }

  /** No two indices of one group have equal rows. */
  lemma {:induction false} GroupPartDistinct(strs: seq<seq<nat>>, keys: seq<int>, v: int)
    requires |keys| == |strs| && SameWidth(strs)
    ensures NoRepeats(strs, GroupPart(strs, keys, v))
  {
    var idx := Positions(keys, v);
    PositionsValid(strs, keys, v);
    var rows := Pick(strs, idx);
    RowsSameWidth(strs, idx);
    ArgUniqueNoRepeats(rows);
    var q := Qsort(rows, Range(|idx|));
    var g := Pick(idx, q);
    assert g == GroupPart(strs, keys, v);
    forall a, b | 0 <= a < b < |g| ensures strs[g[a]] != strs[g[b]] {
      assert rows[q[a]] != rows[q[b]];
    }
  }

  /** Every row with key `v` equals the row at some index of its group. */
  lemma {:induction false} GroupPartCovers(strs: seq<seq<nat>>, keys: seq<int>, v: int, i: nat)
    requires |keys| == |strs| && SameWidth(strs) && i < |strs| && keys[i] == v
    ensures Represented(strs, keys, GroupPart(strs, keys, v), i)
  {
    var idx := Positions(keys, v);
    PositionsSpec(keys, v);
    PositionsValid(strs, keys, v);
    var rows := Pick(strs, idx);
    RowsSameWidth(strs, idx);
    ArgUniqueCovers(rows);
    var q := Qsort(rows, Range(|idx|));
    var g := Pick(idx, q);
    assert g == GroupPart(strs, keys, v);
    var m :| 0 <= m < |idx| && idx[m] == i;
    assert CoveredAt(rows, q, m);
    var k :| 0 <= k < |q| && rows[q[k]] == rows[m];
    assert g[k] == idx[q[k]] && keys[g[k]] == v;
  }

  /** The groups of the keys `u` hold indices of rows whose keys are in `u`. */
  lemma {:induction false} GroupsValid(strs: seq<seq<nat>>, keys: seq<int>, u: seq<int>)
    requires |keys| == |strs|
    ensures InKeys(keys, Groups(strs, keys, u), u)
    decreases |u|
  {
    if u != [] {
      var init, v := u[..|u| - 1], u[|u| - 1];
      GroupsValid(strs, keys, init);
      GroupPartValid(strs, keys, v);
      var front, g := Groups(strs, keys, init), GroupPart(strs, keys, v);
      var r := front + g;
      assert r == Groups(strs, keys, u);
      assert u == init + [v];
      forall k | 0 <= k < |r| ensures r[k] < |keys| && keys[r[k]] in u {
        if k < |front| {
          assert r[k] == front[k];
        } else {
          assert r[k] == g[k - |front|];
        }
      }
    }
  }

  /** Groups of ascending keys come in key order, with no row twice within a key. */
  lemma {:induction false} GroupsOrdered(strs: seq<seq<nat>>, keys: seq<int>, u: seq<int>)
    requires |keys| == |strs| && SameWidth(strs) && Ascending(u)
    ensures KeyOrdered(strs, keys, Groups(strs, keys, u))
    decreases |u|
  {
    if u != [] {
      var init, v := u[..|u| - 1], u[|u| - 1];
      GroupsOrdered(strs, keys, init);
      GroupsValid(strs, keys, init);
      GroupPartValid(strs, keys, v);
      GroupPartDistinct(strs, keys, v);
      var front, g := Groups(strs, keys, init), GroupPart(strs, keys, v);
      var r := front + g;
      assert r == Groups(strs, keys, u);
      forall k | 0 <= k < |r| ensures r[k] < |strs| {
        if k < |front| {
          assert r[k] == front[k];
        } else {
          assert r[k] == g[k - |front|];
        }
      }
      forall a, b | 0 <= a < b < |r|
        ensures keys[r[a]] < keys[r[b]] || (keys[r[a]] == keys[r[b]] && strs[r[a]] != strs[r[b]])
      {
        if b < |front| {
          assert r[a] == front[a] && r[b] == front[b];
        } else if a >= |front| {
          assert r[a] == g[a - |front|] && r[b] == g[b - |front|];
        } else {
          assert r[a] == front[a] && r[b] == g[b - |front|];
          assert keys[r[a]] in init && keys[r[b]] == v;
          var m :| 0 <= m < |init| && init[m] == keys[r[a]];
          assert u[m] < u[|u| - 1];
        }
      }
    }
  }

  /** Every row whose key is in `u` is represented in the groups of `u`. */
  lemma {:induction false} GroupsCover(strs: seq<seq<nat>>, keys: seq<int>, u: seq<int>, i: nat)
    requires |keys| == |strs| && SameWidth(strs) && i < |strs| && keys[i] in u
    ensures Represented(strs, keys, Groups(strs, keys, u), i)
    decreases |u|
  {
    var init, v := u[..|u| - 1], u[|u| - 1];
    var front, g := Groups(strs, keys, init), GroupPart(strs, keys, v);
    var r := front + g;
    assert r == Groups(strs, keys, u);
    if keys[i] == v {
      GroupPartCovers(strs, keys, v, i);
      var k :| 0 <= k < |g| && g[k] < |strs| && keys[g[k]] == keys[i] && strs[g[k]] == strs[i];
      assert r[|front| + k] == g[k];
    } else {
      assert u == init + [v];
      GroupsCover(strs, keys, init, i);
      var k :| 0 <= k < |front| && front[k] < |strs| && keys[front[k]] == keys[i] && strs[front[k]] == strs[i];
      assert r[k] == front[k];
    }
  }

  /**
   * What `argunique_with_t` promises: row indices ordered by level key,
   * no determinant twice within a level class, and every (levels,
   * determinant) combination of the input represented.
   */
  lemma {:induction false} ArgUniqueWithTSpec(strs: seq<seq<nat>>, ts: seq<(int, int)>)
    requires |ts| == |strs| && SameWidth(strs)
    ensures KeyOrdered(strs, Keys(ts), Groups(strs, Keys(ts), Unique(Keys(ts))))
    ensures forall i :: 0 <= i < |strs| ==> Represented(strs, Keys(ts), Groups(strs, Keys(ts), Unique(Keys(ts))), i)
  {
    var keys := Keys(ts);
    UniqueSpec(keys);
    GroupsOrdered(strs, keys, Unique(keys));
    forall i | 0 <= i < |strs| ensures Represented(strs, keys, Groups(strs, keys, Unique(keys)), i) {
      assert keys[i] in keys;
      GroupsCover(strs, keys, Unique(keys), i);
    }
  }
}
