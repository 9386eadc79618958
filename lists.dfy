/** Small facts about lists of orbital indices: ordering, offsets and ranges. */
module Lists {

  /** Every element is smaller than every later one (an ascending list without repeats). */
  ghost predicate StrictlyIncreasing(s: seq<nat>)
  {
    forall i, j :: 0 <= i < j < |s| ==> s[i] < s[j]
  }

  /** No value occurs twice. */
  ghost predicate Distinct<T>(s: seq<T>)
  {
    forall i, j :: 0 <= i < j < |s| ==> s[i] != s[j]
  }

  /** `[x + off for x in s]`. */
  function Shift(s: seq<nat>, off: nat): (r: seq<nat>)
    ensures |r| == |s|
    ensures forall i :: 0 <= i < |s| ==> r[i] == s[i] + off
  {
    seq(|s|, i requires 0 <= i < |s| => s[i] + off)
  }

  /** `list(range(n))`. */
  function Range(n: nat): (r: seq<nat>)
    ensures |r| == n
    ensures forall i :: 0 <= i < n ==> r[i] == i
  {
    seq(n, i requires 0 <= i < n => i)
  }

  /** `s[idx]`: the elements at the positions `idx`, in that order. */
  function Pick<T>(s: seq<T>, idx: seq<nat>): (r: seq<T>)
    requires forall k :: 0 <= k < |idx| ==> idx[k] < |s|
    ensures |r| == |idx|
  {
    seq(|idx|, k requires 0 <= k < |idx| => s[idx[k]])
  }

  /** `numpy.where(s == v)[0]`: the positions holding `v`, ascending. */
  function Positions<T(==)>(s: seq<T>, v: T): (r: seq<nat>)
    ensures |r| <= |s|
  {
    if s == [] then []
    else Positions(s[..|s| - 1], v) + (if s[|s| - 1] == v then [|s| - 1] else [])
  }

  lemma {:induction false} ShiftMembers(s: seq<nat>, off: nat)
    ensures forall x :: x in Shift(s, off) <==> x >= off && x - off in s
  {
    forall x ensures x in Shift(s, off) <==> x >= off && x - off in s {
      if x in Shift(s, off) {
        var i :| 0 <= i < |s| && Shift(s, off)[i] == x;
        assert s[i] == x - off;
      }
      if x >= off && x - off in s {
        var i :| 0 <= i < |s| && s[i] == x - off;
        assert Shift(s, off)[i] == x;
      }
    }
  }

  lemma {:induction false} ShiftConcat(a: seq<nat>, b: seq<nat>, off: nat)
    ensures Shift(a + b, off) == Shift(a, off) + Shift(b, off)
  {
  }

  lemma {:induction false} ShiftIncreasing(s: seq<nat>, off: nat)
    requires StrictlyIncreasing(s)
    ensures StrictlyIncreasing(Shift(s, off))
  {
  }

  /** Two ascending lists glued together stay ascending when the first ends below the second. */
  lemma {:induction false} ConcatIncreasing(a: seq<nat>, b: seq<nat>, bound: nat)
    requires StrictlyIncreasing(a) && StrictlyIncreasing(b)
    requires forall x :: x in a ==> x < bound
    requires forall y :: y in b ==> bound <= y
    ensures StrictlyIncreasing(a + b)
  {
    forall i, j | 0 <= i < j < |a + b| ensures (a + b)[i] < (a + b)[j] {
      if j < |a| {
      } else if i >= |a| {
        assert (a + b)[i] == b[i - |a|] && (a + b)[j] == b[j - |a|];
      } else {
        assert (a + b)[i] == a[i] && a[i] in a;
        assert (a + b)[j] == b[j - |a|] && b[j - |a|] in b;
      }
    }
  }

  lemma {:induction false} IncreasingDistinct(s: seq<nat>)
    requires StrictlyIncreasing(s)
    ensures Distinct(s)
  {
  }

  /** An ascending list is determined by its members: it is the sorted version of any list with those members. */
  lemma {:induction false} IncreasingUnique(a: seq<nat>, b: seq<nat>)
    requires StrictlyIncreasing(a) && StrictlyIncreasing(b)
    requires forall x :: x in a <==> x in b
    ensures a == b
  {
    if a != [] { assert a[0] in b; }
    if b != [] { assert b[0] in a; }
    if a != [] && b != [] {
      assert a[0] == b[0] by {
        assert a[0] in b && b[0] in a;
      }
      forall x ensures x in a[1..] <==> x in b[1..] {
        if x in a[1..] {
          assert x in b && x != b[0];
        }
        if x in b[1..] {
          assert x in a && x != a[0];
        }
      }
      IncreasingUnique(a[1..], b[1..]);
      assert a == [a[0]] + a[1..] && b == [b[0]] + b[1..];
    }
  }

  /** A list without repeats holds each of its members exactly once. */
  lemma {:induction false} DistinctMultiplicity<T>(s: seq<T>, x: T)
    requires Distinct(s)
    ensures multiset(s)[x] == if x in s then 1 else 0
  {
    if s != [] {
      assert s == [s[0]] + s[1..];
      DistinctMultiplicity(s[1..], x);
      assert s[0] !in s[1..];
    }
  }

  /** Two lists without repeats that have the same members are permutations of each other. */
  lemma {:induction false} SameMembersPermutation<T>(a: seq<T>, b: seq<T>)
    requires Distinct(a) && Distinct(b)
    requires forall x :: x in a <==> x in b
    ensures multiset(a) == multiset(b)
    ensures |a| == |b|
  {
    forall x ensures multiset(a)[x] == multiset(b)[x] {
      DistinctMultiplicity(a, x);
      DistinctMultiplicity(b, x);
    }
    assert multiset(a) == multiset(b);
    assert |a| == |multiset(a)| == |multiset(b)| == |b|;
  }

  /** Two disjoint lists without repeats that together hold exactly `0 .. n-1` have `n` elements between them. */
  lemma {:induction false} PartitionLength(a: seq<nat>, b: seq<nat>, n: nat)
    requires Distinct(a) && Distinct(b)
    requires forall x :: !(x in a && x in b)
    requires forall x: nat :: x in a || x in b <==> x < n
    ensures |a| + |b| == n
  {
    var both := a + b;
    assert Distinct(both) by {
      forall i, j | 0 <= i < j < |both| ensures both[i] != both[j] {
        if i < |a| && |a| <= j {
          assert both[i] in a && both[j] in b;
        } else if |a| <= i {
          assert both[i] == b[i - |a|] && both[j] == b[j - |a|];
        }
      }
    }
    forall x ensures x in both <==> x in Range(n) {
      if 0 <= x < n {
        assert Range(n)[x] == x;
      }
    }
    SameMembersPermutation(both, Range(n));
  }

  /** How many times `x` occurs in `s`. */
  function Occurrences(s: seq<nat>, x: nat): nat
  {
    if s == [] then 0 else Occurrences(s[..|s| - 1], x) + (if s[|s| - 1] == x then 1 else 0)
  }

  /** `Occurrences` is the multiplicity of `x` in the multiset of `s`. */
  lemma {:induction false} OccurrencesMultiset(s: seq<nat>, x: nat)
    ensures Occurrences(s, x) == multiset(s)[x]
  {
    if s != [] {
      OccurrencesMultiset(s[..|s| - 1], x);
      assert s == s[..|s| - 1] + [s[|s| - 1]];
    }
  }

  /** In a list without repeats, each member occurs once. */
  lemma {:induction false} DistinctOccurrences(s: seq<nat>, x: nat)
    requires Distinct(s)
    ensures Occurrences(s, x) == if x in s then 1 else 0
  {
    OccurrencesMultiset(s, x);
    DistinctMultiplicity(s, x);
  }

  /** `numpy.where` finds exactly the positions holding `v`. */
  lemma {:induction false} PositionsSpec<T>(s: seq<T>, v: T)
    ensures forall k :: 0 <= k < |Positions(s, v)| ==> Positions(s, v)[k] < |s| && s[Positions(s, v)[k]] == v
    ensures forall i :: 0 <= i < |s| && s[i] == v ==> i in Positions(s, v)
    decreases |s|
  {
    if s != [] {
      var init := s[..|s| - 1];
      PositionsSpec(init, v);
      var p := Positions(s, v);
      assert p[..|Positions(init, v)|] == Positions(init, v);
    }
  }

  /** The positions come in ascending order. */
  lemma {:induction false} PositionsIncreasing<T>(s: seq<T>, v: T)
    ensures StrictlyIncreasing(Positions(s, v))
    decreases |s|
  {
    if s != [] {
      var init := s[..|s| - 1];
      PositionsIncreasing(init, v);
      PositionsSpec(init, v);
    }
  }

  /** Picking distinct positions of a list without repeats gives a list without repeats. */
  lemma {:induction false} PickDistinct<T>(s: seq<T>, idx: seq<nat>)
    requires forall k :: 0 <= k < |idx| ==> idx[k] < |s|
    requires Distinct(s) && StrictlyIncreasing(idx)
    ensures Distinct(Pick(s, idx))
  {
    var r := Pick(s, idx);
    forall a, b | 0 <= a < b < |r| ensures r[a] != r[b] {
      assert idx[a] < idx[b];
    }
  }
}
