/**
 * The few array primitives of numpy that the clustering bookkeeping relies
 * on, stated over sequences: `np.unique` (sorted distinct values), the size
 * of `np.where(s == x)`, Python's indexing with a possibly negative index,
 * and the first position holding a value.
 */
module NumpyOps {

  predicate StrictlyIncreasing(u: seq<int>)
  {
    forall j, k :: 0 <= j < k < |u| ==> u[j] < u[k]
  }

  /** Inserts `x` into a strictly increasing sequence, unless it is there. */
  function InsertSorted(x: int, t: seq<int>): (r: seq<int>)
    requires StrictlyIncreasing(t)
    ensures StrictlyIncreasing(r)
    ensures forall y :: y in r <==> y == x || y in t
  {
    if t == [] then [x]
    else if x < t[0] then [x] + t
    else if x == t[0] then t
    else
      var rest := InsertSorted(x, t[1..]);
      assert forall k :: 0 <= k < |rest| ==> t[0] < rest[k] by {
        forall k | 0 <= k < |rest| ensures t[0] < rest[k] {
          assert rest[k] in rest;
          if rest[k] != x {
            var m :| 0 <= m < |t[1..]| && t[1..][m] == rest[k];
            assert t[1..][m] == t[m + 1];
          }
        }
      }
      [t[0]] + rest
  }

  /** `np.unique(s)`: the distinct values of `s`, in ascending order. */
  function Unique(s: seq<int>): (r: seq<int>)
    ensures StrictlyIncreasing(r)
    ensures forall y :: y in r <==> y in s
  {
    if s == [] then [] else InsertSorted(s[0], Unique(s[1..]))
  }

  /** The set of values occurring in `s`. */
  function Values(s: seq<int>): set<int>
  {
    set k | 0 <= k < |s| :: s[k]
  }

  /** A strictly increasing sequence lists each of its values once. */
  lemma {:induction false} IncreasingCard(u: seq<int>)
    requires StrictlyIncreasing(u)
    ensures |Values(u)| == |u|
  {
    if u != [] {
      var n := |u| - 1;
      IncreasingCard(u[..n]);
      assert Values(u) == Values(u[..n]) + {u[n]} by {
        forall y | y in Values(u) ensures y in Values(u[..n]) + {u[n]} {
          var k :| 0 <= k < |u| && u[k] == y;
          if k < n { assert u[..n][k] == y; }
        }
      }
      assert u[n] !in Values(u[..n]);
    }
  }

  /** `np.unique` yields exactly as many values as there are distinct ones. */
  lemma UniqueCard(s: seq<int>)
    ensures |Unique(s)| == |Values(s)|
  {
    var u := Unique(s);
    IncreasingCard(u);
    assert Values(u) == Values(s) by {
      forall y ensures y in Values(u) <==> y in Values(s) {
        assert y in Values(u) <==> y in u;
        assert y in Values(s) <==> y in s;
      }
    }
  }

  /** `len(np.where(s == x)[0])`: how many positions of `s` hold `x`. */
  function Count(s: seq<int>, x: int): (c: nat)
    ensures c <= |s|
    ensures c > 0 <==> x in s
  {
    if s == [] then 0
    else Count(s[..|s| - 1], x) + (if s[|s| - 1] == x then 1 else 0)
  }

  /** The positions of `s` that hold `x` (the index array of `np.where`). */
  function Where(s: seq<int>, x: int): set<int>
  {
    set k | 0 <= k < |s| && s[k] == x
  }

  /** Count is the size of the index set that `np.where` returns. */
  lemma {:induction false} CountIsWhereSize(s: seq<int>, x: int)
    ensures Count(s, x) == |Where(s, x)|
  {
    if s != [] {
      var n := |s| - 1;
      CountIsWhereSize(s[..n], x);
      assert Where(s, x) == Where(s[..n], x) + (if s[n] == x then {n} else {}) by {
        forall k | k in Where(s, x) && k < n ensures k in Where(s[..n], x) {
          assert s[..n][k] == s[k];
        }
      }
    }
  }

  /** The group sizes of the values listed in `u`, added up. */
  function SumCounts(u: seq<int>, s: seq<int>): nat
  {
    if u == [] then 0 else Count(s, u[0]) + SumCounts(u[1..], s)
  }

  lemma {:induction false} SumCountsEmpty(u: seq<int>)
    ensures SumCounts(u, []) == 0
  {
    if u != [] { SumCountsEmpty(u[1..]); }
  }

  /** Adding one element to `s` adds one to the sum iff it is listed in `u`. */
  lemma {:induction false} SumCountsSnoc(u: seq<int>, s: seq<int>, a: int)
    requires StrictlyIncreasing(u)
    ensures SumCounts(u, s + [a]) == SumCounts(u, s) + (if a in u then 1 else 0)
  {
    if u != [] {
      assert (s + [a])[..|s + [a]| - 1] == s;
      SumCountsSnoc(u[1..], s, a);
      assert a in u <==> a == u[0] || a in u[1..];
      if a == u[0] {
        assert a !in u[1..];
      }
    }
  }

  /**
   * Every position belongs to exactly one group: over any strictly increasing
   * list of values covering `s`, the group sizes add up to `|s|`.
   */
  lemma {:induction false} SumCountsPartition(u: seq<int>, s: seq<int>)
    requires StrictlyIncreasing(u)
    requires forall k :: 0 <= k < |s| ==> s[k] in u
    ensures SumCounts(u, s) == |s|
  {
    if s == [] {
      SumCountsEmpty(u);
    } else {
      var n := |s| - 1;
      SumCountsPartition(u, s[..n]);
      assert s[..n] + [s[n]] == s;
      SumCountsSnoc(u, s[..n], s[n]);
    }
  }

  /** The group sizes over the distinct values of `s` add up to `|s|`. */
  lemma UniqueGroupsPartition(s: seq<int>)
    ensures SumCounts(Unique(s), s) == |s|
  {
    SumCountsPartition(Unique(s), s);
  }

  /** Python's `a[i]` on a sequence of length `n`: `-1` is the last element. */
  function PyIndex(n: nat, i: int): (k: nat)
    requires -(n as int) <= i < n
    ensures k < n
    ensures i >= 0 ==> k == i
    ensures i < 0 ==> k + (-i) == n
  {
    if i < 0 then n + i else i
  }

  /** `np.where(s == v)[0][0]`: the first position of `s` holding `v`. */
  function FirstIndex<T(==)>(s: seq<T>, v: T): (k: nat)
    requires v in s
    ensures k < |s| && s[k] == v
    ensures forall j :: 0 <= j < k ==> s[j] != v
  {
    if s[0] == v then 0 else 1 + FirstIndex(s[1..], v)
  }
}
