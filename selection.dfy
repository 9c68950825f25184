/**
 * Order-preserving selection: the shape shared by the line pre-filter of the
 * candidate parser (a list comprehension with a condition) and by the
 * threshold filter over peaks (a loop that appends the survivors).
 */
module Selection {

  /** The elements of `s` that satisfy `p`, in their original order. */
  function Keep<T>(s: seq<T>, p: T -> bool): (r: seq<T>)
    ensures |r| <= |s|
    ensures forall i :: 0 <= i < |r| ==> p(r[i])
  {
    if s == [] then []
    else Keep(s[..|s| - 1], p) + (if p(s[|s| - 1]) then [s[|s| - 1]] else [])
  }

  /** Strictly increasing positions into a sequence. */
  predicate IncreasingIndices(idx: seq<nat>, n: nat)
  {
    (forall k :: 0 <= k < |idx| ==> idx[k] < n) &&
    (forall j, k :: 0 <= j < k < |idx| ==> idx[j] < idx[k])
  }

  /**
   * Keep picks out exactly the positions whose element satisfies `p`, in
   * increasing order: the result is the subsequence of `s` at those
   * positions (each of which satisfies `p`, by Keep's contract), and every
   * position whose element satisfies `p` is among them.
   */
  lemma {:induction false} KeepPositions<T>(s: seq<T>, p: T -> bool) returns (idx: seq<nat>)
    ensures IncreasingIndices(idx, |s|)
    ensures |idx| == |Keep(s, p)|
    ensures forall k :: 0 <= k < |idx| ==> Keep(s, p)[k] == s[idx[k]]
    ensures forall i :: 0 <= i < |s| && p(s[i]) ==> exists k :: 0 <= k < |idx| && idx[k] == i
  {
    if s == [] {
      idx := [];
    } else {
      var n := |s| - 1;
      var front := KeepPositions(s[..n], p);
      var r := Keep(s, p);
      assert Keep(s[..n], p) == r[..|front|];
      idx := if p(s[n]) then front + [n] else front;
      assert IncreasingIndices(idx, |s|) by {
        assert forall k :: 0 <= k < |front| ==> front[k] < n;
        assert forall k :: 0 <= k < |front| ==> idx[k] == front[k];
      }
      forall k | 0 <= k < |idx|
        ensures r[k] == s[idx[k]]
      {
        if k < |front| {
          assert r[k] == Keep(s[..n], p)[k] == s[..n][front[k]];
        }
      }
      SnocPositions(s, s[..n], p, front, idx);
    }
  }

  /** Completeness carries over when one position is appended. */
  lemma SnocPositions<T>(s: seq<T>, t: seq<T>, p: T -> bool, front: seq<nat>, idx: seq<nat>)
    requires s != [] && t == s[..|s| - 1]
    requires forall i :: 0 <= i < |t| && p(t[i]) ==>
               exists k :: 0 <= k < |front| && front[k] == i
    requires idx == if p(s[|s| - 1]) then front + [|s| - 1] else front
    ensures forall i :: 0 <= i < |s| && p(s[i]) ==> exists k :: 0 <= k < |idx| && idx[k] == i
  {
    var n := |s| - 1;
    forall i | 0 <= i < |s| && p(s[i])
      ensures exists k :: 0 <= k < |idx| && idx[k] == i
    {
      if i < n {
        assert s[..n][i] == s[i];
        var k :| 0 <= k < |front| && front[k] == i;
        assert idx[k] == i;
      } else {
        assert idx[|front|] == n;
      }
    }
  }

  /** A value is selected exactly when it occurs in `s` and satisfies `p`. */
  lemma KeepMembers<T>(s: seq<T>, p: T -> bool)
    ensures forall x :: x in Keep(s, p) <==> x in s && p(x)
  {
    var idx := KeepPositions(s, p);
    var r := Keep(s, p);
    forall x | x in s && p(x)
      ensures x in r
    {
      var i :| 0 <= i < |s| && s[i] == x;
      var k :| 0 <= k < |idx| && idx[k] == i;
      assert r[k] == x;
    }
    forall x | x in r
      ensures x in s
    {
      var k :| 0 <= k < |r| && r[k] == x;
      assert s[idx[k]] == x;
    }
  }

  /** Keeping from a concatenation keeps from each part. */
  lemma {:induction false} KeepAppend<T>(a: seq<T>, b: seq<T>, p: T -> bool)
    ensures Keep(a + b, p) == Keep(a, p) + Keep(b, p)
  {
    if b == [] {
      assert a + b == a;
    } else {
      var n := |b| - 1;
      assert (a + b)[..|a + b| - 1] == a + b[..n];
      KeepAppend(a, b[..n], p);
    }
  }

  /** When every element satisfies `p`, nothing is dropped. */
  lemma {:induction false} KeepAll<T>(s: seq<T>, p: T -> bool)
    requires forall i :: 0 <= i < |s| ==> p(s[i])
    ensures Keep(s, p) == s
  {
    if s != [] {
      var n := |s| - 1;
      KeepAll(s[..n], p);
      assert s[..n] + [s[n]] == s;
    }
  }

  /** Selecting twice with the same condition selects once. */
  lemma KeepIdempotent<T>(s: seq<T>, p: T -> bool)
    ensures Keep(Keep(s, p), p) == Keep(s, p)
  {
    var r := Keep(s, p);
    KeepAll(r, p);
  }

  /**
   * A stricter condition `q` (everything it accepts, `p` accepts) selects
   * from what `p` selected, so it never selects more.
   */
  lemma {:induction false} KeepNarrower<T>(s: seq<T>, p: T -> bool, q: T -> bool)
    requires forall x :: q(x) ==> p(x)
    ensures Keep(s, q) == Keep(Keep(s, p), q)
    ensures |Keep(s, q)| <= |Keep(s, p)|
  {
    if s != [] {
      var n := |s| - 1;
      KeepNarrower(s[..n], p, q);
      var last := s[n];
      var kp := if p(last) then [last] else [];
      KeepAppend(Keep(s[..n], p), kp, q);
      if p(last) {
        assert kp[..0] == [];
      }
    }
  }

  /** What `p` keeps and what its negation keeps add up to the whole. */
  lemma {:induction false} KeepComplement<T>(s: seq<T>, p: T -> bool, q: T -> bool)
    requires forall x :: q(x) == !p(x)
    ensures |Keep(s, p)| + |Keep(s, q)| == |s|
  {
    if s != [] {
      KeepComplement(s[..|s| - 1], p, q);
    }
  }
}
