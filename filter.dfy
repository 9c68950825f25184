/**
 * `filter_clustered`: keeps the peak records that meet every threshold that
 * is set, in their original order.
 */
module Filter {
  import opened Selection
  import opened Peaks

  /** Python's `None` or a value. */
  datatype Option<T> = None | Some(value: T)

  /** The five optional thresholds; `None` imposes no constraint. */
  datatype Criteria = Criteria(
    minSnr: Option<real>,
    minCntb: Option<int>,
    maxCntb: Option<int>,
    minCntc: Option<int>,
    maxCntc: Option<int>)

  /** The defaults of `filter_clustered`: every threshold unset. */
  const NoCriteria: Criteria := Criteria(None, None, None, None, None)

  /** A record survives when it passes each threshold that is set. */
  predicate Passes(p: Peak, c: Criteria)
  {
    && (c.minSnr.Some? ==> p.maxsnr >= c.minSnr.value)
    && (c.minCntb.Some? ==> p.cntBeam >= c.minCntb.value)
    && (c.maxCntb.Some? ==> p.cntBeam <= c.maxCntb.value)
    && (c.minCntc.Some? ==> p.cntCl >= c.minCntc.value)
    && (c.maxCntc.Some? ==> p.cntCl <= c.maxCntc.value)
  }

  function Accepts(c: Criteria): Peak -> bool
  {
    p => Passes(p, c)
  }

  /** The records `filter_clustered` returns. */
  function Selected(clsnr: seq<Peak>, c: Criteria): seq<Peak>
  {
    Keep(clsnr, Accepts(c))
  }

  /**
   * `filter_clustered`: one pass over the records, skipping a record at the
   * first threshold it fails and appending it otherwise.
   */
  method FilterClustered(clsnr: seq<Peak>, crit: Criteria) returns (out: seq<Peak>)
    ensures out == Selected(clsnr, crit)
    ensures forall i :: 0 <= i < |out| ==> Passes(out[i], crit)
  {
    out := [];
    for i := 0 to |clsnr|
      invariant out == Keep(clsnr[..i], Accepts(crit))
    {
      assert clsnr[..i + 1][..i] == clsnr[..i];
      var p := clsnr[i];
      if crit.minSnr.Some? {
        if p.maxsnr < crit.minSnr.value {
          continue;
        }
      }
      if crit.minCntb.Some? {
        if p.cntBeam < crit.minCntb.value {
          continue;
        }
      }
      if crit.maxCntb.Some? {
        if p.cntBeam > crit.maxCntb.value {
          continue;
        }
      }
      if crit.minCntc.Some? {
        if p.cntCl < crit.minCntc.value {
          continue;
        }
      }
      if crit.maxCntc.Some? {
        if p.cntCl > crit.maxCntc.value {
          continue;
        }
      }
      out := out + [p];
    }
    assert clsnr[..|clsnr|] == clsnr;
  }

  /**
   * A record is in the output exactly when it is in the input and passes
   * every threshold that is set.
   */
  lemma SelectedMembers(clsnr: seq<Peak>, c: Criteria)
    ensures forall p :: p in Selected(clsnr, c) <==> p in clsnr && Passes(p, c)
  {
    KeepMembers(clsnr, Accepts(c));
  }

  /**
   * The output is the subsequence of the input at the positions of the
   * passing records, in their original order.
   */
  lemma SelectedPositions(clsnr: seq<Peak>, c: Criteria) returns (idx: seq<nat>)
    ensures IncreasingIndices(idx, |clsnr|)
    ensures |idx| == |Selected(clsnr, c)|
    ensures forall k :: 0 <= k < |idx| ==> Selected(clsnr, c)[k] == clsnr[idx[k]]
    ensures forall i :: 0 <= i < |clsnr| ==> (Passes(clsnr[i], c) <==> i in idx)
  {
    idx := KeepPositions(clsnr, Accepts(c));
    forall i | 0 <= i < |clsnr| && i in idx
      ensures Passes(clsnr[i], c)
    {
      var k :| 0 <= k < |idx| && idx[k] == i;
      assert Accepts(c)(Selected(clsnr, c)[k]);
    }
  }

  /** With every threshold unset, the output is the input. */
  lemma NoCriteriaKeepsAll(clsnr: seq<Peak>)
    ensures Selected(clsnr, NoCriteria) == clsnr
  {
    KeepAll(clsnr, Accepts(NoCriteria));
  }

  /** Filtering the output again with the same thresholds changes nothing. */
  lemma SelectedIdempotent(clsnr: seq<Peak>, c: Criteria)
    ensures Selected(Selected(clsnr, c), c) == Selected(clsnr, c)
  {
    KeepIdempotent(clsnr, Accepts(c));
  }

  predicate RaisedReal(a: Option<real>, b: Option<real>)
  {
    b.None? || (a.Some? && a.value >= b.value)
  }

  predicate Raised(a: Option<int>, b: Option<int>)
  {
    b.None? || (a.Some? && a.value >= b.value)
  }

  predicate Lowered(a: Option<int>, b: Option<int>)
  {
    b.None? || (a.Some? && a.value <= b.value)
  }

  /**
   * `c2` is at least as strict as `c1`: each lower bound is set and raised
   * (or was unset), each upper bound is set and lowered (or was unset).
   */
  predicate Tighter(c2: Criteria, c1: Criteria)
  {
    && RaisedReal(c2.minSnr, c1.minSnr)
    && Raised(c2.minCntb, c1.minCntb)
    && Lowered(c2.maxCntb, c1.maxCntb)
    && Raised(c2.minCntc, c1.minCntc)
    && Lowered(c2.maxCntc, c1.maxCntc)
  }

  /**
   * Tightening the thresholds keeps a subsequence of what the looser ones
   * kept, so the output never grows.
   */
  lemma TighterSelectsFewer(clsnr: seq<Peak>, c1: Criteria, c2: Criteria)
    requires Tighter(c2, c1)
    ensures Selected(clsnr, c2) == Selected(Selected(clsnr, c1), c2)
    ensures |Selected(clsnr, c2)| <= |Selected(clsnr, c1)|
  {
    forall p ensures Accepts(c2)(p) ==> Accepts(c1)(p) {
    }
    KeepNarrower(clsnr, Accepts(c1), Accepts(c2));
  }

  /** Two records, a minimum SNR of 5: only the first, of SNR 10, survives. */
  lemma MinSnrExample()
    ensures Selected([Peak(0, 10.0, 2, 5), Peak(1, 3.0, 1, 1)],
                     NoCriteria.(minSnr := Some(5.0))) == [Peak(0, 10.0, 2, 5)]
  {
    var s := [Peak(0, 10.0, 2, 5), Peak(1, 3.0, 1, 1)];
    assert s[..1] == [Peak(0, 10.0, 2, 5)] && s[..1][..0] == [];
  }
}
