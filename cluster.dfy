/**
 * The bookkeeping of `cluster_data` after HDBSCAN has labelled each row:
 * two per-row count arrays filled by masked assignment, then appended to the
 * feature matrix together with the labels.
 *
 * The feature matrix has one row per candidate; column 3 holds the beam
 * (the default feature columns are itime, idm, ibox, ibeam). The labels are
 * an input: HDBSCAN itself is not part of this model.
 */
module Cluster {
  import opened NumpyOps

  /** Column of the feature matrix read as the beam index. */
  const BEAM_COLUMN: nat := 3

  /** A rectangular feature matrix wide enough to hold the beam column. */
  predicate Features(data: seq<seq<int>>)
  {
    forall k :: 0 <= k < |data| ==> |data[k]| == |data[0]| && |data[k]| > BEAM_COLUMN
  }

  /** `data[:, c]`. */
  function Column(data: seq<seq<int>>, c: nat): (col: seq<int>)
    requires forall k :: 0 <= k < |data| ==> c < |data[k]|
    ensures |col| == |data|
    ensures forall k :: 0 <= k < |data| ==> col[k] == data[k][c]
  {
    seq(|data|, k requires 0 <= k < |data| => data[k][c])
  }

  /** The beams of the rows labelled `i`, as a set. */
  function GroupBeams(bl: seq<int>, cl: seq<int>, i: int): set<int>
    requires |bl| == |cl|
  {
    set k | 0 <= k < |cl| && cl[k] == i :: bl[k]
  }

  /** `bl[ww]` for `ww = np.where(i == cl)`: the beams of the rows labelled `i`. */
  function BeamsOfGroup(bl: seq<int>, cl: seq<int>, i: int): (r: seq<int>)
    requires |bl| == |cl|
    ensures forall k :: 0 <= k < |cl| && cl[k] == i ==> bl[k] in r
    ensures forall b :: b in r ==> b in GroupBeams(bl, cl, i)
  {
    if cl == [] then []
    else
      var n := |cl| - 1;
      var front := BeamsOfGroup(bl[..n], cl[..n], i);
      assert forall b :: b in front ==> b in GroupBeams(bl, cl, i) by {
        forall b | b in front ensures b in GroupBeams(bl, cl, i) {
          var k :| 0 <= k < n && cl[..n][k] == i && bl[..n][k] == b;
          assert cl[k] == i && bl[k] == b;
        }
      }
      front + (if cl[n] == i then [bl[n]] else [])
  }

  /** `bl[ww]` has one entry per row labelled `i`: `len(ww[0])` of them. */
  lemma {:induction false} BeamsOfGroupSize(bl: seq<int>, cl: seq<int>, i: int)
    requires |bl| == |cl|
    ensures |BeamsOfGroup(bl, cl, i)| == Count(cl, i)
  {
    if cl != [] {
      var n := |cl| - 1;
      BeamsOfGroupSize(bl[..n], cl[..n], i);
    }
  }

  /**
   * What `cluster_data` returns: each feature row extended by its label, the
   * number of rows in the WHOLE matrix sharing its beam, and the number of
   * rows sharing its label.
   */
  function Labeled(data: seq<seq<int>>, cl: seq<int>): (datal: seq<seq<int>>)
    requires Features(data) && |cl| == |data|
    ensures |datal| == |data|
  {
    var bl := Column(data, BEAM_COLUMN);
    seq(|data|, k requires 0 <= k < |data| =>
      data[k] + [cl[k], Count(bl, bl[k]), Count(cl, cl[k])])
  }

  /**
   * `cluster_data` from the labels on: `cntc[ww] = len(ww)` for each label,
   * and `cntb[wwb] = len(wwb)` for each beam met among that label's rows,
   * where `wwb` ranges over the whole matrix. Every row is reached by both
   * loops, since its own beam occurs among its own label's beams.
   */
  method ClusterData(data: seq<seq<int>>, labels: seq<int>) returns (datal: seq<seq<int>>)
    requires Features(data) && |labels| == |data|
    ensures datal == Labeled(data, labels)
  {
    var n := |data|;
    var bl := Column(data, BEAM_COLUMN);
    var cl := labels;
    var cntb := new int[n](_ => 0);
    var cntc := new int[n](_ => 0);
    var ucl := Unique(cl);
    ghost var doneLabels: set<int> := {};
    for ii := 0 to |ucl|
      invariant forall m :: 0 <= m < ii ==> ucl[m] in doneLabels
      invariant forall k :: 0 <= k < n && cl[k] in doneLabels ==> cntc[k] == Count(cl, cl[k])
      invariant forall k :: 0 <= k < n && cl[k] in doneLabels ==> cntb[k] == Count(bl, bl[k])
    {
      var i := ucl[ii];
      forall k | 0 <= k < n && cl[k] == i {
        cntc[k] := Count(cl, i);
      }
      var ubl := Unique(BeamsOfGroup(bl, cl, i));
      SetBeamCounts(cntb, bl, ubl);
      forall k | 0 <= k < n && cl[k] == i
        ensures bl[k] in ubl
      {
      }
      doneLabels := doneLabels + {i};
    }
    forall k | 0 <= k < n
      ensures cl[k] in doneLabels
    {
      assert cl[k] in ucl;
    }
    var beams, clusters := cntb[..], cntc[..];
    datal := seq(n, k requires 0 <= k < n => data[k] + [cl[k], beams[k], clusters[k]]);
    ghost var spec := Labeled(data, labels);
    forall k | 0 <= k < n
      ensures datal[k] == spec[k]
    {
      assert beams[k] == Count(bl, bl[k]) && clusters[k] == Count(cl, cl[k]);
    }
  }

  /**
   * The inner loop of `cluster_data`: for each beam `j` in `ubl`,
   * `cntb[np.where(j == bl)] = len(...)`, counting over the whole matrix.
   * The rows whose beam is listed get their beam count; the others keep
   * what they had.
   */
  method SetBeamCounts(cntb: array<int>, bl: seq<int>, ubl: seq<int>)
    requires cntb.Length == |bl|
    modifies cntb
    ensures forall k :: 0 <= k < |bl| && bl[k] in ubl ==> cntb[k] == Count(bl, bl[k])
    ensures forall k :: 0 <= k < |bl| && bl[k] !in ubl ==> cntb[k] == old(cntb[k])
  {
    ghost var doneBeams: set<int> := {};
    for jj := 0 to |ubl|
      invariant forall m :: 0 <= m < jj ==> ubl[m] in doneBeams
      invariant forall b :: b in doneBeams ==> b in ubl
      invariant forall k :: 0 <= k < |bl| && bl[k] in doneBeams ==> cntb[k] == Count(bl, bl[k])
      invariant forall k :: 0 <= k < |bl| && bl[k] !in doneBeams ==> cntb[k] == old(cntb[k])
    {
      var j := ubl[jj];
      forall k | 0 <= k < |bl| && bl[k] == j {
        cntb[k] := Count(bl, j);
      }
      doneBeams := doneBeams + {j};
    }
    forall k | 0 <= k < |bl| && bl[k] in ubl
      ensures bl[k] in doneBeams
    {
      var m :| 0 <= m < |ubl| && ubl[m] == bl[k];
    }
  }

  /**
   * Row `r` of the result keeps the feature row unchanged and appends
   * exactly three columns: the label, the beam count, the cluster count.
   */
  lemma LabeledRow(data: seq<seq<int>>, cl: seq<int>, r: nat)
    requires Features(data) && |cl| == |data| && r < |data|
    ensures var d, bl := |data[r]|, Column(data, BEAM_COLUMN);
      && |Labeled(data, cl)[r]| == d + 3
      && Labeled(data, cl)[r][..d] == data[r]
      && Labeled(data, cl)[r][d] == cl[r]
      && Labeled(data, cl)[r][d + 1] == Count(bl, bl[r])
      && Labeled(data, cl)[r][d + 2] == Count(cl, cl[r])
  {
  }

  /**
   * The cluster count of row `r` is the size of its label group: the number
   * of positions `np.where` finds for its label, itself included.
   */
  lemma ClusterCountIsGroupSize(data: seq<seq<int>>, cl: seq<int>, r: nat)
    requires Features(data) && |cl| == |data| && r < |data|
    ensures Labeled(data, cl)[r][|data[r]| + 2] == |Where(cl, cl[r])|
    ensures Labeled(data, cl)[r][|data[r]| + 2] >= 1
  {
    CountIsWhereSize(cl, cl[r]);
  }

  /**
   * The beam count of row `r` is the number of rows of the whole matrix with
   * its beam, whatever their label.
   */
  lemma BeamCountIsWholeMatrixCount(data: seq<seq<int>>, cl: seq<int>, r: nat)
    requires Features(data) && |cl| == |data| && r < |data|
    ensures Labeled(data, cl)[r][|data[r]| + 1] ==
            |set k | 0 <= k < |data| && data[k][BEAM_COLUMN] == data[r][BEAM_COLUMN]|
  {
    var bl := Column(data, BEAM_COLUMN);
    CountIsWhereSize(bl, bl[r]);
    assert Where(bl, bl[r]) ==
           set k | 0 <= k < |data| && data[k][BEAM_COLUMN] == data[r][BEAM_COLUMN];
  }

  /** Rows of `r`'s label that also share its beam. */
  function SameBeamInCluster(bl: seq<int>, cl: seq<int>, r: nat): set<int>
    requires |bl| == |cl| && r < |cl|
  {
    set k | 0 <= k < |cl| && cl[k] == cl[r] && bl[k] == bl[r]
  }

  /**
   * The beam count is never below the number of rows sharing both the label
   * and the beam of a row.
   */
  lemma BeamCountCoversCluster(data: seq<seq<int>>, cl: seq<int>, r: nat)
    requires Features(data) && |cl| == |data| && r < |data|
    ensures Labeled(data, cl)[r][|data[r]| + 1] >=
            |SameBeamInCluster(Column(data, BEAM_COLUMN), cl, r)|
  {
    var bl := Column(data, BEAM_COLUMN);
    assert Labeled(data, cl)[r][|data[r]| + 1] == Count(bl, bl[r]);
    CountIsWhereSize(bl, bl[r]);
    var within := SameBeamInCluster(bl, cl, r);
    var all := Where(bl, bl[r]);
    assert within <= all;
    assert all == within + (all - within);
  }

  /**
   * Two rows on beam 0 with labels 0 and 1: each gets beam count 2, although
   * each is alone on its beam within its label.
   */
  lemma BeamCountCrossesClusters()
    ensures Labeled([[1, 1, 1, 0], [9, 9, 9, 0]], [0, 1])[0][5] == 2
    ensures |SameBeamInCluster([0, 0], [0, 1], 0)| == 1
  {
    var data := [[1, 1, 1, 0], [9, 9, 9, 0]];
    var bl := Column(data, BEAM_COLUMN);
    assert bl == [0, 0];
    assert bl[..1] == [0];
    assert Count(bl, 0) == 2;
    assert SameBeamInCluster([0, 0], [0, 1], 0) == {0};
  }
}
