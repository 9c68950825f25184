/**
 * `get_peak`: one record per distinct label of the labelled matrix, in
 * ascending label order, holding the position of the group's maximum SNR,
 * that maximum, and the beam and cluster counts.
 *
 * Two lookups are kept exactly as the source makes them:
 *  - the position is the FIRST position of the whole SNR vector holding the
 *    group's maximum, which may belong to another label;
 *  - the counts are read from the row whose index is the label VALUE, with
 *    Python's negative indexing (the noise label -1 reads the last row).
 */
module Peaks {
  import opened NumpyOps
  import opened Cluster

  /** Columns of the labelled matrix for a four-column feature matrix. */
  const LABEL_COLUMN: nat := 4
  const BEAM_COUNT_COLUMN: nat := 5
  const CLUSTER_COUNT_COLUMN: nat := 6

  /** `(imaxsnr, maxsnr, cnt_beam, cnt_cl)`. */
  datatype Peak = Peak(imaxsnr: nat, maxsnr: real, cntBeam: int, cntCl: int)

  /**
   * What `get_peak` needs of its input to run without an IndexError: the
   * matrix reaches column 6, there is one SNR per row, and every label is a
   * valid Python index into a column.
   */
  predicate PeakInput(datal: seq<seq<int>>, snrs: seq<real>)
  {
    && |snrs| == |datal|
    && (forall k :: 0 <= k < |datal| ==> |datal[k]| > CLUSTER_COUNT_COLUMN)
    && (forall k :: 0 <= k < |datal| ==> -|datal| <= datal[k][LABEL_COLUMN] < |datal|)
  }

  /** `datal[:, 4]`. */
  function Labels(datal: seq<seq<int>>): (cl: seq<int>)
    requires forall k :: 0 <= k < |datal| ==> |datal[k]| > CLUSTER_COUNT_COLUMN
    ensures |cl| == |datal|
    ensures forall k :: 0 <= k < |datal| ==> cl[k] == datal[k][LABEL_COLUMN]
  {
    Column(datal, LABEL_COLUMN)
  }

  /** `snrs[np.where(L == cl)].max()`: the largest SNR among rows labelled `L`. */
  function GroupMax(snrs: seq<real>, cl: seq<int>, L: int): (m: real)
    requires |snrs| == |cl| && L in cl
    ensures forall k :: 0 <= k < |cl| && cl[k] == L ==> snrs[k] <= m
    ensures exists k :: 0 <= k < |cl| && cl[k] == L && snrs[k] == m
  {
    var n := |cl| - 1;
    if cl[n] != L then
      assert L in cl[..n] by {
        var k :| 0 <= k < |cl| && cl[k] == L;
        assert cl[..n][k] == L;
      }
      GroupMax(snrs[..n], cl[..n], L)
    else if L !in cl[..n] then
      assert forall k :: 0 <= k < n ==> cl[..n][k] == cl[k];
      snrs[n]
    else
      var m := GroupMax(snrs[..n], cl[..n], L);
      if m < snrs[n] then snrs[n] else m
  }

  /** The record `get_peak` emits for label `L`. */
  function PeakOf(datal: seq<seq<int>>, snrs: seq<real>, L: int): (p: Peak)
    requires PeakInput(datal, snrs) && L in Labels(datal)
    ensures forall k :: 0 <= k < |datal| && datal[k][LABEL_COLUMN] == L ==> snrs[k] <= p.maxsnr
    ensures exists k :: 0 <= k < |datal| && datal[k][LABEL_COLUMN] == L && snrs[k] == p.maxsnr
    ensures p.imaxsnr < |snrs| && snrs[p.imaxsnr] == p.maxsnr
    ensures forall k :: 0 <= k < p.imaxsnr ==> snrs[k] != p.maxsnr
    ensures p.cntBeam == datal[PyIndex(|datal|, L)][BEAM_COUNT_COLUMN]
    ensures p.cntCl == datal[PyIndex(|datal|, L)][CLUSTER_COUNT_COLUMN]
  {
    var cl := Labels(datal);
    var m := GroupMax(snrs, cl, L);
    var row := PyIndex(|datal|, L);
    Peak(FirstIndex(snrs, m), m, datal[row][BEAM_COUNT_COLUMN], datal[row][CLUSTER_COUNT_COLUMN])
  }

  /** The records of `get_peak`, one per distinct label in ascending order. */
  function PeakList(datal: seq<seq<int>>, snrs: seq<real>): (ps: seq<Peak>)
    requires PeakInput(datal, snrs)
  {
    var u := Unique(Labels(datal));
    seq(|u|, k requires 0 <= k < |u| => PeakOf(datal, snrs, u[k]))
  }

  /**
   * `get_peak`: walks the distinct labels in ascending order and appends one
   * record for each.
   */
  method GetPeak(datal: seq<seq<int>>, snrs: seq<real>) returns (clsnr: seq<Peak>)
    requires PeakInput(datal, snrs)
    ensures clsnr == PeakList(datal, snrs)
    ensures |clsnr| == |Values(Labels(datal))|
  {
    var cl := Labels(datal);
    var cntBeam := Column(datal, BEAM_COUNT_COLUMN);
    var cntCl := Column(datal, CLUSTER_COUNT_COLUMN);
    var u := Unique(cl);
    ghost var spec := PeakList(datal, snrs);
    clsnr := [];
    for idx := 0 to |u|
      invariant clsnr == spec[..idx]
    {
      var i := u[idx];
      var maxsnr := GroupMax(snrs, cl, i);
      var imaxsnr := FirstIndex(snrs, maxsnr);
      var row := PyIndex(|datal|, i);
      var peak := Peak(imaxsnr, maxsnr, cntBeam[row], cntCl[row]);
      assert peak == spec[idx];
      assert spec[..idx + 1] == spec[..idx] + [peak];
      clsnr := clsnr + [peak];
    }
    assert spec[..|u|] == spec;
    UniqueCard(cl);
  }

  /**
   * The records follow the distinct labels: the k-th record belongs to the
   * k-th smallest label, each label present in the matrix has exactly one,
   * and there are as many records as distinct labels.
   */
  lemma PeakListFollowsLabels(datal: seq<seq<int>>, snrs: seq<real>)
    requires PeakInput(datal, snrs)
    ensures var u := Unique(Labels(datal));
      && StrictlyIncreasing(u)
      && (forall L :: L in u <==> L in Labels(datal))
      && |PeakList(datal, snrs)| == |u| == |Values(Labels(datal))|
      && (forall k :: 0 <= k < |u| ==> PeakList(datal, snrs)[k] == PeakOf(datal, snrs, u[k]))
  {
    UniqueCard(Labels(datal));
  }

  /**
   * When no two rows share an SNR value, the record of each label points to
   * a row carrying that label.
   */
  lemma PeakRowInGroupWhenSnrsDistinct(datal: seq<seq<int>>, snrs: seq<real>, L: int)
    requires PeakInput(datal, snrs) && L in Labels(datal)
    requires forall j, k :: 0 <= j < k < |snrs| ==> snrs[j] != snrs[k]
    ensures datal[PeakOf(datal, snrs, L).imaxsnr][LABEL_COLUMN] == L
  {
    var p := PeakOf(datal, snrs, L);
    var k :| 0 <= k < |datal| && datal[k][LABEL_COLUMN] == L && snrs[k] == p.maxsnr;
    assert k == p.imaxsnr;
  }

  /**
   * Two rows with equal SNR and labels 0 and 1: the record of label 1 points
   * to row 0, which carries label 0.
   */
  lemma PeakRowOutsideGroupExample()
    ensures var datal := [[0, 0, 0, 0, 0, 1, 1], [0, 0, 0, 0, 1, 1, 1]];
      && PeakInput(datal, [5.0, 5.0])
      && 1 in Labels(datal)
      && PeakOf(datal, [5.0, 5.0], 1).imaxsnr == 0
      && datal[0][LABEL_COLUMN] == 0
  {
    var datal := [[0, 0, 0, 0, 0, 1, 1], [0, 0, 0, 0, 1, 1, 1]];
    assert Labels(datal)[1] == 1;
    var p := PeakOf(datal, [5.0, 5.0], 1);
    assert p.maxsnr == 5.0;
  }

  /**
   * The output of `cluster_data` on a four-column feature matrix is a valid
   * input of `get_peak` whose label column is the label vector.
   */
  lemma LabeledIsPeakInput(data: seq<seq<int>>, cl: seq<int>, snrs: seq<real>)
    requires Features(data) && |cl| == |data| && |snrs| == |data|
    requires forall k :: 0 <= k < |data| ==> |data[k]| == LABEL_COLUMN
    requires forall k :: 0 <= k < |cl| ==> -|cl| <= cl[k] < |cl|
    ensures PeakInput(Labeled(data, cl), snrs)
    ensures Labels(Labeled(data, cl)) == cl
  {
    var datal := Labeled(data, cl);
    forall k | 0 <= k < |data|
      ensures |datal[k]| > CLUSTER_COUNT_COLUMN && datal[k][LABEL_COLUMN] == cl[k]
      ensures -|datal| <= datal[k][LABEL_COLUMN] < |datal|
    {
      LabeledRow(data, cl, k);
    }
  }

  /**
   * Fed with the output of `cluster_data` on a four-column feature matrix,
   * the record of label `L` carries the counts of ROW `L` (the last row for
   * `L == -1`), not of the label-`L` group.
   */
  lemma PeakCountsFromLabeled(data: seq<seq<int>>, cl: seq<int>, snrs: seq<real>, L: int)
    requires Features(data) && |cl| == |data| && |snrs| == |data|
    requires forall k :: 0 <= k < |data| ==> |data[k]| == LABEL_COLUMN
    requires forall k :: 0 <= k < |cl| ==> -|cl| <= cl[k] < |cl|
    requires L in cl
    ensures PeakInput(Labeled(data, cl), snrs)
    ensures Labels(Labeled(data, cl)) == cl
    ensures var row := PyIndex(|data|, L);
      && PeakOf(Labeled(data, cl), snrs, L).cntCl == Count(cl, cl[row])
      && PeakOf(Labeled(data, cl), snrs, L).cntBeam ==
         Count(Column(data, BEAM_COLUMN), data[row][BEAM_COLUMN])
  {
    LabeledIsPeakInput(data, cl, snrs);
    var row := PyIndex(|data|, L);
    LabeledRow(data, cl, row);
  }

  /**
   * The cluster count in the record of `L` is the size of `L`'s group
   * when the row indexed by `L` itself carries label `L`.
   */
  lemma PeakClusterCountIsGroupSize(data: seq<seq<int>>, cl: seq<int>, snrs: seq<real>, L: int)
    requires Features(data) && |cl| == |data| && |snrs| == |data|
    requires forall k :: 0 <= k < |data| ==> |data[k]| == LABEL_COLUMN
    requires forall k :: 0 <= k < |cl| ==> -|cl| <= cl[k] < |cl|
    requires L in cl
    requires cl[PyIndex(|cl|, L)] == L
    ensures PeakInput(Labeled(data, cl), snrs)
    ensures Labels(Labeled(data, cl)) == cl
    ensures PeakOf(Labeled(data, cl), snrs, L).cntCl == |Where(cl, L)|
  {
    PeakCountsFromLabeled(data, cl, snrs, L);
    CountIsWhereSize(cl, L);
  }

  /**
   * Rows 0, 1, 2 labelled 1, 0, 0: the record of label 0 reads row 0 and
   * reports a cluster count of 1, although label 0 has two rows.
   */
  lemma PeakClusterCountMismatchExample()
    ensures var data := [[0, 0, 0, 0], [0, 0, 0, 0], [0, 0, 0, 0]];
      && Features(data)
      && PeakInput(Labeled(data, [1, 0, 0]), [1.0, 2.0, 3.0])
      && 0 in Labels(Labeled(data, [1, 0, 0]))
      && PeakOf(Labeled(data, [1, 0, 0]), [1.0, 2.0, 3.0], 0).cntCl == 1
      && Count([1, 0, 0], 0) == 2
  {
    var data := [[0, 0, 0, 0], [0, 0, 0, 0], [0, 0, 0, 0]];
    var cl := [1, 0, 0];
    assert cl[..2] == [1, 0] && cl[..2][..1] == [1];
    assert Count(cl, 1) == 1;
    PeakCountsFromLabeled(data, cl, [1.0, 2.0, 3.0], 0);
  }
}
