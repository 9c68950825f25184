# GReX T2 candidate clustering — a Dafny model

This project models the candidate-clustering core of the GReX T2 stage,
`T2/cluster_heimdall.py`. Heimdall writes one text line per single-pulse
candidate: `snr if itime mjds ibox idm dm ibeam`. The core does five things:

- It keeps only lines holding exactly seven space characters.
- It labels the candidates by clustering; the labels are an input of this model.
- It annotates every row with its label, a beam count and a cluster count.
- It extracts one peak record per label and filters those records by thresholds.
- It builds the two outputs: an `itime`-keyed JSON dictionary and a
  heimdall-layout table with a `members` column.

The modules follow the stages of the program:

- `Selection`: order-preserving selection (`Keep`). This is the shape of the
  line comprehension and of the threshold loop. It comes with lemmas on
  positions, membership, idempotence and narrowing.
- `NumpyOps`: the numpy primitives the code relies on, stated over sequences.
  These are `np.unique`, the size of `np.where(s == x)`, Python indexing with
  a negative index, and the first position of a value.
- `Lines`: the line pre-filter of `parse_candsfile`, with Python's
  `str.split`/`str.join` on `'\n'`.
- `Cluster`: the count loops of `cluster_data`. They are an imperative method
  over two count arrays. numpy's masked assignment is a `forall` statement.
- `Peaks`: `get_peak`, a loop specified by the function `PeakList`.
- `Filter`: `filter_clustered`, a loop specified by `Selected`.
- `Writers`: the dictionary that `dump_cluster_results_json` builds and the
  rows that `dump_cluster_results_heimdall` builds. A Python dict is modelled
  as its insertion-ordered keys plus a map.

The code's behaviour is modelled as written, including three quirks.

- **Beam count.** The beam count of a row counts the rows of the WHOLE matrix
  that share its beam, whatever their label. The code's inner loop indexes
  `np.where(j == bl)` over every row (lines 71-73). The docstring of
  `get_peak` (line 86) speaks of the "count of candidates in same beam and
  same cluster". The model follows the code.
  `Cluster.BeamCountCrossesClusters` exhibits the difference.
- **Peak lookups.** `get_peak` reads the two counts at the row whose index is
  the label value, so label `-1` reads the last row. It does not read them at
  the peak row. It also takes `imaxsnr` as the first position of the maximum
  SNR value in the whole SNR vector, which may lie outside the label's group.
  The model keeps both lookups as written. `Peaks.PeakClusterCountMismatchExample`
  and `Peaks.PeakRowOutsideGroupExample` exhibit them.
- **Line filter.** The filter counts the space character `' '` only
  (line 29), so a tab does not count as a separator.

## Model

| member | source | states |
|---|---|---|
| Selection.Keep | T2/cluster_heimdall.py:29 | the selected elements are no more than the input's and each satisfies the condition |
| Selection.KeepPositions | T2/cluster_heimdall.py:29 | the selection is the input at strictly increasing positions, and every position whose element satisfies the condition is among them |
| Selection.KeepMembers | T2/cluster_heimdall.py:29 | a value is selected exactly when it occurs in the input and satisfies the condition |
| Selection.KeepAll | T2/cluster_heimdall.py:110-127 | when every element passes, the selection is the input |
| Selection.KeepIdempotent | T2/cluster_heimdall.py:110-127 | selecting twice with the same condition equals selecting once |
| Selection.KeepNarrower | T2/cluster_heimdall.py:110-127 | selecting with a stricter condition equals selecting from the looser selection, and is no longer |
| Selection.KeepComplement | T2/cluster_heimdall.py:29 | the elements kept and the elements dropped add up to the input's length |
| NumpyOps.Unique | T2/cluster_heimdall.py:65 | `np.unique` is strictly increasing and holds exactly the input's values |
| NumpyOps.UniqueCard | T2/cluster_heimdall.py:65 | `np.unique` has as many elements as the input has distinct values |
| NumpyOps.Count | T2/cluster_heimdall.py:69 | `len(np.where(s == x)[0])` is at most the length and positive exactly when `x` occurs |
| NumpyOps.CountIsWhereSize | T2/cluster_heimdall.py:68-69 | the count equals the size of the index set that `np.where` returns |
| NumpyOps.UniqueGroupsPartition | T2/cluster_heimdall.py:65-69 | the group sizes over the distinct values add up to the number of rows |
| NumpyOps.PyIndex | T2/cluster_heimdall.py:97-98 | a Python index in `[-n, n)` denotes a row below `n`: itself when non-negative, `n + i` when negative |
| NumpyOps.FirstIndex | T2/cluster_heimdall.py:96 | `np.where(s == v)[0][0]` holds `v` and no earlier position does |
| Lines.Split | T2/cluster_heimdall.py:28 | `str.split('\n')` yields at least one piece and no piece holds the separator |
| Lines.JoinSplit | T2/cluster_heimdall.py:28-29 | joining the pieces of a split gives the text back |
| Lines.SplitJoin | T2/cluster_heimdall.py:29-30 | splitting a join of one or more separator-free lines gives the lines back |
| Lines.SpaceCount | T2/cluster_heimdall.py:29 | `line.count(' ')` is the multiplicity of `' '` in the line |
| Lines.Removed | T2/cluster_heimdall.py:28-31 | the number of lines dropped is the number of lines without exactly seven spaces |
| Lines.PreFilterLines | T2/cluster_heimdall.py:28-30 | when a line survives, the filtered text splits into exactly the seven-space lines, in order |
| Lines.ReportedRemovedWhenSomeSurvive | T2/cluster_heimdall.py:28-31 | when a line survives, the logged removed count is the true one |
| Lines.ReportedRemovedWhenNoneSurvive | T2/cluster_heimdall.py:28-31 | when no line survives, every line is dropped but the logged count is one less |
| Lines.ReportedRemovedExample | T2/cluster_heimdall.py:28-31 | on the text `x`, one line is dropped and 0 is logged |
| Cluster.Column | T2/cluster_heimdall.py:62 | `data[:, c]` has one entry per row, the row's column `c` |
| Cluster.BeamsOfGroup | T2/cluster_heimdall.py:68-70 | `bl[ww]` holds the beam of every row labelled `i` and only such beams |
| Cluster.BeamsOfGroupSize | T2/cluster_heimdall.py:68-70 | `bl[ww]` has one entry per row labelled `i`, as many as `len(ww[0])` |
| Cluster.ClusterData | T2/cluster_heimdall.py:61-76 | the count loops and `hstack` produce `Labeled`: each row extended by its label, its whole-matrix beam count and its label count |
| Cluster.SetBeamCounts | T2/cluster_heimdall.py:71-73 | rows whose beam is listed get their beam count over the whole matrix; the others are untouched |
| Cluster.LabeledRow | T2/cluster_heimdall.py:76 | a result row is the feature row followed by exactly label, beam count, cluster count |
| Cluster.ClusterCountIsGroupSize | T2/cluster_heimdall.py:68-69 | the cluster count of a row is the size of its label group, at least 1 |
| Cluster.BeamCountIsWholeMatrixCount | T2/cluster_heimdall.py:71-73 | the beam count of a row is the number of rows of the whole matrix on its beam |
| Cluster.BeamCountCoversCluster | T2/cluster_heimdall.py:70-73 | the beam count is at least the number of rows sharing both label and beam |
| Cluster.BeamCountCrossesClusters | T2/cluster_heimdall.py:71-73 | two rows on one beam with different labels each get beam count 2 though each is alone in its label |
| Peaks.Labels | T2/cluster_heimdall.py:90 | `datal[:, 4]` is the label column |
| Peaks.GroupMax | T2/cluster_heimdall.py:94-95 | the maximum SNR over a label's rows bounds each of them and is attained by one |
| Peaks.PeakOf | T2/cluster_heimdall.py:93-98 | a record holds its label's maximum SNR, the first position of that value in the whole SNR vector, and the counts at the row indexed by the label |
| Peaks.GetPeak | T2/cluster_heimdall.py:84-100 | the loop returns `PeakList`, one record per distinct label |
| Peaks.PeakListFollowsLabels | T2/cluster_heimdall.py:93 | the records follow the distinct labels in ascending order, one per label |
| Peaks.PeakRowInGroupWhenSnrsDistinct | T2/cluster_heimdall.py:96 | with pairwise distinct SNRs, a record's row carries its label |
| Peaks.PeakRowOutsideGroupExample | T2/cluster_heimdall.py:96 | with a tied SNR, the record of label 1 points to a row labelled 0 |
| Peaks.LabeledIsPeakInput | T2/cluster_heimdall.py:76-92 | the output of `cluster_data` is a valid input of `get_peak`, and its label column is the label vector |
| Peaks.PeakCountsFromLabeled | T2/cluster_heimdall.py:97-98 | the counts of label `L`'s record are those of row `L` (the last row for `-1`) |
| Peaks.PeakClusterCountIsGroupSize | T2/cluster_heimdall.py:97-98 | when row `L` carries label `L`, the record's cluster count is the size of `L`'s group |
| Peaks.PeakClusterCountMismatchExample | T2/cluster_heimdall.py:97-98 | with labels 1, 0, 0, the record of label 0 reports a cluster count of 1 while the group has 2 rows |
| Filter.FilterClustered | T2/cluster_heimdall.py:103-129 | the loop returns `Selected`, and every record it returns passes every set threshold |
| Filter.SelectedMembers | T2/cluster_heimdall.py:110-127 | a record is returned exactly when it is in the input and passes every set threshold |
| Filter.SelectedPositions | T2/cluster_heimdall.py:110-127 | the output is the input at increasing positions, which are exactly the passing ones |
| Filter.NoCriteriaKeepsAll | T2/cluster_heimdall.py:103-104 | with every threshold unset, the output is the input |
| Filter.SelectedIdempotent | T2/cluster_heimdall.py:103-129 | filtering the output again with the same thresholds changes nothing |
| Filter.TighterSelectsFewer | T2/cluster_heimdall.py:110-125 | stricter thresholds keep a subsequence of what looser ones kept |
| Filter.MinSnrExample | T2/cluster_heimdall.py:111-113 | a minimum SNR of 5 keeps the record of SNR 10 and drops the one of SNR 3 |
| Writers.ParseNatToString | T2/cluster_heimdall.py:140 | the decimal digits of a natural read back to it |
| Writers.IntToStringSign | T2/cluster_heimdall.py:140 | `str(i)` starts with `-` exactly for negative `i`, followed by the digits of `-i` |
| Writers.IntToStringInjective | T2/cluster_heimdall.py:140 | distinct integers give distinct `str` keys |
| Writers.PutValid | T2/cluster_heimdall.py:140-149 | dictionary assignment keeps keys unique and in step with the map, sets the key and changes no other; an existing key keeps its place in the key order, a new key goes last |
| Writers.ClusterResultsJson | T2/cluster_heimdall.py:132-149 | the loops build `JsonOf`, a well-formed dictionary |
| Writers.JsonValid | T2/cluster_heimdall.py:138-149 | the built dictionary lists each key once, exactly the keys of its map |
| Writers.PeakKeysSnoc | T2/cluster_heimdall.py:140 | one more peak adds its key to the keys of the earlier peaks |
| Writers.JsonKeys | T2/cluster_heimdall.py:138-149 | the keys are exactly `str(itime)` of the peaks' rows |
| Writers.FirstSeenMembers | T2/cluster_heimdall.py:140 | the first-occurrence list holds exactly the values that occur |
| Writers.FirstSeenOrder | T2/cluster_heimdall.py:139-140 | a value is listed before a later one that differs from every value up to the first |
| Writers.JsonKeysFirstSeen | T2/cluster_heimdall.py:138-149 | the key order is the peaks' keys in order of first occurrence: a reassigned key keeps its first place |
| Writers.JsonKeyOrder | T2/cluster_heimdall.py:139-149 | a peak's key precedes a later peak's key that none of the peaks up to the first one had |
| Writers.JsonLastWins | T2/cluster_heimdall.py:139-149 | a peak's key holds that peak's entry when no later peak shares the key |
| Writers.EntryFieldsContents | T2/cluster_heimdall.py:141-145 | the fields of an entry are exactly the selected columns with the row's values |
| Writers.EntryContents | T2/cluster_heimdall.py:140-149 | an entry holds the selected columns plus `nbeam` and `ncluster`, the peak's two counts |
| Writers.EntryFieldsOrder | T2/cluster_heimdall.py:141-145 | with distinct column names, an entry's fields follow `output_cols` |
| Writers.EntryOrder | T2/cluster_heimdall.py:140-149 | with distinct column names, an entry lists the selected columns in order, then `nbeam`, then `ncluster` |
| Writers.SameKeySameItime | T2/cluster_heimdall.py:140 | two peaks share a key exactly when their rows share an `itime` |
| Writers.HeimdallTable | T2/cluster_heimdall.py:162-167 | one row per peak in order, each holding every field of the peak's record and the peak's cluster count as `members` |
| Writers.HeimdallColumns | T2/cluster_heimdall.py:165-167 | the header is the seven selected columns, `members`, then `ibeam`; each table column holds the peak record's value and `members` its cluster count |
| Writers.DefaultColumnsKnown | T2/cluster_heimdall.py:132 | the default `output_cols` are all columns of the table |

## Left out

- HDBSCAN (`cluster_data`, lines 52-54) is an external library. The labels are an input of `Cluster.ClusterData`, so the model says nothing about how they are chosen.
- The logging of cluster statistics (lines 56-59) and every other log or print call are left out; no result depends on them.
- Table parsing by astropy (line 34) is left out, along with its `InconsistentTableError` branch and the `max ibeam` print. `Writers.Candidate` is the parsed record.
- Reading a file in place of literal text (lines 24-26) and the file writes (lines 151-152, 169) are left out; the model stops at the values written.
- The feature-matrix extraction (line 41) is left out. The feature matrix is an input: a rectangular integer matrix with the beam in column 3.
- The `np.int64` test in the JSON writer (lines 142-145) is left out. A cell is an integer or a real, according to its column.
- The float columns (`snr`, `mjds`, `dm`) are exact reals, so rounding is not modelled.
- JSON serialisation (`json.dump`) is left out. The key order of the dictionary and of each entry is modelled and stated by `Writers.JsonKeysFirstSeen` and `Writers.EntryOrder`; the text format is not.
- The heimdall writer's text layout (`format='ascii'`) is left out; its rows and header are modelled.
- Peaks.PeakInput: it requires every label to lie in `[-N, N)`. Beyond that range the code raises `IndexError`, and the model does not represent that error.
- Writers.JsonInput: it requires valid peak rows and known column names. Otherwise the code raises `IndexError` or `KeyError`, and the model does not represent those errors.

## Findings

| source | as written | input that shows it | evidently intended | confidence | as-written member | corrected member |
|---|---|---|---|---|---|---|
| T2/cluster_heimdall.py:28-31 | the removed count is `len(text.split('\n'))` before the filter minus the same after it, and `''.split('\n')` is `['']` | the text `x`: its one line is dropped, yet 0 lines are reported as removed | the number of lines dropped, `Received` when none survive | medium, not executed | Lines.ReportedRemovedWhenNoneSurvive | Lines.Removed |
