/**
 * The in-memory results the two writers build before writing them out:
 * the `itime`-keyed dictionary of `dump_cluster_results_json` and the
 * heimdall-layout rows of `dump_cluster_results_heimdall`.
 */
module Writers {
  import opened Peaks

  /** One row of the candidate table, in the heimdall column order. */
  datatype Candidate = Candidate(
    snr: real, ifIndex: int, itime: int, mjds: real,
    ibox: int, idm: int, dm: real, ibeam: int)

  /** A JSON-native cell value. */
  datatype FieldValue = IntVal(i: int) | RealVal(r: real)

  /** The column names of the candidate table. */
  const COLUMNS: seq<string> := ["snr", "if", "itime", "mjds", "ibox", "idm", "dm", "ibeam"]

  /** The default `output_cols` of the JSON writer. */
  const DEFAULT_JSON_COLUMNS: seq<string> := ["mjds", "snr", "ibox", "dm", "ibeam"]

  const NBEAM: string := "nbeam"
  const NCLUSTER: string := "ncluster"

  /** The default `output_cols` name only columns of the table. */
  lemma DefaultColumnsKnown()
    ensures forall j :: 0 <= j < |DEFAULT_JSON_COLUMNS| ==> IsColumn(DEFAULT_JSON_COLUMNS[j])
  {
  }

  predicate IsColumn(name: string)
  {
    name in COLUMNS
  }

  /** `tab[name][row]` for a known column name. */
  function ColumnValue(c: Candidate, name: string): FieldValue
    requires IsColumn(name)
  {
    if name == "snr" then RealVal(c.snr)
    else if name == "if" then IntVal(c.ifIndex)
    else if name == "itime" then IntVal(c.itime)
    else if name == "mjds" then RealVal(c.mjds)
    else if name == "ibox" then IntVal(c.ibox)
    else if name == "idm" then IntVal(c.idm)
    else if name == "dm" then RealVal(c.dm)
    else IntVal(c.ibeam)
  }

  // ----- str() of an integer -----

  function Digit(d: nat): char
    requires d < 10
  {
    ('0' as int + d) as char
  }

  function DigitValue(ch: char): int
  {
    ch as int - '0' as int
  }

  /** The decimal digits of `n`, most significant first, no leading zero. */
  function NatToString(n: nat): (s: string)
    ensures |s| >= 1
    ensures forall i :: 0 <= i < |s| ==> '0' <= s[i] <= '9'
  {
    if n < 10 then [Digit(n)] else NatToString(n / 10) + [Digit(n % 10)]
  }

  /** Python's `str(i)` for an integer. */
  function IntToString(i: int): string
  {
    if i < 0 then "-" + NatToString(-i) else NatToString(i)
  }

  /** Reads back a string of decimal digits. */
  function ParseNat(s: string): int
  {
    if s == [] then 0 else ParseNat(s[..|s| - 1]) * 10 + DigitValue(s[|s| - 1])
  }

  lemma {:induction false} ParseNatToString(n: nat)
    ensures ParseNat(NatToString(n)) == n
  {
    if n >= 10 {
      ParseNatToString(n / 10);
      var s := NatToString(n / 10) + [Digit(n % 10)];
      assert s[..|s| - 1] == NatToString(n / 10);
    }
  }

  /** The string starts with '-' exactly for a negative number. */
  lemma IntToStringSign(i: int)
    ensures |IntToString(i)| >= 1
    ensures IntToString(i)[0] == '-' <==> i < 0
    ensures i < 0 ==> IntToString(i)[1..] == NatToString(-i)
  {
    if i >= 0 {
      assert IntToString(i)[0] == NatToString(i)[0];
    }
  }

  /** Distinct naturals have distinct digit strings. */
  lemma NatToStringInjective(a: nat, b: nat)
    requires NatToString(a) == NatToString(b)
    ensures a == b
  {
    ParseNatToString(a);
    ParseNatToString(b);
  }

  /** Distinct integers have distinct decimal strings. */
  lemma IntToStringInjective(a: int, b: int)
    requires IntToString(a) == IntToString(b)
    ensures a == b
  {
    IntToStringSign(a);
    IntToStringSign(b);
    if a < 0 {
      assert b < 0;
      NatToStringInjective(-a, -b);
    } else {
      assert b >= 0;
      NatToStringInjective(a, b);
    }
  }

  // ----- Python dictionaries: insertion-ordered maps -----

  /** A Python dict: its keys in insertion order and its key-value map. */
  datatype Dict<V> = Dict(keys: seq<string>, values: map<string, V>)

  function EmptyDict<V>(): Dict<V>
  {
    Dict([], map[])
  }

  /** Keys listed once each, and exactly the keys of the map. */
  ghost predicate ValidDict<V>(d: Dict<V>)
  {
    && (forall i, j :: 0 <= i < j < |d.keys| ==> d.keys[i] != d.keys[j])
    && (forall k :: k in d.values <==> k in d.keys)
  }

  /** `d[k] = v`: a new key goes last; an existing key keeps its place. */
  function Put<V>(d: Dict<V>, k: string, v: V): Dict<V>
  {
    Dict(if k in d.values then d.keys else d.keys + [k], d.values[k := v])
  }

  /**
   * Assignment keeps a dictionary well formed and replaces only `k`; an
   * existing key keeps its place in the key order, a new key goes last.
   */
  lemma PutValid<V>(d: Dict<V>, k: string, v: V)
    requires ValidDict(d)
    ensures ValidDict(Put(d, k, v))
    ensures k in d.values ==> Put(d, k, v).keys == d.keys
    ensures k !in d.values ==> Put(d, k, v).keys == d.keys + [k]
    ensures Put(d, k, v).values[k] == v
    ensures forall k' :: k' != k ==> (k' in Put(d, k, v).values <==> k' in d.values)
    ensures forall k' :: k' != k && k' in d.values ==> Put(d, k, v).values[k'] == d.values[k']
  {
  }

  // ----- dump_cluster_results_json -----

  /** The record a peak points to. */
  function PeakRow(tab: seq<Candidate>, p: Peak): Candidate
    requires p.imaxsnr < |tab|
  {
    tab[p.imaxsnr]
  }

  /** `str(tab['itime'][imaxsnr])`. */
  function KeyOf(tab: seq<Candidate>, p: Peak): string
    requires p.imaxsnr < |tab|
  {
    IntToString(PeakRow(tab, p).itime)
  }

  /** The selected columns of a record, set one after another. */
  function EntryFields(c: Candidate, cols: seq<string>): Dict<FieldValue>
    requires forall j :: 0 <= j < |cols| ==> IsColumn(cols[j])
  {
    if cols == [] then EmptyDict()
    else
      var n := |cols| - 1;
      Put(EntryFields(c, cols[..n]), cols[n], ColumnValue(c, cols[n]))
  }

  /** The JSON object written for one peak. */
  function EntryOf(tab: seq<Candidate>, cols: seq<string>, p: Peak): Dict<FieldValue>
    requires p.imaxsnr < |tab|
    requires forall j :: 0 <= j < |cols| ==> IsColumn(cols[j])
  {
    var fields := EntryFields(PeakRow(tab, p), cols);
    Put(Put(fields, NBEAM, IntVal(p.cntBeam)), NCLUSTER, IntVal(p.cntCl))
  }

  /** What the JSON writer requires of its inputs to run without a KeyError. */
  predicate JsonInput(tab: seq<Candidate>, clsnr: seq<Peak>, cols: seq<string>)
  {
    && (forall i :: 0 <= i < |clsnr| ==> clsnr[i].imaxsnr < |tab|)
    && (forall j :: 0 <= j < |cols| ==> IsColumn(cols[j]))
  }

  /** The dictionary after the peaks have been entered one after another. */
  function JsonOf(tab: seq<Candidate>, clsnr: seq<Peak>, cols: seq<string>): Dict<Dict<FieldValue>>
    requires JsonInput(tab, clsnr, cols)
  {
    if clsnr == [] then EmptyDict()
    else
      var n := |clsnr| - 1;
      assert JsonInput(tab, clsnr[..n], cols);
      Put(JsonOf(tab, clsnr[..n], cols), KeyOf(tab, clsnr[n]), EntryOf(tab, cols, clsnr[n]))
  }

  /**
   * `dump_cluster_results_json` up to the file write: for each peak, the
   * entry under `str(itime)` is (re)built from the selected columns of the
   * peak's row, then `nbeam` and `ncluster`.
   */
  method ClusterResultsJson(tab: seq<Candidate>, clsnr: seq<Peak>, outputCols: seq<string>)
    returns (outputDict: Dict<Dict<FieldValue>>)
    requires JsonInput(tab, clsnr, outputCols)
    ensures outputDict == JsonOf(tab, clsnr, outputCols)
    ensures ValidDict(outputDict)
  {
    outputDict := EmptyDict();
    for i := 0 to |clsnr|
      invariant JsonInput(tab, clsnr[..i], outputCols)
      invariant outputDict == JsonOf(tab, clsnr[..i], outputCols)
    {
      assert clsnr[..i + 1][..i] == clsnr[..i];
      var p := clsnr[i];
      var row := tab[p.imaxsnr];
      var entry: Dict<FieldValue> := EmptyDict();
      for j := 0 to |outputCols|
        invariant entry == EntryFields(row, outputCols[..j])
      {
        assert outputCols[..j + 1][..j] == outputCols[..j];
        entry := Put(entry, outputCols[j], ColumnValue(row, outputCols[j]));
      }
      assert outputCols[..|outputCols|] == outputCols;
      entry := Put(entry, NBEAM, IntVal(p.cntBeam));
      entry := Put(entry, NCLUSTER, IntVal(p.cntCl));
      outputDict := Put(outputDict, IntToString(row.itime), entry);
    }
    assert clsnr[..|clsnr|] == clsnr;
    JsonValid(tab, clsnr, outputCols);
  }

  /** The dictionary lists each key once, and exactly its map's keys. */
  lemma {:induction false} JsonValid(tab: seq<Candidate>, clsnr: seq<Peak>, cols: seq<string>)
    requires JsonInput(tab, clsnr, cols)
    ensures ValidDict(JsonOf(tab, clsnr, cols))
  {
    if clsnr != [] {
      var n := |clsnr| - 1;
      assert JsonInput(tab, clsnr[..n], cols);
      JsonValid(tab, clsnr[..n], cols);
      PutValid(JsonOf(tab, clsnr[..n], cols), KeyOf(tab, clsnr[n]), EntryOf(tab, cols, clsnr[n]));
    }
  }

  /** One more peak: its key is added or kept, and its entry replaces any. */
  lemma JsonStep(tab: seq<Candidate>, clsnr: seq<Peak>, cols: seq<string>)
    requires JsonInput(tab, clsnr, cols) && clsnr != []
    ensures var n := |clsnr| - 1;
      && JsonInput(tab, clsnr[..n], cols)
      && JsonOf(tab, clsnr, cols) ==
         Put(JsonOf(tab, clsnr[..n], cols), KeyOf(tab, clsnr[n]), EntryOf(tab, cols, clsnr[n]))
  {
  }

  /** The `str(itime)` of the rows the peaks point to. */
  function PeakKeys(tab: seq<Candidate>, clsnr: seq<Peak>): set<string>
    requires forall i :: 0 <= i < |clsnr| ==> clsnr[i].imaxsnr < |tab|
  {
    set i | 0 <= i < |clsnr| :: KeyOf(tab, clsnr[i])
  }

  /** One more peak adds its key to the keys of the ones before. */
  lemma PeakKeysSnoc(tab: seq<Candidate>, clsnr: seq<Peak>)
    requires forall i :: 0 <= i < |clsnr| ==> clsnr[i].imaxsnr < |tab|
    requires clsnr != []
    ensures var n := |clsnr| - 1;
      PeakKeys(tab, clsnr) == PeakKeys(tab, clsnr[..n]) + {KeyOf(tab, clsnr[n])}
  {
    var n := |clsnr| - 1;
    forall i | 0 <= i < n ensures clsnr[..n][i] == clsnr[i] { }
  }

  /** The keys are exactly the `str(itime)` of the peaks' rows. */
  lemma {:induction false} JsonKeys(tab: seq<Candidate>, clsnr: seq<Peak>, cols: seq<string>)
    requires JsonInput(tab, clsnr, cols)
    ensures JsonOf(tab, clsnr, cols).values.Keys == PeakKeys(tab, clsnr)
  {
    if clsnr != [] {
      var n := |clsnr| - 1;
      var front := clsnr[..n];
      JsonStep(tab, clsnr, cols);
      JsonKeys(tab, front, cols);
      PeakKeysSnoc(tab, clsnr);
      var before := JsonOf(tab, front, cols);
      var key := KeyOf(tab, clsnr[n]);
      var entry := EntryOf(tab, cols, clsnr[n]);
      assert before.values[key := entry].Keys == before.values.Keys + {key};
    }
  }

  /**
   * Later peaks overwrite earlier ones: the entry under a peak's key is that
   * peak's entry when no later peak has the same key.
   */
  lemma {:induction false} JsonLastWins(tab: seq<Candidate>, clsnr: seq<Peak>, cols: seq<string>, i: nat)
    requires JsonInput(tab, clsnr, cols) && i < |clsnr|
    requires forall j :: i < j < |clsnr| ==> KeyOf(tab, clsnr[j]) != KeyOf(tab, clsnr[i])
    ensures KeyOf(tab, clsnr[i]) in JsonOf(tab, clsnr, cols).values
    ensures JsonOf(tab, clsnr, cols).values[KeyOf(tab, clsnr[i])] == EntryOf(tab, cols, clsnr[i])
  {
    var n := |clsnr| - 1;
    JsonStep(tab, clsnr, cols);
    if i < n {
      var front := clsnr[..n];
      assert front[i] == clsnr[i];
      forall j | i < j < |front| ensures KeyOf(tab, front[j]) != KeyOf(tab, front[i]) {
        assert front[j] == clsnr[j];
      }
      JsonLastWins(tab, front, cols, i);
      assert KeyOf(tab, clsnr[n]) != KeyOf(tab, clsnr[i]);
    }
  }

  /** Keys of a row of selected columns: exactly those columns. */
  lemma {:induction false} EntryFieldsContents(c: Candidate, cols: seq<string>)
    requires forall j :: 0 <= j < |cols| ==> IsColumn(cols[j])
    ensures ValidDict(EntryFields(c, cols))
    ensures forall key :: key in EntryFields(c, cols).values <==> key in cols
    ensures forall j :: 0 <= j < |cols| ==> EntryFields(c, cols).values[cols[j]] == ColumnValue(c, cols[j])
  {
    if cols != [] {
      var n := |cols| - 1;
      EntryFieldsContents(c, cols[..n]);
      PutValid(EntryFields(c, cols[..n]), cols[n], ColumnValue(c, cols[n]));
      forall j | 0 <= j < n
        ensures EntryFields(c, cols).values[cols[j]] == ColumnValue(c, cols[j])
      {
        assert cols[..n][j] == cols[j];
      }
      assert cols == cols[..n] + [cols[n]];
    }
  }

  /**
   * The entry of a peak holds the selected columns of its row, plus `nbeam`
   * and `ncluster` equal to the peak's beam and cluster counts.
   */
  lemma EntryContents(tab: seq<Candidate>, cols: seq<string>, p: Peak)
    requires p.imaxsnr < |tab|
    requires forall j :: 0 <= j < |cols| ==> IsColumn(cols[j])
    ensures ValidDict(EntryOf(tab, cols, p))
    ensures forall key :: key in EntryOf(tab, cols, p).values <==>
              key in cols || key == NBEAM || key == NCLUSTER
    ensures forall j :: 0 <= j < |cols| ==>
              EntryOf(tab, cols, p).values[cols[j]] == ColumnValue(tab[p.imaxsnr], cols[j])
    ensures EntryOf(tab, cols, p).values[NBEAM] == IntVal(p.cntBeam)
    ensures EntryOf(tab, cols, p).values[NCLUSTER] == IntVal(p.cntCl)
  {
    var fields := EntryFields(PeakRow(tab, p), cols);
    EntryFieldsContents(PeakRow(tab, p), cols);
    assert !IsColumn(NBEAM) && !IsColumn(NCLUSTER);
    PutValid(fields, NBEAM, IntVal(p.cntBeam));
    PutValid(Put(fields, NBEAM, IntVal(p.cntBeam)), NCLUSTER, IntVal(p.cntCl));
  }

  /** Two peaks share a key exactly when their rows share an `itime`. */
  lemma SameKeySameItime(tab: seq<Candidate>, p: Peak, q: Peak)
    requires p.imaxsnr < |tab| && q.imaxsnr < |tab|
    ensures KeyOf(tab, p) == KeyOf(tab, q) <==> tab[p.imaxsnr].itime == tab[q.imaxsnr].itime
  {
    if KeyOf(tab, p) == KeyOf(tab, q) {
      IntToStringInjective(tab[p.imaxsnr].itime, tab[q.imaxsnr].itime);
    }
  }

  /** The distinct values of `ks` in the order of their first occurrence. */
  function FirstSeen<T(==)>(ks: seq<T>): seq<T>
  {
    if ks == [] then []
    else
      var d := FirstSeen(ks[..|ks| - 1]);
      if ks[|ks| - 1] in d then d else d + [ks[|ks| - 1]]
  }

  /** A value is listed exactly when it occurs. */
  lemma {:induction false} FirstSeenMembers<T>(ks: seq<T>)
    ensures forall x :: x in FirstSeen(ks) <==> x in ks
  {
    if ks != [] {
      var n := |ks| - 1;
      FirstSeenMembers(ks[..n]);
      assert ks == ks[..n] + [ks[n]];
    }
  }

  /**
   * `ks[i]` is listed before `ks[j]` when `ks[j]` differs from every value
   * up to position `i`.
   */
  lemma {:induction false} FirstSeenOrder<T>(ks: seq<T>, i: nat, j: nat)
    requires i < j < |ks|
    requires forall m :: 0 <= m <= i ==> ks[m] != ks[j]
    ensures exists a, b :: 0 <= a < b < |FirstSeen(ks)| &&
              FirstSeen(ks)[a] == ks[i] && FirstSeen(ks)[b] == ks[j]
  {
    var n := |ks| - 1;
    var front := ks[..n];
    var before := FirstSeen(front);
    var after := FirstSeen(ks);
    assert before <= after;
    assert front[i] == ks[i];
    if j < n {
      assert front[j] == ks[j];
      FirstSeenOrder(front, i, j);
      var a, b :| 0 <= a < b < |before| && before[a] == ks[i] && before[b] == ks[j];
      assert after[a] == before[a] && after[b] == before[b];
    } else if ks[n] in before {
      FirstSeenMembers(front);
      var m :| 0 <= m < n && front[m] == ks[n];
      FirstSeenOrder(front, i, m);
      var a, b :| 0 <= a < b < |before| && before[a] == ks[i] && before[b] == ks[n];
      assert after[a] == before[a] && after[b] == before[b];
    } else {
      FirstSeenMembers(front);
      assert ks[i] in front;
      var a :| 0 <= a < |before| && before[a] == ks[i];
      assert after[a] == before[a] && after[|before|] == ks[n];
    }
  }

  /** `str(itime)` of each peak's row, in peak order. */
  function KeySeq(tab: seq<Candidate>, clsnr: seq<Peak>): (ks: seq<string>)
    requires forall i :: 0 <= i < |clsnr| ==> clsnr[i].imaxsnr < |tab|
    ensures |ks| == |clsnr|
    ensures forall m :: 0 <= m < |clsnr| ==> ks[m] == KeyOf(tab, clsnr[m])
  {
    seq(|clsnr|, m requires 0 <= m < |clsnr| => KeyOf(tab, clsnr[m]))
  }

  /**
   * The key order of the JSON object: the peaks' keys in the order in which
   * each first occurs, a reassigned key keeping its first place.
   */
  lemma {:induction false} JsonKeysFirstSeen(tab: seq<Candidate>, clsnr: seq<Peak>, cols: seq<string>)
    requires JsonInput(tab, clsnr, cols)
    ensures JsonOf(tab, clsnr, cols).keys == FirstSeen(KeySeq(tab, clsnr))
  {
    if clsnr != [] {
      var n := |clsnr| - 1;
      var front := clsnr[..n];
      var ks := KeySeq(tab, clsnr);
      JsonStep(tab, clsnr, cols);
      JsonKeysFirstSeen(tab, front, cols);
      JsonValid(tab, front, cols);
      assert ks[..n] == KeySeq(tab, front);
    }
  }

  /**
   * A peak's key comes before the key of a later peak whose key none of the
   * peaks up to the first one had.
   */
  lemma JsonKeyOrder(tab: seq<Candidate>, clsnr: seq<Peak>, cols: seq<string>, i: nat, j: nat)
    requires JsonInput(tab, clsnr, cols) && i < j < |clsnr|
    requires forall m :: 0 <= m <= i ==> KeyOf(tab, clsnr[m]) != KeyOf(tab, clsnr[j])
    ensures exists a, b :: 0 <= a < b < |JsonOf(tab, clsnr, cols).keys| &&
              JsonOf(tab, clsnr, cols).keys[a] == KeyOf(tab, clsnr[i]) &&
              JsonOf(tab, clsnr, cols).keys[b] == KeyOf(tab, clsnr[j])
  {
    var ks := KeySeq(tab, clsnr);
    JsonKeysFirstSeen(tab, clsnr, cols);
    FirstSeenOrder(ks, i, j);
  }

  /** With distinct column names, the fields of an entry follow `output_cols`. */
  lemma {:induction false} EntryFieldsOrder(c: Candidate, cols: seq<string>)
    requires forall j :: 0 <= j < |cols| ==> IsColumn(cols[j])
    requires forall j, k :: 0 <= j < k < |cols| ==> cols[j] != cols[k]
    ensures EntryFields(c, cols).keys == cols
  {
    if cols != [] {
      var n := |cols| - 1;
      EntryFieldsOrder(c, cols[..n]);
      EntryFieldsContents(c, cols[..n]);
      assert cols[n] !in cols[..n];
      PutValid(EntryFields(c, cols[..n]), cols[n], ColumnValue(c, cols[n]));
      assert cols[..n] + [cols[n]] == cols;
    }
  }

  /** `nbeam` and `ncluster` are not column names of the table. */
  lemma CountKeysNotColumns()
    ensures !IsColumn(NBEAM) && !IsColumn(NCLUSTER)
  {
  }

  /**
   * With distinct column names, an entry lists the selected columns in
   * order, then `nbeam`, then `ncluster`.
   */
  lemma EntryOrder(tab: seq<Candidate>, cols: seq<string>, p: Peak)
    requires p.imaxsnr < |tab|
    requires forall j :: 0 <= j < |cols| ==> IsColumn(cols[j])
    requires forall j, k :: 0 <= j < k < |cols| ==> cols[j] != cols[k]
    ensures EntryOf(tab, cols, p).keys == cols + [NBEAM, NCLUSTER]
  {
    CountKeysNotColumns();
    assert NBEAM !in cols && NCLUSTER !in cols;
    var fields := EntryFields(PeakRow(tab, p), cols);
    EntryFieldsOrder(PeakRow(tab, p), cols);
    EntryFieldsContents(PeakRow(tab, p), cols);
    assert NBEAM !in fields.values;
    var withBeam := Put(fields, NBEAM, IntVal(p.cntBeam));
    assert withBeam.keys == cols + [NBEAM];
    assert NCLUSTER !in withBeam.values;
  }

  // ----- dump_cluster_results_heimdall -----

  /** A row of the heimdall-layout table: `members` goes before `ibeam`. */
  datatype HeimdallRow = HeimdallRow(
    snr: real, ifIndex: int, itime: int, mjds: real,
    ibox: int, idm: int, dm: real, members: int, ibeam: int)

  const MEMBERS: string := "members"

  /** The header row of the table. */
  const HEIMDALL_HEADER: seq<string> :=
    ["snr", "if", "itime", "mjds", "ibox", "idm", "dm", MEMBERS, "ibeam"]

  /** The cell of a table row under a header name. */
  function HeimdallCell(r: HeimdallRow, name: string): FieldValue
    requires name in HEIMDALL_HEADER
  {
    if name == MEMBERS then IntVal(r.members)
    else ColumnValue(SourceRecord(r), name)
  }

  /** The row written for a peak: its record's fields and its cluster count. */
  function HeimdallRowOf(tab: seq<Candidate>, p: Peak): HeimdallRow
    requires p.imaxsnr < |tab|
  {
    var c := tab[p.imaxsnr];
    HeimdallRow(c.snr, c.ifIndex, c.itime, c.mjds, c.ibox, c.idm, c.dm, p.cntCl, c.ibeam)
  }

  /** The record a table row was taken from, `members` dropped. */
  function SourceRecord(r: HeimdallRow): Candidate
  {
    Candidate(r.snr, r.ifIndex, r.itime, r.mjds, r.ibox, r.idm, r.dm, r.ibeam)
  }

  /**
   * `dump_cluster_results_heimdall` up to the file write: one row per peak,
   * in peak order, holding every field of the peak's record and, as
   * `members`, the peak's cluster count.
   */
  function HeimdallTable(tab: seq<Candidate>, clsnr: seq<Peak>): (rows: seq<HeimdallRow>)
    requires forall i :: 0 <= i < |clsnr| ==> clsnr[i].imaxsnr < |tab|
    ensures |rows| == |clsnr|
    ensures forall i :: 0 <= i < |clsnr| ==>
              SourceRecord(rows[i]) == tab[clsnr[i].imaxsnr] && rows[i].members == clsnr[i].cntCl
  {
    seq(|clsnr|, i requires 0 <= i < |clsnr| => HeimdallRowOf(tab, clsnr[i]))
  }

  /**
   * The header is the first seven table columns, then `members`, then
   * `ibeam`, which is assigned last; under each table column a row holds the
   * peak's record's value, and under `members` the peak's cluster count.
   */
  lemma HeimdallColumns(tab: seq<Candidate>, clsnr: seq<Peak>)
    requires forall i :: 0 <= i < |clsnr| ==> clsnr[i].imaxsnr < |tab|
    ensures HEIMDALL_HEADER == COLUMNS[..7] + [MEMBERS] + [COLUMNS[7]]
    ensures forall name :: name in HEIMDALL_HEADER <==> IsColumn(name) || name == MEMBERS
    ensures forall i, name :: 0 <= i < |clsnr| && IsColumn(name) ==>
              HeimdallCell(HeimdallTable(tab, clsnr)[i], name) == ColumnValue(tab[clsnr[i].imaxsnr], name)
    ensures forall i :: 0 <= i < |clsnr| ==>
              HeimdallCell(HeimdallTable(tab, clsnr)[i], MEMBERS) == IntVal(clsnr[i].cntCl)
  {
    assert !IsColumn(MEMBERS);
  }
}
