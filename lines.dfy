/**
 * The line pre-filter of `parse_candsfile`: the candidate text is split on
 * newlines, only lines holding exactly seven space characters (eight
 * space-separated fields of a heimdall candidate) survive, and the
 * survivors are joined back with newlines before table parsing.
 */
module Lines {
  import opened Selection

  const NEWLINE: char := '\n'
  const SPACE: char := ' '

  /** Number of space separators in a candidate line. */
  const CANDIDATE_SPACES: nat := 7

  /** Python's `s.split(sep)`: always at least one piece, none holding `sep`. */
  function Split(s: string, sep: char): (r: seq<string>)
    ensures |r| >= 1
    ensures forall i :: 0 <= i < |r| ==> sep !in r[i]
  {
    if s == [] then [[]]
    else if s[0] == sep then [[]] + Split(s[1..], sep)
    else
      var t := Split(s[1..], sep);
      [[s[0]] + t[0]] + t[1..]
  }

  /** Python's `sep.join(ls)`. */
  function Join(ls: seq<string>, sep: char): string
  {
    if ls == [] then []
    else if |ls| == 1 then ls[0]
    else ls[0] + [sep] + Join(ls[1..], sep)
  }

  /** Joining the pieces of a split gives the text back. */
  lemma {:induction false} JoinSplit(s: string, sep: char)
    ensures Join(Split(s, sep), sep) == s
  {
    if s != [] {
      JoinSplit(s[1..], sep);
      var t := Split(s[1..], sep);
      if s[0] != sep && |t| > 1 {
        assert t == [t[0]] + t[1..];
      }
    }
  }

  /** A prefix free of `sep` glues onto the first piece of what follows. */
  lemma {:induction false} SplitPrefix(a: string, rest: string, sep: char)
    requires sep !in a
    ensures Split(a + rest, sep) == [a + Split(rest, sep)[0]] + Split(rest, sep)[1..]
  {
    if a != [] {
      SplitPrefix(a[1..], rest, sep);
      var t := Split(rest, sep);
      var tail := Split(a[1..] + rest, sep);
      assert (a + rest)[0] == a[0] != sep;
      assert (a + rest)[1..] == a[1..] + rest;
      assert tail[0] == a[1..] + t[0] && tail[1..] == t[1..];
      assert [a[0]] + (a[1..] + t[0]) == a + t[0];
    } else {
      var t := Split(rest, sep);
      assert a + rest == rest;
      assert a + t[0] == t[0];
      assert t == [t[0]] + t[1..];
    }
  }

  /**
   * Splitting a join gives the pieces back, provided there is at least one
   * piece and none holds the separator.
   */
  lemma {:induction false} SplitJoin(ls: seq<string>, sep: char)
    requires ls != []
    requires forall i :: 0 <= i < |ls| ==> sep !in ls[i]
    ensures Split(Join(ls, sep), sep) == ls
  {
    if |ls| == 1 {
      SplitPrefix(ls[0], [], sep);
      assert ls[0] + [] == ls[0];
    } else {
      var rest := Join(ls[1..], sep);
      SplitJoin(ls[1..], sep);
      SplitPrefix(ls[0], [sep] + rest, sep);
      assert ([sep] + rest)[0] == sep;
      assert ([sep] + rest)[1..] == rest;
      assert Split([sep] + rest, sep) == [[]] + ls[1..];
      assert ls[0] + Split([sep] + rest, sep)[0] == ls[0];
      assert Split([sep] + rest, sep)[1..] == ls[1..];
      assert ls[0] + [sep] + rest == ls[0] + ([sep] + rest);
      assert ls == [ls[0]] + ls[1..];
    }
  }

  /** Splitting the empty text gives one empty piece, as in Python. */
  lemma SplitEmpty(sep: char)
    ensures Split([], sep) == [[]]
  {
  }

  /** `line.count(' ')`. */
  function SpaceCount(line: string): (c: nat)
    ensures c <= |line|
    ensures c == multiset(line)[SPACE]
  {
    if line == [] then 0
    else
      var n := |line| - 1;
      assert line == line[..n] + [line[n]];
      SpaceCount(line[..n]) + (if line[n] == SPACE then 1 else 0)
  }

  /** The condition of the comprehension: exactly seven space characters. */
  predicate IsCandidateLine(line: string)
  {
    SpaceCount(line) == CANDIDATE_SPACES
  }

  /** The lines of the text that survive the pre-filter, in order. */
  function CandidateLines(text: string): seq<string>
  {
    Keep(Split(text, NEWLINE), IsCandidateLine)
  }

  /** The text handed on to the table reader. */
  function PreFilter(text: string): string
  {
    Join(CandidateLines(text), NEWLINE)
  }

  /** `ncands0`: how many lines the text is reported to hold. */
  function Received(text: string): nat
  {
    |Split(text, NEWLINE)|
  }

  /** The removed count as the diagnostic computes it: `ncands0 - ncands`. */
  function ReportedRemoved(text: string): int
  {
    Received(text) - |Split(PreFilter(text), NEWLINE)|
  }

  /** The number of lines the pre-filter actually drops. */
  function Removed(text: string): (n: nat)
    ensures n == |Keep(Split(text, NEWLINE), (l: string) => !IsCandidateLine(l))|
  {
    var lines := Split(text, NEWLINE);
    KeepComplement(lines, IsCandidateLine, (l: string) => !IsCandidateLine(l));
    |lines| - |Keep(lines, IsCandidateLine)|
  }

  /**
   * The text after the pre-filter consists exactly of the input lines with
   * seven spaces, in their original order, when at least one survives.
   */
  lemma PreFilterLines(text: string)
    requires CandidateLines(text) != []
    ensures Split(PreFilter(text), NEWLINE) == CandidateLines(text)
    ensures forall i :: 0 <= i < |CandidateLines(text)| ==>
              SpaceCount(CandidateLines(text)[i]) == CANDIDATE_SPACES
  {
    var lines := Split(text, NEWLINE);
    var kept := CandidateLines(text);
    var idx := KeepPositions(lines, IsCandidateLine);
    forall i | 0 <= i < |kept| ensures NEWLINE !in kept[i] {
      assert kept[i] == lines[idx[i]];
    }
    SplitJoin(kept, NEWLINE);
  }

  /** When some line survives, the diagnostic reports the true removed count. */
  lemma ReportedRemovedWhenSomeSurvive(text: string)
    requires CandidateLines(text) != []
    ensures ReportedRemoved(text) == Removed(text)
  {
    PreFilterLines(text);
  }

  /**
   * When no line survives, the joined text is empty and still splits into one
   * (empty) line, so the diagnostic reports one line fewer than were removed.
   */
  lemma ReportedRemovedWhenNoneSurvive(text: string)
    requires CandidateLines(text) == []
    ensures Removed(text) == Received(text)
    ensures ReportedRemoved(text) == Removed(text) - 1
  {
    SplitEmpty(NEWLINE);
  }

  /** The concrete case: the one-line text "x" loses its line but reports 0. */
  lemma ReportedRemovedExample()
    ensures Removed("x") == 1 && ReportedRemoved("x") == 0
  {
    var lines := Split("x", NEWLINE);
    assert "x"[1..] == [];
    assert Split("x"[1..], NEWLINE) == [[]];
    assert ["x"[0]] + [] == "x";
    assert lines == ["x"];
    assert !IsCandidateLine("x");
    assert CandidateLines("x") == [];
    ReportedRemovedWhenNoneSurvive("x");
  }
}
