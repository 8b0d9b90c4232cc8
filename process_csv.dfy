/**
 * Animal bites by ward: `analyze_by_ward` and the report written by
 * `process_csv_file`.
 *
 * The input is the sequence of data rows `csv.DictReader` yields, each one
 * reduced to what `int(float(row["WARD"]))` does with it. Only rows whose
 * logical line number (header = line 1) is above 3900 are looked at; a
 * ward counts when it lies in 1..14; a missing column or a non-numeric
 * value skips the row; any other failure empties the whole result.
 */
module BitesCsv {
  import opened PyText
  import opened Frequency

  /** What evaluating `int(float(row["WARD"]))` gives for one row. */
  datatype WardField =
    | NoColumn            // `KeyError`: the header has no WARD column
    | NotANumber          // `ValueError`: `float` rejects the text, or `int` of a NaN
    | Value(number: real) // a finite number, before truncation
    | Fault               // any other exception, e.g. `TypeError` for the `None` of a
                          // short row or `OverflowError` for an infinity

  /** One step of the reader: a data row, or a row the reader itself could
      not produce (`csv.Error`, a decoding error). */
  datatype CsvRow = Row(ward: WardField) | Unreadable

  /** What opening the file gave: it is absent (`FileNotFoundError`),
      opening failed otherwise (generic handler), or its data rows. */
  datatype CsvSource = CsvMissing | OpenFailed | Table(rows: seq<CsvRow>)

  const StartRowForProcessing := 3900

  /** The line number of the data row at `enumerate` index `idx`: the
      header is line 1, so the first data row is line 2. */
  function RowNumber(idx: nat): nat {
    idx + 2
  }

  /** `int(x)` of a finite float. It drops the fraction, rounding toward
      zero: the result is the integer next to `x` on the side of 0. */
  function Truncate(x: real): (w: int)
    ensures 0.0 <= x ==> 0 <= w && w as real <= x < w as real + 1.0
    ensures x < 0.0 ==> w <= 0 && w as real - 1.0 < x <= w as real
  {
    if x >= 0.0 then x.Floor else -((-x).Floor)
  }

  /** What the row at index `idx` does to the scan. The reader failing
      ends the analysis wherever it happens. Rows up to line 3900 are
      passed over unread. Later rows contribute their truncated ward when
      it is in 1..14, skip on a missing column, a non-number or an
      out-of-range ward, and end the analysis on any other failure. */
  function ClassifyRow(idx: nat, row: CsvRow): Outcome<int> {
    match row
    case Unreadable => Aborted
    case Row(field) =>
      if RowNumber(idx) <= StartRowForProcessing then Skipped
      else
        match field
        case NoColumn => Skipped
        case NotANumber => Skipped
        case Fault => Aborted
        case Value(x) =>
          var ward := Truncate(x);
          if 1 <= ward <= 14 then Counted(ward) else Skipped
  }

  /** The outcome of a row, case by case. */
  lemma ClassifyRowSpec(idx: nat, row: CsvRow)
    ensures ClassifyRow(idx, row).Aborted? <==>
      row.Unreadable? || (RowNumber(idx) > StartRowForProcessing && row.ward.Fault?)
    ensures row.Row? && RowNumber(idx) <= StartRowForProcessing ==> ClassifyRow(idx, row).Skipped?
    ensures ClassifyRow(idx, row).Counted? ==>
      && RowNumber(idx) > StartRowForProcessing
      && row.Row? && row.ward.Value? && ClassifyRow(idx, row).key == Truncate(row.ward.number)
      && 1 <= ClassifyRow(idx, row).key <= 14
    ensures RowNumber(idx) > StartRowForProcessing && row.Row? && row.ward.Value? ==>
      (ClassifyRow(idx, row).Counted? <==> 1 <= Truncate(row.ward.number) <= 14)
  {
  }

  /** The outcomes of `rows`, the first of which has index `start`. */
  function RowOutcomesFrom(start: nat, rows: seq<CsvRow>): (os: seq<Outcome<int>>)
    ensures |os| == |rows|
  {
    if rows == [] then []
    else RowOutcomesFrom(start, rows[..|rows| - 1]) + [ClassifyRow(start + |rows| - 1, rows[|rows| - 1])]
  }

  /** Each outcome is the classification of the row at its position, with
      its own index. */
  lemma {:induction false} RowOutcomesAt(start: nat, rows: seq<CsvRow>, i: nat)
    requires i < |rows|
    ensures RowOutcomesFrom(start, rows)[i] == ClassifyRow(start + i, rows[i])
  {
    if i < |rows| - 1 {
      RowOutcomesAt(start, rows[..|rows| - 1], i);
    }
  }

  lemma RowOutcomesAll(start: nat, rows: seq<CsvRow>)
    ensures forall i :: 0 <= i < |rows| ==> RowOutcomesFrom(start, rows)[i] == ClassifyRow(start + i, rows[i])
  {
    forall i | 0 <= i < |rows| ensures RowOutcomesFrom(start, rows)[i] == ClassifyRow(start + i, rows[i]) {
      RowOutcomesAt(start, rows, i);
    }
  }

  function RowOutcomes(rows: seq<CsvRow>): seq<Outcome<int>> {
    RowOutcomesFrom(0, rows)
  }

  /** The dictionary `analyze_by_ward` returns, as its sequence of items. */
  function WardCounts(src: CsvSource): seq<Entry<int>> {
    match src
    case CsvMissing => []
    case OpenFailed => []
    case Table(rows) =>
      match Collect(RowOutcomes(rows))
      case None => []
      case Some(wards) => CountSorted(wards)
  }

  /** `analyze_by_ward`: the scan appends each counted ward to a list,
      then counts and sorts it; an exception during the scan makes the
      result empty. */
  method AnalyzeByWard(src: CsvSource) returns (stats: seq<Entry<int>>)
    ensures stats == WardCounts(src)
  {
    if !src.Table? {
      return [];
    }
    var scanned := ScanWards(src.rows);
    if scanned.None? {
      return [];
    }
    stats := CountSorted(scanned.value);
  }

  /** The `for` loop of `analyze_by_ward`: the list of counted wards, or
      `None` when a row raises an exception the loop does not catch. */
  method ScanWards(rows: seq<CsvRow>) returns (scanned: Option<seq<int>>)
    ensures scanned == Collect(RowOutcomes(rows))
  {
    var wardList: seq<int> := [];
    var idx := 0;
    while idx < |rows|
      invariant 0 <= idx <= |rows|
      invariant Collect(RowOutcomesFrom(0, rows[..idx])) == Some(wardList)
    {
      RowStep(rows, idx, wardList);
      var row := rows[idx];
      var currentRowNumber := idx + 2;
      if row.Unreadable? {
        RowAborts(rows, idx);
        return None;
      }
      if currentRowNumber > StartRowForProcessing {
        if row.ward.Fault? {
          RowAborts(rows, idx);
          return None;
        }
        // `NoColumn` and `NotANumber` are the caught `KeyError` and `ValueError`.
        if row.ward.Value? {
          var ward := Truncate(row.ward.number);
          if 1 <= ward <= 14 {
            wardList := wardList + [ward];
          }
        }
      }
      idx := idx + 1;
    }
    assert rows[..idx] == rows;
    scanned := Some(wardList);
  }

  /** What scanning one more row does to the list built so far. */
  lemma RowStep(rows: seq<CsvRow>, idx: nat, wardList: seq<int>)
    requires idx < |rows| && Collect(RowOutcomesFrom(0, rows[..idx])) == Some(wardList)
    ensures var o := ClassifyRow(idx, rows[idx]);
      Collect(RowOutcomesFrom(0, rows[..idx + 1]))
        == if o.Aborted? then None else if o.Counted? then Some(wardList + [o.key]) else Some(wardList)
  {
    assert rows[..idx + 1][..idx] == rows[..idx];
    CollectAppendOne(RowOutcomesFrom(0, rows[..idx]), ClassifyRow(idx, rows[idx]));
  }

  // ---- The report ----

  const Title := "Animal Bites by Ward (Least to Greatest, from row 3901 onwards):\n"
  const NoData := "No data processed or found (possibly due to row limit).\n"

  function WardLine(e: Entry<int>): string {
    "Ward " + IntText(e.key) + ": " + NatText(e.count) + " bites\n"
  }

  /** One line per entry, in entry order. */
  function WardLines(es: seq<Entry<int>>): seq<string> {
    if es == [] then [] else WardLines(es[..|es| - 1]) + [WardLine(es[|es| - 1])]
  }

  /** The lines `process_csv_file` writes for the result `stats`. */
  function WardReport(stats: seq<Entry<int>>): seq<string> {
    [Title] + if stats == [] then [NoData] else WardLines(stats)
  }

  /** The writing loop of `process_csv_file`. */
  method RenderWardReport(stats: seq<Entry<int>>) returns (lines: seq<string>)
    ensures lines == WardReport(stats)
  {
    lines := [Title];
    if stats == [] {
      lines := lines + [NoData];
      return;
    }
    var i := 0;
    while i < |stats|
      invariant 0 <= i <= |stats|
      invariant lines == [Title] + WardLines(stats[..i])
    {
      assert stats[..i + 1][..i] == stats[..i];
      lines := lines + [WardLine(stats[i])];
      i := i + 1;
    }
    assert stats[..i] == stats;
  }

  /** `process_csv_file`: analyse, then render. */
  method ProcessCsvFile(src: CsvSource) returns (lines: seq<string>)
    ensures lines == WardReport(WardCounts(src))
  {
    var stats := AnalyzeByWard(src);
    lines := RenderWardReport(stats);
  }

  // ---- Lemmas: rows ----

  /** A ward is kept exactly when the number, before truncation, is at
      least 1 and below 15: 1 and 14.9 count, 0.9 and 15 do not. */
  lemma WardAcceptedIff(idx: nat, x: real)
    requires RowNumber(idx) > StartRowForProcessing
    ensures ClassifyRow(idx, Row(Value(x))).Counted? <==> 1.0 <= x < 15.0
  {
    var w := Truncate(x);
    if 1.0 <= x < 15.0 {
      assert 1 <= w <= 14;
    }
  }

  /** Line 3900 is the last one passed over; line 3901 is the first one read. */
  lemma BoundaryRows(f: WardField)
    ensures ClassifyRow(3898, Row(f)) == Skipped
    ensures ClassifyRow(3899, Row(Value(5.0))) == Counted(5)
  {
    assert Truncate(5.0) == 5;
  }

  /** Two indices past the threshold treat the same row alike. */
  lemma ClassifyShift(i: nat, j: nat, row: CsvRow)
    requires RowNumber(i) > StartRowForProcessing && RowNumber(j) > StartRowForProcessing
    ensures ClassifyRow(i, row) == ClassifyRow(j, row)
  {
  }

  lemma {:induction false} RowOutcomesAppend(start: nat, a: seq<CsvRow>, b: seq<CsvRow>)
    ensures RowOutcomesFrom(start, a + b) == RowOutcomesFrom(start, a) + RowOutcomesFrom(start + |a|, b)
    decreases |b|
  {
    if b == [] {
      assert a + b == a;
    } else {
      var b' := b[..|b| - 1];
      assert (a + b)[..|a + b| - 1] == a + b';
      RowOutcomesAppend(start, a, b');
    }
  }

  /** Past the threshold, where a block of rows starts does not matter. */
  lemma {:induction false} RowOutcomesShift(s: nat, t: nat, rows: seq<CsvRow>)
    requires RowNumber(s) > StartRowForProcessing && RowNumber(t) > StartRowForProcessing
    ensures RowOutcomesFrom(s, rows) == RowOutcomesFrom(t, rows)
  {
    if rows != [] {
      RowOutcomesShift(s, t, rows[..|rows| - 1]);
      ClassifyShift(s + |rows| - 1, t + |rows| - 1, rows[|rows| - 1]);
    }
  }

  /** Readable rows up to line 3900 are all passed over. */
  lemma {:induction false} EarlyRowsSkipped(start: nat, rows: seq<CsvRow>)
    requires RowNumber(start + |rows|) <= StartRowForProcessing + 1
    requires forall i :: 0 <= i < |rows| ==> rows[i].Row?
    ensures forall i :: 0 <= i < |rows| ==> RowOutcomesFrom(start, rows)[i].Skipped?
  {
    forall i | 0 <= i < |rows| ensures RowOutcomesFrom(start, rows)[i].Skipped? {
      RowOutcomesAt(start, rows, i);
    }
  }

  /** The positions that contribute are the rows past line 3900 whose
      number truncates into 1..14. */
  lemma CountedRows(rows: seq<CsvRow>)
    ensures CountedIndices(RowOutcomes(rows)) ==
      set i | 0 <= i < |rows| && RowNumber(i) > StartRowForProcessing
                && rows[i].Row? && rows[i].ward.Value? && 1 <= Truncate(rows[i].ward.number) <= 14
  {
    RowOutcomesAll(0, rows);
  }

  // ---- Lemmas: the analysis ----

  /** Without an unreadable row or a failing WARD past line 3900, nothing
      aborts the scan. */
  lemma NoAbort(rows: seq<CsvRow>)
    requires forall i :: 0 <= i < |rows| ==>
      rows[i].Row? && (RowNumber(i) > StartRowForProcessing ==> !rows[i].ward.Fault?)
    ensures Aborted !in RowOutcomes(rows)
  {
    RowOutcomesAll(0, rows);
  }

  /** Every ward a row contributes is in 1..14. */
  lemma CountedWardsInRange(rows: seq<CsvRow>, k: int)
    requires Counted(k) in RowOutcomes(rows)
    ensures 1 <= k <= 14
  {
    var os := RowOutcomes(rows);
    var j :| 0 <= j < |os| && os[j] == Counted(k);
    RowOutcomesAt(0, rows, j);
  }

  /** For a file that is read to the end without a failure, the result
      holds every counted ward once with the number of rows giving it; the
      counts add up to the number of rows past line 3900 with a ward in
      1..14, ascend, and equal counts keep the order of first appearance.
      Every key is a ward number in 1..14. */
  lemma WardCountsSpec(rows: seq<CsvRow>)
    requires forall i :: 0 <= i < |rows| ==>
      rows[i].Row? && (RowNumber(i) > StartRowForProcessing ==> !rows[i].ward.Fault?)
    ensures IsFrequencyReport(WardCounts(Table(rows)), RowOutcomes(rows))
    ensures forall e :: e in WardCounts(Table(rows)) ==> 1 <= e.key <= 14
  {
    var os := RowOutcomes(rows);
    NoAbort(rows);
    FrequencyOfOutcomes(os);
    var r := WardCounts(Table(rows));
    forall e | e in r ensures 1 <= e.key <= 14 {
      var k :| 0 <= k < |r| && r[k] == e;
      CountedWardsInRange(rows, e.key);
    }
  }

  /** Readable rows up to line 3900 never affect the result, whatever their
      WARD holds. */
  lemma EarlyRowsIgnored(a: seq<CsvRow>, a': seq<CsvRow>, b: seq<CsvRow>)
    requires |a| == |a'| && RowNumber(|a|) <= StartRowForProcessing + 1
    requires forall i :: 0 <= i < |a| ==> a[i].Row?
    requires forall i :: 0 <= i < |a'| ==> a'[i].Row?
    ensures WardCounts(Table(a + b)) == WardCounts(Table(a' + b))
  {
    CollectAfterEarlyRows(a, b);
    CollectAfterEarlyRows(a', b);
  }

  /** Only the rows after a readable early block are seen by the scan. */
  lemma CollectAfterEarlyRows(a: seq<CsvRow>, b: seq<CsvRow>)
    requires RowNumber(|a|) <= StartRowForProcessing + 1
    requires forall i :: 0 <= i < |a| ==> a[i].Row?
    ensures Collect(RowOutcomes(a + b)) == Collect(RowOutcomesFrom(|a|, b))
  {
    RowOutcomesSplit(a, b);
    EarlyRowsSkipped(0, a);
    CollectSkippedPrefix(RowOutcomesFrom(0, a), RowOutcomesFrom(|a|, b));
  }

  lemma RowOutcomesSplit(a: seq<CsvRow>, b: seq<CsvRow>)
    ensures RowOutcomes(a + b) == RowOutcomesFrom(0, a) + RowOutcomesFrom(|a|, b)
  {
    RowOutcomesAppend(0, a, b);
  }

  /** A row past line 3900 that is skipped (missing column, non-number,
      ward out of range) can be removed without changing the result. */
  lemma SkippedRowIrrelevant(a: seq<CsvRow>, row: CsvRow, b: seq<CsvRow>)
    requires RowNumber(|a|) > StartRowForProcessing
    requires ClassifyRow(|a|, row).Skipped?
    ensures WardCounts(Table(a + [row] + b)) == WardCounts(Table(a + b))
  {
    var p, q := RowOutcomesFrom(0, a), RowOutcomesFrom(|a|, b);
    assert RowOutcomes(a + [row] + b) == p + [Skipped] + q by {
      OutcomesAroundSkippedRow(a, row, b);
    }
    assert RowOutcomes(a + b) == p + q by {
      RowOutcomesAppend(0, a, b);
    }
    assert Collect(p + [Skipped] + q) == Collect(p + q) by {
      CollectDropSkipped(p, q);
    }
    SameCollectSameCounts(Table(a + [row] + b), Table(a + b));
  }

  lemma SameCollectSameCounts(s: CsvSource, t: CsvSource)
    requires s.Table? && t.Table? && Collect(RowOutcomes(s.rows)) == Collect(RowOutcomes(t.rows))
    ensures WardCounts(s) == WardCounts(t)
  {
  }

  lemma OutcomesAroundSkippedRow(a: seq<CsvRow>, row: CsvRow, b: seq<CsvRow>)
    requires RowNumber(|a|) > StartRowForProcessing
    requires ClassifyRow(|a|, row).Skipped?
    ensures RowOutcomes(a + [row] + b) == RowOutcomesFrom(0, a) + [Skipped] + RowOutcomesFrom(|a|, b)
  {
    RowOutcomesAppend(0, a + [row], b);
    RowOutcomesAppend(0, a, [row]);
    assert RowOutcomesFrom(|a|, [row]) == [Skipped] by {
      assert [row][..0] == [];
    }
    RowOutcomesShift(|a| + 1, |a|, b);
  }

  /** The reader failing at any row, or a failure other than a missing
      column or a non-number past line 3900, discards every count gathered
      so far: the result is empty. */
  lemma RowAborts(rows: seq<CsvRow>, idx: nat)
    requires idx < |rows|
    requires rows[idx].Unreadable? || (RowNumber(idx) > StartRowForProcessing && rows[idx].ward.Fault?)
    ensures Collect(RowOutcomes(rows)) == None
    ensures WardCounts(Table(rows)) == []
  {
    RowOutcomesAt(0, rows, idx);
  }

  /** The result is empty exactly when the file could not be opened, some
      row aborts the scan, or no row contributes a ward. */
  lemma WardCountsEmptyIff(src: CsvSource)
    ensures WardCounts(src) == [] <==>
      || !src.Table?
      || (exists i :: 0 <= i < |src.rows| && ClassifyRow(i, src.rows[i]).Aborted?)
      || (forall i :: 0 <= i < |src.rows| ==> !ClassifyRow(i, src.rows[i]).Counted?)
  {
    if src.Table? {
      var rows := src.rows;
      var os := RowOutcomes(rows);
      RowOutcomesAll(0, rows);
      if Aborted !in os {
        var wards := Collect(os).value;
        CollectEmptyIff(os, wards);
        CountSortedEmptyIff(wards);
      }
    }
  }

  /** The worked example: rows on lines 3899 to 3902 with wards 3, 3, 5
      and 3. Lines 3899 and 3900 are passed over; wards 5 and 3 are counted
      once each and, tied, keep the order in which they appeared. */
  lemma ThresholdExample(a: seq<CsvRow>, tail: seq<CsvRow>)
    requires |a| == 3897 && forall i :: 0 <= i < |a| ==> a[i].Row?
    requires tail == [Row(Value(3.0)), Row(Value(3.0)), Row(Value(5.0)), Row(Value(3.0))]
    ensures WardCounts(Table(a + tail)) == [Entry(5, 1), Entry(3, 1)]
  {
    var early, late := a + tail[..2], tail[2..];
    assert a + tail == early + late;
    assert forall i :: 0 <= i < |early| ==> early[i].Row?;
    ExampleAfterThreshold(early, late);
  }

  lemma ExampleAfterThreshold(early: seq<CsvRow>, late: seq<CsvRow>)
    requires |early| == 3899 && forall i :: 0 <= i < |early| ==> early[i].Row?
    requires late == [Row(Value(5.0)), Row(Value(3.0))]
    ensures WardCounts(Table(early + late)) == [Entry(5, 1), Entry(3, 1)]
  {
    assert Collect(RowOutcomes(early + late)) == Collect(RowOutcomesFrom(3899, late)) by {
      CollectAfterEarlyRows(early, late);
    }
    assert Collect(RowOutcomesFrom(3899, late)) == Some([5, 3]) by {
      LateOutcomes(late);
      TwoCounted(RowOutcomesFrom(3899, late));
    }
    TieKeepsFirstAppearance(5, 3);
  }

  lemma LateOutcomes(late: seq<CsvRow>)
    requires late == [Row(Value(5.0)), Row(Value(3.0))]
    ensures RowOutcomesFrom(3899, late) == [Counted(5), Counted(3)]
  {
    assert Truncate(5.0) == 5 && Truncate(3.0) == 3;
    assert late[..1] == [Row(Value(5.0))];
    assert late[..1][..0] == [];
  }

  lemma TwoCounted(os: seq<Outcome<int>>)
    requires os == [Counted(5), Counted(3)]
    ensures Collect(os) == Some([5, 3])
  {
    var e: seq<Outcome<int>> := [];
    assert Collect(e) == Some([]);
    CollectAppendOne(e, Counted(5));
    CollectAppendOne(e + [Counted(5)], Counted(3));
    assert e + [Counted(5)] + [Counted(3)] == os;
    assert [] + [5] + [3] == [5, 3];
  }

  // ---- Lemmas: the report ----

  lemma {:induction false} WardLinesLength(es: seq<Entry<int>>)
    ensures |WardLines(es)| == |es|
  {
    if es != [] {
      WardLinesLength(es[..|es| - 1]);
    }
  }

  lemma {:induction false} WardLinesAt(es: seq<Entry<int>>, k: nat)
    requires k < |es|
    ensures |WardLines(es)| == |es| && WardLines(es)[k] == WardLine(es[k])
  {
    WardLinesLength(es[..|es| - 1]);
    if k < |es| - 1 {
      WardLinesAt(es[..|es| - 1], k);
    }
  }

  /** The report is the title and then, for an empty result, only the
      no-data line; otherwise one line per entry, in result order. */
  lemma WardReportShape(stats: seq<Entry<int>>)
    ensures var r := WardReport(stats);
      && r[0] == Title
      && (stats == [] ==> r == [Title, NoData])
      && (stats != [] ==>
            |r| == |stats| + 1 && forall k :: 0 <= k < |stats| ==> r[k + 1] == WardLine(stats[k]))
  {
    if stats != [] {
      var r, ls := WardReport(stats), WardLines(stats);
      assert r == [Title] + ls;
      WardLinesLength(stats);
      forall k | 0 <= k < |stats| ensures r[k + 1] == WardLine(stats[k]) {
        assert r[k + 1] == ls[k];
        WardLinesAt(stats, k);
      }
    }
  }

  /** A report line names its entry unambiguously. */
  lemma WardLineInjective(e1: Entry<int>, e2: Entry<int>)
    requires WardLine(e1) == WardLine(e2)
    ensures e1 == e2
  {
    var l1, l2 := WardLine(e1), WardLine(e2);
    var d1, d2 := NatText(e1.count), NatText(e2.count);
    var u := " bites\n";
    var h1, h2 := "Ward " + IntText(e1.key) + ": ", "Ward " + IntText(e2.key) + ": ";
    assert l1 == (h1 + d1) + u && l2 == (h2 + d2) + u;
    assert h1 + d1 == l1[..|l1| - |u|];
    assert h2 + d2 == l2[..|l2| - |u|];
    DigitsAfterSpace(h1, d1, h2, d2);
    NatTextValue(e1.count);
    NatTextValue(e2.count);
    assert IntText(e1.key) == h1[5..|h1| - 2];
    assert IntText(e2.key) == h2[5..|h2| - 2];
    IntTextInjective(e1.key, e2.key);
  }

  lemma NoDataIsNotALine(e: Entry<int>)
    ensures WardLine(e) != NoData
  {
    var l := WardLine(e);
    assert l[|l| - 2] == 's';
    assert NoData[|NoData| - 2] == '.';
  }

  /** Different results give different reports. */
  lemma WardReportInjective(a: seq<Entry<int>>, b: seq<Entry<int>>)
    requires WardReport(a) == WardReport(b)
    ensures a == b
  {
    WardReportShape(a);
    WardReportShape(b);
    if a == [] && b != [] {
      NoDataIsNotALine(b[0]);
    } else if a != [] && b == [] {
      NoDataIsNotALine(a[0]);
    } else if a != [] {
      forall k | 0 <= k < |a| ensures a[k] == b[k] {
        WardLineInjective(a[k], b[k]);
      }
    }
  }
  // ---- Lemmas: the written text ----

  lemma WardLineIsLine(e: Entry<int>)
    ensures IsLine(WardLine(e))
  {
    var ward, digits := IntText(e.key), NatText(e.count);
    assert '\n' !in digits;
    var wardDigits := NatText(if e.key < 0 then -e.key else e.key);
    assert ward == (if e.key < 0 then "-" else "") + wardDigits;
    assert '\n' !in wardDigits;
    var body := "Ward " + ward + ": " + digits + " bites";
    assert WardLine(e) == body + "\n";
    LineOf(body);
  }

  lemma WardLinesAreLines(es: seq<Entry<int>>)
    ensures forall i :: 0 <= i < |WardLines(es)| ==> IsLine(WardLines(es)[i])
  {
    WardLinesLength(es);
    forall i | 0 <= i < |es| ensures IsLine(WardLines(es)[i]) {
      WardLinesAt(es, i);
      WardLineIsLine(es[i]);
    }
  }

  /** The entry lines of a non-empty result never spell the no-data line:
      they end in "s\n", it ends in ".\n". */
  lemma EntryTextIsNotNoData(es: seq<Entry<int>>)
    requires es != []
    ensures Concat(WardLines(es)) != NoData
  {
    var ls := WardLines(es);
    WardLinesAt(es, |es| - 1);
    ConcatSnoc(ls);
    var last := ls[|ls| - 1];
    var text := Concat(ls);
    assert last[|last| - 2] == 's';
    assert text[|text| - 2] == last[|last| - 2];
    assert NoData[|NoData| - 2] == '.';
  }

  /** The file without its title: the no-data line or the entry lines. */
  lemma WardTextBody(stats: seq<Entry<int>>)
    ensures Concat(WardReport(stats)) ==
      Title + (if stats == [] then NoData else Concat(WardLines(stats)))
  {
    ConcatCons(Title, if stats == [] then [NoData] else WardLines(stats));
    ConcatCons(NoData, []);
  }

  /** The file written by `process_csv_file` determines the result it was
      written from. */
  lemma WardTextInjective(a: seq<Entry<int>>, b: seq<Entry<int>>)
    requires Concat(WardReport(a)) == Concat(WardReport(b))
    ensures a == b
  {
    WardTextBody(a);
    WardTextBody(b);
    var ta := if a == [] then NoData else Concat(WardLines(a));
    var tb := if b == [] then NoData else Concat(WardLines(b));
    assert ta == (Title + ta)[|Title|..] && tb == (Title + tb)[|Title|..];
    if a != [] { EntryTextIsNotNoData(a); }
    if b != [] { EntryTextIsNotNoData(b); }
    if a != [] && b != [] {
      WardLinesAreLines(a);
      WardLinesAreLines(b);
      ConcatLinesInjective(WardLines(a), WardLines(b));
      WardReportInjective(a, b);
    }
  }
}
