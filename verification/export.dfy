/**
 * The arithmetic of the single-user spreadsheet export: one row per log with
 * at most one of the Late / Overtime / Undertime / Halfday / Invalid cells
 * filled, then a totals block listing only the totals that are non-zero.
 * Building the workbook and uploading it are not part of this model.
 */
module ExcelExport {
  import opened Text
  import opened Options
  import opened Seqs
  import opened Durations
  import opened Shift
  import opened Records
  import CardTable

  /** A duration cell holds milliseconds; the halfday cell holds "Yes". */
  datatype Cell = Blank | Time(ms: nat) | Yes

  datatype Row = Row(late: Cell, overtime: Cell, undertime: Cell, halfday: Cell, invalid: Cell)

  function Filled(c: Cell): nat {
    if c == Blank then 0 else 1
  }

  function FilledCount(row: Row): nat {
    Filled(row.late) + Filled(row.overtime) + Filled(row.undertime) + Filled(row.halfday) + Filled(row.invalid)
  }

  const EmptyRow := Row(Blank, Blank, Blank, Blank, Blank)

  /** The row a remark should produce: its one column, holding its duration. */
  function RowFor(r: Remark): Row {
    match r
    case Late(d) => EmptyRow.(late := Time(d))
    case Overtime(d) => EmptyRow.(overtime := Time(d))
    case Undertime(d) => EmptyRow.(undertime := Time(d))
    case Halfday => EmptyRow.(halfday := Yes)
    case Invalid(d) => EmptyRow.(invalid := Time(d))
    case _ => EmptyRow
  }

  /**
   * One log's row as the export writes it: the remark text's prefix picks the
   * column and the duration is recomputed from the log's time of day.
   */
  function RowOf(p: Post): (row: Row)
    ensures FilledCount(row) <= 1
    ensures row == RowFor(CardTable.RemarkOf(p))
  {
    var r := CardTable.RemarkOf(p);
    BucketOfLabel(r);
    match BucketOf(TimekeepingLabel(r))
    case LateBucket => EmptyRow.(late := Time(TimeOf(p.at.value) - WorkStart))
    case OvertimeBucket => EmptyRow.(overtime := Time(TimeOf(p.at.value) - WorkEnd))
    case UndertimeBucket => EmptyRow.(undertime := Time(WorkEnd - TimeOf(p.at.value)))
    case HalfdayBucket => EmptyRow.(halfday := Yes)
    case InvalidBucket => EmptyRow.(invalid := Time(TimeOf(p.at.value) - InvalidStart))
    case NoBucket => EmptyRow
  }

  datatype Totals = Totals(late: nat, overtime: nat, undertime: nat, halfday: nat, invalid: nat)

  function Ms(c: Cell): nat {
    match c case Time(ms) => ms case _ => 0
  }

  function Count(c: Cell): nat {
    if c == Yes then 1 else 0
  }

  /** Adding one row to the running totals. */
  function Add(t: Totals, row: Row): Totals {
    Totals(t.late + Ms(row.late), t.overtime + Ms(row.overtime), t.undertime + Ms(row.undertime),
      t.halfday + Count(row.halfday), t.invalid + Ms(row.invalid))
  }

  /** The totals after the `forEach` over all logs. */
  function TotalsOf(logs: seq<Post>): Totals {
    if |logs| == 0 then Totals(0, 0, 0, 0, 0)
    else Add(TotalsOf(logs[..|logs| - 1]), RowOf(logs[|logs| - 1]))
  }

  function HalfdayCount(p: Post): nat {
    if CardTable.RemarkOf(p) == Halfday then 1 else 0
  }

  /**
   * The export's totals are the sums of the remark durations, the same as
   * the table view's totals for the same logs; the halfday total counts the
   * halfday logins.
   */
  lemma {:induction false} TotalsAgreeWithTable(logs: seq<Post>)
    ensures TotalsOf(logs).late == SumOf(logs, CardTable.LateMs)
    ensures TotalsOf(logs).overtime == SumOf(logs, CardTable.OvertimeMs)
    ensures TotalsOf(logs).undertime == SumOf(logs, CardTable.UndertimeMs)
    ensures TotalsOf(logs).invalid == SumOf(logs, CardTable.InvalidMs)
    ensures TotalsOf(logs).halfday == SumOf(logs, HalfdayCount)
  {
    if |logs| > 0 {
      TotalsAgreeWithTable(logs[..|logs| - 1]);
      RowAmounts(logs[|logs| - 1]);
    }
  }

  /** One row's cells hold the durations of its log's remark. */
  lemma RowAmounts(p: Post)
    ensures Ms(RowOf(p).late) == CardTable.LateMs(p)
    ensures Ms(RowOf(p).overtime) == CardTable.OvertimeMs(p)
    ensures Ms(RowOf(p).undertime) == CardTable.UndertimeMs(p)
    ensures Ms(RowOf(p).invalid) == CardTable.InvalidMs(p)
    ensures Count(RowOf(p).halfday) == HalfdayCount(p)
  {
    var r := CardTable.RemarkOf(p);
    assert RowOf(p) == RowFor(r);
  }

  const TotalLate := "Total Late"
  const TotalOvertime := "Total Overtime"
  const TotalUndertime := "Total Undertime"
  const TotalHalfday := "Total Halfday"
  const TotalInvalid := "Total Invalid"

  /** One row of the totals block, written only when its total is non-zero. */
  function Entry(n: nat, text: string, value: string): seq<(string, string)> {
    if n > 0 then [(text, value)] else []
  }

  /** The totals block after the "TOTALS" heading: a (label, value) row per non-zero total. */
  function TotalRows(t: Totals): seq<(string, string)> {
    Entry(t.late, TotalLate, FormatDuration(t.late))
    + Entry(t.overtime, TotalOvertime, FormatDuration(t.overtime))
    + Entry(t.undertime, TotalUndertime, FormatDuration(t.undertime))
    + Entry(t.halfday, TotalHalfday, NatToString(t.halfday))
    + Entry(t.invalid, TotalInvalid, FormatDuration(t.invalid))
  }

  function Labels(rows: seq<(string, string)>): seq<string> {
    seq(|rows|, i requires 0 <= i < |rows| => rows[i].0)
  }

  function Positive(n: nat): nat {
    if n > 0 then 1 else 0
  }

  function Present(n: nat, text: string): seq<string> {
    if n > 0 then [text] else []
  }

  lemma {:induction false} LabelsAppend(a: seq<(string, string)>, b: seq<(string, string)>)
    ensures Labels(a + b) == Labels(a) + Labels(b)
  {
  }

  /** The labels of the totals block, in order. */
  lemma TotalRowLabels(t: Totals)
    ensures Labels(TotalRows(t)) == Present(t.late, TotalLate) + Present(t.overtime, TotalOvertime)
      + Present(t.undertime, TotalUndertime) + Present(t.halfday, TotalHalfday) + Present(t.invalid, TotalInvalid)
  {
    var e1 := Entry(t.late, TotalLate, FormatDuration(t.late));
    var e2 := Entry(t.overtime, TotalOvertime, FormatDuration(t.overtime));
    var e3 := Entry(t.undertime, TotalUndertime, FormatDuration(t.undertime));
    var e4 := Entry(t.halfday, TotalHalfday, NatToString(t.halfday));
    var e5 := Entry(t.invalid, TotalInvalid, FormatDuration(t.invalid));
    calc {
      Labels(TotalRows(t));
      Labels(e1 + e2 + e3 + e4 + e5);
      { LabelsAppend(e1 + e2 + e3 + e4, e5); }
      Labels(e1 + e2 + e3 + e4) + Labels(e5);
      { LabelsAppend(e1 + e2 + e3, e4); }
      Labels(e1 + e2 + e3) + Labels(e4) + Labels(e5);
      { LabelsAppend(e1 + e2, e3); }
      Labels(e1 + e2) + Labels(e3) + Labels(e4) + Labels(e5);
      { LabelsAppend(e1, e2); }
      Labels(e1) + Labels(e2) + Labels(e3) + Labels(e4) + Labels(e5);
      { EntryLabel(t.late, TotalLate, FormatDuration(t.late));
        EntryLabel(t.overtime, TotalOvertime, FormatDuration(t.overtime));
        EntryLabel(t.undertime, TotalUndertime, FormatDuration(t.undertime));
        EntryLabel(t.halfday, TotalHalfday, NatToString(t.halfday));
        EntryLabel(t.invalid, TotalInvalid, FormatDuration(t.invalid)); }
      Present(t.late, TotalLate) + Present(t.overtime, TotalOvertime)
        + Present(t.undertime, TotalUndertime) + Present(t.halfday, TotalHalfday) + Present(t.invalid, TotalInvalid);
    }
  }

  lemma EntryLabel(n: nat, text: string, value: string)
    ensures Labels(Entry(n, text, value)) == Present(n, text)
  {
  }

  /** The five labels differ pairwise (at their seventh letter). */
  lemma LabelsDistinct()
    ensures TotalLate != TotalOvertime && TotalLate != TotalUndertime && TotalLate != TotalHalfday
      && TotalLate != TotalInvalid && TotalOvertime != TotalUndertime && TotalOvertime != TotalHalfday
      && TotalOvertime != TotalInvalid && TotalUndertime != TotalHalfday && TotalUndertime != TotalInvalid
      && TotalHalfday != TotalInvalid
  {
    DiffersAt(TotalLate, TotalOvertime, 6);
    DiffersAt(TotalLate, TotalUndertime, 6);
    DiffersAt(TotalLate, TotalHalfday, 6);
    DiffersAt(TotalLate, TotalInvalid, 6);
    DiffersAt(TotalOvertime, TotalUndertime, 6);
    DiffersAt(TotalOvertime, TotalHalfday, 6);
    DiffersAt(TotalOvertime, TotalInvalid, 6);
    DiffersAt(TotalUndertime, TotalHalfday, 6);
    DiffersAt(TotalUndertime, TotalInvalid, 6);
    DiffersAt(TotalHalfday, TotalInvalid, 6);
  }

  /** Appending an optional label that is not yet present keeps the labels distinct. */
  lemma PresentAppend(ls: seq<string>, n: nat, text: string)
    requires NoDuplicates(ls) && text !in ls
    ensures NoDuplicates(ls + Present(n, text))
    ensures |ls + Present(n, text)| == |ls| + Positive(n)
  {
  }

  /** The labels of the totals block are the present ones, distinct, each for a non-zero total. */
  lemma PresentLabels(ls: seq<string>, t: Totals)
    requires ls == Present(t.late, TotalLate) + Present(t.overtime, TotalOvertime)
      + Present(t.undertime, TotalUndertime) + Present(t.halfday, TotalHalfday) + Present(t.invalid, TotalInvalid)
    ensures TotalLate in ls <==> t.late > 0
    ensures TotalOvertime in ls <==> t.overtime > 0
    ensures TotalUndertime in ls <==> t.undertime > 0
    ensures TotalHalfday in ls <==> t.halfday > 0
    ensures TotalInvalid in ls <==> t.invalid > 0
    ensures |ls| == Positive(t.late) + Positive(t.overtime) + Positive(t.undertime)
      + Positive(t.halfday) + Positive(t.invalid)
    ensures NoDuplicates(ls)
  {
    LabelsDistinct();
    PresentLabelsDistinct(t);
    PresentLabelsMembers(t);
  }

  lemma PresentLabelsMembers(t: Totals)
    requires TotalLate != TotalOvertime && TotalLate != TotalUndertime && TotalLate != TotalHalfday
      && TotalLate != TotalInvalid && TotalOvertime != TotalUndertime && TotalOvertime != TotalHalfday
      && TotalOvertime != TotalInvalid && TotalUndertime != TotalHalfday && TotalUndertime != TotalInvalid
      && TotalHalfday != TotalInvalid
    ensures var ls := Present(t.late, TotalLate) + Present(t.overtime, TotalOvertime)
      + Present(t.undertime, TotalUndertime) + Present(t.halfday, TotalHalfday) + Present(t.invalid, TotalInvalid);
      && (TotalLate in ls <==> t.late > 0)
      && (TotalOvertime in ls <==> t.overtime > 0)
      && (TotalUndertime in ls <==> t.undertime > 0)
      && (TotalHalfday in ls <==> t.halfday > 0)
      && (TotalInvalid in ls <==> t.invalid > 0)
  {
  }

  lemma PresentLabelsDistinct(t: Totals)
    requires TotalLate != TotalOvertime && TotalLate != TotalUndertime && TotalLate != TotalHalfday
      && TotalLate != TotalInvalid && TotalOvertime != TotalUndertime && TotalOvertime != TotalHalfday
      && TotalOvertime != TotalInvalid && TotalUndertime != TotalHalfday && TotalUndertime != TotalInvalid
      && TotalHalfday != TotalInvalid
    ensures var ls := Present(t.late, TotalLate) + Present(t.overtime, TotalOvertime)
      + Present(t.undertime, TotalUndertime) + Present(t.halfday, TotalHalfday) + Present(t.invalid, TotalInvalid);
      && NoDuplicates(ls)
      && |ls| == Positive(t.late) + Positive(t.overtime) + Positive(t.undertime) + Positive(t.halfday) + Positive(t.invalid)
  {
    var l1 := Present(t.late, TotalLate);
    var l2 := l1 + Present(t.overtime, TotalOvertime);
    var l3 := l2 + Present(t.undertime, TotalUndertime);
    var l4 := l3 + Present(t.halfday, TotalHalfday);
    PresentAppend(l1, t.overtime, TotalOvertime);
    PresentAppend(l2, t.undertime, TotalUndertime);
    PresentAppend(l3, t.halfday, TotalHalfday);
    PresentAppend(l4, t.invalid, TotalInvalid);
  }

  /** A totals row appears exactly for each non-zero total, and only once. */
  lemma TotalRowsMeaning(t: Totals)
    ensures TotalLate in Labels(TotalRows(t)) <==> t.late > 0
    ensures TotalOvertime in Labels(TotalRows(t)) <==> t.overtime > 0
    ensures TotalUndertime in Labels(TotalRows(t)) <==> t.undertime > 0
    ensures TotalHalfday in Labels(TotalRows(t)) <==> t.halfday > 0
    ensures TotalInvalid in Labels(TotalRows(t)) <==> t.invalid > 0
    ensures |TotalRows(t)| == Positive(t.late) + Positive(t.overtime) + Positive(t.undertime)
      + Positive(t.halfday) + Positive(t.invalid)
    ensures NoDuplicates(Labels(TotalRows(t)))
  {
    TotalRowLabels(t);
    PresentLabels(Labels(TotalRows(t)), t);
  }

  /** Every value in the totals block reads back to its total (durations in whole seconds). */
  lemma TotalRowValues(t: Totals)
    ensures t.late > 0 ==>
      0 < |TotalRows(t)| && TotalRows(t)[0].0 == TotalLate
      && ParseDuration(TotalRows(t)[0].1) == Some(t.late / MsPerSecond)
    ensures t.overtime > 0 ==>
      var i := Positive(t.late);
      i < |TotalRows(t)| && TotalRows(t)[i].0 == TotalOvertime
      && ParseDuration(TotalRows(t)[i].1) == Some(t.overtime / MsPerSecond)
    ensures t.undertime > 0 ==>
      var i := Positive(t.late) + Positive(t.overtime);
      i < |TotalRows(t)| && TotalRows(t)[i].0 == TotalUndertime
      && ParseDuration(TotalRows(t)[i].1) == Some(t.undertime / MsPerSecond)
    ensures t.halfday > 0 ==>
      var i := Positive(t.late) + Positive(t.overtime) + Positive(t.undertime);
      i < |TotalRows(t)| && TotalRows(t)[i].0 == TotalHalfday
      && AllDigits(TotalRows(t)[i].1) && ParseNat(TotalRows(t)[i].1) == t.halfday
    ensures t.invalid > 0 ==>
      var i := Positive(t.late) + Positive(t.overtime) + Positive(t.undertime) + Positive(t.halfday);
      i < |TotalRows(t)| && TotalRows(t)[i].0 == TotalInvalid
      && ParseDuration(TotalRows(t)[i].1) == Some(t.invalid / MsPerSecond)
  {
    if t.late > 0 {
      assert TotalRows(t)[0] == (TotalLate, FormatDuration(t.late));
      FormatDurationRoundTrip(t.late);
    }
    if t.overtime > 0 {
      OvertimeRow(t);
      FormatDurationRoundTrip(t.overtime);
    }
    if t.undertime > 0 {
      UndertimeRow(t);
      FormatDurationRoundTrip(t.undertime);
    }
    if t.halfday > 0 {
      HalfdayRow(t);
      ParseNatToString(t.halfday);
    }
    if t.invalid > 0 {
      InvalidRow(t);
      FormatDurationRoundTrip(t.invalid);
    }
  }

  /** The overtime row follows the late row, if any. */
  lemma OvertimeRow(t: Totals)
    requires t.overtime > 0
    ensures var i := Positive(t.late);
      i < |TotalRows(t)| && TotalRows(t)[i] == (TotalOvertime, FormatDuration(t.overtime))
  {
    var pre := Entry(t.late, TotalLate, FormatDuration(t.late));
    var post := Entry(t.undertime, TotalUndertime, FormatDuration(t.undertime))
      + Entry(t.halfday, TotalHalfday, NatToString(t.halfday))
      + Entry(t.invalid, TotalInvalid, FormatDuration(t.invalid));
    assert |pre| == Positive(t.late);
    assert TotalRows(t) == pre + [(TotalOvertime, FormatDuration(t.overtime))] + post;
  }

  /** The undertime row follows the late and overtime rows, if any. */
  lemma UndertimeRow(t: Totals)
    requires t.undertime > 0
    ensures var i := Positive(t.late) + Positive(t.overtime);
      i < |TotalRows(t)| && TotalRows(t)[i] == (TotalUndertime, FormatDuration(t.undertime))
  {
    var pre := Entry(t.late, TotalLate, FormatDuration(t.late))
      + Entry(t.overtime, TotalOvertime, FormatDuration(t.overtime));
    var post := Entry(t.halfday, TotalHalfday, NatToString(t.halfday))
      + Entry(t.invalid, TotalInvalid, FormatDuration(t.invalid));
    assert |pre| == Positive(t.late) + Positive(t.overtime);
    assert TotalRows(t) == pre + [(TotalUndertime, FormatDuration(t.undertime))] + post;
  }

  /** The halfday row follows the rows of the three non-zero duration totals before it. */
  lemma HalfdayRow(t: Totals)
    requires t.halfday > 0
    ensures var i := Positive(t.late) + Positive(t.overtime) + Positive(t.undertime);
      i < |TotalRows(t)| && TotalRows(t)[i] == (TotalHalfday, NatToString(t.halfday))
  {
    var pre := Entry(t.late, TotalLate, FormatDuration(t.late))
      + Entry(t.overtime, TotalOvertime, FormatDuration(t.overtime))
      + Entry(t.undertime, TotalUndertime, FormatDuration(t.undertime));
    var post := Entry(t.invalid, TotalInvalid, FormatDuration(t.invalid));
    assert |pre| == Positive(t.late) + Positive(t.overtime) + Positive(t.undertime);
    assert TotalRows(t) == pre + [(TotalHalfday, NatToString(t.halfday))] + post;
  }

  /** The invalid row comes last. */
  lemma InvalidRow(t: Totals)
    requires t.invalid > 0
    ensures var i := Positive(t.late) + Positive(t.overtime) + Positive(t.undertime) + Positive(t.halfday);
      i < |TotalRows(t)| && TotalRows(t)[i] == (TotalInvalid, FormatDuration(t.invalid))
  {
    var pre := Entry(t.late, TotalLate, FormatDuration(t.late))
      + Entry(t.overtime, TotalOvertime, FormatDuration(t.overtime))
      + Entry(t.undertime, TotalUndertime, FormatDuration(t.undertime))
      + Entry(t.halfday, TotalHalfday, NatToString(t.halfday));
    assert |pre| == Positive(t.late) + Positive(t.overtime) + Positive(t.undertime) + Positive(t.halfday);
    assert TotalRows(t) == pre + [(TotalInvalid, FormatDuration(t.invalid))];
  }
}
