/**
 * The per-user row of the timekeeping table view: late, overtime, undertime
 * and invalid time summed over the user's date-filtered logs, the number of
 * distinct days with a late login, and how each total is shown.
 *
 * The code decides which total a log feeds by the prefix of its remark text,
 * then recomputes the duration from the log's time; both steps are modelled
 * as written and related to the remark each log carries.
 */
module CardTable {
  import opened Text
  import opened Options
  import opened Seqs
  import opened Durations
  import opened Shift
  import opened Records

  function RemarkOf(p: Post): Remark {
    LogRemark(p.status, p.at)
  }

  // The duration each remark carries, per column: the reference the totals are checked against.

  function LateMs(p: Post): nat {
    match RemarkOf(p) case Late(d) => d case _ => 0
  }

  function OvertimeMs(p: Post): nat {
    match RemarkOf(p) case Overtime(d) => d case _ => 0
  }

  function UndertimeMs(p: Post): nat {
    match RemarkOf(p) case Undertime(d) => d case _ => 0
  }

  function InvalidMs(p: Post): nat {
    match RemarkOf(p) case Invalid(d) => d case _ => 0
  }

  predicate IsLate(p: Post) {
    RemarkOf(p).Late?
  }

  /** A late log always has a date (an undated log reads "On Time"). */
  lemma LateIsDated(p: Post)
    requires IsLate(p)
    ensures p.at.Some?
  {
  }

  /** The calendar days (`toISOString().split("T")[0]`) that have a late login. */
  function LateDays(logs: seq<Post>): set<int> {
    if |logs| == 0 then {}
    else
      var p := logs[|logs| - 1];
      LateDays(logs[..|logs| - 1]) + (if IsLate(p) then {DayOf(p.at.value)} else {})
  }

  lemma LateDaysStep(logs: seq<Post>, i: nat)
    requires i < |logs|
    ensures IsLate(logs[i]) ==> LateDays(logs[..i + 1]) == LateDays(logs[..i]) + {DayOf(logs[i].at.value)}
    ensures !IsLate(logs[i]) ==> LateDays(logs[..i + 1]) == LateDays(logs[..i])
  {
    assert logs[..i + 1][..i] == logs[..i];
    assert LateDays(logs[..i]) + {} == LateDays(logs[..i]);
  }

  function CountLate(logs: seq<Post>): nat {
    if |logs| == 0 then 0
    else CountLate(logs[..|logs| - 1]) + (if IsLate(logs[|logs| - 1]) then 1 else 0)
  }

  /** One row's totals. */
  datatype Totals = Totals(late: nat, overtime: nat, undertime: nat, invalid: nat, lateDays: nat)

  /**
   * The `forEach` over a user's filtered logs: each log's remark text picks
   * a total by prefix, and the duration is recomputed from the log's time.
   */
  method RowTotals(logs: seq<Post>) returns (t: Totals)
    ensures t.late == SumOf(logs, LateMs)
    ensures t.overtime == SumOf(logs, OvertimeMs)
    ensures t.undertime == SumOf(logs, UndertimeMs)
    ensures t.invalid == SumOf(logs, InvalidMs)
    ensures t.lateDays == |LateDays(logs)|
  {
    var late, overtime, undertime, invalid := 0, 0, 0, 0;
    var days: set<int> := {};
    var i := 0;
    while i < |logs|
      invariant 0 <= i <= |logs|
      invariant late == SumOf(logs[..i], LateMs)
      invariant overtime == SumOf(logs[..i], OvertimeMs)
      invariant undertime == SumOf(logs[..i], UndertimeMs)
      invariant invalid == SumOf(logs[..i], InvalidMs)
      invariant days == LateDays(logs[..i])
    {
      var p := logs[i];
      var bucket := LogBucket(p);
      LogAmounts(p);
      SumOfStep(logs, i, LateMs);
      SumOfStep(logs, i, OvertimeMs);
      SumOfStep(logs, i, UndertimeMs);
      SumOfStep(logs, i, InvalidMs);
      LateDaysStep(logs, i);
      if bucket == LateBucket {
        var t := TimeOf(p.at.value);
        late := late + (t - WorkStart);
        days := days + {DayOf(p.at.value)};
      } else if bucket == OvertimeBucket {
        var t := TimeOf(p.at.value);
        overtime := overtime + (t - WorkEnd);
      } else if bucket == UndertimeBucket {
        var t := TimeOf(p.at.value);
        undertime := undertime + (WorkEnd - t);
      } else if bucket == InvalidBucket {
        var t := TimeOf(p.at.value);
        invalid := invalid + (t - InvalidStart);
      }
      i := i + 1;
    }
    assert logs[..i] == logs;
    t := Totals(late, overtime, undertime, invalid, |days|);
  }

  /** The total a log's remark text picks by prefix. */
  function LogBucket(p: Post): Bucket {
    BucketOf(TimekeepingLabel(RemarkOf(p)))
  }

  /** What the loop adds for one log, by the bucket its remark text falls in. */
  lemma LogAmounts(p: Post)
    ensures LogBucket(p) == LateBucket ==>
      p.at.Some? && TimeOf(p.at.value) >= WorkStart && LateMs(p) == TimeOf(p.at.value) - WorkStart && IsLate(p)
    ensures LogBucket(p) == OvertimeBucket ==>
      p.at.Some? && TimeOf(p.at.value) >= WorkEnd && OvertimeMs(p) == TimeOf(p.at.value) - WorkEnd
    ensures LogBucket(p) == UndertimeBucket ==>
      p.at.Some? && TimeOf(p.at.value) <= WorkEnd && UndertimeMs(p) == WorkEnd - TimeOf(p.at.value)
    ensures LogBucket(p) == InvalidBucket ==>
      p.at.Some? && TimeOf(p.at.value) >= InvalidStart && InvalidMs(p) == TimeOf(p.at.value) - InvalidStart
    ensures LogBucket(p) != LateBucket ==> LateMs(p) == 0 && !IsLate(p)
    ensures LogBucket(p) != OvertimeBucket ==> OvertimeMs(p) == 0
    ensures LogBucket(p) != UndertimeBucket ==> UndertimeMs(p) == 0
    ensures LogBucket(p) != InvalidBucket ==> InvalidMs(p) == 0
  {
    BucketOfLabel(RemarkOf(p));
  }

  /** A log feeds at most one total, and a halfday login feeds none. */
  lemma OneTotalPerLog(p: Post)
    ensures (if LateMs(p) > 0 then 1 else 0) + (if OvertimeMs(p) > 0 then 1 else 0)
      + (if UndertimeMs(p) > 0 then 1 else 0) + (if InvalidMs(p) > 0 then 1 else 0) <= 1
    ensures RemarkOf(p) == Halfday ==>
      LateMs(p) == 0 && OvertimeMs(p) == 0 && UndertimeMs(p) == 0 && InvalidMs(p) == 0
  {
  }

  /** Distinct late days never exceed the number of late logs. */
  lemma {:induction false} LateDaysAtMostLateLogs(logs: seq<Post>)
    ensures |LateDays(logs)| <= CountLate(logs)
  {
    if |logs| > 0 {
      var prefix := logs[..|logs| - 1];
      LateDaysAtMostLateLogs(prefix);
      var p := logs[|logs| - 1];
      if IsLate(p) {
        var d := DayOf(p.at.value);
        assert |LateDays(prefix) + {d}| <= |LateDays(prefix)| + 1 by {
          if d in LateDays(prefix) {
            assert LateDays(prefix) + {d} == LateDays(prefix);
          }
        }
      }
    }
  }

  /** The days cell: "-", the bare count, or the count flagged for a memo from six days on. */
  function DaysCell(n: nat): string {
    if n > 0 then (if n >= 6 then NatToString(n) + MemoSuffix else NatToString(n)) else "-"
  }

  const MemoSuffix := " (For Memo)"

  /** A cell is flagged for a memo exactly when the count is six or more, and the count can be read back. */
  lemma DaysCellMeaning(n: nat)
    ensures DaysCell(n) == "-" <==> n == 0
    ensures n > 0 ==> StartsWith(DaysCell(n), NatToString(n))
    ensures n > 0 ==> ParseNat(DaysCell(n)[..DigitRun(DaysCell(n))]) == n
    ensures Contains(DaysCell(n), MemoSuffix) <==> n >= 6
  {
    var c := DaysCell(n);
    var digits := NatToString(n);
    if n > 0 {
      PrefixThen(digits, if n >= 6 then MemoSuffix else "");
      assert c == digits + (if n >= 6 then MemoSuffix else "");
      DigitRunOfDigits(digits, if n >= 6 then MemoSuffix else "");
      assert c[..|digits|] == digits;
      ParseNatToString(n);
      if n >= 6 {
        ContainsAt(c, MemoSuffix, |digits|);
      } else {
        assert c == digits;
        NoSpaceNoMemo(c);
      }
    } else {
      NoSpaceNoMemo("-");
    }
  }

  /** A string without a space cannot contain " (For Memo)". */
  lemma {:induction false} NoSpaceNoMemo(s: string)
    requires forall i :: 0 <= i < |s| ==> s[i] != ' '
    ensures !Contains(s, MemoSuffix)
  {
    if |s| > 0 {
      NoSpaceNoMemo(s[1..]);
      DiffersAt(s, MemoSuffix, 0);
    } else {
      assert !(MemoSuffix <= s);
    }
  }

  /** A total cell: "-" for nothing, else the three-part duration. */
  function TotalCell(ms: nat): string {
    if ms > 0 then FormatDuration(ms) else "-"
  }

  /** Reads a total cell back to milliseconds (whole seconds). */
  function ReadTotalCell(s: string): Option<nat> {
    if s == "-" then Some(0)
    else match ParseDuration(s)
      case None => None
      case Some(secs) => Some(secs * MsPerSecond)
  }

  /** A total cell shows its total to the second; "-" appears only for a zero total. */
  lemma TotalCellRoundTrip(ms: nat)
    ensures ReadTotalCell(TotalCell(ms)) == Some(ms / MsPerSecond * MsPerSecond)
    ensures TotalCell(ms) == "-" <==> ms == 0
  {
    if ms > 0 {
      FormatDurationRoundTrip(ms);
      var f := FormatDuration(ms);
      var p := SplitMs(ms);
      assert f == NatToString(p.hours) + "h" + " " + Token(p.minutes, 'm') + " " + Token(p.seconds, 's');
      assert IsDigit(f[0]);
      DiffersAt(f, "-", 0);
    }
  }
}
