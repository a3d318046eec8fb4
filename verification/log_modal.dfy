/**
 * The per-user log modal: its own late and overtime totals, which use rules
 * of their own (late counts any login after 08:00, overtime only logouts
 * after 17:30), and its chronological listing of the logs.
 */
module LogModal {
  import opened Options
  import opened Seqs
  import opened Shift
  import opened Records
  import CardTable

  /** Late time by the modal's rule: every login after 08:00, however late. */
  function ModalLate(p: Post): nat {
    match p.at
    case None => 0
    case Some(a) => if KindOf(p.status) == Login && TimeOf(a) > WorkStart then TimeOf(a) - WorkStart else 0
  }

  /** Overtime by the modal's rule: logouts after 17:30, counted from 17:30. */
  function ModalOvertime(p: Post): nat {
    match p.at
    case None => 0
    case Some(a) =>
      if KindOf(p.status) == Logout && TimeOf(a) > ModalOvertimeStart then TimeOf(a) - ModalOvertimeStart else 0
  }

  /** The modal's overtime starts half an hour after the table's. */
  const Grace: nat := ModalOvertimeStart - WorkEnd

  datatype Totals = Totals(late: nat, overtime: nat)

  /**
   * The modal body: nothing when closed or when the user has no logs;
   * otherwise the two totals summed over the logs.
   */
  method ModalTotals(isOpen: bool, logs: seq<Post>) returns (r: Option<Totals>)
    ensures r.None? <==> !isOpen || |logs| == 0
    ensures r.Some? ==> r.value.late == SumOf(logs, ModalLate)
    ensures r.Some? ==> r.value.overtime == SumOf(logs, ModalOvertime)
  {
    if !isOpen || |logs| == 0 {
      return None;
    }
    var late, overtime := 0, 0;
    var i := 0;
    while i < |logs|
      invariant 0 <= i <= |logs|
      invariant late == SumOf(logs[..i], ModalLate)
      invariant overtime == SumOf(logs[..i], ModalOvertime)
    {
      var p := logs[i];
      assert logs[..i + 1][..i] == logs[..i];
      if p.at.Some? {
        var t := TimeOf(p.at.value);
        if KindOf(p.status) == Login && t > WorkStart {
          late := late + (t - WorkStart);
        } else if KindOf(p.status) == Logout && t > ModalOvertimeStart {
          overtime := overtime + (t - ModalOvertimeStart);
        }
      }
      i := i + 1;
    }
    assert logs[..i] == logs;
    return Some(Totals(late, overtime));
  }

  /**
   * Against the table's late time: the modal agrees on every late login and
   * adds the logins the table calls halfday or invalid instead.
   */
  lemma ModalLateAgainstTable(p: Post)
    ensures CardTable.LateMs(p) <= ModalLate(p)
    ensures CardTable.LateMs(p) > 0 ==> ModalLate(p) == CardTable.LateMs(p)
    ensures ModalLate(p) != CardTable.LateMs(p) <==>
      CardTable.RemarkOf(p).Halfday? || CardTable.RemarkOf(p).Invalid?
  {
  }

  /** Against the table's overtime: the same logouts, less the first half hour. */
  lemma ModalOvertimeAgainstTable(p: Post)
    ensures ModalOvertime(p) == if CardTable.OvertimeMs(p) > Grace then CardTable.OvertimeMs(p) - Grace else 0
  {
  }

  /** A log adds to at most one of the modal's totals. */
  lemma OneModalTotalPerLog(p: Post)
    ensures ModalLate(p) == 0 || ModalOvertime(p) == 0
  {
  }

  /** Summed over any logs: the modal shows at least the table's late time and at most its overtime. */
  lemma ModalTotalsAgainstTable(logs: seq<Post>)
    ensures SumOf(logs, CardTable.LateMs) <= SumOf(logs, ModalLate)
    ensures SumOf(logs, ModalOvertime) <= SumOf(logs, CardTable.OvertimeMs)
  {
    forall i | 0 <= i < |logs| ensures CardTable.LateMs(logs[i]) <= ModalLate(logs[i]) {
      ModalLateAgainstTable(logs[i]);
    }
    SumOfMonotone(logs, CardTable.LateMs, ModalLate);
    forall i | 0 <= i < |logs| ensures ModalOvertime(logs[i]) <= CardTable.OvertimeMs(logs[i]) {
      ModalOvertimeAgainstTable(logs[i]);
    }
    SumOfMonotone(logs, ModalOvertime, CardTable.OvertimeMs);
  }
}
