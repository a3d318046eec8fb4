/**
 * The shift rules: what a login or logout at a given time of day means.
 *
 * Two views classify a log, and they disagree on purpose:
 *  - the timekeeping table (`computeRemarks`) flags a login between 14:00 and
 *    23:00 as needing verification before it considers "Halfday";
 *  - the activity table (`computeTimeRemarks`) has no such window, and checks
 *    lateness before "Halfday".
 * Both re-anchor every boundary to the log's own calendar day, so the result
 * depends only on the time of day. A log whose date cannot be read compares
 * false against every boundary and therefore falls through to "On Time".
 *
 * Times are integers: a log's instant is local milliseconds since the epoch,
 * its day is `at / DayMs` and its time of day `at % DayMs` (no daylight
 * saving, which the deployment region does not observe).
 */
module Shift {
  import opened Text
  import opened Options
  import opened Durations

  const DayMs: nat := 86_400_000
  /** 08:00:00.000, the start of the working day. */
  const WorkStart: nat := 28_800_000
  /** 12:59:59.999, the last instant a login counts as late rather than halfday. */
  const MorningCutoff: nat := 46_799_999
  /** 13:00:00.000, the start of the afternoon half-day (and of the undertime window). */
  const HalfdayStart: nat := 46_800_000
  /** 14:00:00.000, the start of the window of logins that need verification. */
  const InvalidStart: nat := 50_400_000
  /** 16:59:59.999, the last instant a logout counts as undertime. */
  const UndertimeEnd: nat := 61_199_999
  /** 17:00:00.000, the end of the working day; overtime starts after it. */
  const WorkEnd: nat := 61_200_000
  /** 17:30:00.000, where the log modal starts counting overtime. */
  const ModalOvertimeStart: nat := 63_000_000
  /** 23:00:00.000, the end (inclusive) of the verification window. */
  const InvalidEnd: nat := 82_800_000

  /** Milliseconds since local midnight. */
  type TimeOfDay = t: nat | t < DayMs

  function TimeOf(at: int): TimeOfDay {
    at % DayMs
  }

  function DayOf(at: int): int {
    at / DayMs
  }

  /** Re-anchoring a time to its own day: the instant is its day's midnight plus its time of day. */
  lemma InstantSplits(at: int)
    ensures at == DayOf(at) * DayMs + TimeOf(at)
  {
  }

  /** Moving an instant by whole days keeps its time of day and shifts its day. */
  lemma ShiftByDays(at: int, n: int)
    ensures TimeOf(at + n * DayMs) == TimeOf(at)
    ensures DayOf(at + n * DayMs) == DayOf(at) + n
  {
    var q := at / DayMs;
    var r := at % DayMs;
    assert at + n * DayMs == (q + n) * DayMs + r;
    DivModUnique(at + n * DayMs, q + n, r);
  }

  lemma DivModUnique(x: int, q: int, r: int)
    requires 0 <= r < DayMs && x == q * DayMs + r
    ensures x / DayMs == q && x % DayMs == r
  {
  }

  // ---------------------------------------------------------------- status

  /** What a log's Status says, compared case-insensitively. */
  datatype Kind = Login | Logout | Other

  function KindOf(status: string): (k: Kind)
    ensures k == Login <==> Lower(status) == "login"
    ensures k == Logout <==> Lower(status) == "logout"
  {
    if Lower(status) == "login" then Login
    else if Lower(status) == "logout" then Logout
    else Other
  }

  // ---------------------------------------------------------------- remarks

  /** A classification, with its duration in milliseconds where the label shows one. */
  datatype Remark =
    | Invalid(d: nat)
    | Halfday
    | Late(d: nat)
    | OnTime
    | Undertime(d: nat)
    | Overtime(d: nat)
    | Unknown

  /** The timekeeping table's classification at time of day `t`. */
  function TimekeepingRemark(k: Kind, t: TimeOfDay): (r: Remark)
    ensures r == Unknown <==> k == Other
    ensures r.Invalid? || r.Halfday? || r.Late? ==> k == Login
    ensures r.Undertime? || r.Overtime? ==> k == Logout
    ensures r.Invalid? ==> r.d <= InvalidEnd - InvalidStart
    ensures r.Late? ==> 0 < r.d < HalfdayStart - WorkStart
    ensures r.Undertime? ==> 1 <= r.d <= WorkEnd - HalfdayStart
    ensures r.Overtime? ==> 0 < r.d < DayMs - WorkEnd
  {
    match k
    case Login =>
      if InvalidStart <= t <= InvalidEnd then Invalid(t - InvalidStart)
      else if t >= HalfdayStart then Halfday
      else if WorkStart < t <= MorningCutoff then Late(t - WorkStart)
      else OnTime
    case Logout =>
      if HalfdayStart <= t <= UndertimeEnd then Undertime(WorkEnd - t)
      else if t > WorkEnd then Overtime(t - WorkEnd)
      else OnTime
    case Other => Unknown
  }

  /** The activity table's classification at time of day `t`. */
  function ActivityRemark(k: Kind, t: TimeOfDay): (r: Remark)
    ensures !r.Invalid?
    ensures r == Unknown <==> k == Other
    ensures r.Halfday? || r.Late? ==> k == Login
    ensures r.Undertime? || r.Overtime? ==> k == Logout
    ensures r.Late? ==> 0 < r.d < HalfdayStart - WorkStart
    ensures r.Undertime? ==> 1 <= r.d <= WorkEnd - HalfdayStart
    ensures r.Overtime? ==> 0 < r.d < DayMs - WorkEnd
  {
    match k
    case Login =>
      if WorkStart < t <= MorningCutoff then Late(t - WorkStart)
      else if t >= HalfdayStart then Halfday
      else OnTime
    case Logout =>
      if HalfdayStart <= t <= UndertimeEnd then Undertime(WorkEnd - t)
      else if t > WorkEnd then Overtime(t - WorkEnd)
      else if t == WorkEnd then OnTime
      else if t < HalfdayStart then OnTime
      else OnTime
    case Other => Unknown
  }

  /** `computeRemarks(log)`: the timekeeping classification of a log, dated or not. */
  function LogRemark(status: string, at: Option<int>): (r: Remark)
    ensures at.None? ==> r == (if KindOf(status) == Other then Unknown else OnTime)
  {
    match at
    case None => if KindOf(status) == Other then Unknown else OnTime
    case Some(a) => TimekeepingRemark(KindOf(status), TimeOf(a))
  }

  /** `computeTimeRemarks(log)`: the activity classification of a log, dated or not. */
  function ActivityLogRemark(status: string, at: Option<int>): (r: Remark)
    ensures !r.Invalid?
    ensures at.None? ==> r == (if KindOf(status) == Other then Unknown else OnTime)
  {
    match at
    case None => if KindOf(status) == Other then Unknown else OnTime
    case Some(a) => ActivityRemark(KindOf(status), TimeOf(a))
  }

  /** Only the time of day matters: the same clock time on any other day classifies alike. */
  lemma RemarkIgnoresDay(status: string, at: int, n: int)
    ensures LogRemark(status, Some(at + n * DayMs)) == LogRemark(status, Some(at))
    ensures ActivityLogRemark(status, Some(at + n * DayMs)) == ActivityLogRemark(status, Some(at))
  {
    ShiftByDays(at, n);
  }

  /** The timekeeping login rules, each as an if-and-only-if. */
  lemma TimekeepingLoginRules(t: TimeOfDay)
    ensures var r := TimekeepingRemark(Login, t);
      && (r.Invalid? <==> InvalidStart <= t <= InvalidEnd)
      && (r.Invalid? ==> r.d == t - InvalidStart)
      && (r == Halfday <==> HalfdayStart <= t && !(InvalidStart <= t <= InvalidEnd))
      && (r.Late? <==> WorkStart < t < HalfdayStart)
      && (r.Late? ==> r.d == t - WorkStart)
      && (r == OnTime <==> t <= WorkStart)
  {
  }

  /** The logout rules, shared by both variants, each as an if-and-only-if. */
  lemma LogoutRules(t: TimeOfDay)
    ensures TimekeepingRemark(Logout, t) == ActivityRemark(Logout, t)
    ensures var r := TimekeepingRemark(Logout, t);
      && (r.Undertime? <==> HalfdayStart <= t < WorkEnd)
      && (r.Undertime? ==> r.d == WorkEnd - t)
      && (r.Overtime? <==> WorkEnd < t)
      && (r.Overtime? ==> r.d == t - WorkEnd)
      && (r == OnTime <==> t < HalfdayStart || t == WorkEnd)
  {
  }

  /** The activity login rules, each as an if-and-only-if. */
  lemma ActivityLoginRules(t: TimeOfDay)
    ensures var r := ActivityRemark(Login, t);
      && (r.Late? <==> WorkStart < t < HalfdayStart)
      && (r.Late? ==> r.d == t - WorkStart)
      && (r == Halfday <==> HalfdayStart <= t)
      && (r == OnTime <==> t <= WorkStart)
  {
  }

  /**
   * The two variants agree everywhere except on logins inside the verification
   * window, which the activity table calls "Halfday".
   */
  lemma VariantsAgree(k: Kind, t: TimeOfDay)
    ensures TimekeepingRemark(k, t) != ActivityRemark(k, t)
      <==> k == Login && InvalidStart <= t <= InvalidEnd
    ensures k == Login && InvalidStart <= t <= InvalidEnd ==>
      TimekeepingRemark(k, t) == Invalid(t - InvalidStart) && ActivityRemark(k, t) == Halfday
  {
  }

  // ---------------------------------------------------------------- labels

  const InvalidPrefix := "Invalid (Needs Verification): "
  const LatePrefix := "Late: "
  const UndertimePrefix := "Undertime: "
  const OvertimePrefix := "Overtime: "

  /** The text `computeRemarks` returns. */
  function TimekeepingLabel(r: Remark): string {
    match r
    case Invalid(d) => InvalidPrefix + FormatDuration(d)
    case Halfday => "Halfday"
    case Late(d) => LatePrefix + FormatDuration(d)
    case OnTime => "On Time"
    case Undertime(d) => UndertimePrefix + FormatDuration(d)
    case Overtime(d) => OvertimePrefix + FormatDuration(d)
    case Unknown => "-"
  }

  const ActivityLatePrefix := "Late by "
  const ActivityUndertimePrefix := "Undertime by "
  const ActivityOvertimePrefix := "OT +"

  /** The text `computeTimeRemarks` returns; that variant never produces Invalid. */
  function ActivityLabel(r: Remark): string
    requires !r.Invalid?
  {
    match r
    case Halfday => "Halfday"
    case Late(d) => ActivityLatePrefix + CompactDuration(d)
    case OnTime => "On Time"
    case Undertime(d) => ActivityUndertimePrefix + CompactDuration(d)
    case Overtime(d) => ActivityOvertimePrefix + CompactDuration(d)
    case Unknown => "-"
  }

  /** What a label can tell: the remark with its duration cut to whole seconds. */
  function WholeSeconds(r: Remark): Remark {
    match r
    case Invalid(d) => Invalid(d / MsPerSecond * MsPerSecond)
    case Late(d) => Late(d / MsPerSecond * MsPerSecond)
    case Undertime(d) => Undertime(d / MsPerSecond * MsPerSecond)
    case Overtime(d) => Overtime(d / MsPerSecond * MsPerSecond)
    case _ => r
  }

  /** The duration written after `prefix`, in milliseconds (whole seconds). */
  function DurationAfter(s: string, prefix: string): Option<nat>
    requires StartsWith(s, prefix)
  {
    match ParseDuration(s[|prefix|..])
    case None => None
    case Some(secs) => Some(secs * MsPerSecond)
  }

  /** A duration-carrying remark of the given shape, if the duration was read. */
  function WithDuration(shape: Remark, d: Option<nat>): Option<Remark>
    requires shape.Invalid? || shape.Late? || shape.Undertime? || shape.Overtime?
  {
    match d
    case None => None
    case Some(ms) => Some(shape.(d := ms))
  }

  /** Reads a timekeeping label back into a remark; None for any other text. */
  function ReadTimekeepingLabel(s: string): Option<Remark> {
    if s == "Halfday" then Some(Halfday)
    else if s == "On Time" then Some(OnTime)
    else if s == "-" then Some(Unknown)
    else if StartsWith(s, InvalidPrefix) then WithDuration(Invalid(0), DurationAfter(s, InvalidPrefix))
    else if StartsWith(s, LatePrefix) then WithDuration(Late(0), DurationAfter(s, LatePrefix))
    else if StartsWith(s, UndertimePrefix) then WithDuration(Undertime(0), DurationAfter(s, UndertimePrefix))
    else if StartsWith(s, OvertimePrefix) then WithDuration(Overtime(0), DurationAfter(s, OvertimePrefix))
    else None
  }

  /** Reads an activity label back into a remark; None for any other text. */
  function ReadActivityLabel(s: string): Option<Remark> {
    if s == "Halfday" then Some(Halfday)
    else if s == "On Time" then Some(OnTime)
    else if s == "-" then Some(Unknown)
    else if StartsWith(s, ActivityLatePrefix) then WithDuration(Late(0), DurationAfter(s, ActivityLatePrefix))
    else if StartsWith(s, ActivityUndertimePrefix) then WithDuration(Undertime(0), DurationAfter(s, ActivityUndertimePrefix))
    else if StartsWith(s, ActivityOvertimePrefix) then WithDuration(Overtime(0), DurationAfter(s, ActivityOvertimePrefix))
    else None
  }

  lemma WholeSecondsOfDuration(d: nat)
    ensures ParseDuration(FormatDuration(d)) == Some(d / MsPerSecond)
    ensures ParseDuration(CompactDuration(d)) == Some(d / MsPerSecond)
  {
    FormatDurationRoundTrip(d);
    CompactDurationRoundTrip(d);
  }

  lemma TimekeepingLabelInvalid(d: nat)
    ensures ReadTimekeepingLabel(TimekeepingLabel(Invalid(d))) == Some(Invalid(d / MsPerSecond * MsPerSecond))
  {
    var s := TimekeepingLabel(Invalid(d));
    WholeSecondsOfDuration(d);
    PrefixThen(InvalidPrefix, FormatDuration(d));
    DiffersAt(s, "Halfday", 0);
    DiffersAt(s, "On Time", 0);
    DiffersAt(s, "-", 0);
  }

  lemma TimekeepingLabelLate(d: nat)
    ensures ReadTimekeepingLabel(TimekeepingLabel(Late(d))) == Some(Late(d / MsPerSecond * MsPerSecond))
  {
    var s := TimekeepingLabel(Late(d));
    WholeSecondsOfDuration(d);
    PrefixThen(LatePrefix, FormatDuration(d));
    DiffersAt(s, "Halfday", 0);
    DiffersAt(s, "On Time", 0);
    DiffersAt(s, "-", 0);
    DiffersAt(s, InvalidPrefix, 0);
  }

  lemma TimekeepingLabelUndertime(d: nat)
    ensures ReadTimekeepingLabel(TimekeepingLabel(Undertime(d))) == Some(Undertime(d / MsPerSecond * MsPerSecond))
  {
    var s := TimekeepingLabel(Undertime(d));
    WholeSecondsOfDuration(d);
    PrefixThen(UndertimePrefix, FormatDuration(d));
    DiffersAt(s, "Halfday", 0);
    DiffersAt(s, "On Time", 0);
    DiffersAt(s, "-", 0);
    DiffersAt(s, InvalidPrefix, 0);
    DiffersAt(s, LatePrefix, 0);
  }

  lemma TimekeepingLabelOvertime(d: nat)
    ensures ReadTimekeepingLabel(TimekeepingLabel(Overtime(d))) == Some(Overtime(d / MsPerSecond * MsPerSecond))
  {
    var f := FormatDuration(d);
    var s := OvertimePrefix + f;
    assert TimekeepingLabel(Overtime(d)) == s;
    assert s != "Halfday" && s != "On Time" && s != "-" by {
      assert s[0] == 'O' && s[1] == 'v';
      DiffersAt(s, "Halfday", 0);
      DiffersAt(s, "On Time", 1);
      DiffersAt(s, "-", 0);
    }
    assert !StartsWith(s, InvalidPrefix) && !StartsWith(s, LatePrefix) && !StartsWith(s, UndertimePrefix) by {
      assert s[0] == 'O';
      DiffersAt(s, InvalidPrefix, 0);
      DiffersAt(s, LatePrefix, 0);
      DiffersAt(s, UndertimePrefix, 0);
    }
    PrefixThen(OvertimePrefix, f);
    assert DurationAfter(s, OvertimePrefix) == Some(d / MsPerSecond * MsPerSecond) by {
      WholeSecondsOfDuration(d);
    }
  }

  /** A timekeeping label determines its remark up to whole seconds. */
  lemma TimekeepingLabelRoundTrip(r: Remark)
    ensures ReadTimekeepingLabel(TimekeepingLabel(r)) == Some(WholeSeconds(r))
  {
    match r
    case Invalid(d) => TimekeepingLabelInvalid(d);
    case Late(d) => TimekeepingLabelLate(d);
    case Undertime(d) => TimekeepingLabelUndertime(d);
    case Overtime(d) => TimekeepingLabelOvertime(d);
    case _ =>
  }

  /** Reading back a prefixed label: the prefix picks the shape, the tail gives the duration. */
  lemma PrefixedDuration(prefix: string, rest: string)
    ensures StartsWith(prefix + rest, prefix)
    ensures DurationAfter(prefix + rest, prefix) ==
      match ParseDuration(rest) case None => None case Some(secs) => Some(secs * MsPerSecond)
  {
    PrefixThen(prefix, rest);
  }

  lemma ReadActivityLate(rest: string)
    ensures ReadActivityLabel(ActivityLatePrefix + rest) == WithDuration(Late(0), DurationAfter(ActivityLatePrefix + rest, ActivityLatePrefix))
  {
    var s := ActivityLatePrefix + rest;
    PrefixThen(ActivityLatePrefix, rest);
    DiffersAt(s, "Halfday", 0);
    DiffersAt(s, "On Time", 0);
    DiffersAt(s, "-", 0);
  }

  lemma ReadActivityUndertime(rest: string)
    ensures ReadActivityLabel(ActivityUndertimePrefix + rest)
      == WithDuration(Undertime(0), DurationAfter(ActivityUndertimePrefix + rest, ActivityUndertimePrefix))
  {
    var s := ActivityUndertimePrefix + rest;
    PrefixThen(ActivityUndertimePrefix, rest);
    DiffersAt(s, "Halfday", 0);
    DiffersAt(s, "On Time", 0);
    DiffersAt(s, "-", 0);
    DiffersAt(s, ActivityLatePrefix, 0);
  }

  lemma ReadActivityOvertime(rest: string)
    ensures ReadActivityLabel(ActivityOvertimePrefix + rest)
      == WithDuration(Overtime(0), DurationAfter(ActivityOvertimePrefix + rest, ActivityOvertimePrefix))
  {
    var s := ActivityOvertimePrefix + rest;
    PrefixThen(ActivityOvertimePrefix, rest);
    DiffersAt(s, "Halfday", 0);
    DiffersAt(s, "On Time", 1);
    DiffersAt(s, "-", 0);
    DiffersAt(s, ActivityLatePrefix, 0);
    DiffersAt(s, ActivityUndertimePrefix, 0);
  }

  lemma ActivityLabelLate(d: nat)
    ensures ReadActivityLabel(ActivityLabel(Late(d))) == Some(Late(d / MsPerSecond * MsPerSecond))
  {
    var c := CompactDuration(d);
    ReadActivityLate(c);
    PrefixedDuration(ActivityLatePrefix, c);
    WholeSecondsOfDuration(d);
  }

  lemma ActivityLabelUndertime(d: nat)
    ensures ReadActivityLabel(ActivityLabel(Undertime(d))) == Some(Undertime(d / MsPerSecond * MsPerSecond))
  {
    var c := CompactDuration(d);
    ReadActivityUndertime(c);
    PrefixedDuration(ActivityUndertimePrefix, c);
    WholeSecondsOfDuration(d);
  }

  lemma ActivityLabelOvertime(d: nat)
    ensures ReadActivityLabel(ActivityLabel(Overtime(d))) == Some(Overtime(d / MsPerSecond * MsPerSecond))
  {
    var c := CompactDuration(d);
    ReadActivityOvertime(c);
    PrefixedDuration(ActivityOvertimePrefix, c);
    WholeSecondsOfDuration(d);
  }

  /** An activity label determines its remark up to whole seconds. */
  lemma ActivityLabelRoundTrip(r: Remark)
    requires !r.Invalid?
    ensures ReadActivityLabel(ActivityLabel(r)) == Some(WholeSeconds(r))
  {
    match r
    case Late(d) => ActivityLabelLate(d);
    case Undertime(d) => ActivityLabelUndertime(d);
    case Overtime(d) => ActivityLabelOvertime(d);
    case _ =>
  }

  /** Two remarks print the same timekeeping label exactly when they agree to the second. */
  lemma TimekeepingLabelSame(a: Remark, b: Remark)
    ensures TimekeepingLabel(a) == TimekeepingLabel(b) <==> WholeSeconds(a) == WholeSeconds(b)
  {
    TimekeepingLabelRoundTrip(a);
    TimekeepingLabelRoundTrip(b);
    if WholeSeconds(a) == WholeSeconds(b) {
      match a
      case Invalid(d) => FormatDurationSameText(d, b.d);
      case Late(d) => FormatDurationSameText(d, b.d);
      case Undertime(d) => FormatDurationSameText(d, b.d);
      case Overtime(d) => FormatDurationSameText(d, b.d);
      case _ =>
    }
  }

  // ---------------------------------------------------------------- badge and buckets

  datatype BadgeColor = Green | Yellow | Blue | Gray

  /** `getRemarkBadgeColor(remark)`. */
  function BadgeOf(text: string): BadgeColor {
    if text == "On Time" then Green
    else if StartsWith(text, "Late") then Yellow
    else if StartsWith(text, "OT") then Blue
    else Gray
  }

  /** The badge of an activity label, in terms of the remark it shows. */
  lemma BadgeOfRemark(r: Remark)
    requires !r.Invalid?
    ensures BadgeOf(ActivityLabel(r)) == match r
      case OnTime => Green
      case Late(_) => Yellow
      case Overtime(_) => Blue
      case _ => Gray
  {
    match r
    case Late(d) => BadgeOfLateText(CompactDuration(d));
    case Overtime(d) => BadgeOfOvertimeText(CompactDuration(d));
    case Undertime(d) => BadgeOfUndertimeText(CompactDuration(d));
    case Halfday =>
      DiffersAt("Halfday", "Late", 0);
      DiffersAt("Halfday", "OT", 0);
    case Unknown =>
      DiffersAt("-", "Late", 0);
      DiffersAt("-", "OT", 0);
    case OnTime =>
  }

  lemma BadgeOfLateText(rest: string)
    ensures BadgeOf(ActivityLatePrefix + rest) == Yellow
  {
    var s := ActivityLatePrefix + rest;
    PrefixThen("Late", " by " + rest);
    assert s == "Late" + (" by " + rest);
    DiffersAt(s, "On Time", 0);
  }

  lemma BadgeOfOvertimeText(rest: string)
    ensures BadgeOf(ActivityOvertimePrefix + rest) == Blue
  {
    var s := ActivityOvertimePrefix + rest;
    PrefixThen("OT", " +" + rest);
    assert s == "OT" + (" +" + rest);
    DiffersAt(s, "On Time", 1);
    DiffersAt(s, "Late", 0);
  }

  lemma BadgeOfUndertimeText(rest: string)
    ensures BadgeOf(ActivityUndertimePrefix + rest) == Gray
  {
    var s := ActivityUndertimePrefix + rest;
    DiffersAt(s, "On Time", 0);
    DiffersAt(s, "Late", 0);
    DiffersAt(s, "OT", 0);
  }

  /** The report column a label falls into, chosen by its prefix. */
  datatype Bucket = LateBucket | OvertimeBucket | UndertimeBucket | HalfdayBucket | InvalidBucket | NoBucket

  /** The `startsWith` chain of the report code, in its order. */
  function BucketOf(text: string): Bucket {
    if StartsWith(text, "Late") then LateBucket
    else if StartsWith(text, "Overtime") then OvertimeBucket
    else if StartsWith(text, "Undertime") then UndertimeBucket
    else if StartsWith(text, "Halfday") then HalfdayBucket
    else if StartsWith(text, "Invalid") then InvalidBucket
    else NoBucket
  }

  lemma BucketOfLateText(rest: string)
    ensures BucketOf(LatePrefix + rest) == LateBucket
  {
    PrefixThen("Late", ": " + rest);
    assert LatePrefix + rest == "Late" + (": " + rest);
  }

  lemma BucketOfOvertimeText(rest: string)
    ensures BucketOf(OvertimePrefix + rest) == OvertimeBucket
  {
    var o := OvertimePrefix + rest;
    PrefixThen("Overtime", ": " + rest);
    assert o == "Overtime" + (": " + rest);
    DiffersAt(o, "Late", 0);
  }

  lemma BucketOfUndertimeText(rest: string)
    ensures BucketOf(UndertimePrefix + rest) == UndertimeBucket
  {
    var u := UndertimePrefix + rest;
    PrefixThen("Undertime", ": " + rest);
    assert u == "Undertime" + (": " + rest);
    DiffersAt(u, "Late", 0);
    DiffersAt(u, "Overtime", 0);
  }

  lemma BucketOfInvalidText(rest: string)
    ensures BucketOf(InvalidPrefix + rest) == InvalidBucket
  {
    var i := InvalidPrefix + rest;
    PrefixThen("Invalid", " (Needs Verification): " + rest);
    assert i == "Invalid" + (" (Needs Verification): " + rest);
    DiffersAt(i, "Late", 0);
    DiffersAt(i, "Overtime", 0);
    DiffersAt(i, "Undertime", 0);
    DiffersAt(i, "Halfday", 0);
  }

  lemma BucketOfPlainLabels()
    ensures BucketOf("Halfday") == HalfdayBucket
    ensures BucketOf("On Time") == NoBucket
    ensures BucketOf("-") == NoBucket
  {
    DiffersAt("Halfday", "Late", 0);
    DiffersAt("Halfday", "Overtime", 0);
    DiffersAt("Halfday", "Undertime", 0);
    DiffersAt("On Time", "Late", 0);
    DiffersAt("On Time", "Overtime", 1);
    DiffersAt("On Time", "Undertime", 0);
    DiffersAt("On Time", "Halfday", 0);
    DiffersAt("On Time", "Invalid", 0);
    DiffersAt("-", "Late", 0);
    DiffersAt("-", "Overtime", 0);
    DiffersAt("-", "Undertime", 0);
    DiffersAt("-", "Halfday", 0);
    DiffersAt("-", "Invalid", 0);
  }

  /** Bucketing a timekeeping label by prefix recovers exactly the remark's kind. */
  lemma BucketOfLabel(r: Remark)
    ensures BucketOf(TimekeepingLabel(r)) == match r
      case Late(_) => LateBucket
      case Overtime(_) => OvertimeBucket
      case Undertime(_) => UndertimeBucket
      case Halfday => HalfdayBucket
      case Invalid(_) => InvalidBucket
      case _ => NoBucket
  {
    BucketOfPlainLabels();
    match r
    case Late(d) => BucketOfLateText(FormatDuration(d));
    case Overtime(d) => BucketOfOvertimeText(FormatDuration(d));
    case Undertime(d) => BucketOfUndertimeText(FormatDuration(d));
    case Invalid(d) => BucketOfInvalidText(FormatDuration(d));
    case _ =>
  }
}
