# Acculog attendance model

Acculog is an attendance web application. Employees log in and log out with a
photo and a place. Human Resources and Super Admins review the logs. This
project is a Dafny model of the application's core logic and proofs about it.

- **Shift rules.** A log is classified against the office day: 08:00 start,
  13:00 halfday boundary, 14:00–23:00 invalid-login window, 17:00 end.
  It becomes a remark: On Time, Late, Halfday, Invalid, Undertime or
  Overtime. The timekeeping views and the activity table each have their own
  variant of the rules and of the text they render.
- **Durations.** The verbose `1h 2m 3s` formatter and the compact `1h 3s`
  formatter, plus a parser that inverts both.
- **Timekeeping.**
  - The per-user table row: late, overtime, undertime and invalid totals,
    distinct late days and the "(For Memo)" flag.
  - The Excel export's per-log columns and totals block.
  - The log modal's own late and overtime totals.
  - The month calendar.
  - The page that joins logs with user records and groups them by email.
  - The table's search, department and date filters.
- **Activity logs page.** Who sees which logs, the search, type and date
  filters, newest-first ordering, and the ten-per-page pagination.
- **Dashboard.** The same visibility and date rules, and the per-day chart
  counts.
- **Map.** Aggregation of logs per rounded coordinate, the map centre, the
  location list's search, and grouping a location's history by type.
- **Camera and form.** The camera's device flip and four-second countdown.
  The activity form's submit: which request it sends, and how it resets.
- **Sidebar.** The menu's role filter and its `?id=` links. The links are
  percent-encoded as `encodeURIComponent` does it, and proved to decode back.

Times are local epoch milliseconds (`Option<int>`, `None` for a missing
`date_created`). The time of day is `at % 86 400 000`. The day is
`at / 86 400 000`. Optional strings the code only tests for truthiness are
plain strings, with `""` meaning missing. I/O is modelled as parameters:

- the user list;
- what the photo upload returned, or `None` when it threw. The upload does not check the answer's status, so an answer without a URL is `Some("")`, with `""` for the missing URL;
- whether the save succeeded;
- the camera frame;
- the coordinate key and display functions of the map.

The modules follow the source files. `Shift` and `Durations` hold the rules
and formatters shared by several components. `Seqs`, `Text`, `Options` and
`Toggles` are small shared libraries.

## Model

| member | source | states |
|---|---|---|
| Shift.KindOf | app/Acculog/components/Timekeeping/Table.tsx:93 | a status is a login exactly when it lower-cases to "login", and a logout exactly when it lower-cases to "logout" |
| Shift.TimekeepingRemark | app/Acculog/components/Timekeeping/Table.tsx:64-124 | only logins are Invalid, Halfday or Late; only logouts are Undertime or Overtime; any other status is "-"; each duration is bounded by its window |
| Shift.ActivityRemark | app/Acculog/components/Activity/Table.tsx:55-124 | the activity table's classifier never says Invalid; same kind and window bounds as the timekeeping rules |
| Shift.LogRemark | app/Acculog/components/Timekeeping/Table.tsx:64-123 | a log without a date reads "On Time" if it is a login or logout (every comparison with an invalid date fails) and "-" otherwise |
| Shift.ActivityLogRemark | app/Acculog/components/Activity/Table.tsx:55-123 | the activity variant treats undated logs the same way and never yields Invalid |
| Shift.RemarkIgnoresDay | app/Acculog/components/Timekeeping/Table.tsx:78-91 | the remark depends only on the time of day: moving a log by whole days never changes it |
| Shift.TimekeepingLoginRules | app/Acculog/components/Timekeeping/Table.tsx:93-108 | login: Invalid exactly from 14:00 to 23:00, counted from 14:00; Halfday from 13:00 outside that window; Late exactly after 08:00 and before 13:00, counted from 08:00; On Time up to 08:00 |
| Shift.LogoutRules | app/Acculog/components/Timekeeping/Table.tsx:111-121 | logout (same in both variants): Undertime exactly from 13:00 to before 17:00, counted to 17:00; Overtime exactly after 17:00; On Time before 13:00 or at 17:00 sharp |
| Shift.ActivityLoginRules | app/Acculog/components/Activity/Table.tsx:81-95 | activity login: Late exactly after 08:00 and before 13:00, Halfday from 13:00 on, On Time up to 08:00 |
| Shift.VariantsAgree | app/Acculog/components/Activity/Table.tsx:81-95 | the two classifiers differ only for logins from 14:00 to 23:00, which the timekeeping views call Invalid and the activity table calls Halfday |
| Shift.TimekeepingLabelRoundTrip | app/Acculog/components/Timekeeping/Table.tsx:96-121 | every timekeeping remark text reads back to its remark, with the duration truncated to whole seconds |
| Shift.ActivityLabelRoundTrip | app/Acculog/components/Activity/Table.tsx:85-121 | every activity remark text ("Late by …", "Undertime by …", "OT +…") reads back to its remark, to whole seconds |
| Shift.TimekeepingLabelSame | app/Acculog/components/Timekeeping/Table.tsx:96-121 | two remarks render the same text exactly when they agree to the second |
| Shift.BadgeOfRemark | app/Acculog/components/Activity/Table.tsx:134-139 | the badge of a rendered remark is green for On Time, yellow for Late, blue for Overtime, grey otherwise |
| Shift.BucketOfLabel | app/Acculog/components/Timekeeping/Table.tsx:175-190 | the prefix chain over a remark's text picks exactly the column of that remark's kind |
| Shift.ShiftByDays | app/Acculog/components/Timekeeping/Table.tsx:159-167 | moving an instant by n days keeps its time of day and moves its day by n, so same-day 08:00/17:00/14:00 references are well defined |
| Durations.SplitsAgree | app/Acculog/components/Activity/Table.tsx:40-52 | splitting milliseconds directly and splitting whole seconds give the same hours, minutes and seconds, with minutes and seconds below 60 |
| Durations.FormatDurationRoundTrip | app/Acculog/components/Timekeeping/Table.tsx:56-61 | the three-part text parses back to the duration's whole seconds |
| Durations.CompactDurationRoundTrip | app/Acculog/components/Activity/Table.tsx:40-52 | the compact text parses back to the duration's whole seconds, "0s" included |
| Durations.FormatDurationSameText | app/Acculog/components/Timekeeping/Table.tsx:56-61 | two durations render the same text exactly when they have the same whole seconds |
| Durations.CompactDurationZero | app/Acculog/components/Activity/Table.tsx:49-51 | the compact text is never empty, and it is "0s" exactly for durations under one second |
| Durations.CompactDurationParts | app/Acculog/components/Activity/Table.tsx:45-48 | an hours, minutes or seconds part appears exactly when that part is non-zero |
| CardTable.RowTotals | app/Acculog/components/Timekeeping/Tab/CardTable.tsx:86-117 | the loop's four totals are the sums of each log's late, overtime, undertime and invalid remark durations, and the late-day count is the number of distinct days with a late login |
| CardTable.LogAmounts | app/Acculog/components/Timekeeping/Tab/CardTable.tsx:105-114 | the duration recomputed from a log's time equals the duration in its remark, for whichever total its text's prefix selects |
| CardTable.OneTotalPerLog | app/Acculog/components/Timekeeping/Tab/CardTable.tsx:105-114 | a log feeds at most one total, and a halfday login feeds none |
| CardTable.LateDaysAtMostLateLogs | app/Acculog/components/Timekeeping/Tab/CardTable.tsx:90-117 | distinct late days never exceed the number of late logs |
| CardTable.LateIsDated | app/Acculog/components/Timekeeping/Tab/CardTable.tsx:107 | a late log always has a date, so its day key exists |
| CardTable.DaysCellMeaning | app/Acculog/components/Timekeeping/Tab/CardTable.tsx:128-130 | the days cell is "-" exactly for zero, starts with a count that reads back, and carries "(For Memo)" exactly from six days on |
| CardTable.TotalCellRoundTrip | app/Acculog/components/Timekeeping/Tab/CardTable.tsx:124-127 | a total cell reads back to its total to the second, and shows "-" exactly for a zero total |
| LogModal.ModalTotals | app/Acculog/components/Timekeeping/Modal/Log.tsx:21-40 | nothing is shown exactly when the modal is closed or the user has no logs; otherwise the totals are the sums of the modal's per-log late and overtime |
| LogModal.ModalLateAgainstTable | app/Acculog/components/Timekeeping/Modal/Log.tsx:35-36 | the modal's late time agrees with the table's on late logins, and exceeds it exactly on logins the table calls Halfday or Invalid |
| LogModal.ModalOvertimeAgainstTable | app/Acculog/components/Timekeeping/Modal/Log.tsx:37-38 | the modal's overtime is the table's less its first half hour |
| LogModal.OneModalTotalPerLog | app/Acculog/components/Timekeeping/Modal/Log.tsx:35-38 | a log adds to at most one of the modal's totals |
| LogModal.ModalTotalsAgainstTable | app/Acculog/components/Timekeeping/Modal/Log.tsx:26-40 | over any logs, the modal shows at least the table's late time and at most its overtime |
| Records.OldestFirst | app/Acculog/components/Timekeeping/Modal/Log.tsx:80-85 | the modal's list is a permutation of the logs in ascending time |
| Records.NewestFirst | app/Acculog/Attendance/Activity/ActivityLogs/page.tsx:180-181 | the lists sorted newest first are permutations of their input in descending time |
| ExcelExport.RowOf | app/Acculog/components/Timekeeping/Table.tsx:153-204 | each exported row fills at most one of the five columns, and it is the column of the log's remark holding the remark's duration ("Yes" for halfday) |
| ExcelExport.TotalsAgreeWithTable | app/Acculog/components/Timekeeping/Table.tsx:146-190 | the export's running totals equal the table view's totals for the same logs, and the halfday total counts the halfday logins |
| ExcelExport.TotalRowsMeaning | app/Acculog/components/Timekeeping/Table.tsx:206-213 | the totals block has one row per non-zero total, each label at most once |
| ExcelExport.TotalRowValues | app/Acculog/components/Timekeeping/Table.tsx:208-211 | each row sits at the position its non-zero predecessors give it; the late, overtime, undertime and invalid values read back to their totals to the second, and the halfday value reads back to the halfday count |
| ExcelExport.TotalRowLabels | app/Acculog/components/Timekeeping/Table.tsx:206-213 | the labels appear in the fixed order Late, Overtime, Undertime, Halfday, Invalid, each only when its total is non-zero |
| DayRange.WithinByDay | app/Acculog/Attendance/Dashboard/page.tsx:149-158 | the "before the day after the end" test keeps exactly the logs whose day lies within the range |
| DayRange.ToLastSecondByDay | app/Acculog/components/Timekeeping/Table.tsx:255-263 | the "up to 23:59:59 of the end day" test keeps the days within the range, but on the end day only up to its last whole second |
| DayRange.RulesDiffer | app/Acculog/components/Timekeeping/Table.tsx:255-263 | the two end-of-range rules differ exactly on end-day logs in the last second before midnight |
| DayRange.UndatedWithin | app/Acculog/Attendance/Dashboard/page.tsx:157-158 | an undated log passes a date filter exactly when neither bound is set |
| TimekeepingTable.FilterByDate | app/Acculog/components/Timekeeping/Table.tsx:255-263 | a dated log is kept exactly when its day is in the range (the end day up to 23:59:59); an undated one exactly when no bound is set; the result is a sub-multiset of the logs, so nothing is added or repeated |
| TimekeepingTable.FilterByDateKeepsOrder | app/Acculog/components/Timekeeping/Table.tsx:259-262 | the date filter distributes over concatenation, so the kept logs stay in their original order |
| TimekeepingTable.NoRangeKeepsAll | app/Acculog/components/Timekeeping/Table.tsx:258-259 | with no dates chosen every log is kept, in order |
| TimekeepingTable.FilteredData | app/Acculog/components/Timekeeping/Table.tsx:266-284 | a user is shown exactly when the search matches the full name or email, the department matches or is "All", and some log lies in the date range |
| TimekeepingTable.NoFiltersShowEveryone | app/Acculog/components/Timekeeping/Table.tsx:266-284 | with no search, all departments and no dates, every user is shown in order |
| TimekeepingTable.SearchIgnoresCase | app/Acculog/components/Timekeeping/Table.tsx:269-274 | lower-casing the search changes nothing |
| TimekeepingTable.DepartmentNarrows | app/Acculog/components/Timekeeping/Table.tsx:276-278 | choosing a department only removes users, and keeps only users of that department |
| TimekeepingTable.ShownHaveLogsInRange | app/Acculog/components/Timekeeping/Table.tsx:279-283 | every user shown has at least one log inside the date range |
| TimekeepingTable.Departments | app/Acculog/components/Timekeeping/Table.tsx:287-290 | the choices are "All" followed by every department occurring in a log, each once, in the order of its first occurrence among all logs |
| TimekeepingPage.FindUser | app/Acculog/Attendance/Activity/Timekeeping/page.tsx:118 | the user found is the first with the log's email; none exactly when no user has it |
| TimekeepingPage.WithUserInfo | app/Acculog/Attendance/Activity/Timekeeping/page.tsx:117-126 | only name, department and picture change; name and department take the user's value when it is non-empty and keep the log's otherwise; the picture is the user's non-empty picture, else "/fluxx.png", and never the log's own |
| TimekeepingPage.PostsWithUserInfo | app/Acculog/Attendance/Activity/Timekeeping/page.tsx:117-126 | one enriched log per log, in the same order |
| TimekeepingPage.VisiblePosts | app/Acculog/Attendance/Activity/Timekeeping/page.tsx:129-132 | privileged viewers see every log; others exactly their own |
| TimekeepingPage.GroupedByEmailMeaning | app/Acculog/Attendance/Activity/Timekeeping/page.tsx:135-139 | one non-empty group per email, holding exactly that email's visible logs in their order, and every visible log is in its email's group |
| ActivityLogs.Visible | app/Acculog/Attendance/Activity/ActivityLogs/page.tsx:146-157 | privileged viewers see everything; others exactly the logs whose either reference field is theirs |
| ActivityLogs.FilteredAccounts | app/Acculog/Attendance/Activity/ActivityLogs/page.tsx:160-181 | the list is a permutation of the visible logs matching search, type and date, newest first |
| ActivityLogs.FilteredAccountsMembers | app/Acculog/Attendance/Activity/ActivityLogs/page.tsx:146-181 | a log is listed exactly when it is visible to the viewer and matches the query |
| ActivityLogs.EmptyQueryKeepsAll | app/Acculog/Attendance/Activity/ActivityLogs/page.tsx:160-178 | an empty search, no type and no dates match every log |
| ActivityLogs.DateFilterByDay | app/Acculog/Attendance/Activity/ActivityLogs/page.tsx:170-177 | for a dated log the date filter keeps exactly the days from the start day through the end day |
| ActivityLogs.TotalPages | app/Acculog/Attendance/Activity/ActivityLogs/page.tsx:187-188 | the page count is the least number of pages that hold every item, zero exactly for no items |
| ActivityLogs.PageContents | app/Acculog/Attendance/Activity/ActivityLogs/page.tsx:188-192 | every page in range is non-empty, all but the last are full, and page p holds the items from (p-1)·size on, in order |
| ActivityLogs.PageAt | app/Acculog/Attendance/Activity/ActivityLogs/page.tsx:188-192 | every item appears on the page its index puts it on |
| ActivityLogs.PageOutside | app/Acculog/Attendance/Activity/ActivityLogs/page.tsx:188-192 | a page past the last, or page 0, is empty |
| ActivityLogs.GoToPage | app/Acculog/Attendance/Activity/ActivityLogs/page.tsx:195-199 | the page stays within 1..total when there are pages, and a page already in range is kept |
| Dashboard.FilteredAccounts | app/Acculog/Attendance/Dashboard/page.tsx:149-170 | the list is a permutation of the visible logs inside the date range, newest first |
| Dashboard.NoRangeVisibility | app/Acculog/Attendance/Dashboard/page.tsx:152-164 | with no dates the list holds exactly the viewer's visible logs |
| Dashboard.DayCountsMeaning | app/Acculog/Attendance/Dashboard/page.tsx:173-181 | the count record has one entry per day with a dated log, holding that day's number of logs; undated logs are skipped |
| Dashboard.ChartDataMeaning | app/Acculog/Attendance/Dashboard/page.tsx:173-182 | the chart lists every day with a dated log once, in strictly ascending order, with that day's count |
| Dashboard.ChartDataTotal | app/Acculog/Attendance/Dashboard/page.tsx:173-182 | the chart's counts add up to the number of dated logs |
| Calendar.PrevNextInverse | app/Acculog/components/Timekeeping/Modal/Calendar.tsx:65-71 | the previous and next month buttons undo each other, across year ends too |
| Calendar.DaysInMonthAgrees | app/Acculog/components/Timekeeping/Modal/Calendar.tsx:43 | the day 0 of the next month trick gives exactly the days between the first of this month and the first of the next |
| Calendar.MarchYearLength | app/Acculog/components/Timekeeping/Modal/Calendar.tsx:42-43 | the Gregorian year from March to March has 366 days exactly in leap years |
| Calendar.DaysArray | app/Acculog/components/Timekeeping/Modal/Calendar.tsx:45-47 | the grid has one blank per weekday before the first, then one cell per day of the month |
| Calendar.DaysArrayMeaning | app/Acculog/components/Timekeeping/Modal/Calendar.tsx:42-47 | the leading cells are blank, day d sits in cell firstDay + d − 1, and that cell's column is day d's weekday |
| Calendar.Grouped | app/Acculog/components/Timekeeping/Modal/Calendar.tsx:34-39 | the grouping fails exactly when some log is undated (its day key cannot be formed) |
| Calendar.CellLogs | app/Acculog/components/Timekeeping/Modal/Calendar.tsx:89-90 | a day cell shows exactly the logs of that day, in order |
| MapChart.VisitOf | app/Acculog/components/Chart/MapChart.tsx:106-113 | a history entry never has an empty type, status or email ("Unknown" stands in) and keeps the log's non-empty values |
| MapChart.LocMapIsGroupSummary | app/Acculog/components/Chart/MapChart.tsx:96-136 | the fold over the logs equals grouping the logs with usable coordinates by key, in order of first appearance, and summarising each group (count, first name, last type and status, history) |
| MapChart.SummarySnoc | app/Acculog/components/Chart/MapChart.tsx:115-124 | adding a log to a location's group changes its summary exactly as the code's update does |
| MapChart.LocationsMeaning | app/Acculog/components/Chart/MapChart.tsx:96-138 | each location's count equals its history's length and is positive, keys are distinct, and the counts add up to the number of placed logs |
| MapChart.CenterIsFirstPlaced | app/Acculog/components/Chart/MapChart.tsx:96-144 | the map centres on the first log with usable coordinates, at that log's own unrounded coordinates, and on the office when no log has them |
| SidebarListing.Filtered | app/Acculog/components/Chart/SidebarListing.tsx:35-42 | a blank query lists every location; otherwise exactly those whose name or coordinates contain the lower-cased query |
| SidebarListing.FilteredIgnoresCase | app/Acculog/components/Chart/SidebarListing.tsx:37-41 | lower-casing the query changes nothing |
| SidebarListing.FilteredKeepsOrder | app/Acculog/components/Chart/SidebarListing.tsx:35-42 | filtering a concatenation filters each part, so the order is kept |
| SidebarListing.HistoryByTypeMeaning | app/Acculog/components/Chart/SidebarListing.tsx:63-69 | one heading per type, each with exactly that type's visits in order, and no visit lost or repeated |
| Camera.DevicesFoundThenFlip | app/Acculog/components/Activity/Camera.tsx:42-65 | with two or more distinct cameras found, the first is selected and the first flip selects the second |
| Camera.Flip | app/Acculog/components/Activity/Camera.tsx:60-65 | with two or more cameras the next one in the list (wrapping) is selected; otherwise nothing changes |
| Camera.FlipAdvances | app/Acculog/components/Activity/Camera.tsx:60-65 | with distinct device ids, flipping moves the selection forward by exactly one position, cyclically |
| Camera.Tap | app/Acculog/components/Activity/Camera.tsx:67-72 | a tap starts the four-second countdown only when there is no photo and no countdown |
| Camera.Tick | app/Acculog/components/Activity/Camera.tsx:74-85 | each second lowers the countdown by one; a frame is captured exactly when it reaches zero with a frame available |
| Camera.TapThenFourSeconds | app/Acculog/components/Activity/Camera.tsx:10-101 | a tap followed by four seconds captures the frame at the fourth second and not before |
| Camera.RetakeThenCapture | app/Acculog/components/Activity/Camera.tsx:67-112 | after a retake, a tap and four seconds capture the new frame at the fourth second, on the same device |
| Camera.InvPreserved | app/Acculog/components/Activity/Camera.tsx:42-112 | a photo is held only with the countdown at zero: true at the start, and kept by finding devices, flipping, tapping, each second and retaking |
| Camera.ReachableImageBlocks | app/Acculog/components/Activity/Camera.tsx:67-85 | in every reachable state with a photo, taps and seconds change nothing |
| Camera.TicksKeepDevice | app/Acculog/components/Activity/Camera.tsx:74-85 | seconds passing never change the device list or the selection |
| Camera.ImageBlocksCapture | app/Acculog/components/Activity/Camera.tsx:67-85 | once a photo is taken, taps and ticks change nothing |
| Toggles.Toggle | app/Acculog/Attendance/Activity/Timekeeping/page.tsx:141-143 | exactly the tapped entry flips; every other entry is kept |
| Toggles.ToggleTwice | app/Acculog/components/Sidebar/Sidebar.tsx:97-98 | toggling the same entry twice restores what is open |
| Toggles.TogglesCommute | app/Acculog/components/Chart/SidebarListing.tsx:92 | toggling two different entries gives the same result in either order |
| Sidebar.IdQuery | app/Acculog/components/Sidebar/Sidebar.tsx:110 | the query suffix is empty exactly when there is no user id, else "?id=" with the encoded id |
| Sidebar.Restrict | app/Acculog/components/Sidebar/Sidebar.tsx:121-129 | the role filter keeps every section and removes only the sub-items the viewer may not see |
| Sidebar.MenuItemsMeaning | app/Acculog/components/Sidebar/Sidebar.tsx:101-130 | one Activities section; Activity Logs always and Timekeeping exactly for Super Admins and Human Resources; every link ends in the id query |
| Sidebar.IdQueryRoundTrip | app/Acculog/components/Sidebar/Sidebar.tsx:110-115 | the encoded id decodes back to the id's UTF-8 bytes and holds no character that could end or split the query value |
| Uri.EncodeRoundTrip | app/Acculog/components/Sidebar/Sidebar.tsx:150 | percent-decoding an encoded string gives its UTF-8 bytes |
| Uri.EncodeSafe | app/Acculog/components/Sidebar/Sidebar.tsx:150 | the encoding holds only unreserved characters and '%', and it leaves a string unchanged exactly when every character is unreserved |
| Uri.EncodeLength | app/Acculog/components/Sidebar/Sidebar.tsx:150 | encoding never shortens a string, and keeps its length only when nothing needed escaping |
| Uri.Utf8 | app/Acculog/components/Sidebar/Sidebar.tsx:150 | a character encodes to one to four bytes, one exactly for ASCII, with the lead and continuation byte ranges of UTF-8 |
| Form.RequestFor | app/Acculog/components/Activity/Form.tsx:110-121 | an existing log is updated (PUT) and a new one added (POST); the body is the form fields with the place and the uploaded photo over them |
| Form.UrlNamesTheLog | app/Acculog/components/Activity/Form.tsx:110-113 | the URL tells the two requests apart and carries the id of the log it updates |
| Form.Fresh | app/Acculog/components/Activity/Form.tsx:131-143 | a reset form keeps the user's reference and email and clears everything else |
| Form.Submit | app/Acculog/components/Activity/Form.tsx:99-150 | no photo: a notice and nothing sent; a request goes out exactly when there is a photo and the upload returns without throwing; the form resets exactly after a successful save; uploading always ends false |
| Form.EnabledReachesUpload | app/Acculog/components/Activity/Form.tsx:243-251 | when the submit button is enabled the missing-photo branch cannot happen |
| Form.UploadWithoutUrlStillSaves | app/Acculog/components/Activity/Form.tsx:86-143 | an upload answered without a URL still sends the log, with an empty photo URL, and a successful save then reports success and resets the form |
| Form.SavedFormIsDisabled | app/Acculog/components/Activity/Form.tsx:131-149 | after a successful save the form cannot be submitted again until it is refilled |
| Text.TrimEmptyIffBlank | app/Acculog/components/Chart/SidebarListing.tsx:36 | trimming gives the empty string exactly for blank text |
| Text.ParseNatToString | app/Acculog/components/Timekeeping/Tab/CardTable.tsx:129 | a rendered count reads back to itself |
| Text.LowerIdempotent | app/Acculog/components/Timekeeping/Table.tsx:269-274 | lower-casing twice is lower-casing once |

## Left out

- Rendering, React state and effects are not modelled: markup, styles, dialogs, toasts, loading flags. Each operation is a function from the state it reads to the state it writes.
- The camera stream is not modelled: starting and stopping it, and drawing to the canvas. The captured frame is a parameter. The one-second timer is modelled as a `Tick` event.
- Network calls are not modelled: fetching logs and users, the save endpoints, the photo upload, geolocation and reverse geocoding. Their results are parameters. A failed user-list fetch shows up only as an empty list.
- The Excel and ZIP file building, the save-excel endpoint, and the sign-in endpoints are left out. They are I/O with no logic of the application's own. The model covers the rows and totals the export writes.
- The Sidebar's fetch of the user's details and its default values are left out (Sidebar.tsx:73-88). So is the alternative `SidebarMenuItems.tsx` menu, which is not part of this model.
- Floating-point coordinates are not modelled: their parsing, rounding to the `toFixed` key, and the map's distance computations. The key function and the coordinate display are parameters.
- Time zones and daylight saving are not modelled. Every day is 86 400 000 ms and every date is read as local time. The code mixes UTC and local time in these places:
  - The ISO (UTC) day keys are taken as local days. They are used by the calendar (Calendar.tsx:35, 89), the card table's late days (CardTable.tsx:107) and the dashboard chart (Dashboard/page.tsx:176).
  - The activity log and dashboard range bounds are UTC midnight. `new Date("YYYY-MM-DD")` is used at ActivityLogs/page.tsx:170-176 and Dashboard/page.tsx:150, 157. The model takes them as local midnight, so east of UTC the real range starts and ends some hours later in local time.
  - Only the timekeeping table's bounds are local (Timekeeping/Table.tsx:256-257 appends "T00:00:00" and "T23:59:59").
  - So DayRange.WithinByDay, DayRange.RulesDiffer, ActivityLogs.DateFilterByDay and Dashboard.DayCountsMeaning hold exactly only for a deployment whose local time is UTC.
- A present but unparseable date string is not modelled; only present or absent.
- Lower-casing is modelled for ASCII only. It is exact for the "login"/"logout" tests and approximate for search on non-ASCII names.
- Objects used as maps are read in insertion order. JavaScript lists integer-like keys (such as "42") first, but none of the keys here look like that: the email keys of the timekeeping table (Timekeeping/Table.tsx:252, 266), the activity-type keys of the sidebar history (SidebarListing.tsx:105) and the dashboard's date keys. The dashboard's count record is keyed by `"YYYY-MM-DD"` date strings, which `Object.entries` returns in insertion order. The chart then sorts them by date (Dashboard/page.tsx:182). The model sorts by day number, which gives the same order as sorting those strings for years 0 to 9999.
- A missing `Type` or `Status` is modelled as the empty string. The activity search therefore keeps a log with neither field when the search is empty, where the code's `undefined?.toLowerCase()` drops it. Elsewhere the code throws on a missing `Status`; the lines for Shift.KindOf and the remarks below say where. The dashboard's default "today" date range is an initial value and is not modelled.
- Badge colours are named (green, yellow, blue, grey) rather than given as CSS classes.
- Records.OldestFirst: states a sorted permutation, not that equal times keep their input order (stability of `Array.prototype.sort`).
- Records.NewestFirst: same as OldestFirst. Undated logs are sorted as if dated at the epoch, whereas the code subtracts NaN there and its order is engine-defined.
- TimekeepingTable.FilteredData: requires every group to be non-empty. This holds for the groups the page builds (TimekeepingPage.GroupedByEmailMeaning), while the code would fail on an empty one.
- Shift.TimekeepingLabelRoundTrip: the rendered text keeps only whole seconds, so the round trip recovers the remark only up to whole seconds.
- Shift.ActivityLabelRoundTrip: only up to whole seconds, as above.
- CardTable.TotalCellRoundTrip: only up to whole seconds, as above.
- Shift.KindOf: a log without `Status` is neither a login nor a logout here, whereas the code calls `log.Status.toLowerCase()` without `?.` and throws a TypeError (Timekeeping/Table.tsx:93, 111; Activity/Table.tsx:81, 97; Log.tsx:35, 37, 88, 90). Such a log would crash the table or the modal.
- Shift.TimekeepingRemark, Shift.ActivityRemark, Shift.ActivityLogRemark, Shift.LogRemark: a log without `Status` reads "-" here, where the code throws, as for Shift.KindOf.
- CardTable.RowTotals, LogModal.ModalTotals: a log without `Status` adds nothing to the totals here, where the code throws, as for Shift.KindOf.
- Calendar.PrevNextInverse, Calendar.DaysArray: use the true year. `new Date(year, month, day)` reads a year from 0 to 99 as 1900 + year, so after some 23 000 clicks back the code would show those years' months as the twentieth century's.
- Calendar.Grouped: models the throw on an undated log as no calendar at all (None) rather than a crashed component.
