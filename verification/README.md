# Payroll frontend decision core, in Dafny

This project models the pure decision logic inside the browser frontend of a
small payroll and HR application: an employee directory, salary slips,
attendance and leave requests. The frontend's page scripts fetch a REST
backend and fill DOM tables. The procedures modelled here sit inside that
glue and can be stated exactly.

- **Page access** (`access_control.dfy`, module `AccessControl`). From the
  URL path and the outcome of the `check-auth` request, each copy of
  `auth.js` decides to redirect, let the page proceed, or do nothing. The
  three copies are kept as three functions:
  - the top-level `auth.js`;
  - `jnaneshFrontend/auth.js`;
  - the login-only `checkLoginStatus` of `frontend/auth.js`.

  The inline gate of `frontend/attendance.js` is a fourth function.
- **Amount in words** (`amount_words.dfy`, module `AmountWords`). This is
  `toWords` of `frontend/slip.js`: Indian numbering (crore, lakh, thousand,
  hundred) with an optional paise clause. Money is a natural number of
  paise. The spelling is modelled on strings, as the source builds it,
  including its `trim`. An independent token-level reading is proved to
  agree with it, and reading the tokens back gives the amount.
- **Salary slip** (`payslip.dfy`, module `Payslip`). The `salary_id` guard,
  the earnings and deductions totals, and the way the slip endpoint's
  answer becomes a screen.
- **Attendance page** (`attendance_page.dfy`, module `AttendancePage`). The
  `employee_id` guard and the month the attendance form posts.
- **Leave requests** (`leave_requests.dfy`, module `LeaveRequests`). The
  dashboard's leave form check, the status label and badges, the
  `formatMonthYear` string guard and the attendance-row defaults.
- **Leave administration** (`leave_admin.dfy`, module `LeaveAdmin`). The
  `formatDate` guard, the table rows and their Approve/Deny rule, the
  filter state, and what an action click sends and restores.
- **Employee administration** (`employee_admin.dfy`, module
  `EmployeeAdmin`). The helpers of `jnaneshFrontend/scripts.js`, its twin
  `jnaneshFrontend/script.js` and the older `frontend/scripts.js`, with the
  copy as a parameter:
  - department counts for the chart;
  - chart creation;
  - add and edit form checks;
  - the edit dialog's prefill and user-link dropdown;
  - department filter population;
  - the delete confirmation dialog.
- **JavaScript text semantics** (`js_text.dfy`, module `JsText`). Shared
  value-level helpers:
  - null-or-absent fields and string truthiness;
  - `||` and `??`;
  - ASCII case mapping, `trim`, `split`, `pop`, `substring`;
  - the `<` comparison on strings;
  - decimal digit strings.

The backend's answers are inputs, never calls. A `check-auth` outcome is a
network error or a status with an optional parsed body. A list or record
endpoint's answer is a datatype of its own.

## Model

| member | source | states |
|---|---|---|
| JsText.OrElse | jnaneshFrontend/leave_admin.js:60 | `s \|\| d` on a string field is the field when it is non-empty, else the default |
| JsText.Lower | jnaneshFrontend/my_dashboard.js:91 | lower-casing keeps the length and maps every character to its lower-case form |
| JsText.LowerIdempotent | jnaneshFrontend/leave_admin.js:60 | lower-casing twice is lower-casing once |
| JsText.CapitalizeFirst | frontend/slip.js:139 | the first character is upper-cased and the rest is unchanged |
| JsText.Split | jnaneshFrontend/leave_admin.js:51 | `split` gives at least one part, and no part contains the separator |
| JsText.JoinSplit | jnaneshFrontend/leave_admin.js:51 | joining the parts of a split with the separator gives the string back |
| JsText.SplitLength | jnaneshFrontend/my_dashboard.js:77-78 | a split has one part more than the separator occurrences |
| JsText.LastPart | auth.js:9 | `split('/').pop()` is a suffix without `/`, preceded by `/` unless it is the whole path |
| JsText.LastPartIsSuffix | auth.js:9 | the last part of a split is the text after the last separator |
| JsText.Take | jnaneshFrontend/my_dashboard.js:323-324 | `substring(0, n)` is the first `n` characters, or the whole string when shorter |
| JsText.Before | jnaneshFrontend/scripts.js:450 | `split(c)[0]` is the longest prefix without `c`, ending at the first `c` or the end |
| JsText.BeforeIsFirstPart | jnaneshFrontend/scripts.js:450 | the prefix before the first `c` is the first part of the split |
| JsText.LessTrichotomy | jnaneshFrontend/my_dashboard.js:317 | for any two strings exactly one of `a < b`, `a == b`, `b < a` holds |
| JsText.LessCommonPrefix | jnaneshFrontend/my_dashboard.js:317 | a shared prefix does not change the string comparison |
| JsText.LessDigits | jnaneshFrontend/my_dashboard.js:317 | on digit strings of equal length the string order is the numeric order |
| JsText.DecimalText | jnaneshFrontend/leave_admin.js:107 | a number converts to a non-empty string of decimal digits |
| JsText.DecimalRoundTrip | jnaneshFrontend/leave_admin.js:107 | reading back the decimal text of a number gives the number |
| AccessControl.PageOf | auth.js:9 | the page is never empty and has no `/`; it is the last path segment, or `index.html` when the path ends in `/` |
| AccessControl.PageIsLastSegment | auth.js:9-10 | the page is the last segment when non-empty and `index.html` otherwise; examples for `/` and a nested path |
| AccessControl.FailClosed | auth.js:20-29 | a failure redirects to `login.html` exactly when not on the login page, and otherwise does nothing |
| AccessControl.RootDecide | auth.js:7-104 | redirects go only to login, index or dashboard and never to the current page; nothing happens exactly on the login page without a session; proceeding needs a session and shows its username |
| AccessControl.RootRoleDecision | auth.js:56-93 | for a signed-in session it always acts; its redirects go to index or dashboard and never to the current page; proceeding shows the username |
| AccessControl.RootNotOk | auth.js:20-29 | a non-OK status fails closed in both newer controllers |
| AccessControl.RootNotLoggedIn | auth.js:35-44 | `logged_in` false fails closed in both newer controllers |
| AccessControl.RootThrown | auth.js:96-103 | a thrown fetch or an unparsable body fails closed |
| AccessControl.RootSignedInOnLogin | auth.js:58-66 | signed in on the login page: admin goes to `index.html`, every other role, unknown ones too, to `my_dashboard.html` |
| AccessControl.RootWrongRolePage | auth.js:68-80 | admin on the employee page goes to `index.html`; employee on an admin page goes to `my_dashboard.html` |
| AccessControl.RootProceeds | auth.js:82-93 | the slip page, unlisted pages and unknown roles off the login page proceed and show the username |
| AccessControl.JnaneshDecide | jnaneshFrontend/auth.js:5-88 | as written: a signed-in unknown role always redirects to `login.html`; proceeding needs a known role; nothing happens exactly on the login page without a session |
| AccessControl.KnownRoleDecision | jnaneshFrontend/auth.js:50-79 | for admin or employee: the login page sends to the role's home; it proceeds exactly off the login page and off the other role's pages; it never redirects to the current page |
| AccessControl.JnaneshPageClasses | jnaneshFrontend/auth.js:12-14 | admin proceeds exactly off login and the employee page; employee exactly off login and the five admin pages; the slip page is open to both |
| AccessControl.RootAndJnaneshAgree | jnaneshFrontend/auth.js:16-87 | the two controllers decide alike on every outcome except a signed-in unknown role |
| AccessControl.UnknownRoleDiverges | jnaneshFrontend/auth.js:44-48 | on an unknown role `auth.js` proceeds or sends to the dashboard while the other copy sends to login |
| AccessControl.JnaneshUnknownRoleReloadsLogin | jnaneshFrontend/auth.js:44-48 | an unknown role on `/login.html` redirects to the page already showing |
| AccessControl.JnaneshDecideFixed | jnaneshFrontend/auth.js:44-48 | corrected: never redirects to the current page; an unknown role fails closed; elsewhere it equals the as-written controller |
| AccessControl.CheckLoginStatus | frontend/auth.js:6-34 | never does nothing; redirects only to login; proceeds exactly when the status is not 401 and the parsed body is logged in, showing the username or `user` |
| AccessControl.LegacyGateIgnoresPageAndRole | frontend/auth.js:13-33 | 401 always redirects; a signed-in body always proceeds; an unparsable error body redirects |
| AccessControl.AttendanceGate | frontend/attendance.js:2-22 | never does nothing; proceeds exactly when the body parses and is logged in, showing the username |
| AccessControl.AttendanceGateIgnoresStatusAndRole | frontend/attendance.js:5-17 | the gate's decision does not depend on the status or the role |
| AttendancePage.StartPage | frontend/attendance.js:36-43 | the page goes back to `index.html` exactly when `employee_id` is missing or empty; otherwise it loads that id |
| AttendancePage.MonthPayload | frontend/attendance.js:107 | the payload is the form month followed by `-01`, and `null-01` when the field is missing |
| AttendancePage.MonthPayloadRoundTrip | frontend/attendance.js:107 | the month is recovered as the payload's prefix; the payload has one more `-` and one more split part |
| AmountWords.AddScale | frontend/slip.js:96-115 | a scale step leaves the remainder modulo the scale, and changes nothing when the count is zero |
| AmountWords.WordsOf | frontend/slip.js:93-129 | the token form of a number: well formed, and empty exactly for zero |
| AmountWords.ValueOfWords | frontend/slip.js:93-129 | reading the tokens of a number back gives the number |
| AmountWords.SpellRendersWords | frontend/slip.js:93-129 | the recursive string spelling equals the tokens joined by single spaces |
| AmountWords.RenderTidy | frontend/slip.js:128 | a rendered spelling is non-empty and neither starts nor ends with a space |
| AmountWords.SpellSmall | frontend/slip.js:116-127 | below a hundred the spelling is the single table word, or tens word `-` unit |
| AmountWords.SpellEmpty | frontend/slip.js:94 | the spelling is empty exactly for zero |
| AmountWords.Phrase | frontend/slip.js:131-137 | the phrase ends in ` only` |
| AmountWords.EndsInOnly | frontend/slip.js:137-139 | capitalising keeps the ` only` ending, so the text never equals `Number too large` |
| AmountWords.ToWords | frontend/slip.js:73-140 | null and zero give `Zero`; `Number too large` exactly above 999,999,999 rupees; every other amount ends in ` only` |
| AmountWords.ToWordsSpellsAmount | frontend/slip.js:131-139 | the text is the rupees' words (or `Zero`), ` and … paise` exactly when there are paise, then ` only`, first letter capitalised; the two word groups read back as the amount |
| Payslip.StartPage | frontend/slip.js:37-42 | an error and no fetch exactly when `salary_id` is missing or empty |
| Payslip.TextOrNA | frontend/slip.js:179-182 | a null text field shows `N/A`, any other value as is |
| Payslip.Amount | frontend/slip.js:185-187 | a null money field counts as 0 |
| Payslip.View | frontend/slip.js:176-207 | earnings are base + overtime + bonus; deductions are deductions + PF; net pay is `total_salary`; the words line is `(Rupees …)` around the amount in words |
| Payslip.ShowAnswer | frontend/slip.js:152-174 | the slip shows exactly for an OK status with a body; 401 gives the unauthorised screen; other errors show the body's `error`, else the status message; throws show their message; an OK status with a null body shows the empty-slip message |
| Payslip.NetPayIgnoresComponents | frontend/slip.js:205-207 | changing any component figure changes neither the net pay nor its words |
| Payslip.SlipExamples | frontend/slip.js:179-207 | examples: a slip whose earnings minus deductions differ from `total_salary` still shows `total_salary`; an all-null slip shows zeros, `N/A` and `(Rupees Zero)` |
| Payslip.NetPayWordsReadBack | frontend/slip.js:207 | the words line says too large above the limit, and otherwise reads back as the net pay |
| LeaveRequests.SubmitLeave | jnaneshFrontend/my_dashboard.js:317-340 | rejected with the order message exactly when end < start as strings; then rejected with the month message exactly when the first seven characters differ; posted unchanged otherwise |
| LeaveRequests.IsoLessIsDateOrder | jnaneshFrontend/my_dashboard.js:317 | on `YYYY-MM-DD` dates the string comparison is calendar order |
| LeaveRequests.IsoSubmitSameMonth | jnaneshFrontend/my_dashboard.js:317-329 | for ISO dates a request is posted exactly when both dates share year and month and the end day is not before the start day |
| LeaveRequests.StatusLabel | jnaneshFrontend/my_dashboard.js:91 | a missing or empty status reads `pending`; otherwise the lower-cased status |
| LeaveRequests.StatusBadge | jnaneshFrontend/leave_admin.js:59-68 | green exactly for `approved`, red exactly for `denied`, yellow otherwise, with the label as text |
| LeaveRequests.BadgeIgnoresCase | jnaneshFrontend/leave_admin.js:60 | the label and badge do not depend on the status's case |
| LeaveRequests.DashboardBadgeAsWritten | jnaneshFrontend/my_dashboard.js:90-99 | as written: unstyled exactly when the label is neither approved nor denied |
| LeaveRequests.DashboardBadge | jnaneshFrontend/my_dashboard.js:90-99 | corrected: the administration page's badge, yellow exactly for the third branch |
| LeaveRequests.DashboardBadgeDiffers | jnaneshFrontend/my_dashboard.js:96-98 | the two differ exactly on the third branch, e.g. a missing status |
| LeaveRequests.MonthYearGuard | jnaneshFrontend/my_dashboard.js:73-79 | `N/A` exactly for a missing or empty value; otherwise the first two `-` parts when there are two |
| LeaveRequests.MonthYearNeedsDash | jnaneshFrontend/my_dashboard.js:77-78 | a non-empty value is `Invalid Date` exactly when it has no `-` |
| LeaveRequests.AttendanceRowOf | jnaneshFrontend/my_dashboard.js:226-229 | missing day counts show as 0, present ones as is |
| LeaveAdmin.DateGuard | jnaneshFrontend/leave_admin.js:47-53 | `N/A` for a missing or empty value; a date only when the split has exactly three parts |
| LeaveAdmin.DateGuardNeedsTwoDashes | jnaneshFrontend/leave_admin.js:51-52 | a non-empty value passes exactly when it has two `-`, and its parts rejoin to the value |
| LeaveAdmin.RowOf | jnaneshFrontend/leave_admin.js:133-156 | buttons exactly when the status is present and lower-cases to `pending`, carrying the request id; `N/A` defaults; the admin badge |
| LeaveAdmin.ButtonsOnlyWhenPending | jnaneshFrontend/leave_admin.js:137-146 | buttons imply a yellow `pending` badge; a pending badge with a dash happens exactly for a missing status |
| LeaveAdmin.ShowList | jnaneshFrontend/leave_admin.js:87-128 | rows exactly for an OK non-empty list, one per request in order; the empty-filter text exactly for an OK empty or null list; 401/403 leaves the loading text |
| LeaveAdmin.RowsOf | jnaneshFrontend/leave_admin.js:130-157 | one row per request, in order |
| LeaveAdmin.Replay | jnaneshFrontend/leave_admin.js:17 | the first fetch of the page asks for `pending` |
| LeaveAdmin.FilterIsLastClick | jnaneshFrontend/leave_admin.js:177-178 | the current filter is always the last filter clicked, and each fetch after an event asks for it |
| LeaveAdmin.FetchExamples | jnaneshFrontend/leave_admin.js:87 | a failed action fetches nothing; a filter without `data-status` fetches `pending` |
| LeaveAdmin.OtherAction | jnaneshFrontend/leave_admin.js:198 | the other action is approved or denied, and never the clicked one |
| LeaveAdmin.OtherActionInvolutive | jnaneshFrontend/leave_admin.js:198-200 | on the two actions, the other of the other is the action itself |
| LeaveAdmin.Click | jnaneshFrontend/leave_admin.js:190-207 | the PUT goes to the request id with the clicked action as status; both buttons are disabled; the clicked one reads `...` and the other keeps its label |
| LeaveAdmin.RestoreAsWritten | jnaneshFrontend/leave_admin.js:231-234 | as written: both buttons re-enabled, the clicked label being the action with its first letter capitalised and the rest unchanged, the other button keeping its label |
| LeaveAdmin.Restore | jnaneshFrontend/leave_admin.js:231-234 | corrected: the restored labels are the ones the table drew |
| LeaveAdmin.RestoreLabels | jnaneshFrontend/leave_admin.js:232 | as written a failed Approve shows `Approved` and a failed Deny `Denied`, unlike the `Approve`/`Deny` captions the table markup draws; the corrected restore gives the drawn buttons back |
| EmployeeAdmin.DeptKey | jnaneshFrontend/scripts.js:265-269 | the newer copies never use an empty key and map missing or empty departments to `Unknown`; the older copy keys on the raw value, null as `null` |
| EmployeeAdmin.Bump | jnaneshFrontend/scripts.js:267 | counting a key keeps the keys, appending it when new |
| EmployeeAdmin.BumpCounts | jnaneshFrontend/scripts.js:267 | counting a key adds one to that key's count only, and one to the total |
| EmployeeAdmin.TallyCounts | jnaneshFrontend/scripts.js:265-269 | each count is the number of occurrences of its key; counts sum to the number of keys; keys are distinct, in first-occurrence order, and exactly the keys seen |
| EmployeeAdmin.DepartmentCountsSum | jnaneshFrontend/scripts.js:265-269 | counts sum to the number of employees; there is a key exactly when there are employees; the newer copies have no empty key |
| EmployeeAdmin.MissingDepartments | frontend/scripts.js:104-108 | null and empty departments share `Unknown` in the newer copies but are the separate keys `null` and empty in the older |
| EmployeeAdmin.RenderChart | jnaneshFrontend/scripts.js:252-333 | the drawn data are the counts. The newer copies draw exactly when there are employees and Chart.js does not throw; otherwise the canvas leaves the page. The twin copy throws exactly when the canvas is already gone and nothing is drawn. The canvas never comes back. The older copy draws for every list, keeps its canvas, and throws on a null list or a Chart.js failure |
| EmployeeAdmin.ChartOnlyWithEmployees | jnaneshFrontend/script.js:226-304 | while the canvas is in the page, the newer copies show a chart exactly when there are employees, with slices summing to them; the older always shows one |
| EmployeeAdmin.LoadChart | jnaneshFrontend/script.js:134-218 | an unauthorised answer changes nothing; a failed load is reported; in the newer copies an empty list or a failed load takes the canvas out of the page, a non-empty list drawn by Chart.js is shown and not reported, and an OK load on a page that still has its canvas is never reported; the older copy reports exactly a null list or a Chart.js failure |
| EmployeeAdmin.ChartGoneForGood | jnaneshFrontend/scripts.js:12 | once the canvas is out of the page, no run of later loads shows a chart |
| EmployeeAdmin.EmptyLoadHidesChartForever | jnaneshFrontend/scripts.js:327-331 | in the newer copies, after an empty or failed load no later load shows a chart |
| EmployeeAdmin.TwinReportsFailureOnEmptyList | jnaneshFrontend/script.js:300-303 | with the canvas gone, an OK empty answer ends in the twin copy's load-failure notification and in none for the current copy |
| EmployeeAdmin.RenderChartFixed | jnaneshFrontend/scripts.js:327-331 | with the message beside the canvas, the canvas stays in the page, nothing throws, and the chart is shown exactly when the canvas is in the page, there are employees and Chart.js draws them |
| EmployeeAdmin.FixedChartFollowsLastRender | jnaneshFrontend/scripts.js:327-331 | with the canvas kept, from page opening the chart is shown exactly when the last render had employees and was drawn |
| EmployeeAdmin.SubmitAdd | jnaneshFrontend/scripts.js:346-349 | the newer copies refuse, sending nothing, exactly when one of the five fields is empty; the older posts everything |
| EmployeeAdmin.SubmitEdit | jnaneshFrontend/scripts.js:531-543 | the same five-field check; the newer copies also send the selected `user_id` |
| EmployeeAdmin.AddAndEditAgree | jnaneshFrontend/script.js:318-321 | add and edit accept the same values; the link field plays no part; an empty link with filled fields is sent |
| EmployeeAdmin.JoiningDate | jnaneshFrontend/scripts.js:450 | newer copies: the first `T` part of a non-empty date, else empty; older copy: the first space part, and none for a null date |
| EmployeeAdmin.JoiningDateKeepsDay | frontend/scripts.js:190 | each cut keeps the day of a timestamp written with its own separator, and a bare date unchanged |
| EmployeeAdmin.Prefill | jnaneshFrontend/scripts.js:445-471 | null fields show empty and the date is cut; the link field is non-empty exactly when the linked id is truthy and the account has a name or is among the unlinked ones, and then it is the id in decimal; the older copy has no link and fails on a null date |
| EmployeeAdmin.PrefillIsSelection | jnaneshFrontend/scripts.js:454-471 | the prefilled link is the dropdown's selection: the assigned id when the dropdown offers it, blank otherwise |
| EmployeeAdmin.UnnamedLinkIsDropped | jnaneshFrontend/scripts.js:462-471 | an account linked by id 5 with no name and not listed prefills blank, and saving then sends `user_id: ''` |
| EmployeeAdmin.Dropdown | jnaneshFrontend/scripts.js:454-469 | `-- Unlinked --` with value `''` first, then the unlinked users in order, then the linked account exactly when it has an id and a name and is not listed |
| EmployeeAdmin.Selected | jnaneshFrontend/scripts.js:471 | the selection is the user id when truthy, otherwise `''` |
| EmployeeAdmin.DropdownNoDuplicates | jnaneshFrontend/scripts.js:463-468 | with distinct unlinked ids no value is offered twice |
| EmployeeAdmin.SelectedIsOffered | jnaneshFrontend/script.js:432-454 | the selection is offered unless a linked id has no name and is not listed |
| EmployeeAdmin.FilterAdditions | jnaneshFrontend/scripts.js:226-236 | nothing once the filter has more than one option; the newer copies add exactly the non-empty names of a present list; the older adds every name and throws on a null list |
| EmployeeAdmin.TruthyNames | jnaneshFrontend/script.js:198-208 | the names kept are exactly the non-empty ones |
| EmployeeAdmin.LegacyNames | frontend/scripts.js:85-92 | one option value per department, in order, a null one as `null` |
| EmployeeAdmin.PopulatedOnce | frontend/scripts.js:85 | after a population that added something, later loads add nothing and do not throw |
| EmployeeAdmin.DeleteStep | jnaneshFrontend/scripts.js:492-519 | a click stores the id and opens the dialog; Yes with a falsy id does nothing, else sends one DELETE then clears and closes; No closes, keeping the id only in `jnaneshFrontend/scripts.js` |
| EmployeeAdmin.OpenDialogHoldsLastClick | jnaneshFrontend/scripts.js:408 | while the dialog is open the pending id is the last clicked, so a confirmed DELETE targets that row |
| EmployeeAdmin.CancelKeepsId | jnaneshFrontend/scripts.js:591-596 | after Delete then No, `jnaneshFrontend/scripts.js` still holds the id and the other copies have cleared it |
| EmployeeAdmin.CopiesSendSameDeletes | frontend/scripts.js:231-254 | all copies send the same DELETEs and open the dialog alike; two copies agree on the whole state; the kept id matters only while closed |
| EmployeeAdmin.TwinsAgree | jnaneshFrontend/script.js:226-238 | the twin copies compute the same counts, chart area, form checks, prefill and filter; a load ends alike while the canvas is in the page; they differ on the cancel |

## Left out

- HTTP, cookies and `fetch`: each answer is an input datatype. Two requests
  are left out: the `setUsername` refetch of the leave page and the
  endpoints the forms post to.
- DOM work: class toggling, toasts and their timers, the search debounce,
  `window.print`, and the guards for missing page elements (the model
  assumes the elements exist). Hidden elements cannot be clicked, so a Yes
  or No on a closed dialog changes nothing.
- The fallback `confirm()` path of the newer copies' delete handler, taken
  only when the dialog's elements are missing.
- Chart.js drawing: only the counts that feed it, whether a chart exists, and whether Chart.js throws. That last one is a parameter.
- EmployeeAdmin.LoadChart: only the chart part of a load is composed. In the older copy, a throw from the table or filter step before the chart leaves the chart untouched, which a null list also does. A null department list, which `FilterAdditions` models, is not composed with the chart. The second throw in the twin copy's `catch` is an unhandled rejection, and its only effect is the state it leaves.
- `Intl.NumberFormat` currency text and the `Date` / `toLocaleDateString`
  parts of `formatDate` and `formatMonthYear`: only their string guards
  are modelled.
- The backend (`backend/app.py`, `backend/db.py`) and the pages named as
  render glue (login, salary, payroll, reports, the second attendance page,
  the older dashboard).
- AmountWords.ToWords: takes non-negative integer paise. `Number`,
  `toFixed(2)` and `Math.round` on floats, negative amounts and NaN inputs
  other than null are not modelled.
- JsText.Lower: ASCII case mapping only; full Unicode case mapping is not
  modelled.
- JsText.Less: compares Unicode scalar values, while JavaScript compares
  UTF-16 code units. The two differ only for characters outside the Basic
  Multilingual Plane.
- EmployeeAdmin.Tally: key order is insertion order. JavaScript lists
  integer-like keys first, and that order is not modelled. The counts
  object `{}` inherits the properties of `Object.prototype`. A department
  named after one of them (`constructor`, `toString`, `valueOf`,
  `__proto__` and the rest) does not get a count of 1 in the source, and
  `TallyCounts` and `DepartmentCountsSum` do not hold for such names. The
  model treats every name as an ordinary key.
- EmployeeAdmin.DeptKey: `None` stands for a JSON `null` department. A
  record without the field gives the key `undefined` in the older copy.
  That case is not modelled.
- EmployeeAdmin.Prefill: the hidden `employee_id` field is not carried,
  so the id the edit's PUT goes to is not modelled. Writing null into an
  input's value is read as the empty string in all copies.
- EmployeeAdmin.Dropdown: user ids are natural numbers, and the value `''`
  stands for the blank option.
- AccessControl.RootDecide: the username is shown after `DOMContentLoaded`.
  That deferral is not modelled.
- Concurrency between overlapping requests (for example two quick filter
  clicks answered out of order) is not modelled: each answer is processed
  in event order.

## Findings

| source | as written | input that shows it | evidently intended | confidence | as-written member | corrected member |
|---|---|---|---|---|---|---|
| jnaneshFrontend/auth.js:44-48 | a signed-in user whose role is neither admin nor employee is sent to `login.html` even from `login.html` | path `/login.html`, status 200, body `logged_in: true, role: "manager"` | fail closed like the other branches: no redirect on the login page | not executed; medium | AccessControl.JnaneshUnknownRoleReloadsLogin | AccessControl.JnaneshDecideFixed |
| jnaneshFrontend/my_dashboard.js:97 | the third badge branch writes `class"…"` without `=`, so the span has no class and is drawn unstyled | status `null` or `pending` | the yellow badge of the other two branches and of the administration page | not executed; high | LeaveRequests.DashboardBadgeDiffers | LeaveRequests.DashboardBadge |
| jnaneshFrontend/scripts.js:327-331 | with no department keys, or when Chart.js throws, the chart's parent is overwritten with a message, which removes the canvas the page holds a reference to; every later chart is drawn on a canvas that is not in the page, and `script.js:302` then throws on the missing parent | a search with no match, then a search that matches | show the message and draw later charts again: the canvas stays in the page | not executed; high | EmployeeAdmin.EmptyLoadHidesChartForever | EmployeeAdmin.RenderChartFixed |
| jnaneshFrontend/leave_admin.js:232 | a failed action relabels its button with the capitalised action (`Approved` / `Denied`) | a PUT that fails after clicking Approve | restore the label the table drew (`Approve` / `Deny`) | not executed; medium | LeaveAdmin.RestoreLabels | LeaveAdmin.Restore |
