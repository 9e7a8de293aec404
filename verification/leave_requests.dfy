/** The leave-request rules of the employee dashboard
    (`jnaneshFrontend/my_dashboard.js`): the client-side check of a new
    request, the status badge, the string guards of `formatMonthYear`, and
    the defaults of the attendance rows. The status label is shared with the
    leave administration page. */
module LeaveRequests {
  import opened JsText

  // ---------------------------------------------------------- the form

  const OrderMessage := "End date cannot be before start date."
  const MonthMessage := "Leave requests must be within the same month."

  /** What submitting the leave form does. */
  datatype FormResult = Rejected(message: string) | Post(startDate: string, endDate: string)

  /** The leave form's submit handler: the end date may not sort before the
      start date, and the first seven characters (`YYYY-MM`) must agree;
      only a request passing both is posted. */
  function SubmitLeave(startDate: string, endDate: string): (r: FormResult)
    ensures r == Rejected(OrderMessage) <==> Less(endDate, startDate)
    ensures r == Rejected(MonthMessage) <==> !Less(endDate, startDate) && Take(startDate, 7) != Take(endDate, 7)
    ensures r.Post? <==> !Less(endDate, startDate) && Take(startDate, 7) == Take(endDate, 7)
    ensures r.Post? ==> r == Post(startDate, endDate)
  {
    if Less(endDate, startDate) then Rejected(OrderMessage)
    else if Take(startDate, 7) != Take(endDate, 7) then Rejected(MonthMessage)
    else Post(startDate, endDate)
  }

  // ---------------------------------------------------------- ISO dates

  /** A `YYYY-MM-DD` date as the date inputs produce it. */
  predicate IsoDate(s: string) {
    |s| == 10 && s[4] == '-' && s[7] == '-'
    && IsDigits(s[..4]) && IsDigits(s[5..7]) && IsDigits(s[8..])
  }

  function Year(s: string): nat requires IsoDate(s) { DigitsValue(s[..4]) }
  function Month(s: string): nat requires IsoDate(s) { DigitsValue(s[5..7]) }
  function Day(s: string): nat requires IsoDate(s) { DigitsValue(s[8..]) }

  /** The calendar position of an ISO date: year, then month, then day. */
  function DateKey(s: string): nat
    requires IsoDate(s)
  {
    (Year(s) * 100 + Month(s)) * 100 + Day(s)
  }

  lemma IsoParts(s: string)
    requires IsoDate(s)
    ensures s == s[..4] + ([s[4]] + (s[5..7] + ([s[7]] + s[8..])))
    ensures Month(s) < 100 && Day(s) < 100
  {
    DigitsValueBound(s[5..7]);
    DigitsValueBound(s[8..]);
  }

  /** The key order: a smaller year wins, then a smaller month, then day. */
  lemma KeyOrder(y1: nat, m1: nat, d1: nat, y2: nat, m2: nat, d2: nat)
    requires m1 < 100 && d1 < 100 && m2 < 100 && d2 < 100
    ensures (y1 * 100 + m1) * 100 + d1 < (y2 * 100 + m2) * 100 + d2
            <==> y1 < y2 || (y1 == y2 && (m1 < m2 || (m1 == m2 && d1 < d2)))
  {
    if y1 < y2 {
      assert (y1 * 100 + m1) < (y2 * 100 + m2) by {
        assert y1 * 100 + 100 <= y2 * 100;
      }
      assert (y1 * 100 + m1) * 100 + 100 <= (y2 * 100 + m2) * 100;
    } else if y2 < y1 {
      assert (y2 * 100 + m2) < (y1 * 100 + m1) by {
        assert y2 * 100 + 100 <= y1 * 100;
      }
      assert (y2 * 100 + m2) * 100 + 100 <= (y1 * 100 + m1) * 100;
    } else if m1 != m2 {
      assert (y1 * 100 + m1) * 100 == y1 * 10000 + m1 * 100;
      assert (y2 * 100 + m2) * 100 == y2 * 10000 + m2 * 100;
    }
  }

  /** On ISO dates, the string comparison the form uses is calendar order. */
  lemma {:induction false} IsoLessIsDateOrder(a: string, b: string)
    requires IsoDate(a) && IsoDate(b)
    ensures Less(a, b) <==> DateKey(a) < DateKey(b)
  {
    IsoParts(a);
    IsoParts(b);
    var ya, am, ad := a[..4], a[5..7], a[8..];
    var yb, bm, bd := b[..4], b[5..7], b[8..];
    LessConcat(ya, [a[4]] + (am + ([a[7]] + ad)), yb, [b[4]] + (bm + ([b[7]] + bd)));
    LessCommonPrefix([a[4]], am + ([a[7]] + ad), bm + ([b[7]] + bd));
    LessConcat(am, [a[7]] + ad, bm, [b[7]] + bd);
    LessCommonPrefix([a[7]], ad, bd);
    LessDigits(ya, yb);
    LessDigits(am, bm);
    LessDigits(ad, bd);
    KeyOrder(Year(a), Month(a), Day(a), Year(b), Month(b), Day(b));
  }

  /** For ISO dates the form posts exactly the requests that stay inside one
      calendar month and do not end before they start. */
  lemma {:induction false} IsoSubmitSameMonth(startDate: string, endDate: string)
    requires IsoDate(startDate) && IsoDate(endDate)
    ensures SubmitLeave(startDate, endDate).Post? <==>
              Year(startDate) == Year(endDate) && Month(startDate) == Month(endDate)
              && Day(startDate) <= Day(endDate)
  {
    IsoLessIsDateOrder(endDate, startDate);
    IsoParts(startDate);
    IsoParts(endDate);
    var s7, e7 := startDate[..7], endDate[..7];
    assert Take(startDate, 7) == s7 && Take(endDate, 7) == e7;
    assert s7 == startDate[..4] + ([startDate[4]] + startDate[5..7]);
    assert e7 == endDate[..4] + ([endDate[4]] + endDate[5..7]);
    LessDigits(startDate[..4], endDate[..4]);
    LessDigits(startDate[5..7], endDate[5..7]);
    KeyOrder(Year(endDate), Month(endDate), Day(endDate), Year(startDate), Month(startDate), Day(startDate));
    if Year(startDate) == Year(endDate) && Month(startDate) == Month(endDate) {
      assert s7 == e7;
    }
  }

  // ------------------------------------------------------------ status

  /** `(status || 'pending').toLowerCase()`. */
  function StatusLabel(status: Option<string>): (text: string)
    ensures !Truthy(status) ==> text == "pending"
    ensures Truthy(status) ==> text == Lower(status.value)
  {
    Lower(OrElse(status, "pending"))
  }

  /** The colour a badge is drawn in; `Unstyled` is a span without a
      `class` attribute. */
  datatype Colour = Green | Red | Yellow | Unstyled

  datatype Badge = Badge(colour: Colour, text: string)

  /** The badge the leave administration page draws: green for approved,
      red for denied, yellow for anything else. */
  function StatusBadge(status: Option<string>): (b: Badge)
    ensures b.text == StatusLabel(status)
    ensures b.colour == Green <==> b.text == "approved"
    ensures b.colour == Red <==> b.text == "denied"
    ensures b.colour != Unstyled
  {
    var text := StatusLabel(status);
    if text == "approved" then Badge(Green, text)
    else if text == "denied" then Badge(Red, text)
    else Badge(Yellow, text)
  }

  /** The dashboard's `getStatusBadge` as written: its third branch writes
      `class"…"` for `class="…"`, so the browser sees no class attribute and
      the badge is drawn unstyled. */
  function DashboardBadgeAsWritten(status: Option<string>): (b: Badge)
    ensures b.text == StatusLabel(status)
    ensures b.colour == Unstyled <==> b.text != "approved" && b.text != "denied"
  {
    var text := StatusLabel(status);
    if text == "approved" then Badge(Green, text)
    else if text == "denied" then Badge(Red, text)
    else Badge(Unstyled, text)
  }

  /** With the attribute repaired the dashboard draws the administration
      page's badge. */
  function DashboardBadge(status: Option<string>): (b: Badge)
    ensures b == StatusBadge(status)
    ensures b.colour == Yellow <==> b.text != "approved" && b.text != "denied"
  {
    StatusBadge(status)
  }

  /** The two dashboard badges differ exactly on the third branch; a pending
      request, or one with no status, is the everyday case. */
  lemma DashboardBadgeDiffers(status: Option<string>)
    ensures DashboardBadgeAsWritten(status).text == DashboardBadge(status).text
    ensures DashboardBadgeAsWritten(status) != DashboardBadge(status)
            <==> StatusLabel(status) != "approved" && StatusLabel(status) != "denied"
    ensures DashboardBadgeAsWritten(None) == Badge(Unstyled, "pending")
    ensures DashboardBadge(None) == Badge(Yellow, "pending")
  {
  }

  /** The label ignores case and the badge depends on the label only. */
  lemma BadgeIgnoresCase(status: string)
    ensures StatusLabel(Some(Lower(status))) == StatusLabel(Some(status))
    ensures StatusBadge(Some(Lower(status))) == StatusBadge(Some(status))
  {
    LowerIdempotent(status);
  }

  // ---------------------------------------------------- formatMonthYear

  /** The string part of `formatMonthYear`: `N/A` for an empty value,
      `Invalid Date` when there is no `-`, otherwise the first two parts go
      on to the date formatter (not modelled). */
  datatype MonthYear = MonthNA | InvalidDate | MonthOf(year: string, month: string)

  function MonthYearGuard(value: Option<string>): (r: MonthYear)
    ensures r == MonthNA <==> !Truthy(value)
    ensures r.MonthOf? ==> var parts := Split(value.value, '-');
                           |parts| >= 2 && r.year == parts[0] && r.month == parts[1]
  {
    if !Truthy(value) then MonthNA
    else
      var parts := Split(value.value, '-');
      if |parts| < 2 then InvalidDate else MonthOf(parts[0], parts[1])
  }

  /** A non-empty value is formatted exactly when it holds a `-`; a stored
      ISO date gives its year and month. */
  lemma MonthYearNeedsDash(value: string)
    requires value != ""
    ensures MonthYearGuard(Some(value)) == InvalidDate <==> Count(value, '-') == 0
  {
    SplitLength(value, '-');
  }

  // ------------------------------------------------- attendance rows

  /** A row of the employee's attendance history: missing day counts are
      shown as 0. */
  datatype AttendanceRow = AttendanceRow(month: MonthYear, daysPresent: nat, leavesTaken: nat)

  function AttendanceRowOf(month: Option<string>, daysPresent: Option<nat>, leavesTaken: Option<nat>): (r: AttendanceRow)
    ensures daysPresent.None? ==> r.daysPresent == 0
    ensures leavesTaken.None? ==> r.leavesTaken == 0
    ensures daysPresent.Some? ==> r.daysPresent == daysPresent.value
    ensures leavesTaken.Some? ==> r.leavesTaken == leavesTaken.value
    ensures r.month == MonthYearGuard(month)
  {
    AttendanceRow(MonthYearGuard(month), daysPresent.GetOr(0), leavesTaken.GetOr(0))
  }
}
