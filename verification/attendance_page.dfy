/** The attendance page of `frontend/attendance.js` after its gate: the
    `employee_id` guard and the month the attendance form submits. */
module AttendancePage {
  import opened JsText

  datatype Start = BackToIndex | LoadEmployee(employeeId: string)

  const IndexPage := "index.html"

  /** The `employee_id` query parameter guard: without a non-empty id the
      page goes back to the dashboard and loads nothing. */
  function StartPage(employeeId: Option<string>): (s: Start)
    ensures s == BackToIndex <==> !Truthy(employeeId)
    ensures s.LoadEmployee? ==> employeeId == Some(s.employeeId) && s.employeeId != ""
  {
    if Truthy(employeeId) then LoadEmployee(employeeId.value) else BackToIndex
  }

  /** `formData.get('month') + '-01'`; a missing field concatenates as the
      text `null`. */
  function MonthPayload(month: Option<string>): (p: string)
    ensures month.Some? ==> |p| == |month.value| + 3 && p[..|month.value|] == month.value
    ensures |p| >= 3 && p[|p| - 3..] == "-01"
    ensures month.None? ==> p == "null-01"
  {
    (if month.Some? then month.value else "null") + "-01"
  }

  /** The payload keeps the chosen month as its prefix, so the month is
      recovered from it, and it carries exactly one more `-` than the form
      value: a `YYYY-MM` month becomes a three-part `YYYY-MM-01` date. */
  lemma MonthPayloadRoundTrip(month: string)
    ensures Take(MonthPayload(Some(month)), |month|) == month
    ensures Count(MonthPayload(Some(month)), '-') == Count(month, '-') + 1
    ensures |Split(MonthPayload(Some(month)), '-')| == |Split(month, '-')| + 1
  {
    var p := MonthPayload(Some(month));
    CountAppend(month, "-01", '-');
    SplitLength(p, '-');
    SplitLength(month, '-');
  }
}
