/** The leave administration page (`jnaneshFrontend/leave_admin.js`): the
    string guard of `formatDate`, the rows of the request table with their
    Approve/Deny rule, the current filter, and what an Approve/Deny click
    sends and restores. */
module LeaveAdmin {
  import opened JsText
  import opened LeaveRequests

  // --------------------------------------------------------- formatDate

  /** The string part of `formatDate`: `N/A` unless the value splits into
      exactly three `-` parts, which go on to the date formatter (not
      modelled). */
  datatype DateText = DateNA | DateOf(year: string, month: string, day: string)

  function DateGuard(value: Option<string>): (r: DateText)
    ensures r.DateOf? ==> Truthy(value) && Split(value.value, '-') == [r.year, r.month, r.day]
    ensures !Truthy(value) ==> r == DateNA
  {
    if !Truthy(value) then DateNA
    else
      var parts := Split(value.value, '-');
      if |parts| != 3 then DateNA else DateOf(parts[0], parts[1], parts[2])
  }

  /** A non-empty value passes the guard exactly when it holds two `-`, and
      then joining the parts gives the value back. */
  lemma DateGuardNeedsTwoDashes(value: string)
    requires value != ""
    ensures DateGuard(Some(value)).DateOf? <==> Count(value, '-') == 2
    ensures DateGuard(Some(value)).DateOf? ==>
              var d := DateGuard(Some(value)); d.year + "-" + d.month + "-" + d.day == value
  {
    SplitLength(value, '-');
    JoinSplit(value, '-');
    var parts := Split(value, '-');
    if |parts| == 3 {
      assert parts[1..][1..] == [parts[2]];
      assert Join(parts[1..], '-') == parts[1] + "-" + parts[2];
      assert Join(parts, '-') == parts[0] + "-" + (parts[1] + "-" + parts[2]);
    }
  }

  // ------------------------------------------------------------- table

  /** A leave request as the list endpoint returns it. */
  datatype Request = Request(
    requestId: string,
    employeeId: string,
    employeeName: Option<string>,
    startDate: Option<string>,
    endDate: Option<string>,
    reason: Option<string>,
    status: Option<string>)

  /** The action cell: the two buttons, carrying the request id, or a dash. */
  datatype Actions = Buttons(requestId: string) | Dash

  datatype Row = Row(employee: string, employeeId: string, dates: (DateText, DateText), reason: string,
                     badge: Badge, actions: Actions)

  /** `req.status && req.status.toLowerCase() === 'pending'`. */
  predicate ShowsButtons(status: Option<string>) {
    Truthy(status) && Lower(status.value) == "pending"
  }

  /** One row of `renderLeaveTable`. */
  function RowOf(req: Request): (r: Row)
    ensures r.actions.Buttons? <==> ShowsButtons(req.status)
    ensures r.actions.Buttons? ==> r.actions.requestId == req.requestId
    ensures r.badge == StatusBadge(req.status)
    ensures r.employee == OrElse(req.employeeName, "N/A") && r.reason == OrElse(req.reason, "N/A")
    ensures r.dates == (DateGuard(req.startDate), DateGuard(req.endDate))
  {
    Row(OrElse(req.employeeName, "N/A"), req.employeeId, (DateGuard(req.startDate), DateGuard(req.endDate)),
        OrElse(req.reason, "N/A"), StatusBadge(req.status),
        if ShowsButtons(req.status) then Buttons(req.requestId) else Dash)
  }

  /** Buttons are shown exactly for the requests whose badge reads pending,
      except those with no status at all: they read pending but get a dash. */
  lemma ButtonsOnlyWhenPending(req: Request)
    ensures RowOf(req).actions.Buttons? ==> RowOf(req).badge == Badge(Yellow, "pending")
    ensures RowOf(req).badge.text == "pending" && RowOf(req).actions == Dash <==> !Truthy(req.status)
  {
  }

  /** The answer of `GET /leave-requests?status=…`. */
  datatype ListAnswer =
    | ListThrown(message: string)
    | ListResponse(status: nat, errorField: Option<string>, requests: Option<seq<Request>>)

  /** What the table shows: the unauthorised case returns with the loading
      text still in place. */
  datatype TableView =
    | StillLoading
    | TableError(message: string)
    | NoRequests
    | Rows(rows: seq<Row>)

  const LoadingText := "Loading requests..."
  const EmptyText := "No requests found for this filter."

  /** The text above the table for a view. */
  function TableMessage(v: TableView): string {
    match v
    case StillLoading => LoadingText
    case TableError(m) => "Error loading requests: " + m
    case NoRequests => EmptyText
    case Rows(_) => ""
  }

  function StatusText(status: nat): string {
    "Failed to fetch requests (" + DecimalText(status) + ")"
  }

  /** `fetchLeaveRequests`: one row per request, in order; an empty or null
      list shows the empty-filter text and no rows. */
  function ShowList(a: ListAnswer): (v: TableView)
    ensures v.Rows? <==> a.ListResponse? && 200 <= a.status <= 299 && a.requests.Some? && |a.requests.value| > 0
    ensures v.Rows? ==> |v.rows| == |a.requests.value|
                        && forall i :: 0 <= i < |v.rows| ==> v.rows[i] == RowOf(a.requests.value[i])
    ensures v == NoRequests <==> a.ListResponse? && 200 <= a.status <= 299 && (a.requests.None? || |a.requests.value| == 0)
    ensures v == StillLoading <==> a.ListResponse? && (a.status == 401 || a.status == 403)
  {
    match a
    case ListThrown(m) => TableError(m)
    case ListResponse(status, errorField, requests) =>
      if !(200 <= status <= 299) then
        if status == 401 || status == 403 then StillLoading
        else TableError(OrElse(errorField, StatusText(status)))
      else if requests.None? || |requests.value| == 0 then NoRequests
      else Rows(RowsOf(requests.value))
  }

  function RowsOf(reqs: seq<Request>): (rows: seq<Row>)
    ensures |rows| == |reqs| && forall i :: 0 <= i < |reqs| ==> rows[i] == RowOf(reqs[i])
  {
    if |reqs| == 0 then [] else [RowOf(reqs[0])] + RowsOf(reqs[1..])
  }

  // ------------------------------------------------------ filter state

  /** The events of the page: a filter button click (its `data-status`,
      `None` when the attribute is missing) or the end of an Approve/Deny
      request. */
  datatype Event = FilterClick(status: Option<string>) | ActionDone(succeeded: bool)

  /** `currentFilter`, which starts as `pending`. */
  const InitialFilter: Option<string> := Some("pending")

  /** The status a fetch asks for: the `status = 'pending'` default applies
      when the argument is `undefined`. */
  function FetchStatus(filter: Option<string>): string {
    filter.GetOr("pending")
  }

  /** The filter after an event. */
  function NextFilter(filter: Option<string>, e: Event): Option<string> {
    if e.FilterClick? then e.status else filter
  }

  /** The fetch an event issues, if any: a filter click fetches the new
      filter, a successful action refetches the current one, a failed one
      fetches nothing. */
  function FetchOf(filter: Option<string>, e: Event): seq<string> {
    match e
    case FilterClick(s) => [FetchStatus(s)]
    case ActionDone(ok) => if ok then [FetchStatus(filter)] else []
  }

  /** Replays the page from its initial fetch: the filter at the end and
      every status fetched, in order. */
  function Replay(events: seq<Event>): (r: (Option<string>, seq<string>))
    ensures |r.1| >= 1 && r.1[0] == "pending"
    decreases |events|
  {
    if |events| == 0 then (InitialFilter, [FetchStatus(InitialFilter)])
    else
      var (filter, fetched) := Replay(events[..|events| - 1]);
      var e := events[|events| - 1];
      (NextFilter(filter, e), fetched + FetchOf(filter, e))
  }

  /** The most recent filter click, or the initial filter. */
  function LastClicked(events: seq<Event>): Option<string> {
    if |events| == 0 then InitialFilter
    else if events[|events| - 1].FilterClick? then events[|events| - 1].status
    else LastClicked(events[..|events| - 1])
  }

  /** `currentFilter` is always the most recent filter click, and every
      fetch after an event asks for the status of the filter current after
      it. */
  lemma {:induction false} FilterIsLastClick(events: seq<Event>)
    ensures Replay(events).0 == LastClicked(events)
    ensures |events| > 0 && FetchOf(Replay(events[..|events| - 1]).0, events[|events| - 1]) != [] ==>
              Replay(events).1 == Replay(events[..|events| - 1]).1 + [FetchStatus(LastClicked(events))]
    decreases |events|
  {
    if |events| > 0 {
      FilterIsLastClick(events[..|events| - 1]);
    }
  }

  /** A failed action fetches nothing; a click with no `data-status`
      fetches `pending`. */
  lemma FetchExamples(events: seq<Event>)
    ensures Replay(events + [ActionDone(false)]).1 == Replay(events).1
    ensures Replay(events + [FilterClick(None)]).1 == Replay(events).1 + ["pending"]
  {
    assert (events + [ActionDone(false)])[..|events|] == events;
    assert (events + [FilterClick(None)])[..|events|] == events;
  }

  // ---------------------------------------------------- approve / deny

  /** `otherAction`. */
  function OtherAction(action: string): (other: string)
    ensures other == "approved" || other == "denied"
    ensures other != action
  {
    if action == "approved" then "denied" else "approved"
  }

  /** On the two actions the rows carry, the other action of the other
      action is the action itself. */
  lemma OtherActionInvolutive(action: string)
    requires action == "approved" || action == "denied"
    ensures OtherAction(OtherAction(action)) == action
    ensures {action, OtherAction(action)} == {"approved", "denied"}
  {
  }

  /** The label `renderLeaveTable` gives the button of an action. */
  function ButtonLabel(action: string): string {
    if action == "approved" then "Approve" else "Deny"
  }

  /** The PUT an action click sends: to the request's id, with body status
      equal to the clicked action. */
  datatype Put = Put(requestId: string, status: string)

  /** A button: its label and whether it is disabled. */
  datatype Button = Button(caption: string, disabled: bool)

  /** The two buttons of a row, the clicked one first. */
  datatype ButtonPair = ButtonPair(clicked: Button, other: Button)

  /** Clicking: the PUT is sent, the clicked button shows `...`, both are
      disabled. */
  function Click(requestId: string, action: string): (r: (Put, ButtonPair))
    ensures r.0 == Put(requestId, action)
    ensures r.1.clicked.disabled && r.1.other.disabled
    ensures r.1.clicked.caption == "..." && r.1.other.caption == ButtonLabel(OtherAction(action))
  {
    (Put(requestId, action), ButtonPair(Button("...", true), Button(ButtonLabel(OtherAction(action)), true)))
  }

  /** After a failed request, as written: the clicked button's label is the
      action with its first letter capitalised, and both are re-enabled. */
  function RestoreAsWritten(action: string): (b: ButtonPair)
    ensures !b.clicked.disabled && !b.other.disabled
    ensures |b.clicked.caption| == |action|
    ensures |action| > 0 ==> b.clicked.caption[0] == UpperChar(action[0]) && b.clicked.caption[1..] == action[1..]
    ensures b.other.caption == ButtonLabel(OtherAction(action))
  {
    ButtonPair(Button(CapitalizeFirst(action), false), Button(ButtonLabel(OtherAction(action)), false))
  }

  /** The restore that gives back the label the table drew. */
  function Restore(action: string): (b: ButtonPair)
    ensures !b.clicked.disabled && !b.other.disabled
    ensures b.clicked.caption == ButtonLabel(action)
    ensures b.other.caption == ButtonLabel(OtherAction(action))
  {
    ButtonPair(Button(ButtonLabel(action), false), Button(ButtonLabel(OtherAction(action)), false))
  }

  /** The buttons `renderLeaveTable` draws for a pending row, in markup
      order: each button's `data-action` and caption. */
  const TableButtons: seq<(string, string)> := [("approved", "Approve"), ("denied", "Deny")]

  /** The buttons of a pending row before any click, the one whose
      `data-action` is `action` first. */
  function Drawn(action: string): ButtonPair
    requires action == TableButtons[0].0 || action == TableButtons[1].0
  {
    var i := if TableButtons[0].0 == action then 0 else 1;
    ButtonPair(Button(TableButtons[i].1, false), Button(TableButtons[1 - i].1, false))
  }

  /** As written, a failed Approve comes back labelled "Approved" and a
      failed Deny "Denied"; the corrected restore gives back exactly the
      buttons the row drew. */
  lemma RestoreLabels(action: string)
    ensures RestoreAsWritten("approved").clicked.caption == "Approved"
    ensures RestoreAsWritten("denied").clicked.caption == "Denied"
    ensures RestoreAsWritten("approved") != Drawn("approved") && RestoreAsWritten("denied") != Drawn("denied")
    ensures action == "approved" || action == "denied" ==> Restore(action) == Drawn(action)
  {
  }
}
