/** The pure helpers of the employee administration page, in its three
    copies: `jnaneshFrontend/scripts.js`, its near twin
    `jnaneshFrontend/script.js`, and the older `frontend/scripts.js`. The
    copy is a parameter, so the copies are modelled once and their
    differences are stated as lemmas. */
module EmployeeAdmin {
  import opened JsText

  /** Which copy of the page script. */
  datatype Variant =
    | Current   // jnaneshFrontend/scripts.js
    | Twin      // jnaneshFrontend/script.js
    | Legacy    // frontend/scripts.js

  // ------------------------------------------------- department counts

  /** An employee, as far as the chart is concerned. */
  datatype Employee = Employee(department: Option<string>)

  /** The object key an employee is counted under: the two newer copies
      group a missing or empty department as `Unknown`; the older copy uses
      the raw value, so a null department becomes the key `null`. */
  function DeptKey(v: Variant, e: Employee): (k: string)
    ensures v != Legacy ==> k != ""
    ensures v != Legacy ==> (k == "Unknown" <==> !Truthy(e.department) || e.department == Some("Unknown"))
    ensures v == Legacy && e.department.Some? ==> k == e.department.value
    ensures v == Legacy && e.department.None? ==> k == "null"
  {
    if v == Legacy then (if e.department.None? then "null" else e.department.value)
    else OrElse(e.department, "Unknown")
  }

  /** The keys of a list of employees, in list order. */
  function KeysOf(v: Variant, emps: seq<Employee>): (ks: seq<string>)
    ensures |ks| == |emps| && forall i :: 0 <= i < |emps| ==> ks[i] == DeptKey(v, emps[i])
  {
    if |emps| == 0 then [] else KeysOf(v, emps[..|emps| - 1]) + [DeptKey(v, emps[|emps| - 1])]
  }

  /** The counts object as an association list, in key insertion order
      (which is the order `Object.keys` gives for non-numeric keys). */
  type Counts = seq<(string, nat)>

  function Keys(c: Counts): (ks: seq<string>)
    ensures |ks| == |c| && forall i :: 0 <= i < |c| ==> ks[i] == c[i].0
  {
    if |c| == 0 then [] else [c[0].0] + Keys(c[1..])
  }

  /** `acc[k] || 0`. */
  function Lookup(c: Counts, k: string): nat {
    if |c| == 0 then 0 else if c[0].0 == k then c[0].1 else Lookup(c[1..], k)
  }

  /** The sum of the counts: what the pie chart's slices add up to. */
  function Total(c: Counts): nat {
    if |c| == 0 then 0 else c[0].1 + Total(c[1..])
  }

  predicate Distinct(ks: seq<string>) {
    forall i, j :: 0 <= i < j < |ks| ==> ks[i] != ks[j]
  }

  /** `acc[k] = (acc[k] || 0) + 1`: add one to an existing key, or append
      the key with count 1. */
  function Bump(c: Counts, k: string): (r: Counts)
    ensures Keys(r) == if k in Keys(c) then Keys(c) else Keys(c) + [k]
  {
    if |c| == 0 then [(k, 1)]
    else if c[0].0 == k then [(k, c[0].1 + 1)] + c[1..]
    else [c[0]] + Bump(c[1..], k)
  }

  /** The `reduce` of `renderDepartmentChart` over the employees' keys. */
  function Tally(keys: seq<string>): Counts {
    if |keys| == 0 then [] else Bump(Tally(keys[..|keys| - 1]), keys[|keys| - 1])
  }

  /** The department counts a copy draws. */
  function DepartmentCounts(v: Variant, emps: seq<Employee>): Counts {
    Tally(KeysOf(v, emps))
  }

  /** The number of times `k` occurs in `keys`. */
  function Occurrences(keys: seq<string>, k: string): nat {
    if |keys| == 0 then 0
    else Occurrences(keys[..|keys| - 1], k) + (if keys[|keys| - 1] == k then 1 else 0)
  }

  /** The keys in order of first occurrence, duplicates dropped. */
  function FirstOccurrences(keys: seq<string>): seq<string> {
    if |keys| == 0 then []
    else
      var d := FirstOccurrences(keys[..|keys| - 1]);
      if keys[|keys| - 1] in d then d else d + [keys[|keys| - 1]]
  }

  lemma {:induction false} BumpCounts(c: Counts, k: string, x: string)
    ensures Lookup(Bump(c, k), x) == Lookup(c, x) + (if x == k then 1 else 0)
    ensures Total(Bump(c, k)) == Total(c) + 1
  {
    if |c| > 0 && c[0].0 != k {
      BumpCounts(c[1..], k, x);
      assert Bump(c, k)[1..] == Bump(c[1..], k);
    } else if |c| > 0 {
      assert Bump(c, k)[1..] == c[1..];
    }
  }

  lemma {:induction false} LookupAbsent(c: Counts, x: string)
    requires x !in Keys(c)
    ensures Lookup(c, x) == 0
  {
    if |c| > 0 {
      assert Keys(c)[1..] == Keys(c[1..]);
      LookupAbsent(c[1..], x);
    }
  }

  lemma {:induction false} TallyLookup(keys: seq<string>, k: string)
    ensures Lookup(Tally(keys), k) == Occurrences(keys, k)
    ensures Total(Tally(keys)) == |keys|
  {
    if |keys| > 0 {
      TallyLookup(keys[..|keys| - 1], k);
      BumpCounts(Tally(keys[..|keys| - 1]), keys[|keys| - 1], k);
    }
  }

  lemma {:induction false} TallyKeys(keys: seq<string>)
    ensures Keys(Tally(keys)) == FirstOccurrences(keys)
  {
    if |keys| > 0 {
      TallyKeys(keys[..|keys| - 1]);
    }
  }

  lemma {:induction false} FirstOccurrencesDistinct(keys: seq<string>)
    ensures Distinct(FirstOccurrences(keys))
    ensures forall k :: k in FirstOccurrences(keys) <==> k in keys
  {
    if |keys| > 0 {
      var init := keys[..|keys| - 1];
      FirstOccurrencesDistinct(init);
      assert keys == init + [keys[|keys| - 1]];
    }
  }

  /** Every employee adds exactly one to its own key: each count is the
      number of employees with that key, the counts sum to the number of
      employees, the keys are distinct and in order of first appearance. */
  lemma TallyCounts(keys: seq<string>)
    ensures forall k :: Lookup(Tally(keys), k) == Occurrences(keys, k)
    ensures Total(Tally(keys)) == |keys|
    ensures Keys(Tally(keys)) == FirstOccurrences(keys)
    ensures Distinct(Keys(Tally(keys)))
    ensures forall k :: k in Keys(Tally(keys)) <==> k in keys
  {
    forall k ensures Lookup(Tally(keys), k) == Occurrences(keys, k) {
      TallyLookup(keys, k);
    }
    TallyLookup(keys, "");
    TallyKeys(keys);
    FirstOccurrencesDistinct(keys);
  }

  /** The chart's data, stated for a copy: one slice per key of the list,
      each the number of employees with that key, together all of them. */
  lemma DepartmentCountsSum(v: Variant, emps: seq<Employee>)
    ensures Total(DepartmentCounts(v, emps)) == |emps|
    ensures forall k :: Lookup(DepartmentCounts(v, emps), k) == Occurrences(KeysOf(v, emps), k)
    ensures Distinct(Keys(DepartmentCounts(v, emps)))
    ensures |Keys(DepartmentCounts(v, emps))| > 0 <==> |emps| > 0
    ensures v != Legacy ==> "" !in Keys(DepartmentCounts(v, emps))
  {
    var ks := KeysOf(v, emps);
    TallyCounts(ks);
    if |emps| > 0 {
      assert ks[0] in Keys(Tally(ks));
    }
    if v != Legacy {
      assert "" !in ks;
    }
  }

  /** The copies differ on employees without a department: the newer ones
      count null and empty departments together under `Unknown`, the older
      one counts a null department under `null` and an empty one under the
      empty key. */
  lemma MissingDepartments(d: string)
    requires d != "" && d != "Unknown" && d != "null"
    ensures var emps := [Employee(None), Employee(Some("")), Employee(Some(d))];
            && DepartmentCounts(Current, emps) == [("Unknown", 2), (d, 1)]
            && DepartmentCounts(Legacy, emps) == [("null", 1), ("", 1), (d, 1)]
  {
    var emps := [Employee(None), Employee(Some("")), Employee(Some(d))];
    KeysOfThree(Current, emps);
    KeysOfThree(Legacy, emps);
    UnknownTally(d);
    NullTally(d);
  }

  lemma UnknownTally(d: string)
    requires d != "Unknown"
    ensures Tally(["Unknown", "Unknown", d]) == [("Unknown", 2), (d, 1)]
  {
    TallyThree(["Unknown", "Unknown", d]);
    assert Bump([("Unknown", 1)], "Unknown") == [("Unknown", 2)];
    assert Bump([], d) == [(d, 1)];
  }

  lemma NullTally(d: string)
    requires d != "" && d != "null"
    ensures Tally(["null", "", d]) == [("null", 1), ("", 1), (d, 1)]
  {
    TallyThree(["null", "", d]);
    assert Bump([("null", 1)], "") == [("null", 1), ("", 1)];
    assert Bump([("", 1)], d) == [("", 1), (d, 1)];
  }

  lemma KeysOfThree(v: Variant, emps: seq<Employee>)
    requires |emps| == 3
    ensures KeysOf(v, emps) == [DeptKey(v, emps[0]), DeptKey(v, emps[1]), DeptKey(v, emps[2])]
  {
  }

  lemma TallyThree(keys: seq<string>)
    requires |keys| == 3
    ensures Tally(keys) == Bump(Bump([(keys[0], 1)], keys[1]), keys[2])
  {
    var k1, k2 := keys[..1], keys[..2];
    assert k1[..0] == [] && k1[0] == keys[0];
    assert Tally(k1) == [(keys[0], 1)];
    assert k2[..1] == k1 && k2[1] == keys[1];
    assert Tally(k2) == Bump(Tally(k1), keys[1]);
    assert keys[..2] == k2;
  }

  // -------------------------------------------------------------- chart

  /** The chart area of the page: whether the canvas is still inside the
      page, and whether a live chart is drawn on it. The page looks the
      canvas element up once, when it loads. */
  datatype ChartState = ChartState(attached: bool, live: bool)

  /** The chart area when the page opens. */
  const Opened := ChartState(true, false)

  /** A chart is visible when a live chart is drawn on a canvas that is
      still inside the page. */
  predicate ChartShown(s: ChartState) {
    s.attached && s.live
  }

  /** One call of `renderDepartmentChart`: the chart area after it, the
      counts of the chart it creates, if any, and whether it throws. */
  datatype ChartStep = ChartStep(after: ChartState, drawn: Option<Counts>, threw: bool)

  /** `renderDepartmentChart`. `chartFails` says whether Chart.js throws
      when asked for the chart; the library itself is not modelled.

      The newer copies destroy the old chart, then create one only when
      there is at least one key. Otherwise, and when Chart.js throws, they
      replace the contents of the canvas's parent with a message, which
      takes the canvas out of the page for good. A canvas out of the page
      has no parent: `jnaneshFrontend/scripts.js` checks for that and does
      nothing, while `jnaneshFrontend/script.js` writes to the missing
      parent and throws. The older copy always creates a chart, and the
      chart is gone when Chart.js throws. A null list makes it throw inside
      `reduce`, before the old chart is touched. */
  function RenderChart(v: Variant, s: ChartState, employees: Option<seq<Employee>>, chartFails: bool): (r: ChartStep)
    ensures r.drawn.Some? ==> r.drawn.value == DepartmentCounts(v, employees.GetOr([])) && r.after.live
    ensures r.after.attached ==> s.attached
    ensures v != Legacy ==> (r.drawn.Some? <==> |employees.GetOr([])| > 0 && !chartFails)
    ensures v != Legacy && r.drawn.Some? ==> r.after.attached == s.attached && !r.threw
    ensures v != Legacy && r.drawn.None? ==> r.after == ChartState(false, false)
    ensures v != Legacy ==> (r.threw <==> v == Twin && !s.attached && r.drawn.None?)
    ensures v == Legacy ==> r.after.attached == s.attached && (r.threw <==> r.drawn.None?)
    ensures v == Legacy ==> (r.drawn.Some? <==> employees.Some? && !chartFails)
    ensures v == Legacy && employees.None? ==> r.after == s
    ensures v == Legacy && employees.Some? && chartFails ==> !r.after.live
  {
    var counts := DepartmentCounts(v, employees.GetOr([]));
    DepartmentCountsSum(v, employees.GetOr([]));
    if v == Legacy then
      if employees.None? then ChartStep(s, None, true)
      else if chartFails then ChartStep(s.(live := false), None, true)
      else ChartStep(s.(live := true), Some(counts), false)
    else if |Keys(counts)| > 0 && !chartFails then ChartStep(s.(live := true), Some(counts), false)
    else ChartStep(ChartState(false, false), None, v == Twin && !s.attached)
  }

  /** While the canvas is in the page, the newer copies show a chart
      exactly when there are employees, with slices summing to them; the
      older copy shows one for every list it receives. */
  lemma ChartOnlyWithEmployees(v: Variant, s: ChartState, employees: Option<seq<Employee>>)
    ensures v != Legacy && s.attached ==>
              (ChartShown(RenderChart(v, s, employees, false).after) <==> |employees.GetOr([])| > 0)
    ensures v == Legacy && s.attached && employees.Some? ==> ChartShown(RenderChart(v, s, employees, false).after)
    ensures v != Legacy && |employees.GetOr([])| > 0 ==>
              Total(RenderChart(v, s, employees, false).drawn.value) == |employees.GetOr([])|
  {
    DepartmentCountsSum(v, employees.GetOr([]));
  }

  /** The answer of the employee list request: the list of an OK answer,
      an unauthorised status (the load stops at once and the login check
      takes over), or a failure that throws inside the load (an error
      status, a network error, an unparsable body). */
  datatype EmployeeAnswer = Loaded(employees: Option<seq<Employee>>) | Unauthorised | LoadFailed

  /** The chart area after a `fetchEmployees` call, and whether the call
      ends in its load-failure notification. */
  datatype Load = Load(after: ChartState, reportsFailure: bool)

  /** The chart part of `fetchEmployees`. The newer copies render the list,
      or `[]` for a null one; a throw inside the load, the chart's own
      included, lands in its `catch`, which shows the notification and
      renders `[]` once more. The older copy renders the list as it is, and
      its `catch` only notifies. */
  function LoadChart(v: Variant, s: ChartState, a: EmployeeAnswer, chartFails: bool): (l: Load)
    ensures a.Unauthorised? ==> l == Load(s, false)
    ensures a.LoadFailed? ==> l.reportsFailure
    ensures l.after.attached ==> s.attached
    ensures v != Legacy && (a.LoadFailed? || (a.Loaded? && |a.employees.GetOr([])| == 0)) ==> !l.after.attached
    ensures v != Legacy && a.Loaded? && |a.employees.GetOr([])| > 0 && !chartFails ==>
              !l.reportsFailure && l.after.attached == s.attached && l.after.live
    ensures v != Legacy && a.Loaded? && s.attached ==> !l.reportsFailure
    ensures v == Legacy && a.Loaded? ==> (l.reportsFailure <==> a.employees.None? || chartFails)
  {
    match a
    case Unauthorised => Load(s, false)
    case LoadFailed =>
      if v == Legacy then Load(s, true) else Load(RenderChart(v, s, Some([]), chartFails).after, true)
    case Loaded(employees) =>
      var r := RenderChart(v, s, employees, chartFails);
      if !r.threw then Load(r.after, false)
      else if v == Legacy then Load(r.after, true)
      else Load(RenderChart(v, r.after, Some([]), chartFails).after, true)
  }

  /** The chart area after a run of loads, each paired with whether
      Chart.js throws during it. */
  function RunLoads(v: Variant, s: ChartState, loads: seq<(EmployeeAnswer, bool)>): ChartState
    decreases |loads|
  {
    if |loads| == 0 then s
    else
      var last := loads[|loads| - 1];
      LoadChart(v, RunLoads(v, s, loads[..|loads| - 1]), last.0, last.1).after
  }

  /** In the newer copies, once the canvas is out of the page no later
      load, whatever it brings, shows a chart again. */
  lemma {:induction false} ChartGoneForGood(v: Variant, s: ChartState, loads: seq<(EmployeeAnswer, bool)>)
    requires !s.attached
    ensures !RunLoads(v, s, loads).attached && !ChartShown(RunLoads(v, s, loads))
    decreases |loads|
  {
    if |loads| > 0 {
      ChartGoneForGood(v, s, loads[..|loads| - 1]);
    }
  }

  /** As written, a load with no employees (a search without a match) or a
      failed load takes the chart away in the newer copies for the rest of
      the page's life. */
  lemma EmptyLoadHidesChartForever(v: Variant, s: ChartState, a: EmployeeAnswer, chartFails: bool,
                                   later: seq<(EmployeeAnswer, bool)>)
    requires v != Legacy && (a.LoadFailed? || (a.Loaded? && |a.employees.GetOr([])| == 0))
    ensures !ChartShown(RunLoads(v, LoadChart(v, s, a, chartFails).after, later))
  {
    ChartGoneForGood(v, LoadChart(v, s, a, chartFails).after, later);
  }

  /** With the canvas out of the page, an OK answer with no employees ends
      in `jnaneshFrontend/script.js`'s load-failure notification, because
      its chart writes to the missing parent; `jnaneshFrontend/scripts.js`
      reports nothing. */
  lemma TwinReportsFailureOnEmptyList(s: ChartState, chartFails: bool)
    requires !s.attached
    ensures LoadChart(Twin, s, Loaded(Some([])), chartFails).reportsFailure
    ensures !LoadChart(Current, s, Loaded(Some([])), chartFails).reportsFailure
  {
  }

  /** The render that keeps the canvas: the newer copies with the message
      shown beside the canvas instead of replacing it. */
  function RenderChartFixed(v: Variant, s: ChartState, employees: Option<seq<Employee>>, chartFails: bool): (r: ChartStep)
    ensures v != Legacy ==> r.after.attached == s.attached && !r.threw
    ensures v != Legacy ==> (ChartShown(r.after) <==> s.attached && |employees.GetOr([])| > 0 && !chartFails)
    ensures v == Legacy ==> r == RenderChart(v, s, employees, chartFails)
  {
    var r := RenderChart(v, s, employees, chartFails);
    if v != Legacy && r.drawn.None? then ChartStep(s.(live := false), None, false) else r
  }

  /** The chart area after a run of renders with the canvas kept. */
  function RunFixed(v: Variant, s: ChartState, renders: seq<(Option<seq<Employee>>, bool)>): ChartState
    decreases |renders|
  {
    if |renders| == 0 then s
    else
      var last := renders[|renders| - 1];
      RenderChartFixed(v, RunFixed(v, s, renders[..|renders| - 1]), last.0, last.1).after
  }

  /** With the canvas kept, the newer copies' chart area stays in the page
      through any run of renders, and the chart is shown exactly when the
      last render had employees and Chart.js drew them. */
  lemma {:induction false} FixedChartFollowsLastRender(v: Variant, renders: seq<(Option<seq<Employee>>, bool)>)
    requires v != Legacy
    ensures RunFixed(v, Opened, renders).attached
    ensures |renders| > 0 ==>
              var last := renders[|renders| - 1];
              (ChartShown(RunFixed(v, Opened, renders)) <==> |last.0.GetOr([])| > 0 && !last.1)
    decreases |renders|
  {
    if |renders| > 0 {
      FixedChartFollowsLastRender(v, renders[..|renders| - 1]);
    }
  }

  // ------------------------------------------------------------- forms

  /** The values of the add and edit forms: form values are strings, and an
      empty field reads as `""`. */
  datatype EmployeeForm = EmployeeForm(
    name: string,
    department: string,
    position: string,
    joiningDate: string,
    baseSalary: string,
    userId: string)

  const FillMessage := "Please fill in all employee fields."

  /** What a form submission sends: the fields, with `user_id` only on the
      edit form of the newer copies. */
  datatype Payload = Payload(name: string, department: string, position: string, joiningDate: string,
                             baseSalary: string, userId: Option<string>)

  datatype Submission = Refused(message: string) | Send(payload: Payload)

  /** The five required fields. */
  function Required(f: EmployeeForm): seq<string> {
    [f.name, f.department, f.position, f.joiningDate, f.baseSalary]
  }

  /** The newer copies' check: every one of the five fields is truthy. */
  predicate Filled(f: EmployeeForm) {
    f.name != "" && f.department != "" && f.position != "" && f.joiningDate != "" && f.baseSalary != ""
  }

  /** The add form. The newer copies refuse it, sending nothing, unless the
      five fields are filled; the older copy posts whatever was entered. */
  function SubmitAdd(v: Variant, f: EmployeeForm): (s: Submission)
    ensures s.Refused? <==> v != Legacy && "" in Required(f)
    ensures s.Refused? ==> s.message == FillMessage
    ensures s.Send? ==> s.payload.name == f.name && s.payload.department == f.department
                        && s.payload.position == f.position && s.payload.joiningDate == f.joiningDate
                        && s.payload.baseSalary == f.baseSalary && s.payload.userId.None?
  {
    if v != Legacy && !Filled(f) then Refused(FillMessage)
    else Send(Payload(f.name, f.department, f.position, f.joiningDate, f.baseSalary, None))
  }

  /** The edit form: the same check, and the newer copies also send the
      selected `user_id`, which may be empty. */
  function SubmitEdit(v: Variant, f: EmployeeForm): (s: Submission)
    ensures s.Refused? <==> v != Legacy && "" in Required(f)
    ensures s.Refused? ==> s.message == FillMessage
    ensures s.Send? ==> s.payload.userId == (if v == Legacy then None else Some(f.userId))
  {
    if v != Legacy && !Filled(f) then Refused(FillMessage)
    else Send(Payload(f.name, f.department, f.position, f.joiningDate, f.baseSalary,
                      if v == Legacy then None else Some(f.userId)))
  }

  /** The add and edit forms accept the same values, the link field plays
      no part in the check, and the two send the same five fields. */
  lemma AddAndEditAgree(v: Variant, f: EmployeeForm, userId: string)
    ensures SubmitAdd(v, f).Refused? <==> SubmitEdit(v, f).Refused?
    ensures SubmitEdit(v, f.(userId := userId)).Refused? <==> SubmitEdit(v, f).Refused?
    ensures SubmitAdd(v, f).Send? ==> SubmitAdd(v, f).payload == SubmitEdit(v, f).payload.(userId := None)
    ensures f.userId == "" && Filled(f) ==> SubmitEdit(v, f).Send?
  {
  }

  // ------------------------------------------------------ edit prefill

  /** The employee record the edit dialog loads; `baseSalary` is the text
      the number converts to. */
  datatype Record = Record(
    employeeId: Option<string>,
    name: Option<string>,
    department: Option<string>,
    position: Option<string>,
    joiningDate: Option<string>,
    baseSalary: Option<string>,
    userId: Option<nat>,
    linkedUsername: Option<string>)

  /** The date input's value. The newer copies cut a stored date at the
      first `T` and show a missing one as empty; the older copy cuts at the
      first space, and a null date throws, so the dialog is not opened. */
  function JoiningDate(v: Variant, date: Option<string>): (r: Option<string>)
    ensures v != Legacy ==> r.Some? && (Truthy(date) ==> r.value == Split(date.value, 'T')[0])
                                    && (!Truthy(date) ==> r.value == "")
    ensures v == Legacy ==> (r.None? <==> date.None?)
    ensures v == Legacy && date.Some? ==> r.value == Split(date.value, ' ')[0]
  {
    if v != Legacy then
      if Truthy(date) then BeforeIsFirstPart(date.value, 'T'); Some(Before(date.value, 'T')) else Some("")
    else if date.None? then None
    else BeforeIsFirstPart(date.value, ' '); Some(Before(date.value, ' '))
  }

  /** The cut keeps the date of a timestamp written with its separator: an
      ISO timestamp for the newer copies, a space-separated one for the
      older. */
  lemma JoiningDateKeepsDay(date: string, time: string)
    requires |date| == 10 && 'T' !in date && ' ' !in date
    ensures JoiningDate(Current, Some(date + "T" + time)) == Some(date)
    ensures JoiningDate(Legacy, Some(date + " " + time)) == Some(date)
    ensures JoiningDate(Current, Some(date)) == Some(date) && JoiningDate(Legacy, Some(date)) == Some(date)
  {
    BeforeAt(date, "T" + time, 'T');
    BeforeAt(date, " " + time, ' ');
    BeforeAt(date, "", 'T');
    BeforeAt(date, "", ' ');
    assert date + "T" + time == date + ("T" + time);
    assert date + " " + time == date + (" " + time);
    assert date + "" == date;
  }

  lemma {:induction false} BeforeAt(a: string, b: string, c: char)
    requires c !in a && (|b| == 0 || b[0] == c)
    ensures Before(a + b, c) == a
  {
    if |a| > 0 {
      assert (a + b)[1..] == a[1..] + b;
      BeforeAt(a[1..], b, c);
    } else {
      assert a + b == b;
    }
  }

  // ---------------------------------------------------------- dropdown

  /** A login account that can be linked to an employee. */
  datatype User = User(id: nat, username: string)

  /** An option's value: `''` or a user id. */
  datatype LinkValue = Blank | UserValue(id: nat)

  datatype Choice = Choice(text: string, value: LinkValue)

  const UnlinkedText := "-- Unlinked --"

  /** A numeric id is truthy when present and not 0. */
  predicate TruthyId(id: Option<nat>) {
    id.Some? && id.value != 0
  }

  function UserChoices(users: seq<User>): (cs: seq<Choice>)
    ensures |cs| == |users|
    ensures forall i :: 0 <= i < |users| ==> cs[i] == Choice(users[i].username, UserValue(users[i].id))
  {
    if |users| == 0 then [] else [Choice(users[0].username, UserValue(users[0].id))] + UserChoices(users[1..])
  }

  /** `unlinkedUsers.some(user => user.id === currentUserId)`. */
  predicate Listed(users: seq<User>, id: nat) {
    exists i :: 0 <= i < |users| && users[i].id == id
  }

  /** Whether the linked account gets its own option. */
  predicate AddsLinked(users: seq<User>, userId: Option<nat>, username: Option<string>) {
    TruthyId(userId) && Truthy(username) && !Listed(users, userId.value)
  }

  /** The user-link dropdown of the edit dialog: the unlinked choice, the
      unlinked users in order, then the linked account when it has an id
      and a name and is not among them. */
  function Dropdown(users: seq<User>, userId: Option<nat>, username: Option<string>): (cs: seq<Choice>)
    ensures |cs| == 1 + |users| + (if AddsLinked(users, userId, username) then 1 else 0)
    ensures cs[0] == Choice(UnlinkedText, Blank)
    ensures forall i :: 0 <= i < |users| ==> cs[1 + i] == Choice(users[i].username, UserValue(users[i].id))
    ensures AddsLinked(users, userId, username) ==>
              cs[|cs| - 1] == Choice(username.value + " (Currently Linked)", UserValue(userId.value))
  {
    [Choice(UnlinkedText, Blank)] + UserChoices(users)
    + (if AddsLinked(users, userId, username)
       then [Choice(username.value + " (Currently Linked)", UserValue(userId.value))] else [])
  }

  /** `currentUserId || ''`. */
  function Selected(userId: Option<nat>): (r: LinkValue)
    ensures r == Blank <==> !TruthyId(userId)
    ensures r.UserValue? ==> userId == Some(r.id)
  {
    if TruthyId(userId) then UserValue(userId.value) else Blank
  }

  predicate Offers(cs: seq<Choice>, value: LinkValue) {
    exists i :: 0 <= i < |cs| && cs[i].value == value
  }

  predicate DistinctIds(users: seq<User>) {
    forall i, j :: 0 <= i < j < |users| ==> users[i].id != users[j].id
  }

  predicate DistinctValues(cs: seq<Choice>) {
    forall i, j :: 0 <= i < j < |cs| ==> cs[i].value != cs[j].value
  }

  /** No value is offered twice when the unlinked accounts have distinct
      ids: the blank value is never a user, and the linked account is added
      only when it is not already listed. */
  lemma DropdownNoDuplicates(users: seq<User>, userId: Option<nat>, username: Option<string>)
    requires DistinctIds(users)
    ensures DistinctValues(Dropdown(users, userId, username))
  {
    var cs := Dropdown(users, userId, username);
    forall i, j | 0 <= i < j < |cs| ensures cs[i].value != cs[j].value {
      if i > 0 && j <= |users| {
        assert cs[i].value == UserValue(users[i - 1].id) && cs[j].value == UserValue(users[j - 1].id);
      } else if i > 0 {
        assert cs[i].value == UserValue(users[i - 1].id);
        assert !Listed(users, userId.value);
      }
    }
  }

  /** The selection lands on an offered option except in one case: a
      linked account whose name is missing and which is not listed, where
      the dropdown selects a value it does not offer. */
  lemma SelectedIsOffered(users: seq<User>, userId: Option<nat>, username: Option<string>)
    ensures Offers(Dropdown(users, userId, username), Selected(userId))
            <==> !TruthyId(userId) || Truthy(username) || Listed(users, userId.value)
  {
    var cs := Dropdown(users, userId, username);
    if !TruthyId(userId) {
      assert cs[0].value == Blank;
    } else if Listed(users, userId.value) {
      var i :| 0 <= i < |users| && users[i].id == userId.value;
      assert cs[1 + i].value == UserValue(userId.value);
    } else if Truthy(username) {
      assert cs[|cs| - 1].value == UserValue(userId.value);
    }
  }

  /** The text of an option's value: `''` or the user id in decimal. */
  function ValueText(value: LinkValue): (t: string)
    ensures t == "" <==> value == Blank
  {
    match value
    case Blank => ""
    case UserValue(id) => DecimalText(id)
  }

  /** What the select's `value` reads after `select.value = x`: the value
      of the option that matches `x`, or `''` when no option does (the
      select is then left with nothing selected). */
  function SelectValue(cs: seq<Choice>, x: LinkValue): (t: string)
    ensures Offers(cs, x) ==> t == ValueText(x)
    ensures !Offers(cs, x) ==> t == ""
  {
    if Offers(cs, x) then ValueText(x) else ""
  }

  /** The edit dialog's form, filled from a record and the unlinked
      accounts: the newer copies show null fields as empty, and the link
      field is what the dropdown holds once `currentUserId || ''` has been
      assigned to it; the older copy has no link field and fails on a null
      joining date. */
  function Prefill(v: Variant, r: Record, users: seq<User>): (f: Option<EmployeeForm>)
    ensures f.None? <==> v == Legacy && r.joiningDate.None?
    ensures f.Some? ==> f.value.name == r.name.GetOr("") && f.value.department == r.department.GetOr("")
                        && f.value.position == r.position.GetOr("")
                        && f.value.joiningDate == JoiningDate(v, r.joiningDate).value
                        && f.value.baseSalary == r.baseSalary.GetOr("")
    ensures f.Some? && v == Legacy ==> f.value.userId == ""
    ensures f.Some? && v != Legacy ==>
              (f.value.userId != "" <==> TruthyId(r.userId) && (Truthy(r.linkedUsername) || Listed(users, r.userId.value)))
    ensures f.Some? && f.value.userId != "" ==> f.value.userId == DecimalText(r.userId.value)
  {
    var date := JoiningDate(v, r.joiningDate);
    if date.None? then None
    else
      SelectedIsOffered(users, r.userId, r.linkedUsername);
      var link := if v == Legacy then "" else SelectValue(Dropdown(users, r.userId, r.linkedUsername), Selected(r.userId));
      Some(EmployeeForm(r.name.GetOr(""), r.department.GetOr(""), r.position.GetOr(""), date.value,
                        r.baseSalary.GetOr(""), link))
  }

  /** The link field of a prefilled form is the selection of the dropdown
      built for the same record: the value assigned when the dropdown
      offers it, and otherwise blank. So an account linked by id but with
      no name, and not among the unlinked ones, comes back blank, and
      saving the form unchanged sends an empty `user_id`. */
  lemma PrefillIsSelection(v: Variant, r: Record, users: seq<User>)
    requires v != Legacy && Prefill(v, r, users).Some?
    ensures var link := Prefill(v, r, users).value.userId;
            && (Offers(Dropdown(users, r.userId, r.linkedUsername), Selected(r.userId)) ==> link == ValueText(Selected(r.userId)))
            && (!Offers(Dropdown(users, r.userId, r.linkedUsername), Selected(r.userId)) ==> link == "")
  {
    SelectedIsOffered(users, r.userId, r.linkedUsername);
  }

  /** The unnamed linked account: id 5 with no name and no unlinked
      account 5 prefills a blank link, and a filled form then sends
      `user_id: ''`. */
  lemma UnnamedLinkIsDropped(f: EmployeeForm)
    requires Filled(f)
    ensures var r := Record(None, None, None, None, None, None, Some(5), None);
            Prefill(Current, r, []).value.userId == ""
            && SubmitEdit(Current, f.(userId := Prefill(Current, r, []).value.userId)) == Send(Payload(f.name, f.department, f.position, f.joiningDate, f.baseSalary, Some("")))
  {
  }

  // ---------------------------------------------------- filter options

  /** The department names a filter population appends, or `None` when it
      throws. The newer copies skip falsy names and do nothing for a
      missing or empty list; the older copy appends every name, a null one
      as `null`, and throws on a null list, so the page reports a load
      failure and its chart is not redrawn. A filter that already has more
      than its "all" option is left alone. */
  function FilterAdditions(v: Variant, optionCount: nat, departments: Option<seq<Option<string>>>): (added: Option<seq<string>>)
    ensures added.None? <==> v == Legacy && optionCount <= 1 && departments.None?
    ensures optionCount > 1 ==> added == Some([])
    ensures v != Legacy ==> added.Some? && forall x :: x in added.value <==> optionCount <= 1 && departments.Some? && x != "" && Some(x) in departments.value
    ensures v == Legacy && optionCount <= 1 && departments.Some? ==> added.Some? && |added.value| == |departments.value|
  {
    if optionCount > 1 then Some([])
    else if v == Legacy then (if departments.None? then None else Some(LegacyNames(departments.value)))
    else if departments.None? then Some([])
    else Some(TruthyNames(departments.value))
  }

  function TruthyNames(ds: seq<Option<string>>): (names: seq<string>)
    ensures forall x :: x in names <==> x != "" && Some(x) in ds
    ensures |names| <= |ds|
  {
    if |ds| == 0 then []
    else
      var rest := TruthyNames(ds[1..]);
      assert forall x :: Some(x) in ds <==> Some(x) == ds[0] || Some(x) in ds[1..];
      if Truthy(ds[0]) then [ds[0].value] + rest else rest
  }

  /** The option values the older copy appends. The option text of a null
      name is empty, while its value reads `null`. */
  function LegacyNames(ds: seq<Option<string>>): (names: seq<string>)
    ensures |names| == |ds|
    ensures forall i :: 0 <= i < |ds| ==> names[i] == (if ds[i].None? then "null" else ds[i].value)
  {
    if |ds| == 0 then [] else [if ds[0].None? then "null" else ds[0].value] + LegacyNames(ds[1..])
  }

  /** The filter is populated once: after a population that appended
      something to the single "all" option, every later load appends
      nothing and does not throw, whatever list it brings. */
  lemma PopulatedOnce(v: Variant, departments: Option<seq<Option<string>>>, later: Option<seq<Option<string>>>)
    ensures var added := FilterAdditions(v, 1, departments);
            added.Some? && |added.value| > 0 ==> FilterAdditions(v, 1 + |added.value|, later) == Some([])
  {
  }

  // ------------------------------------------------------ delete dialog

  /** The pending delete id and whether the confirmation dialog is open. */
  datatype DeleteState = DeleteState(pending: Option<string>, open: bool)

  /** A Delete button click (its `data-id`), or a click on the dialog's Yes
      or No. The dialog's buttons can only be clicked while it is open; the
      backdrop of `jnaneshFrontend/scripts.js` acts as its No. */
  datatype DeleteEvent = DeleteClick(id: Option<string>) | ConfirmYes | ConfirmNo

  const Closed := DeleteState(None, false)

  /** One event: the new state and the ids a DELETE is sent for. Yes with a
      falsy pending id does nothing; otherwise it sends the DELETE and then
      clears the id and closes the dialog. No closes the dialog;
      `jnaneshFrontend/scripts.js` leaves the pending id in place. */
  function DeleteStep(v: Variant, s: DeleteState, e: DeleteEvent): (r: (DeleteState, seq<string>))
    ensures e.DeleteClick? ==> r == (DeleteState(e.id, true), [])
    ensures e.ConfirmYes? && s.open && Truthy(s.pending) ==> r == (Closed, [s.pending.value])
    ensures e.ConfirmYes? && !Truthy(s.pending) ==> r == (s, [])
    ensures e.ConfirmNo? && s.open ==> !r.0.open && r.1 == [] && (r.0.pending.None? <==> v != Current || s.pending.None?)
    ensures !e.DeleteClick? && !s.open ==> r == (s, [])
  {
    match e
    case DeleteClick(id) => (DeleteState(id, true), [])
    case ConfirmYes =>
      if !s.open || !Truthy(s.pending) then (s, []) else (Closed, [s.pending.value])
    case ConfirmNo =>
      if !s.open then (s, [])
      else if v == Current then (s.(open := false), [])
      else (Closed, [])
  }

  /** A run of events from a closed dialog: the final state and every
      DELETE sent, in order. */
  function DeleteRun(v: Variant, events: seq<DeleteEvent>): (r: (DeleteState, seq<string>))
    ensures |r.1| <= |events|
  {
    if |events| == 0 then (Closed, [])
    else
      var (s, sent) := DeleteRun(v, events[..|events| - 1]);
      var (s2, more) := DeleteStep(v, s, events[|events| - 1]);
      (s2, sent + more)
  }

  /** The id of the most recent Delete click, if any. */
  function LastDeleteClick(events: seq<DeleteEvent>): Option<string> {
    if |events| == 0 then None
    else if events[|events| - 1].DeleteClick? then events[|events| - 1].id
    else LastDeleteClick(events[..|events| - 1])
  }

  /** While the dialog is open, the pending id is the one of the most
      recent Delete click, so a confirmed delete always targets the row
      last clicked, in every copy. */
  lemma {:induction false} OpenDialogHoldsLastClick(v: Variant, events: seq<DeleteEvent>)
    ensures DeleteRun(v, events).0.open ==> DeleteRun(v, events).0.pending == LastDeleteClick(events)
    ensures DeleteRun(v, events + [ConfirmYes]).1 ==
              DeleteRun(v, events).1
              + (if DeleteRun(v, events).0.open && Truthy(LastDeleteClick(events))
                 then [LastDeleteClick(events).value] else [])
    decreases |events|
  {
    if |events| > 0 {
      OpenDialogHoldsLastClick(v, events[..|events| - 1]);
    }
    assert (events + [ConfirmYes])[..|events|] == events;
  }

  /** The cancel difference: after Delete then No, `jnaneshFrontend/scripts.js`
      still holds the id while the other two copies have cleared it. */
  lemma CancelKeepsId(id: string)
    ensures DeleteRun(Current, [DeleteClick(Some(id)), ConfirmNo]).0 == DeleteState(Some(id), false)
    ensures DeleteRun(Twin, [DeleteClick(Some(id)), ConfirmNo]).0 == Closed
    ensures DeleteRun(Legacy, [DeleteClick(Some(id)), ConfirmNo]).0 == Closed
  {
    assert [DeleteClick(Some(id)), ConfirmNo][..1] == [DeleteClick(Some(id))];
  }

  /** The id left behind by a cancel is never sent: all three copies send
      the same DELETEs and open and close the dialog alike on every run,
      `jnaneshFrontend/script.js` and `frontend/scripts.js` agree on the
      state itself, and the pending ids differ only while the dialog is
      closed. */
  lemma {:induction false} CopiesSendSameDeletes(events: seq<DeleteEvent>)
    ensures DeleteRun(Twin, events) == DeleteRun(Legacy, events)
    ensures DeleteRun(Current, events).1 == DeleteRun(Twin, events).1
    ensures DeleteRun(Current, events).0.open == DeleteRun(Twin, events).0.open
    ensures DeleteRun(Current, events).0.open ==> DeleteRun(Current, events).0 == DeleteRun(Twin, events).0
    ensures !DeleteRun(Current, events).0.open ==> DeleteRun(Twin, events).0 == Closed
    decreases |events|
  {
    if |events| > 0 {
      CopiesSendSameDeletes(events[..|events| - 1]);
    }
  }

  // --------------------------------------------------- the twin copies

  /** `jnaneshFrontend/script.js` and `jnaneshFrontend/scripts.js` compute
      the same counts, form checks, prefill, dropdown and filter. Their
      charts leave the same chart area behind, and a load ends the same
      way in both while the canvas is in the page. The chart of a page
      whose canvas is gone and the cancel of the delete dialog differ. */
  lemma TwinsAgree(emps: seq<Employee>, s: ChartState, employees: Option<seq<Employee>>, chartFails: bool,
                   a: EmployeeAnswer, f: EmployeeForm,
                   r: Record, users: seq<User>, n: nat, ds: Option<seq<Option<string>>>, id: string)
    ensures DepartmentCounts(Current, emps) == DepartmentCounts(Twin, emps)
    ensures RenderChart(Current, s, employees, chartFails).after == RenderChart(Twin, s, employees, chartFails).after
    ensures RenderChart(Current, s, employees, chartFails).drawn == RenderChart(Twin, s, employees, chartFails).drawn
    ensures s.attached ==> LoadChart(Current, s, a, chartFails) == LoadChart(Twin, s, a, chartFails)
    ensures SubmitAdd(Current, f) == SubmitAdd(Twin, f) && SubmitEdit(Current, f) == SubmitEdit(Twin, f)
    ensures Prefill(Current, r, users) == Prefill(Twin, r, users)
    ensures FilterAdditions(Current, n, ds) == FilterAdditions(Twin, n, ds)
    ensures DeleteRun(Current, [DeleteClick(Some(id)), ConfirmNo]) != DeleteRun(Twin, [DeleteClick(Some(id)), ConfirmNo])
  {
    assert KeysOf(Current, emps) == KeysOf(Twin, emps);
    assert KeysOf(Current, employees.GetOr([])) == KeysOf(Twin, employees.GetOr([]));
    CancelKeepsId(id);
  }
}
