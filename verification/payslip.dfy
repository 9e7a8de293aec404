/** The salary-slip page (`frontend/slip.js`): the `salary_id` guard, the way
    the answer of the slip endpoint becomes a screen, and the figures the slip
    shows. Money is a natural number of paise. */
module Payslip {
  import opened JsText
  import AmountWords

  /** The slip record the backend returns; every figure may be null. */
  datatype SlipData = SlipData(
    name: Option<string>,
    employeeId: Option<string>,
    department: Option<string>,
    position: Option<string>,
    baseSalary: Option<nat>,
    overtimePay: Option<nat>,
    bonus: Option<nat>,
    deductions: Option<nat>,
    pfAmount: Option<nat>,
    totalSalary: Option<nat>)

  /** What the slip shows. */
  datatype SlipView = SlipView(
    name: string,
    employeeId: string,
    department: string,
    position: string,
    baseSalary: nat,
    overtimePay: nat,
    bonus: nat,
    totalEarnings: nat,
    deductions: nat,
    pfAmount: nat,
    totalDeductions: nat,
    netPay: nat,
    netPayWords: string)

  // ------------------------------------------------------------- guard

  /** What the page does once its elements are found. */
  datatype Start = MissingSalaryId | FetchSlip(salaryId: string)

  const MissingIdMessage := "Error: No Salary ID provided in the URL."

  /** The `salary_id` query parameter guard: without a non-empty id the page
      shows an error and fetches nothing. */
  function StartPage(salaryId: Option<string>): (s: Start)
    ensures s == MissingSalaryId <==> !Truthy(salaryId)
    ensures s.FetchSlip? ==> salaryId == Some(s.salaryId) && s.salaryId != ""
  {
    if Truthy(salaryId) then FetchSlip(salaryId.value) else MissingSalaryId
  }

  // ------------------------------------------------------------ figures

  /** A text field shown with `?? 'N/A'`. */
  function TextOrNA(s: Option<string>): (r: string)
    ensures s.Some? ==> r == s.value
    ensures s.None? ==> r == "N/A"
  {
    s.GetOr("N/A")
  }

  /** A money field read with `?? 0`. */
  function Amount(x: Option<nat>): (r: nat)
    ensures x.Some? ==> r == x.value
    ensures x.None? ==> r == 0
  {
    x.GetOr(0)
  }

  /** The slip as rendered: the earnings and deductions totals are computed
      on the page, the net pay is the backend's `total_salary`. */
  function View(slip: SlipData): (v: SlipView)
    ensures v.totalEarnings == Amount(slip.baseSalary) + Amount(slip.overtimePay) + Amount(slip.bonus)
    ensures v.totalDeductions == Amount(slip.deductions) + Amount(slip.pfAmount)
    ensures v.totalEarnings == v.baseSalary + v.overtimePay + v.bonus
    ensures v.totalDeductions == v.deductions + v.pfAmount
    ensures v.netPay == Amount(slip.totalSalary)
    ensures v.netPayWords == "(Rupees " + AmountWords.ToWords(Some(v.netPay)) + ")"
    ensures v.name == TextOrNA(slip.name) && v.position == TextOrNA(slip.position)
    ensures v.employeeId == TextOrNA(slip.employeeId) && v.department == TextOrNA(slip.department)
  {
    var base := Amount(slip.baseSalary);
    var overtime := Amount(slip.overtimePay);
    var bonus := Amount(slip.bonus);
    var deductions := Amount(slip.deductions);
    var pf := Amount(slip.pfAmount);
    var net := Amount(slip.totalSalary);
    SlipView(TextOrNA(slip.name), TextOrNA(slip.employeeId), TextOrNA(slip.department), TextOrNA(slip.position),
             base, overtime, bonus, base + overtime + bonus,
             deductions, pf, deductions + pf,
             net, "(Rupees " + AmountWords.ToWords(Some(net)) + ")")
  }

  // ------------------------------------------------------------ screen

  /** The answer of `GET /salaries/<id>`: a throw (network or JSON parse,
      with its message), or a status with, for an error status, the `error`
      field of a JSON error body and, for an OK status, the slip (`None` for
      a null body). */
  datatype Answer =
    | Thrown(message: string)
    | Response(status: nat, errorField: Option<string>, slip: Option<SlipData>)

  datatype Screen = Unauthorized | LoadError(message: string) | Shown(view: SlipView)

  const EmptySlipMessage := "Received empty salary slip data from server."

  function StatusMessage(status: nat): string {
    "Failed to fetch salary slip data (Status: " + DecimalText(status) + ")"
  }

  /** `fetchSalarySlipData`: what the page shows for an answer. */
  function ShowAnswer(a: Answer): (s: Screen)
    ensures s.Shown? <==> a.Response? && 200 <= a.status <= 299 && a.slip.Some?
    ensures s.Shown? ==> s.view == View(a.slip.value)
    ensures s == Unauthorized <==> a.Response? && a.status == 401
    ensures a.Response? && !(200 <= a.status <= 299) && a.status != 401 ==>
              s == LoadError(OrElse(a.errorField, StatusMessage(a.status)))
    ensures a.Thrown? ==> s == LoadError(a.message)
    ensures a.Response? && 200 <= a.status <= 299 && a.slip.None? ==> s == LoadError(EmptySlipMessage)
  {
    match a
    case Thrown(message) => LoadError(message)
    case Response(status, errorField, slip) =>
      if !(200 <= status <= 299) then
        if status == 401 then Unauthorized
        else LoadError(OrElse(errorField, StatusMessage(status)))
      else if slip.None? then LoadError(EmptySlipMessage)
      else Shown(View(slip.value))
  }

  // ------------------------------------------------------------ lemmas

  /** The net pay is the backend's `total_salary` and nothing else: every
      other figure can change without changing the net pay or its words. */
  lemma NetPayIgnoresComponents(slip: SlipData, base: Option<nat>, overtime: Option<nat>, bonus: Option<nat>,
                                deductions: Option<nat>, pf: Option<nat>)
    ensures var other := slip.(baseSalary := base, overtimePay := overtime, bonus := bonus,
                               deductions := deductions, pfAmount := pf);
            View(other).netPay == View(slip).netPay && View(other).netPayWords == View(slip).netPayWords
  {
  }

  /** Two slips: one whose earnings minus deductions differ from its
      `total_salary`, which still shows `total_salary`, and one with every
      field null, which shows zeros, `N/A` and "(Rupees Zero)". */
  lemma SlipExamples()
    ensures var v := View(SlipData(None, None, None, None, Some(100), Some(50), None, Some(30), None, Some(0)));
            v.netPay == 0 && v.totalEarnings - v.totalDeductions == 120 && v.netPayWords == "(Rupees Zero)"
    ensures var v := View(SlipData(None, None, None, None, None, None, None, None, None, None));
            && v.totalEarnings == 0 && v.totalDeductions == 0 && v.netPay == 0
            && v.name == "N/A" && v.netPayWords == "(Rupees Zero)"
  {
  }

  /** The words line spells the net pay: above the limit it says the number
      is too large, and otherwise it reads back as the net pay. */
  lemma NetPayWordsReadBack(slip: SlipData)
    ensures var v := View(slip);
            && (v.netPay > AmountWords.Limit ==> v.netPayWords == "(Rupees Number too large)")
            && (0 < v.netPay <= AmountWords.Limit ==>
                  AmountWords.Value(AmountWords.WordsOf(v.netPay / 100)) * 100
                  + AmountWords.Value(AmountWords.WordsOf(v.netPay % 100)) == v.netPay)
  {
    var v := View(slip);
    if 0 < v.netPay <= AmountWords.Limit {
      AmountWords.ToWordsSpellsAmount(v.netPay);
    }
  }
}
