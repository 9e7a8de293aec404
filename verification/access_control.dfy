/** The page-access controller: the decision each copy of `auth.js` (and the
    inline gate of `frontend/attendance.js`) takes from the current URL path
    and the answer of the `check-auth` endpoint. The request itself is not
    modelled: its outcome is an input. */
module AccessControl {
  import opened JsText

  /** The parsed JSON body of `check-auth`. `loggedIn` is the truthiness of
      `logged_in` (absent counts as false). */
  datatype Session = Session(loggedIn: bool, role: Option<string>, username: Option<string>)

  /** What the `check-auth` request produced. `body` is `None` when reading
      the body as JSON throws, or when it parses to `null` (reading
      `logged_in` of `null` throws as well). */
  datatype Outcome =
    | NetworkError
    | Reply(status: int, body: Option<Session>)

  /** The three things the controller can do. `Proceed` lets the page run
      and shows `display` as the user name. */
  datatype Decision =
    | Redirect(target: string)
    | Proceed(display: Option<string>)
    | NoAction

  const LoginPage := "login.html"
  const AdminHome := "index.html"
  const EmployeeHome := "my_dashboard.html"
  const SlipPage := "slip.html"
  const AdminPages: seq<string> := ["index.html", "payroll.html", "reports.html", "attendance.html", "salary.html"]
  const EmployeePages: seq<string> := ["my_dashboard.html"]

  /** `Response.ok`. */
  predicate Ok(status: int) {
    200 <= status <= 299
  }

  /** `location.pathname.split('/').pop() || 'index.html'`. */
  function PageOf(path: string): (page: string)
    ensures page != ""
    ensures '/' !in page
    ensures EndsWithPage(path, page) || (page == AdminHome && (|path| == 0 || path[|path| - 1] == '/'))
  {
    var last := LastPart(path, '/');
    if last == "" then AdminHome else last
  }

  /** `path` ends with the segment `page` (after a `/` or at the start). */
  predicate EndsWithPage(path: string, page: string) {
    |page| <= |path| && path[|path| - |page|..] == page
    && (|page| == |path| || path[|path| - |page| - 1] == '/')
  }

  /** Every reading of the outcome that ends up "not signed in": redirect
      to the login page, unless already there. */
  function FailClosed(onLogin: bool): (d: Decision)
    ensures onLogin <==> d == NoAction
    ensures !onLogin <==> d == Redirect(LoginPage)
  {
    if onLogin then NoAction else Redirect(LoginPage)
  }

  /** The outcome carries a signed-in session: reply OK, body parsed,
      `logged_in` truthy. */
  predicate SignedIn(o: Outcome) {
    o.Reply? && Ok(o.status) && o.body.Some? && o.body.value.loggedIn
  }

  function RoleOf(o: Outcome): Option<string>
    requires SignedIn(o)
  {
    o.body.value.role
  }

  predicate KnownRole(role: Option<string>) {
    role == Some("admin") || role == Some("employee")
  }

  // ------------------------------------------------------------ auth.js

  /** The decision of the top-level `auth.js`. */
  function RootDecide(path: string, o: Outcome): (d: Decision)
    ensures d.Redirect? ==> d.target in {LoginPage, AdminHome, EmployeeHome}
    ensures d.Redirect? ==> d.target != PageOf(path)
    ensures d == NoAction <==> PageOf(path) == LoginPage && !SignedIn(o)
    ensures d.Proceed? ==> SignedIn(o) && d.display == o.body.value.username
  {
    var page := PageOf(path);
    var onLogin := page == LoginPage;
    match o
    case NetworkError => FailClosed(onLogin)
    case Reply(status, body) =>
      if !Ok(status) then FailClosed(onLogin)
      else if body.None? || !body.value.loggedIn then FailClosed(onLogin)
      else
        RootRoleDecision(page, body.value.role, body.value.username)
  }

  /** The role-based part of `auth.js` for a signed-in session: any role
      other than admin is treated as employee on the login page, and as
      neither elsewhere. */
  function RootRoleDecision(page: string, role: Option<string>, username: Option<string>): (d: Decision)
    ensures d != NoAction
    ensures d.Redirect? ==> d.target in {AdminHome, EmployeeHome} && d.target != page
    ensures d.Proceed? ==> d.display == username
  {
    var isAdmin := role == Some("admin");
    var isEmployee := role == Some("employee");
    if page == LoginPage then Redirect(if isAdmin then AdminHome else EmployeeHome)
    else if isAdmin && page == EmployeeHome then Redirect(AdminHome)
    else if isEmployee && page in AdminPages then Redirect(EmployeeHome)
    else Proceed(username)
  }

  // ------------------------------------------- jnaneshFrontend/auth.js

  /** The decision of `jnaneshFrontend/auth.js`, as written: a signed-in
      session with a role other than admin/employee is sent to the login
      page even when that is the page already showing. */
  function JnaneshDecide(path: string, o: Outcome): (d: Decision)
    ensures d.Redirect? ==> d.target in {LoginPage, AdminHome, EmployeeHome}
    ensures d == NoAction <==> PageOf(path) == LoginPage && !SignedIn(o)
    ensures d.Proceed? ==> SignedIn(o) && KnownRole(RoleOf(o)) && d.display == o.body.value.username
    ensures SignedIn(o) && !KnownRole(RoleOf(o)) ==> d == Redirect(LoginPage)
  {
    var page := PageOf(path);
    var onLogin := page == LoginPage;
    match o
    case NetworkError => FailClosed(onLogin)
    case Reply(status, body) =>
      if !Ok(status) then FailClosed(onLogin)
      else if body.None? || !body.value.loggedIn then FailClosed(onLogin)
      else
        var s := body.value;
        var isAdmin := s.role == Some("admin");
        var isEmployee := s.role == Some("employee");
        if !isAdmin && !isEmployee then Redirect(LoginPage)
        else KnownRoleDecision(page, isAdmin, s.username)
  }

  /** The role-based part of `jnaneshFrontend/auth.js`, for a recognised
      role (`isAdmin` false means employee). */
  function KnownRoleDecision(page: string, isAdmin: bool, username: Option<string>): (d: Decision)
    ensures page == LoginPage ==> d == Redirect(if isAdmin then AdminHome else EmployeeHome)
    ensures d.Redirect? ==> d.target != page
    ensures d.Proceed? <==> page != LoginPage && !(isAdmin && page in EmployeePages) && !(!isAdmin && page in AdminPages)
  {
    if page == LoginPage then Redirect(if isAdmin then AdminHome else EmployeeHome)
    else if isAdmin && page in EmployeePages then Redirect(AdminHome)
    else if !isAdmin && page in AdminPages then Redirect(EmployeeHome)
    else Proceed(username)
  }

  /** The same controller with the unknown-role branch failing closed like
      every other "not signed in" branch: no redirect on the login page. */
  function JnaneshDecideFixed(path: string, o: Outcome): (d: Decision)
    ensures d.Redirect? ==> d.target != PageOf(path)
    ensures SignedIn(o) && !KnownRole(RoleOf(o)) ==> d == FailClosed(PageOf(path) == LoginPage)
    ensures !(SignedIn(o) && !KnownRole(RoleOf(o))) ==> d == JnaneshDecide(path, o)
  {
    if SignedIn(o) && !KnownRole(RoleOf(o)) then FailClosed(PageOf(path) == LoginPage)
    else JnaneshDecide(path, o)
  }

  // ------------------------------------------------- frontend/auth.js

  /** `checkLoginStatus` of `frontend/auth.js`: only 401 is checked before
      the body is read, any throw redirects, and there is no page or role
      logic at all. */
  function CheckLoginStatus(o: Outcome): (d: Decision)
    ensures d != NoAction
    ensures d.Redirect? ==> d.target == LoginPage
    ensures d.Proceed? <==> o.Reply? && o.status != 401 && o.body.Some? && o.body.value.loggedIn
    ensures d.Proceed? ==> d.display == Some(OrElse(o.body.value.username, "user"))
  {
    match o
    case NetworkError => Redirect(LoginPage)
    case Reply(status, body) =>
      if status == 401 then Redirect(LoginPage)
      else if body.None? || !body.value.loggedIn then Redirect(LoginPage)
      else Proceed(Some(OrElse(body.value.username, "user")))
  }

  // ------------------------------------------ frontend/attendance.js

  /** The inline `DOMContentLoaded` gate of `frontend/attendance.js`: the
      body is read whatever the status; `Proceed` also runs the page logic. */
  function AttendanceGate(o: Outcome): (d: Decision)
    ensures d != NoAction
    ensures d.Redirect? ==> d.target == LoginPage
    ensures d.Proceed? <==> o.Reply? && o.body.Some? && o.body.value.loggedIn
    ensures d.Proceed? ==> d.display == o.body.value.username
  {
    match o
    case NetworkError => Redirect(LoginPage)
    case Reply(_, body) =>
      if body.None? || !body.value.loggedIn then Redirect(LoginPage)
      else Proceed(body.value.username)
  }

  // ------------------------------------------------------------ lemmas

  /** The page name is the last path segment, `index.html` when it is empty. */
  lemma PageIsLastSegment(path: string)
    ensures LastPart(path, '/') != "" ==> PageOf(path) == LastPart(path, '/')
    ensures LastPart(path, '/') == "" ==> PageOf(path) == AdminHome
    ensures PageOf("/") == AdminHome && PageOf("/app/payroll.html") == "payroll.html"
  {
    LastPartAfterSep("", "", '/');
    assert "" + ['/'] + "" == "/";
    LastPartAfterSep("/app", "payroll.html", '/');
    assert "/app" + ['/'] + "payroll.html" == "/app/payroll.html";
  }

  /** On a non-OK status, redirect to login exactly when not already there. */
  lemma RootNotOk(path: string, status: int, body: Option<Session>)
    requires !Ok(status)
    ensures RootDecide(path, Reply(status, body)) == FailClosed(PageOf(path) == LoginPage)
    ensures JnaneshDecide(path, Reply(status, body)) == FailClosed(PageOf(path) == LoginPage)
  {
  }

  /** `logged_in` false: redirect to login exactly when not already there. */
  lemma RootNotLoggedIn(path: string, status: int, s: Session)
    requires Ok(status) && !s.loggedIn
    ensures RootDecide(path, Reply(status, Some(s))) == FailClosed(PageOf(path) == LoginPage)
    ensures JnaneshDecide(path, Reply(status, Some(s))) == FailClosed(PageOf(path) == LoginPage)
  {
  }

  /** A thrown fetch or body parse fails closed, exempting the login page. */
  lemma RootThrown(path: string, status: int)
    ensures RootDecide(path, NetworkError) == FailClosed(PageOf(path) == LoginPage)
    ensures Ok(status) ==> RootDecide(path, Reply(status, None)) == FailClosed(PageOf(path) == LoginPage)
    ensures JnaneshDecide(path, NetworkError) == FailClosed(PageOf(path) == LoginPage)
  {
  }

  /** Signed in on the login page: admin goes to `index.html`, any other
      role, unknown ones included, to `my_dashboard.html`. */
  lemma RootSignedInOnLogin(path: string, o: Outcome)
    requires SignedIn(o) && PageOf(path) == LoginPage
    ensures RootDecide(path, o) == Redirect(if RoleOf(o) == Some("admin") then AdminHome else EmployeeHome)
  {
  }

  /** Admin on the employee page goes home; employee on an admin page goes
      to the dashboard. */
  lemma RootWrongRolePage(path: string, o: Outcome)
    requires SignedIn(o)
    ensures RoleOf(o) == Some("admin") && PageOf(path) == EmployeeHome ==> RootDecide(path, o) == Redirect(AdminHome)
    ensures RoleOf(o) == Some("employee") && PageOf(path) in AdminPages ==> RootDecide(path, o) == Redirect(EmployeeHome)
  {
    PageClassesDisjoint();
    assert RootDecide(path, o) == RootRoleDecision(PageOf(path), RoleOf(o), o.body.value.username);
  }

  /** The login page, the employee page and the slip page are distinct and
      none of them is an admin page. */
  lemma PageClassesDisjoint()
    ensures LoginPage !in AdminPages && EmployeeHome !in AdminPages && SlipPage !in AdminPages
    ensures LoginPage != EmployeeHome && SlipPage != EmployeeHome && SlipPage != LoginPage
  {
  }

  /** The slip page, unlisted pages, and unknown roles off the login page all
      proceed and show the user name. */
  lemma RootProceeds(path: string, o: Outcome)
    requires SignedIn(o) && PageOf(path) != LoginPage
    requires PageOf(path) == SlipPage || PageOf(path) !in AdminPages + EmployeePages || !KnownRole(RoleOf(o))
    ensures RootDecide(path, o) == Proceed(o.body.value.username)
  {
    NotWrongRolePage(PageOf(path), RoleOf(o));
    RootProceedsOffLogin(path, o);
  }

  /** The slip page, a page outside both lists, or an unknown role never
      meets a wrong-role redirect. */
  lemma NotWrongRolePage(page: string, role: Option<string>)
    requires page == SlipPage || page !in AdminPages + EmployeePages || !KnownRole(role)
    ensures !(role == Some("admin") && page == EmployeeHome) && !(role == Some("employee") && page in AdminPages)
  {
    if page == SlipPage {
      assert page !in AdminPages && page != EmployeeHome;
    } else if page !in AdminPages + EmployeePages {
      assert page in AdminPages ==> page in AdminPages + EmployeePages;
      assert page == EmployeeHome ==> page in AdminPages + EmployeePages;
    }
  }

  /** Off the login page, a signed-in session proceeds unless one of the
      two wrong-role redirects applies. */
  lemma RootProceedsOffLogin(path: string, o: Outcome)
    requires SignedIn(o) && PageOf(path) != LoginPage
    requires !(RoleOf(o) == Some("admin") && PageOf(path) == EmployeeHome)
    requires !(RoleOf(o) == Some("employee") && PageOf(path) in AdminPages)
    ensures RootDecide(path, o) == Proceed(o.body.value.username)
  {
  }

  /** The page classes of `jnaneshFrontend/auth.js`: a signed-in admin
      proceeds on exactly the non-login pages other than the employee page,
      and an employee on exactly the non-login pages other than the five
      admin pages; the slip page is open to both. */
  lemma JnaneshPageClasses(path: string, o: Outcome)
    requires SignedIn(o) && KnownRole(RoleOf(o))
    ensures RoleOf(o) == Some("admin") ==>
              (JnaneshDecide(path, o).Proceed? <==> PageOf(path) != LoginPage && PageOf(path) != EmployeeHome)
    ensures RoleOf(o) == Some("employee") ==>
              (JnaneshDecide(path, o).Proceed? <==> PageOf(path) != LoginPage && PageOf(path) !in AdminPages)
    ensures PageOf(path) == SlipPage ==> JnaneshDecide(path, o) == Proceed(o.body.value.username)
  {
  }

  /** The two controllers agree on every outcome except a signed-in session
      whose role is neither admin nor employee. */
  lemma RootAndJnaneshAgree(path: string, o: Outcome)
    requires !(SignedIn(o) && !KnownRole(RoleOf(o)))
    ensures RootDecide(path, o) == JnaneshDecide(path, o)
  {
  }

  /** On an unknown role they differ: `auth.js` lets the page proceed (or,
      on the login page, sends to the dashboard) while
      `jnaneshFrontend/auth.js` always sends to the login page. */
  lemma UnknownRoleDiverges(path: string, o: Outcome)
    requires SignedIn(o) && !KnownRole(RoleOf(o))
    ensures PageOf(path) != LoginPage ==> RootDecide(path, o) == Proceed(o.body.value.username)
    ensures PageOf(path) == LoginPage ==> RootDecide(path, o) == Redirect(EmployeeHome)
    ensures JnaneshDecide(path, o) == Redirect(LoginPage)
    ensures RootDecide(path, o) != JnaneshDecide(path, o)
  {
  }

  /** As written, the unknown-role branch of `jnaneshFrontend/auth.js`
      reloads the login page from the login page, and the reloaded page
      takes the same decision again. */
  lemma JnaneshUnknownRoleReloadsLogin()
    ensures var o := Reply(200, Some(Session(true, Some("manager"), Some("mia"))));
            JnaneshDecide("/login.html", o) == Redirect(PageOf("/login.html"))
  {
    LastPartAfterSep("", "login.html", '/');
    assert "" + ['/'] + "login.html" == "/login.html";
  }

  /** `frontend/auth.js` has no login-page exemption and no role logic: a
      401 always redirects, a signed-in user always proceeds. */
  lemma LegacyGateIgnoresPageAndRole(o: Outcome, s: Session)
    ensures CheckLoginStatus(Reply(401, Some(s))) == Redirect(LoginPage)
    ensures s.loggedIn ==> CheckLoginStatus(Reply(200, Some(s))) == Proceed(Some(OrElse(s.username, "user")))
    ensures !s.loggedIn ==> CheckLoginStatus(Reply(200, Some(s))) == Redirect(LoginPage)
    ensures CheckLoginStatus(Reply(500, None)) == Redirect(LoginPage)
  {
  }

  /** The attendance gate never looks at the status or the role. */
  lemma AttendanceGateIgnoresStatusAndRole(status1: int, status2: int, s: Session, role: Option<string>)
    ensures AttendanceGate(Reply(status1, Some(s))) == AttendanceGate(Reply(status2, Some(s.(role := role))))
  {
  }
}
