/** `LoginController`: the login page, the login form, logout, and the
    controller-local handler that turns a rejected login into a redirect. */
module LoginController {
  import opened Wrappers
  import opened Model
  import opened Web
  import opened UserRepository
  import opened UserService
  import AuthFilter

  const BadCredentials: string := "Имя аккаунта или пароль введены неправильно!"
  const LoggedOut: string := "Вы вышли!"

  /** Where a rejected login is sent. */
  const AfterBadLogin: View := Redirect("/login", Some("error"))
  /** Where logout is sent. */
  const AfterLogout: View := Redirect("/login", Some("logout"))

  /** `loginPage`: the login template; the logout notice takes precedence
      over the bad-credentials message, and no flag means no message. */
  function LoginPage(error: Option<string>, logout: Option<string>): (p: Page)
    ensures p.template == "user/login"
    ensures p.errorMessage.None? <==> error.None? && logout.None?
    ensures logout.Some? ==> p.errorMessage == Some(LoggedOut)
    ensures logout.None? && error.Some? ==> p.errorMessage == Some(BadCredentials)
  {
    var afterError := if error.Some? then Some(BadCredentials) else None;
    Page("user/login", if logout.Some? then Some(LoggedOut) else afterError)
  }

  /** `exceptionHandler`: `IllegalArgumentException` and
      `NoSuchElementException` become a redirect to the login page with
      `error=true`; any other exception escapes. */
  function ExceptionHandler(e: Failure): (r: Result<View>)
    ensures r.Ok? <==> e == InvalidArgument || e == NotFound
    ensures r.Ok? ==> r.value == AfterBadLogin && Render(r.value) == "redirect:/login?error=true"
    ensures r.Err? ==> r.error == e
  {
    if e == InvalidArgument || e == NotFound then Ok(AfterBadLogin) else Err(e)
  }

  class LoginController {
    const users: ImplUserService

    constructor (users: ImplUserService)
      ensures this.users == users
    {
      this.users := users;
    }

    /** `loginUser`: a login/password pair the table accepts puts the stored
        user into the session and leads to the task list; any other attempt
        (unknown login, wrong password, store failure) is caught by
        `ExceptionHandler` and leaves the session as it was. */
    method LoginUser(user: User, session: Session, fault: bool) returns (r: Result<View>)
      requires users.repository.Valid()
      modifies session
      ensures r.Ok?
      ensures r.value == TaskList <==> !fault && Accepts(users.repository.users, user.login, user.password)
      ensures r.value == TaskList ==> Render(r.value) == "redirect:/tasks"
      ensures r.value == TaskList ==>
                session.user.Some? && Stored(users.repository.users, session.user.value)
                && session.user.value.login == user.login && session.user.value.password == user.password
      ensures r.value != TaskList ==> r.value == AfterBadLogin && session.user == old(session.user)
    {
      var validated := users.ValidateUserLogin(user, fault);
      if validated.Err? {
        r := ExceptionHandler(validated.error);
      } else {
        session.user := Some(validated.value);
        r := Ok(TaskList);
      }
    }

    /** `logoutPage`: the session is invalidated and the browser is sent to
        the login page with `logout=true`. */
    method LogoutPage(session: Session) returns (v: View)
      modifies session
      ensures session.user == None
      ensures v == AfterLogout && Render(v) == "redirect:/login?logout=true"
    {
      session.Invalidate();
      v := AfterLogout;
    }
  }

  /** A rejected login lands on the login page, which the filter serves
      without a session user, showing the bad-credentials message. */
  lemma {:induction false} RejectedLoginShowsMessage(e: Failure, contextPath: string, sessionUser: Option<User>)
    requires ExceptionHandler(e).Ok?
    ensures AuthFilter.DoFilter(contextPath + ExceptionHandler(e).value.path, contextPath, sessionUser)
              == AuthFilter.Chain
    ensures LoginPage(QueryParam(ExceptionHandler(e).value, "error"),
                      QueryParam(ExceptionHandler(e).value, "logout"))
              == Page("user/login", Some(BadCredentials))
  {
    AuthFilter.PublicPages(contextPath);
  }

  /** After logout the session is empty, and the login page is still served
      and shows the logout notice. */
  lemma {:induction false} LogoutShowsNotice(contextPath: string)
    ensures AuthFilter.DoFilter(contextPath + AfterLogout.path, contextPath, None) == AuthFilter.Chain
    ensures LoginPage(QueryParam(AfterLogout, "error"), QueryParam(AfterLogout, "logout"))
              == Page("user/login", Some(LoggedOut))
  {
    AuthFilter.PublicPages(contextPath);
  }

  /** After a successful login the session holds a user, so the filter lets
      the task list through, while an empty session is sent to the login
      page instead. */
  lemma {:induction false} TaskListNeedsSessionUser(contextPath: string, u: User)
    ensures AuthFilter.DoFilter(contextPath + TaskList.path, contextPath, Some(u)) == AuthFilter.Chain
    ensures AuthFilter.DoFilter(contextPath + TaskList.path, contextPath, None)
              == AuthFilter.SendRedirect(contextPath + "/login")
  {
    var uri := contextPath + "/tasks";
    assert uri[|uri| - 1] == 's';
    assert !AuthFilter.EndsWith(uri, "/");
    assert !AuthFilter.EndsWith(uri, "login");
    assert !AuthFilter.EndsWith(uri, "registration");
  }
}
