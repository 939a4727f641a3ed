/** `RegController`: the registration page and the registration form, with
    the controller-local handler for a duplicate account. */
module RegController {
  import opened Wrappers
  import opened Model
  import opened Web
  import opened UserRepository
  import opened UserService
  import AuthFilter
  import LoginController

  const PasswordsDiffer: string := "Пароли должны совпадать!"
  const AccountExists: string := "Пользователь с таким email существует!"

  /** Where a form whose two passwords differ is sent. */
  const AfterMismatch: View := Redirect("/registration", Some("password"))
  /** Where a rejected registration is sent. */
  const AfterDuplicate: View := Redirect("/registration", Some("account"))
  /** Where a completed registration is sent. */
  const AfterRegistration: View := Redirect("/login", None)

  /** `regPage`: the registration template; the duplicate-account message
      takes precedence over the password-mismatch message. */
  function RegPage(password: Option<string>, account: Option<string>): (p: Page)
    ensures p.template == "user/registration"
    ensures p.errorMessage.None? <==> password.None? && account.None?
    ensures account.Some? ==> p.errorMessage == Some(AccountExists)
    ensures account.None? && password.Some? ==> p.errorMessage == Some(PasswordsDiffer)
  {
    var afterPassword := if password.Some? then Some(PasswordsDiffer) else None;
    Page("user/registration", if account.Some? then Some(AccountExists) else afterPassword)
  }

  /** `illegalArgumentExceptionHandler`: only `IllegalArgumentException` is
      caught, and becomes a redirect back with `account=true`. */
  function IllegalArgumentExceptionHandler(e: Failure): (r: Result<View>)
    ensures r.Ok? <==> e == InvalidArgument
    ensures r.Ok? ==> r.value == AfterDuplicate && Render(r.value) == "redirect:/registration?account=true"
    ensures r.Err? ==> r.error == e
  {
    if e == InvalidArgument then Ok(AfterDuplicate) else Err(e)
  }

  class RegController {
    const users: ImplUserService

    constructor (users: ImplUserService)
      ensures this.users == users
    {
      this.users := users;
    }

    /** `regSave`: a form with validation errors re-renders the template; two
        different passwords redirect back with `password=true`; otherwise the
        user is added, and a duplicate login or a store failure redirects back
        with `account=true`. Only a completed registration changes the table,
        and the new account then passes the login check. */
    method RegSave(user: User, hasErrors: bool, repassword: string, fault: bool) returns (r: Result<View>)
      requires users.repository.Valid()
      modifies users.repository
      ensures users.repository.Valid()
      ensures r.Ok?
      ensures hasErrors ==> r.value == Template("user/registration")
      ensures !hasErrors && user.password != repassword ==>
                r.value == AfterMismatch && Render(r.value) == "redirect:/registration?password=true"
      ensures !hasErrors && user.password == repassword && (fault || LoginTaken(old(users.repository.users), user.login)) ==>
                r.value == AfterDuplicate
      ensures r.value == AfterRegistration <==>
                !hasErrors && user.password == repassword && !fault && !LoginTaken(old(users.repository.users), user.login)
      ensures r.value == AfterRegistration ==>
                Render(r.value) == "redirect:/login"
                && users.repository.users
                     == old(users.repository.users)[old(users.repository.nextId) := user.(id := old(users.repository.nextId))]
                && Accepts(users.repository.users, user.login, user.password)
      ensures r.value != AfterRegistration ==>
                users.repository.users == old(users.repository.users)
                && users.repository.nextId == old(users.repository.nextId)
    {
      if hasErrors {
        return Ok(Template("user/registration"));
      }
      if user.password != repassword {
        return Ok(AfterMismatch);
      }
      var added := users.Add(user, fault);
      if added.Err? {
        r := IllegalArgumentExceptionHandler(added.error);
      } else {
        assert users.repository.users[added.value.id] == added.value;
        r := Ok(AfterRegistration);
      }
    }
  }

  /** Each redirect back to the registration page is served without a
      session user and shows the message its flag names. */
  lemma {:induction false} RejectedRegistrationShowsMessage(contextPath: string)
    ensures AuthFilter.DoFilter(contextPath + AfterMismatch.path, contextPath, None) == AuthFilter.Chain
    ensures RegPage(QueryParam(AfterMismatch, "password"), QueryParam(AfterMismatch, "account"))
              == Page("user/registration", Some(PasswordsDiffer))
    ensures RegPage(QueryParam(AfterDuplicate, "password"), QueryParam(AfterDuplicate, "account"))
              == Page("user/registration", Some(AccountExists))
  {
    AuthFilter.PublicPages(contextPath);
  }

  /** A completed registration lands on the login page, served without a
      session user and with no message. */
  lemma {:induction false} RegistrationLeadsToCleanLogin(contextPath: string)
    ensures AuthFilter.DoFilter(contextPath + AfterRegistration.path, contextPath, None) == AuthFilter.Chain
    ensures LoginController.LoginPage(QueryParam(AfterRegistration, "error"), QueryParam(AfterRegistration, "logout"))
              == Page("user/login", None)
  {
    AuthFilter.PublicPages(contextPath);
  }
}
