/** `UserController`: the profile page and the profile form, with the
    controller-local handler for `IllegalStateException`. */
module UserController {
  import opened Wrappers
  import opened Model
  import opened Web
  import opened UserRepository
  import opened UserService
  import AuthFilter

  const OldPasswordWrong: string := "Неверно введен старый пароль"

  /** Where a form with a wrong old password is sent. */
  const AfterWrongPassword: View := Redirect("/userEdit", Some("password"))

  /** `getUserEdit`: the profile template, with the wrong-old-password
      message exactly when the `password` flag is present. */
  function GetUserEdit(password: Option<string>): (p: Page)
    ensures p.template == "user/userEdit"
    ensures p.errorMessage == Some(OldPasswordWrong) <==> password.Some?
    ensures p.errorMessage.None? <==> password.None?
  {
    Page("user/userEdit", if password.Some? then Some(OldPasswordWrong) else None)
  }

  /** `illegalStateExceptionHandler`: only `IllegalStateException` is
      caught, and becomes a redirect back with `password=true`. */
  function IllegalStateExceptionHandler(e: Failure): (r: Result<View>)
    ensures r.Ok? <==> e == IllegalState
    ensures r.Ok? ==> r.value == AfterWrongPassword && Render(r.value) == "redirect:/userEdit?password=true"
    ensures r.Err? ==> r.error == e
  {
    if e == IllegalState then Ok(AfterWrongPassword) else Err(e)
  }

  class UserController {
    const users: ImplUserService

    constructor (users: ImplUserService)
      ensures this.users == users
    {
      this.users := users;
    }

    /** `userEdit`: a form with validation errors re-renders the template.
        Otherwise the stored user with the form's login is looked up (an
        unknown login escapes as `NoSuchElementException`); an absent or
        different old password redirects back with `password=true`; then the
        form replaces the stored row (a failed update escapes as
        `NoSuchElementException`) and becomes the session user. Only a
        completed edit changes the table or the session. */
    method UserEdit(user: User, hasErrors: bool, oldPassword: Option<string>, session: Session,
                    lookupFault: bool, updateFault: bool) returns (r: Result<View>)
      requires users.repository.Valid()
      modifies users.repository, session
      ensures users.repository.Valid()
      ensures hasErrors ==> r == Ok(Template("user/userEdit"))
      ensures !hasErrors && (lookupFault || !LoginTaken(old(users.repository.users), user.login)) ==>
                r == Err(NotFound)
      ensures !hasErrors && !lookupFault && LoginTaken(old(users.repository.users), user.login)
              && !(oldPassword.Some? && Accepts(old(users.repository.users), user.login, oldPassword.value)) ==>
                r == Ok(AfterWrongPassword) && Render(r.value) == "redirect:/userEdit?password=true"
      ensures r == Ok(TaskList) <==>
                !hasErrors && !lookupFault && oldPassword.Some?
                && Accepts(old(users.repository.users), user.login, oldPassword.value)
                && !updateFault && user.id in old(users.repository.users)
                && !LoginTakenByOther(old(users.repository.users), user.id, user.login)
      ensures !hasErrors && !lookupFault && oldPassword.Some?
              && Accepts(old(users.repository.users), user.login, oldPassword.value)
              && (updateFault || user.id !in old(users.repository.users)
                  || LoginTakenByOther(old(users.repository.users), user.id, user.login)) ==>
                r == Err(NotFound)
      ensures r.Err? ==> r.error == NotFound
      ensures r == Ok(TaskList) ==>
                session.user == Some(user) && users.repository.users == old(users.repository.users)[user.id := user]
      ensures r != Ok(TaskList) ==>
                session.user == old(session.user) && users.repository.users == old(users.repository.users)
      ensures users.repository.nextId == old(users.repository.nextId)
    {
      if hasErrors {
        return Ok(Template("user/userEdit"));
      }
      var stored := users.FindUserByLogin(user.login, lookupFault);
      if stored.Err? {
        return IllegalStateExceptionHandler(stored.error);
      }
      if oldPassword.None? || oldPassword.value != stored.value.password {
        return Ok(AfterWrongPassword);
      }
      var updated := users.Update(user, updateFault);
      if updated.Err? {
        return IllegalStateExceptionHandler(updated.error);
      }
      session.user := Some(user);
      r := Ok(TaskList);
    }
  }

  /** The redirect back to the profile page is not public: a session user
      sees the page with the wrong-old-password message, an empty session is
      sent to the login page. */
  lemma {:induction false} WrongPasswordNeedsSessionUser(contextPath: string, u: User)
    ensures AuthFilter.DoFilter(contextPath + AfterWrongPassword.path, contextPath, Some(u)) == AuthFilter.Chain
    ensures AuthFilter.DoFilter(contextPath + AfterWrongPassword.path, contextPath, None)
              == AuthFilter.SendRedirect(contextPath + "/login")
    ensures GetUserEdit(QueryParam(AfterWrongPassword, "password")) == Page("user/userEdit", Some(OldPasswordWrong))
  {
    var uri := contextPath + "/userEdit";
    assert uri[|uri| - 1] == 't';
    assert !AuthFilter.EndsWith(uri, "/");
    assert !AuthFilter.EndsWith(uri, "login");
    assert !AuthFilter.EndsWith(uri, "registration");
  }
}
