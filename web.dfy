/** What the controllers share: the views they return, the pages they
    render, and the HTTP session. */
module Web {
  import opened Wrappers
  import opened Model

  /** A handler's result: a template to render, or a redirect to `path`
      carrying at most one query flag `?<flag>=true`. */
  datatype View = Template(name: string) | Redirect(path: string, flag: Option<string>)

  /** The string the handler returns for `v`. */
  function Render(v: View): (rendered: string) {
    match v
    case Template(name) => name
    case Redirect(path, None) => "redirect:" + path
    case Redirect(path, Some(flag)) => "redirect:" + path + "?" + flag + "=true"
  }

  /** `redirect:/tasks`, where a successful login or profile edit leads. */
  const TaskList: View := Redirect("/tasks", None)

  /** The request parameter `name` of the request that follows `v`. */
  function QueryParam(v: View, name: string): (param: Option<string>) {
    if v.Redirect? && v.flag == Some(name) then Some("true") else None
  }

  /** A rendered page: its template and its `errorMessage` attribute. */
  datatype Page = Page(template: string, errorMessage: Option<string>)

  /** The HTTP session; only its attribute "user" is modelled. */
  class Session {
    var user: Option<User>

    constructor ()
      ensures user == None
    {
      user := None;
    }

    /** `session.invalidate()`: the attributes are gone. */
    method Invalidate()
      modifies this
      ensures user == None
    {
      user := None;
    }
  }
}
