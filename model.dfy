/** The persistent entities of the to-do application. */
module Model {
  import opened Wrappers

  /** `LocalDateTime created`: only copied, never inspected. */
  datatype Timestamp = Timestamp(ticks: int)

  /** A row of table `categories`. */
  datatype Category = Category(id: int, name: string)

  /** A row of table `priorities`. */
  datatype Priority = Priority(id: int, name: string, position: int)

  /** A row of table `todo_users`; the password is kept in plain text. */
  datatype User = User(id: int, name: string, login: string, password: string)

  /** A row of table `tasks`, with its many-to-one owner and priority and
      its many-to-many categories. */
  datatype Task = Task(
    id: int,
    name: string,
    description: string,
    created: Timestamp,
    done: bool,
    user: Option<User>,
    priority: Priority,
    categories: seq<Category>)
}
