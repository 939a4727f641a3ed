# To-do application core, modelled in Dafny

This project models the core of a small Spring/Hibernate to-do web
application. The model has four layers:

- **Repositories.** The four Hibernate repositories become in-memory tables.
  Tasks, categories and users are classes holding a `map` from id to row and
  a fresh-id counter. Ids start at 1, so id 0 means "not saved yet". The
  priority table is read-only reference data, given as its rows. Each HQL
  query becomes a function over the table: a filter on `done`, a filter on
  a set of ids, a lookup by login or by name, and `order by id`.
- **Services.** These are "optional-or-throw" steps (`Wrappers.OrElseThrow`).
  A typed `Failure` stands for the exception kind: `NoSuchElementException`
  becomes `NotFound`, `IllegalArgumentException` becomes `InvalidArgument`,
  `IllegalStateException` becomes `IllegalState`, and an exception raised by
  the store becomes `StoreError`. The services also resolve a task's
  priority by name before saving, dispatch add/update on `id == 0`,
  implement `taskDone`, and check a login's password as plain text.
- **The authentication filter.** This is a pure decision. It tests the URI
  against the allow-list of suffixes, then checks for a session user.
- **The login, registration and profile controllers.** The model covers
  their decision tables: which message a query flag selects, which check
  runs first, whether the store is written, and which view or redirect
  string is returned. The HTTP session is a class whose only field is the
  session user.

A store failure is an input to each repository call (`fault`), because it
comes from the database. The two kinds of `execute` wrapper handle it
differently:

- The task and category wrappers roll back and rethrow (`Err(StoreError)`).
- The user and priority wrappers roll back and return empty (`None`).

In every case a failed call leaves the table unchanged.

`session.update` on an id that has no row fails when Hibernate flushes.
The model treats this as a store failure of that call, not as a
precondition. This keeps the profile form's "update failed" path in the
model.

A few behaviours of the code that the contracts make visible:

- `ImplTaskService.update` and `add` would throw `IllegalArgumentException`
  on an empty repository result. Their documentation says
  `NoSuchElementException` for `update`; the code is followed. With
  the Hibernate task repository that path is unreachable, because a save
  returns its argument or throws. A store failure therefore reaches the
  caller as `StoreError`.
- `UserController.illegalStateExceptionHandler` catches only
  `IllegalStateException`, and nothing `userEdit` calls raises one. An
  unknown login or a failed update escapes the controller as `NotFound`.
  `UserController.UserController.UserEdit` states this.
- A priority name stored in two rows (two ids) makes `uniqueResult` throw. The wrapper
  reports that as empty, so the lookup fails although matching rows exist
  (`PriorityRepository.DuplicateNameNotFound`).
- The filter tests suffixes, not paths. Every URI that ends in `/` is
  public, whatever precedes the slash (`AuthFilter.TrailingSlashAllowed`).

## Model

| member | source | states |
|---|---|---|
| Wrappers.OrElseThrow | src/main/java/ru/job4j/todo/service/ImplPriorityService.java:35-37 | A present value is returned unchanged; an empty one fails with exactly the given exception kind |
| Wrappers.ThenOrElseThrow | src/main/java/ru/job4j/todo/service/ImplTaskService.java:73-75 | Succeeds exactly when the call returned a present value, and then gives that value; a rethrown exception passes through unchanged, and an empty result fails with the given kind |
| TaskRepository.Select | src/main/java/ru/job4j/todo/repository/HibernateTaskRepository.java:30-40 | The rows of an id range that satisfy the `done` filter: exactly the stored rows meeting it, strictly ascending by id |
| TaskRepository.NewAndDonePartitionAll | src/main/java/ru/job4j/todo/repository/HibernateTaskRepository.java:30-40 | No task is both new and done, and merging the new and done lists by id gives the full list |
| TaskRepository.HibernateTaskRepository.FindAllTasks | src/main/java/ru/job4j/todo/repository/HibernateTaskRepository.java:84-88 | Every stored task, in ascending id order; a store failure is rethrown |
| TaskRepository.HibernateTaskRepository.FindNewTasks | src/main/java/ru/job4j/todo/repository/HibernateTaskRepository.java:95-99 | Exactly the stored tasks with `done` false, in ascending id order; a store failure is rethrown |
| TaskRepository.HibernateTaskRepository.FindDoneTasks | src/main/java/ru/job4j/todo/repository/HibernateTaskRepository.java:106-110 | Exactly the stored tasks with `done` true, in ascending id order; a store failure is rethrown |
| TaskRepository.HibernateTaskRepository.FindTaskById | src/main/java/ru/job4j/todo/repository/HibernateTaskRepository.java:120-128 | The stored task with that id when there is one, empty otherwise; a store failure is rethrown |
| TaskRepository.HibernateTaskRepository.Update | src/main/java/ru/job4j/todo/repository/HibernateTaskRepository.java:136-144 | Replaces only the row with the task's id and returns the task; a failure or a missing row rethrows and leaves the table unchanged |
| TaskRepository.HibernateTaskRepository.Add | src/main/java/ru/job4j/todo/repository/HibernateTaskRepository.java:153-161 | Stores the task under a fresh non-zero id and returns the same task with that id; a failure rethrows and leaves the table unchanged |
| TaskRepository.HibernateTaskRepository.DeleteTaskById | src/main/java/ru/job4j/todo/repository/HibernateTaskRepository.java:168-174 | Removes only that id, after which no row has it; with no such row the table is unchanged; a failure rethrows |
| CategoryRepository.Select | src/main/java/ru/job4j/todo/repository/HibernateCategoryRepository.java:30-35 | The rows of an id range admitted by the filter (none, or `id in :ids`): exactly those stored rows, strictly ascending by id |
| CategoryRepository.SelectByIdSet | src/main/java/ru/job4j/todo/repository/HibernateCategoryRepository.java:35 | Two id lists with the same members select the same rows: order and repetition do not matter |
| CategoryRepository.UnknownIdsSelectNothing | src/main/java/ru/job4j/todo/repository/HibernateCategoryRepository.java:91-99 | A list of ids none of which is stored selects nothing |
| CategoryRepository.HibernateCategoryRepository.FindAllCategories | src/main/java/ru/job4j/todo/repository/HibernateCategoryRepository.java:79-83 | Every stored category, in ascending id order; a store failure is rethrown |
| CategoryRepository.HibernateCategoryRepository.FindCategoriesByIds | src/main/java/ru/job4j/todo/repository/HibernateCategoryRepository.java:91-99 | Exactly the stored categories whose id is in the list, in ascending id order; a store failure is rethrown |
| CategoryRepository.HibernateCategoryRepository.FindCategoryById | src/main/java/ru/job4j/todo/repository/HibernateCategoryRepository.java:109-117 | The stored category with that id, or empty when absent; a store failure is rethrown |
| CategoryRepository.HibernateCategoryRepository.Update | src/main/java/ru/job4j/todo/repository/HibernateCategoryRepository.java:125-133 | Replaces only the row with the category's id, keeping the id; a failure or a missing row rethrows and leaves the table unchanged |
| CategoryRepository.HibernateCategoryRepository.Add | src/main/java/ru/job4j/todo/repository/HibernateCategoryRepository.java:142-150 | Stores the category under a fresh non-zero id and returns it with that id; a failure rethrows and leaves the table unchanged |
| CategoryRepository.HibernateCategoryRepository.DeleteCategoryById | src/main/java/ru/job4j/todo/repository/HibernateCategoryRepository.java:157-163 | Removes only that id, after which no row has it; with no such row the table is unchanged; a failure rethrows |
| UserRepository.HibernateUserRepository.FindUserByLogin | src/main/java/ru/job4j/todo/repository/HibernateUserRepository.java:69-77 | The stored user with that login; empty exactly when the store fails or no row holds the login |
| UserRepository.HibernateUserRepository.Update | src/main/java/ru/job4j/todo/repository/HibernateUserRepository.java:85-93 | Returns the same user and replaces only its row; empty exactly on a failure, a missing row or a login held by another row, leaving the table unchanged; logins stay unique; no row is removed |
| UserRepository.HibernateUserRepository.Add | src/main/java/ru/job4j/todo/repository/HibernateUserRepository.java:102-110 | Returns the same user with a fresh id, who can then be found by login; empty exactly on a failure or an existing login, leaving the table unchanged; logins stay unique; no row is removed |
| PriorityRepository.Named | src/main/java/ru/job4j/todo/repository/HibernatePriorityRepository.java:29 | Exactly the rows whose name equals the argument |
| PriorityRepository.FindPriorityByName | src/main/java/ru/job4j/todo/repository/HibernatePriorityRepository.java:66-74 | A stored row with that name, found exactly when there is no failure and exactly one row has the name; an unknown name gives empty; reading never writes |
| PriorityRepository.UniqueNameFound | src/main/java/ru/job4j/todo/repository/HibernatePriorityRepository.java:66-74 | A name held by exactly one row finds that row |
| PriorityRepository.DuplicateNameNotFound | src/main/java/ru/job4j/todo/repository/HibernatePriorityRepository.java:42-56 | A name held by two rows with different ids gives empty, because the exception from `uniqueResult` is caught |
| PriorityService.FindPriorityByName | src/main/java/ru/job4j/todo/service/ImplPriorityService.java:34-38 | The repository's priority exactly as found, with that name; otherwise a `NoSuchElementException`; never null |
| UserService.ImplUserService.Add | src/main/java/ru/job4j/todo/service/ImplUserService.java:33-38 | The stored user with its fresh id; `IllegalArgumentException` exactly on a duplicate login or a store failure, with the table unchanged |
| UserService.ImplUserService.Update | src/main/java/ru/job4j/todo/service/ImplUserService.java:48-53 | The updated user; `NoSuchElementException` exactly when the repository gives empty, with the table unchanged |
| UserService.ImplUserService.FindUserByLogin | src/main/java/ru/job4j/todo/service/ImplUserService.java:63-68 | The stored user with that login, or `NoSuchElementException` exactly when there is none or the store fails; no write |
| UserService.ImplUserService.ValidateUserLogin | src/main/java/ru/job4j/todo/service/ImplUserService.java:81-88 | Success exactly when a stored user has this login and password, returning that stored user; unknown login gives `NoSuchElementException`; wrong password gives `IllegalArgumentException`; no write |
| TaskService.ImplTaskService.FindAllTasks | src/main/java/ru/job4j/todo/service/ImplTaskService.java:38-41 | Exactly the repository's full list, or its failure |
| TaskService.ImplTaskService.FindNewTasks | src/main/java/ru/job4j/todo/service/ImplTaskService.java:48-51 | Exactly the repository's list of new tasks, or its failure |
| TaskService.ImplTaskService.FindDoneTasks | src/main/java/ru/job4j/todo/service/ImplTaskService.java:58-61 | Exactly the repository's list of done tasks, or its failure |
| TaskService.ImplTaskService.FindTaskById | src/main/java/ru/job4j/todo/service/ImplTaskService.java:71-76 | The stored task with that id; `NoSuchElementException` when absent; a store failure passes through |
| TaskService.ImplTaskService.Update | src/main/java/ru/job4j/todo/service/ImplTaskService.java:84-91 | The task with its priority replaced by the stored priority of the same name replaces its row; an unresolvable priority fails with `NoSuchElementException` before any write |
| TaskService.ImplTaskService.Add | src/main/java/ru/job4j/todo/service/ImplTaskService.java:101-108 | The task with the resolved priority is stored under a fresh id; an unresolvable priority fails with `NoSuchElementException` before any write |
| TaskService.ImplTaskService.AddOrUpdateTask | src/main/java/ru/job4j/todo/service/ImplTaskService.java:116-125 | An unresolvable priority fails with `NoSuchElementException`; otherwise id 0 is added under a fresh id, succeeding exactly without a store failure, and any other id updates its row, succeeding exactly without a store failure when the row exists; the result differs from the input only in id and resolved priority; a failure leaves the table unchanged |
| TaskService.ImplTaskService.TaskDone | src/main/java/ru/job4j/todo/service/ImplTaskService.java:133-138 | A failed load rethrows and an unknown id fails with `NoSuchElementException`; otherwise the stored task is saved with `done` true and its priority re-resolved by name: an unresolvable priority fails with `NoSuchElementException`, a store failure rethrows, and otherwise that task replaces its row |
| TaskService.ImplTaskService.DeleteTaskById | src/main/java/ru/job4j/todo/service/ImplTaskService.java:145-148 | Exactly the repository's deletion, or its failure |
| AuthFilter.IsAllowed | src/main/java/ru/job4j/todo/filter/AuthFilter.java:66-68 | Allowed exactly when the URI ends with "login", "registration" or "/" |
| AuthFilter.DoFilter | src/main/java/ru/job4j/todo/filter/AuthFilter.java:40-57 | One outcome per request: pass exactly when the URI is allowed or the session holds a user, otherwise a redirect to the context path + "/login", which is itself allowed |
| AuthFilter.PublicPages | src/main/java/ru/job4j/todo/filter/AuthFilter.java:23-24 | The login, registration and root pages are public under any context path |
| AuthFilter.TrailingSlashAllowed | src/main/java/ru/job4j/todo/filter/AuthFilter.java:66-68 | Every URI ending in "/" is public |
| Web.Session.Invalidate | src/main/java/ru/job4j/todo/controller/LoginController.java:88 | The session no longer holds a user |
| LoginController.LoginPage | src/main/java/ru/job4j/todo/controller/LoginController.java:42-57 | Always the login template; no message without a flag, the bad-credentials text for `error`, and the logout text for `logout`, which wins over `error` |
| LoginController.ExceptionHandler | src/main/java/ru/job4j/todo/controller/LoginController.java:100-104 | Exactly `NoSuchElementException` and `IllegalArgumentException` become "redirect:/login?error=true"; other kinds escape unchanged |
| LoginController.LoginController.LoginUser | src/main/java/ru/job4j/todo/controller/LoginController.java:70-76 | "redirect:/tasks", with the stored user in the session, exactly when the login and password are accepted; otherwise "redirect:/login?error=true" with the session untouched |
| LoginController.LoginController.LogoutPage | src/main/java/ru/job4j/todo/controller/LoginController.java:86-90 | The session holds no user, and the result is "redirect:/login?logout=true" |
| LoginController.RejectedLoginShowsMessage | src/main/java/ru/job4j/todo/controller/LoginController.java:100-104 | The redirect after a rejected login passes the filter without a session and shows the bad-credentials message |
| LoginController.LogoutShowsNotice | src/main/java/ru/job4j/todo/controller/LoginController.java:86-90 | The redirect after logout passes the filter with an empty session and shows the logout notice |
| LoginController.TaskListNeedsSessionUser | src/main/java/ru/job4j/todo/controller/LoginController.java:75 | The task list reached after login passes the filter with a session user, and is redirected to the login page without one |
| RegController.RegPage | src/main/java/ru/job4j/todo/controller/RegController.java:43-58 | Always the registration template; no message without a flag, the password text for `password`, and the account text for `account`, which wins |
| RegController.IllegalArgumentExceptionHandler | src/main/java/ru/job4j/todo/controller/RegController.java:92-96 | Exactly `IllegalArgumentException` becomes "redirect:/registration?account=true"; other kinds escape unchanged |
| RegController.RegController.RegSave | src/main/java/ru/job4j/todo/controller/RegController.java:71-82 | Validation errors re-render and different passwords give "redirect:/registration?password=true", both without touching the table; otherwise the user is added, with "redirect:/login" exactly when that succeeds (the new account then passes the login check), and "redirect:/registration?account=true" otherwise |
| RegController.RejectedRegistrationShowsMessage | src/main/java/ru/job4j/todo/controller/RegController.java:48-54 | Both redirects back to registration pass the filter without a session and show the message their flag names |
| RegController.RegistrationLeadsToCleanLogin | src/main/java/ru/job4j/todo/controller/RegController.java:81 | The redirect after registration passes the filter without a session and shows the login page with no message |
| UserController.GetUserEdit | src/main/java/ru/job4j/todo/controller/UserController.java:42-53 | Always the profile template, with the old-password message exactly when the `password` flag is present |
| UserController.IllegalStateExceptionHandler | src/main/java/ru/job4j/todo/controller/UserController.java:91-95 | Exactly `IllegalStateException` becomes "redirect:/userEdit?password=true"; other kinds escape unchanged |
| UserController.UserController.UserEdit | src/main/java/ru/job4j/todo/controller/UserController.java:67-81 | Validation errors re-render; an unknown login escapes as `NoSuchElementException`; an absent or wrong old password gives "redirect:/userEdit?password=true"; with the right old password a failed update escapes as `NoSuchElementException`; "redirect:/tasks" exactly when the password matches and the update succeeds, and only then do the row and the session user become the form's user |
| UserController.WrongPasswordNeedsSessionUser | src/main/java/ru/job4j/todo/controller/UserController.java:76 | The redirect back to the profile page shows the old-password message to a session user, and sends an empty session to the login page |

## Left out

- Hibernate itself is not modelled: sessions, transactions, flushing, lazy loading and the HQL engine. Each repository call is one atomic operation on a map, and a failure of that call leaves the map unchanged.
- Database failures are not modelled as such. Each repository call takes `fault` as an input: the store either fails the call or does not.
- The id counter advances only on a successful insert. A real database sequence may skip ids after a rolled-back insert, and the model does not capture that.
- Java's 32-bit `int` ids are not modelled; ids are unbounded integers.
- Null fields are not modelled. A task without a priority or a form without a password would cause a `NullPointerException` in the code.
- Foreign keys are not modelled. Deleting a category or task that another row still references would fail in the database; here it always succeeds.
- A task holds its user, priority and categories by value, not by reference. A later change to a user or category row is therefore not seen in the tasks that refer to it, whereas the joins of the task queries would show it.
- An empty id list in `findCategoriesByIds` selects nothing. Real SQL dialects differ on an empty `in ()` list.
- `add`, `update` and `taskDone` change the passed `Task` in place in Java (`setPriority`, `setDone`, the generated id). The model returns the changed value instead, so it does not capture aliasing of that object.
- The `created` timestamp is an opaque value; the clock that sets it is not modelled.
- The interface methods of `PriorityRepository` other than `findPriorityByName` are not modelled. No class implements them.
- `TaskController`, `DateTmeUtil`, `UserUtil` and the Spring `Model` attributes other than `errorMessage` are not part of this model. Logging is not part of it either.
- Bean Validation is not modelled. The result of `errors.hasErrors()` is the input `hasErrors`.
- Concurrency between requests and transaction isolation are not modelled.
