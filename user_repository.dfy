/** The user table (`HibernateUserRepository`). Its `execute` turns every
    failure, the violated uniqueness of logins included, into an empty
    result after rolling back. */
module UserRepository {
  import opened Wrappers
  import opened Model

  ghost predicate Keyed(m: map<int, User>) {
    forall id :: id in m ==> m[id].id == id
  }

  /** The constraint `todo_users_login_key`: no two rows share a login. */
  ghost predicate LoginsUnique(m: map<int, User>) {
    forall a, b :: a in m && b in m && m[a].login == m[b].login ==> a == b
  }

  /** `u` is the row stored under its id. */
  predicate Stored(m: map<int, User>, u: User) {
    u.id in m && m[u.id] == u
  }

  /** Some row holds `login`. */
  predicate LoginTaken(m: map<int, User>, login: string) {
    exists id :: id in m && m[id].login == login
  }

  /** A row other than the one with id `id` holds `login`. */
  predicate LoginTakenByOther(m: map<int, User>, id: int, login: string) {
    exists k :: k in m && k != id && m[k].login == login
  }

  class HibernateUserRepository {
    var users: map<int, User>
    var nextId: int

    ghost predicate Valid()
      reads this
    {
      && nextId >= 1
      && Keyed(users)
      && LoginsUnique(users)
      && forall id :: id in users ==> 1 <= id < nextId
    }

    constructor ()
      ensures Valid() && users == map[] && nextId == 1
    {
      users := map[];
      nextId := 1;
    }

    /** `from User u where u.login = :login` with `uniqueResult`; `fault` is
        an exception raised by the store, which `execute` reports as empty. */
    method FindUserByLogin(login: string, fault: bool) returns (r: Option<User>)
      requires Valid()
      ensures r.Some? ==> Stored(users, r.value) && r.value.login == login
      ensures r.None? <==> fault || !LoginTaken(users, login)
    {
      if !fault && exists id :: id in users && users[id].login == login {
        var id :| id in users && users[id].login == login;
        r := Some(users[id]);
      } else {
        r := None;
      }
    }

    /** `session.update(user)`: replaces the row with the user's id. A
        missing row, a login held by another row, or a store failure rolls
        back and gives empty. No row is ever removed. */
    method Update(user: User, fault: bool) returns (r: Option<User>)
      requires Valid()
      modifies this
      ensures Valid() && nextId == old(nextId)
      ensures old(users).Keys <= users.Keys
      ensures r.None? <==> fault || user.id !in old(users) || LoginTakenByOther(old(users), user.id, user.login)
      ensures r.None? ==> users == old(users)
      ensures r.Some? ==> r.value == user && users == old(users)[user.id := user]
    {
      if fault || user.id !in users || LoginTakenByOther(users, user.id, user.login) {
        r := None;
      } else {
        users := users[user.id := user];
        r := Some(user);
      }
    }

    /** `session.save(user)`: stores the user under a newly generated id. A
        login already stored violates the uniqueness constraint; that and
        any store failure roll back and give empty. No row is ever removed. */
    method Add(user: User, fault: bool) returns (r: Option<User>)
      requires Valid()
      modifies this
      ensures Valid()
      ensures old(users).Keys <= users.Keys
      ensures r.None? <==> fault || LoginTaken(old(users), user.login)
      ensures r.None? ==> users == old(users) && nextId == old(nextId)
      ensures r.Some? ==> r.value == user.(id := old(nextId)) && old(nextId) !in old(users)
      ensures r.Some? ==> users == old(users)[old(nextId) := r.value] && nextId == old(nextId) + 1
      ensures r.Some? ==> LoginTaken(users, user.login)
    {
      if fault || LoginTaken(users, user.login) {
        r := None;
      } else {
        var saved := user.(id := nextId);
        users := users[nextId := saved];
        nextId := nextId + 1;
        assert users[saved.id].login == user.login;
        r := Some(saved);
      }
    }
  }
}
