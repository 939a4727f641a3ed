/** `ImplUserService`: optional-or-throw over the user table, and the
    plain-text password check of a login attempt. */
module UserService {
  import opened Wrappers
  import opened Model
  import opened UserRepository

  /** A stored user holds `login` together with exactly `password`. */
  ghost predicate Accepts(m: map<int, User>, login: string, password: string) {
    exists id :: id in m && m[id].login == login && m[id].password == password
  }

  class ImplUserService {
    const repository: HibernateUserRepository

    constructor (repository: HibernateUserRepository)
      ensures this.repository == repository
    {
      this.repository := repository;
    }

    /** Registers `user`; an empty repository result (a duplicate login or a
        store failure) throws `IllegalArgumentException`. */
    method Add(user: User, fault: bool) returns (r: Result<User>)
      requires repository.Valid()
      modifies repository
      ensures repository.Valid()
      ensures r.Err? <==> fault || LoginTaken(old(repository.users), user.login)
      ensures r.Err? ==> r.error == InvalidArgument && repository.users == old(repository.users)
                         && repository.nextId == old(repository.nextId)
      ensures r.Ok? ==> r.value == user.(id := old(repository.nextId))
      ensures r.Ok? ==> repository.users == old(repository.users)[r.value.id := r.value]
    {
      var saved := repository.Add(user, fault);
      r := OrElseThrow(saved, InvalidArgument);
    }

    /** Replaces the stored user; an empty repository result throws
        `NoSuchElementException`. */
    method Update(user: User, fault: bool) returns (r: Result<User>)
      requires repository.Valid()
      modifies repository
      ensures repository.Valid()
      ensures r.Err? <==> fault || user.id !in old(repository.users)
                          || LoginTakenByOther(old(repository.users), user.id, user.login)
      ensures r.Err? ==> r.error == NotFound && repository.users == old(repository.users)
                         && repository.nextId == old(repository.nextId)
      ensures r.Ok? ==> r.value == user && repository.users == old(repository.users)[user.id := user]
      ensures repository.nextId == old(repository.nextId)
    {
      var updated := repository.Update(user, fault);
      r := OrElseThrow(updated, NotFound);
    }

    /** The stored user with `login`, or `NoSuchElementException`. */
    method FindUserByLogin(login: string, fault: bool) returns (r: Result<User>)
      requires repository.Valid()
      ensures r.Ok? ==> Stored(repository.users, r.value) && r.value.login == login
      ensures r.Err? <==> fault || !LoginTaken(repository.users, login)
      ensures r.Err? ==> r.error == NotFound
    {
      var found := repository.FindUserByLogin(login, fault);
      r := OrElseThrow(found, NotFound);
    }

    /** Looks `user` up by login and compares passwords as strings: an
        unknown login throws `NoSuchElementException`, a different password
        `IllegalArgumentException`; success gives the STORED user. */
    method ValidateUserLogin(user: User, fault: bool) returns (r: Result<User>)
      requires repository.Valid()
      ensures r.Ok? ==> Stored(repository.users, r.value)
      ensures r.Ok? ==> r.value.login == user.login && r.value.password == user.password
      ensures r.Ok? <==> !fault && Accepts(repository.users, user.login, user.password)
      ensures r == Err(NotFound) <==> fault || !LoginTaken(repository.users, user.login)
      ensures r == Err(InvalidArgument) <==>
                !fault && LoginTaken(repository.users, user.login)
                && !Accepts(repository.users, user.login, user.password)
      ensures r.Err? ==> r.error == NotFound || r.error == InvalidArgument
    {
      var stored := FindUserByLogin(user.login, fault);
      if stored.Err? {
        r := stored;
      } else if stored.value.password != user.password {
        r := Err(InvalidArgument);
      } else {
        r := Ok(stored.value);
      }
    }
  }
}
