/**
 * The user store behind the login page and the account tools: the list of
 * registered users and the active session, with the operations that replace them.
 * Each failing operation leaves both untouched and reports the error it throws.
 * Storage is not modelled: what `localStorage` held at start-up is an input, and
 * the id `String(Date.now())` of a new user is a parameter.
 */
module AuthContext {
  import opened Utf16
  import opened Wrappers

  datatype Status = Online | Offline

  /** A user; the active session holds a copy without the password. */
  datatype User = User(id: String, name: String, password: Option<String>, avatar: String, status: Status)

  /** The errors the operations throw. */
  datatype AuthError =
    | InvalidCredentials   // 'Invalid username or password.'
    | UsernameTaken        // 'Username already exists.'
    | CannotDeleteSelf     // 'You cannot delete your own account.'
    | NotLoggedIn          // 'Not logged in'
    | IncorrectPassword    // 'Incorrect current password.'

  /** What an item of `localStorage` held: nothing (or ''), text `JSON.parse` rejects, or a value. */
  datatype Stored<T> = Missing | Malformed | Stored(value: T)

  /** The user seeded into an empty store: id `1`, `admin` / `password`, avatar `A`, online. */
  const Admin: User := User([0x31], [0x61, 0x64, 0x6D, 0x69, 0x6E],
                            Some([0x70, 0x61, 0x73, 0x73, 0x77, 0x6F, 0x72, 0x64]), [0x41], Online)

  /** `name.charAt(0).toUpperCase()`: the first code unit upper-cased, '' for an empty name. */
  function AvatarOf(name: String): (a: String)
    ensures name == [] <==> a == []
    ensures |a| <= 1
    ensures name != [] && !(0x61 <= name[0] <= 0x7A) ==> a == name[..1]
    ensures name != [] && 0x61 <= name[0] <= 0x7A ==> a == [name[0] - 0x20]
  {
    if name == [] then [] else [AsciiUpper(name[0])]
  }

  predicate IdIn(users: seq<User>, id: String) {
    exists i | 0 <= i < |users| :: users[i].id == id
  }

  predicate NameTaken(users: seq<User>, name: String) {
    exists i | 0 <= i < |users| :: users[i].name == name
  }

  predicate Matches(u: User, name: String, password: String) {
    u.name == name && u.password == Some(password)
  }

  /** `users.find(u => u.name === name && u.password === password)`. */
  function FindCredentials(users: seq<User>, name: String, password: String): (r: Option<User>)
    ensures r.Some? <==> exists i | 0 <= i < |users| :: Matches(users[i], name, password)
    ensures r.Some? ==> r.value in users && Matches(r.value, name, password)
    ensures r.Some? ==> exists i | 0 <= i < |users| ::
      users[i] == r.value && forall j | 0 <= j < i :: !Matches(users[j], name, password)
  {
    if users == [] then None
    else if Matches(users[0], name, password) then Some(users[0])
    else
      var r := FindCredentials(users[1..], name, password);
      assert forall i | 1 <= i < |users| :: users[i] == users[1..][i - 1];
      if r.Some? then
        var i :| 0 <= i < |users[1..]| && users[1..][i] == r.value
          && forall j | 0 <= j < i :: !Matches(users[1..][j], name, password);
        assert users[i + 1] == r.value;
        assert forall j | 0 <= j < i + 1 :: !Matches(users[j], name, password);
        r
      else r
  }

  /** `users.find(u => u.id === id)`. */
  function FindById(users: seq<User>, id: String): (r: Option<User>)
    ensures r.Some? <==> IdIn(users, id)
    ensures r.Some? ==> r.value in users && r.value.id == id
    ensures r.Some? ==> exists i | 0 <= i < |users| ::
      users[i] == r.value && forall j | 0 <= j < i :: users[j].id != id
  {
    if users == [] then None
    else if users[0].id == id then Some(users[0])
    else
      var r := FindById(users[1..], id);
      assert forall i | 1 <= i < |users| :: users[i] == users[1..][i - 1];
      if r.Some? then
        var i :| 0 <= i < |users[1..]| && users[1..][i] == r.value
          && forall j | 0 <= j < i :: users[1..][j].id != id;
        assert users[i + 1] == r.value;
        assert forall j | 0 <= j < i + 1 :: users[j].id != id;
        r
      else r
  }

  /** The copy of a user the session keeps: online, without the password. */
  function SessionOf(u: User): User {
    u.(status := Online, password := None)
  }

  /** The user `createUser` appends. */
  function NewUser(name: String, password: String, id: String): User {
    User(id, name, Some(password), AvatarOf(name), Offline)
  }

  /** `users.filter(u => u.id !== id)`. */
  function WithoutId(users: seq<User>, id: String): (r: seq<User>)
    ensures |r| <= |users|
    ensures forall u :: u in r <==> u in users && u.id != id
  {
    if users == [] then []
    else if users[0].id == id then WithoutId(users[1..], id)
    else [users[0]] + WithoutId(users[1..], id)
  }

  /** The filter keeps the order of the list: it works on each half of a list separately. */
  lemma {:induction false} WithoutIdAppend(a: seq<User>, b: seq<User>, id: String)
    ensures WithoutId(a + b, id) == WithoutId(a, id) + WithoutId(b, id)
  {
    if a == [] {
      assert a + b == b;
    } else {
      assert (a + b)[1..] == a[1..] + b;
      WithoutIdAppend(a[1..], b, id);
    }
  }

  /** Filtering out an id nobody has keeps the list as it is. */
  lemma {:induction false} WithoutUnknownId(users: seq<User>, id: String)
    requires !IdIn(users, id)
    ensures WithoutId(users, id) == users
  {
    if users != [] {
      assert forall i | 0 <= i < |users[1..]| :: users[1..][i] == users[i + 1];
      WithoutUnknownId(users[1..], id);
    }
  }

  /** The users with the given id renamed, and their avatar recomputed from the new name. */
  function Renamed(users: seq<User>, id: String, name: String): (r: seq<User>)
    ensures |r| == |users|
    ensures forall i | 0 <= i < |users| ::
      && r[i].id == users[i].id && r[i].password == users[i].password && r[i].status == users[i].status
      && (users[i].id == id ==> r[i].name == name && r[i].avatar == AvatarOf(name))
      && (users[i].id != id ==> r[i] == users[i])
  {
    if users == [] then []
    else [if users[0].id == id then users[0].(name := name, avatar := AvatarOf(name)) else users[0]]
         + Renamed(users[1..], id, name)
  }

  /** The users with the given id given a new password. */
  function WithPassword(users: seq<User>, id: String, password: String): (r: seq<User>)
    ensures |r| == |users|
    ensures forall i | 0 <= i < |users| ::
      && r[i].id == users[i].id && r[i].name == users[i].name
      && r[i].avatar == users[i].avatar && r[i].status == users[i].status
      && (users[i].id == id ==> r[i].password == Some(password))
      && (users[i].id != id ==> r[i] == users[i])
  {
    if users == [] then []
    else [if users[0].id == id then users[0].(password := Some(password)) else users[0]]
         + WithPassword(users[1..], id, password)
  }

  /** The ids of a list are those of the list with some fields rewritten in place. */
  lemma IdsKept(users: seq<User>, r: seq<User>, id: String)
    requires |r| == |users| && forall i | 0 <= i < |users| :: r[i].id == users[i].id
    ensures IdIn(r, id) <==> IdIn(users, id)
  {
    if IdIn(users, id) {
      var i :| 0 <= i < |users| && users[i].id == id;
      assert r[i].id == id;
    }
    if IdIn(r, id) {
      var i :| 0 <= i < |r| && r[i].id == id;
      assert users[i].id == id;
    }
  }

  // ----- start-up -----

  /**
   * The list after start-up: the stored list, or the admin alone when nothing or an
   * empty list is stored; a list that does not parse leaves the store empty.
   */
  function InitialUsers(storedUsers: Stored<seq<User>>): seq<User> {
    match storedUsers
    case Malformed => []
    case Missing => [Admin]
    case Stored(all) => if |all| == 0 then [Admin] else all
  }

  /** The session after start-up: the stored one, when its id is still in the list. */
  function InitialSession(storedUsers: Stored<seq<User>>, storedSession: Stored<User>): Option<User> {
    if storedUsers.Malformed? then None
    else match storedSession
      case Stored(s) => if IdIn(InitialUsers(storedUsers), s.id) then Some(s) else None
      case _ => None
  }

  /**
   * With nothing stored, or an empty list, the store holds exactly the admin; a
   * list that is stored and not empty is kept as it is.
   */
  lemma InitSeedsAdmin(storedUsers: Stored<seq<User>>)
    ensures storedUsers == Missing || storedUsers == Stored([]) ==> InitialUsers(storedUsers) == [Admin]
    ensures storedUsers.Stored? && storedUsers.value != [] ==> InitialUsers(storedUsers) == storedUsers.value
    ensures storedUsers.Malformed? ==> InitialUsers(storedUsers) == []
  {
  }

  /** A stored session survives start-up exactly when its id is in the list; the copy is kept as stored. */
  lemma InitDropsStaleSession(storedUsers: Stored<seq<User>>, s: User)
    requires !storedUsers.Malformed?
    ensures InitialSession(storedUsers, Stored(s)).Some? <==> IdIn(InitialUsers(storedUsers), s.id)
    ensures InitialSession(storedUsers, Stored(s)).Some? ==> InitialSession(storedUsers, Stored(s)).value == s
  {
  }

  /** After start-up the session, if any, belongs to a listed user. */
  lemma InitSessionListed(storedUsers: Stored<seq<User>>, storedSession: Stored<User>)
    ensures InitialSession(storedUsers, storedSession).Some?
      ==> IdIn(InitialUsers(storedUsers), InitialSession(storedUsers, storedSession).value.id)
  {
  }

  // ----- signup: the login inside it sees the list from before the new user -----

  /**
   * The login inside `signup` searches the list captured before `createUser`, in
   * which, `createUser` having succeeded, no user has the new name: it always
   * fails.
   */
  lemma StaleLoginFails(users: seq<User>, name: String, password: String)
    requires !NameTaken(users, name)
    ensures FindCredentials(users, name, password) == None
  {
  }

  /** On the updated list the same login finds the new user. */
  lemma FreshLoginSucceeds(users: seq<User>, name: String, password: String, id: String)
    requires !NameTaken(users, name)
    ensures FindCredentials(users + [NewUser(name, password, id)], name, password) == Some(NewUser(name, password, id))
  {
    FindAppended(users, NewUser(name, password, id), name, password);
  }

  lemma {:induction false} FindAppended(users: seq<User>, u: User, name: String, password: String)
    requires forall i | 0 <= i < |users| :: users[i].name != name
    requires Matches(u, name, password)
    ensures FindCredentials(users + [u], name, password) == Some(u)
  {
    if users != [] {
      assert (users + [u])[1..] == users[1..] + [u];
      FindAppended(users[1..], u, name, password);
    } else {
      assert users + [u] == [u];
    }
  }

  /** The store: the user list and the active session. */
  class AuthStore {
    var users: seq<User>
    var user: Option<User>

    /** The active session belongs to a listed user. */
    predicate Valid()
      reads this
    {
      user.Some? ==> IdIn(users, user.value.id)
    }

    /** The provider mounted, with its start-up effect run on what storage held. */
    constructor (storedUsers: Stored<seq<User>>, storedSession: Stored<User>)
      ensures users == InitialUsers(storedUsers)
      ensures user == InitialSession(storedUsers, storedSession)
      ensures Valid()
    {
      users := InitialUsers(storedUsers);
      user := InitialSession(storedUsers, storedSession);
      InitSessionListed(storedUsers, storedSession);
    }

    /** `login`: the first user with that name and password becomes the session. */
    method Login(name: String, password: String) returns (r: Result<(), AuthError>)
      requires Valid()
      modifies this
      ensures Valid() && users == old(users)
      ensures r.Ok? <==> FindCredentials(users, name, password).Some?
      ensures r.Ok? ==> user == Some(SessionOf(FindCredentials(users, name, password).value))
      ensures r.Err? ==> r.error == InvalidCredentials && user == old(user)
    {
      var found := FindCredentials(users, name, password);
      if found.None? {
        return Err(InvalidCredentials);
      }
      var u := found.value;
      ghost var i :| 0 <= i < |users| && users[i] == u;
      user := Some(SessionOf(u));
      r := Ok(());
    }

    /** `logout`: the session ends; the list is untouched. */
    method Logout()
      requires Valid()
      modifies this
      ensures Valid() && users == old(users) && user == None
    {
      user := None;
    }

    /** `createUser`: a name nobody has yet gets a new offline user at the end of the list. */
    method CreateUser(name: String, password: String, id: String) returns (r: Result<(), AuthError>)
      requires Valid()
      modifies this
      ensures Valid() && user == old(user)
      ensures r.Err? <==> NameTaken(old(users), name)
      ensures r.Err? ==> r.error == UsernameTaken && users == old(users)
      ensures r.Ok? ==> users == old(users) + [NewUser(name, password, id)]
    {
      if NameTaken(users, name) {
        return Err(UsernameTaken);
      }
      ghost var before := users;
      users := users + [NewUser(name, password, id)];
      if user.Some? {
        ghost var i :| 0 <= i < |before| && before[i].id == user.value.id;
        assert users[i] == before[i];
      }
      r := Ok(());
    }

    /**
     * `signup` as written: `createUser`, then `login` on the list as it was before
     * the new user was added. On a fresh name the new user is listed and the login
     * fails anyway.
     */
    method Signup(name: String, password: String, id: String) returns (r: Result<(), AuthError>)
      requires Valid()
      modifies this
      ensures Valid() && user == old(user)
      ensures NameTaken(old(users), name) ==> r == Err(UsernameTaken) && users == old(users)
      ensures !NameTaken(old(users), name)
        ==> r == Err(InvalidCredentials) && users == old(users) + [NewUser(name, password, id)]
    {
      var snapshot := users;
      r := CreateUser(name, password, id);
      if r.Err? {
        return;
      }
      var found := FindCredentials(snapshot, name, password);
      StaleLoginFails(snapshot, name, password);
      if found.None? {
        return Err(InvalidCredentials);
      }
      assert false;
    }

    /** `signup` as meant: the new user is added and logged in. */
    method SignupIntended(name: String, password: String, id: String) returns (r: Result<(), AuthError>)
      requires Valid()
      modifies this
      ensures Valid()
      ensures NameTaken(old(users), name) ==> r == Err(UsernameTaken) && users == old(users) && user == old(user)
      ensures !NameTaken(old(users), name)
        ==> r.Ok? && users == old(users) + [NewUser(name, password, id)]
            && user == Some(SessionOf(NewUser(name, password, id)))
    {
      ghost var before := users;
      r := CreateUser(name, password, id);
      if r.Err? {
        return;
      }
      FreshLoginSucceeds(before, name, password, id);
      r := Login(name, password);
    }

    /** `deleteUser`: every user with the id goes, unless it is the session's own. */
    method DeleteUser(id: String) returns (r: Result<(), AuthError>)
      requires Valid()
      modifies this
      ensures Valid() && user == old(user)
      ensures r.Err? <==> user.Some? && user.value.id == id
      ensures r.Err? ==> r.error == CannotDeleteSelf && users == old(users)
      ensures r.Ok? ==> users == WithoutId(old(users), id)
    {
      if user.Some? && user.value.id == id {
        return Err(CannotDeleteSelf);
      }
      ghost var before := users;
      users := WithoutId(users, id);
      if user.Some? {
        ghost var i :| 0 <= i < |before| && before[i].id == user.value.id;
        assert before[i] in users;
        ghost var j :| 0 <= j < |users| && users[j] == before[i];
      }
      r := Ok(());
    }

    /** `updateUser`: the session's user is renamed, in the list and in the session. */
    method UpdateUser(newName: String) returns (r: Result<(), AuthError>)
      requires Valid()
      modifies this
      ensures Valid()
      ensures r.Err? <==> old(user).None?
      ensures r.Err? ==> r.error == NotLoggedIn && users == old(users) && user == old(user)
      ensures r.Ok? ==> users == Renamed(old(users), old(user).value.id, newName)
      ensures r.Ok? ==> user == Some(old(user).value.(name := newName, avatar := AvatarOf(newName)))
    {
      if user.None? {
        return Err(NotLoggedIn);
      }
      var id := user.value.id;
      var renamed := Renamed(users, id, newName);
      IdsKept(users, renamed, id);
      users := renamed;
      user := Some(user.value.(name := newName, avatar := AvatarOf(newName)));
      r := Ok(());
    }

    /** `updatePassword`: the current password must be the one stored for the session's user. */
    method UpdatePassword(currentPassword: String, newPassword: String) returns (r: Result<(), AuthError>)
      requires Valid()
      modifies this
      ensures Valid() && user == old(user)
      ensures old(user).None? ==> r == Err(NotLoggedIn) && users == old(users)
      ensures old(user).Some?
        ==> (r.Err? <==> FindById(old(users), old(user).value.id).value.password != Some(currentPassword))
      ensures old(user).Some? && r.Err? ==> r.error == IncorrectPassword && users == old(users)
      ensures r.Ok? ==> users == WithPassword(old(users), old(user).value.id, newPassword)
    {
      if user.None? {
        return Err(NotLoggedIn);
      }
      var id := user.value.id;
      var userInDb := FindById(users, id);
      if userInDb.None? || userInDb.value.password != Some(currentPassword) {
        return Err(IncorrectPassword);
      }
      var updated := WithPassword(users, id, newPassword);
      IdsKept(users, updated, id);
      users := updated;
      r := Ok(());
    }
  }
}
