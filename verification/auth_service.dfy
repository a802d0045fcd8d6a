/** AuthService: registration with unique username and phone number, and
    the login/logout state machine over a user's online flag. Every
    operation returns the user table after the call together with its
    outcome; a failed call returns the table untouched. */
module AuthService {
  import opened Common
  import opened UserModel
  import opened UserRepository

  /** signup: a taken username is reported before a taken phone number;
      then the insert fails if a field is longer than its column, and
      otherwise one offline user is inserted under the next id. */
  function Signup(st: UserStore, username: string, name: string, phoneNumber: string, password: string, now: Time)
    : (r: (UserStore, Result<User>))
    ensures ExistsByUsername(st.users, username) ==> r == (st, Err(UsernameTaken))
    ensures !ExistsByUsername(st.users, username) && ExistsByPhoneNumber(st.users, phoneNumber) ==>
      r == (st, Err(PhoneTaken))
    ensures !ExistsByUsername(st.users, username) && !ExistsByPhoneNumber(st.users, phoneNumber) &&
            !(FitsColumn(username) && FitsColumn(name) && FitsColumn(phoneNumber) && FitsColumn(password)) ==>
      r == (st, Err(ConstraintViolation))
    ensures r.1.Err? ==> r.0 == st
    ensures r.1.Ok? <==>
      && !ExistsByUsername(st.users, username) && !ExistsByPhoneNumber(st.users, phoneNumber)
      && FitsColumn(username) && FitsColumn(name) && FitsColumn(phoneNumber) && FitsColumn(password)
    ensures r.1.Ok? ==>
      var u := r.1.value;
      && u.id == Some(st.nextId)
      && u == NewUser(username, name, phoneNumber, password, now).(id := u.id)
      && r.0.users == st.users[st.nextId := u]
      && r.0.nextId == st.nextId + 1
  {
    if ExistsByUsername(st.users, username) then (st, Err(UsernameTaken))
    else if ExistsByPhoneNumber(st.users, phoneNumber) then (st, Err(PhoneTaken))
    else
      var u := NewUser(username, name, phoneNumber, password, now).(id := Some(st.nextId));
      if !UserFits(u) then (st, Err(ConstraintViolation))
      else (UserStore(st.users[st.nextId := u], st.nextId + 1), Ok(u))
  }

  /** A successful signup adds exactly one user, offline and without
      contacts, and keeps the table valid (unique usernames and phone
      numbers, symmetric contacts). */
  lemma SignupPreservesValid(st: UserStore, username: string, name: string, phoneNumber: string, password: string, now: Time)
    requires Valid(st)
    ensures var (st', r) := Signup(st, username, name, phoneNumber, password, now);
      && Valid(st')
      && (r.Ok? ==> st'.users.Keys == st.users.Keys + {st.nextId} && st.nextId !in st.users
                    && !st'.users[st.nextId].isOnline && st'.users[st.nextId].contacts == {})
  {
    var (st', r) := Signup(st, username, name, phoneNumber, password, now);
    if r.Ok? {
      var k := st.nextId;
      assert k !in st.users;
      assert forall b :: b in st.users ==> st.users[b].username != username;
      assert forall b :: b in st.users ==> st.users[b].phoneNumber != phoneNumber;
      assert UsernamesUnique(st'.users);
      assert PhonesUnique(st'.users);
      forall a, b | a in st'.users && b in st'.users
        ensures b in st'.users[a].contacts <==> a in st'.users[b].contacts
      {
        if a != k && b != k {
          assert b in st.users[a].contacts <==> a in st.users[b].contacts;
        } else if a == k && b != k {
          assert k !in st.users[b].contacts;
        } else if b == k && a != k {
          assert k !in st.users[a].contacts;
        }
      }
    }
  }

  /** login: the identifier is looked up as username or phone number; an
      unknown identifier is reported before a wrong password, and only a
      correct password sets that one user online. */
  function Login(st: UserStore, identifier: string, password: string, now: Time): (r: (UserStore, Result<User>))
    ensures r.1.Err? ==> r.0 == st
    ensures FindByUsernameOrPhoneNumber(st.users, identifier).Err? ==> r.1 == Err(NonUniqueResult)
    ensures FindByUsernameOrPhoneNumber(st.users, identifier) == Ok(None) ==> r.1 == Err(UserNotFound)
    ensures r.1.Ok? <==>
      var found := FindByUsernameOrPhoneNumber(st.users, identifier);
      found.Ok? && found.value.Some? && st.users[found.value.value].password == password
    ensures r.1 == Err(InvalidPassword) <==>
      FindByUsernameOrPhoneNumber(st.users, identifier).Ok? &&
      FindByUsernameOrPhoneNumber(st.users, identifier).value.Some? &&
      st.users[FindByUsernameOrPhoneNumber(st.users, identifier).value.value].password != password
    ensures r.1.Ok? ==>
      var found := FindByUsernameOrPhoneNumber(st.users, identifier);
      && found.Ok? && found.value.Some?
      && var id := found.value.value;
      && id in st.users
      && (st.users[id].username == identifier || st.users[id].phoneNumber == identifier)
      && st.users[id].password == password
      && r.1.value == st.users[id].(isOnline := true)
      && r.0 == st.(users := st.users[id := r.1.value])
  {
    match FindByUsernameOrPhoneNumber(st.users, identifier)
    case Err(e) => (st, Err(e))
    case Ok(None) => (st, Err(UserNotFound))
    case Ok(Some(id)) =>
      var u := st.users[id];
      if u.password != password then (st, Err(InvalidPassword))
      else
        var u' := SetOnline(u, true, now);
        (st.(users := st.users[id := u']), Ok(u'))
  }

  /** A successful login changes only the online flag of the user who
      logged in; every other user is left as it was. */
  lemma LoginChangesOnlyThatUser(st: UserStore, identifier: string, password: string, now: Time, other: UserId)
    requires Valid(st)
    requires Login(st, identifier, password, now).1.Ok?
    requires other in st.users && Some(other) != Login(st, identifier, password, now).1.value.id
    ensures Login(st, identifier, password, now).0.users[other] == st.users[other]
    ensures Valid(Login(st, identifier, password, now).0)
  {
    var id := FindByUsernameOrPhoneNumber(st.users, identifier).value.value;
    assert st.users[id].id == Some(id);
    PresenceKeepsValid(st, id, true, now);
  }

  /** Changing one user's presence keeps the table valid: only the online
      flag and lastSeen move. */
  lemma PresenceKeepsValid(st: UserStore, id: UserId, online: bool, now: Time)
    requires Valid(st) && id in st.users
    ensures Valid(st.(users := st.users[id := SetOnline(st.users[id], online, now)]))
  {
    var st' := st.(users := st.users[id := SetOnline(st.users[id], online, now)]);
    forall a, b | a in st'.users && b in st'.users
      ensures b in st'.users[a].contacts <==> a in st'.users[b].contacts
    {
      assert b in st.users[a].contacts <==> a in st.users[b].contacts;
    }
  }

  /** logout: an unknown id is silently ignored; a known one goes offline
      and is stamped last seen at `now`. */
  function Logout(st: UserStore, userId: UserId, now: Time): (st': UserStore)
    ensures userId !in st.users ==> st' == st
    ensures userId in st.users ==>
      && st' == st.(users := st.users[userId := st.users[userId].(isOnline := false, lastSeen := now)])
      && !st'.users[userId].isOnline
      && st'.users[userId].lastSeen == now
  {
    if userId in st.users then st.(users := st.users[userId := SetOnline(st.users[userId], false, now)])
    else st
  }

  /** The online query follows login and logout: a successful login adds
      exactly the user who logged in, and a logout removes exactly that
      user. */
  lemma OnlineAfterLoginAndLogout(st: UserStore, identifier: string, password: string, userId: UserId, now: Time)
    requires Valid(st)
    ensures var (st', r) := Login(st, identifier, password, now);
      r.Ok? ==> r.value.id.Some? && FindOnlineUsers(st'.users) == FindOnlineUsers(st.users) + {r.value.id.value}
    ensures FindOnlineUsers(Logout(st, userId, now).users) == FindOnlineUsers(st.users) - {userId}
  {
    OnlineAfterLogin(st, identifier, password, now);
    OnlineAfterLogout(st, userId, now);
  }

  lemma OnlineAfterLogin(st: UserStore, identifier: string, password: string, now: Time)
    requires Valid(st)
    ensures Login(st, identifier, password, now).1.Ok? ==>
      var u := Login(st, identifier, password, now).1.value;
      u.id.Some? && FindOnlineUsers(Login(st, identifier, password, now).0.users) == FindOnlineUsers(st.users) + {u.id.value}
  {
    var r := Login(st, identifier, password, now);
    if r.1.Ok? {
      var id := FindByUsernameOrPhoneNumber(st.users, identifier).value.value;
      assert st.users[id].id == Some(id);
      OnlineAfterUpdate(st.users, id, r.1.value);
    }
  }

  lemma OnlineAfterLogout(st: UserStore, userId: UserId, now: Time)
    ensures FindOnlineUsers(Logout(st, userId, now).users) == FindOnlineUsers(st.users) - {userId}
  {
    if userId in st.users {
      OnlineAfterUpdate(st.users, userId, st.users[userId].(isOnline := false, lastSeen := now));
    } else {
      assert userId !in FindOnlineUsers(st.users);
    }
  }

  lemma LogoutPreservesValid(st: UserStore, userId: UserId, now: Time)
    requires Valid(st)
    ensures Valid(Logout(st, userId, now))
  {
    if userId in st.users {
      PresenceKeepsValid(st, userId, false, now);
    }
  }

  /** findUserById: the row with that id, or null. */
  function FindUserById(st: UserStore, userId: UserId): (r: Option<User>)
    ensures r.Some? <==> userId in st.users
    ensures r.Some? ==> r.value == st.users[userId]
  {
    FindById(st.users, userId)
  }

  /** findUserByUsername: the row carrying the username, or null; several
      rows with one username make the query fail. */
  function FindUserByUsername(st: UserStore, username: string): (r: Result<Option<User>>)
    ensures r.Ok? && r.value.Some? ==> r.value.value.username == username && r.value.value in st.users.Values
    ensures r.Ok? && r.value.None? ==> !ExistsByUsername(st.users, username)
  {
    match FindByUsername(st.users, username)
    case Err(e) => Err(e)
    case Ok(None) =>
      assert forall id | id in st.users :: id !in WithUsername(st.users, username) ==> st.users[id].username != username;
      Ok(None)
    case Ok(Some(id)) => Ok(Some(st.users[id]))
  }

  /** Over a valid table the lookup by username never fails, and it finds
      a user exactly when the username is not available. */
  lemma FindUserByUsernameAvailability(st: UserStore, username: string)
    requires Valid(st)
    ensures FindUserByUsername(st, username).Ok?
    ensures FindUserByUsername(st, username).value.None? <==> IsUsernameAvailable(st, username)
  {
    FindByUsernameUnique(st.users, username);
  }

  /** isUsernameAvailable: no user carries the username. */
  function IsUsernameAvailable(st: UserStore, username: string): (b: bool)
    ensures b <==> forall id :: id in st.users ==> st.users[id].username != username
    ensures b <==> Signup(st, username, "", "", "", 0).1 != Err(UsernameTaken)
  {
    !ExistsByUsername(st.users, username)
  }

  /** isPhoneNumberAvailable: no user carries the phone number. */
  function IsPhoneNumberAvailable(st: UserStore, phoneNumber: string): (b: bool)
    ensures b <==> forall id :: id in st.users ==> st.users[id].phoneNumber != phoneNumber
  {
    !ExistsByPhoneNumber(st.users, phoneNumber)
  }

  /** The two availability checks predict signup: it reports a taken
      username exactly when that username is unavailable, a taken phone
      number exactly when the username is available and the number is not,
      and it succeeds exactly when both are available and the fields fit. */
  lemma SignupMatchesAvailability(st: UserStore, username: string, name: string, phoneNumber: string, password: string, now: Time)
    ensures var r := Signup(st, username, name, phoneNumber, password, now).1;
      && (r == Err(UsernameTaken) <==> !IsUsernameAvailable(st, username))
      && (r == Err(PhoneTaken) <==> IsUsernameAvailable(st, username) && !IsPhoneNumberAvailable(st, phoneNumber))
      && (r.Ok? <==> IsUsernameAvailable(st, username) && IsPhoneNumberAvailable(st, phoneNumber)
                     && FitsColumn(username) && FitsColumn(name) && FitsColumn(phoneNumber) && FitsColumn(password))
  {
  }
}
