/** The User entity: an account with a unique username and phone number,
    an online flag with the instant it was last seen, and a contact set.
    Contacts are references to other users; here they are user ids, and
    the two-sided bookkeeping of User.addContact / removeContact is stated
    over the whole map of users, since it touches two entities at once. */
module UserModel {
  import opened Common

  datatype User = User(
    id: Option<UserId>,   // null until the user is first saved
    username: string,
    name: string,
    phoneNumber: string,
    password: string,
    isOnline: bool,
    lastSeen: Time,
    createdAt: Time,
    contacts: set<UserId>)

  /** The four-argument constructor: a fresh, unsaved, offline user without
      contacts, created and last seen at `now`. */
  function NewUser(username: string, name: string, phoneNumber: string, password: string, now: Time): (u: User)
    ensures u.id == None
    ensures u.username == username && u.name == name
    ensures u.phoneNumber == phoneNumber && u.password == password
    ensures !u.isOnline && u.contacts == {}
    ensures u.createdAt == now && u.lastSeen == now
  {
    User(None, username, name, phoneNumber, password, false, now, now, {})
  }

  /** The four mapped String columns of a user take values of at most the
      default column length. */
  predicate UserFits(u: User) {
    FitsColumn(u.username) && FitsColumn(u.name) && FitsColumn(u.phoneNumber) && FitsColumn(u.password)
  }

  /** User.setOnline: going offline records `now` as the last-seen
      instant; going online leaves it as it was. */
  function SetOnline(u: User, online: bool, now: Time): (u': User)
    ensures u'.isOnline == online
    ensures u'.lastSeen == if online then u.lastSeen else now
    ensures u' == u.(isOnline := online, lastSeen := u'.lastSeen)
  {
    if online then u.(isOnline := true) else u.(isOnline := false, lastSeen := now)
  }

  /** Every contact of a stored user is itself stored. */
  predicate ContactsClosed(users: map<UserId, User>) {
    forall a :: a in users ==> users[a].contacts <= users.Keys
  }

  /** The contact relation is symmetric: b is a contact of a exactly when
      a is a contact of b. */
  predicate ContactsSymmetric(users: map<UserId, User>) {
    forall a, b :: a in users && b in users ==> (b in users[a].contacts <==> a in users[b].contacts)
  }

  /** User.addContact: a records b, then b records a. */
  function AddContact(users: map<UserId, User>, a: UserId, b: UserId): (users': map<UserId, User>)
    requires a in users && b in users
    ensures users'.Keys == users.Keys
    ensures b in users'[a].contacts && a in users'[b].contacts
    ensures forall x :: x in users && x != a && x != b ==> users'[x] == users[x]
    ensures forall x :: x in users ==> users'[x] == users[x].(contacts := users'[x].contacts)
    ensures a != b ==> users'[a].contacts == users[a].contacts + {b} && users'[b].contacts == users[b].contacts + {a}
    ensures a == b ==> users'[a].contacts == users[a].contacts + {a}
  {
    var step := users[a := users[a].(contacts := users[a].contacts + {b})];
    step[b := step[b].(contacts := step[b].contacts + {a})]
  }

  /** User.removeContact: a forgets b, then b forgets a. */
  function RemoveContact(users: map<UserId, User>, a: UserId, b: UserId): (users': map<UserId, User>)
    requires a in users && b in users
    ensures users'.Keys == users.Keys
    ensures b !in users'[a].contacts && a !in users'[b].contacts
    ensures forall x :: x in users && x != a && x != b ==> users'[x] == users[x]
    ensures forall x :: x in users ==> users'[x] == users[x].(contacts := users'[x].contacts)
    ensures a != b ==> users'[a].contacts == users[a].contacts - {b} && users'[b].contacts == users[b].contacts - {a}
    ensures a == b ==> users'[a].contacts == users[a].contacts - {a}
  {
    var step := users[a := users[a].(contacts := users[a].contacts - {b})];
    step[b := step[b].(contacts := step[b].contacts - {a})]
  }

  /** Adding a contact keeps the relation symmetric and closed. */
  lemma AddContactPreservesSymmetry(users: map<UserId, User>, a: UserId, b: UserId)
    requires a in users && b in users
    requires ContactsSymmetric(users) && ContactsClosed(users)
    ensures ContactsSymmetric(AddContact(users, a, b))
    ensures ContactsClosed(AddContact(users, a, b))
  {
    var users' := AddContact(users, a, b);
    forall x, y | x in users' && y in users'
      ensures y in users'[x].contacts <==> x in users'[y].contacts
    {
      assert y in users[x].contacts <==> x in users[y].contacts;
    }
  }

  /** Removing a contact keeps the relation symmetric and closed. */
  lemma RemoveContactPreservesSymmetry(users: map<UserId, User>, a: UserId, b: UserId)
    requires a in users && b in users
    requires ContactsSymmetric(users) && ContactsClosed(users)
    ensures ContactsSymmetric(RemoveContact(users, a, b))
    ensures ContactsClosed(RemoveContact(users, a, b))
  {
    var users' := RemoveContact(users, a, b);
    forall x, y | x in users' && y in users'
      ensures y in users'[x].contacts <==> x in users'[y].contacts
    {
      assert y in users[x].contacts <==> x in users[y].contacts;
    }
  }

  /** Removing a user who is not a contact, in a symmetric relation,
      leaves the table as it was. */
  lemma RemoveNonContactIsNoOp(users: map<UserId, User>, a: UserId, b: UserId)
    requires a in users && b in users && ContactsSymmetric(users)
    requires b !in users[a].contacts
    ensures RemoveContact(users, a, b) == users
  {
    var users' := RemoveContact(users, a, b);
    assert a !in users[b].contacts;
    assert users'[a] == users[a];
    assert users'[b] == users[b];
    assert forall x :: x in users ==> users'[x] == users[x];
  }

  /** Removing a contact undoes adding it, when the two were not contacts before. */
  lemma RemoveUndoesAdd(users: map<UserId, User>, a: UserId, b: UserId)
    requires a in users && b in users && a != b
    requires b !in users[a].contacts && a !in users[b].contacts
    ensures RemoveContact(AddContact(users, a, b), a, b) == users
  {
    var users' := RemoveContact(AddContact(users, a, b), a, b);
    assert users'[a] == users[a];
    assert users'[b] == users[b];
    assert forall x :: x in users ==> users'[x] == users[x];
  }
}
