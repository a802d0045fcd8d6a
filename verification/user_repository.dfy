/** The user table and the queries UserRepository declares over it. A
    query returning Optional goes through Common.Single: when several rows
    match, Spring Data raises an error instead of picking one. */
module UserRepository {
  import opened Common
  import opened UserModel

  /** The user table: rows keyed by their generated id, and the id the next
      inserted row receives. */
  datatype UserStore = UserStore(users: map<UserId, User>, nextId: UserId)

  /** t occurs in s starting at position i. */
  predicate OccursAt(t: string, s: string, i: nat) {
    i + |t| <= |s| && s[i..i + |t|] == t
  }

  /** SQL `s LIKE %t%`, read as plain substring containment. */
  predicate Contains(s: string, t: string) {
    exists i: nat :: i <= |s| && OccursAt(t, s, i)
  }

  predicate UsernamesUnique(users: map<UserId, User>) {
    forall a, b :: a in users && b in users && users[a].username == users[b].username ==> a == b
  }

  predicate PhonesUnique(users: map<UserId, User>) {
    forall a, b :: a in users && b in users && users[a].phoneNumber == users[b].phoneNumber ==> a == b
  }

  /** What the table and the entity mapping guarantee of every state: ids
      are the keys and lie below the next id, every row fits its columns,
      usernames and phone numbers are unique columns, and contacts form a
      symmetric relation on stored users. */
  predicate Valid(st: UserStore) {
    && (forall k :: k in st.users ==> st.users[k].id == Some(k) && k < st.nextId)
    && (forall k :: k in st.users ==> UserFits(st.users[k]))
    && UsernamesUnique(st.users)
    && PhonesUnique(st.users)
    && ContactsClosed(st.users)
    && ContactsSymmetric(st.users)
  }

  /** Ids of the rows whose username is `username`. */
  function WithUsername(users: map<UserId, User>, username: string): set<UserId> {
    set id | id in users && users[id].username == username
  }

  /** Ids of the rows whose phone number is `phone`. */
  function WithPhone(users: map<UserId, User>, phone: string): set<UserId> {
    set id | id in users && users[id].phoneNumber == phone
  }

  function FindById(users: map<UserId, User>, id: UserId): Option<User> {
    if id in users then Some(users[id]) else None
  }

  /** findByUsername: the row carrying the username; nothing when no row
      does, a non-unique-result failure when two rows do. */
  function FindByUsername(users: map<UserId, User>, username: string): (r: Result<Option<UserId>>)
    ensures r.Ok? && r.value.Some? ==> r.value.value in users && users[r.value.value].username == username
    ensures r == Ok(None) <==> !ExistsByUsername(users, username)
    ensures r.Err? <==> exists a, b :: a in users && b in users && a != b
                                      && users[a].username == username && users[b].username == username
    ensures r.Err? ==> r.error == NonUniqueResult
  {
    var s := WithUsername(users, username);
    SeveralMeansTwo(s);
    assert (exists a, b :: a in s && b in s && a != b) <==>
           (exists a, b :: a in users && b in users && a != b && users[a].username == username && users[b].username == username) by {
      if exists a, b :: a in users && b in users && a != b && users[a].username == username && users[b].username == username {
        var a, b :| a in users && b in users && a != b && users[a].username == username && users[b].username == username;
        assert a in s && b in s;
      }
    }
    assert ExistsByUsername(users, username) ==> s != {} by {
      if ExistsByUsername(users, username) {
        var id :| id in users && users[id].username == username;
        assert id in s;
      }
    }
    Single(s)
  }

  /** findByPhoneNumber: the same for the phone number column. */
  function FindByPhoneNumber(users: map<UserId, User>, phone: string): (r: Result<Option<UserId>>)
    ensures r.Ok? && r.value.Some? ==> r.value.value in users && users[r.value.value].phoneNumber == phone
    ensures r == Ok(None) <==> !ExistsByPhoneNumber(users, phone)
    ensures r.Err? <==> exists a, b :: a in users && b in users && a != b
                                      && users[a].phoneNumber == phone && users[b].phoneNumber == phone
    ensures r.Err? ==> r.error == NonUniqueResult
  {
    var s := WithPhone(users, phone);
    SeveralMeansTwo(s);
    assert (exists a, b :: a in s && b in s && a != b) <==>
           (exists a, b :: a in users && b in users && a != b && users[a].phoneNumber == phone && users[b].phoneNumber == phone) by {
      if exists a, b :: a in users && b in users && a != b && users[a].phoneNumber == phone && users[b].phoneNumber == phone {
        var a, b :| a in users && b in users && a != b && users[a].phoneNumber == phone && users[b].phoneNumber == phone;
        assert a in s && b in s;
      }
    }
    assert ExistsByPhoneNumber(users, phone) ==> s != {} by {
      if ExistsByPhoneNumber(users, phone) {
        var id :| id in users && users[id].phoneNumber == phone;
        assert id in s;
      }
    }
    Single(s)
  }

  /** findByUsernameOrPhoneNumber: rows whose username or whose phone
      number equals the identifier. */
  function FindByUsernameOrPhoneNumber(users: map<UserId, User>, identifier: string): (r: Result<Option<UserId>>)
    ensures r.Ok? && r.value.Some? ==>
      var id := r.value.value;
      id in users && (users[id].username == identifier || users[id].phoneNumber == identifier)
  {
    Single(WithUsername(users, identifier) + WithPhone(users, identifier))
  }

  /** findOnlineUsers. */
  function FindOnlineUsers(users: map<UserId, User>): set<UserId> {
    set id | id in users && users[id].isOnline
  }

  /** Replacing one stored row changes the online query by that id only. */
  lemma OnlineAfterUpdate(users: map<UserId, User>, id: UserId, u: User)
    ensures u.isOnline ==> FindOnlineUsers(users[id := u]) == FindOnlineUsers(users) + {id}
    ensures !u.isOnline ==> FindOnlineUsers(users[id := u]) == FindOnlineUsers(users) - {id}
  {
    var after := users[id := u];
    forall x
      ensures x in FindOnlineUsers(after) <==> (x in after && after[x].isOnline)
      ensures x in FindOnlineUsers(users) <==> (x in users && users[x].isOnline)
    {
    }
  }

  /** findByNameContainingIgnoreCase: name or username contains the term. */
  function FindByNameContaining(users: map<UserId, User>, term: string): set<UserId> {
    set id | id in users && (Contains(users[id].name, term) || Contains(users[id].username, term))
  }

  /** findByPhoneNumberContaining. */
  function FindByPhoneNumberContaining(users: map<UserId, User>, term: string): set<UserId> {
    set id | id in users && Contains(users[id].phoneNumber, term)
  }

  /** existsByUsername. */
  function ExistsByUsername(users: map<UserId, User>, username: string): bool
  {
    exists id :: id in users && users[id].username == username
  }

  /** existsByPhoneNumber. */
  function ExistsByPhoneNumber(users: map<UserId, User>, phone: string): bool
  {
    exists id :: id in users && users[id].phoneNumber == phone
  }

  /** With unique usernames the username lookup never fails, finds the row
      carrying that username, and finds one exactly when one exists. */
  lemma FindByUsernameUnique(users: map<UserId, User>, username: string)
    requires UsernamesUnique(users)
    ensures FindByUsername(users, username).Ok?
    ensures FindByUsername(users, username).value.Some? <==> ExistsByUsername(users, username)
    ensures FindByUsername(users, username).value.Some? ==>
      var id := FindByUsername(users, username).value.value;
      id in users && users[id].username == username
  {
    var s := WithUsername(users, username);
    if s != {} {
      var x :| x in s;
      assert s == {x};
    } else {
      forall id | id in users
        ensures users[id].username != username
      {
        assert id !in s;
      }
    }
  }

  /** The same for phone numbers. */
  lemma FindByPhoneNumberUnique(users: map<UserId, User>, phone: string)
    requires PhonesUnique(users)
    ensures FindByPhoneNumber(users, phone).Ok?
    ensures FindByPhoneNumber(users, phone).value.Some? <==> ExistsByPhoneNumber(users, phone)
    ensures FindByPhoneNumber(users, phone).value.Some? ==>
      var id := FindByPhoneNumber(users, phone).value.value;
      id in users && users[id].phoneNumber == phone
  {
    var s := WithPhone(users, phone);
    if s != {} {
      var x :| x in s;
      assert s == {x};
    } else {
      forall id | id in users
        ensures users[id].phoneNumber != phone
      {
        assert id !in s;
      }
    }
  }

  /** Login finds no user exactly when no row carries the identifier as
      username or as phone number. */
  lemma FindByUsernameOrPhoneNumberEmpty(users: map<UserId, User>, identifier: string)
    ensures FindByUsernameOrPhoneNumber(users, identifier) == Ok(None) <==>
      forall id :: id in users ==> users[id].username != identifier && users[id].phoneNumber != identifier
  {
    var s := WithUsername(users, identifier) + WithPhone(users, identifier);
    if s != {} {
      var x :| x in s;
      assert users[x].username == identifier || users[x].phoneNumber == identifier;
    } else {
      forall id | id in users
        ensures users[id].username != identifier && users[id].phoneNumber != identifier
      {
        assert id !in s;
      }
    }
  }

  /** Two different users, one whose username and one whose phone number is
      the identifier: the combined lookup cannot choose between them. */
  ghost predicate Ambiguous(users: map<UserId, User>, identifier: string) {
    exists a, b :: a in users && b in users && a != b && users[a].username == identifier && users[b].phoneNumber == identifier
  }

  lemma AtMostOne(s: set<UserId>)
    requires forall a, b :: a in s && b in s ==> a == b
    ensures |s| <= 1
  {
    if s != {} {
      var x :| x in s;
      assert s == {x};
    }
  }

  /** The combined login lookup fails exactly when one user's username is
      another user's phone number; uniqueness of each column alone does not
      prevent it. */
  lemma UsernameOrPhoneAmbiguity(users: map<UserId, User>, identifier: string)
    requires UsernamesUnique(users) && PhonesUnique(users)
    ensures FindByUsernameOrPhoneNumber(users, identifier).Err? <==> Ambiguous(users, identifier)
  {
    var su := WithUsername(users, identifier);
    var sp := WithPhone(users, identifier);
    AtMostOne(su);
    AtMostOne(sp);
    if Ambiguous(users, identifier) {
      var a, b :| a in users && b in users && a != b && users[a].username == identifier && users[b].phoneNumber == identifier;
      assert {a, b} <= su + sp;
      SubsetCard({a, b}, su + sp);
    } else if su != {} && sp != {} {
      var a :| a in su;
      var b :| b in sp;
      assert a == b;
      assert su + sp == {a};
    } else {
      assert |su + sp| <= 1;
    }
  }

  /** Containment is transitive: a part of a part of s is a part of s. */
  lemma ContainsTransitive(s: string, t: string, u: string)
    requires Contains(s, t) && Contains(t, u)
    ensures Contains(s, u)
  {
    var i: nat :| i <= |s| && OccursAt(t, s, i);
    var j: nat :| j <= |t| && OccursAt(u, t, j);
    var w := s[i + j..i + j + |u|];
    forall k | 0 <= k < |u|
      ensures w[k] == u[k]
    {
      assert s[i..i + |t|][j + k] == t[j + k];
      assert t[j..j + |u|][k] == u[k];
    }
    assert OccursAt(u, s, i + j);
  }

  /** Containment matches at least the term itself and everything it is a
      part of; the empty term matches every user. */
  lemma ContainsSelfAndEmpty(s: string, t: string)
    ensures Contains(s, s)
    ensures Contains(s, [])
    ensures Contains(s, t) ==> |t| <= |s|
  {
    assert OccursAt(s, s, 0);
    assert OccursAt([], s, 0);
  }
}
