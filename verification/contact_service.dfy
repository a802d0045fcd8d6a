/** ContactService: the symmetric contact relation between users, added by
    phone number and removed by id, and the queries over it. */
module ContactService {
  import opened Common
  import opened UserModel
  import opened UserRepository

  /** addContactByPhone. Both lookups run first (a phone lookup matching
      several rows fails right there); then an unknown user, an unknown
      phone number, the user's own number and an existing contact are
      rejected in that order. On success both users record each other and
      the added user is returned. */
  function AddContactByPhone(st: UserStore, userId: UserId, phone: string): (r: (UserStore, Result<User>))
    ensures r.1.Err? ==> r.0 == st
    ensures FindByPhoneNumber(st.users, phone).Err? ==> r.1 == Err(NonUniqueResult)
    ensures r.1.Ok? <==>
      var found := FindByPhoneNumber(st.users, phone);
      && found.Ok? && userId in st.users && found.value.Some?
      && found.value.value != userId && found.value.value !in st.users[userId].contacts
    ensures r.1.Ok? ==>
      var found := FindByPhoneNumber(st.users, phone);
      && found.Ok? && found.value.Some?
      && var c := found.value.value;
      && userId in st.users && c in st.users && c != userId
      && c !in st.users[userId].contacts
      && r.0 == st.(users := AddContact(st.users, userId, c))
      && r.1.value == r.0.users[c]
  {
    var found := FindByPhoneNumber(st.users, phone);
    if found.Err? then (st, Err(found.error))
    else if userId !in st.users then (st, Err(UserNotFound))
    else if found.value.None? then (st, Err(PhoneNotFound))
    else
      var c := found.value.value;
      if userId == c then (st, Err(CannotAddSelf))
      else if c in st.users[userId].contacts then (st, Err(AlreadyAContact))
      else
        var users' := AddContact(st.users, userId, c);
        (st.(users := users'), Ok(users'[c]))
  }

  /** The error precedence of addContactByPhone over a valid table, and the
      effect of a success: the pair is related both ways, the returned user
      owns the phone number, and the table stays valid. */
  lemma AddContactByPhoneOutcome(st: UserStore, userId: UserId, phone: string)
    requires Valid(st)
    ensures var (st', r) := AddContactByPhone(st, userId, phone);
      && (userId !in st.users ==> r == Err(UserNotFound))
      && (userId in st.users && !ExistsByPhoneNumber(st.users, phone) ==> r == Err(PhoneNotFound))
      && (userId in st.users && st.users[userId].phoneNumber == phone ==> r == Err(CannotAddSelf))
      && (userId in st.users && st.users[userId].phoneNumber != phone &&
          (exists c :: c in st.users[userId].contacts && c in st.users && st.users[c].phoneNumber == phone)
          ==> r == Err(AlreadyAContact))
      && (r.Ok? <==> && userId in st.users && ExistsByPhoneNumber(st.users, phone)
                     && st.users[userId].phoneNumber != phone
                     && !(exists c :: c in st.users[userId].contacts && c in st.users && st.users[c].phoneNumber == phone))
      && (r.Ok? ==> && r.value.phoneNumber == phone
                    && r.value.id.Some? && r.value.id.value in st'.users
                    && r.value.id.value in st'.users[userId].contacts
                    && userId in st'.users[r.value.id.value].contacts
                    && Valid(st'))
  {
    FindByPhoneNumberUnique(st.users, phone);
    var (st', r) := AddContactByPhone(st, userId, phone);
    var found := FindByPhoneNumber(st.users, phone);
    if found.value.Some? {
      var c := found.value.value;
      assert st.users[c].phoneNumber == phone;
      if userId in st.users && st.users[userId].phoneNumber == phone {
        assert userId == c;
      }
      if userId in st.users && exists x :: x in st.users[userId].contacts && x in st.users && st.users[x].phoneNumber == phone {
        var x :| x in st.users[userId].contacts && x in st.users && st.users[x].phoneNumber == phone;
        assert x == c;
      }
      if r.Ok? {
        AddContactKeepsValid(st, userId, c);
        assert st.users[c].id == Some(c);
      }
    }
  }

  /** Relating two stored users keeps the table valid. */
  lemma AddContactKeepsValid(st: UserStore, a: UserId, b: UserId)
    requires Valid(st) && a in st.users && b in st.users
    ensures Valid(st.(users := AddContact(st.users, a, b)))
  {
    var st' := st.(users := AddContact(st.users, a, b));
    AddContactPreservesSymmetry(st.users, a, b);
    assert UsernamesUnique(st'.users) by {
      assert forall x :: x in st.users ==> st'.users[x].username == st.users[x].username;
    }
    assert PhonesUnique(st'.users) by {
      assert forall x :: x in st.users ==> st'.users[x].phoneNumber == st.users[x].phoneNumber;
    }
  }

  /** removeContact: both ids must resolve; then neither user keeps the
      other as a contact. */
  function RemoveContactById(st: UserStore, userId: UserId, contactId: UserId): (r: (UserStore, Result<()>))
    ensures r.1.Err? <==> userId !in st.users || contactId !in st.users
    ensures r.1.Err? ==> r == (st, Err(UserOrContactNotFound))
    ensures r.1.Ok? ==>
      && r.0.users.Keys == st.users.Keys
      && contactId !in r.0.users[userId].contacts
      && userId !in r.0.users[contactId].contacts
      && forall x :: x in st.users && x != userId && x != contactId ==> r.0.users[x] == st.users[x]
  {
    if userId !in st.users || contactId !in st.users then (st, Err(UserOrContactNotFound))
    else (st.(users := RemoveContact(st.users, userId, contactId)), Ok(()))
  }

  /** Removing someone who is not a contact changes nothing, and a removal
      keeps the table valid. */
  lemma RemoveContactByIdOutcome(st: UserStore, userId: UserId, contactId: UserId)
    requires Valid(st)
    ensures var (st', r) := RemoveContactById(st, userId, contactId);
      && Valid(st')
      && (r.Ok? && contactId !in st.users[userId].contacts ==> st' == st)
  {
    if userId in st.users && contactId in st.users {
      RemoveContactKeepsValid(st, userId, contactId);
      if contactId !in st.users[userId].contacts {
        RemoveNonContactIsNoOp(st.users, userId, contactId);
      }
    }
  }

  /** Unrelating two stored users keeps the table valid. */
  lemma RemoveContactKeepsValid(st: UserStore, a: UserId, b: UserId)
    requires Valid(st) && a in st.users && b in st.users
    ensures Valid(st.(users := RemoveContact(st.users, a, b)))
  {
    var st' := st.(users := RemoveContact(st.users, a, b));
    RemoveContactPreservesSymmetry(st.users, a, b);
    assert forall x :: x in st.users ==> st'.users[x].username == st.users[x].username;
    assert forall x :: x in st.users ==> st'.users[x].phoneNumber == st.users[x].phoneNumber;
    assert forall x :: x in st.users ==> st'.users[x].id == st.users[x].id;
  }

  /** getUserContacts. */
  function GetUserContacts(st: UserStore, userId: UserId): (r: Result<set<UserId>>)
    ensures r.Err? <==> userId !in st.users
    ensures r.Err? ==> r.error == UserNotFound
    ensures r.Ok? ==> r.value == st.users[userId].contacts
  {
    if userId !in st.users then Err(UserNotFound) else Ok(st.users[userId].contacts)
  }

  /** searchUsers: exactly the stored users whose name or username
      contains the term; none of them has both fields shorter than it. */
  function SearchUsers(st: UserStore, term: string): (r: set<UserId>)
    ensures forall id :: id in r <==>
      id in st.users && (Contains(st.users[id].name, term) || Contains(st.users[id].username, term))
    ensures forall id :: id in r ==> |term| <= |st.users[id].name| || |term| <= |st.users[id].username|
  {
    var r := FindByNameContaining(st.users, term);
    forall id | id in r
      ensures |term| <= |st.users[id].name| || |term| <= |st.users[id].username|
    {
      ContainsSelfAndEmpty(st.users[id].name, term);
      ContainsSelfAndEmpty(st.users[id].username, term);
    }
    r
  }

  /** searchUsersByPhone: exactly the stored users whose phone number
      contains the term. */
  function SearchUsersByPhone(st: UserStore, term: string): (r: set<UserId>)
    ensures forall id :: id in r <==> id in st.users && Contains(st.users[id].phoneNumber, term)
    ensures forall id :: id in r ==> |term| <= |st.users[id].phoneNumber|
  {
    var r := FindByPhoneNumberContaining(st.users, term);
    forall id | id in r
      ensures |term| <= |st.users[id].phoneNumber|
    {
      ContainsSelfAndEmpty(st.users[id].phoneNumber, term);
    }
    r
  }

  /** Refining a search term narrows the result: searching for a longer
      term that contains a shorter one finds only users the shorter term
      also finds. */
  lemma SearchNarrows(st: UserStore, longer: string, shorter: string)
    requires Contains(longer, shorter)
    ensures SearchUsers(st, longer) <= SearchUsers(st, shorter)
    ensures SearchUsersByPhone(st, longer) <= SearchUsersByPhone(st, shorter)
  {
    forall id | id in SearchUsers(st, longer)
      ensures id in SearchUsers(st, shorter)
    {
      if Contains(st.users[id].name, longer) {
        ContainsTransitive(st.users[id].name, longer, shorter);
      } else {
        ContainsTransitive(st.users[id].username, longer, shorter);
      }
    }
    forall id | id in SearchUsersByPhone(st, longer)
      ensures id in SearchUsersByPhone(st, shorter)
    {
      ContainsTransitive(st.users[id].phoneNumber, longer, shorter);
    }
  }

  /** The empty term lists everybody, and searching for a user's whole
      username, name or phone number finds that user. */
  lemma SearchFindsExactTerms(st: UserStore, id: UserId)
    requires id in st.users
    ensures SearchUsers(st, []) == st.users.Keys && SearchUsersByPhone(st, []) == st.users.Keys
    ensures id in SearchUsers(st, st.users[id].username)
    ensures id in SearchUsers(st, st.users[id].name)
    ensures id in SearchUsersByPhone(st, st.users[id].phoneNumber)
  {
    forall k | k in st.users
      ensures k in SearchUsers(st, []) && k in SearchUsersByPhone(st, [])
    {
      ContainsSelfAndEmpty(st.users[k].name, []);
      ContainsSelfAndEmpty(st.users[k].phoneNumber, []);
    }
    ContainsSelfAndEmpty(st.users[id].username, []);
    ContainsSelfAndEmpty(st.users[id].name, []);
    ContainsSelfAndEmpty(st.users[id].phoneNumber, []);
  }

  /** getOnlineContacts: the user's contacts that the online query reports. */
  function GetOnlineContacts(st: UserStore, userId: UserId): (r: Result<set<UserId>>)
    ensures r.Err? <==> userId !in st.users
    ensures r.Err? ==> r.error == UserNotFound
    ensures r.Ok? ==> r.value == GetUserContacts(st, userId).value * FindOnlineUsers(st.users)
  {
    if userId !in st.users then Err(UserNotFound)
    else Ok(set c | c in st.users[userId].contacts && c in st.users && st.users[c].isOnline)
  }

  /** areContacts: false when either id is unknown, otherwise whether the
      second is among the first's contacts. */
  function AreContacts(st: UserStore, userId1: UserId, userId2: UserId): (b: bool)
    ensures b ==> userId1 in st.users && userId2 in st.users
    ensures b <==> GetUserContacts(st, userId1).Ok? && userId2 in GetUserContacts(st, userId1).value && userId2 in st.users
  {
    if userId1 !in st.users || userId2 !in st.users then false
    else userId2 in st.users[userId1].contacts
  }

  /** Over a valid table being contacts does not depend on argument order. */
  lemma AreContactsSymmetric(st: UserStore, a: UserId, b: UserId)
    requires Valid(st)
    ensures AreContacts(st, a, b) == AreContacts(st, b, a)
  {
  }

  /** After a successful add the two users are contacts in both directions;
      after a successful removal they are not, in either direction. */
  lemma AddThenRemoveContacts(st: UserStore, userId: UserId, phone: string)
    requires Valid(st)
    requires AddContactByPhone(st, userId, phone).1.Ok?
    ensures var (st', r) := AddContactByPhone(st, userId, phone);
      var c := r.value.id.value;
      && AreContacts(st', userId, c) && AreContacts(st', c, userId)
      && !AreContacts(RemoveContactById(st', userId, c).0, userId, c)
      && !AreContacts(RemoveContactById(st', userId, c).0, c, userId)
  {
    AddContactByPhoneOutcome(st, userId, phone);
    var (st', r) := AddContactByPhone(st, userId, phone);
    var c := FindByPhoneNumber(st.users, phone).value.value;
    assert st.users[c].id == Some(c);
  }
}
