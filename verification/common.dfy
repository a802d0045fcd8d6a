/** Shared vocabulary of the chat backend model: identifiers, instants,
    optional values, and the outcome of an operation that can fail. */
module Common {

  /** Database identities, generated by the store when an entity is first saved. */
  type UserId = nat
  type RoomId = nat
  type MessageId = nat

  /** An abstract instant. The model never reads a clock: every operation
      that stamps a time receives it as a parameter. */
  type Time = int

  /** A Java reference that may be null. */
  datatype Option<+T> = None | Some(value: T)

  /** The failures the services raise. Each constructor stands for one
      distinct exception message of the source, or one exception that the
      framework underneath raises. */
  datatype Error =
    // ChatService / ContactService / AuthService: an id or identifier resolves to no user
    | UserNotFound
    // ChatService.createGroupChat: the creator id resolves to no user
    | CreatorNotFound
    // ChatService.createGroupChat: the participant id list is null
    | MissingParticipantIds
    // ChatService.sendMessage: the room or the sender is missing
    | RoomOrSenderNotFound
    // ChatService.sendMessage: the sender is not in the room
    | NotAParticipant
    // ChatService.getChatMessages / getLatestMessages: the room is missing
    | RoomNotFound
    // ChatService.addParticipantToGroupChat: the room, the user or the adder is missing
    | RoomOrUserNotFound
    // ChatService.addParticipantToGroupChat: the room is a private chat
    | NotAGroupChat
    // ChatService.addParticipantToGroupChat: the adder is not in the room
    | NoPermissionToAdd
    // ContactService.addContactByPhone
    | PhoneNotFound
    | CannotAddSelf
    | AlreadyAContact
    // ContactService.removeContact: either id is unknown
    | UserOrContactNotFound
    // AuthService.signup
    | UsernameTaken
    | PhoneTaken
    // AuthService.login
    | InvalidPassword
    // Spring Data: an Optional-returning query matched more than one row
    | NonUniqueResult
    // Spring Data: PageRequest.of with a negative page or a size below one
    | InvalidPageRequest
    // Spring Data JPA: a page whose first row lies beyond Integer.MAX_VALUE
    | OffsetTooLarge
    // The database rejects a row that violates a column constraint
    | ConstraintViolation
    // java.util: a mutation attempted on an unmodifiable list
    | UnsupportedOperation
    // Realtime handlers: a required payload field is missing, null or unparsable
    | MalformedEvent

  datatype Result<+T> = Ok(value: T) | Err(error: Error)

  /** |s| == 1 means s is a singleton. */
  lemma SingletonSet<T>(s: set<T>, x: T)
    requires |s| == 1 && x in s
    ensures s == {x}
  {
    assert |s - {x}| == 0;
  }

  /** The length JPA gives a String column whose mapping states none: the
      schema generated from the entities declares it VARCHAR(255). */
  const DefaultColumnLength: nat := 255

  /** A value the database accepts in a column of the default length. */
  predicate FitsColumn(s: string) {
    |s| <= DefaultColumnLength
  }

  /** The largest Java int. */
  const IntMax: int := 0x7FFF_FFFF

  /** A subset is no larger than the set holding it. */
  lemma SubsetCard<T>(a: set<T>, b: set<T>)
    requires a <= b
    ensures |a| <= |b|
  {
    assert b == a + (b - a);
  }

  /** A set has more than one element exactly when it holds two
      different ones. */
  lemma SeveralMeansTwo<T>(s: set<T>)
    ensures |s| > 1 <==> exists a, b :: a in s && b in s && a != b
  {
    if |s| > 1 {
      var a :| a in s;
      assert |s - {a}| > 0;
      var b :| b in s - {a};
      assert a in s && b in s && a != b;
    }
    if exists a, b :: a in s && b in s && a != b {
      var a, b :| a in s && b in s && a != b;
      SubsetCard({a, b}, s);
    }
  }

  /** The outcome of a Spring Data query declared to return Optional:
      no row is empty, one row is that row, several rows are an error. */
  function Single<T(==)>(s: set<T>): (r: Result<Option<T>>)
    ensures r == Ok(None) <==> s == {}
    ensures r.Ok? && r.value.Some? <==> |s| == 1
    ensures r.Ok? && r.value.Some? ==> s == {r.value.value}
    ensures r.Err? <==> |s| > 1
    ensures r.Err? ==> r.error == NonUniqueResult
  {
    if |s| == 0 then Ok(None)
    else if |s| == 1 then
      var x :| x in s;
      SingletonSet(s, x);
      Ok(Some(x))
    else Err(NonUniqueResult)
  }

  function Min(a: int, b: int): int {
    if a <= b then a else b
  }
}
