/** ChatService: the room registry and the durable message log.

    The chat store holds the room table and the message table; the user
    table is read-only here and passed in. Each mutating operation returns
    the store after the call together with its outcome, and a failed call
    returns the store untouched. */
module ChatService {
  import opened Common
  import opened Seqs
  import opened UserModel
  import opened ChatRoomModel
  import opened MessageModel
  import opened ChatRoomRepository
  import opened MessageRepository

  datatype ChatStore = ChatStore(
    rooms: map<RoomId, ChatRoom>,
    nextRoomId: RoomId,
    messages: seq<Message>,      // insertion order
    nextMessageId: MessageId)

  // ---------------------------------------------------------------------
  // Invariants of the store
  // ---------------------------------------------------------------------

  /** Each stored room carries its own id, has a name, a type and a
      creator, fits its columns, counts the creator among its participants,
      and only references known users. */
  predicate RoomsWellFormed(st: ChatStore, users: map<UserId, User>) {
    forall id :: id in st.rooms ==>
      && st.rooms[id].id == Some(id)
      && id < st.nextRoomId
      && st.rooms[id].name.Some?
      && RoomFits(st.rooms[id])
      && st.rooms[id].chatType.Some?
      && st.rooms[id].createdBy.Some?
      && st.rooms[id].createdBy.value in st.rooms[id].participants
      && st.rooms[id].participants <= users.Keys
  }

  /** A private room holds its creator and at most one other user. */
  predicate PrivateRoomsArePairs(st: ChatStore) {
    forall id :: id in st.rooms && st.rooms[id].chatType == Some(Private) ==> |st.rooms[id].participants| <= 2
  }

  /** At most one private room exists per set of participants. */
  predicate PrivateRoomsUnique(st: ChatStore) {
    forall a, b ::
      a in st.rooms && b in st.rooms && a != b &&
      st.rooms[a].chatType == Some(Private) && st.rooms[b].chatType == Some(Private)
      ==> st.rooms[a].participants != st.rooms[b].participants
  }

  /** Every stored message is storable, has an id below the next one,
      belongs to a stored room, and was sent by a known user who is a
      participant of that room. */
  predicate MessagesWellFormed(st: ChatStore, users: map<UserId, User>) {
    forall i :: 0 <= i < |st.messages| ==>
      && Storable(st.messages[i])
      && st.messages[i].id.Some? && st.messages[i].id.value < st.nextMessageId
      && st.messages[i].sender.value in users
      && st.messages[i].chatRoom.value in st.rooms
      && st.messages[i].sender.value in st.rooms[st.messages[i].chatRoom.value].participants
  }

  /** Ids grow along the table. */
  predicate IdsIncreasing(s: seq<Message>) {
    forall i, j :: 0 <= i < j < |s| ==> s[i].id.Some? && s[j].id.Some? && s[i].id.value < s[j].id.value
  }

  predicate Valid(st: ChatStore, users: map<UserId, User>) {
    && RoomsWellFormed(st, users)
    && PrivateRoomsArePairs(st)
    && PrivateRoomsUnique(st)
    && MessagesWellFormed(st, users)
    && IdsIncreasing(st.messages)
    && Chronological(st.messages)
  }

  /** No stored message is stamped later than `now`: the clock has not run
      backwards since the last message was saved. */
  predicate ClockNotBehind(st: ChatStore, now: Time) {
    forall i :: 0 <= i < |st.messages| ==> st.messages[i].timestamp <= now
  }

  lemma IncreasingIdsAreDistinct(s: seq<Message>)
    requires IdsIncreasing(s)
    ensures Distinct(s)
  {
  }

  /** Saving a new room: the insert fails when the name or the description
      is longer than its column, and otherwise the room receives the next id. */
  function SaveNewRoom(st: ChatStore, room: ChatRoom): (r: (ChatStore, Result<ChatRoom>))
    ensures r.1.Err? <==> !RoomFits(room)
    ensures r.1.Err? ==> r == (st, Err(ConstraintViolation))
    ensures r.1.Ok? ==> r.1 == Ok(room.(id := Some(st.nextRoomId)))
    ensures r.1.Ok? ==> r.0 == st.(rooms := st.rooms[st.nextRoomId := r.1.value], nextRoomId := st.nextRoomId + 1)
  {
    if !RoomFits(room) then (st, Err(ConstraintViolation))
    else
      var saved := room.(id := Some(st.nextRoomId));
      (st.(rooms := st.rooms[st.nextRoomId := saved], nextRoomId := st.nextRoomId + 1), Ok(saved))
  }

  // ---------------------------------------------------------------------
  // Private chats
  // ---------------------------------------------------------------------

  /** The name of a new private chat: the second user's name, " & ", the
      first user's name. */
  function PrivateRoomName(users: map<UserId, User>, user1: UserId, user2: UserId): string
    requires user1 in users && user2 in users
  {
    users[user2].name + " & " + users[user1].name
  }

  /** The room built for a new private chat: named after the second and
      the first user, created by the first, holding both. */
  function NewPrivateRoom(users: map<UserId, User>, user1: UserId, user2: UserId, now: Time): (room: ChatRoom)
    requires user1 in users && user2 in users
    ensures room.chatType == Some(Private)
    ensures room.createdBy == Some(user1)
    ensures room.name == Some(PrivateRoomName(users, user1, user2))
    ensures room.participants == {user1, user2}
    ensures room.description.None? && room.id.None?
    ensures room.createdAt == now && room.updatedAt == now
  {
    var room := NewChatRoom(now).(
      name := Some(PrivateRoomName(users, user1, user2)),
      chatType := Some(Private),
      createdBy := Some(user1));
    AddParticipant(AddParticipant(room, user1, now), user2, now)
  }

  /** createOrGetPrivateChat as the source writes it: the existing room is
      looked up with findPrivateChatBetweenUsers, which asks only that both
      users be among a private room's participants. */
  function CreateOrGetPrivateChatAsWritten(users: map<UserId, User>, st: ChatStore, user1: UserId, user2: UserId, now: Time)
    : (r: (ChatStore, Result<ChatRoom>))
    ensures r.1.Err? ==> r.0 == st
    ensures user1 !in users || user2 !in users ==> r == (st, Err(UserNotFound))
    ensures user1 in users && user2 in users && FindPrivateChatBetweenUsers(st.rooms, user1, user2) == Ok(None)
            && !FitsColumn(PrivateRoomName(users, user1, user2)) ==>
      r == (st, Err(ConstraintViolation))
    ensures r.1.Ok? ==>
      && r.1.value in r.0.rooms.Values
      && r.1.value.chatType == Some(Private)
      && HasParticipant(r.1.value, user1) && HasParticipant(r.1.value, user2)
  {
    if user1 !in users || user2 !in users then (st, Err(UserNotFound))
    else match FindPrivateChatBetweenUsers(st.rooms, user1, user2)
      case Err(e) => (st, Err(e))
      case Ok(Some(id)) => (st, Ok(st.rooms[id]))
      case Ok(None) =>
        var saved := SaveNewRoom(st, NewPrivateRoom(users, user1, user2, now));
        assert saved.1.Ok? ==> saved.0.rooms[st.nextRoomId] == saved.1.value;
        saved
  }

  /** Private rooms whose participants are exactly the two users. */
  function PrivateRoomsOfPair(rooms: map<RoomId, ChatRoom>, user1: UserId, user2: UserId): set<RoomId> {
    set id | id in rooms && rooms[id].chatType == Some(Private) && rooms[id].participants == {user1, user2}
  }

  /** The private room of exactly these two users, if any. */
  function FindPrivateChatOfPair(rooms: map<RoomId, ChatRoom>, user1: UserId, user2: UserId): (r: Result<Option<RoomId>>)
    ensures r.Ok? && r.value.Some? ==>
      r.value.value in rooms && rooms[r.value.value].chatType == Some(Private)
      && rooms[r.value.value].participants == {user1, user2}
  {
    Single(PrivateRoomsOfPair(rooms, user1, user2))
  }

  /** createOrGetPrivateChat: both users must exist; the private room of
      exactly this pair is returned if there is one, and otherwise a new
      one is created holding the two users, which fails when the combined
      name is longer than its column. */
  function CreateOrGetPrivateChat(users: map<UserId, User>, st: ChatStore, user1: UserId, user2: UserId, now: Time)
    : (r: (ChatStore, Result<ChatRoom>))
    ensures r.1.Err? ==> r.0 == st
    ensures user1 !in users || user2 !in users ==> r == (st, Err(UserNotFound))
    ensures user1 in users && user2 in users && PrivateRoomsOfPair(st.rooms, user1, user2) == {}
            && !FitsColumn(PrivateRoomName(users, user1, user2)) ==>
      r == (st, Err(ConstraintViolation))
    ensures r.1.Ok? ==>
      && r.1.value.chatType == Some(Private)
      && r.1.value.participants == {user1, user2}
      && r.1.value in r.0.rooms.Values
      && r.0.messages == st.messages
    ensures r.1.Ok? && r.0 != st ==>
      && PrivateRoomsOfPair(st.rooms, user1, user2) == {}
      && r.1.value == NewPrivateRoom(users, user1, user2, now).(id := Some(st.nextRoomId))
      && r.0 == st.(rooms := st.rooms[st.nextRoomId := r.1.value], nextRoomId := st.nextRoomId + 1)
  {
    if user1 !in users || user2 !in users then (st, Err(UserNotFound))
    else match FindPrivateChatOfPair(st.rooms, user1, user2)
      case Err(e) => (st, Err(e))
      case Ok(Some(id)) => (st, Ok(st.rooms[id]))
      case Ok(None) =>
        var saved := SaveNewRoom(st, NewPrivateRoom(users, user1, user2, now));
        assert saved.1.Ok? ==> saved.0.rooms[st.nextRoomId] == saved.1.value;
        saved
  }

  /** Over a valid store the lookup never fails: the call fails only for
      an unknown user or a new room whose name does not fit, and the room
      found (if any) is returned without creating anything. */
  lemma CreateOrGetPrivateChatOutcome(users: map<UserId, User>, st: ChatStore, user1: UserId, user2: UserId, now: Time)
    requires Valid(st, users)
    ensures var (st', r) := CreateOrGetPrivateChat(users, st, user1, user2, now);
      && (r.Err? <==> user1 !in users || user2 !in users
                      || (PrivateRoomsOfPair(st.rooms, user1, user2) == {} && !FitsColumn(PrivateRoomName(users, user1, user2))))
      && (r.Ok? && PrivateRoomsOfPair(st.rooms, user1, user2) != {} ==>
            st' == st && r.value.id.Some? && r.value == st.rooms[r.value.id.value])
      && Valid(st', users)
  {
    PairRoomAtMostOne(users, st, user1, user2);
    var (st', r) := CreateOrGetPrivateChat(users, st, user1, user2, now);
    if r.Ok? && st' != st {
      NewPrivateRoomPreservesValid(users, st, user1, user2, now);
    }
  }

  /** In a valid store a pair of users has at most one private room. */
  lemma PairRoomAtMostOne(users: map<UserId, User>, st: ChatStore, user1: UserId, user2: UserId)
    requires Valid(st, users)
    ensures |PrivateRoomsOfPair(st.rooms, user1, user2)| <= 1
  {
    var s := PrivateRoomsOfPair(st.rooms, user1, user2);
    if s != {} {
      var x :| x in s;
      forall y | y in s ensures y == x {
        assert st.rooms[x].participants == st.rooms[y].participants;
      }
      assert s == {x};
    }
  }

  /** Extending the room table, keeping every stored room as it was, keeps
      the message table well formed. */
  lemma MoreRoomsKeepMessages(st: ChatStore, st': ChatStore, users: map<UserId, User>)
    requires MessagesWellFormed(st, users)
    requires st'.messages == st.messages && st'.nextMessageId == st.nextMessageId
    requires forall id :: id in st.rooms ==> id in st'.rooms && st'.rooms[id] == st.rooms[id]
    ensures MessagesWellFormed(st', users)
  {
    forall i | 0 <= i < |st'.messages|
      ensures st'.messages[i].chatRoom.value in st'.rooms
      ensures st'.messages[i].sender.value in st'.rooms[st'.messages[i].chatRoom.value].participants
    {
      var room := st.messages[i].chatRoom.value;
      assert room in st.rooms;
      assert st'.rooms[room] == st.rooms[room];
    }
  }

  /** Adding a fresh private room for a pair that has none keeps the store valid. */
  lemma NewPrivateRoomPreservesValid(users: map<UserId, User>, st: ChatStore, user1: UserId, user2: UserId, now: Time)
    requires Valid(st, users)
    requires user1 in users && user2 in users
    requires PrivateRoomsOfPair(st.rooms, user1, user2) == {}
    ensures Valid(SaveNewRoom(st, NewPrivateRoom(users, user1, user2, now)).0, users)
  {
    var st' := SaveNewRoom(st, NewPrivateRoom(users, user1, user2, now)).0;
    var k := st.nextRoomId;
    assert k !in st.rooms;
    assert |{user1, user2}| <= 2;
    assert RoomsWellFormed(st', users);
    assert PrivateRoomsArePairs(st');
    forall a, b | a in st'.rooms && b in st'.rooms && a != b &&
                  st'.rooms[a].chatType == Some(Private) && st'.rooms[b].chatType == Some(Private)
      ensures st'.rooms[a].participants != st'.rooms[b].participants
    {
      if a == k {
        assert b !in PrivateRoomsOfPair(st.rooms, user1, user2);
      } else if b == k {
        assert a !in PrivateRoomsOfPair(st.rooms, user1, user2);
      }
    }
    MoreRoomsKeepMessages(st, st', users);
  }

  /** Asking for (A, B) and then for (B, A) yields the same room, and the
      second call creates nothing. */
  lemma PrivateChatOrderIrrelevant(users: map<UserId, User>, st: ChatStore, a: UserId, b: UserId, t1: Time, t2: Time)
    requires Valid(st, users)
    requires a in users && b in users
    ensures var (st1, r1) := CreateOrGetPrivateChat(users, st, a, b, t1);
      var (st2, r2) := CreateOrGetPrivateChat(users, st1, b, a, t2);
      r2 == r1 && st2 == st1
  {
    CreateOrGetPrivateChatOutcome(users, st, a, b, t1);
    var (st1, r1) := CreateOrGetPrivateChat(users, st, a, b, t1);
    if r1.Err? {
      SwappedNameTooLong(users, st, a, b, t2);
      return;
    }
    assert {b, a} == {a, b};
    var id := r1.value.id.value;
    assert id in st1.rooms && st1.rooms[id] == r1.value;
    assert id in PrivateRoomsOfPair(st1.rooms, b, a);
    PairRoomAtMostOne(users, st1, b, a);
    assert PrivateRoomsOfPair(st1.rooms, b, a) == {id};
    ExistingPairRoom(users, st1, b, a, t2, id);
  }

  /** The pair's room name has the same length in either order, so a name
      too long for (A, B) is too long for (B, A) as well. */
  lemma SwappedNameTooLong(users: map<UserId, User>, st: ChatStore, a: UserId, b: UserId, now: Time)
    requires a in users && b in users
    requires PrivateRoomsOfPair(st.rooms, a, b) == {} && !FitsColumn(PrivateRoomName(users, a, b))
    ensures CreateOrGetPrivateChat(users, st, b, a, now) == (st, Err(ConstraintViolation))
  {
    assert {b, a} == {a, b};
    assert PrivateRoomsOfPair(st.rooms, b, a) == {};
    assert |PrivateRoomName(users, b, a)| == |PrivateRoomName(users, a, b)|;
  }

  /** When the pair already has its private room, that room is returned and
      nothing is created. */
  lemma ExistingPairRoom(users: map<UserId, User>, st: ChatStore, user1: UserId, user2: UserId, now: Time, id: RoomId)
    requires user1 in users && user2 in users
    requires PrivateRoomsOfPair(st.rooms, user1, user2) == {id}
    ensures CreateOrGetPrivateChat(users, st, user1, user2, now) == (st, Ok(st.rooms[id]))
  {
    assert FindPrivateChatOfPair(st.rooms, user1, user2) == Ok(Some(id));
  }

  /** For two different users, a private room containing both is exactly
      the room of that pair, so the lookup as written agrees with the
      corrected one. */
  lemma AsWrittenAgreesForDistinctUsers(users: map<UserId, User>, st: ChatStore, user1: UserId, user2: UserId, now: Time)
    requires Valid(st, users)
    requires user1 != user2
    ensures CreateOrGetPrivateChatAsWritten(users, st, user1, user2, now) == CreateOrGetPrivateChat(users, st, user1, user2, now)
  {
    forall id | id in st.rooms && st.rooms[id].chatType == Some(Private)
      ensures (user1 in st.rooms[id].participants && user2 in st.rooms[id].participants)
              <==> st.rooms[id].participants == {user1, user2}
    {
      var p := st.rooms[id].participants;
      if user1 in p && user2 in p {
        assert {user1, user2} <= p;
        assert |{user1, user2}| == 2;
        if p != {user1, user2} {
          var z :| z in p && z !in {user1, user2};
          assert {user1, user2, z} <= p;
          assert |{user1, user2, z}| == 3;
          SubsetCard({user1, user2, z}, p);
        }
      }
    }
    assert PrivateRoomsWith(st.rooms, user1, user2) == PrivateRoomsOfPair(st.rooms, user1, user2);
  }

  /** A concrete store showing the as-written lookup on a self-chat: users
      1 and 2 share private room 0; asking for the private chat of user 1
      with itself returns that shared room, whose participants are not
      {1}. The corrected lookup creates the self room instead. */
  lemma SelfChatCounterexample(now: Time)
    ensures var users := map[1 := NewUser("ann", "Ann", "555-1", "pw", 0).(id := Some(1)),
                              2 := NewUser("bob", "Bob", "555-2", "pw", 0).(id := Some(2))];
      var room := ChatRoom(Some(0), Some("Bob & Ann"), Some(Private), Some(1), {1, 2}, None, 0, 0);
      var st := ChatStore(map[0 := room], 1, [], 0);
      && Valid(st, users)
      && CreateOrGetPrivateChatAsWritten(users, st, 1, 1, now) == (st, Ok(room))
      && room.participants != {1}
      && CreateOrGetPrivateChat(users, st, 1, 1, now).1.Ok?
      && CreateOrGetPrivateChat(users, st, 1, 1, now).1.value.participants == {1}
  {
    var users := map[1 := NewUser("ann", "Ann", "555-1", "pw", 0).(id := Some(1)),
                     2 := NewUser("bob", "Bob", "555-2", "pw", 0).(id := Some(2))];
    var room := ChatRoom(Some(0), Some("Bob & Ann"), Some(Private), Some(1), {1, 2}, None, 0, 0);
    var st := ChatStore(map[0 := room], 1, [], 0);
    OneRoomStoreValid(users, st, room);
    assert PrivateRoomsWith(st.rooms, 1, 1) == {0};
    assert {1, 2} != {1} by { assert 2 !in {1}; }
    assert PrivateRoomsOfPair(st.rooms, 1, 1) == {};
  }

  /** A store holding one well-formed room and no messages is valid. */
  lemma OneRoomStoreValid(users: map<UserId, User>, st: ChatStore, room: ChatRoom)
    requires st == ChatStore(map[0 := room], 1, [], 0)
    requires room.id == Some(0) && room.name.Some? && RoomFits(room)
    requires room.chatType.Some? && room.createdBy.Some?
    requires room.createdBy.value in room.participants && room.participants <= users.Keys
    requires room.chatType == Some(Private) ==> |room.participants| <= 2
    ensures Valid(st, users)
  {
  }

  // ---------------------------------------------------------------------
  // Group chats
  // ---------------------------------------------------------------------

  /** Ids in `ids` that resolve to a user. */
  function Resolvable(ids: seq<UserId>, users: map<UserId, User>): set<UserId> {
    set id | id in ids && id in users
  }

  /** The loop of createGroupChat: each id that resolves is added, each
      that does not is skipped. */
  function AddResolvable(room: ChatRoom, ids: seq<UserId>, users: map<UserId, User>, now: Time): (r: ChatRoom)
    ensures r.participants == room.participants + Resolvable(ids, users)
    ensures r == room.(participants := r.participants, updatedAt := r.updatedAt)
    decreases |ids|
  {
    if ids == [] then room
    else
      var next := if ids[0] in users then AddParticipant(room, ids[0], now) else room;
      assert Resolvable(ids, users) == Resolvable(ids[..1], users) + Resolvable(ids[1..], users) by {
        assert ids == ids[..1] + ids[1..];
      }
      AddResolvable(next, ids[1..], users, now)
  }

  /** createGroupChat: the creator must exist and the id list must be
      present, and the name and description must fit their columns; the
      new GROUP room carries the name and description given and holds the
      creator plus exactly the ids that resolve. */
  function CreateGroupChat(users: map<UserId, User>, st: ChatStore, name: string, description: Option<string>,
                           creator: UserId, participantIds: Option<seq<UserId>>, now: Time)
    : (r: (ChatStore, Result<ChatRoom>))
    ensures r.1.Err? ==> r.0 == st
    ensures creator !in users ==> r.1 == Err(CreatorNotFound)
    ensures creator in users && participantIds.None? ==> r.1 == Err(MissingParticipantIds)
    ensures creator in users && participantIds.Some?
            && !(FitsColumn(name) && (description.Some? ==> FitsColumn(description.value))) ==>
      r.1 == Err(ConstraintViolation)
    ensures r.1.Ok? <==>
      creator in users && participantIds.Some? && FitsColumn(name) && (description.Some? ==> FitsColumn(description.value))
    ensures r.1.Ok? ==>
      var room := r.1.value;
      && room.chatType == Some(Group)
      && room.name == Some(name) && room.description == description
      && room.createdBy == Some(creator)
      && room.participants == {creator} + Resolvable(participantIds.value, users)
      && room.id == Some(st.nextRoomId)
      && r.0 == st.(rooms := st.rooms[st.nextRoomId := room], nextRoomId := st.nextRoomId + 1)
  {
    if creator !in users then (st, Err(CreatorNotFound))
    else
      var room := NewChatRoom(now).(
        name := Some(name), description := description,
        chatType := Some(Group), createdBy := Some(creator));
      var room := AddParticipant(room, creator, now);
      match participantIds
      case None => (st, Err(MissingParticipantIds))
      case Some(ids) => SaveNewRoom(st, AddResolvable(room, ids, users, now))
  }

  lemma CreateGroupChatPreservesValid(users: map<UserId, User>, st: ChatStore, name: string, description: Option<string>,
                                      creator: UserId, participantIds: Option<seq<UserId>>, now: Time)
    requires Valid(st, users)
    ensures Valid(CreateGroupChat(users, st, name, description, creator, participantIds, now).0, users)
  {
    var (st', r) := CreateGroupChat(users, st, name, description, creator, participantIds, now);
    if r.Ok? {
      assert st.nextRoomId !in st.rooms;
      assert RoomsWellFormed(st', users);
      MoreRoomsKeepMessages(st, st', users);
    }
  }

  // ---------------------------------------------------------------------
  // Listings
  // ---------------------------------------------------------------------

  /** getUserChatRooms. */
  function GetUserChatRooms(users: map<UserId, User>, st: ChatStore, user: UserId): (r: Result<set<RoomId>>)
    ensures r.Err? <==> user !in users
    ensures r.Err? ==> r.error == UserNotFound
    ensures r.Ok? ==> forall id :: id in r.value <==> id in st.rooms && HasParticipant(st.rooms[id], user)
  {
    if user !in users then Err(UserNotFound) else Ok(FindByParticipant(st.rooms, user))
  }

  /** getUserPrivateChats. */
  function GetUserPrivateChats(users: map<UserId, User>, st: ChatStore, user: UserId): (r: Result<set<RoomId>>)
    ensures r.Err? <==> user !in users
    ensures r.Err? ==> r.error == UserNotFound
    ensures r.Ok? ==> forall id :: id in r.value <==>
      id in GetUserChatRooms(users, st, user).value && st.rooms[id].chatType == Some(Private)
  {
    if user !in users then Err(UserNotFound) else Ok(FindPrivateChatsByParticipant(st.rooms, user))
  }

  /** getUserGroupChats. */
  function GetUserGroupChats(users: map<UserId, User>, st: ChatStore, user: UserId): (r: Result<set<RoomId>>)
    ensures r.Err? <==> user !in users
    ensures r.Err? ==> r.error == UserNotFound
    ensures r.Ok? ==> forall id :: id in r.value <==>
      id in GetUserChatRooms(users, st, user).value && st.rooms[id].chatType == Some(Group)
  {
    if user !in users then Err(UserNotFound) else Ok(FindGroupChatsByParticipant(st.rooms, user))
  }

  /** A known user's private and group listings split the full listing. */
  lemma UserListingsPartition(users: map<UserId, User>, st: ChatStore, user: UserId)
    requires Valid(st, users) && user in users
    ensures GetUserPrivateChats(users, st, user).value + GetUserGroupChats(users, st, user).value
         == GetUserChatRooms(users, st, user).value
    ensures GetUserPrivateChats(users, st, user).value !! GetUserGroupChats(users, st, user).value
  {
    ListingsPartition(st.rooms, user);
  }

  // ---------------------------------------------------------------------
  // Messages
  // ---------------------------------------------------------------------

  /** sendMessage: the room and the sender must exist, the sender must be a
      participant, and the content and the type must fit their columns;
      then exactly one message is appended, with the next id and the given
      fields. */
  function SendMessage(users: map<UserId, User>, st: ChatStore, roomId: RoomId, senderId: UserId,
                       content: string, messageType: string, now: Time)
    : (r: (ChatStore, Result<Message>))
    ensures r.1.Err? ==> r.0 == st
    ensures roomId !in st.rooms || senderId !in users ==> r.1 == Err(RoomOrSenderNotFound)
    ensures roomId in st.rooms && senderId in users && !HasParticipant(st.rooms[roomId], senderId) ==>
      r.1 == Err(NotAParticipant)
    ensures r.1.Ok? <==>
      roomId in st.rooms && senderId in users && HasParticipant(st.rooms[roomId], senderId)
      && |content| <= MaxContentLength && FitsColumn(messageType)
    ensures roomId in st.rooms && senderId in users && HasParticipant(st.rooms[roomId], senderId)
            && !(|content| <= MaxContentLength && FitsColumn(messageType)) ==>
      r.1 == Err(ConstraintViolation)
    ensures r.1.Ok? ==>
      var m := r.1.value;
      && m.sender == Some(senderId) && m.chatRoom == Some(roomId)
      && m.content == Some(content) && m.messageType == messageType
      && m.timestamp == now && m.id == Some(st.nextMessageId)
      && r.0 == st.(messages := st.messages + [m], nextMessageId := st.nextMessageId + 1)
  {
    if roomId !in st.rooms || senderId !in users then (st, Err(RoomOrSenderNotFound))
    else if !HasParticipant(st.rooms[roomId], senderId) then (st, Err(NotAParticipant))
    else
      var m := NewMessageFrom(senderId, roomId, content, messageType, now);
      if !Storable(m) then (st, Err(ConstraintViolation))
      else
        var saved := m.(id := Some(st.nextMessageId));
        (st.(messages := st.messages + [saved], nextMessageId := st.nextMessageId + 1), Ok(saved))
  }

  lemma {:induction false} CountAppend(log: seq<Message>, m: Message, room: RoomId)
    ensures CountByChatRoom(log + [m], room) == CountByChatRoom(log, room) + (if m.chatRoom == Some(room) then 1 else 0)
  {
    if log != [] {
      assert (log + [m])[1..] == log[1..] + [m];
      CountAppend(log[1..], m, room);
    } else {
      assert [m][1..] == [];
    }
  }

  /** A successful send adds one to the target room's count and leaves
      every other room's count as it was; a failed send changes no count. */
  lemma SendMessageCounts(users: map<UserId, User>, st: ChatStore, roomId: RoomId, senderId: UserId,
                          content: string, messageType: string, now: Time, other: RoomId)
    ensures var (st', r) := SendMessage(users, st, roomId, senderId, content, messageType, now);
      && (r.Ok? ==> CountByChatRoom(st'.messages, roomId) == CountByChatRoom(st.messages, roomId) + 1)
      && (r.Err? || other != roomId ==> CountByChatRoom(st'.messages, other) == CountByChatRoom(st.messages, other))
  {
    var (st', r) := SendMessage(users, st, roomId, senderId, content, messageType, now);
    if r.Ok? {
      CountAppend(st.messages, r.value, roomId);
      CountAppend(st.messages, r.value, other);
    }
  }

  /** A send at an instant no earlier than every stored message keeps the
      store valid, in particular chronological. */
  lemma SendMessagePreservesValid(users: map<UserId, User>, st: ChatStore, roomId: RoomId, senderId: UserId,
                                  content: string, messageType: string, now: Time)
    requires Valid(st, users) && ClockNotBehind(st, now)
    ensures Valid(SendMessage(users, st, roomId, senderId, content, messageType, now).0, users)
  {
    var (st', r) := SendMessage(users, st, roomId, senderId, content, messageType, now);
    if r.Ok? {
      var n := |st.messages|;
      assert st'.messages[n] == r.value;
      assert MessagesWellFormed(st', users) by {
        forall i | 0 <= i < |st'.messages|
          ensures Storable(st'.messages[i])
        {
          if i < n { assert st'.messages[i] == st.messages[i]; }
        }
      }
      assert IdsIncreasing(st'.messages) by {
        forall i, j | 0 <= i < j < |st'.messages|
          ensures st'.messages[i].id.Some? && st'.messages[j].id.Some? && st'.messages[i].id.value < st'.messages[j].id.value
        {
          assert st'.messages[i] == st.messages[i];
          if j < n { assert st'.messages[j] == st.messages[j]; }
        }
      }
      assert Chronological(st'.messages) by {
        forall i, j | 0 <= i < j < |st'.messages|
          ensures st'.messages[i].timestamp <= st'.messages[j].timestamp
        {
          assert st'.messages[i] == st.messages[i];
          if j < n { assert st'.messages[j] == st.messages[j]; }
        }
      }
    }
  }

  /** getChatMessages: page `page` of `size` messages from the room's
      newest-first list, put back into chronological order. An unknown room
      is reported before an invalid page request, and that before an offset
      the query refuses; a page past the end is empty. */
  function GetChatMessages(st: ChatStore, roomId: RoomId, page: int, size: int): (r: Result<seq<Message>>)
    ensures roomId !in st.rooms ==> r == Err(RoomNotFound)
    ensures roomId in st.rooms && (page < 0 || size < 1) ==> r == Err(InvalidPageRequest)
    ensures roomId in st.rooms && page >= 0 && size >= 1 && Offset(page, size) > IntMax ==> r == Err(OffsetTooLarge)
    ensures r.Ok? <==> roomId in st.rooms && page >= 0 && size >= 1 && Offset(page, size) <= IntMax
    ensures r.Ok? ==> IsReversedPage(r.value, NewestFirst(st.messages, roomId), Offset(page, size), size)
  {
    if roomId !in st.rooms then Err(RoomNotFound)
    else match PageRequestOf(page, size)
      case Err(e) => Err(e)
      case Ok(pr) =>
        match FindByChatRoomOrderByTimestampDesc(st.messages, roomId, pr)
        case Err(e) => Err(e)
        case Ok(content) =>
          ReversedDescPage(st.messages, roomId, pr, content);
          Ok(Reverse(content))
  }

  /** Every page getChatMessages returns is in chronological order. */
  lemma GetChatMessagesChronological(st: ChatStore, roomId: RoomId, page: int, size: int)
    requires Chronological(st.messages)
    requires GetChatMessages(st, roomId, page, size).Ok?
    ensures Chronological(GetChatMessages(st, roomId, page, size).value)
  {
    NewestFirstIsOrdered(st.messages, roomId);
    ReversedNewestPageChronological(NewestFirst(st.messages, roomId), page, size);
  }

  /** Page 0 of getChatMessages is the last `size` messages of the room's
      oldest-first history. */
  lemma FirstPageIsNewestTail(st: ChatStore, roomId: RoomId, size: int)
    requires GetChatMessages(st, roomId, 0, size).Ok?
    ensures var asc := FindByChatRoomOrderByTimestampAsc(st.messages, roomId);
      GetChatMessages(st, roomId, 0, size).value == asc[|asc| - Min(size, |asc|)..]
  {
    ReversedFirstPageIsTail(FindByChatRoomOrderByTimestampAsc(st.messages, roomId), size);
  }

  /** Pages of one size with different numbers share no message. */
  lemma ChatMessagePagesDisjoint(st: ChatStore, roomId: RoomId, p: int, q: int, size: int)
    requires IdsIncreasing(st.messages)
    requires p != q
    ensures var rp := GetChatMessages(st, roomId, p, size);
      var rq := GetChatMessages(st, roomId, q, size);
      rp.Ok? && rq.Ok? ==> forall m :: m in rp.value ==> m !in rq.value
  {
    if GetChatMessages(st, roomId, p, size).Ok? && GetChatMessages(st, roomId, q, size).Ok? {
      IncreasingIdsAreDistinct(st.messages);
      DescPagesDisjoint(st.messages, roomId, PageRequest(p, size), PageRequest(q, size));
      ReverseKeepsElements(FindByChatRoomOrderByTimestampDesc(st.messages, roomId, PageRequest(p, size)).value);
      ReverseKeepsElements(FindByChatRoomOrderByTimestampDesc(st.messages, roomId, PageRequest(q, size)).value);
    }
  }

  /** getChatMessages as the source writes it: the page content is
      reversed in place, but Spring Data hands out the content of a page
      as an unmodifiable list, so the reversal fails as soon as it has two
      elements to swap. */
  function GetChatMessagesAsWritten(st: ChatStore, roomId: RoomId, page: int, size: int): (r: Result<seq<Message>>)
    ensures roomId !in st.rooms ==> r == Err(RoomNotFound)
    ensures roomId in st.rooms && (page < 0 || size < 1) ==> r == Err(InvalidPageRequest)
    ensures roomId in st.rooms && page >= 0 && size >= 1 && Offset(page, size) > IntMax ==> r == Err(OffsetTooLarge)
    ensures r == Err(UnsupportedOperation) <==>
      && roomId in st.rooms && page >= 0 && size >= 1 && Offset(page, size) <= IntMax
      && Offset(page, size) < CountByChatRoom(st.messages, roomId)
      && Min(size, CountByChatRoom(st.messages, roomId) - Offset(page, size)) >= 2
    ensures r.Ok? ==>
      && |r.value| <= 1
      && forall i :: 0 <= i < |r.value| ==>
           Offset(page, size) + i < |NewestFirst(st.messages, roomId)|
           && r.value[i] == NewestFirst(st.messages, roomId)[Offset(page, size) + i]
  {
    if roomId !in st.rooms then Err(RoomNotFound)
    else match PageRequestOf(page, size)
      case Err(e) => Err(e)
      case Ok(pr) =>
        match FindByChatRoomOrderByTimestampDesc(st.messages, roomId, pr)
        case Err(e) => Err(e)
        case Ok(content) => if |content| >= 2 then Err(UnsupportedOperation) else Ok(content)
  }

  /** The as-written version fails exactly when the intended result holds
      two or more messages, and agrees with it otherwise. */
  lemma GetChatMessagesAsWrittenDiffers(st: ChatStore, roomId: RoomId, page: int, size: int)
    ensures var intended := GetChatMessages(st, roomId, page, size);
      var written := GetChatMessagesAsWritten(st, roomId, page, size);
      && (intended.Ok? && |intended.value| >= 2 ==> written == Err(UnsupportedOperation))
      && (intended.Err? || |intended.value| < 2 ==> written == intended)
  {
    if roomId in st.rooms && page >= 0 && size >= 1 {
      var found := FindByChatRoomOrderByTimestampDesc(st.messages, roomId, PageRequest(page, size));
      if found.Ok? && |found.value| < 2 {
        ShortReverse(found.value);
      }
    }
  }

  /** The two messages of the counterexample below, and the page the query
      loads for them: newest first. */
  lemma TwoMessageLoadedPage(m1: Message, m2: Message)
    requires m1.chatRoom == Some(0) && m2.chatRoom == Some(0)
    ensures FindByChatRoomOrderByTimestampDesc([m1, m2], 0, PageRequest(0, 50)) == Ok([m2, m1])
  {
    var log := [m1, m2];
    assert log[1..] == [m2];
    assert FindByChatRoomOrderByTimestampAsc(log, 0) == [m1, m2];
    assert NewestFirst(log, 0) == [m2, m1];
    FirstPageIsPrefix(NewestFirst(log, 0), 50);
    assert [m2, m1][..Min(50, 2)] == [m2, m1];
    assert Page(NewestFirst(log, 0), 0, 50) == [m2, m1];
    assert Offset(0, 50) == 0;
  }

  /** A concrete room with two messages: the first page fails as written,
      while the intended result lists both messages oldest first. */
  lemma TwoMessagePageCounterexample()
    ensures var m1 := Message(Some(0), Some(1), Some(0), Some("hi"), 10, "CHAT");
      var m2 := Message(Some(1), Some(1), Some(0), Some("there"), 20, "CHAT");
      var room := ChatRoom(Some(0), Some("team"), Some(Group), Some(1), {1}, None, 0, 0);
      var st := ChatStore(map[0 := room], 1, [m1, m2], 2);
      && GetChatMessagesAsWritten(st, 0, 0, 50) == Err(UnsupportedOperation)
      && GetChatMessages(st, 0, 0, 50) == Ok([m1, m2])
  {
    var m1 := Message(Some(0), Some(1), Some(0), Some("hi"), 10, "CHAT");
    var m2 := Message(Some(1), Some(1), Some(0), Some("there"), 20, "CHAT");
    TwoMessageLoadedPage(m1, m2);
    assert PageRequestOf(0, 50) == Ok(PageRequest(0, 50));
    assert Reverse([m2, m1]) == [m1, m2];
  }

  /** getLatestMessages: at most `limit` messages of the room, newest first. */
  function GetLatestMessages(st: ChatStore, roomId: RoomId, limit: int): (r: Result<seq<Message>>)
    ensures roomId !in st.rooms ==> r == Err(RoomNotFound)
    ensures roomId in st.rooms && limit < 1 ==> r == Err(InvalidPageRequest)
    ensures r.Ok? <==> roomId in st.rooms && limit >= 1
    ensures r.Ok? ==>
      && |r.value| <= limit
      && r.value == NewestFirst(st.messages, roomId)[..Min(limit, |NewestFirst(st.messages, roomId)|)]
  {
    if roomId !in st.rooms then Err(RoomNotFound)
    else match PageRequestOf(0, limit)
      case Err(e) => Err(e)
      case Ok(pr) => FindLatestMessagesByChatRoom(st.messages, roomId, pr)
  }

  /** The first page of getChatMessages is getLatestMessages reversed:
      the same messages, in the opposite order. */
  lemma FirstPageIsLatestReversed(st: ChatStore, roomId: RoomId, n: int)
    ensures GetChatMessages(st, roomId, 0, n).Ok? <==> GetLatestMessages(st, roomId, n).Ok?
    ensures GetChatMessages(st, roomId, 0, n).Ok? ==>
      GetChatMessages(st, roomId, 0, n).value == Reverse(GetLatestMessages(st, roomId, n).value)
  {
  }

  // ---------------------------------------------------------------------
  // Adding group members
  // ---------------------------------------------------------------------

  /** addParticipantToGroupChat: a missing room, user or adder is reported
      first, then a room that is not a group, then an adder who is not a
      member; on success the user joins that one room and nothing else
      changes. */
  function AddParticipantToGroupChat(users: map<UserId, User>, st: ChatStore, roomId: RoomId, userId: UserId,
                                     addedBy: UserId, now: Time)
    : (r: (ChatStore, Result<ChatRoom>))
    ensures r.1.Err? ==> r.0 == st
    ensures roomId !in st.rooms || userId !in users || addedBy !in users ==> r.1 == Err(RoomOrUserNotFound)
    ensures roomId in st.rooms && userId in users && addedBy in users && st.rooms[roomId].chatType != Some(Group) ==>
      r.1 == Err(NotAGroupChat)
    ensures roomId in st.rooms && userId in users && addedBy in users && st.rooms[roomId].chatType == Some(Group)
            && !HasParticipant(st.rooms[roomId], addedBy) ==>
      r.1 == Err(NoPermissionToAdd)
    ensures r.1.Ok? <==>
      && roomId in st.rooms && userId in users && addedBy in users
      && st.rooms[roomId].chatType == Some(Group) && HasParticipant(st.rooms[roomId], addedBy)
    ensures r.1.Ok? ==>
      && roomId in st.rooms
      && r.1.value.participants == st.rooms[roomId].participants + {userId}
      && r.1.value == st.rooms[roomId].(participants := r.1.value.participants, updatedAt := now)
      && r.0 == st.(rooms := st.rooms[roomId := r.1.value])
  {
    if roomId !in st.rooms || userId !in users || addedBy !in users then (st, Err(RoomOrUserNotFound))
    else
      var room := st.rooms[roomId];
      if room.chatType != Some(Group) then (st, Err(NotAGroupChat))
      else if !HasParticipant(room, addedBy) then (st, Err(NoPermissionToAdd))
      else
        var room' := AddParticipant(room, userId, now);
        (st.(rooms := st.rooms[roomId := room']), Ok(room'))
  }

  /** Adding someone who is already a member leaves the participant set
      as it was; the only change is the room's updatedAt. */
  lemma AddParticipantToGroupChatIdempotent(users: map<UserId, User>, st: ChatStore, roomId: RoomId, userId: UserId,
                                            addedBy: UserId, now: Time)
    requires AddParticipantToGroupChat(users, st, roomId, userId, addedBy, now).1.Ok?
    requires HasParticipant(st.rooms[roomId], userId)
    ensures var (st', r) := AddParticipantToGroupChat(users, st, roomId, userId, addedBy, now);
      r.value.participants == st.rooms[roomId].participants
      && st' == st.(rooms := st.rooms[roomId := st.rooms[roomId].(updatedAt := now)])
  {
  }

  lemma AddParticipantPreservesValid(users: map<UserId, User>, st: ChatStore, roomId: RoomId, userId: UserId,
                                     addedBy: UserId, now: Time)
    requires Valid(st, users)
    ensures Valid(AddParticipantToGroupChat(users, st, roomId, userId, addedBy, now).0, users)
  {
    var (st', r) := AddParticipantToGroupChat(users, st, roomId, userId, addedBy, now);
    if r.Ok? {
      assert RoomsWellFormed(st', users);
      assert PrivateRoomsArePairs(st');
      assert PrivateRoomsUnique(st');
      assert MessagesWellFormed(st', users) by {
        forall i | 0 <= i < |st'.messages|
          ensures st'.messages[i].sender.value in st'.rooms[st'.messages[i].chatRoom.value].participants
        {
          assert st.messages[i].sender.value in st.rooms[st.messages[i].chatRoom.value].participants;
        }
      }
    }
  }
}
