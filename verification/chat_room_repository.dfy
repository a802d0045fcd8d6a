/** The four JPQL queries of ChatRoomRepository, as filters over the room
    table. A query declared to return a List yields each matching room
    once, so its result is the set of matching room ids. */
module ChatRoomRepository {
  import opened Common
  import opened ChatRoomModel

  /** Every stored room has a type (the column is not nullable). */
  predicate RoomsTyped(rooms: map<RoomId, ChatRoom>) {
    forall id :: id in rooms ==> rooms[id].chatType.Some?
  }

  /** findByParticipant: `MEMBER OF` over the participant collection, so
      a room is listed for a user exactly when hasParticipant holds. */
  function FindByParticipant(rooms: map<RoomId, ChatRoom>, user: UserId): (r: set<RoomId>)
    ensures forall id :: id in r <==> id in rooms && HasParticipant(rooms[id], user)
  {
    set id | id in rooms && user in rooms[id].participants
  }

  /** findGroupChatsByParticipant: the GROUP rooms of the full listing. */
  function FindGroupChatsByParticipant(rooms: map<RoomId, ChatRoom>, user: UserId): (r: set<RoomId>)
    ensures r <= FindByParticipant(rooms, user)
    ensures forall id :: id in FindByParticipant(rooms, user) ==> (id in r <==> rooms[id].chatType == Some(Group))
  {
    set id | id in rooms && rooms[id].chatType == Some(Group) && user in rooms[id].participants
  }

  /** findPrivateChatsByParticipant: the PRIVATE rooms of the full listing. */
  function FindPrivateChatsByParticipant(rooms: map<RoomId, ChatRoom>, user: UserId): (r: set<RoomId>)
    ensures r <= FindByParticipant(rooms, user)
    ensures forall id :: id in FindByParticipant(rooms, user) ==> (id in r <==> rooms[id].chatType == Some(Private))
  {
    set id | id in rooms && rooms[id].chatType == Some(Private) && user in rooms[id].participants
  }

  /** Private rooms having both users among their participants. */
  function PrivateRoomsWith(rooms: map<RoomId, ChatRoom>, user1: UserId, user2: UserId): set<RoomId> {
    set id | id in rooms && rooms[id].chatType == Some(Private)
                         && user1 in rooms[id].participants && user2 in rooms[id].participants
  }

  /** findPrivateChatBetweenUsers, an Optional query: no match, the one
      match, or a failure when several private rooms contain both users. */
  function FindPrivateChatBetweenUsers(rooms: map<RoomId, ChatRoom>, user1: UserId, user2: UserId): (r: Result<Option<RoomId>>)
    ensures r.Ok? && r.value.Some? ==>
      var id := r.value.value;
      id in rooms && rooms[id].chatType == Some(Private)
      && HasParticipant(rooms[id], user1) && HasParticipant(rooms[id], user2)
    ensures r == Ok(None) <==>
      forall id :: id in rooms && rooms[id].chatType == Some(Private) ==>
        !(HasParticipant(rooms[id], user1) && HasParticipant(rooms[id], user2))
    ensures r.Err? <==> |PrivateRoomsWith(rooms, user1, user2)| >= 2
    ensures r.Err? ==> r.error == NonUniqueResult
  {
    var s := PrivateRoomsWith(rooms, user1, user2);
    assert s == {} <==>
      forall id :: id in rooms && rooms[id].chatType == Some(Private) ==>
        !(HasParticipant(rooms[id], user1) && HasParticipant(rooms[id], user2)) by {
      if s != {} {
        var id :| id in s;
        assert id in rooms && rooms[id].chatType == Some(Private);
      } else {
        forall id | id in rooms && rooms[id].chatType == Some(Private)
          ensures !(HasParticipant(rooms[id], user1) && HasParticipant(rooms[id], user2))
        {
          assert id !in s;
        }
      }
    }
    Single(s)
  }

  /** The lookup does not depend on the order of the two users. */
  lemma FindPrivateChatBetweenUsersSymmetric(rooms: map<RoomId, ChatRoom>, user1: UserId, user2: UserId)
    ensures FindPrivateChatBetweenUsers(rooms, user1, user2) == FindPrivateChatBetweenUsers(rooms, user2, user1)
  {
    assert PrivateRoomsWith(rooms, user1, user2) == PrivateRoomsWith(rooms, user2, user1);
  }

  /** The private and the group listing of a user split the full listing:
      together they are all of it and no room is in both. */
  lemma ListingsPartition(rooms: map<RoomId, ChatRoom>, user: UserId)
    requires RoomsTyped(rooms)
    ensures FindPrivateChatsByParticipant(rooms, user) + FindGroupChatsByParticipant(rooms, user)
         == FindByParticipant(rooms, user)
    ensures FindPrivateChatsByParticipant(rooms, user) !! FindGroupChatsByParticipant(rooms, user)
  {
    forall id | id in FindByParticipant(rooms, user)
      ensures id in FindPrivateChatsByParticipant(rooms, user) + FindGroupChatsByParticipant(rooms, user)
    {
      assert id in rooms;
      match rooms[id].chatType.value
      case Private =>
      case Group =>
    }
  }
}
