/** The ChatRoom entity: a PRIVATE or GROUP conversation with a set of
    participant users. Fields the source leaves null until a setter runs
    are options here. */
module ChatRoomModel {
  import opened Common

  /** The two kinds of room; the enumeration has no other value. */
  datatype ChatType = Private | Group

  datatype ChatRoom = ChatRoom(
    id: Option<RoomId>,          // null until the room is first saved
    name: Option<string>,
    chatType: Option<ChatType>,
    createdBy: Option<UserId>,
    participants: set<UserId>,
    description: Option<string>,
    createdAt: Time,
    updatedAt: Time)

  /** The no-argument constructor: no participants, created and updated at
      the same instant, every other field still null. */
  function NewChatRoom(now: Time): (r: ChatRoom)
    ensures r.participants == {}
    ensures r.createdAt == now && r.updatedAt == r.createdAt
    ensures r.id.None? && r.name.None? && r.chatType.None? && r.createdBy.None? && r.description.None?
  {
    ChatRoom(None, None, None, None, {}, None, now, now)
  }

  /** The three-argument constructor: a fresh room with its name, type and
      creator set. */
  function NewNamedChatRoom(name: string, chatType: ChatType, createdBy: UserId, now: Time): (r: ChatRoom)
    ensures r.participants == {}
    ensures r.createdAt == now && r.updatedAt == r.createdAt
    ensures r.name == Some(name) && r.chatType == Some(chatType) && r.createdBy == Some(createdBy)
    ensures r.id.None? && r.description.None?
  {
    NewChatRoom(now).(name := Some(name), chatType := Some(chatType), createdBy := Some(createdBy))
  }

  /** The name and the description fit their default-length columns. */
  predicate RoomFits(room: ChatRoom) {
    && (room.name.Some? ==> FitsColumn(room.name.value))
    && (room.description.Some? ==> FitsColumn(room.description.value))
  }

  /** hasParticipant. */
  predicate HasParticipant(room: ChatRoom, user: UserId) {
    user in room.participants
  }

  /** addParticipant: the user joins the set (a member already there stays
      once) and updatedAt moves to `now`; nothing else changes. */
  function AddParticipant(room: ChatRoom, user: UserId, now: Time): (r: ChatRoom)
    ensures r.participants == room.participants + {user}
    ensures HasParticipant(r, user)
    ensures HasParticipant(room, user) ==> r.participants == room.participants
    ensures r.updatedAt == now
    ensures r == room.(participants := r.participants, updatedAt := now)
  {
    room.(participants := room.participants + {user}, updatedAt := now)
  }

  /** removeParticipant: the user leaves the set (a non-member changes
      nothing in it) and updatedAt moves to `now`; nothing else changes. */
  function RemoveParticipant(room: ChatRoom, user: UserId, now: Time): (r: ChatRoom)
    ensures r.participants == room.participants - {user}
    ensures !HasParticipant(r, user)
    ensures !HasParticipant(room, user) ==> r.participants == room.participants
    ensures r.updatedAt == now
    ensures r == room.(participants := r.participants, updatedAt := now)
  {
    room.(participants := room.participants - {user}, updatedAt := now)
  }

  /** hasParticipant(v) after adding u holds for u and for earlier members only. */
  lemma HasParticipantAfterAdd(room: ChatRoom, u: UserId, v: UserId, now: Time)
    ensures HasParticipant(AddParticipant(room, u, now), v) <==> v == u || HasParticipant(room, v)
  {
  }

  /** Adding twice is adding once. */
  lemma AddParticipantIdempotent(room: ChatRoom, u: UserId, t1: Time, t2: Time)
    ensures AddParticipant(AddParticipant(room, u, t1), u, t2) == AddParticipant(room, u, t2)
  {
  }

  /** Removing a user who was just added restores the participant set,
      when the user was not a member before. */
  lemma RemoveUndoesAdd(room: ChatRoom, u: UserId, t1: Time, t2: Time)
    requires !HasParticipant(room, u)
    ensures RemoveParticipant(AddParticipant(room, u, t1), u, t2).participants == room.participants
  {
  }
}
