/** The Message entity: one post of a user into a chat room. */
module MessageModel {
  import opened Common
  import opened UserModel

  /** The message type a message carries unless told otherwise. */
  const DefaultMessageType: string := "CHAT"

  /** The content column holds at most this many characters. */
  const MaxContentLength: nat := 1000

  datatype Message = Message(
    id: Option<MessageId>,       // null until the message is first saved
    sender: Option<UserId>,
    chatRoom: Option<RoomId>,
    content: Option<string>,
    timestamp: Time,
    messageType: string)

  /** The no-argument constructor: stamped at `now`, of the default type,
      with no sender, room or content yet. */
  function NewMessage(now: Time): (m: Message)
    ensures m.timestamp == now && m.messageType == DefaultMessageType
    ensures m.id.None? && m.sender.None? && m.chatRoom.None? && m.content.None?
  {
    Message(None, None, None, None, now, DefaultMessageType)
  }

  /** The four-argument constructor: sender, room, content and type are
      stored exactly as given. */
  function NewMessageFrom(sender: UserId, chatRoom: RoomId, content: string, messageType: string, now: Time): (m: Message)
    ensures m.sender == Some(sender) && m.chatRoom == Some(chatRoom)
    ensures m.content == Some(content) && m.messageType == messageType
    ensures m.timestamp == now && m.id.None?
  {
    NewMessage(now).(sender := Some(sender), chatRoom := Some(chatRoom), content := Some(content), messageType := messageType)
  }

  /** The column constraints a row must meet to be inserted: sender, room
      and content are non-null, the content fits its 1000-character column
      and the message type its default-length column. */
  predicate Storable(m: Message) {
    && m.sender.Some?
    && m.chatRoom.Some?
    && m.content.Some?
    && |m.content.value| <= MaxContentLength
    && FitsColumn(m.messageType)
  }

  /** A message built by the four-argument constructor is storable exactly
      when its content and its type fit their columns; one built by the
      no-argument constructor never is. */
  lemma StorableMessages(sender: UserId, chatRoom: RoomId, content: string, messageType: string, now: Time)
    ensures Storable(NewMessageFrom(sender, chatRoom, content, messageType, now))
            <==> |content| <= MaxContentLength && FitsColumn(messageType)
    ensures !Storable(NewMessage(now))
  {
  }

  /** getUsername: the sender's username, or null when there is no sender. */
  function SenderUsername(m: Message, users: map<UserId, User>): (r: Option<string>)
    requires m.sender.Some? ==> m.sender.value in users
    ensures r.None? <==> m.sender.None?
    ensures r.Some? ==> r.value == users[m.sender.value].username
  {
    match m.sender
    case None => None
    case Some(u) => Some(users[u].username)
  }
}
