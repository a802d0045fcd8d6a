/** The whole server state: the user table, the chat store and the realtime
    hub. The STOMP handlers and the persistent services share no state, so
    a realtime chat message is never stored and never changes a room. */
module Backend {
  import opened Common
  import opened UserRepository
  import opened ChatService
  import opened MessageRepository
  import opened Realtime

  datatype Server = Server(users: UserStore, chats: ChatStore, hub: Hub)

  /** chat.sendMessage on the whole server: only the delivery log moves. */
  function RealtimeSendMessage(s: Server, ev: ChatEvent, now: Time): (r: (Server, Result<()>))
    ensures r.0.users == s.users && r.0.chats == s.chats
    ensures r.0.hub.online == s.hub.online
    ensures r.1.Ok? <==> RouteMessage(ev, now).Ok?
    ensures r.1.Ok? ==> r.0.hub.deliveries == s.hub.deliveries + RouteMessage(ev, now).value
  {
    var (hub', res) := HandleSendMessage(s.hub, ev, now);
    (s.(hub := hub'), res)
  }

  /** sendMessage through the service on the whole server: nothing is
      pushed to any subscriber. */
  function PersistentSendMessage(s: Server, roomId: RoomId, senderId: UserId, content: string,
                                 messageType: string, now: Time)
    : (r: (Server, Result<MessageModel.Message>))
    ensures r.0.users == s.users && r.0.hub == s.hub
    ensures r.1.Ok? ==> |r.0.chats.messages| == |s.chats.messages| + 1
    ensures r.1.Err? ==> r.0 == s
  {
    var (chats', res) := ChatService.SendMessage(s.users.users, s.chats, roomId, senderId, content, messageType, now);
    (s.(chats := chats'), res)
  }
}
