/** The STOMP side of ChatController: the router that turns an inbound
    chat event into deliveries, and the in-memory set of online usernames
    with its join / online / offline broadcasts.

    The messaging template is modelled as a log of deliveries that each
    handler appends to. A handler that throws (a missing field, a group id
    that is not a number) appends nothing. */
module Realtime {
  import opened Common
  import opened LongText

  /** A value of the inbound JSON map, seen through toString: the key is
      absent, maps to null, or maps to a value whose text is given. */
  datatype Field = Absent | Null | Text(text: string)

  /** The keys of an inbound chat.sendMessage event that the router reads. */
  datatype ChatEvent = ChatEvent(
    messageType: Field,
    content: Field,
    username: Field,
    targetUser: Field,
    chatRoomId: Field)

  /** An outbound message body; keys the source does not put are None. */
  datatype Payload = Payload(
    username: string,
    content: string,
    messageType: string,
    timestamp: Time,
    targetUser: Option<string>,
    isPrivate: Option<bool>,
    chatRoomId: Option<int>,
    isGroup: Option<bool>,
    onlineCount: Option<nat>,
    onlineUsers: Option<set<string>>)

  /** convertAndSendToUser and convertAndSend. */
  datatype Delivery =
    | ToUser(user: string, destination: string, payload: Payload)
    | ToTopic(destination: string, payload: Payload)

  const PrivateQueue: string := "/queue/private"
  const PublicTopic: string := "/topic/public"
  const GroupTopicPrefix: string := "/topic/group/"

  function GroupTopic(roomId: int): string
    requires InLongRange(roomId)
  {
    GroupTopicPrefix + LongToString(roomId)
  }

  /** The routing decision, before any payload is built. */
  datatype Route =
    | PrivateRoute(target: string)
    | GroupRoute(roomId: int)
    | PublicRoute

  /** targetUser wins over chatRoomId, which wins over the public topic. A
      present but null key, or a chatRoomId that is not a long, throws. */
  function Classify(ev: ChatEvent): (r: Result<Route>)
    ensures r.Ok? && r.value.GroupRoute? ==> InLongRange(r.value.roomId)
    ensures r.Err? ==> r.error == MalformedEvent
  {
    match ev.targetUser
    case Null => Err(MalformedEvent)
    case Text(t) => Ok(PrivateRoute(t))
    case Absent =>
      match ev.chatRoomId
      case Null => Err(MalformedEvent)
      case Text(s) => (match ParseLong(s) case Some(n) => Ok(GroupRoute(n)) case None => Err(MalformedEvent))
      case Absent => Ok(PublicRoute)
  }

  /** The deliveries of one chat.sendMessage event at instant `now`. The
      three mandatory fields are read first; then the event is classified. */
  function RouteMessage(ev: ChatEvent, now: Time): (r: Result<seq<Delivery>>)
    ensures r.Ok? <==> ev.messageType.Text? && ev.content.Text? && ev.username.Text? && Classify(ev).Ok?
    ensures r.Err? ==> r.error == MalformedEvent
    ensures r.Ok? ==> 1 <= |r.value| <= 2
    ensures r.Ok? ==> forall i :: 0 <= i < |r.value| ==>
      && r.value[i].payload.username == ev.username.text
      && r.value[i].payload.content == ev.content.text
      && r.value[i].payload.messageType == ev.messageType.text
      && r.value[i].payload.timestamp == now
      && r.value[i].payload.onlineCount.None? && r.value[i].payload.onlineUsers.None?
  {
    if !ev.messageType.Text? || !ev.content.Text? || !ev.username.Text? then Err(MalformedEvent)
    else
      var base := Payload(ev.username.text, ev.content.text, ev.messageType.text, now,
                          None, None, None, None, None, None);
      match Classify(ev)
      case Err(e) => Err(e)
      case Ok(PrivateRoute(t)) =>
        var p := base.(targetUser := Some(t), isPrivate := Some(true));
        Ok([ToUser(ev.username.text, PrivateQueue, p), ToUser(t, PrivateQueue, p)])
      case Ok(GroupRoute(n)) =>
        Ok([ToTopic(GroupTopic(n), base.(chatRoomId := Some(n), isGroup := Some(true)))])
      case Ok(PublicRoute) =>
        Ok([ToTopic(PublicTopic, base)])
  }

  /** With a targetUser, the event goes to the sender and to the target on
      the private queue, with one identical payload naming the target; a
      chatRoomId in the same event does not matter. */
  lemma PrivateRouting(ev: ChatEvent, now: Time, room: Field)
    requires ev.messageType.Text? && ev.content.Text? && ev.username.Text? && ev.targetUser.Text?
    ensures var r := RouteMessage(ev, now);
      && r.Ok? && |r.value| == 2
      && r.value[0].ToUser? && r.value[0].user == ev.username.text
      && r.value[1].ToUser? && r.value[1].user == ev.targetUser.text
      && r.value[0].destination == PrivateQueue && r.value[1].destination == PrivateQueue
      && r.value[0].payload == r.value[1].payload
      && r.value[0].payload.targetUser == Some(ev.targetUser.text)
      && r.value[0].payload.isPrivate == Some(true)
      && r.value[0].payload.chatRoomId.None? && r.value[0].payload.isGroup.None?
    ensures RouteMessage(ev.(chatRoomId := room), now) == RouteMessage(ev, now)
  {
  }

  /** Without a targetUser, a chatRoomId that parses sends exactly one
      delivery, to that group's topic and never to the public one, carrying
      the parsed id. */
  lemma GroupRouting(ev: ChatEvent, now: Time, n: int)
    requires ev.messageType.Text? && ev.content.Text? && ev.username.Text?
    requires ev.targetUser.Absent? && ev.chatRoomId.Text? && ParseLong(ev.chatRoomId.text) == Some(n)
    ensures var r := RouteMessage(ev, now);
      && r.Ok? && |r.value| == 1 && r.value[0].ToTopic?
      && r.value[0].destination == GroupTopic(n)
      && r.value[0].destination != PublicTopic
      && r.value[0].payload.chatRoomId == Some(n) && r.value[0].payload.isGroup == Some(true)
      && r.value[0].payload.targetUser.None? && r.value[0].payload.isPrivate.None?
  {
    var d := GroupTopic(n);
    assert d[7] == 'g' && PublicTopic[7] == 'p';
  }

  /** Two group ids share a topic only if they are the same id, so a group
      message never reaches another group's subscribers. */
  lemma GroupTopicsDistinct(a: int, b: int)
    requires InLongRange(a) && InLongRange(b) && a != b
    ensures GroupTopic(a) != GroupTopic(b)
  {
    if GroupTopic(a) == GroupTopic(b) {
      assert LongToString(a) == GroupTopic(a)[|GroupTopicPrefix|..];
      assert LongToString(b) == GroupTopic(b)[|GroupTopicPrefix|..];
      LongToStringInjective(a, b);
    }
  }

  /** With neither key, the event goes to the public topic only. */
  lemma PublicRouting(ev: ChatEvent, now: Time)
    requires ev.messageType.Text? && ev.content.Text? && ev.username.Text?
    requires ev.targetUser.Absent? && ev.chatRoomId.Absent?
    ensures var r := RouteMessage(ev, now);
      && r.Ok? && r.value == [ToTopic(PublicTopic, r.value[0].payload)]
      && r.value[0].payload.targetUser.None? && r.value[0].payload.chatRoomId.None?
      && r.value[0].payload.isPrivate.None? && r.value[0].payload.isGroup.None?
  {
  }

  /** The router's failures: a missing or null mandatory field, a null
      targetUser, or (without a targetUser) a null or non-numeric chatRoomId. */
  lemma RouteMessageFails(ev: ChatEvent, now: Time)
    ensures RouteMessage(ev, now).Err? <==>
      || !ev.messageType.Text? || !ev.content.Text? || !ev.username.Text?
      || ev.targetUser.Null?
      || (ev.targetUser.Absent? && ev.chatRoomId.Null?)
      || (ev.targetUser.Absent? && ev.chatRoomId.Text? && ParseLong(ev.chatRoomId.text).None?)
  {
  }

  // ---------------------------------------------------------------------
  // Presence
  // ---------------------------------------------------------------------

  /** The online-username set and the log of everything sent so far. */
  datatype Hub = Hub(online: set<string>, deliveries: seq<Delivery>)

  /** chat.sendMessage: the routed deliveries are appended; the online set
      is untouched. A malformed event sends nothing. */
  function HandleSendMessage(hub: Hub, ev: ChatEvent, now: Time): (r: (Hub, Result<()>))
    ensures r.0.online == hub.online
    ensures r.1.Err? ==> r.0 == hub
    ensures r.1.Ok? <==> RouteMessage(ev, now).Ok?
    ensures r.1.Ok? ==> r.0.deliveries == hub.deliveries + RouteMessage(ev, now).value
  {
    match RouteMessage(ev, now)
    case Err(e) => (hub, Err(e))
    case Ok(ds) => (hub.(deliveries := hub.deliveries + ds), Ok(()))
  }

  /** The broadcast of one presence change, made after the set update. */
  function PresencePayload(user: string, suffix: string, kind: string, online: set<string>, withList: bool, now: Time)
    : (p: Payload)
    ensures p.username == user && p.content == user + suffix && p.messageType == kind && p.timestamp == now
    ensures p.onlineCount == Some(|online|)
    ensures withList <==> p.onlineUsers.Some?
    ensures withList ==> p.onlineUsers == Some(online)
    ensures p.targetUser.None? && p.chatRoomId.None? && p.isPrivate.None? && p.isGroup.None?
  {
    Payload(user, user + suffix, kind, now, None, None, None, None, Some(|online|),
            if withList then Some(online) else None)
  }

  /** chat.addUser: the user joins the set and a JOIN broadcast carrying
      the new count (but not the list) goes to the public topic. */
  function AddUser(hub: Hub, username: Field, now: Time): (r: (Hub, Result<()>))
    ensures r.1.Ok? <==> username.Text?
    ensures r.1.Err? ==> r == (hub, Err(MalformedEvent))
    ensures r.1.Ok? ==>
      && r.0.online == hub.online + {username.text}
      && r.0.deliveries == hub.deliveries + [ToTopic(PublicTopic, PresencePayload(
           username.text, " joined the chat", "JOIN", r.0.online, false, now))]
  {
    match username
    case Text(u) =>
      var online := hub.online + {u};
      (Hub(online, hub.deliveries + [ToTopic(PublicTopic, PresencePayload(u, " joined the chat", "JOIN", online, false, now))]),
       Ok(()))
    case _ => (hub, Err(MalformedEvent))
  }

  /** chat.userOnline: like addUser, but an ONLINE broadcast that also
      lists every online user. */
  function UserOnline(hub: Hub, username: Field, now: Time): (r: (Hub, Result<()>))
    ensures r.1.Ok? <==> username.Text?
    ensures r.1.Err? ==> r == (hub, Err(MalformedEvent))
    ensures r.1.Ok? ==>
      && r.0.online == hub.online + {username.text}
      && r.0.deliveries == hub.deliveries + [ToTopic(PublicTopic, PresencePayload(
           username.text, " is now online", "ONLINE", r.0.online, true, now))]
  {
    match username
    case Text(u) =>
      var online := hub.online + {u};
      (Hub(online, hub.deliveries + [ToTopic(PublicTopic, PresencePayload(u, " is now online", "ONLINE", online, true, now))]),
       Ok(()))
    case _ => (hub, Err(MalformedEvent))
  }

  /** chat.userOffline: the user leaves the set and an OFFLINE broadcast
      listing the remaining users goes to the public topic. */
  function UserOffline(hub: Hub, username: Field, now: Time): (r: (Hub, Result<()>))
    ensures r.1.Ok? <==> username.Text?
    ensures r.1.Err? ==> r == (hub, Err(MalformedEvent))
    ensures r.1.Ok? ==>
      && r.0.online == hub.online - {username.text}
      && r.0.deliveries == hub.deliveries + [ToTopic(PublicTopic, PresencePayload(
           username.text, " went offline", "OFFLINE", r.0.online, true, now))]
  {
    match username
    case Text(u) =>
      var online := hub.online - {u};
      (Hub(online, hub.deliveries + [ToTopic(PublicTopic, PresencePayload(u, " went offline", "OFFLINE", online, true, now))]),
       Ok(()))
    case _ => (hub, Err(MalformedEvent))
  }

  /** The /online-users answer: the list of online users and its count. */
  datatype OnlineReport = OnlineReport(onlineUsers: set<string>, count: nat)

  /** getOnlineUsers. */
  function GetOnlineUsers(hub: Hub): (r: OnlineReport)
    ensures r.count == |r.onlineUsers|
    ensures forall u :: u in r.onlineUsers <==> u in hub.online
  {
    OnlineReport(hub.online, |hub.online|)
  }

  /** Each presence handler sends exactly one broadcast, to the public
      topic, and its count is the size of the set after the change. */
  lemma PresenceBroadcastCounts(hub: Hub, u: string, now: Time)
    ensures forall r :: r in {AddUser(hub, Text(u), now), UserOnline(hub, Text(u), now), UserOffline(hub, Text(u), now)} ==>
      && |r.0.deliveries| == |hub.deliveries| + 1
      && r.0.deliveries[..|hub.deliveries|] == hub.deliveries
      && r.0.deliveries[|hub.deliveries|].ToTopic?
      && r.0.deliveries[|hub.deliveries|].destination == PublicTopic
      && r.0.deliveries[|hub.deliveries|].payload.onlineCount == Some(|r.0.online|)
      && r.0.deliveries[|hub.deliveries|].payload.onlineCount == Some(GetOnlineUsers(r.0).count)
  {
  }

  /** Going online twice leaves the same set as going online once, and so
      does going offline twice; only the broadcasts repeat. */
  lemma PresenceIdempotent(hub: Hub, u: string, t1: Time, t2: Time)
    ensures UserOnline(UserOnline(hub, Text(u), t1).0, Text(u), t2).0.online == UserOnline(hub, Text(u), t1).0.online
    ensures AddUser(AddUser(hub, Text(u), t1).0, Text(u), t2).0.online == AddUser(hub, Text(u), t1).0.online
    ensures UserOffline(UserOffline(hub, Text(u), t1).0, Text(u), t2).0.online == UserOffline(hub, Text(u), t1).0.online
  {
  }

  /** Online then offline leaves the user out of the set and everybody
      else as they were; for a user not online before, the set is back to
      what it was. */
  lemma OnlineThenOffline(hub: Hub, u: string, t1: Time, t2: Time)
    ensures UserOffline(UserOnline(hub, Text(u), t1).0, Text(u), t2).0.online == hub.online - {u}
    ensures u !in hub.online ==> UserOffline(UserOnline(hub, Text(u), t1).0, Text(u), t2).0.online == hub.online
  {
  }

  /** getOnlineUsers after userOnline lists the user; after userOffline it
      does not. */
  lemma OnlineUsersReflectPresence(hub: Hub, u: string, v: string, now: Time)
    ensures u in GetOnlineUsers(UserOnline(hub, Text(u), now).0).onlineUsers
    ensures u !in GetOnlineUsers(UserOffline(hub, Text(u), now).0).onlineUsers
    ensures v != u ==>
      (v in GetOnlineUsers(UserOffline(hub, Text(u), now).0).onlineUsers <==> v in hub.online)
  {
  }
}
