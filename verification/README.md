# Chat backend core, modelled in Dafny

This project models the core of a Spring chat backend. Each part has its own module:

- **The three JPA entities.** `UserModel`, `ChatRoomModel` and `MessageModel` cover User, ChatRoom and Message.
- **The three repositories.** `UserRepository`, `ChatRoomRepository` and `MessageRepository` are query functions over the tables.
- **The services.**
  - `AuthService` covers signup, login, logout and the availability checks.
  - `ContactService` covers the symmetric contact relation and searches.
  - `ChatService` covers:
    - private and group rooms, and room listings;
    - the durable message log: sending, paging, the latest messages;
    - adding group members.
- **The STOMP side of ChatController** (`Realtime`):
  - the router that turns one inbound chat event into private-queue, group-topic or public-topic deliveries;
  - the in-memory set of online usernames, with its JOIN / ONLINE / OFFLINE broadcasts.
- **`LongText`.** Java's `Long.parseLong` and `Long.toString`, which the router uses to read a group id and to build the group topic name.
- **`Backend`.** Composes the user table, the chat store and the realtime hub. It states that the realtime send path and the persistent send path touch disjoint state.

How the model is built:

- **Immutable state.** Every table is an immutable value: a map from generated id to row, plus the next id.
- **State changes.** A mutating operation returns the new state together with a `Result`.
- **Failures.**
  - Each distinct exception of the source is one `Error` constructor.
  - A failed call returns the state unchanged.
- **Optional queries.** A Spring Data query that returns `Optional` goes through `Common.Single`. No row gives empty, one row gives that row, and several rows give `NonUniqueResult`.
- **Invariants.** Each store has a `Valid` predicate:
  - ids equal their keys;
  - usernames and phone numbers are unique;
  - contacts are symmetric;
  - rooms are well formed and private rooms are unique per pair;
  - messages come from participants, with increasing ids and non-decreasing timestamps.
- **Preservation lemmas.** Every mutating operation has a lemma showing that it preserves `Valid`.

Clocks are parameters: every operation that stamps a time takes `now`. The message table is a sequence in insertion order. "ORDER BY timestamp" is modelled as that order. This is exact while timestamps never decrease along the table, and `ChatService.SendMessagePreservesValid` shows that this is kept as long as the clock does not run backwards.

Behaviour of the code worth noting:

- **Latest messages are newest first.** `getLatestMessages` returns messages newest first: the query orders `DESC` and nothing reverses it. Its result is page 0 of `getChatMessages` in the opposite order (`ChatService.FirstPageIsLatestReversed`).
- **JOIN carries only the count.** The JOIN broadcast of `chat.addUser` carries only the online count. Only ONLINE and OFFLINE carry the user list.
- **Online then offline.** Going online and then offline removes the user from the online set in every case. The set returns to its earlier value only when the user was not online before (`Realtime.OnlineThenOffline`).
- **More malformed events.** Besides a missing `username`, `content` or `messageType`, the router also fails on:
  - a `targetUser` key holding null;
  - a `chatRoomId` that is null or not a decimal long.
- **Group topic name.** The group topic is `/topic/group/<Long.toString(id)>`. A `chatRoomId` of `"007"` therefore goes to `/topic/group/7`.

## Model

Source paths are relative to the repository root.

| member | source | states |
|---|---|---|
| Common.Single | backend/src/main/java/com/chatapp/repository/UserRepository.java:15-20 | An Optional-returning query is empty exactly when no row matches, holds the row exactly when one matches, and fails with a non-unique-result error exactly when several match |
| UserModel.NewUser | backend/src/main/java/com/chatapp/model/User.java:49-60 | A new user is unsaved, offline, without contacts, stores the four given fields, and is created and last seen at the same instant |
| UserModel.SetOnline | backend/src/main/java/com/chatapp/model/User.java:82-87 | The flag takes the requested value; lastSeen moves to now only when going offline; no other field changes |
| UserModel.AddContact | backend/src/main/java/com/chatapp/model/User.java:99-102 | Afterwards each of the two users lists the other, every third user is untouched, and only contact sets change |
| UserModel.RemoveContact | backend/src/main/java/com/chatapp/model/User.java:104-107 | Afterwards neither user lists the other, every third user is untouched, and only contact sets change |
| UserModel.AddContactPreservesSymmetry | backend/src/main/java/com/chatapp/model/User.java:99-102 | The bidirectional add keeps the contact relation symmetric and within the stored users |
| UserModel.RemoveContactPreservesSymmetry | backend/src/main/java/com/chatapp/model/User.java:104-107 | The bidirectional remove keeps the contact relation symmetric and within the stored users |
| UserModel.RemoveUndoesAdd | backend/src/main/java/com/chatapp/model/User.java:99-107 | For two users who were not contacts, removing after adding restores the whole user table |
| UserModel.RemoveNonContactIsNoOp | backend/src/main/java/com/chatapp/model/User.java:104-107 | Removing a user who is not a contact leaves the whole user table as it was |
| UserRepository.FindByUsernameOrPhoneNumber | backend/src/main/java/com/chatapp/repository/UserRepository.java:19-20 | A user found by the login lookup carries the identifier as username or as phone number |
| UserRepository.FindByUsername | backend/src/main/java/com/chatapp/repository/UserRepository.java:15 | A user found is stored and carries the username; the lookup is empty exactly when existsByUsername is false, and fails as non-unique exactly when two different users carry the username |
| UserRepository.FindByPhoneNumber | backend/src/main/java/com/chatapp/repository/UserRepository.java:17 | A user found is stored and carries the number; the lookup is empty exactly when existsByPhoneNumber is false, and fails as non-unique exactly when two different users carry the number |
| UserRepository.FindByUsernameUnique | backend/src/main/java/com/chatapp/repository/UserRepository.java:15 | With unique usernames the lookup never fails, finds a user exactly when the username exists, and the user found carries it |
| UserRepository.FindByPhoneNumberUnique | backend/src/main/java/com/chatapp/repository/UserRepository.java:17 | With unique phone numbers the lookup never fails, finds a user exactly when the number exists, and the user found carries it |
| UserRepository.FindByUsernameOrPhoneNumberEmpty | backend/src/main/java/com/chatapp/repository/UserRepository.java:19-20 | The login lookup finds nobody exactly when no user has the identifier as username or as phone number |
| UserRepository.UsernameOrPhoneAmbiguity | backend/src/main/java/com/chatapp/repository/UserRepository.java:19-20 | Even with both columns unique, the login lookup fails exactly when one user's username is a different user's phone number |
| UserRepository.ContainsSelfAndEmpty | backend/src/main/java/com/chatapp/repository/UserRepository.java:25-29 | The LIKE-containment used by the searches matches a string itself and the empty term, and never a term longer than the string |
| UserRepository.ContainsTransitive | backend/src/main/java/com/chatapp/repository/UserRepository.java:25-29 | LIKE-containment is transitive: a string containing t contains everything t contains |
| AuthService.Signup | backend/src/main/java/com/chatapp/service/AuthService.java:16-29 | A taken username is reported before a taken phone number, and both before a field longer than its 255-character column; success happens exactly when both are free and all four fields fit, and inserts one new user under the next id with the given fields |
| AuthService.SignupPreservesValid | backend/src/main/java/com/chatapp/service/AuthService.java:16-29 | Signup keeps ids, usernames and phone numbers unique and contacts symmetric, and the new user is offline with no contacts |
| AuthService.SignupMatchesAvailability | backend/src/main/java/com/chatapp/service/AuthService.java:16-29 | Signup rejects the username exactly when isUsernameAvailable says no, rejects the phone number exactly when the username is free and isPhoneNumberAvailable says no, and succeeds exactly when both checks pass and the fields fit |
| AuthService.Login | backend/src/main/java/com/chatapp/service/AuthService.java:31-50 | An unknown identifier fails as user-not-found, an ambiguous one as non-unique, a wrong password as invalid-password; success happens exactly when the identifier resolves to one user with that password, and sets exactly that user online |
| AuthService.LoginChangesOnlyThatUser | backend/src/main/java/com/chatapp/service/AuthService.java:45-49 | A successful login leaves every other user unchanged and the table valid |
| AuthService.Logout | backend/src/main/java/com/chatapp/service/AuthService.java:52-59 | An unknown id changes nothing; a known user goes offline, is last seen now, and nothing else changes |
| AuthService.LogoutPreservesValid | backend/src/main/java/com/chatapp/service/AuthService.java:52-59 | Logout keeps the table valid |
| AuthService.OnlineAfterLoginAndLogout | backend/src/main/java/com/chatapp/service/AuthService.java:45-58 | Over a valid table, a successful login adds exactly the logged-in user to the findOnlineUsers result, and a logout removes exactly that id from it |
| AuthService.FindUserById | backend/src/main/java/com/chatapp/service/AuthService.java:61-63 | The lookup finds a user exactly when the id is stored, and returns that row |
| AuthService.FindUserByUsername | backend/src/main/java/com/chatapp/service/AuthService.java:65-67 | A user found carries the username and is stored; finding nobody means no user has that username |
| AuthService.FindUserByUsernameAvailability | backend/src/main/java/com/chatapp/service/AuthService.java:65-71 | Over a valid table the lookup never fails, and it finds nobody exactly when the username is available |
| AuthService.IsUsernameAvailable | backend/src/main/java/com/chatapp/service/AuthService.java:69-71 | Available exactly when no user carries the username, which is exactly when signup would not reject it as taken |
| AuthService.IsPhoneNumberAvailable | backend/src/main/java/com/chatapp/service/AuthService.java:73-75 | Available exactly when no user carries the phone number |
| ContactService.AddContactByPhone | backend/src/main/java/com/chatapp/service/ContactService.java:18-45 | An ambiguous number fails as non-unique; success happens exactly when the user is stored and the number resolves to a different user not yet a contact; both then list each other, and that user is returned |
| ContactService.AddContactByPhoneOutcome | backend/src/main/java/com/chatapp/service/ContactService.java:18-45 | Over a valid table the failures come in the source's order (user, phone, self, already a contact); success happens exactly when the user exists, the number is registered, is not the user's own, and belongs to no current contact; a success relates the pair both ways and keeps the table valid |
| ContactService.RemoveContactById | backend/src/main/java/com/chatapp/service/ContactService.java:48-59 | Fails exactly when either id is unknown; otherwise neither user lists the other and all other users are unchanged |
| ContactService.RemoveContactByIdOutcome | backend/src/main/java/com/chatapp/service/ContactService.java:48-59 | Removal keeps the table valid, and removing a non-contact changes nothing |
| ContactService.GetUserContacts | backend/src/main/java/com/chatapp/service/ContactService.java:62-69 | Fails exactly for an unknown user; otherwise returns that user's contact set |
| ContactService.SearchUsers | backend/src/main/java/com/chatapp/service/ContactService.java:72-74 | A user is returned exactly when stored with the term inside the name or the username; each such field is at least as long as the term |
| ContactService.SearchUsersByPhone | backend/src/main/java/com/chatapp/service/ContactService.java:77-79 | A user is returned exactly when stored with the term inside the phone number, which is then at least as long as the term |
| ContactService.SearchFindsExactTerms | backend/src/main/java/com/chatapp/service/ContactService.java:72-79 | The empty term lists every user, and a user's whole username, name or phone number finds that user |
| ContactService.SearchNarrows | backend/src/main/java/com/chatapp/service/ContactService.java:72-79 | A term containing a shorter one finds only users the shorter term also finds, for both searches |
| ContactService.GetOnlineContacts | backend/src/main/java/com/chatapp/service/ContactService.java:82-92 | Fails exactly for an unknown user; otherwise the user's contacts that the online query reports |
| ContactService.AreContacts | backend/src/main/java/com/chatapp/service/ContactService.java:95-104 | False when either id is unknown; otherwise true exactly when the second is among the first's contacts |
| ContactService.AreContactsSymmetric | backend/src/main/java/com/chatapp/service/ContactService.java:95-104 | Over a valid table the answer does not depend on argument order |
| ContactService.AddThenRemoveContacts | backend/src/main/java/com/chatapp/service/ContactService.java:18-59 | After a successful add the pair are contacts both ways; after removing, they are contacts in neither direction |
| ChatRoomModel.NewChatRoom | backend/src/main/java/com/chatapp/model/ChatRoom.java:51-54 | A new room has no participants and is created and updated at the same instant, every other field unset |
| ChatRoomModel.NewNamedChatRoom | backend/src/main/java/com/chatapp/model/ChatRoom.java:56-61 | The three-argument constructor sets name, type and creator and nothing else |
| ChatRoomModel.AddParticipant | backend/src/main/java/com/chatapp/model/ChatRoom.java:92-95 | The participant set gains the user (unchanged if already there), updatedAt becomes now, nothing else changes |
| ChatRoomModel.RemoveParticipant | backend/src/main/java/com/chatapp/model/ChatRoom.java:97-100 | The participant set loses the user (unchanged if absent), updatedAt becomes now, nothing else changes |
| ChatRoomModel.HasParticipantAfterAdd | backend/src/main/java/com/chatapp/model/ChatRoom.java:92-104 | After adding u, exactly u and the earlier members are participants |
| ChatRoomModel.AddParticipantIdempotent | backend/src/main/java/com/chatapp/model/ChatRoom.java:92-95 | Adding the same user twice equals adding once |
| ChatRoomModel.RemoveUndoesAdd | backend/src/main/java/com/chatapp/model/ChatRoom.java:92-100 | Removing a user just added restores the participant set when the user was not a member |
| MessageModel.NewMessage | backend/src/main/java/com/chatapp/model/Message.java:27-33 | A new message is stamped now with type CHAT and has no sender, room, content or id |
| MessageModel.NewMessageFrom | backend/src/main/java/com/chatapp/model/Message.java:35-41 | The four-argument constructor stores sender, room, content and type as given and is stamped now |
| MessageModel.StorableMessages | backend/src/main/java/com/chatapp/model/Message.java:13-25 | A constructed message satisfies the column constraints exactly when its content is at most 1000 characters and its type fits the 255-character column; a bare message never does |
| MessageModel.SenderUsername | backend/src/main/java/com/chatapp/model/Message.java:63-65 | The username is null exactly when there is no sender, and otherwise is the sender's username |
| ChatRoomRepository.FindPrivateChatBetweenUsers | backend/src/main/java/com/chatapp/repository/ChatRoomRepository.java:19-20 | A room found is private and has both users among its participants; the lookup is empty exactly when no private room has both, and fails as non-unique exactly when two or more do |
| ChatRoomRepository.FindPrivateChatBetweenUsersSymmetric | backend/src/main/java/com/chatapp/repository/ChatRoomRepository.java:19-20 | The lookup gives the same answer for either order of the two users |
| ChatRoomRepository.FindByParticipant | backend/src/main/java/com/chatapp/repository/ChatRoomRepository.java:16-17 | A room is listed for a user exactly when it is stored and hasParticipant holds for that user |
| ChatRoomRepository.FindGroupChatsByParticipant | backend/src/main/java/com/chatapp/repository/ChatRoomRepository.java:22-23 | The user's group listing is part of the full listing, and a room of the full listing is in it exactly when typed GROUP |
| ChatRoomRepository.FindPrivateChatsByParticipant | backend/src/main/java/com/chatapp/repository/ChatRoomRepository.java:25-26 | The user's private listing is part of the full listing, and a room of the full listing is in it exactly when typed PRIVATE |
| ChatRoomRepository.ListingsPartition | backend/src/main/java/com/chatapp/repository/ChatRoomRepository.java:16-26 | For typed rooms, a user's private and group listings are disjoint and together make the full listing |
| MessageRepository.FindByChatRoomOrderByTimestampAsc | backend/src/main/java/com/chatapp/repository/MessageRepository.java:17 | The listing holds exactly the table's messages of that room and no others |
| MessageRepository.AscIsChronological | backend/src/main/java/com/chatapp/repository/MessageRepository.java:17 | Over a chronological table the room listing is in non-decreasing timestamp order |
| MessageRepository.NewestFirst | backend/src/main/java/com/chatapp/repository/MessageRepository.java:19 | The unpaged newest-first listing holds exactly the room's messages, as many as countByChatRoom reports |
| MessageRepository.NewestFirstIsOrdered | backend/src/main/java/com/chatapp/repository/MessageRepository.java:19 | Over a chronological table the descending listing is in non-increasing timestamp order |
| MessageRepository.PageRequestOf | backend/src/main/java/com/chatapp/service/ChatService.java:141 | A page request exists exactly for a non-negative page and a positive size, and keeps both; otherwise it fails |
| MessageRepository.FindByChatRoomOrderByTimestampDesc | backend/src/main/java/com/chatapp/repository/MessageRepository.java:19 | Fails exactly when page times size exceeds the int range of the JPA offset; otherwise a page holds min(size, count minus offset) messages while the offset is below the room's count, none past it, and its i-th message is the (page*size+i)-th newest |
| MessageRepository.ReversedNewestPageChronological | backend/src/main/java/com/chatapp/service/ChatService.java:144-146 | Any page of a newest-first list, reversed, is oldest first |
| MessageRepository.ReversedDescPage | backend/src/main/java/com/chatapp/service/ChatService.java:144-146 | A loaded descending page, reversed, has the same size and bounds, and its i-th message is the one counted back from the page's far end of the newest-first listing |
| MessageRepository.FindLatestMessagesByChatRoom | backend/src/main/java/com/chatapp/repository/MessageRepository.java:21-22 | Fails exactly on an offset beyond the int range; with page 0 and size n it returns the n newest messages (all when fewer), newest first |
| MessageRepository.CountByChatRoom | backend/src/main/java/com/chatapp/repository/MessageRepository.java:24-25 | The room's count equals the number of messages the oldest-first listing returns |
| MessageRepository.DescPagesDisjoint | backend/src/main/java/com/chatapp/repository/MessageRepository.java:19 | Over a table without repeated rows, two different pages of one size that both load share no message |
| MessageRepository.DescPagesRebuildHistory | backend/src/main/java/com/chatapp/repository/MessageRepository.java:19 | Concatenating pages 0, 1, ... of one size until past the count gives back the whole newest-first listing |
| ChatService.NewPrivateRoom | backend/src/main/java/com/chatapp/service/ChatService.java:46-54 | A new private room is named "<second> & <first>", created by the first user, typed PRIVATE, and holds exactly the two users |
| ChatService.CreateOrGetPrivateChatAsWritten | backend/src/main/java/com/chatapp/service/ChatService.java:31-57 | The source's version: unknown users fail, a new room whose generated name exceeds its 255-character column fails as a constraint violation, any failure leaves the store unchanged, and a room returned is a stored PRIVATE room having both users among its participants |
| ChatService.CreateOrGetPrivateChat | backend/src/main/java/com/chatapp/service/ChatService.java:31-57 | Unknown users fail; without an existing room, a generated name too long for its column fails as a constraint violation; a success returns a stored PRIVATE room whose participants are exactly the two users, and creates one only when none existed |
| ChatService.CreateOrGetPrivateChatOutcome | backend/src/main/java/com/chatapp/service/ChatService.java:39-56 | Over a valid store the call fails exactly for an unknown user or, when no room exists yet, a name too long for its column; it returns an existing room without change and keeps the store valid |
| ChatService.NewPrivateRoomPreservesValid | backend/src/main/java/com/chatapp/service/ChatService.java:46-56 | Saving a private room for a pair that has none keeps the store valid, including uniqueness of private rooms per pair |
| ChatService.PrivateChatOrderIrrelevant | backend/src/main/java/com/chatapp/service/ChatService.java:31-57 | Asking for (A, B) and then (B, A) gives the same outcome, and the second call changes nothing |
| ChatService.AsWrittenAgreesForDistinctUsers | backend/src/main/java/com/chatapp/service/ChatService.java:40-44 | For two different users the source's lookup and the corrected one agree on every valid store |
| ChatService.SelfChatCounterexample | backend/src/main/java/com/chatapp/service/ChatService.java:40-44 | A valid store where the source's self-chat lookup returns a room shared with someone else, while the corrected one yields a room holding only that user |
| ChatService.AddResolvable | backend/src/main/java/com/chatapp/service/ChatService.java:76-81 | The loop adds exactly the listed ids that resolve to users and changes nothing but participants and updatedAt |
| ChatService.CreateGroupChat | backend/src/main/java/com/chatapp/service/ChatService.java:60-84 | Unknown creator fails first, a null id list next, a name or description too long for its column last; a success happens exactly when none of these applies, and saves one GROUP room with the given name and description holding the creator plus exactly the resolvable ids |
| ChatService.CreateGroupChatPreservesValid | backend/src/main/java/com/chatapp/service/ChatService.java:60-84 | Creating a group keeps the store valid |
| ChatService.GetUserChatRooms | backend/src/main/java/com/chatapp/service/ChatService.java:87-94 | Fails exactly for an unknown user; otherwise lists exactly the rooms the user participates in |
| ChatService.GetUserPrivateChats | backend/src/main/java/com/chatapp/service/ChatService.java:97-104 | Fails exactly for an unknown user; otherwise exactly the PRIVATE rooms among the user's rooms |
| ChatService.GetUserGroupChats | backend/src/main/java/com/chatapp/service/ChatService.java:107-114 | Fails exactly for an unknown user; otherwise exactly the GROUP rooms among the user's rooms |
| ChatService.UserListingsPartition | backend/src/main/java/com/chatapp/service/ChatService.java:87-114 | Over a valid store a known user's private and group listings are disjoint and together are all of the user's rooms |
| ChatService.SendMessage | backend/src/main/java/com/chatapp/service/ChatService.java:117-132 | A missing room or sender is reported before a non-participant; success happens exactly for a participant whose content fits 1000 characters and whose type fits its column, and appends one message with the next id and the given fields |
| ChatService.SendMessageCounts | backend/src/main/java/com/chatapp/service/ChatService.java:117-132 | A successful send adds one to the room's count and changes no other room's count; a failed send changes no count |
| ChatService.SendMessagePreservesValid | backend/src/main/java/com/chatapp/service/ChatService.java:117-132 | A send at an instant no earlier than every stored message keeps the store valid, in particular chronological |
| ChatService.GetChatMessages | backend/src/main/java/com/chatapp/service/ChatService.java:135-149 | An unknown room fails before a bad page request, and an offset beyond the int range after both; otherwise the page has min(size, count minus offset) messages while the offset is below the count, none past it, and the i-th is the matching newest-first message counted from the page's far end |
| ChatService.GetChatMessagesChronological | backend/src/main/java/com/chatapp/service/ChatService.java:144-148 | When the stored log is in timestamp order (part of the store invariant), every page is in non-decreasing timestamp order |
| ChatService.FirstPageIsNewestTail | backend/src/main/java/com/chatapp/service/ChatService.java:141-148 | Page 0 is the last size messages of the room's oldest-first history |
| ChatService.ChatMessagePagesDisjoint | backend/src/main/java/com/chatapp/service/ChatService.java:141-148 | When message ids increase along the log (part of the store invariant), different pages of one size that both load share no message |
| ChatService.GetChatMessagesAsWritten | backend/src/main/java/com/chatapp/service/ChatService.java:135-149 | The source's version: an unknown room, a bad page request and an offset beyond the int range fail in that order; the in-place reverse of the unmodifiable page fails exactly when the page holds two or more messages, and otherwise the page is returned as loaded |
| ChatService.GetChatMessagesAsWrittenDiffers | backend/src/main/java/com/chatapp/service/ChatService.java:145-146 | The source's version fails exactly when the intended page has two or more messages and agrees with it otherwise |
| ChatService.TwoMessagePageCounterexample | backend/src/main/java/com/chatapp/service/ChatService.java:145-146 | A room with two messages: the source's first page fails while the intended one lists both, oldest first |
| ChatService.GetLatestMessages | backend/src/main/java/com/chatapp/service/ChatService.java:152-160 | An unknown room fails before a limit below one; otherwise the room's min(limit, count) newest messages, newest first |
| ChatService.FirstPageIsLatestReversed | backend/src/main/java/com/chatapp/service/ChatService.java:135-160 | getChatMessages on page 0 succeeds exactly when getLatestMessages does, and returns its result reversed |
| ChatService.AddParticipantToGroupChat | backend/src/main/java/com/chatapp/service/ChatService.java:163-183 | Missing room, user or adder fails first, then a non-group room, then an adder who is not a member; success happens exactly when none of these applies, and adds the user to that room only and moves its updatedAt |
| ChatService.AddParticipantToGroupChatIdempotent | backend/src/main/java/com/chatapp/service/ChatService.java:181-182 | Adding an existing member leaves the participant set as it was; only updatedAt changes |
| ChatService.AddParticipantPreservesValid | backend/src/main/java/com/chatapp/service/ChatService.java:163-183 | Adding a member keeps the store valid |
| LongText.DigitsRoundTrip | backend/src/main/java/com/chatapp/controller/ChatController.java:61-66 | Reading back the decimal digits of a number gives the number |
| LongText.LongToString | backend/src/main/java/com/chatapp/controller/ChatController.java:66 | The text of a long starts with a minus sign exactly for negative values and is otherwise all digits |
| LongText.ParseLong | backend/src/main/java/com/chatapp/controller/ChatController.java:61 | A parsed value lies in the 64-bit range; the empty string never parses |
| LongText.ParseLongToString | backend/src/main/java/com/chatapp/controller/ChatController.java:61-66 | Parsing the text Long.toString prints gives the number back |
| LongText.LongToStringInjective | backend/src/main/java/com/chatapp/controller/ChatController.java:61-66 | Different longs print differently |
| LongText.ParseLongNormalises | backend/src/main/java/com/chatapp/controller/ChatController.java:61-66 | "+007" parses to 7, which prints as "7"; "-12" parses to -12 |
| LongText.ParseLongRejects | backend/src/main/java/com/chatapp/controller/ChatController.java:61 | A bare sign, a trailing letter and the empty string do not parse |
| Realtime.Classify | backend/src/main/java/com/chatapp/controller/ChatController.java:50-71 | Any failure of the classification is a malformed event, and a group route carries an id in the 64-bit range |
| Realtime.RouteMessage | backend/src/main/java/com/chatapp/controller/ChatController.java:36-72 | Succeeds exactly when the three mandatory fields are present and the event classifies; yields one or two deliveries, each copying username, content and type and stamped now |
| Realtime.PrivateRouting | backend/src/main/java/com/chatapp/controller/ChatController.java:50-58 | With a targetUser: exactly two private-queue deliveries, to the sender then the target, with one identical payload naming the target; any chatRoomId is ignored |
| Realtime.GroupRouting | backend/src/main/java/com/chatapp/controller/ChatController.java:60-67 | Without a targetUser, a parsable chatRoomId gives exactly one delivery, to that group's topic and never the public one, carrying the parsed id |
| Realtime.GroupTopicsDistinct | backend/src/main/java/com/chatapp/controller/ChatController.java:61-66 | Different group ids never share a topic |
| Realtime.PublicRouting | backend/src/main/java/com/chatapp/controller/ChatController.java:69-71 | With neither key, exactly one delivery to the public topic without private or group markers |
| Realtime.RouteMessageFails | backend/src/main/java/com/chatapp/controller/ChatController.java:38-61 | The router fails exactly on a missing or null mandatory field, a null targetUser, or, without targetUser, a null or non-numeric chatRoomId |
| Realtime.HandleSendMessage | backend/src/main/java/com/chatapp/controller/ChatController.java:36-72 | The routed deliveries are appended, the online set is untouched, and a malformed event sends nothing |
| Realtime.PresencePayload | backend/src/main/java/com/chatapp/controller/ChatController.java:80-85 | A presence broadcast carries the user, the message text, its kind, the size of the online set and, when asked, the set itself |
| Realtime.AddUser | backend/src/main/java/com/chatapp/controller/ChatController.java:74-88 | The user joins the online set and one JOIN broadcast with the new count and no list goes to the public topic |
| Realtime.UserOnline | backend/src/main/java/com/chatapp/controller/ChatController.java:267-281 | The user joins the online set and one ONLINE broadcast with the new count and the whole set goes to the public topic |
| Realtime.UserOffline | backend/src/main/java/com/chatapp/controller/ChatController.java:284-297 | The user leaves the online set and one OFFLINE broadcast with the new count and the remaining set goes to the public topic |
| Realtime.GetOnlineUsers | backend/src/main/java/com/chatapp/controller/ChatController.java:299-307 | The report lists exactly the online users and its count is their number |
| Realtime.PresenceBroadcastCounts | backend/src/main/java/com/chatapp/controller/ChatController.java:267-297 | Each presence handler appends exactly one public broadcast whose count equals the size of the set after the change |
| Realtime.PresenceIdempotent | backend/src/main/java/com/chatapp/controller/ChatController.java:267-297 | Going online, joining or going offline twice leaves the same set as doing it once |
| Realtime.OnlineThenOffline | backend/src/main/java/com/chatapp/controller/ChatController.java:267-297 | Online then offline leaves the set without the user; for a user not online before, the set is as it was |
| Realtime.OnlineUsersReflectPresence | backend/src/main/java/com/chatapp/controller/ChatController.java:267-307 | After going online the user is reported; after going offline the user is not, and everyone else is reported as before |
| Backend.RealtimeSendMessage | backend/src/main/java/com/chatapp/controller/ChatController.java:36-72 | A realtime chat message leaves users, rooms and the message log unchanged and only adds deliveries |
| Backend.PersistentSendMessage | backend/src/main/java/com/chatapp/service/ChatService.java:117-132 | A stored chat message pushes nothing to any subscriber and leaves users unchanged; a success adds exactly one message |

## Left out

- Transport, JPA sessions, transactions and concurrency. The `ConcurrentHashMap` key set of online users and any atomicity of get-or-create are modelled sequentially.
- Clocks. `LocalDateTime.now()` and `System.currentTimeMillis()` are the `now` parameter, an abstract integer instant.
- The REST endpoints and response-map builders of ChatController (lines 91-262 and 309-357), and AuthController. They only turn exceptions into `success:false` bodies.
- `profilePicture` of User and `avatar` of ChatRoom. They have only getters and setters.
- Java `null` passed for a `String` or `Long` argument of a service method. The one null the model keeps is the participant-id list of `createGroupChat`, which fails before saving.
- Password hashing. There is none in the source; passwords are compared as plain strings.
- Unicode digits in `Long.parseLong`: `LongText.ParseLong` accepts only ASCII digits.
- Non-string JSON values (numbers, booleans) in inbound events. They appear only through their `toString` text (`Realtime.Field`).
- Ordering of list results. The room listings, the searches and the online-user list are sets. The source returns lists in an order it does not specify.
- Repository ties. `FindByChatRoomOrderByTimestampAsc` breaks equal timestamps by insertion order, while the database may order ties differently.
- MessageModel.Storable: the 1000-character limit counts Unicode characters. A Java string length counts UTF-16 units, and the database column may count differently.
- ChatService.SendMessage: a content over 1000 characters or a type over 255 is reported as a constraint violation at save time. The exact exception the database driver raises is not modelled.
- Column lengths. String columns without an explicit `length` are taken to be VARCHAR(255), as in the schema Hibernate generates from the entity mappings. A hand-made schema with other widths would move the failure point.
- Java `int` page and size arguments are unbounded integers. Only the offset overflow, which Spring Data JPA 3 reports when page times size does not fit an `int`, is modelled; it is the `OffsetTooLarge` error.
- ContactService.GetOnlineContacts: gives the filtered contact set as a new value. The source filters the user's own managed contact collection in place with `removeIf`, so a later flush of that user could also drop offline contacts from the database. That depends on session and flush behaviour, which is not modelled.
- ContactService.SearchUsers: treats the term as a plain case-sensitive substring.
  - `%` and `_` inside the term are not LIKE wildcards here.
  - Case folding depends on the database collation. The method name says "IgnoreCase", but its explicit query does not fold case.
- ContactService.SearchUsersByPhone: treats the term as a plain substring, with no LIKE wildcards.

## Findings

| source | as written | input that shows it | evidently intended | confidence | as-written member | corrected member |
|---|---|---|---|---|---|---|
| backend/src/main/java/com/chatapp/service/ChatService.java:145-146 | `Collections.reverse` is applied to `Page.getContent()`, which Spring Data returns as an unmodifiable list | a room with two messages, page 0, size 50: the swap inside `reverse` throws `UnsupportedOperationException` | return the page's messages oldest first | high, not executed | ChatService.GetChatMessagesAsWritten (ChatService.TwoMessagePageCounterexample, ChatService.GetChatMessagesAsWrittenDiffers) | ChatService.GetChatMessages (ChatService.GetChatMessagesChronological, ChatService.FirstPageIsNewestTail) |
| backend/src/main/java/com/chatapp/service/ChatService.java:40-44 | the existing private chat of (A, B) is looked up as "a private room with A and B among its participants" | `createOrGetPrivateChat(1, 1)` when users 1 and 2 share a private room returns that shared room; when user 1 has private rooms with two different users (or one with user 2 and a self room), the lookup matches both and fails as non-unique | for A = B, return or create the room holding only A; in general, match the room whose participants are exactly {A, B} | medium, not executed | ChatService.CreateOrGetPrivateChatAsWritten (ChatService.SelfChatCounterexample) | ChatService.CreateOrGetPrivateChat (ChatService.CreateOrGetPrivateChatOutcome, ChatService.AsWrittenAgreesForDistinctUsers) |
