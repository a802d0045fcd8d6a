/** MessageRepository: the ordered and paged message queries of one room,
    as functions of the message table.

    The table is kept as a sequence in insertion order, which is also id
    order. The queries order by timestamp; the model takes a room's
    messages in insertion order as that order, so equal timestamps are
    broken by id. This agrees with ORDER BY timestamp whenever the table is
    Chronological, which holds while the clock never runs backwards (see
    ChatService.SendMessagePreservesValid). */
module MessageRepository {
  import opened Common
  import opened Seqs
  import opened MessageModel

  /** Timestamps never decrease along s. */
  predicate Chronological(s: seq<Message>) {
    forall i, j :: 0 <= i < j < |s| ==> s[i].timestamp <= s[j].timestamp
  }

  /** Timestamps never increase along s. */
  predicate NewestFirstOrder(s: seq<Message>) {
    forall i, j :: 0 <= i < j < |s| ==> s[i].timestamp >= s[j].timestamp
  }

  /** findByChatRoomOrderByTimestampAsc: the room's messages, oldest first.
      The result holds exactly the messages of the log that belong to the
      room, and only those. */
  function FindByChatRoomOrderByTimestampAsc(log: seq<Message>, room: RoomId): (r: seq<Message>)
    ensures forall m :: m in r <==> m in log && m.chatRoom == Some(room)
    ensures |r| <= |log|
  {
    if log == [] then []
    else if log[0].chatRoom == Some(room) then [log[0]] + FindByChatRoomOrderByTimestampAsc(log[1..], room)
    else FindByChatRoomOrderByTimestampAsc(log[1..], room)
  }

  /** Putting a message no later than all of a chronological list in front
      keeps it chronological. */
  lemma ConsChronological(x: Message, rest: seq<Message>)
    requires Chronological(rest)
    requires forall k :: 0 <= k < |rest| ==> x.timestamp <= rest[k].timestamp
    ensures Chronological([x] + rest)
  {
    var r := [x] + rest;
    forall i, j | 0 <= i < j < |r|
      ensures r[i].timestamp <= r[j].timestamp
    {
      if i == 0 {
        assert r[j] == rest[j - 1];
      } else {
        assert r[i] == rest[i - 1] && r[j] == rest[j - 1];
      }
    }
  }

  /** Selecting one room's messages keeps the log's time order. */
  lemma {:induction false} AscIsChronological(log: seq<Message>, room: RoomId)
    requires Chronological(log)
    ensures Chronological(FindByChatRoomOrderByTimestampAsc(log, room))
  {
    if log != [] {
      var tail := log[1..];
      assert Chronological(tail) by {
        forall i, j | 0 <= i < j < |tail|
          ensures tail[i].timestamp <= tail[j].timestamp
        {
          assert tail[i] == log[i + 1] && tail[j] == log[j + 1];
        }
      }
      AscIsChronological(tail, room);
      if log[0].chatRoom == Some(room) {
        var rest := FindByChatRoomOrderByTimestampAsc(tail, room);
        forall k | 0 <= k < |rest|
          ensures log[0].timestamp <= rest[k].timestamp
        {
          assert rest[k] in tail;
          var n :| 0 <= n < |tail| && tail[n] == rest[k];
          assert log[n + 1] == rest[k];
        }
        ConsChronological(log[0], rest);
      }
    }
  }

  /** Selecting one room's messages keeps distinct messages distinct. */
  lemma {:induction false} AscIsDistinct(log: seq<Message>, room: RoomId)
    requires Distinct(log)
    ensures Distinct(FindByChatRoomOrderByTimestampAsc(log, room))
  {
    if log != [] {
      AscIsDistinct(log[1..], room);
      var rest := FindByChatRoomOrderByTimestampAsc(log[1..], room);
      if log[0].chatRoom == Some(room) {
        assert log[0] !in log[1..];
        assert log[0] !in rest;
        var r := [log[0]] + rest;
        forall i, j | 0 <= i < j < |r|
          ensures r[i] != r[j]
        {
          if i == 0 {
            assert r[j] == rest[j - 1];
          } else {
            assert r[i] == rest[i - 1] && r[j] == rest[j - 1];
          }
        }
      }
    }
  }

  /** The room's messages in the order `ORDER BY timestamp DESC` lists
      them: every message of the room once, newest first. */
  function NewestFirst(log: seq<Message>, room: RoomId): (r: seq<Message>)
    ensures forall m :: m in r <==> m in log && m.chatRoom == Some(room)
    ensures |r| == CountByChatRoom(log, room)
  {
    var asc := FindByChatRoomOrderByTimestampAsc(log, room);
    ReverseKeepsElements(asc);
    Reverse(asc)
  }

  lemma NewestFirstIsOrdered(log: seq<Message>, room: RoomId)
    requires Chronological(log)
    ensures NewestFirstOrder(NewestFirst(log, room))
  {
    AscIsChronological(log, room);
  }

  /** Any page of a newest-first list, reversed, is oldest first. */
  lemma ReversedNewestPageChronological(s: seq<Message>, page: nat, size: nat)
    requires NewestFirstOrder(s)
    ensures Chronological(Reverse(Page(s, page, size)))
  {
    var p := Page(s, page, size);
    var o := Offset(page, size);
    assert NewestFirstOrder(p) by {
      forall i, j | 0 <= i < j < |p|
        ensures p[i].timestamp >= p[j].timestamp
      {
        assert p[i] == s[o + i] && p[j] == s[o + j];
      }
    }
    var r := Reverse(p);
    forall i, j | 0 <= i < j < |r|
      ensures r[i].timestamp <= r[j].timestamp
    {
      assert r[i] == p[|p| - 1 - i] && r[j] == p[|p| - 1 - j];
    }
  }

  /** A validated Spring PageRequest: a page number and a positive size. */
  datatype PageRequest = PageRequest(page: nat, size: nat)

  /** PageRequest.of: rejects a negative page and a size below one. */
  function PageRequestOf(page: int, size: int): (r: Result<PageRequest>)
    ensures r.Ok? <==> page >= 0 && size >= 1
    ensures r.Ok? ==> r.value.page == page && r.value.size == size
    ensures r.Err? ==> r.error == InvalidPageRequest
  {
    if page < 0 || size < 1 then Err(InvalidPageRequest) else Ok(PageRequest(page, size))
  }

  /** findByChatRoomOrderByTimestampDesc with a page request: the requested
      page of the newest-first list. Spring Data JPA hands the page offset
      to the query as an int and refuses an offset beyond Integer.MAX_VALUE;
      a page past the end of the list is empty. */
  function FindByChatRoomOrderByTimestampDesc(log: seq<Message>, room: RoomId, pr: PageRequest): (r: Result<seq<Message>>)
    ensures r.Err? <==> Offset(pr.page, pr.size) > IntMax
    ensures r.Err? ==> r.error == OffsetTooLarge
    ensures r.Ok? ==>
      && |r.value| <= pr.size
      && (Offset(pr.page, pr.size) >= CountByChatRoom(log, room) ==> r.value == [])
      && (Offset(pr.page, pr.size) < CountByChatRoom(log, room) ==>
            |r.value| == Min(pr.size, CountByChatRoom(log, room) - Offset(pr.page, pr.size)))
      && forall i :: 0 <= i < |r.value| ==>
           Offset(pr.page, pr.size) + i < |NewestFirst(log, room)|
           && r.value[i] == NewestFirst(log, room)[Offset(pr.page, pr.size) + i]
  {
    if Offset(pr.page, pr.size) > IntMax then Err(OffsetTooLarge)
    else Ok(Page(NewestFirst(log, room), pr.page, pr.size))
  }

  /** The page the query loads, reversed, is the same window of the
      newest-first list read from its far end. */
  lemma ReversedDescPage(log: seq<Message>, room: RoomId, pr: PageRequest, content: seq<Message>)
    requires FindByChatRoomOrderByTimestampDesc(log, room, pr) == Ok(content)
    ensures IsReversedPage(Reverse(content), NewestFirst(log, room), Offset(pr.page, pr.size), pr.size)
  {
    ReversedWindow(content, NewestFirst(log, room), Offset(pr.page, pr.size));
  }

  /** findLatestMessagesByChatRoom: the same query and order, returned as a
      plain list instead of a page. On page 0 of size n it is the n newest
      messages of the room, newest first. */
  function FindLatestMessagesByChatRoom(log: seq<Message>, room: RoomId, pr: PageRequest): (r: Result<seq<Message>>)
    ensures r.Err? <==> Offset(pr.page, pr.size) > IntMax
    ensures pr.page == 0 ==>
      r == Ok(NewestFirst(log, room)[..Min(pr.size, |NewestFirst(log, room)|)])
  {
    FirstPageIsPrefix(NewestFirst(log, room), pr.size);
    FindByChatRoomOrderByTimestampDesc(log, room, pr)
  }

  /** countByChatRoom, counted message by message: the length of the
      room's listing. */
  function CountByChatRoom(log: seq<Message>, room: RoomId): (n: nat)
    ensures n == |FindByChatRoomOrderByTimestampAsc(log, room)|
  {
    if log == [] then 0
    else (if log[0].chatRoom == Some(room) then 1 else 0) + CountByChatRoom(log[1..], room)
  }

  /** Distinct page numbers return disjoint pages, over a table without
      repeated rows. */
  lemma DescPagesDisjoint(log: seq<Message>, room: RoomId, p: PageRequest, q: PageRequest)
    requires Distinct(log)
    requires p.size == q.size && p.page != q.page
    ensures var rp := FindByChatRoomOrderByTimestampDesc(log, room, p);
      var rq := FindByChatRoomOrderByTimestampDesc(log, room, q);
      rp.Ok? && rq.Ok? ==> forall m :: m in rp.value ==> m !in rq.value
  {
    AscIsDistinct(log, room);
    ReverseKeepsDistinct(FindByChatRoomOrderByTimestampAsc(log, room));
    PagesDisjoint(NewestFirst(log, room), p.size, p.page, q.page);
  }

  /** Reading pages 0, 1, ... of one size until past the end and
      concatenating them gives back the whole newest-first list. */
  lemma DescPagesRebuildHistory(log: seq<Message>, room: RoomId, size: nat, k: nat)
    requires size >= 1
    requires k * size >= CountByChatRoom(log, room)
    ensures PagesBefore(NewestFirst(log, room), size, k) == NewestFirst(log, room)
  {
    PagesRebuildSequence(NewestFirst(log, room), size, k);
  }
}
