/**
 * What paging returns and what each navigation step puts on screen, spelled out by columns and
 * by positions in the history (internal/store/paging.go, internal/ui/state.go).
 */
module Navigation {
  import ChatOrder
  import opened Prelude
  import opened Tables
  import opened Paging
  import opened Reducer

  // ---------------------------------------------------------------- the order of the rows

  /** Strictly descending by (ts, id). */
  ghost predicate DescendsByKey(msgs: seq<Message>) {
    forall i, j :: 0 <= i < j < |msgs| ==>
      msgs[i].ts > msgs[j].ts || (msgs[i].ts == msgs[j].ts && msgs[i].id > msgs[j].id)
  }

  lemma DescendingByKey(msgs: seq<Message>)
    ensures DescendsByKey(msgs) <==> Descending(msgs)
  {
    if DescendsByKey(msgs) {
      forall i, j | 0 <= i < j < |msgs| ensures Newer(msgs[i], msgs[j]) {}
    }
  }

  /** The history of a chat is its rows, newest first, equal timestamps by descending rowid. */
  lemma HistoryByKey(rows: seq<Message>, chat: string)
    requires WellFormed(rows)
    ensures DescendsByKey(History(rows, chat))
    ensures forall m :: m in History(rows, chat) <==> m in rows && m.chatJID == chat
  {
    SelectedMeaning(rows, chat, Everything);
    DescendingByKey(History(rows, chat));
  }

  /** The row is in the chat, and below the cursor unless that is the zero cursor. */
  predicate BelongsBelow(m: Message, chat: string, before: Cursor) {
    && m.chatJID == chat
    && ((before.ts == 0 && before.id == 0) || m.ts < before.ts || (m.ts == before.ts && m.id < before.id))
  }

  /**
   * A page in terms of columns: refused exactly for an empty chat or a limit that is not
   * positive; otherwise the greatest keys below the cursor, in order, and the last one's key.
   */
  lemma PageByKey(rows: seq<Message>, chat: string, before: Cursor, limit: int)
    requires WellFormed(rows)
    ensures PageOlder(rows, chat, before, limit).Err? <==> chat == "" || limit <= 0
    ensures PageOlder(rows, chat, before, limit).Ok? ==>
              var page := PageOlder(rows, chat, before, limit).value;
              && DescendsByKey(page.msgs) && |page.msgs| <= limit
              && (forall m :: m in page.msgs ==> m in rows && BelongsBelow(m, chat, before))
              && (forall m :: m in rows && BelongsBelow(m, chat, before) && m !in page.msgs ==>
                    |page.msgs| == limit
                    && (page.msgs[limit - 1].ts > m.ts
                        || (page.msgs[limit - 1].ts == m.ts && page.msgs[limit - 1].id > m.id)))
              && page.next == (if page.msgs == [] then Cursor(0, 0)
                               else Cursor(page.msgs[|page.msgs| - 1].ts, page.msgs[|page.msgs| - 1].id))
  {
    hide WellFormed;
    if chat != "" && limit > 0 {
      PageOlderMeaning(rows, chat, before, limit);
      hide PageOlder;
      var page := PageOlder(rows, chat, before, limit).value;
      DescendingByKey(page.msgs);
      hide Descending, DescendsByKey;
    }
  }

  /** A window is refused exactly for an empty chat, a negative count or an id that no row of the chat has. */
  lemma WindowRefused(rows: seq<Message>, chat: string, id: int, before: int, after: int)
    ensures PageAround(rows, chat, id, before, after).Err?
       <==> chat == "" || before < 0 || after < 0 || forall m :: m in rows ==> !(m.id == id && m.chatJID == chat)
  {
    LookupMeaning(rows, chat, id);
  }

  /** The window by positions: the newest `after` rows above the anchor, the anchor, the rows right below it. */
  lemma WindowByPosition(rows: seq<Message>, chat: string, i: int, before: int, after: int)
    requires WellFormed(rows) && chat != "" && before >= 0 && after >= 0 && 0 <= i < |History(rows, chat)|
    ensures PageAround(rows, chat, History(rows, chat)[i].id, before, after).Ok?
    ensures
      var h, page := History(rows, chat), PageAround(rows, chat, History(rows, chat)[i].id, before, after).value;
      var newest, end := if i < after then i else after, if i + 1 + before < |h| then i + 1 + before else |h|;
      && page.msgs == h[..newest] + [h[i]] + h[i + 1..end]
      && page.next == Cursor(h[end - 1].ts, h[end - 1].id)
  {
    hide PageAround, WellFormed, History;
    AroundWindow(rows, chat, i, before, after);
    var h := History(rows, chat);
    var end := if i + 1 + before < |h| then i + 1 + before else |h|;
    assert Take(h[i + 1..], before) == h[i + 1..end];
    assert Take(h[..i], after) == h[..if i < after then i else after];
  }

  // ---------------------------------------------------------------- opening chats

  /** The key of the last row shown, zero if nothing is shown. */
  function EndOf(msgs: seq<Message>): Cursor {
    if msgs == [] then Cursor(0, 0) else Cursor(msgs[|msgs| - 1].ts, msgs[|msgs| - 1].id)
  }

  /** Selecting a chat shows its 50 newest messages; the one already open is left as it is. */
  lemma SelectShowsNewest(v: View, rows: seq<Message>, jid: string)
    requires WellFormed(rows)
    ensures SelectChat(v, rows, jid).Err? <==> jid == ""
    ensures jid != "" && jid == v.selected && v.loaded ==> SelectChat(v, rows, jid) == Ok(v)
    ensures jid != "" && !(jid == v.selected && v.loaded) ==>
              var w, h := SelectChat(v, rows, jid).value, History(rows, jid);
              && w.selected == jid && w.loaded && w.chats == v.chats
              && w.messages == (if |h| > 50 then h[..50] else h) && w.cursor == EndOf(w.messages)
  {
    hide History, PageOlder;
    if jid != "" {
      FirstPage(rows, jid, 50);
    }
  }

  /** LoadOlder appends the page of 50 below the cursor and nothing else; it needs an open chat. */
  lemma OlderAppendsPage(v: View, rows: seq<Message>)
    requires WellFormed(rows)
    ensures LoadOlder(v, rows).Err? <==> v.selected == ""
    ensures v.selected != "" && v.cursor == Cursor(0, 0) && v.messages != [] ==> LoadOlder(v, rows) == Ok((v, 0))
    ensures v.selected != "" && !(v.cursor == Cursor(0, 0) && v.messages != []) ==>
              && PageOlder(rows, v.selected, v.cursor, 50).Ok?
              && (var (w, n) := LoadOlder(v, rows).value;
                  var page := PageOlder(rows, v.selected, v.cursor, 50).value;
                  && w.messages == v.messages + page.msgs && w.cursor == page.next && n == |page.msgs|
                  && w.selected == v.selected && w.chats == v.chats)
  {
    hide WellFormed;
    if v.selected != "" {
      PageOlderMeaning(rows, v.selected, v.cursor, 50);
    }
    hide PageOlder;
  }

  /**
   * Jumping to a search hit shows the hit with the 25 rows right below it and the 25 newest of
   * the rows above it, whatever was open before, and paging goes on from the last row shown.
   */
  lemma JumpShowsHit(v: View, rows: seq<Message>, chat: string, i: int)
    requires WellFormed(rows) && 0 <= i < |History(rows, chat)|
    ensures JumpToMessage(v, rows, chat, History(rows, chat)[i].id).Ok?
    ensures
      var h, w := History(rows, chat), JumpToMessage(v, rows, chat, History(rows, chat)[i].id).value;
      && w.messages == h[..if i < 25 then i else 25] + [h[i]] + h[i + 1..if i + 26 < |h| then i + 26 else |h|]
      && w.selected == chat && w.loaded && w.chats == v.chats
      && w.cursor == EndOf(w.messages)
      && h[i] in w.messages
  {
    ChatIsNamed(rows, chat, i);
    hide WellFormed, History, PageAround, JumpToMessage;
    var h := History(rows, chat);
    WindowByPosition(rows, chat, i, 25, 25);
    JumpOpensWindow(v, rows, chat, h[i].id);
    assert (h[..if i < 25 then i else 25] + [h[i]])[if i < 25 then i else 25] == h[i];
  }

  lemma JumpOpensWindow(v: View, rows: seq<Message>, chat: string, id: int)
    requires chat != "" && PageAround(rows, chat, id, 25, 25).Ok?
    ensures
      var r, page := JumpToMessage(v, rows, chat, id), PageAround(rows, chat, id, 25, 25).value;
      && r.Ok? && r.value.messages == page.msgs && r.value.cursor == page.next
      && r.value.selected == chat && r.value.loaded && r.value.chats == v.chats
  {
    hide PageAround;
  }

  lemma ChatIsNamed(rows: seq<Message>, chat: string, i: int)
    requires WellFormed(rows) && 0 <= i < |History(rows, chat)|
    ensures chat != ""
  {
    HistoryByKey(rows, chat);
    assert History(rows, chat)[i] in rows;
  }

  /** A jump fails exactly when the chat is empty or holds no row with that id. */
  lemma JumpRefused(v: View, rows: seq<Message>, chat: string, id: int)
    requires WellFormed(rows)
    ensures JumpToMessage(v, rows, chat, id).Err?
       <==> chat == "" || forall m :: m in History(rows, chat) ==> m.id != id
  {
    hide PageAround;
    WindowRefused(rows, chat, id, 25, 25);
    HistoryByKey(rows, chat);
    hide WellFormed, History;
    assert (forall m :: m in rows ==> !(m.id == id && m.chatJID == chat))
        <==> (forall m :: m in History(rows, chat) ==> m.id != id);
  }

  /** The back arrow closes the chat and forgets what was loaded; the chat list stays. */
  lemma BackCloses(v: View)
    ensures
      var w := Back(v);
      w.selected == "" && !w.loaded && w.messages == [] && w.cursor == Cursor(0, 0) && w.chats == v.chats
  {}

  // ---------------------------------------------------------------- folding events

  /** The bubble of an event: five fields of it, everything else empty, without a rowid. */
  predicate IsBubbleOf(m: Message, ev: Event) {
    && m.waID == ev.waID && m.chatJID == ev.chatJID && m.senderJID == ev.senderJID && m.ts == ev.ts && m.body == ev.body
    && m.id == 0 && m.mediaPath == "" && m.mediaType == "" && m.status == "" && m.quotedWAID == ""
    && m.quotedBody == "" && m.quotedSender == "" && !m.edited && !m.revoked && m.linkURL == ""
    && m.linkTitle == "" && m.linkDesc == "" && !m.starred
  }

  /**
   * What a fold does to the open chat: nothing if the event is for another one; otherwise its
   * bubble takes the place of the first loaded copy, or goes on top of everything.
   */
  lemma FoldPutsBubble(v: View, ev: Event)
    ensures
      var w := OnIncoming(v, ev);
      && w.selected == v.selected && w.cursor == v.cursor
      && (ev.chatJID != v.selected ==> w.messages == v.messages && w.loaded == v.loaded)
      && (ev.chatJID == v.selected ==>
            && w.loaded
            && (if exists i :: 0 <= i < |v.messages| && v.messages[i].waID == ev.waID then
                  exists k :: && 0 <= k < |v.messages| && v.messages[k].waID == ev.waID
                              && (forall j :: 0 <= j < k ==> v.messages[j].waID != ev.waID)
                              && |w.messages| == |v.messages| && IsBubbleOf(w.messages[k], ev)
                              && (forall j :: 0 <= j < |v.messages| && j != k ==> w.messages[j] == v.messages[j])
                else
                  |w.messages| == |v.messages| + 1 && IsBubbleOf(w.messages[0], ev) && w.messages[1..] == v.messages))
  {
    hide StableSort, UpsertSummary;
    if Has(v.messages, ev.waID) {
      var k := IndexOf(v.messages, ev.waID);
      assert v.messages[k].waID == ev.waID;
    }
  }

  /**
   * A fold touches one entry of the chat list, however the list is ordered: every other entry
   * stays as it is, and the entry of the chat advances last_ts and counts the event, or is
   * created unpinned, unarchived, unmuted and unnamed.
   */
  lemma FoldTouchesOneChat(v: View, ev: Event)
    requires ChatOrder.DistinctJIDs(v.chats)
    ensures
      var list := OnIncoming(v, ev).chats;
      && (forall c: ChatSummary :: c.jid != ev.chatJID ==> (c in list <==> c in v.chats))
      && (forall c :: c in v.chats && c.jid == ev.chatJID ==>
            c.(lastTS := if ev.ts > c.lastTS then ev.ts else c.lastTS,
               unread := c.unread + if ev.fromMe then 0 else 1) in list)
      && ((forall c :: c in v.chats ==> c.jid != ev.chatJID) ==>
            ChatSummary(ev.chatJID, "", ev.ts, if ev.fromMe then 0 else 1, false, false, 0) in list)
  {
    var up := UpsertSummary(v.chats, ev);
    ChatOrder.StableSortMembers(false, up);
    hide StableSort;
    var i := Position(v.chats, ev.chatJID);
    if i < |v.chats| {
      assert up[i] in up && v.chats[i] in v.chats;
      forall c: ChatSummary | c.jid != ev.chatJID && c in v.chats ensures c in up {
        var k :| 0 <= k < |v.chats| && v.chats[k] == c;
        assert up[k] == c;
      }
    }
  }

  /** The row and the event a sent message becomes: ours, pending, and not counted as unread. */
  lemma OptimisticSends(tok: Tokenizer, v: View, db: DB, waID: string, chat: string, body: string, ts: int)
    ensures AddOptimistic(tok, v, db, waID, chat, body, ts).Err? <==> chat == "" || waID == ""
    ensures AddOptimistic(tok, v, db, waID, chat, body, ts).Ok? ==>
              var (w, after) := AddOptimistic(tok, v, db, waID, chat, body, ts).value;
              var row := Message(0, waID, chat, "", ts, body, "", "", "pending", "", "", "", false, false,
                                 "", "", "", false);
              var ev := Event(waID, chat, "", ts, body, true, "", "", "", "", "", "", "", "");
              && after == Inserted(tok, db, row, false)
              && (var folded := OnIncoming(v, ev).messages;
                  w == OnIncoming(v, ev).(messages :=
                         if folded != [] && folded[0].waID == waID then [folded[0].(status := "pending")] + folded[1..]
                         else folded))
  {
    hide StableSort, UpsertSummary, Inserted;
    if chat != "" && waID != "" {
      var folded := OnIncoming(v, OptimisticEvent(waID, chat, body, ts)).messages;
      if folded != [] {
        assert folded[0 := folded[0].(status := "pending")] == [folded[0].(status := "pending")] + folded[1..];
      }
    }
  }

  /** Clearing the counter of a chat touches its counter only. */
  lemma ClearsOneCounter(chats: seq<ChatSummary>, jid: string, i: int)
    requires ChatOrder.DistinctJIDs(chats) && 0 <= i < |chats|
    ensures |ClearUnread(chats, jid)| == |chats|
    ensures ClearUnread(chats, jid)[i] == if chats[i].jid == jid then chats[i].(unread := 0) else chats[i]
  {}
}
