/** The store as a mutable object; every method is proved against the tables' specification. */
module Stores {
  import opened Prelude
  import opened Tables
  import opened Paging
  import SearchIndex
  import B = Batches

  class Store {
    const tokenize: Tokenizer
    var rows: seq<Message>
    var chats: map<string, Chat>
    var postings: multiset<Posting>

    ghost function Contents(): DB
      reads this
    {
      DB(rows, chats, postings)
    }

    /** The schema's constraints hold and the search index is exact. */
    ghost predicate Valid()
      reads this
    {
      WellFormed(rows) && SearchIndex.Agrees(tokenize, Contents())
    }

    constructor (tokenize: Tokenizer)
      ensures this.tokenize == tokenize && Contents() == Empty() && Valid()
    {
      this.tokenize := tokenize;
      rows, chats, postings := [], map[], multiset{};
    }

    // ------------------------------------------------------------ statements and triggers

    method ExecInsert(m: Message) returns (affected: nat)
      requires SearchIndex.Agrees(tokenize, Contents())
      modifies this`rows, this`postings
      ensures SearchIndex.Agrees(tokenize, Contents())
      ensures Contents() == InsertRow(tokenize, old(Contents()), m)
      ensures affected == (if Has(old(rows), m.waID) then 0 else 1) && |rows| == |old(rows)| + affected
    {
      if Has(rows, m.waID) {
        return 0;
      }
      var row := Stored(m, NextID(rows));
      rows := rows + [row];
      assert rows[..|rows| - 1] == old(rows);
      AfterInsert(row);
      return 1;
    }

    /** Trigger messages_ai: an index exact for the other rows becomes exact for all of them. */
    method AfterInsert(row: Message)
      requires rows != [] && rows[|rows| - 1] == row
      requires postings == SearchIndex.Rebuild(tokenize, rows[..|rows| - 1])
      modifies this`postings
      ensures postings == SearchIndex.Rebuild(tokenize, rows)
    {
      postings := postings + Tokens(tokenize, row.id, row.body);
    }

    /** Trigger messages_au: an index exact for the old row becomes exact for the new one in its place. */
    method AfterUpdate(i: nat, before: Message, after: Message)
      requires i < |rows| && rows[i] == after
      requires postings == SearchIndex.Rebuild(tokenize, rows[i := before])
      modifies this`postings
      ensures postings == SearchIndex.Rebuild(tokenize, rows)
    {
      SearchIndex.RebuildReplace(tokenize, rows[i := before], i, after);
      assert rows[i := before][i := after] == rows;
      postings := postings - Tokens(tokenize, before.id, before.body);
      postings := postings + Tokens(tokenize, after.id, after.body);
    }

    method ExecUpdate(waID: string, change: Change)
      requires Valid()
      modifies this`rows, this`postings
      ensures Valid()
      ensures Contents() == UpdateRow(tokenize, old(Contents()), waID, change)
      ensures OnlyThatRow(old(rows), rows, waID, change)
    {
      RowsAfterUpdate(tokenize, Contents(), waID, change);
      UpdateRowKeeps(tokenize, Contents(), waID, change);
      SearchIndex.UpdateRowAgrees(tokenize, Contents(), waID, change);
      hide WellFormed, SearchIndex.Rebuild, Tokens, Has, OnlyThatRow;
      if Has(rows, waID) {
        var i := IndexOf(rows, waID);
        ReplaceRow(i, Changed(rows[i], change));
      }
    }

    /** One row and, through the trigger, its postings. */
    method ReplaceRow(i: nat, after: Message)
      requires i < |rows| && SearchIndex.Agrees(tokenize, Contents())
      modifies this`rows, this`postings
      ensures rows == old(rows)[i := after] && SearchIndex.Agrees(tokenize, Contents())
    {
      hide SearchIndex.Rebuild;
      var before := rows[i];
      rows := rows[i := after];
      assert rows[i := before] == old(rows);
      AfterUpdate(i, before, after);
    }

    method ExecTouchChat(jid: string, ts: int, unreadDelta: int)
      modifies this`chats
      ensures chats == TouchChat(old(chats), jid, ts, unreadDelta)
    {
      if jid in chats {
        var c := chats[jid];
        chats := chats[jid := c.(lastTS := Some(Max(LastTS(c), ts)), unread := c.unread + unreadDelta)];
      } else {
        chats := chats[jid := Chat("", Some(ts), unreadDelta, false, false, 0)];
      }
    }

    // ------------------------------------------------------------ writing

    /** The transaction of Insert: the message row, then the chat row. */
    method InsertTx(m: Message, bumpUnread: bool) returns (created: bool)
      requires Valid() && Acceptable(m)
      modifies this
      ensures Valid()
      ensures Contents() == Inserted(tokenize, old(Contents()), m, bumpUnread)
      ensures created == !Has(old(rows), m.waID)
    {
      hide WellFormed, InsertRow, TouchChat, Has, SearchIndex.Agrees;
      ghost var db := Contents();
      InsertedKeeps(tokenize, db, m, bumpUnread);
      SearchIndex.InsertedAgrees(tokenize, db, m, bumpUnread);
      var affected := ExecInsert(m);
      created := affected == 1;
      var unreadDelta := 0;
      if created && bumpUnread {
        unreadDelta := 1;
      }
      ExecTouchChat(m.chatJID, m.ts, unreadDelta);
      assert Contents() == Inserted(tokenize, db, m, bumpUnread);
    }

    /** Reports whether the message is new; a redelivery neither duplicates it nor counts again. */
    method Insert(m: Message, bumpUnread: bool) returns (r: Result<bool>)
      requires Valid()
      modifies this
      ensures Valid()
      ensures r.Ok? <==> m.waID != "" && m.chatJID != ""
      ensures r.Ok? ==> Contents() == Inserted(tokenize, old(Contents()), m, bumpUnread)
      ensures r.Ok? ==> r.value == !Has(old(rows), m.waID)
      ensures r.Err? ==> Contents() == old(Contents())
    {
      if m.waID == "" {
        return Err("WAID is required");
      }
      if m.chatJID == "" {
        return Err("ChatJID is required");
      }
      var created := InsertTx(m, bumpUnread);
      return Ok(created);
    }

    /** One transaction: rows first, then one chat upsert per chat with its newest timestamp. */
    method InsertBatch(msgs: seq<Message>) returns (created: nat)
      requires Valid()
      modifies this
      ensures Valid()
      ensures Contents() == InsertEach(tokenize, old(Contents()), msgs)
      ensures created == B.NewRows(tokenize, old(Contents()), msgs)
    {
      hide WellFormed, InsertRow, TouchChat, SearchIndex.Rebuild, SearchIndex.Agrees, InsertEach;
      InsertEachKeeps(tokenize, Contents(), msgs);
      SearchIndex.InsertEachAgrees(tokenize, Contents(), msgs);
      B.NewRowsCount(tokenize, Contents(), msgs);
      ghost var db := Contents();
      B.EachByParts(tokenize, db, msgs);
      var newest;
      created, newest := InsertRows(msgs);
      ghost var order := TouchEach(newest);
      B.BatchEqualsEach(tokenize, db, msgs, order);
    }

    /** The first loop: the rows, and the newest timestamp of each chat. */
    method InsertRows(msgs: seq<Message>) returns (created: nat, newest: map<string, int>)
      requires SearchIndex.Agrees(tokenize, Contents())
      modifies this`rows, this`postings
      ensures Contents() == B.BatchRows(tokenize, old(Contents()), msgs) && newest == B.Newest(msgs)
      ensures |rows| == |old(rows)| + created
    {
      hide InsertRow, SearchIndex.Agrees;
      ghost var db := Contents();
      newest, created := map[], 0;
      for i := 0 to |msgs|
        invariant Contents() == B.BatchRows(tokenize, db, msgs[..i])
        invariant newest == B.Newest(msgs[..i])
        invariant |rows| == |db.rows| + created && SearchIndex.Agrees(tokenize, Contents())
      {
        assert msgs[..i + 1][..i] == msgs[..i];
        var m := msgs[i];
        if m.waID == "" || m.chatJID == "" {
          continue;
        }
        var n := ExecInsert(m);
        created := created + n;
        if m.chatJID !in newest || m.ts > newest[m.chatJID] {
          newest := newest[m.chatJID := m.ts];
        }
      }
      assert msgs[..|msgs|] == msgs;
    }

    /** The second loop: one upsert per chat, in whatever order the map is walked. */
    method TouchEach(newest: map<string, int>) returns (ghost order: seq<string>)
      modifies this`chats
      ensures Enumerates(order, newest.Keys)
      ensures chats == B.UpsertAll(old(chats), newest, order)
    {
      hide TouchChat;
      order := [];
      var rest := newest.Keys;
      while rest != {}
        invariant rest <= newest.Keys && Enumerates(order, newest.Keys - rest)
        invariant chats == B.UpsertAll(old(chats), newest, order)
        decreases rest
      {
        var jid :| jid in rest;
        ExecTouchChat(jid, newest[jid], 0);
        assert (order + [jid])[..|order|] == order;
        order := order + [jid];
        rest := rest - {jid};
      }
      assert newest.Keys - rest == newest.Keys;
    }

    method UpsertChat(jid: string, name: string) returns (r: Result<()>)
      requires Valid()
      modifies this`chats
      ensures Valid() && (r.Ok? <==> jid != "")
      ensures Contents() == Tables.UpsertChat(old(Contents()), jid, name)
    {
      if jid == "" {
        return Err("jid is required");
      }
      if jid in chats {
        chats := chats[jid := chats[jid].(name := name)];
      } else {
        chats := chats[jid := Chat(name, None, 0, false, false, 0)];
      }
      return Ok(());
    }

    method MarkRead(jid: string) returns (r: Result<()>)
      requires Valid()
      modifies this`chats
      ensures Valid() && (r.Ok? <==> jid != "")
      ensures Contents() == Apply(tokenize, old(Contents()), DoMarkRead(jid))
    {
      if jid == "" {
        return Err("jid is required");
      }
      if jid in chats {
        chats := chats[jid := chats[jid].(unread := 0)];
      }
      return Ok(());
    }

    /** The body changes and the row is flagged; an unknown wa_id is a no-op. */
    method ApplyEdit(waID: string, newBody: string) returns (r: Result<()>)
      requires Valid()
      modifies this`rows, this`postings
      ensures Valid() && (r.Ok? <==> waID != "")
      ensures Contents() == Apply(tokenize, old(Contents()), DoUpdate(waID, SetBody(newBody)))
    {
      if waID == "" {
        return Err("waID is required");
      }
      ExecUpdate(waID, SetBody(newBody));
      return Ok(());
    }

    /** The body stays; only the flag changes. */
    method ApplyRevoke(waID: string) returns (r: Result<()>)
      requires Valid()
      modifies this`rows, this`postings
      ensures Valid() && (r.Ok? <==> waID != "")
      ensures Contents() == Apply(tokenize, old(Contents()), DoUpdate(waID, SetRevoked))
    {
      if waID == "" {
        return Err("waID is required");
      }
      ExecUpdate(waID, SetRevoked);
      return Ok(());
    }

    /** Overwrites whatever status was there: no transition is refused. */
    method UpdateStatus(waID: string, status: string) returns (r: Result<()>)
      requires Valid()
      modifies this`rows, this`postings
      ensures Valid() && (r.Ok? <==> waID != "" && status != "")
      ensures Contents() == Apply(tokenize, old(Contents()), DoUpdate(waID, SetStatus(status)))
    {
      if waID == "" {
        return Err("waID is required");
      }
      if status == "" {
        return Err("status is required");
      }
      ExecUpdate(waID, SetStatus(status));
      return Ok(());
    }

    method SetStarred(waID: string, starred: bool) returns (r: Result<()>)
      requires Valid()
      modifies this`rows, this`postings
      ensures Valid() && (r.Ok? <==> waID != "")
      ensures Contents() == Apply(tokenize, old(Contents()), DoUpdate(waID, Change.SetStarred(starred)))
    {
      if waID == "" {
        return Err("waID required");
      }
      ExecUpdate(waID, Change.SetStarred(starred));
      return Ok(());
    }

    // ------------------------------------------------------------ paging

    /** Scans a result set into a slice. */
    method Scan(results: seq<Message>) returns (out: seq<Message>)
      ensures out == results
    {
      out := [];
      for i := 0 to |results|
        invariant out == results[..i]
      {
        out := out + [results[i]];
      }
    }

    /** Up to `limit` messages of the chat strictly older than the cursor, newest first. */
    method PageOlder(chat: string, before: Cursor, limit: int) returns (r: Result<Page>)
      requires Valid()
      ensures r.Ok? <==> chat != "" && limit > 0
      ensures r.Ok? ==> r == Paging.PageOlder(rows, chat, before, limit)
      ensures r.Ok? ==>
                && Descending(r.value.msgs) && |r.value.msgs| <= limit
                && (forall m :: m in r.value.msgs ==>
                      m in rows && m.chatJID == chat && (IsZero(before) || OlderThan(m, before)))
    {
      if chat == "" {
        return Err("chatJID is required");
      }
      if limit <= 0 {
        return Err("limit must be positive");
      }
      PageOlderMeaning(rows, chat, before, limit);
      hide WellFormed, Select, Descending, SearchIndex.Agrees, OlderThan, IsZero;
      var out;
      if IsZero(before) {
        out := Scan(Select(rows, chat, Everything, limit));
      } else {
        out := Scan(Select(rows, chat, Below(before), limit));
      }
      var next := Start;
      if |out| > 0 {
        next := CursorOf(out[|out| - 1]);
      }
      return Ok(Page(out, next));
    }

    /** The anchor with the newest `after` rows above it and up to `before` rows below it. */
    method PageAround(chat: string, anchorID: int, before: int, after: int) returns (r: Result<Page>)
      requires Valid()
      ensures r.Ok? <==> Paging.PageAround(rows, chat, anchorID, before, after).Ok?
      ensures r.Ok? ==> r == Paging.PageAround(rows, chat, anchorID, before, after)
    {
      if chat == "" {
        return Err("chatJID is required");
      }
      if before < 0 || after < 0 {
        return Err("before/after must be non-negative");
      }
      match Lookup(rows, chat, anchorID)
      case None =>
        return Err("anchor not found");
      case Some(anchor) =>
        var newer := Scan(Select(rows, chat, Above(CursorOf(anchor)), after));
        var older := Scan(Select(rows, chat, Below(CursorOf(anchor)), before));
        var out := newer + [anchor] + older;
        var next := Start;
        if |out| > 0 {
          next := CursorOf(out[|out| - 1]);
        }
        return Ok(Page(out, next));
    }
  }
}
