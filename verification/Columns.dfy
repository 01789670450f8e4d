/**
 * What each write does to the tables, column by column and for every database: the promises
 * of the SQL statements (internal/store/messages.go, batch.go) spelled out.
 */
module Columns {
  import opened Prelude
  import opened Tables

  // ---------------------------------------------------------------- messages

  /** The rowid is one more than the greatest, 1 in an empty table. */
  lemma NewRowid(rows: seq<Message>)
    requires WellFormed(rows)
    ensures rows == [] ==> NextID(rows) == 1
    ensures forall r :: r in rows ==> r.id < NextID(rows)
    ensures rows != [] ==> exists r :: r in rows && r.id + 1 == NextID(rows)
  {
    if rows != [] {
      var last := rows[|rows| - 1];
      assert last in rows && last.id + 1 == NextID(rows);
    }
  }

  /** The insert is refused exactly for a missing wa_id or chat. */
  lemma RefusedExactly(tok: Tokenizer, db: DB, m: Message, bump: bool)
    ensures Insert(tok, db, m, bump).Err? <==> m.waID == "" || m.chatJID == ""
    ensures Acceptable(m) <==> m.waID != "" && m.chatJID != ""
  {}

  /** A known wa_id leaves the rows alone; a new one adds the message as it is, with status "sent" if it has none. */
  lemma InsertedRows(tok: Tokenizer, db: DB, m: Message, bump: bool)
    requires WellFormed(db.rows)
    ensures
      var known, after := exists i :: 0 <= i < |db.rows| && db.rows[i].waID == m.waID, Inserted(tok, db, m, bump).rows;
      if known then after == db.rows
      else
        && |after| == |db.rows| + 1 && after[..|db.rows|] == db.rows
        && after[|db.rows|] == m.(id := after[|db.rows|].id, status := if m.status == "" then "sent" else m.status)
        && (forall r :: r in db.rows ==> r.id < after[|db.rows|].id)
        && (if db.rows == [] then after[0].id == 1 else exists r :: r in db.rows && r.id + 1 == after[|db.rows|].id)
  {
    NewRowid(db.rows);
    var after := Inserted(tok, db, m, bump).rows;
    hide WellFormed, NextID;
    if !Has(db.rows, m.waID) {
      assert after == db.rows + [Stored(m, NextID(db.rows))];
    }
  }

  /**
   * Exactly one row changes, and in it exactly the named columns; an operation that is refused
   * or finds no row changes nothing. No chat changes.
   */
  lemma AppliedUpdate(tok: Tokenizer, db: DB, waID: string, change: Change, i: int)
    requires WellFormed(db.rows) && 0 <= i < |db.rows|
    ensures
      var after := Apply(tok, db, DoUpdate(waID, change));
      var was, hit := db.rows[i], db.rows[i].waID == waID;
      && after.chats == db.chats && |after.rows| == |db.rows|
      && after.rows[i] ==
         (if !hit then was
          else match change
            case SetBody(body) => was.(body := body, edited := true)
            case SetRevoked => was.(revoked := true)
            case SetStatus(status) => if status == "" then was else was.(status := status)
            case SetStarred(starred) => was.(starred := starred))
  {
    hide Tokens;
    if Has(db.rows, waID) {
      var k := IndexOf(db.rows, waID);
      assert i != k ==> db.rows[i].waID != waID;
    } else {
      assert db.rows[i].waID != waID;
    }
  }

  // ---------------------------------------------------------------- chats

  /** COALESCE(last_ts, 0), compared with a timestamp. */
  predicate NoLater(last: Option<int>, ts: int) {
    match last
    case None => 0 <= ts
    case Some(t) => t <= ts
  }

  /** Every column but last_ts and unread. */
  predicate SameSettings(a: Chat, b: Chat) {
    a.name == b.name && a.pinned == b.pinned && a.archived == b.archived && a.muteUntil == b.muteUntil
  }

  /** A chat row as the first message creates it. */
  predicate IsNewChat(c: Chat, unread: int) {
    c.name == "" && !c.pinned && !c.archived && c.muteUntil == 0 && c.unread == unread
  }

  /**
   * One insert, on any database: every other chat stays as it is. The chat of the message keeps
   * its name, pin, archive flag and mute; its last_ts becomes the greater of the old one, a
   * missing one counting as zero, and the message's; a new bumping message adds one to unread.
   */
  lemma InsertedChats(tok: Tokenizer, db: DB, m: Message, bump: bool)
    ensures
      var after := Inserted(tok, db, m, bump).chats;
      && (forall jid :: jid != m.chatJID ==>
            (jid in after <==> jid in db.chats) && (jid in db.chats ==> after[jid] == db.chats[jid]))
      && m.chatJID in after && after[m.chatJID].lastTS.Some?
      && (var c := after[m.chatJID];
          var t := c.lastTS.value;
          var isNew := !(exists i :: 0 <= i < |db.rows| && db.rows[i].waID == m.waID);
          var added := if isNew && bump then 1 else 0;
          if m.chatJID in db.chats then
            var was := db.chats[m.chatJID];
            && SameSettings(c, was) && c.unread == was.unread + added
            && m.ts <= t && NoLater(was.lastTS, t)
            && (t == m.ts || was.lastTS == Some(t) || (was.lastTS == None && t == 0))
          else IsNewChat(c, added) && t == m.ts)
  {
    hide InsertRow;
    var isNew := !(exists i :: 0 <= i < |db.rows| && db.rows[i].waID == m.waID);
    assert isNew <==> !Has(db.rows, m.waID);
  }

  /** The messages of a batch that are written, for one chat. */
  predicate ForChat(m: Message, jid: string) {
    m.waID != "" && m.chatJID != "" && m.chatJID == jid
  }

  ghost predicate Concerns(msgs: seq<Message>, jid: string) {
    exists m :: m in msgs && ForChat(m, jid)
  }

  ghost predicate NoneLater(msgs: seq<Message>, jid: string, t: int) {
    forall m :: m in msgs && ForChat(m, jid) ==> m.ts <= t
  }

  ghost predicate Reaches(msgs: seq<Message>, jid: string, t: int) {
    exists m :: m in msgs && ForChat(m, jid) && m.ts == t
  }

  predicate SameAt(before: map<string, Chat>, after: map<string, Chat>, jid: string) {
    (jid in after <==> jid in before) && (jid in before ==> after[jid] == before[jid])
  }

  /** One chat before and after a batch. */
  ghost predicate BatchChat(before: map<string, Chat>, after: map<string, Chat>, msgs: seq<Message>, jid: string) {
    if !Concerns(msgs, jid) then SameAt(before, after, jid)
    else
      && jid in after && after[jid].lastTS.Some?
      && (var t := after[jid].lastTS.value;
          && NoneLater(msgs, jid, t)
          && (if jid in before then
                && SameSettings(after[jid], before[jid]) && after[jid].unread == before[jid].unread
                && NoLater(before[jid].lastTS, t)
                && (Reaches(msgs, jid, t) || before[jid].lastTS == Some(t) || (before[jid].lastTS == None && t == 0))
              else IsNewChat(after[jid], 0) && Reaches(msgs, jid, t)))
  }

  lemma OneMoreMessage(msgs: seq<Message>, m: Message, jid: string, t: int)
    ensures Concerns(msgs + [m], jid) <==> Concerns(msgs, jid) || ForChat(m, jid)
    ensures NoneLater(msgs + [m], jid, t) <==> NoneLater(msgs, jid, t) && (ForChat(m, jid) ==> m.ts <= t)
    ensures Reaches(msgs + [m], jid, t) <==> Reaches(msgs, jid, t) || (ForChat(m, jid) && m.ts == t)
  {
    hide ForChat;
    assert forall x :: x in msgs + [m] <==> x in msgs || x == m;
  }

  lemma LaterStill(msgs: seq<Message>, jid: string, t: int, u: int)
    requires NoneLater(msgs, jid, t) && t <= u
    ensures NoneLater(msgs, jid, u)
  {}

  lemma NotConcerned(msgs: seq<Message>, jid: string, t: int)
    requires !Concerns(msgs, jid)
    ensures NoneLater(msgs, jid, t) && !Reaches(msgs, jid, t)
  {
    hide ForChat;
  }

  /** A message of another chat. */
  lemma BatchChatSkip(before: map<string, Chat>, mid: map<string, Chat>, after: map<string, Chat>,
                      msgs: seq<Message>, m: Message, jid: string)
    requires BatchChat(before, mid, msgs, jid) && SameAt(mid, after, jid) && !ForChat(m, jid)
    ensures BatchChat(before, after, msgs + [m], jid)
  {
    hide Concerns, NoneLater, Reaches, ForChat, SameSettings, IsNewChat, NoLater;
    OneMoreMessage(msgs, m, jid, if jid in mid && mid[jid].lastTS.Some? then mid[jid].lastTS.value else 0);
  }

  /** A message of this chat. */
  lemma BatchChatStep(tok: Tokenizer, start: DB, mid: DB, msgs: seq<Message>, m: Message, jid: string)
    requires BatchChat(start.chats, mid.chats, msgs, jid) && ForChat(m, jid)
    ensures BatchChat(start.chats, Inserted(tok, mid, m, false).chats, msgs + [m], jid)
  {
    var after := Inserted(tok, mid, m, false).chats;
    InsertedChats(tok, mid, m, false);
    assert m.chatJID == jid;
    hide Inserted, Concerns, NoneLater, Reaches, ForChat;
    var t := after[jid].lastTS.value;
    OneMoreMessage(msgs, m, jid, t);
    if Concerns(msgs, jid) {
      LaterStill(msgs, jid, mid.chats[jid].lastTS.value, t);
    } else {
      NotConcerned(msgs, jid, t);
    }
  }

  /**
   * A batch, on any database and chat by chat: a chat none of its messages belongs to stays as
   * it is; the others keep everything but last_ts, which becomes the greatest of the old one
   * and the messages'; no unread count changes, and new chats are created read.
   */
  lemma {:induction false} InsertEachChats(tok: Tokenizer, db: DB, msgs: seq<Message>, jid: string)
    ensures BatchChat(db.chats, InsertEach(tok, db, msgs).chats, msgs, jid)
  {
    if msgs != [] {
      var before, m := msgs[..|msgs| - 1], msgs[|msgs| - 1];
      assert msgs == before + [m];
      InsertEachChats(tok, db, before, jid);
      var mid := InsertEach(tok, db, before);
      if ForChat(m, jid) {
        BatchChatStep(tok, db, mid, before, m, jid);
      } else {
        InsertedChats(tok, mid, m, false);
        BatchChatSkip(db.chats, mid.chats, InsertEach(tok, db, msgs).chats, before, m, jid);
      }
    } else {
      assert !Concerns(msgs, jid);
    }
  }

  /** The row is the message as Insert writes it. */
  predicate IsRowOf(r: Message, m: Message) {
    m.waID != "" && m.chatJID != "" && r == m.(id := r.id, status := if m.status == "" then "sent" else m.status)
  }

  ghost predicate ComesFrom(r: Message, msgs: seq<Message>) {
    exists m :: m in msgs && IsRowOf(r, m)
  }

  lemma ComesFromMore(r: Message, msgs: seq<Message>, m: Message)
    ensures ComesFrom(r, msgs) || IsRowOf(r, m) ==> ComesFrom(r, msgs + [m])
  {
    hide IsRowOf;
    assert forall x :: x in msgs + [m] <==> x in msgs || x == m;
  }

  /** The rows after a batch: those that were there, and new ones of its own messages, none missing. */
  ghost predicate BatchRowsAre(before: seq<Message>, after: seq<Message>, msgs: seq<Message>) {
    && |before| <= |after| && after[..|before|] == before
    && (forall i :: |before| <= i < |after| ==> ComesFrom(after[i], msgs))
    && (forall m :: m in msgs && m.waID != "" && m.chatJID != "" ==> exists r :: r in after && r.waID == m.waID)
  }

  lemma BatchRowsStep(start: seq<Message>, mid: seq<Message>, after: seq<Message>, msgs: seq<Message>, m: Message)
    requires BatchRowsAre(start, mid, msgs)
    requires |mid| <= |after| <= |mid| + 1 && after[..|mid|] == mid
    requires |after| > |mid| ==> IsRowOf(after[|mid|], m)
    requires m.waID != "" && m.chatJID != "" ==> exists r :: r in after && r.waID == m.waID
    ensures BatchRowsAre(start, after, msgs + [m])
  {
    hide IsRowOf, ComesFrom;
    assert forall x :: x in msgs + [m] <==> x in msgs || x == m;
    assert forall i :: 0 <= i < |mid| ==> after[i] == mid[i];
    assert forall r :: r in mid ==> r in after;
    assert after[..|start|] == mid[..|start|];
    forall i | |start| <= i < |after| ensures ComesFrom(after[i], msgs + [m]) {
      ComesFromMore(after[i], msgs, m);
    }
  }

  /**
   * A batch keeps every row that was there, adds only rows of its own messages, each as Insert
   * would write it, and leaves every message it may write stored.
   */
  lemma {:induction false} InsertEachRows(tok: Tokenizer, db: DB, msgs: seq<Message>)
    requires WellFormed(db.rows)
    ensures BatchRowsAre(db.rows, InsertEach(tok, db, msgs).rows, msgs)
    ensures WellFormed(InsertEach(tok, db, msgs).rows)
  {
    hide WellFormed, BatchRowsAre, IsRowOf, Inserted;
    if msgs == [] {
      NoRows(db.rows);
    } else {
      var before, m := msgs[..|msgs| - 1], msgs[|msgs| - 1];
      assert msgs == before + [m];
      InsertEachRows(tok, db, before);
      var mid := InsertEach(tok, db, before);
      if Acceptable(m) {
        OneMoreRow(tok, mid, m);
      }
      BatchRowsStep(db.rows, mid.rows, InsertEach(tok, db, msgs).rows, before, m);
    }
  }

  lemma NoRows(rows: seq<Message>)
    ensures BatchRowsAre(rows, rows, [])
  {}

  lemma OneMoreRow(tok: Tokenizer, db: DB, m: Message)
    requires WellFormed(db.rows) && m.waID != "" && m.chatJID != ""
    ensures
      var after := Inserted(tok, db, m, false).rows;
      && WellFormed(after) && |db.rows| <= |after| <= |db.rows| + 1 && after[..|db.rows|] == db.rows
      && (|after| > |db.rows| ==> IsRowOf(after[|db.rows|], m))
      && (exists r :: r in after && r.waID == m.waID)
  {
    InsertedKeeps(tok, db, m, false);
    InsertedRows(tok, db, m, false);
    hide WellFormed, Inserted;
    var after := Inserted(tok, db, m, false).rows;
    var i :| 0 <= i < |after| && after[i].waID == m.waID;
    assert after[i] in after;
  }

  /** Naming a chat sets its name and nothing else; an unknown chat is created without last_ts, read and unpinned. */
  lemma NamedChat(tok: Tokenizer, db: DB, jid: string, name: string)
    ensures
      var after := Apply(tok, db, DoUpsertChat(jid, name));
      && after.rows == db.rows && after.postings == db.postings
      && (forall j :: j != jid || jid == "" ==>
            (j in after.chats <==> j in db.chats) && (j in db.chats ==> after.chats[j] == db.chats[j]))
      && (jid != "" ==>
            jid in after.chats
            && after.chats[jid] == if jid in db.chats then db.chats[jid].(name := name)
                                   else Chat(name, None, 0, false, false, 0))
  {}

  /** Marking a chat read zeroes its counter and nothing else; an unknown chat is not created. */
  lemma ReadChat(tok: Tokenizer, db: DB, jid: string)
    ensures
      var after := Apply(tok, db, DoMarkRead(jid));
      && after.rows == db.rows && after.postings == db.postings && after.chats.Keys == db.chats.Keys
      && (forall j :: j in db.chats ==>
            after.chats[j] == if j == jid && jid != "" then db.chats[j].(unread := 0) else db.chats[j])
  {}
}
