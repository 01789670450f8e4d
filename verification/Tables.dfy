/**
 * The message store (internal/store) as values: the messages and chats tables, the
 * full-text postings kept by the schema's triggers, and what each statement does to them.
 */
module Tables {
  import opened Prelude

  type Tokenizer = string -> seq<string>

  /** One row of the messages table; an empty string stands for a NULL text column. */
  datatype Message = Message(
    id: int, waID: string, chatJID: string, senderJID: string, ts: int, body: string,
    mediaPath: string, mediaType: string, status: string,
    quotedWAID: string, quotedBody: string, quotedSender: string, edited: bool, revoked: bool,
    linkURL: string, linkTitle: string, linkDesc: string, starred: bool)

  /** One row of the chats table without its key; `lastTS` is nullable. */
  datatype Chat = Chat(name: string, lastTS: Option<int>, unread: int,
                       pinned: bool, archived: bool, muteUntil: int)

  /** One token occurrence in the full-text index. */
  datatype Posting = Posting(token: string, rowid: int, position: nat)

  datatype DB = DB(rows: seq<Message>, chats: map<string, Chat>, postings: multiset<Posting>)

  const StatusSent := "sent"
  const StatusPending := "pending"

  function Empty(): DB {
    DB([], map[], multiset{})
  }

  // ---------------------------------------------------------------- the messages table

  function NextID(rows: seq<Message>): int {
    if rows == [] then 1 else rows[|rows| - 1].id + 1
  }

  predicate Has(rows: seq<Message>, waID: string) {
    exists i :: 0 <= i < |rows| && rows[i].waID == waID
  }

  /** The constraints of the schema: rowids grow, wa_id is unique and never empty. */
  ghost predicate WellFormed(rows: seq<Message>) {
    && (forall i :: 0 <= i < |rows| ==> 1 <= rows[i].id && rows[i].waID != "" && rows[i].chatJID != "")
    && (forall i, j :: 0 <= i < j < |rows| ==> rows[i].id < rows[j].id)
    && (forall i, j :: 0 <= i < j < |rows| ==> rows[i].waID != rows[j].waID)
  }

  /** What Insert writes for `m`: the rowid is the database's and an empty status means sent. */
  function Stored(m: Message, id: int): Message {
    m.(id := id, status := if m.status == "" then StatusSent else m.status)
  }

  function Tokens(tok: Tokenizer, id: int, body: string): multiset<Posting> {
    var t := tok(body);
    multiset(seq(|t|, i requires 0 <= i < |t| => Posting(t[i], id, i)))
  }

  /** INSERT ... ON CONFLICT(wa_id) DO NOTHING, with trigger messages_ai. */
  function InsertRow(tok: Tokenizer, db: DB, m: Message): DB {
    if Has(db.rows, m.waID) then db
    else
      var row := Stored(m, NextID(db.rows));
      db.(rows := db.rows + [row], postings := db.postings + Tokens(tok, row.id, row.body))
  }

  datatype Change = SetBody(body: string) | SetRevoked | SetStatus(status: string) | SetStarred(starred: bool)

  function Changed(m: Message, change: Change): Message {
    match change
    case SetBody(body) => m.(body := body, edited := true)
    case SetRevoked => m.(revoked := true)
    case SetStatus(status) => m.(status := status)
    case SetStarred(starred) => m.(starred := starred)
  }

  /** UPDATE messages ... WHERE wa_id = ?, with trigger messages_au on the row it hits. */
  function UpdateRow(tok: Tokenizer, db: DB, waID: string, change: Change): DB {
    if !Has(db.rows, waID) then db
    else
      var i := IndexOf(db.rows, waID);
      var before, after := db.rows[i], Changed(db.rows[i], change);
      db.(rows := db.rows[i := after],
          postings := db.postings - Tokens(tok, before.id, before.body) + Tokens(tok, after.id, after.body))
  }

  function IndexOf(rows: seq<Message>, waID: string): (i: int)
    requires Has(rows, waID)
    ensures 0 <= i < |rows| && rows[i].waID == waID
    ensures forall j :: 0 <= j < i ==> rows[j].waID != waID
  {
    if rows[0].waID == waID then 0
    else
      assert Has(rows[1..], waID) by {
        var k :| 0 <= k < |rows| && rows[k].waID == waID;
        assert rows[1..][k - 1].waID == waID;
      }
      1 + IndexOf(rows[1..], waID)
  }

  // ---------------------------------------------------------------- the chats table

  /** COALESCE(last_ts, 0). */
  function LastTS(c: Chat): int {
    match c.lastTS
    case None => 0
    case Some(ts) => ts
  }

  function ChatAfter(chats: map<string, Chat>, jid: string, ts: int, unreadDelta: int): Chat {
    if jid in chats
    then chats[jid].(lastTS := Some(Max(LastTS(chats[jid]), ts)), unread := chats[jid].unread + unreadDelta)
    else Chat("", Some(ts), unreadDelta, false, false, 0)
  }

  /** The upsert both insert paths run on the chat row. */
  function TouchChat(chats: map<string, Chat>, jid: string, ts: int, unreadDelta: int): map<string, Chat> {
    chats[jid := ChatAfter(chats, jid, ts, unreadDelta)]
  }

  // ---------------------------------------------------------------- the store's operations

  predicate Acceptable(m: Message) {
    m.waID != "" && m.chatJID != ""
  }

  function Inserted(tok: Tokenizer, db: DB, m: Message, bumpUnread: bool): DB {
    var created := !Has(db.rows, m.waID);
    var db1 := InsertRow(tok, db, m);
    db1.(chats := TouchChat(db.chats, m.chatJID, m.ts, if created && bumpUnread then 1 else 0))
  }

  /** The row count tells the caller whether the message is new. */
  function Insert(tok: Tokenizer, db: DB, m: Message, bumpUnread: bool): Result<(DB, bool)> {
    if m.waID == "" then Err("WAID is required")
    else if m.chatJID == "" then Err("ChatJID is required")
    else Ok((Inserted(tok, db, m, bumpUnread), !Has(db.rows, m.waID)))
  }

  /** Insert without unread, message by message; entries Insert would refuse are skipped. */
  function InsertEach(tok: Tokenizer, db: DB, msgs: seq<Message>): DB {
    if msgs == [] then db
    else
      var before, m := InsertEach(tok, db, msgs[..|msgs| - 1]), msgs[|msgs| - 1];
      if Acceptable(m) then Inserted(tok, before, m, false) else before
  }

  function UpsertChat(db: DB, jid: string, name: string): DB {
    if jid == "" then db
    else if jid in db.chats then db.(chats := db.chats[jid := db.chats[jid].(name := name)])
    else db.(chats := db.chats[jid := Chat(name, None, 0, false, false, 0)])
  }

  function MarkRead(db: DB, jid: string): DB {
    if jid in db.chats then db.(chats := db.chats[jid := db.chats[jid].(unread := 0)]) else db
  }

  datatype StoreOp =
    | DoInsert(m: Message, bumpUnread: bool)
    | DoInsertBatch(msgs: seq<Message>)
    | DoUpdate(waID: string, change: Change)
    | DoUpsertChat(jid: string, name: string)
    | DoMarkRead(jid: string)

  /** An operation the store refuses leaves it as it was. */
  function Apply(tok: Tokenizer, db: DB, op: StoreOp): DB {
    match op
    case DoInsert(m, bump) => if Acceptable(m) then Inserted(tok, db, m, bump) else db
    case DoInsertBatch(msgs) => InsertEach(tok, db, msgs)
    case DoUpdate(waID, change) =>
      if waID == "" || change == SetStatus("") then db else UpdateRow(tok, db, waID, change)
    case DoUpsertChat(jid, name) => UpsertChat(db, jid, name)
    case DoMarkRead(jid) => if jid == "" then db else MarkRead(db, jid)
  }

  function ApplyAll(tok: Tokenizer, db: DB, ops: seq<StoreOp>): DB {
    if ops == [] then db else Apply(tok, ApplyAll(tok, db, ops[..|ops| - 1]), ops[|ops| - 1])
  }

  // ---------------------------------------------------------------- what every operation keeps

  predicate SameKey(a: Message, b: Message) {
    a.id == b.id && a.waID == b.waID && a.chatJID == b.chatJID && a.ts == b.ts
  }

  /** Rows are never removed, and what identifies and orders a row never changes. */
  ghost predicate Evolves(before: seq<Message>, after: seq<Message>) {
    |before| <= |after| && forall i :: 0 <= i < |before| ==> SameKey(before[i], after[i])
  }

  /** Chat rows are never removed, and a recorded last_ts never goes back. */
  ghost predicate ChatsEvolve(before: map<string, Chat>, after: map<string, Chat>) {
    forall jid :: jid in before ==>
      && jid in after
      && LastTS(before[jid]) <= LastTS(after[jid])
      && (before[jid].lastTS.Some? ==> after[jid].lastTS.Some?)
      && after[jid].archived == before[jid].archived
  }

  lemma InsertRowKeeps(tok: Tokenizer, db: DB, m: Message)
    requires WellFormed(db.rows) && Acceptable(m)
    ensures WellFormed(InsertRow(tok, db, m).rows)
    ensures Evolves(db.rows, InsertRow(tok, db, m).rows)
    ensures Has(InsertRow(tok, db, m).rows, m.waID)
  {
    if !Has(db.rows, m.waID) {
      var row := Stored(m, NextID(db.rows));
      NewRowFits(db.rows, row);
      hide WellFormed, Evolves, Has, Tokens;
    }
  }

  lemma NewRowFits(rows: seq<Message>, row: Message)
    requires WellFormed(rows) && Acceptable(row) && !Has(rows, row.waID) && row.id == NextID(rows)
    ensures WellFormed(rows + [row]) && Evolves(rows, rows + [row]) && Has(rows + [row], row.waID)
  {
    var after := rows + [row];
    assert after[|rows|] == row;
    assert forall i :: 0 <= i < |rows| ==> after[i] == rows[i] && rows[i].waID != row.waID;
  }

  lemma InsertedKeeps(tok: Tokenizer, db: DB, m: Message, bump: bool)
    requires WellFormed(db.rows) && Acceptable(m)
    ensures WellFormed(Inserted(tok, db, m, bump).rows)
    ensures Evolves(db.rows, Inserted(tok, db, m, bump).rows)
    ensures ChatsEvolve(db.chats, Inserted(tok, db, m, bump).chats)
    ensures Has(Inserted(tok, db, m, bump).rows, m.waID)
    ensures m.chatJID in Inserted(tok, db, m, bump).chats
    ensures m.ts <= LastTS(Inserted(tok, db, m, bump).chats[m.chatJID])
  {
    InsertRowKeeps(tok, db, m);
  }

  lemma EvolvesTransitive(a: seq<Message>, b: seq<Message>, c: seq<Message>)
    requires Evolves(a, b) && Evolves(b, c)
    ensures Evolves(a, c)
  {}

  lemma {:induction false} InsertEachKeeps(tok: Tokenizer, db: DB, msgs: seq<Message>)
    requires WellFormed(db.rows)
    ensures WellFormed(InsertEach(tok, db, msgs).rows)
    ensures Evolves(db.rows, InsertEach(tok, db, msgs).rows)
    ensures ChatsEvolve(db.chats, InsertEach(tok, db, msgs).chats)
  {
    if msgs != [] {
      var before, m := msgs[..|msgs| - 1], msgs[|msgs| - 1];
      InsertEachKeeps(tok, db, before);
      if Acceptable(m) {
        InsertedKeeps(tok, InsertEach(tok, db, before), m, false);
      }
    }
  }

  lemma UpdateRowKeeps(tok: Tokenizer, db: DB, waID: string, change: Change)
    requires WellFormed(db.rows)
    ensures WellFormed(UpdateRow(tok, db, waID, change).rows)
    ensures Evolves(db.rows, UpdateRow(tok, db, waID, change).rows)
    ensures UpdateRow(tok, db, waID, change).chats == db.chats
  {
    hide WellFormed;
    SameKeysWellFormed(db.rows, UpdateRow(tok, db, waID, change).rows);
  }

  /** The row with that wa_id changes, every other row stays. */
  ghost predicate OnlyThatRow(before: seq<Message>, after: seq<Message>, waID: string, change: Change) {
    && |after| == |before|
    && forall i :: 0 <= i < |after| ==>
         after[i] == if before[i].waID == waID then Changed(before[i], change) else before[i]
  }

  lemma RowsAfterUpdate(tok: Tokenizer, db: DB, waID: string, change: Change)
    requires WellFormed(db.rows)
    ensures OnlyThatRow(db.rows, UpdateRow(tok, db, waID, change).rows, waID, change)
  {
    hide Changed, Tokens;
    if Has(db.rows, waID) {
      var k := IndexOf(db.rows, waID);
      assert forall i :: 0 <= i < |db.rows| && i != k ==> db.rows[i].waID != waID;
    } else {
      assert forall i :: 0 <= i < |db.rows| ==> db.rows[i].waID != waID;
    }
  }

  lemma SameKeysWellFormed(before: seq<Message>, after: seq<Message>)
    requires WellFormed(before) && |before| == |after|
    requires forall i :: 0 <= i < |before| ==> SameKey(before[i], after[i])
    ensures WellFormed(after)
  {}

  lemma ChatOpKeeps(db: DB, jid: string, name: string)
    ensures ChatsEvolve(db.chats, UpsertChat(db, jid, name).chats) && UpsertChat(db, jid, name).rows == db.rows
    ensures ChatsEvolve(db.chats, MarkRead(db, jid).chats) && MarkRead(db, jid).rows == db.rows
    ensures ChatsEvolve(db.chats, db.chats) && Evolves(db.rows, db.rows)
  {}

  /** Every operation keeps the schema's constraints, every stored row and every last_ts. */
  lemma ApplyKeeps(tok: Tokenizer, db: DB, op: StoreOp)
    requires WellFormed(db.rows)
    ensures WellFormed(Apply(tok, db, op).rows)
    ensures Evolves(db.rows, Apply(tok, db, op).rows)
    ensures ChatsEvolve(db.chats, Apply(tok, db, op).chats)
  {
    hide WellFormed, Evolves, ChatsEvolve, Inserted, UpdateRow, InsertEach;
    ChatOpKeeps(db, "", "");
    match op
    case DoInsert(m, bump) =>
      if Acceptable(m) {
        InsertedKeeps(tok, db, m, bump);
      }
    case DoInsertBatch(msgs) => InsertEachKeeps(tok, db, msgs);
    case DoUpdate(waID, change) => UpdateRowKeeps(tok, db, waID, change);
    case DoUpsertChat(jid, name) => ChatOpKeeps(db, jid, name);
    case DoMarkRead(jid) => ChatOpKeeps(db, jid, "");
  }

  lemma {:induction false} ApplyAllKeeps(tok: Tokenizer, db: DB, ops: seq<StoreOp>)
    requires WellFormed(db.rows)
    ensures WellFormed(ApplyAll(tok, db, ops).rows)
    ensures Evolves(db.rows, ApplyAll(tok, db, ops).rows)
    ensures ChatsEvolve(db.chats, ApplyAll(tok, db, ops).chats)
  {
    if ops != [] {
      ApplyAllKeeps(tok, db, ops[..|ops| - 1]);
      ApplyKeeps(tok, ApplyAll(tok, db, ops[..|ops| - 1]), ops[|ops| - 1]);
    }
  }

  /** Inserting the same message again changes nothing, whichever bump flag it carries. */
  lemma RedeliveryIsIdempotent(tok: Tokenizer, db: DB, m: Message, bump: bool, again: bool)
    requires WellFormed(db.rows) && Acceptable(m)
    ensures
      var once := Inserted(tok, db, m, bump);
      Inserted(tok, once, m, again) == once && Insert(tok, once, m, again) == Ok((once, false))
  {
    InsertRowKeeps(tok, db, m);
    var once := Inserted(tok, db, m, bump);
    assert TouchChat(once.chats, m.chatJID, m.ts, 0) == once.chats;
  }

  /**
   * Naming a chat and inserting into it commute exactly when the chat exists already or the
   * timestamp is not negative: a row created by the name alone has no last_ts, and a missing
   * last_ts counts as zero.
   */
  lemma NamingCommutesWithInsert(tok: Tokenizer, db: DB, m: Message, bump: bool, name: string)
    requires Acceptable(m)
    ensures
      (UpsertChat(Inserted(tok, db, m, bump), m.chatJID, name)
          == Inserted(tok, UpsertChat(db, m.chatJID, name), m, bump))
      <==> (m.chatJID in db.chats || m.ts >= 0)
  {
    hide InsertRow, Has;
    var jid := m.chatJID;
    var a := UpsertChat(Inserted(tok, db, m, bump), jid, name);
    var b := Inserted(tok, UpsertChat(db, jid, name), m, bump);
    RowsIgnoreChats(tok, db, UpsertChat(db, jid, name), m);
    assert a.chats[jid].(lastTS := None) == b.chats[jid].(lastTS := None);
    assert forall j :: j != jid ==> (j in a.chats <==> j in b.chats) && (j in a.chats ==> a.chats[j] == b.chats[j]);
    if m.chatJID in db.chats || m.ts >= 0 {
      assert a.chats[jid] == b.chats[jid];
      assert a.chats == b.chats;
    } else {
      assert a.chats[jid].lastTS == Some(m.ts) && b.chats[jid].lastTS == Some(0);
    }
  }

  lemma RowsIgnoreChats(tok: Tokenizer, a: DB, b: DB, m: Message)
    requires a.rows == b.rows && a.postings == b.postings
    ensures InsertRow(tok, a, m).rows == InsertRow(tok, b, m).rows
    ensures InsertRow(tok, a, m).postings == InsertRow(tok, b, m).postings
  {}
}
