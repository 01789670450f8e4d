/** InsertBatch (internal/store/batch.go) does what inserting one message at a time does. */
module Batches {
  import opened Prelude
  import opened Tables

  /** The first loop: message rows and postings only. */
  function BatchRows(tok: Tokenizer, db: DB, msgs: seq<Message>): DB {
    if msgs == [] then db
    else
      var before, m := BatchRows(tok, db, msgs[..|msgs| - 1]), msgs[|msgs| - 1];
      if Acceptable(m) then InsertRow(tok, before, m) else before
  }

  /** The newest timestamp per chat, accumulated in a map while the rows are written. */
  function Newest(msgs: seq<Message>): map<string, int> {
    if msgs == [] then map[]
    else
      var before, m := Newest(msgs[..|msgs| - 1]), msgs[|msgs| - 1];
      if Acceptable(m) then Advance(before, m.chatJID, m.ts) else before
  }

  function Advance(newest: map<string, int>, jid: string, ts: int): map<string, int> {
    if jid !in newest || ts > newest[jid] then newest[jid := ts] else newest
  }

  /** The second loop: one chat upsert per entry of the map, in the order it is walked. */
  function UpsertAll(chats: map<string, Chat>, newest: map<string, int>, order: seq<string>): map<string, Chat>
    requires forall jid :: jid in order ==> jid in newest
  {
    if order == [] then chats
    else
      var jid := order[|order| - 1];
      TouchChat(UpsertAll(chats, newest, order[..|order| - 1]), jid, newest[jid], 0)
  }

  /** Every chat in the map moved forward, the others as they were. */
  function Moved(chats: map<string, Chat>, newest: map<string, int>): map<string, Chat> {
    map jid | jid in chats.Keys + newest.Keys ::
      if jid in newest then ChatAfter(chats, jid, newest[jid], 0) else chats[jid]
  }

  function Among(newest: map<string, int>, order: seq<string>): map<string, int> {
    map jid | jid in newest && jid in order :: newest[jid]
  }

  lemma {:induction false} UpsertOrderIrrelevant(chats: map<string, Chat>, newest: map<string, int>,
                                               order: seq<string>)
    requires Distinct(order) && (forall jid :: jid in order ==> jid in newest)
    ensures UpsertAll(chats, newest, order) == Moved(chats, Among(newest, order))
  {
    if order == [] {
      assert Among(newest, order) == map[];
    } else {
      var before, jid := order[..|order| - 1], order[|order| - 1];
      UpsertOrderIrrelevant(chats, newest, before);
      AmongAppend(newest, before, jid);
      assert order == before + [jid];
      MoveTwice(chats, Among(newest, before), jid, newest[jid]);
    }
  }

  lemma AmongAppend(newest: map<string, int>, order: seq<string>, jid: string)
    requires jid !in order && jid in newest
    ensures Among(newest, order + [jid]) == Advance(Among(newest, order), jid, newest[jid])
  {}

  lemma MoveTwice(chats: map<string, Chat>, newest: map<string, int>, jid: string, ts: int)
    ensures TouchChat(Moved(chats, newest), jid, ts, 0) == Moved(chats, Advance(newest, jid, ts))
  {}

  lemma {:induction false} EachByParts(tok: Tokenizer, db: DB, msgs: seq<Message>)
    ensures InsertEach(tok, db, msgs).rows == BatchRows(tok, db, msgs).rows
    ensures InsertEach(tok, db, msgs).postings == BatchRows(tok, db, msgs).postings
    ensures InsertEach(tok, db, msgs).chats == Moved(db.chats, Newest(msgs))
    ensures BatchRows(tok, db, msgs).chats == db.chats
  {
    if msgs == [] {
      assert Moved(db.chats, map[]) == db.chats;
    } else {
      var before, m := msgs[..|msgs| - 1], msgs[|msgs| - 1];
      EachByParts(tok, db, before);
      if Acceptable(m) {
        MoveTwice(db.chats, Newest(before), m.chatJID, m.ts);
      }
    }
  }

  /**
   * One transaction with the maxima gathered in a map leaves the same rows, rowids, postings
   * and chat rows as message-by-message inserts, whatever order the map is walked in.
   */
  lemma BatchEqualsEach(tok: Tokenizer, db: DB, msgs: seq<Message>, order: seq<string>)
    requires Enumerates(order, Newest(msgs).Keys)
    ensures BatchRows(tok, db, msgs).(chats := UpsertAll(db.chats, Newest(msgs), order)) == InsertEach(tok, db, msgs)
  {
    EachByParts(tok, db, msgs);
    UpsertOrderIrrelevant(db.chats, Newest(msgs), order);
    assert Among(Newest(msgs), order) == Newest(msgs);
  }

  /** How many of the messages were new when their turn came. */
  function NewRows(tok: Tokenizer, db: DB, msgs: seq<Message>): nat {
    if msgs == [] then 0
    else
      var before, m := msgs[..|msgs| - 1], msgs[|msgs| - 1];
      NewRows(tok, db, before) +
      match Insert(tok, InsertEach(tok, db, before), m, false)
      case Ok((_, created)) => if created then 1 else 0
      case Err(_) => 0
  }

  /** The reported count is the growth of the table. */
  lemma {:induction false} NewRowsCount(tok: Tokenizer, db: DB, msgs: seq<Message>)
    ensures |InsertEach(tok, db, msgs).rows| == |db.rows| + NewRows(tok, db, msgs)
  {
    if msgs != [] {
      NewRowsCount(tok, db, msgs[..|msgs| - 1]);
    }
  }
}
