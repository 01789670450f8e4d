/**
 * Delivery-order convergence: from an empty store, the same messages give the same tables
 * in whatever order and however often they arrive (internal/store/messages.go, Insert).
 */
module Deliveries {
  import opened Prelude
  import opened Tables

  datatype Delivery = Delivery(m: Message, bump: bool)

  function Deliver(tok: Tokenizer, ds: seq<Delivery>): DB {
    if ds == [] then Empty()
    else
      var d := ds[|ds| - 1];
      Apply(tok, Deliver(tok, ds[..|ds| - 1]), DoInsert(d.m, d.bump))
  }

  /** One value and one bump flag per wa_id. */
  ghost predicate Consistent(ds: seq<Delivery>) {
    forall d, e :: d in ds && e in ds && d.m.waID == e.m.waID ==> d == e
  }

  predicate ForChat(d: Delivery, jid: string) {
    Acceptable(d.m) && d.m.chatJID == jid
  }

  /** The rows without the rowids the database chose. */
  function Contents(rows: seq<Message>): set<Message> {
    set r | r in rows :: r.(id := 0)
  }

  function Expected(ds: seq<Delivery>): set<Message> {
    set d | d in ds && Acceptable(d.m) :: Stored(d.m, 0)
  }

  function ChatKeys(ds: seq<Delivery>): set<string> {
    set d | d in ds && Acceptable(d.m) :: d.m.chatJID
  }

  /** The distinct messages that count as unread in a chat. */
  function Bumping(ds: seq<Delivery>, jid: string): set<string> {
    set d | d in ds && ForChat(d, jid) && d.bump :: d.m.waID
  }

  ghost predicate IsNewest(ds: seq<Delivery>, jid: string, ts: int) {
    && (exists d :: d in ds && ForChat(d, jid) && d.m.ts == ts)
    && (forall d :: d in ds && ForChat(d, jid) ==> d.m.ts <= ts)
  }

  ghost predicate ChatSummarises(c: Chat, ds: seq<Delivery>, jid: string) {
    && c.lastTS.Some? && IsNewest(ds, jid, c.lastTS.value)
    && c == Chat("", c.lastTS, |Bumping(ds, jid)|, false, false, 0)
  }

  ghost predicate ChatsSummarise(chats: map<string, Chat>, ds: seq<Delivery>) {
    chats.Keys == ChatKeys(ds) && forall jid :: jid in chats ==> ChatSummarises(chats[jid], ds, jid)
  }

  ghost predicate Summarises(db: DB, ds: seq<Delivery>) {
    Contents(db.rows) == Expected(ds) && ChatsSummarise(db.chats, ds)
  }

  lemma HasContent(rows: seq<Message>, ds: seq<Delivery>, waID: string)
    requires Contents(rows) == Expected(ds)
    ensures Has(rows, waID) <==> exists d :: d in ds && Acceptable(d.m) && d.m.waID == waID
  {
    if Has(rows, waID) {
      var i :| 0 <= i < |rows| && rows[i].waID == waID;
      assert rows[i].(id := 0) in Expected(ds);
    }
    if d :| d in ds && Acceptable(d.m) && d.m.waID == waID {
      assert Stored(d.m, 0) in Contents(rows);
      var r :| r in rows && r.(id := 0) == Stored(d.m, 0);
    }
  }

  lemma AppendSets(ds: seq<Delivery>, d: Delivery, jid: string)
    ensures Expected(ds + [d]) == Expected(ds) + if Acceptable(d.m) then {Stored(d.m, 0)} else {}
    ensures ChatKeys(ds + [d]) == ChatKeys(ds) + if Acceptable(d.m) then {d.m.chatJID} else {}
    ensures Bumping(ds + [d], jid) == Bumping(ds, jid) + if ForChat(d, jid) && d.bump then {d.m.waID} else {}
  {
    assert forall e :: e in ds + [d] <==> e in ds || e == d;
  }

  lemma ContentsAppend(rows: seq<Message>, row: Message)
    ensures Contents(rows + [row]) == Contents(rows) + {row.(id := 0)}
  {
    assert forall r :: r in rows + [row] <==> r in rows || r == row;
  }

  lemma NewestElsewhere(ds: seq<Delivery>, d: Delivery, jid: string, ts: int)
    requires IsNewest(ds, jid, ts) && !ForChat(d, jid)
    ensures IsNewest(ds + [d], jid, ts)
  {
    hide ForChat;
    var e :| e in ds && ForChat(e, jid) && e.m.ts == ts;
    assert e in ds + [d];
  }

  lemma NewestHere(ds: seq<Delivery>, d: Delivery, jid: string, ts: int)
    requires IsNewest(ds, jid, ts) && ForChat(d, jid)
    ensures IsNewest(ds + [d], jid, Max(ts, d.m.ts))
  {
    hide ForChat;
    var e :| e in ds && ForChat(e, jid) && e.m.ts == ts;
    assert e in ds + [d] && d in ds + [d];
  }

  lemma FirstInChat(ds: seq<Delivery>, d: Delivery, jid: string)
    requires jid !in ChatKeys(ds) && ForChat(d, jid)
    ensures IsNewest(ds + [d], jid, d.m.ts) && Bumping(ds, jid) == {}
  {
    assert forall e :: e in ds && ForChat(e, jid) ==> e.m.chatJID in ChatKeys(ds);
    assert d in ds + [d];
  }

  /** A chat the delivery does not concern is summarised as before. */
  lemma OtherChat(c: Chat, ds: seq<Delivery>, d: Delivery, jid: string)
    requires ChatSummarises(c, ds, jid) && !ForChat(d, jid)
    ensures ChatSummarises(c, ds + [d], jid)
  {
    hide IsNewest;
    AppendSets(ds, d, jid);
    NewestElsewhere(ds, d, jid, c.lastTS.value);
  }

  lemma ThisChat(chats: map<string, Chat>, ds: seq<Delivery>, d: Delivery, delta: int)
    requires Acceptable(d.m)
    requires d.m.chatJID in chats <==> d.m.chatJID in ChatKeys(ds)
    requires d.m.chatJID in chats ==> ChatSummarises(chats[d.m.chatJID], ds, d.m.chatJID)
    requires delta == |Bumping(ds + [d], d.m.chatJID)| - |Bumping(ds, d.m.chatJID)|
    ensures ChatSummarises(ChatAfter(chats, d.m.chatJID, d.m.ts, delta), ds + [d], d.m.chatJID)
  {
    hide IsNewest, ChatKeys, Bumping;
    var jid := d.m.chatJID;
    if jid in chats {
      NewestHere(ds, d, jid, chats[jid].lastTS.value);
    } else {
      FirstInChat(ds, d, jid);
    }
  }

  lemma RowsAfter(tok: Tokenizer, db: DB, ds: seq<Delivery>, d: Delivery)
    requires Contents(db.rows) == Expected(ds) && Consistent(ds + [d]) && Acceptable(d.m)
    ensures Contents(InsertRow(tok, db, d.m).rows) == Expected(ds + [d])
    ensures Has(db.rows, d.m.waID) ==> d in ds
    ensures !Has(db.rows, d.m.waID) ==> d.m.waID !in Bumping(ds, d.m.chatJID)
  {
    HasContent(db.rows, ds, d.m.waID);
    AppendSets(ds, d, "");
    if Has(db.rows, d.m.waID) {
      var e :| e in ds && Acceptable(e.m) && e.m.waID == d.m.waID;
      assert e in ds + [d] && d in ds + [d];
      assert Stored(d.m, 0) in Expected(ds);
    } else {
      ContentsAppend(db.rows, Stored(d.m, NextID(db.rows)));
    }
  }

  lemma UnreadDelta(db: DB, ds: seq<Delivery>, d: Delivery)
    requires Acceptable(d.m)
    requires Has(db.rows, d.m.waID) ==> d in ds
    requires !Has(db.rows, d.m.waID) ==> d.m.waID !in Bumping(ds, d.m.chatJID)
    ensures |Bumping(ds + [d], d.m.chatJID)| - |Bumping(ds, d.m.chatJID)|
         == if !Has(db.rows, d.m.waID) && d.bump then 1 else 0
  {
    AppendSets(ds, d, d.m.chatJID);
    if d in ds && d.bump {
      assert ForChat(d, d.m.chatJID) && d.m.waID in Bumping(ds, d.m.chatJID);
      assert Bumping(ds + [d], d.m.chatJID) == Bumping(ds, d.m.chatJID);
    }
  }

  lemma ChatsAfter(chats: map<string, Chat>, ds: seq<Delivery>, d: Delivery, delta: int)
    requires ChatsSummarise(chats, ds) && Acceptable(d.m)
    requires delta == |Bumping(ds + [d], d.m.chatJID)| - |Bumping(ds, d.m.chatJID)|
    ensures ChatsSummarise(TouchChat(chats, d.m.chatJID, d.m.ts, delta), ds + [d])
  {
    hide Expected, ChatSummarises, Bumping, ChatAfter;
    AppendSets(ds, d, "");
    ThisChat(chats, ds, d, delta);
    forall other | other in chats && other != d.m.chatJID
      ensures ChatSummarises(chats[other], ds + [d], other)
    {
      OtherChat(chats[other], ds, d, other);
    }
  }

  lemma OneDelivery(tok: Tokenizer, db: DB, ds: seq<Delivery>, d: Delivery)
    requires Summarises(db, ds) && Consistent(ds + [d]) && Acceptable(d.m)
    ensures Summarises(Inserted(tok, db, d.m, d.bump), ds + [d])
  {
    hide Expected, Contents, Consistent, InsertRow, ChatsSummarise, TouchChat;
    RowsAfter(tok, db, ds, d);
    UnreadDelta(db, ds, d);
    ChatsAfter(db.chats, ds, d, if !Has(db.rows, d.m.waID) && d.bump then 1 else 0);
  }

  /** The tables as a function of the set of delivered messages alone. */
  lemma {:induction false} DeliveredTables(tok: Tokenizer, ds: seq<Delivery>)
    requires Consistent(ds)
    ensures Summarises(Deliver(tok, ds), ds)
    ensures WellFormed(Deliver(tok, ds).rows)
  {
    if ds != [] {
      var before, d := ds[..|ds| - 1], ds[|ds| - 1];
      assert ds == before + [d];
      DeliveredTables(tok, before);
      ApplyKeeps(tok, Deliver(tok, before), DoInsert(d.m, d.bump));
      if Acceptable(d.m) {
        OneDelivery(tok, Deliver(tok, before), before, d);
      } else {
        AppendSets(before, d, "");
        forall jid | jid in Deliver(tok, before).chats
          ensures ChatSummarises(Deliver(tok, before).chats[jid], ds, jid)
        {
          OtherChat(Deliver(tok, before).chats[jid], before, d, jid);
        }
      }
    }
  }

  /**
   * Two delivery sequences over the same messages, in any order and with any redeliveries,
   * end with the same messages up to rowid and the same chats table: per chat the greatest
   * timestamp and as many unread as there are distinct bumping messages.
   */
  lemma DeliveryOrderIrrelevant(tok: Tokenizer, ds: seq<Delivery>, es: seq<Delivery>)
    requires Consistent(ds) && forall d :: d in ds <==> d in es
    ensures Contents(Deliver(tok, ds).rows) == Contents(Deliver(tok, es).rows)
    ensures |Deliver(tok, ds).rows| == |Deliver(tok, es).rows|
    ensures Deliver(tok, ds).chats == Deliver(tok, es).chats
    ensures forall jid :: jid in Deliver(tok, ds).chats ==> ChatSummarises(Deliver(tok, ds).chats[jid], ds, jid)
  {
    hide Expected, Contents, ChatKeys, Bumping, IsNewest, Deliver, WellFormed;
    DeliveredTables(tok, ds);
    DeliveredTables(tok, es);
    var a, b := Deliver(tok, ds), Deliver(tok, es);
    SameSets(ds, es);
    forall jid | jid in a.chats ensures a.chats[jid] == b.chats[jid] {
      assert ChatSummarises(b.chats[jid], es, jid);
      NewestIsUnique(ds, es, jid, a.chats[jid].lastTS.value, b.chats[jid].lastTS.value);
    }
    ContentsSize(a.rows);
    ContentsSize(b.rows);
  }

  lemma SameSets(ds: seq<Delivery>, es: seq<Delivery>)
    requires forall d :: d in ds <==> d in es
    ensures Expected(ds) == Expected(es) && ChatKeys(ds) == ChatKeys(es)
    ensures forall jid :: Bumping(ds, jid) == Bumping(es, jid)
  {}

  lemma NewestIsUnique(ds: seq<Delivery>, es: seq<Delivery>, jid: string, t: int, u: int)
    requires forall d :: d in ds <==> d in es
    requires IsNewest(ds, jid, t) && IsNewest(es, jid, u)
    ensures t == u
  {
    hide ForChat;
    var d :| d in ds && ForChat(d, jid) && d.m.ts == t;
    var e :| e in es && ForChat(e, jid) && e.m.ts == u;
  }

  lemma {:induction false} ContentsSize(rows: seq<Message>)
    requires WellFormed(rows)
    ensures |Contents(rows)| == |rows|
  {
    if rows != [] {
      var before, row := rows[..|rows| - 1], rows[|rows| - 1];
      LastIsNew(rows);
      hide WellFormed, Contents;
      assert rows == before + [row];
      ContentsSize(before);
      ContentsAppend(before, row);
    }
  }

  lemma LastIsNew(rows: seq<Message>)
    requires WellFormed(rows) && rows != []
    ensures WellFormed(rows[..|rows| - 1])
    ensures rows[|rows| - 1].(id := 0) !in Contents(rows[..|rows| - 1])
  {
    assert forall r :: r in rows[..|rows| - 1] ==> r.waID != rows[|rows| - 1].waID;
  }
}
