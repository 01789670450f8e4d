/**
 * The persist, send, drain protocol (internal/wa/handler.go, main.go) as interleaved steps of
 * the handler goroutines, the frame loop and the other writers of the store.
 */
module Protocol {
  import ChatOrder
  import opened Prelude
  import opened Tables
  import opened Paging
  import opened Reducer

  /** Capacity of the channel between the handler and the frame loop. */
  const IncomingBuffer := 64

  /** What has happened so far: accepted events end up in flight, queued, drained or dropped. */
  datatype Log = Log(accepted: seq<Event>, drained: seq<Event>, dropped: seq<Event>, redelivered: seq<Event>)

  /** `inflight` holds the events that are persisted but not yet offered to the channel. */
  datatype System = System(db: DB, inflight: seq<Event>, queue: seq<Event>, view: View, log: Log)

  datatype Step =
    | Persist(ev: Event)          // OnMessage, first half
    | Send(k: nat)                // OnMessage, second half, for one event in flight
    | Drain                       // one round of the drain loop
    | Select(jid: string)
    | Older
    | Jump(chat: string, id: int)
    | GoBack
    | Optimistic(waID: string, chat: string, body: string, ts: int)
    | Reload(order: seq<string>)
    | MarkSelectedRead
    | Write(op: StoreOp)          // history sync, edits, receipts and other store calls

  function RowOf(ev: Event): Message {
    Message(0, ev.waID, ev.chatJID, ev.senderJID, ev.ts, ev.body, ev.mediaPath, ev.mediaType, "",
            ev.quotedWAID, ev.quotedBody, ev.quotedSender, false, false,
            ev.linkURL, ev.linkTitle, ev.linkDesc, false)
  }

  function Persisted(tok: Tokenizer, s: System, ev: Event): System {
    match Insert(tok, s.db, RowOf(ev), !ev.fromMe)
    case Err(_) => s
    case Ok((db, created)) =>
      s.(db := db, inflight := s.inflight + [ev],
         log := s.log.(accepted := s.log.accepted + [ev],
                       redelivered := s.log.redelivered + if created then [] else [ev]))
  }

  /** A full channel drops the payload. */
  function Sent(s: System, k: nat): System {
    if k >= |s.inflight| then s
    else
      var ev := s.inflight[k];
      var s1 := s.(inflight := s.inflight[..k] + s.inflight[k + 1..]);
      if |s.queue| < IncomingBuffer then s1.(queue := s.queue + [ev])
      else s1.(log := s.log.(dropped := s.log.dropped + [ev]))
  }

  function Drained(s: System): System {
    if s.queue == [] then s
    else
      s.(queue := s.queue[1..], view := OnIncoming(s.view, s.queue[0]),
         log := s.log.(drained := s.log.drained + [s.queue[0]]))
  }

  /** The whole drain loop of one frame. */
  function DrainAll(s: System): System
    decreases |s.queue|
  {
    if s.queue == [] then s else DrainAll(Drained(s))
  }

  function Viewed(s: System, r: Result<View>): System {
    match r
    case Ok(v) => s.(view := v)
    case Err(_) => s
  }

  ghost function Next(tok: Tokenizer, s: System, step: Step): System {
    match step
    case Persist(ev) => Persisted(tok, s, ev)
    case Send(k) => Sent(s, k)
    case Drain => Drained(s)
    case Select(jid) => Viewed(s, SelectChat(s.view, s.db.rows, jid))
    case Older =>
      (match LoadOlder(s.view, s.db.rows)
       case Ok((v, _)) => s.(view := v)
       case Err(_) => s)
    case Jump(chat, id) => Viewed(s, JumpToMessage(s.view, s.db.rows, chat, id))
    case GoBack => s.(view := Back(s.view))
    case Optimistic(waID, chat, body, ts) =>
      (match AddOptimistic(tok, s.view, s.db, waID, chat, body, ts)
       case Ok((v, db)) => s.(view := v, db := db)
       case Err(_) => s)
    case Reload(order) =>
      if Enumerates(order, Unarchived(s.db.chats)) then s.(view := LoadChats(s.view, s.db.chats, order)) else s
    case MarkSelectedRead =>
      if s.view.selected == "" then s
      else s.(db := MarkRead(s.db, s.view.selected),
              view := s.view.(chats := ClearUnread(s.view.chats, s.view.selected)))
    case Write(op) => s.(db := Apply(tok, s.db, op))
  }

  ghost function Run(tok: Tokenizer, s: System, steps: seq<Step>): System {
    if steps == [] then s else Next(tok, Run(tok, s, steps[..|steps| - 1]), steps[|steps| - 1])
  }

  function Boot(db: DB): System {
    System(db, [], [], NewView(), Log([], [], [], []))
  }

  // ---------------------------------------------------------------- the view never leads the store

  ghost predicate IsStored(db: DB, ev: Event) {
    && Has(db.rows, ev.waID)
    && ev.chatJID in db.chats && ev.ts <= LastTS(db.chats[ev.chatJID])
  }

  ghost predicate ChatsTrail(chats: seq<ChatSummary>, db: DB) {
    forall c :: c in chats ==> c.jid in db.chats && c.lastTS <= LastTS(db.chats[c.jid])
  }

  ghost predicate Trails(view: View, db: DB) {
    ChatsTrail(view.chats, db) && forall m :: m in view.messages ==> Has(db.rows, m.waID)
  }

  ghost predicate AllStored(db: DB, evs: seq<Event>) {
    forall ev :: ev in evs ==> IsStored(db, ev)
  }

  /** Everything the frame loop has seen or will see is in the store, and no newer than there. */
  ghost predicate StoreLeads(s: System) {
    && WellFormed(s.db.rows)
    && AllStored(s.db, s.inflight) && AllStored(s.db, s.queue)
    && AllStored(s.db, s.log.drained) && AllStored(s.db, s.log.dropped)
    && Trails(s.view, s.db)
    && |s.queue| <= IncomingBuffer
  }

  ghost predicate DBEvolves(a: DB, b: DB) {
    Evolves(a.rows, b.rows) && ChatsEvolve(a.chats, b.chats)
  }

  lemma HasKept(a: seq<Message>, b: seq<Message>, waID: string)
    requires Evolves(a, b) && Has(a, waID)
    ensures Has(b, waID)
  {
    var i :| 0 <= i < |a| && a[i].waID == waID;
    assert b[i].waID == waID;
  }

  lemma AllStoredKept(a: DB, b: DB, evs: seq<Event>)
    requires DBEvolves(a, b) && AllStored(a, evs)
    ensures AllStored(b, evs)
  {
    forall ev | ev in evs ensures IsStored(b, ev) {
      HasKept(a.rows, b.rows, ev.waID);
    }
  }

  lemma TrailsKept(view: View, a: DB, b: DB)
    requires DBEvolves(a, b) && Trails(view, a)
    ensures Trails(view, b)
  {
    forall m | m in view.messages ensures Has(b.rows, m.waID) {
      HasKept(a.rows, b.rows, m.waID);
    }
  }

  /** A store write alone keeps the invariant. */
  lemma WriteKeepsLead(s: System, db: DB)
    requires StoreLeads(s) && DBEvolves(s.db, db) && WellFormed(db.rows)
    ensures StoreLeads(s.(db := db))
  {
    hide DBEvolves, AllStored, Trails;
    AllStoredKept(s.db, db, s.inflight);
    AllStoredKept(s.db, db, s.queue);
    AllStoredKept(s.db, db, s.log.drained);
    AllStoredKept(s.db, db, s.log.dropped);
    TrailsKept(s.view, s.db, db);
  }

  lemma PersistKeepsLead(tok: Tokenizer, s: System, ev: Event)
    requires StoreLeads(s)
    ensures StoreLeads(Persisted(tok, s, ev)) && DBEvolves(s.db, Persisted(tok, s, ev).db)
  {
    ChatOpKeeps(s.db, "", "");
    if Acceptable(RowOf(ev)) {
      var db := Inserted(tok, s.db, RowOf(ev), !ev.fromMe);
      InsertedKeeps(tok, s.db, RowOf(ev), !ev.fromMe);
      WriteKeepsLead(s, db);
      assert IsStored(db, ev);
      AllStoredAppend(db, s.inflight, ev);
    }
  }

  lemma AllStoredAppend(db: DB, evs: seq<Event>, ev: Event)
    requires AllStored(db, evs) && IsStored(db, ev)
    ensures AllStored(db, evs + [ev])
  {}

  lemma SendKeepsLead(s: System, k: nat)
    requires StoreLeads(s)
    ensures StoreLeads(Sent(s, k))
  {
    if k < |s.inflight| {
      var ev := s.inflight[k];
      assert ev in s.inflight;
      AllStoredAppend(s.db, s.queue, ev);
      AllStoredAppend(s.db, s.log.dropped, ev);
    }
  }

  lemma UpsertTrails(chats: seq<ChatSummary>, db: DB, ev: Event)
    requires ChatsTrail(chats, db) && IsStored(db, ev)
    ensures ChatsTrail(UpsertSummary(chats, ev), db)
  {
    var i := Position(chats, ev.chatJID);
    if i < |chats| {
      assert chats[i] in chats;
    }
  }

  lemma FoldTrails(view: View, db: DB, ev: Event)
    requires Trails(view, db) && IsStored(db, ev)
    ensures Trails(OnIncoming(view, ev), db)
  {
    hide StableSort, UpsertSummary;
    UpsertTrails(view.chats, db, ev);
    ChatOrder.StableSortMembers(false, UpsertSummary(view.chats, ev));
    assert ChatsTrail(OnIncoming(view, ev).chats, db);
  }

  lemma DrainKeepsLead(s: System)
    requires StoreLeads(s)
    ensures StoreLeads(Drained(s))
  {
    hide Trails, OnIncoming;
    if s.queue != [] {
      assert s.queue[0] in s.queue;
      FoldTrails(s.view, s.db, s.queue[0]);
      AllStoredAppend(s.db, s.log.drained, s.queue[0]);
    }
  }

  ghost predicate FromTable(msgs: seq<Message>, rows: seq<Message>) {
    forall m :: m in msgs ==> m in rows
  }

  lemma StoredMessages(msgs: seq<Message>, rows: seq<Message>)
    requires FromTable(msgs, rows)
    ensures forall m :: m in msgs ==> Has(rows, m.waID)
  {
    forall m | m in msgs ensures Has(rows, m.waID) {
      var i :| 0 <= i < |rows| && rows[i] == m;
    }
  }

  lemma OpenTrails(view: View, db: DB, jid: string, page: Page)
    requires Trails(view, db) && FromTable(page.msgs, db.rows)
    ensures Trails(Open(view, jid, page), db)
  {
    StoredMessages(page.msgs, db.rows);
  }

  lemma PagingTrails(view: View, db: DB, jid: string, id: int)
    requires Trails(view, db) && WellFormed(db.rows)
    ensures SelectChat(view, db.rows, jid).Ok? ==> Trails(SelectChat(view, db.rows, jid).value, db)
    ensures JumpToMessage(view, db.rows, jid, id).Ok? ==> Trails(JumpToMessage(view, db.rows, jid, id).value, db)
  {
    hide Trails, PageOlder, PageAround, WellFormed;
    if jid != "" {
      PageOlderMeaning(db.rows, jid, Start, PageSize);
      OpenTrails(view, db, jid, PageOlder(db.rows, jid, Start, PageSize).value);
      var around := PageAround(db.rows, jid, id, PageSize / 2, PageSize / 2);
      if around.Ok? {
        AroundFound(db.rows, jid, id, PageSize / 2, PageSize / 2);
        OpenTrails(view, db, jid, around.value);
      }
    }
  }

  lemma OlderTrails(view: View, db: DB)
    requires Trails(view, db) && WellFormed(db.rows)
    ensures LoadOlder(view, db.rows).Ok? ==> Trails(LoadOlder(view, db.rows).value.0, db)
  {
    hide PageOlder, WellFormed;
    if view.selected != "" {
      PageOlderMeaning(db.rows, view.selected, view.cursor, PageSize);
      StoredMessages(PageOlder(db.rows, view.selected, view.cursor, PageSize).value.msgs, db.rows);
    }
  }

  lemma ReloadTrails(view: View, db: DB, order: seq<string>)
    requires Trails(view, db) && Enumerates(order, Unarchived(db.chats))
    ensures Trails(LoadChats(view, db.chats, order), db)
  {
    ChatOrder.LoadedSummaries(view, db.chats, order);
  }

  lemma OptimisticKeepsLead(tok: Tokenizer, s: System, waID: string, chat: string, body: string, ts: int)
    requires StoreLeads(s)
    ensures StoreLeads(Next(tok, s, Optimistic(waID, chat, body, ts)))
    ensures DBEvolves(s.db, Next(tok, s, Optimistic(waID, chat, body, ts)).db)
  {
    ChatOpKeeps(s.db, "", "");
    if chat != "" && waID != "" {
      var row, ev := OptimisticRow(waID, chat, body, ts), OptimisticEvent(waID, chat, body, ts);
      var db := Inserted(tok, s.db, row, false);
      InsertedKeeps(tok, s.db, row, false);
      WriteKeepsLead(s, db);
      assert IsStored(db, ev);
      FoldTrails(s.view, db, ev);
      TagTrails(OnIncoming(s.view, ev), db, waID);
    }
  }

  lemma TagTrails(view: View, db: DB, waID: string)
    requires Trails(view, db)
    ensures Trails(view.(messages := TagPending(view.messages, waID)), db)
  {
    HeadIsMember(view.messages);
  }

  lemma MarkReadKeepsLead(s: System)
    requires StoreLeads(s)
    ensures StoreLeads(s.(db := MarkRead(s.db, s.view.selected),
                          view := s.view.(chats := ClearUnread(s.view.chats, s.view.selected))))
  {
    ChatOpKeeps(s.db, s.view.selected, "");
    WriteKeepsLead(s, MarkRead(s.db, s.view.selected));
    var i := Position(s.view.chats, s.view.selected);
    if i < |s.view.chats| {
      assert s.view.chats[i] in s.view.chats;
    }
  }

  /** Every step keeps the store ahead of the view and never takes anything out of the store. */
  lemma NextKeepsLead(tok: Tokenizer, s: System, step: Step)
    requires StoreLeads(s)
    ensures StoreLeads(Next(tok, s, step)) && DBEvolves(s.db, Next(tok, s, step).db)
  {
    hide AllStored, Trails, WellFormed, Enumerates, Persisted, Apply, MarkRead, SelectChat, LoadOlder,
         JumpToMessage, OnIncoming, Inserted, LoadChats;
    ChatOpKeeps(s.db, s.view.selected, "");
    match step
    case Persist(ev) => PersistKeepsLead(tok, s, ev);
    case Send(k) => SendKeepsLead(s, k);
    case Drain => DrainKeepsLead(s);
    case Select(jid) => PagingTrails(s.view, s.db, jid, 0);
    case Older => OlderTrails(s.view, s.db);
    case Jump(chat, id) => PagingTrails(s.view, s.db, chat, id);
    case GoBack => BackTrails(s.view, s.db);
    case Optimistic(waID, chat, body, ts) => OptimisticKeepsLead(tok, s, waID, chat, body, ts);
    case Reload(order) =>
      if Enumerates(order, Unarchived(s.db.chats)) {
        ReloadTrails(s.view, s.db, order);
      }
    case MarkSelectedRead => MarkReadKeepsLead(s);
    case Write(op) =>
      ApplyKeeps(tok, s.db, op);
      WriteKeepsLead(s, Apply(tok, s.db, op));
  }

  lemma BackTrails(view: View, db: DB)
    requires Trails(view, db)
    ensures Trails(Back(view), db)
  {}

  /**
   * In every reachable state, whatever the interleaving and however many events are dropped
   * or redelivered: every event in flight, queued, drained or dropped and every message on
   * screen has a stored row, no chat in the list shows a newer timestamp than the store, and
   * the store has only grown, each recorded last_ts never going back.
   */
  lemma {:induction false} ViewNeverLeadsStore(tok: Tokenizer, s: System, steps: seq<Step>)
    requires StoreLeads(s)
    ensures StoreLeads(Run(tok, s, steps))
    ensures DBEvolves(s.db, Run(tok, s, steps).db)
  {
    hide StoreLeads, Next;
    if steps == [] {
      ChatOpKeeps(s.db, "", "");
    } else {
      ViewNeverLeadsStore(tok, s, steps[..|steps| - 1]);
      NextKeepsLead(tok, Run(tok, s, steps[..|steps| - 1]), steps[|steps| - 1]);
    }
  }

  /** The program starts in such a state on any database. */
  lemma BootLeads(db: DB)
    requires WellFormed(db.rows)
    ensures StoreLeads(Boot(db))
  {}

  /** The events folded one by one, the oldest first. */
  function FoldAll(v: View, evs: seq<Event>): View
    decreases |evs|
  {
    if evs == [] then v else FoldAll(OnIncoming(v, evs[0]), evs[1..])
  }

  /** The drain loop takes the events in the order they were queued, each once, and changes nothing else. */
  lemma {:induction false} DrainsInOrder(s: System)
    ensures
      var t := DrainAll(s);
      && t.queue == [] && t.view == FoldAll(s.view, s.queue) && t.log.drained == s.log.drained + s.queue
      && t.db == s.db && t.inflight == s.inflight
      && t.log.accepted == s.log.accepted && t.log.dropped == s.log.dropped && t.log.redelivered == s.log.redelivered
    decreases |s.queue|
  {
    hide OnIncoming;
    if s.queue != [] {
      DrainsInOrder(Drained(s));
      assert s.log.drained + [s.queue[0]] + s.queue[1..] == s.log.drained + s.queue;
    }
  }

  /**
   * What OnMessage stores for an event: its own fields, and no status, edit, revoke or star of
   * its own. Refused exactly for a missing wa_id or chat; counted as unread unless it is ours.
   */
  lemma PersistsEvent(tok: Tokenizer, s: System, ev: Event)
    ensures
      var t := Persisted(tok, s, ev);
      var row := Message(0, ev.waID, ev.chatJID, ev.senderJID, ev.ts, ev.body, ev.mediaPath, ev.mediaType, "",
                         ev.quotedWAID, ev.quotedBody, ev.quotedSender, false, false,
                         ev.linkURL, ev.linkTitle, ev.linkDesc, false);
      if ev.waID == "" || ev.chatJID == "" then t == s
      else
        && t.db == Inserted(tok, s.db, row, !ev.fromMe) && t.inflight == s.inflight + [ev]
        && t.queue == s.queue && t.view == s.view
        && t.log.accepted == s.log.accepted + [ev]
        && t.log.drained == s.log.drained && t.log.dropped == s.log.dropped
        && t.log.redelivered
           == s.log.redelivered +
                if exists i :: 0 <= i < |s.db.rows| && s.db.rows[i].waID == ev.waID then [ev] else []
  {
    hide Inserted;
  }

  /** A send queues the event behind the others if fewer than 64 wait, and drops it otherwise. */
  lemma SendsOrDrops(s: System, k: nat)
    requires k < |s.inflight|
    ensures
      var t, ev := Sent(s, k), s.inflight[k];
      && t.db == s.db && t.view == s.view && t.inflight == s.inflight[..k] + s.inflight[k + 1..]
      && t.queue == (if |s.queue| < 64 then s.queue + [ev] else s.queue)
      && t.log == (if |s.queue| < 64 then s.log else s.log.(dropped := s.log.dropped + [ev]))
  {}

  function Drains(n: nat): seq<Step> {
    if n == 0 then [] else Drains(n - 1) + [Drain]
  }

  lemma OneDrain(s: System)
    requires s.queue != []
    ensures Drained(s).queue == s.queue[1..] && DrainAll(Drained(s)) == DrainAll(s)
  {
    hide OnIncoming;
  }

  lemma OneMoreDrain(tok: Tokenizer, s: System, n: nat)
    requires n > 0
    ensures Run(tok, s, Drains(n)) == Drained(Run(tok, s, Drains(n - 1)))
  {
    hide Drained;
    assert Drains(n)[..|Drains(n)| - 1] == Drains(n - 1);
  }

  /** The drain loop is as many Drain steps as there are queued events. */
  lemma {:induction false} DrainLoopIsDrains(tok: Tokenizer, s: System, n: nat)
    requires n <= |s.queue|
    ensures Run(tok, s, Drains(n)).queue == s.queue[n..]
    ensures DrainAll(Run(tok, s, Drains(n))) == DrainAll(s)
    ensures n == |s.queue| ==> Run(tok, s, Drains(n)) == DrainAll(s)
  {
    hide Drained, Next;
    if n > 0 {
      hide Run;
      DrainLoopIsDrains(tok, s, n - 1);
      OneMoreDrain(tok, s, n);
      OneDrain(Run(tok, s, Drains(n - 1)));
      assert s.queue[n - 1..][1..] == s.queue[n..];
    }
  }
}
