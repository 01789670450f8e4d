/** The unread ledger: how the counter on screen and the stored one drift apart, exactly. */
module Unread {
  import opened Prelude
  import opened Tables
  import opened Reducer
  import opened Protocol
  import opened ChatOrder

  predicate Counts(ev: Event, jid: string) {
    !ev.fromMe && ev.chatJID == jid
  }

  /** The incoming events for one chat. */
  function Incoming(evs: seq<Event>, jid: string): nat {
    if evs == [] then 0
    else Incoming(evs[..|evs| - 1], jid) + if Counts(evs[|evs| - 1], jid) then 1 else 0
  }

  function OnScreen(chats: seq<ChatSummary>, jid: string): int {
    var i := Position(chats, jid);
    if i < |chats| then chats[i].unread else 0
  }

  function InStore(chats: map<string, Chat>, jid: string): int {
    if jid in chats then chats[jid].unread else 0
  }

  /** What the screen counts, will count and has missed, less what the store says it should. */
  function Drift(s: System, jid: string): int {
    OnScreen(s.view.chats, jid) + Incoming(s.inflight, jid) + Incoming(s.queue, jid) + Incoming(s.log.dropped, jid)
      - InStore(s.db.chats, jid) - Incoming(s.log.redelivered, jid)
  }

  /** Every step except reloading the chat list, marking read and unread-bumping foreign inserts. */
  predicate Counting(step: Step) {
    match step
    case Reload(_) => false
    case MarkSelectedRead => false
    case Write(op) => !op.DoMarkRead? && !(op.DoInsert? && op.bumpUnread)
    case _ => true
  }

  // ---------------------------------------------------------------- counting

  lemma IncomingAppend(evs: seq<Event>, ev: Event, jid: string)
    ensures Incoming(evs + [ev], jid) == Incoming(evs, jid) + if Counts(ev, jid) then 1 else 0
  {
    assert (evs + [ev])[..|evs|] == evs;
  }

  lemma {:induction false} IncomingSplit(a: seq<Event>, b: seq<Event>, jid: string)
    ensures Incoming(a + b, jid) == Incoming(a, jid) + Incoming(b, jid)
    decreases |b|
  {
    if b == [] {
      assert a + b == a;
    } else {
      var n := |b| - 1;
      assert (a + b)[..|a| + n] == a + b[..n];
      IncomingSplit(a, b[..n], jid);
    }
  }

  lemma IncomingRemove(evs: seq<Event>, k: nat, jid: string)
    requires k < |evs|
    ensures Incoming(evs, jid) == Incoming(evs[..k] + evs[k + 1..], jid) + if Counts(evs[k], jid) then 1 else 0
  {
    assert evs == evs[..k] + [evs[k]] + evs[k + 1..];
    IncomingSplit(evs[..k] + [evs[k]], evs[k + 1..], jid);
    IncomingAppend(evs[..k], evs[k], jid);
    IncomingSplit(evs[..k], evs[k + 1..], jid);
  }

  // ---------------------------------------------------------------- the counter on screen

  lemma SameMembersSameCounter(a: seq<ChatSummary>, b: seq<ChatSummary>, jid: string)
    requires DistinctJIDs(a) && DistinctJIDs(b) && forall c :: c in a <==> c in b
    ensures OnScreen(a, jid) == OnScreen(b, jid)
  {
    var i, j := Position(a, jid), Position(b, jid);
    if i < |a| {
      assert a[i] in b;
    }
    if j < |b| {
      assert b[j] in a;
    }
  }

  /** A fold counts its event once, unless it is our own; redeliveries count again. */
  lemma FoldCounts(v: View, ev: Event, jid: string)
    requires DistinctJIDs(v.chats)
    ensures OnScreen(OnIncoming(v, ev).chats, jid) == OnScreen(v.chats, jid) + if Counts(ev, jid) then 1 else 0
  {
    var up := UpsertSummary(v.chats, ev);
    IncomingSortsChats(v, ev);
    UpsertKeepsDistinct(v.chats, ev);
    StableSortMembers(false, up);
    SameMembersSameCounter(up, OnIncoming(v, ev).chats, jid);
    UpsertCounts(v.chats, ev, jid);
  }

  lemma UpsertCounts(chats: seq<ChatSummary>, ev: Event, jid: string)
    ensures OnScreen(UpsertSummary(chats, ev), jid) == OnScreen(chats, jid) + if Counts(ev, jid) then 1 else 0
  {
    var i, j := Position(chats, jid), Position(chats, ev.chatJID);
    var up := UpsertSummary(chats, ev);
    if i < |chats| {
      PositionOf(up, i);
    } else if jid == ev.chatJID {
      PositionOf(up, |chats|);
    } else {
      assert forall k :: 0 <= k < |up| ==> up[k].jid != jid;
      assert Position(up, jid) == |up|;
    }
  }

  // ---------------------------------------------------------------- the stored counter

  lemma InsertedCounts(tok: Tokenizer, db: DB, m: Message, bump: bool, jid: string)
    ensures InStore(Inserted(tok, db, m, bump).chats, jid)
         == InStore(db.chats, jid) + if !Has(db.rows, m.waID) && bump && m.chatJID == jid then 1 else 0
  {}

  lemma {:induction false} InsertEachCounts(tok: Tokenizer, db: DB, msgs: seq<Message>, jid: string)
    ensures InStore(InsertEach(tok, db, msgs).chats, jid) == InStore(db.chats, jid)
  {
    if msgs != [] {
      var before := msgs[..|msgs| - 1];
      InsertEachCounts(tok, db, before, jid);
      InsertedCounts(tok, InsertEach(tok, db, before), msgs[|msgs| - 1], false, jid);
    }
  }

  lemma WriteCounts(tok: Tokenizer, db: DB, op: StoreOp, jid: string)
    requires Counting(Write(op))
    ensures InStore(Apply(tok, db, op).chats, jid) == InStore(db.chats, jid)
  {
    match op
    case DoInsert(m, bump) => InsertedCounts(tok, db, m, bump, jid);
    case DoInsertBatch(msgs) => InsertEachCounts(tok, db, msgs, jid);
    case DoUpdate(_, _) =>
    case DoUpsertChat(_, _) =>
    case DoMarkRead(_) =>
  }

  // ---------------------------------------------------------------- the ledger

  lemma PersistDrift(tok: Tokenizer, s: System, ev: Event, jid: string)
    ensures Drift(Persisted(tok, s, ev), jid) == Drift(s, jid)
  {
    hide Inserted, InStore, OnScreen, Incoming, Has;
    InsertedCounts(tok, s.db, RowOf(ev), !ev.fromMe, jid);
    IncomingAppend(s.inflight, ev, jid);
    IncomingAppend(s.log.redelivered, ev, jid);
    assert s.log.redelivered + [] == s.log.redelivered;
  }

  lemma SendDrift(s: System, k: nat, jid: string)
    ensures Drift(Sent(s, k), jid) == Drift(s, jid)
  {
    hide Incoming, OnScreen, InStore, Counts;
    if k < |s.inflight| {
      IncomingRemove(s.inflight, k, jid);
      IncomingAppend(s.queue, s.inflight[k], jid);
      IncomingAppend(s.log.dropped, s.inflight[k], jid);
    }
  }

  lemma DrainDrift(s: System, jid: string)
    requires DistinctJIDs(s.view.chats)
    ensures Drift(Drained(s), jid) == Drift(s, jid)
  {
    hide OnIncoming, Incoming, OnScreen, InStore, Counts;
    if s.queue != [] {
      FoldCounts(s.view, s.queue[0], jid);
      IncomingRemove(s.queue, 0, jid);
      assert s.queue[..0] + s.queue[1..] == s.queue[1..];
    }
  }

  lemma OptimisticDrift(tok: Tokenizer, s: System, waID: string, chat: string, body: string, ts: int, jid: string)
    requires DistinctJIDs(s.view.chats)
    ensures Drift(Next(tok, s, Optimistic(waID, chat, body, ts)), jid) == Drift(s, jid)
  {
    hide OnIncoming, Inserted;
    FoldCounts(s.view, OptimisticEvent(waID, chat, body, ts), jid);
    InsertedCounts(tok, s.db, OptimisticRow(waID, chat, body, ts), false, jid);
  }

  lemma NextDrift(tok: Tokenizer, s: System, step: Step, jid: string)
    requires DistinctJIDs(s.view.chats) && Counting(step)
    ensures Drift(Next(tok, s, step), jid) == Drift(s, jid)
  {
    match step
    case Persist(ev) => PersistDrift(tok, s, ev, jid);
    case Send(k) => SendDrift(s, k, jid);
    case Drain => DrainDrift(s, jid);
    case Optimistic(waID, chat, body, ts) => OptimisticDrift(tok, s, waID, chat, body, ts, jid);
    case Write(op) => WriteCounts(tok, s.db, op, jid);
    case _ => NavigationKeepsChats(tok, s, step);
  }

  lemma NavigationKeepsChats(tok: Tokenizer, s: System, step: Step)
    requires step.Select? || step.Older? || step.Jump? || step.GoBack?
    ensures
      var t := Next(tok, s, step);
      t.view.chats == s.view.chats && t.db == s.db && t.inflight == s.inflight && t.queue == s.queue && t.log == s.log
  {}

  lemma NextKeepsDistinct(tok: Tokenizer, s: System, step: Step)
    requires DistinctJIDs(s.view.chats) && Counting(step)
    ensures DistinctJIDs(Next(tok, s, step).view.chats)
  {
    hide DistinctJIDs, OnIncoming;
    match step
    case Drain =>
      if s.queue != [] {
        IncomingSortsChats(s.view, s.queue[0]);
      }
    case Optimistic(waID, chat, body, ts) => IncomingSortsChats(s.view, OptimisticEvent(waID, chat, body, ts));
    case Persist(_) =>
    case Send(_) =>
    case Write(_) =>
    case _ => NavigationKeepsChats(tok, s, step);
  }

  /** The chat list was just loaded. */
  ghost predicate FreshlyLoaded(s: System, order: seq<string>) {
    Enumerates(order, Unarchived(s.db.chats)) && s.view == LoadChats(s.view, s.db.chats, order)
  }

  /** The chat is hidden from the list although the store counts unread messages in it. */
  function Hidden(chats: map<string, Chat>, jid: string): int {
    if jid in chats && chats[jid].archived then chats[jid].unread else 0
  }

  /** Incoming events still to be folded: the stored counter has them already. */
  function Pending(s: System, jid: string): nat {
    Incoming(s.inflight, jid) + Incoming(s.queue, jid)
  }

  /** Incoming events dropped so far, less those redelivered so far. */
  function Missed(s: System, jid: string): int {
    Incoming(s.log.dropped, jid) - Incoming(s.log.redelivered, jid)
  }

  lemma LoadedCounters(s: System, order: seq<string>, jid: string)
    requires FreshlyLoaded(s, order)
    ensures DistinctJIDs(s.view.chats)
    ensures OnScreen(s.view.chats, jid) == InStore(s.db.chats, jid) - Hidden(s.db.chats, jid)
  {
    LoadedSummaries(s.view, s.db.chats, order);
    if jid in s.db.chats && !s.db.chats[jid].archived {
      var c := SummaryOf(jid, s.db.chats[jid]);
      assert c in s.view.chats;
      var k :| 0 <= k < |s.view.chats| && s.view.chats[k] == c;
      PositionOf(s.view.chats, k);
    } else {
      assert forall c :: c in s.view.chats ==> c.jid != jid;
      assert forall k :: 0 <= k < |s.view.chats| ==> s.view.chats[k] in s.view.chats;
    }
  }

  lemma {:induction false} DriftIsConstant(tok: Tokenizer, s: System, steps: seq<Step>, jid: string)
    requires DistinctJIDs(s.view.chats) && forall i :: 0 <= i < |steps| ==> Counting(steps[i])
    ensures DistinctJIDs(Run(tok, s, steps).view.chats)
    ensures Drift(Run(tok, s, steps), jid) == Drift(s, jid)
    decreases |steps|
  {
    hide Next, Drift, DistinctJIDs, Counting;
    if steps != [] {
      var before, step := steps[..|steps| - 1], steps[|steps| - 1];
      DriftIsConstant(tok, s, before, jid);
      NextDrift(tok, Run(tok, s, before), step, jid);
      NextKeepsDistinct(tok, Run(tok, s, before), step);
    }
  }

  /**
   * From a load of the chat list on, until it is reloaded or a chat is marked read: what the
   * screen counts plus the incoming events under way plus those dropped since is what the
   * store counts plus those redelivered since, so a drop makes the screen count too little
   * and a redelivery too much. Two things are off from the start and stay off: events already
   * under way at the load are in the stored counter it read and are counted again when they are
   * folded, and a chat archived at the load starts from zero.
   */
  lemma UnreadLedger(tok: Tokenizer, s: System, order: seq<string>, steps: seq<Step>, jid: string)
    requires FreshlyLoaded(s, order)
    requires forall i :: 0 <= i < |steps| ==> Counting(steps[i])
    ensures
      var t := Run(tok, s, steps);
      && DistinctJIDs(t.view.chats)
      && OnScreen(t.view.chats, jid) + Pending(t, jid) + (Missed(t, jid) - Missed(s, jid))
           == InStore(t.db.chats, jid) + Pending(s, jid) - Hidden(s.db.chats, jid)
  {
    hide Run, DistinctJIDs, FreshlyLoaded, OnScreen, InStore, Incoming, Hidden;
    LoadedCounters(s, order, jid);
    DriftIsConstant(tok, s, steps, jid);
  }

  /** Marking the open chat read clears its counter in both places and touches no other chat. */
  lemma MarkReadClears(tok: Tokenizer, s: System, jid: string)
    requires s.view.selected != ""
    ensures
      var t := Next(tok, s, MarkSelectedRead);
      if jid == s.view.selected then OnScreen(t.view.chats, jid) == 0 && InStore(t.db.chats, jid) == 0
      else OnScreen(t.view.chats, jid) == OnScreen(s.view.chats, jid)
           && InStore(t.db.chats, jid) == InStore(s.db.chats, jid)
  {
    hide Position;
    ClearedCounter(s.view.chats, s.view.selected, jid);
  }

  lemma ClearedCounter(chats: seq<ChatSummary>, selected: string, jid: string)
    ensures OnScreen(ClearUnread(chats, selected), jid) == if jid == selected then 0 else OnScreen(chats, jid)
  {
    var cleared := ClearUnread(chats, selected);
    assert forall k :: 0 <= k < |chats| ==> cleared[k].jid == chats[k].jid;
    SamePosition(chats, cleared, jid);
  }

  lemma {:induction false} SamePosition(a: seq<ChatSummary>, b: seq<ChatSummary>, jid: string)
    requires |a| == |b| && forall k :: 0 <= k < |a| ==> a[k].jid == b[k].jid
    ensures Position(a, jid) == Position(b, jid)
  {
    if a != [] && a[0].jid != jid {
      SamePosition(a[1..], b[1..], jid);
    }
  }
}
