/**
 * The other half of the open chat's window: every stored message at or above the cursor is on
 * screen, or its event is still under way or was dropped.
 */
module Completeness {
  import opened Prelude
  import opened Tables
  import opened Paging
  import opened Reducer
  import opened Protocol
  import opened OpenChat
  import opened Drops

  ghost predicate Announces(evs: seq<Event>, waID: string, chat: string) {
    exists ev :: ev in evs && ev.waID == waID && ev.chatJID == chat
  }

  /** An event for the message is in flight, queued or dropped. */
  ghost predicate Outstanding(s: System, waID: string, chat: string) {
    Announces(s.inflight, waID, chat) || Announces(s.queue, waID, chat) || Announces(s.log.dropped, waID, chat)
  }

  /** Paging on from `c` will not return the row. */
  predicate Reached(r: Message, c: Cursor) {
    c == Start || !OlderThan(r, c)
  }

  ghost predicate Complete(s: System) {
    forall r :: r in s.db.rows && r.chatJID == s.view.selected && Reached(r, s.view.cursor)
      ==> r.waID in Shown(s.view.messages) || Outstanding(s, r.waID, r.chatJID)
  }

  /** Everything but jumping into the middle of a chat and inserts that do not come through the handler. */
  predicate Announced(step: Step) {
    match step
    case Jump(_, _) => false
    case Write(op) => !op.DoInsert? && !op.DoInsertBatch?
    case _ => true
  }

  // ---------------------------------------------------------------- single steps

  lemma AnnouncesAppend(evs: seq<Event>, ev: Event, waID: string, chat: string)
    ensures Announces(evs + [ev], waID, chat)
        <==> Announces(evs, waID, chat) || (ev.waID == waID && ev.chatJID == chat)
  {
    assert forall e :: e in evs + [ev] <==> e in evs || e == ev;
  }

  lemma AnnouncesRemove(evs: seq<Event>, k: nat, waID: string, chat: string)
    requires k < |evs|
    ensures Announces(evs, waID, chat)
       <==> Announces(evs[..k] + evs[k + 1..], waID, chat) || (evs[k].waID == waID && evs[k].chatJID == chat)
  {
    assert forall e :: e in evs <==> e in evs[..k] + evs[k + 1..] || e == evs[k];
  }

  lemma SendIsComplete(s: System, k: nat)
    requires Complete(s)
    ensures Complete(Sent(s, k))
  {
    if k < |s.inflight| {
      var t := Sent(s, k);
      forall w: string, c: string | Outstanding(s, w, c) ensures Outstanding(t, w, c) {
        hide Announces;
        AnnouncesRemove(s.inflight, k, w, c);
        AnnouncesAppend(s.queue, s.inflight[k], w, c);
        AnnouncesAppend(s.log.dropped, s.inflight[k], w, c);
      }
      hide Outstanding, Reached;
    }
  }

  lemma DrainIsComplete(s: System)
    requires Complete(s)
    ensures Complete(Drained(s))
  {
    if s.queue != [] {
      var t, ev := Drained(s), s.queue[0];
      FoldShows(s.view.messages, Bubble(ev));
      assert Shown(t.view.messages)
          == Shown(s.view.messages) + if ev.chatJID == s.view.selected then {ev.waID} else {};
      forall w: string, c: string | Outstanding(s, w, c)
        ensures Outstanding(t, w, c) || (ev.waID == w && ev.chatJID == c)
      {
        hide Announces;
        AnnouncesRemove(s.queue, 0, w, c);
        assert s.queue[..0] + s.queue[1..] == s.queue[1..];
      }
      hide Outstanding, Reached, Shown, OnIncoming;
      assert t.view.selected == s.view.selected && t.view.cursor == s.view.cursor && t.db == s.db by {
        FoldKeepsPlace(s.view, ev);
      }
    }
  }

  lemma FoldKeepsPlace(v: View, ev: Event)
    ensures OnIncoming(v, ev).selected == v.selected && OnIncoming(v, ev).cursor == v.cursor
  {}

  /** Where a row of the later table stands, and the row of the earlier table it comes from. */
  lemma RowWasThere(a: seq<Message>, b: seq<Message>, r: Message) returns (k: nat)
    requires Evolves(a, b) && r in b
    ensures k < |b| && b[k] == r && (k < |a| ==> a[k] in a && SameKey(a[k], r))
  {
    k :| 0 <= k < |b| && b[k] == r;
  }

  lemma PersistIsComplete(tok: Tokenizer, s: System, ev: Event)
    requires StoreLeads(s) && Complete(s)
    ensures Complete(Persisted(tok, s, ev))
  {
    if Acceptable(RowOf(ev)) {
      var t := Persisted(tok, s, ev);
      PersistKeepsLead(tok, s, ev);
      RowsAfterInsert(tok, s.db, RowOf(ev), !ev.fromMe);
      forall w: string, c: string | Outstanding(s, w, c) || (ev.waID == w && ev.chatJID == c)
        ensures Outstanding(t, w, c)
      {
        hide Announces;
        AnnouncesAppend(s.inflight, ev, w, c);
      }
      hide Outstanding, Reached, Shown, StoreLeads, Evolves;
      assert t.view == s.view;
      forall r | r in t.db.rows && r.chatJID == t.view.selected && Reached(r, t.view.cursor)
        ensures r.waID in Shown(t.view.messages) || Outstanding(t, r.waID, r.chatJID)
      {
        if r !in s.db.rows {
          assert r.waID == ev.waID && r.chatJID == ev.chatJID;
        }
      }
    }
  }

  lemma RowsAfterInsert(tok: Tokenizer, db: DB, m: Message, bump: bool)
    ensures forall r :: r in Inserted(tok, db, m, bump).rows
              ==> r in db.rows || (r.waID == m.waID && r.chatJID == m.chatJID)
  {}

  lemma OptimisticIsComplete(tok: Tokenizer, s: System, step: Step)
    requires step.Optimistic? && Complete(s)
    ensures Complete(Next(tok, s, step))
  {
    var t := Next(tok, s, step);
    OptimisticShows(tok, s, step);
    OptimisticLog(tok, s, step);
    RowsAfterInsert(tok, s.db, OptimisticRow(step.waID, step.chat, step.body, step.ts), false);
    forall w: string, c: string ensures Outstanding(t, w, c) <==> Outstanding(s, w, c) {}
    hide Outstanding, Reached, Shown, Inserted, OnIncoming, TagPending;
  }

  lemma OptimisticLog(tok: Tokenizer, s: System, step: Step)
    requires step.Optimistic?
    ensures
      var t := Next(tok, s, step);
      t.log == s.log && t.inflight == s.inflight && t.queue == s.queue
  {}

  /** A page holds every row of its range down to its last row, or all of them if it is empty. */
  lemma PageReaches(rows: seq<Message>, chat: string, before: Cursor, r: Message)
    requires WellFormed(rows) && chat != "" && r in rows && r.chatJID == chat
    ensures PageOlder(rows, chat, before, PageSize).Ok?
    ensures
      var page := PageOlder(rows, chat, before, PageSize).value;
      Reached(r, page.next) && (before == Start || OlderThan(r, before)) ==> r.waID in Shown(page.msgs)
  {
    hide PageOlder, WellFormed, Descending;
    PageOlderMeaning(rows, chat, before, PageSize);
  }

  lemma SelectIsComplete(s: System, jid: string)
    requires WellFormed(s.db.rows) && Complete(s)
    ensures Complete(Viewed(s, SelectChat(s.view, s.db.rows, jid)))
  {
    hide WellFormed, PageOlder, Shown, Reached, Outstanding;
    if jid != "" && !(jid == s.view.selected && s.view.loaded) {
      var t := Viewed(s, SelectChat(s.view, s.db.rows, jid));
      PageOlderMeaning(s.db.rows, jid, Start, PageSize);
      forall r | r in s.db.rows && r.chatJID == jid && Reached(r, t.view.cursor)
        ensures r.waID in Shown(t.view.messages)
      {
        PageReaches(s.db.rows, jid, Start, r);
      }
    }
  }

  lemma OlderIsComplete(s: System)
    requires WellFormed(s.db.rows) && Complete(s) && LoadOlder(s.view, s.db.rows).Ok?
    ensures Complete(s.(view := LoadOlder(s.view, s.db.rows).value.0))
  {
    hide WellFormed, PageOlder, Shown, Outstanding;
    var v := s.view;
    if !(IsZero(v.cursor) && v.messages != []) {
      var t := s.(view := LoadOlder(v, s.db.rows).value.0);
      var page := PageOlder(s.db.rows, v.selected, v.cursor, PageSize).value;
      assert t.view.messages == v.messages + page.msgs && t.view.cursor == page.next && t.view.selected == v.selected;
      ShownJoin(v.messages, page.msgs);
      forall r | r in s.db.rows && r.chatJID == v.selected && Reached(r, page.next)
        ensures r.waID in Shown(t.view.messages) || Outstanding(t, r.waID, r.chatJID)
      {
        PageReaches(s.db.rows, v.selected, v.cursor, r);
        SameOutstanding(s, t, r.waID, r.chatJID);
      }
    }
  }

  lemma SameOutstanding(s: System, t: System, waID: string, chat: string)
    requires t.inflight == s.inflight && t.queue == s.queue && t.log == s.log
    ensures Outstanding(t, waID, chat) <==> Outstanding(s, waID, chat)
  {}

  /** Steps that add no row and leave the open chat and the events alone. */
  lemma QuietIsComplete(s: System, t: System)
    requires Complete(s) && Evolves(s.db.rows, t.db.rows) && |t.db.rows| == |s.db.rows|
    requires t.view.selected == s.view.selected && t.view.cursor == s.view.cursor
        && t.view.messages == s.view.messages
    requires t.inflight == s.inflight && t.queue == s.queue && t.log == s.log
    ensures Complete(t)
  {
    hide Outstanding, Shown, Evolves;
    forall r | r in t.db.rows && r.chatJID == t.view.selected && Reached(r, t.view.cursor)
      ensures r.waID in Shown(t.view.messages) || Outstanding(t, r.waID, r.chatJID)
    {
      var k := RowWasThere(s.db.rows, t.db.rows, r);
      SameOutstanding(s, t, r.waID, r.chatJID);
    }
  }

  lemma UpdateAddsNoRow(tok: Tokenizer, db: DB, op: StoreOp)
    requires !op.DoInsert? && !op.DoInsertBatch?
    ensures |Apply(tok, db, op).rows| == |db.rows|
  {}

  lemma NothingOpen(s: System)
    requires WellFormed(s.db.rows) && s.view.selected == ""
    ensures Complete(s)
  {
    hide Outstanding, Shown, Reached;
    forall r | r in s.db.rows ensures r.chatJID != "" {}
  }

  lemma NextIsComplete(tok: Tokenizer, s: System, step: Step)
    requires StoreLeads(s) && Complete(s) && Announced(step)
    ensures Complete(Next(tok, s, step))
  {
    hide AllStored, Trails, WellFormed, Enumerates, Complete, Apply, SelectChat, LoadOlder, OnIncoming,
         Inserted, LoadChats, Evolves;
    ChatOpKeeps(s.db, s.view.selected, "");
    match step
    case Persist(ev) => PersistIsComplete(tok, s, ev);
    case Send(k) => SendIsComplete(s, k);
    case Drain => DrainIsComplete(s);
    case Select(jid) => SelectIsComplete(s, jid);
    case Older =>
      if LoadOlder(s.view, s.db.rows).Ok? {
        OlderIsComplete(s);
      }
    case GoBack => NothingOpen(s.(view := Back(s.view)));
    case Optimistic(_, _, _, _) => OptimisticIsComplete(tok, s, step);
    case Reload(order) => QuietIsComplete(s, s.(view := LoadChatsOr(s, order)));
    case MarkSelectedRead => QuietIsComplete(s, Next(tok, s, step));
    case Write(op) =>
      ApplyKeeps(tok, s.db, op);
      UpdateAddsNoRow(tok, s.db, op);
      QuietIsComplete(s, Next(tok, s, step));
  }

  // ---------------------------------------------------------------- whole runs

  /**
   * In every interleaving without jumps and without inserts past the handler: each stored
   * message of the open chat from the cursor upwards is on screen, or its event is in flight,
   * queued or dropped. So without drops nothing stays missing.
   */
  lemma {:induction false} WindowIsComplete(tok: Tokenizer, s: System, steps: seq<Step>)
    requires StoreLeads(s) && Complete(s)
    requires forall i :: 0 <= i < |steps| ==> Announced(steps[i])
    ensures Complete(Run(tok, s, steps))
    decreases |steps|
  {
    hide StoreLeads, Complete, Next, Announced;
    if steps != [] {
      var before := steps[..|steps| - 1];
      WindowIsComplete(tok, s, before);
      ViewNeverLeadsStore(tok, s, before);
      NextIsComplete(tok, Run(tok, s, before), steps[|steps| - 1]);
    }
  }

  /**
   * Soundness and completeness together: with nothing under way and nothing dropped, the
   * messages on screen are exactly those stored in the open chat from the cursor upwards.
   */
  lemma QuietViewIsStore(s: System, r: Message)
    requires WellFormed(s.db.rows) && Window(s.view, s.db.rows) && Complete(s)
    requires s.inflight == [] && s.queue == [] && s.log.dropped == []
    requires r in s.db.rows && r.chatJID == s.view.selected
    ensures r.waID in Shown(s.view.messages) <==> Reached(r, s.view.cursor)
  {
    hide DistinctWAIDs;
    if r.waID in Shown(s.view.messages) {
      var m :| m in s.view.messages && m.waID == r.waID;
      var i :| 0 <= i < |s.db.rows| && s.db.rows[i].waID == m.waID
               && (s.view.cursor == Start || !OlderThan(s.db.rows[i], s.view.cursor));
      var j :| 0 <= j < |s.db.rows| && s.db.rows[j] == r;
    }
  }

  /** In such a run a LoadOlder that reports zero means it: nothing stored is left to page to. */
  lemma ZeroMeansExhausted(s: System, r: Message)
    requires StoreLeads(s) && Complete(s) && LoadOlder(s.view, s.db.rows).Ok?
        && LoadOlder(s.view, s.db.rows).value.1 == 0
    requires r in s.db.rows && r.chatJID == s.view.selected
    ensures r.waID in Shown(s.view.messages) || Outstanding(s, r.waID, r.chatJID)
  {
    hide Outstanding, Shown, AllStored, Trails, WellFormed, PageOlder;
    if !(IsZero(s.view.cursor) && s.view.messages != []) {
      PageOlderMeaning(s.db.rows, s.view.selected, s.view.cursor, PageSize);
    }
  }
}
