/**
 * What a dropped event costs: when the channel overflows, and how long the message stays off
 * the screen although it is stored.
 */
module Drops {
  import opened Prelude
  import opened Tables
  import opened Paging
  import opened Reducer
  import opened Protocol
  import opened OpenChat

  // ---------------------------------------------------------------- nothing re-reads the store

  /** Steps of the running program other than the user's own navigation and sending. */
  predicate Passive(step: Step) {
    step.Persist? || step.Send? || step.Drain? || step.Reload? || step.MarkSelectedRead? || step.Write?
  }

  function Shown(msgs: seq<Message>): set<string> {
    set m | m in msgs :: m.waID
  }

  function ShownBy(evs: seq<Event>, chat: string): set<string> {
    set ev | ev in evs && ev.chatJID == chat :: ev.waID
  }

  lemma FoldShows(msgs: seq<Message>, m: Message)
    ensures Shown(FoldMessage(msgs, m)) == Shown(msgs) + {m.waID} && FoldMessage(msgs, m) != []
  {
    if Has(msgs, m.waID) {
      var i := IndexOf(msgs, m.waID);
      var r := msgs[i := m];
      forall x | x in Shown(msgs) ensures x in Shown(r) {
        var j :| 0 <= j < |msgs| && msgs[j].waID == x;
        assert r[j].waID == x && r[j] in r;
      }
      assert r[i] in r && msgs[i] in msgs;
    } else {
      assert ([m] + msgs)[0] == m;
    }
  }

  lemma ShownByAppend(evs: seq<Event>, ev: Event, chat: string)
    ensures ShownBy(evs + [ev], chat) == ShownBy(evs, chat) + if ev.chatJID == chat then {ev.waID} else {}
  {
    assert forall e :: e in evs + [ev] <==> e in evs || e == ev;
  }

  lemma ShownByNothing(chat: string)
    ensures ShownBy([], chat) == {}
  {}

  /**
   * Nothing re-reads the store for the open chat. As long as the user does not navigate or
   * send, the messages on screen are those that were there and those that came through the
   * channel: a dropped event stays invisible, although its row is stored.
   */
  lemma {:induction false} NothingRereads(tok: Tokenizer, s: System, steps: seq<Step>)
    requires forall i :: 0 <= i < |steps| ==> Passive(steps[i])
    ensures
      var t, n := Run(tok, s, steps), |s.log.drained|;
      && t.view.selected == s.view.selected
      && n <= |t.log.drained| && t.log.drained[..n] == s.log.drained
      && Shown(t.view.messages) == Shown(s.view.messages) + ShownBy(t.log.drained[n..], s.view.selected)
    decreases |steps|
  {
    hide Next, Shown, ShownBy, Passive;
    var n := |s.log.drained|;
    if steps == [] {
      assert ShownBy([], s.view.selected) == {} by {
        ShownByNothing(s.view.selected);
      }
      assert s.log.drained[n..] == [];
    } else {
      var before, step := steps[..|steps| - 1], steps[|steps| - 1];
      NothingRereads(tok, s, before);
      var t, u := Run(tok, s, before), Run(tok, s, steps);
      PassiveStep(tok, t, step);
      if step.Drain? && t.queue != [] {
        assert u.log.drained[n..] == t.log.drained[n..] + [t.queue[0]];
        ShownByAppend(t.log.drained[n..], t.queue[0], s.view.selected);
      } else {
        assert u.log.drained == t.log.drained;
        assert Shown(t.view.messages) + {} == Shown(t.view.messages);
      }
    }
  }

  lemma PassiveStep(tok: Tokenizer, t: System, step: Step)
    requires Passive(step)
    ensures
      var u := Next(tok, t, step);
      && u.view.selected == t.view.selected
      && u.log.drained == t.log.drained + (if step.Drain? && t.queue != [] then [t.queue[0]] else [])
      && Shown(u.view.messages) == Shown(t.view.messages) +
           if step.Drain? && t.queue != [] && t.queue[0].chatJID == t.view.selected then {t.queue[0].waID} else {}
  {
    hide Enumerates, Apply, Inserted, MarkRead, StableSort, UpsertSummary, FoldMessage, Shown;
    if step.Drain? && t.queue != [] {
      FoldShows(t.view.messages, Bubble(t.queue[0]));
    }
    assert Shown(t.view.messages) + {} == Shown(t.view.messages);
  }

  // ---------------------------------------------------------------- paging does not help either

  /** Every step except leaving the open chat, jumping inside it and sending this very message. */
  predicate Staying(step: Step, chat: string, waID: string) {
    || Passive(step) || step.Older?
    || (step.Select? && step.jid == chat)
    || (step.Optimistic? && step.waID != waID)
  }

  /** A chat is open with something in it; the message is stored where paging on does not reach, and not shown. */
  ghost predicate Unseen(s: System, waID: string) {
    && s.view.loaded && s.view.messages != []
    && waID !in Shown(s.view.messages)
    && AtOrAbove(s.db.rows, waID, s.view.cursor)
  }

  function DrainedBy(s: System, step: Step): seq<Event> {
    if step.Drain? && s.queue != [] then [s.queue[0]] else []
  }

  lemma AboveStaysAbove(rows: seq<Message>, waID: string, c: Cursor, page: Page)
    requires AtOrAbove(rows, waID, c) && c != Start
    requires page.msgs == [] ==> page.next == Start
    requires page.msgs != [] ==>
               page.next == CursorOf(page.msgs[|page.msgs| - 1]) && OlderThan(page.msgs[|page.msgs| - 1], c)
    ensures AtOrAbove(rows, waID, page.next)
  {
    var i :| 0 <= i < |rows| && rows[i].waID == waID && !OlderThan(rows[i], c);
  }

  lemma NotOnOlderPage(rows: seq<Message>, waID: string, chat: string, c: Cursor, page: seq<Message>)
    requires WellFormed(rows) && AtOrAbove(rows, waID, c) && c != Start
    requires forall m :: m in page ==> m in rows && Wanted(m, chat, Below(c))
    ensures waID !in Shown(page)
  {
    var i :| 0 <= i < |rows| && rows[i].waID == waID && !OlderThan(rows[i], c);
    forall m | m in page ensures m.waID != waID {
      var j :| 0 <= j < |rows| && rows[j] == m;
    }
  }

  lemma ShownJoin(a: seq<Message>, b: seq<Message>)
    ensures Shown(a + b) == Shown(a) + Shown(b)
  {
    assert forall m :: m in a + b <==> m in a || m in b;
  }

  lemma OlderStep(s: System, waID: string)
    requires WellFormed(s.db.rows) && Unseen(s, waID)
    ensures LoadOlder(s.view, s.db.rows).Ok? ==> Unseen(s.(view := LoadOlder(s.view, s.db.rows).value.0), waID)
  {
    hide WellFormed, PageOlder, AtOrAbove, Descending, Shown;
    if s.view.selected != "" && !IsZero(s.view.cursor) {
      PageOlderMeaning(s.db.rows, s.view.selected, s.view.cursor, PageSize);
      var page := PageOlder(s.db.rows, s.view.selected, s.view.cursor, PageSize).value;
      NotOnOlderPage(s.db.rows, waID, s.view.selected, s.view.cursor, page.msgs);
      ShownJoin(s.view.messages, page.msgs);
      if page.msgs != [] {
        assert page.msgs[|page.msgs| - 1] in page.msgs;
      }
      AboveStaysAbove(s.db.rows, waID, s.view.cursor, page);
    }
  }

  lemma TagShows(msgs: seq<Message>, waID: string)
    ensures Shown(TagPending(msgs, waID)) == Shown(msgs) && (TagPending(msgs, waID) == [] <==> msgs == [])
  {
    var tagged := TagPending(msgs, waID);
    assert forall i :: 0 <= i < |msgs| ==> tagged[i].waID == msgs[i].waID;
    forall x | x in Shown(msgs) ensures x in Shown(tagged) {
      var i :| 0 <= i < |msgs| && msgs[i].waID == x;
      assert tagged[i] in tagged;
    }
    forall x | x in Shown(tagged) ensures x in Shown(msgs) {
      var i :| 0 <= i < |tagged| && tagged[i].waID == x;
      assert msgs[i] in msgs;
    }
  }

  /** What an outgoing message adds to the screen. */
  lemma OptimisticShows(tok: Tokenizer, s: System, step: Step)
    requires step.Optimistic?
    ensures
      var v, w := s.view, Next(tok, s, step).view;
      && w.selected == v.selected && w.cursor == v.cursor
      && (v.loaded ==> w.loaded) && (v.messages != [] ==> w.messages != [])
      && Shown(w.messages) ==
           Shown(v.messages) +
             if step.chat == v.selected && step.chat != "" && step.waID != "" then {step.waID} else {}
  {
    hide Inserted, StableSort, UpsertSummary, FoldMessage, TagPending, Shown;
    var ev := OptimisticEvent(step.waID, step.chat, step.body, step.ts);
    TagShows(OnIncoming(s.view, ev).messages, step.waID);
    FoldShows(s.view.messages, Bubble(ev));
    assert Shown(s.view.messages) + {} == Shown(s.view.messages);
  }

  /** What is stored above the cursor stays there as long as the cursor does not move. */
  lemma SameReach(s: System, t: System, waID: string)
    requires Unseen(s, waID) && Evolves(s.db.rows, t.db.rows) && t.view.cursor == s.view.cursor
    requires t.view.loaded && t.view.messages != [] && waID !in Shown(t.view.messages)
    ensures Unseen(t, waID)
  {
    AtOrAboveKept(s.db.rows, t.db.rows, waID, s.view.cursor);
  }

  lemma PassiveKeepsUnseen(tok: Tokenizer, s: System, step: Step, waID: string)
    requires StoreLeads(s) && Unseen(s, waID) && Passive(step)
    ensures Unseen(Next(tok, s, step), waID) || waID in ShownBy(DrainedBy(s, step), s.view.selected)
  {
    hide StoreLeads, Shown, AtOrAbove, Next, Evolves, ChatsEvolve;
    NextKeepsLead(tok, s, step);
    PassiveStep(tok, s, step);
    PassiveKeepsCursor(tok, s, step);
    if waID !in ShownBy(DrainedBy(s, step), s.view.selected) {
      SameReach(s, Next(tok, s, step), waID);
    }
  }

  lemma OptimisticKeepsUnseen(tok: Tokenizer, s: System, step: Step, waID: string)
    requires StoreLeads(s) && Unseen(s, waID) && step.Optimistic? && step.waID != waID
    ensures Unseen(Next(tok, s, step), waID)
  {
    hide StoreLeads, Shown, AtOrAbove, Next, Evolves, ChatsEvolve;
    NextKeepsLead(tok, s, step);
    OptimisticShows(tok, s, step);
    SameReach(s, Next(tok, s, step), waID);
  }

  lemma StayingKeepsUnseen(tok: Tokenizer, s: System, step: Step, waID: string)
    requires StoreLeads(s) && Unseen(s, waID) && Staying(step, s.view.selected, waID)
    ensures Unseen(Next(tok, s, step), waID) || waID in ShownBy(DrainedBy(s, step), s.view.selected)
  {
    hide AllStored, Trails, WellFormed, Shown, AtOrAbove, LoadOlder;
    if step.Older? {
      OlderStep(s, waID);
    } else if step.Optimistic? {
      OptimisticKeepsUnseen(tok, s, step, waID);
    } else if !step.Select? {
      PassiveKeepsUnseen(tok, s, step, waID);
    }
  }

  lemma PassiveKeepsCursor(tok: Tokenizer, s: System, step: Step)
    requires Passive(step)
    ensures
      var v, w := s.view, Next(tok, s, step).view;
      w.cursor == v.cursor && (v.loaded ==> w.loaded) && (v.messages != [] ==> w.messages != [])
  {
    hide Enumerates, Apply, Inserted, MarkRead, StableSort, UpsertSummary;
  }

  /**
   * A message that is stored at or above the cursor and not on screen stays off it, however
   * often the user pages up, selects the open chat again or sends something else: it takes a
   * redelivery that comes through the channel, or leaving the chat, to see it.
   */
  lemma {:induction false} StaysInvisible(tok: Tokenizer, s: System, steps: seq<Step>, waID: string)
    requires StoreLeads(s) && Unseen(s, waID)
    requires forall i :: 0 <= i < |steps| ==> Staying(steps[i], s.view.selected, waID)
    ensures
      var t, n := Run(tok, s, steps), |s.log.drained|;
      && t.view.selected == s.view.selected
      && n <= |t.log.drained| && t.log.drained[..n] == s.log.drained
      && (waID in ShownBy(t.log.drained[n..], s.view.selected) || Unseen(t, waID))
    decreases |steps|
  {
    hide Next, Unseen, ShownBy, Staying, StoreLeads, DrainedBy;
    var n := |s.log.drained|;
    if steps != [] {
      var before, step := steps[..|steps| - 1], steps[|steps| - 1];
      StaysInvisible(tok, s, before, waID);
      ViewNeverLeadsStore(tok, s, before);
      var t, u := Run(tok, s, before), Run(tok, s, steps);
      StayingExtendsLog(tok, t, step, s.view.selected, waID);
      assert u.log.drained[n..] == t.log.drained[n..] + DrainedBy(t, step);
      ShownByJoin(t.log.drained[n..], DrainedBy(t, step), s.view.selected);
      if Unseen(t, waID) {
        StayingKeepsUnseen(tok, t, step, waID);
      }
    }
  }

  lemma StayingExtendsLog(tok: Tokenizer, t: System, step: Step, chat: string, waID: string)
    requires t.view.selected == chat && Staying(step, chat, waID)
    ensures Next(tok, t, step).log.drained == t.log.drained + DrainedBy(t, step)
    ensures Next(tok, t, step).view.selected == chat
  {
    hide Enumerates, Apply, Inserted, MarkRead, StableSort, UpsertSummary, FoldMessage, PageOlder;
    assert t.log.drained + [] == t.log.drained;
  }

  lemma ShownByJoin(a: seq<Event>, b: seq<Event>, chat: string)
    ensures ShownBy(a + b, chat) == ShownBy(a, chat) + ShownBy(b, chat)
  {
    assert forall e :: e in a + b <==> e in a || e in b;
  }

  // ---------------------------------------------------------------- the channel overflows

  /** Events that arrive one after another while the frame loop is busy; `k` are in flight already. */
  function Burst(evs: seq<Event>, k: nat): seq<Step> {
    if evs == [] then [] else Burst(evs[..|evs| - 1], k) + [Persist(evs[|evs| - 1]), Send(k)]
  }

  ghost predicate AllAcceptable(evs: seq<Event>) {
    forall ev :: ev in evs ==> Acceptable(RowOf(ev))
  }

  lemma OneArrival(tok: Tokenizer, t: System, ev: Event)
    requires Acceptable(RowOf(ev)) && |t.queue| <= IncomingBuffer
    ensures
      var u := Next(tok, Next(tok, t, Persist(ev)), Send(|t.inflight|));
      && u.inflight == t.inflight && u.view == t.view && u.log.drained == t.log.drained
      && u.db == Inserted(tok, t.db, RowOf(ev), !ev.fromMe)
      && u.queue == (if |t.queue| < IncomingBuffer then t.queue + [ev] else t.queue)
      && u.log.dropped == (if |t.queue| < IncomingBuffer then t.log.dropped else t.log.dropped + [ev])
  {
    hide Inserted;
    var s := Next(tok, t, Persist(ev));
    assert s.inflight == t.inflight + [ev];
    assert s.inflight[..|t.inflight|] + s.inflight[|t.inflight| + 1..] == t.inflight;
  }

  lemma RunTwoMore(tok: Tokenizer, s: System, steps: seq<Step>, a: Step, b: Step)
    ensures Run(tok, s, steps + [a, b]) == Next(tok, Next(tok, Run(tok, s, steps), a), b)
  {
    var all := steps + [a, b];
    assert all[..|all| - 1] == steps + [a];
    assert (steps + [a])[..|steps|] == steps;
  }

  /** The first 64 events are queued and every later one is dropped. */
  ghost predicate Overflown(s: System, t: System, evs: seq<Event>) {
    var n := if |evs| < 64 then |evs| else 64;
    && t.inflight == s.inflight && t.view == s.view && t.log.drained == s.log.drained
    && t.queue == evs[..n] && t.log.dropped == s.log.dropped + evs[n..]
  }

  lemma ArrivalOverflows(tok: Tokenizer, s: System, t: System, evs: seq<Event>, ev: Event)
    requires Overflown(s, t, evs) && Acceptable(RowOf(ev))
    ensures Overflown(s, Next(tok, Next(tok, t, Persist(ev)), Send(|s.inflight|)), evs + [ev])
  {
    hide Next, Acceptable;
    OneArrival(tok, t, ev);
    SplitAppend(evs, ev, IncomingBuffer);
  }

  lemma NothingArrives(s: System)
    requires s.queue == []
    ensures Overflown(s, s, [])
  {}

  /** A burst into an empty channel, whatever is in flight and on screen. */
  lemma {:induction false} BurstOverflows(tok: Tokenizer, s: System, evs: seq<Event>)
    requires s.queue == [] && AllAcceptable(evs)
    ensures Overflown(s, Run(tok, s, Burst(evs, |s.inflight|)), evs)
    decreases |evs|
  {
    hide Next, Acceptable, Overflown;
    if evs == [] {
      NothingArrives(s);
    } else {
      var before, ev := evs[..|evs| - 1], evs[|evs| - 1];
      assert evs == before + [ev];
      BurstOverflows(tok, s, before);
      RunTwoMore(tok, s, Burst(before, |s.inflight|), Persist(ev), Send(|s.inflight|));
      ArrivalOverflows(tok, s, Run(tok, s, Burst(before, |s.inflight|)), before, ev);
    }
  }

  lemma SplitAppend(before: seq<Event>, ev: Event, size: nat)
    ensures
      var evs, n, m := before + [ev], Min(|before|, size), Min(|before| + 1, size);
      && evs[..m] == before[..n] + (if |before| < size then [ev] else [])
      && evs[m..] == before[n..] + (if |before| < size then [] else [ev])
  {}

  /** A burst stores nothing that is not in it. */
  lemma {:induction false} BurstStoresOnlyItself(tok: Tokenizer, s: System, evs: seq<Event>, waID: string)
    requires s.queue == [] && AllAcceptable(evs)
    requires !Has(s.db.rows, waID) && forall ev :: ev in evs ==> ev.waID != waID
    ensures !Has(Run(tok, s, Burst(evs, |s.inflight|)).db.rows, waID)
    decreases |evs|
  {
    hide Next, Inserted, Has, Acceptable;
    if evs != [] {
      var before, ev := evs[..|evs| - 1], evs[|evs| - 1];
      assert evs == before + [ev];
      BurstStoresOnlyItself(tok, s, before, waID);
      BurstOverflows(tok, s, before);
      var t := Run(tok, s, Burst(before, |s.inflight|));
      RunTwoMore(tok, s, Burst(before, |s.inflight|), Persist(ev), Send(|s.inflight|));
      OneArrival(tok, t, ev);
      StoresOnlyItself(tok, t.db, RowOf(ev), !ev.fromMe, waID);
    }
  }

  lemma StoresOnlyItself(tok: Tokenizer, db: DB, m: Message, bump: bool, waID: string)
    requires !Has(db.rows, waID) && m.waID != waID
    ensures !Has(Inserted(tok, db, m, bump).rows, waID)
  {}

  function Overflow(first: Event, evs: seq<Event>): seq<Step> {
    [Persist(first), Select(first.chatJID)] + Burst(evs, 1)
  }

  lemma {:induction false} RunSplit(tok: Tokenizer, s: System, a: seq<Step>, b: seq<Step>)
    ensures Run(tok, s, a + b) == Run(tok, Run(tok, s, a), b)
    decreases |b|
  {
    hide Next;
    if b == [] {
      assert a + b == a;
    } else {
      var n := |b| - 1;
      assert (a + b)[..|a| + n] == a + b[..n];
      RunSplit(tok, s, a, b[..n]);
    }
  }

  /** The last event of a burst of 65 into an open chat: dropped, stored above the cursor, not shown. */
  lemma LastIsUnseen(tok: Tokenizer, s: System, r1: Message, evs: seq<Event>)
    requires OpenOn(s, r1) && s.view.loaded && AllAcceptable(evs) && |evs| == IncomingBuffer + 1
    requires evs[IncomingBuffer].ts > r1.ts && evs[IncomingBuffer].waID != r1.waID
    requires forall ev :: ev in evs[..IncomingBuffer] ==> ev.waID != evs[IncomingBuffer].waID
    ensures Unseen(Run(tok, s, Burst(evs, 1)), evs[IncomingBuffer].waID)
  {
    hide Next;
    var before, ev := evs[..IncomingBuffer], evs[IncomingBuffer];
    assert evs[..|evs| - 1] == before;
    assert forall e :: e in before ==> e in evs;
    BurstOverflows(tok, s, before);
    BurstStoresOnlyItself(tok, s, before, ev.waID);
    var t := Run(tok, s, Burst(before, 1));
    RunTwoMore(tok, s, Burst(before, 1), Persist(ev), Send(1));
    OneArrival(tok, t, ev);
    var rows := Inserted(tok, t.db, RowOf(ev), !ev.fromMe).rows;
    assert rows[|t.db.rows|].waID == ev.waID && !OlderThan(rows[|t.db.rows|], CursorOf(r1));
  }

  /**
   * The program reaches such a state from an empty database: a chat is open on its first
   * message and 65 events arrive before the next frame. The channel then holds 64 of them, the
   * last one is dropped although it is stored, and whatever the user does in the chat
   * afterwards, short of leaving it, does not show it unless it is delivered again.
   */
  lemma DroppedFromBoot(tok: Tokenizer, first: Event, evs: seq<Event>, steps: seq<Step>)
    requires Acceptable(RowOf(first)) && AllAcceptable(evs) && |evs| == 65
    requires
      var last := evs[64];
      && last.chatJID == first.chatJID && last.ts > first.ts && last.waID != first.waID
      && (forall ev :: ev in evs[..64] ==> ev.waID != last.waID)
      && (forall i :: 0 <= i < |steps| ==> Staying(steps[i], first.chatJID, last.waID))
    ensures
      var last, t := evs[64], Run(tok, Boot(Empty()), Overflow(first, evs));
      && t.queue == evs[..64] && t.log.dropped == [last] && t.log.drained == []
      && t.view.selected == last.chatJID && Has(t.db.rows, last.waID) && last.waID !in Shown(t.view.messages)
      && (var u := Run(tok, t, steps);
          last.waID in Shown(u.view.messages) ==> last.waID in ShownBy(u.log.drained, last.chatJID))
  {
    hide Next;
    var s0, r1, last := Boot(Empty()), Stored(RowOf(first), 1), evs[IncomingBuffer];
    var opening := [Persist(first), Select(first.chatJID)];
    OpenOnFirst(tok, first);
    RunTwoMore(tok, s0, [], Persist(first), Select(first.chatJID));
    assert [] + opening == opening;
    var s := Run(tok, s0, opening);
    RunSplit(tok, s0, opening, Burst(evs, 1));
    OpeningKeepsLog(tok, first);
    BurstOverflows(tok, s, evs);
    LastIsUnseen(tok, s, r1, evs);
    BootLeads(Empty());
    ViewNeverLeadsStore(tok, s0, Overflow(first, evs));
    var t := Run(tok, s0, Overflow(first, evs));
    assert evs[IncomingBuffer..] == [last] && s.log.dropped + [last] == [last];
    StaysInvisible(tok, t, steps, last.waID);
    assert Run(tok, t, steps).log.drained[0..] == Run(tok, t, steps).log.drained;
  }

  lemma OpeningKeepsLog(tok: Tokenizer, first: Event)
    requires Acceptable(RowOf(first))
    ensures
      var s := Next(tok, Next(tok, Boot(Empty()), Persist(first)), Select(first.chatJID));
      s.log.dropped == [] && s.log.drained == [] && s.view.loaded
  {}

  // ---------------------------------------------------------------- history that arrives after the end

  lemma BatchOfOne(tok: Tokenizer, db: DB, m: Message)
    requires Acceptable(m)
    ensures InsertEach(tok, db, [m]) == Inserted(tok, db, m, false)
  {
    assert [m][..0] == [] && InsertEach(tok, db, []) == db;
  }

  /**
   * Once the window is not empty and the cursor has come back to the start, LoadOlder reports
   * zero for good. A message of the open chat that history sync stores after that is never
   * shown while the chat stays open, however old it is.
   */
  lemma LateHistoryStaysHidden(tok: Tokenizer, s: System, m: Message, steps: seq<Step>)
    requires StoreLeads(s) && s.view.loaded && s.view.messages != [] && s.view.cursor == Start
    requires Acceptable(m) && !Has(s.db.rows, m.waID) && m.chatJID == s.view.selected
    requires forall i :: 0 <= i < |steps| ==> Staying(steps[i], s.view.selected, m.waID)
    ensures
      var t := Next(tok, s, Write(DoInsertBatch([m])));
      && Has(t.db.rows, m.waID) && LoadOlder(t.view, t.db.rows) == Ok((t.view, 0))
      && (var u, n := Run(tok, t, steps), |t.log.drained|;
          && n <= |u.log.drained|
          && (m.waID in Shown(u.view.messages) ==> m.waID in ShownBy(u.log.drained[n..], s.view.selected)))
  {
    var t := Next(tok, s, Write(DoInsertBatch([m])));
    NextKeepsLead(tok, s, Write(DoInsertBatch([m])));
    BatchOfOne(tok, s.db, m);
    var n := |s.db.rows|;
    assert t.db.rows[n].waID == m.waID;
    forall x | x in s.view.messages ensures x.waID != m.waID {
      assert Has(s.db.rows, x.waID);
    }
    assert m.chatJID != "";
    assert Unseen(t, m.waID);
    hide Next, Unseen, StoreLeads, Staying;
    StaysInvisible(tok, t, steps, m.waID);
  }
}
