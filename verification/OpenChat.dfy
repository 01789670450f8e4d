/**
 * The open chat's message window against the store: when its messages are distinct and at or
 * above the paging cursor, and the late arrival that breaks it.
 */
module OpenChat {
  import opened Prelude
  import opened Tables
  import opened Paging
  import opened Reducer
  import opened Protocol

  ghost predicate DistinctWAIDs(msgs: seq<Message>) {
    forall i, j :: 0 <= i < j < |msgs| ==> msgs[i].waID != msgs[j].waID
  }

  /** The stored row with this wa_id is not below the cursor. */
  ghost predicate AtOrAbove(rows: seq<Message>, waID: string, c: Cursor) {
    exists i :: 0 <= i < |rows| && rows[i].waID == waID && (c == Start || !OlderThan(rows[i], c))
  }

  ghost predicate AllAtOrAbove(msgs: seq<Message>, rows: seq<Message>, c: Cursor) {
    forall m :: m in msgs ==> AtOrAbove(rows, m.waID, c)
  }

  /** The loaded window: one chat, no message twice, nothing below where paging goes on. */
  ghost predicate Window(v: View, rows: seq<Message>) {
    && DistinctWAIDs(v.messages)
    && AllAtOrAbove(v.messages, rows, v.cursor)
    && (forall m :: m in v.messages ==> m.chatJID == v.selected)
    && (v.messages == [] ==> v.cursor == Start)
  }

  lemma AtOrAboveKept(a: seq<Message>, b: seq<Message>, waID: string, c: Cursor)
    requires Evolves(a, b) && AtOrAbove(a, waID, c)
    ensures AtOrAbove(b, waID, c)
  {
    var i :| 0 <= i < |a| && a[i].waID == waID && (c == Start || !OlderThan(a[i], c));
    assert SameKey(a[i], b[i]);
  }

  lemma WindowKept(v: View, a: seq<Message>, b: seq<Message>)
    requires Evolves(a, b) && Window(v, a)
    ensures Window(v, b)
  {
    forall m | m in v.messages ensures AtOrAbove(b, m.waID, v.cursor) {
      AtOrAboveKept(a, b, m.waID, v.cursor);
    }
  }

  /** A page read from the table is such a window by itself. */
  lemma PageIsWindow(rows: seq<Message>, page: Page)
    requires WellFormed(rows) && Descending(page.msgs) && FromTable(page.msgs, rows)
    requires page.msgs != [] ==> page.next == CursorOf(page.msgs[|page.msgs| - 1])
    requires page.msgs == [] ==> page.next == Start
    ensures DistinctWAIDs(page.msgs) && AllAtOrAbove(page.msgs, rows, page.next)
  {
    forall i, j | 0 <= i < j < |page.msgs| ensures page.msgs[i].waID != page.msgs[j].waID {
      assert page.msgs[i] in rows && page.msgs[j] in rows;
      assert Newer(page.msgs[i], page.msgs[j]);
    }
    if page.msgs != [] {
      LastIsOldest(page.msgs);
    }
    forall m | m in page.msgs ensures AtOrAbove(rows, m.waID, page.next) {
      var i :| 0 <= i < |rows| && rows[i] == m;
    }
  }

  lemma SelectGivesWindow(v: View, rows: seq<Message>, jid: string)
    requires WellFormed(rows) && Window(v, rows) && SelectChat(v, rows, jid).Ok?
    ensures Window(SelectChat(v, rows, jid).value, rows)
  {
    hide WellFormed, PageOlder, Descending, DistinctWAIDs, AllAtOrAbove;
    if !(jid == v.selected && v.loaded) {
      PageOlderMeaning(rows, jid, Start, PageSize);
      PageIsWindow(rows, PageOlder(rows, jid, Start, PageSize).value);
    }
  }

  lemma JumpGivesWindow(v: View, rows: seq<Message>, chat: string, id: int)
    requires WellFormed(rows) && JumpToMessage(v, rows, chat, id).Ok?
    ensures Window(JumpToMessage(v, rows, chat, id).value, rows)
  {
    hide WellFormed, PageAround, Descending, DistinctWAIDs, AllAtOrAbove;
    AroundFound(rows, chat, id, PageSize / 2, PageSize / 2);
    PageIsWindow(rows, PageAround(rows, chat, id, PageSize / 2, PageSize / 2).value);
  }

  /** Rows below the cursor carry none of the wa_ids already loaded. */
  lemma OlderRowsAreNew(rows: seq<Message>, msgs: seq<Message>, c: Cursor, m: Message)
    requires WellFormed(rows) && AllAtOrAbove(msgs, rows, c) && c != Start
    requires m in rows && OlderThan(m, c)
    ensures forall x :: x in msgs ==> x.waID != m.waID
  {
    forall x | x in msgs ensures x.waID != m.waID {
      var i :| 0 <= i < |rows| && rows[i].waID == x.waID && !OlderThan(rows[i], c);
      var j :| 0 <= j < |rows| && rows[j] == m;
    }
  }

  lemma LoweredCursor(rows: seq<Message>, msgs: seq<Message>, c: Cursor, page: Page)
    requires AllAtOrAbove(msgs, rows, c) && c != Start
    requires page.msgs == [] ==> page.next == Start
    requires page.msgs != []
        ==> page.next == CursorOf(page.msgs[|page.msgs| - 1]) && OlderThan(page.msgs[|page.msgs| - 1], c)
    ensures AllAtOrAbove(msgs, rows, page.next)
  {
    forall m | m in msgs ensures AtOrAbove(rows, m.waID, page.next) {
      var i :| 0 <= i < |rows| && rows[i].waID == m.waID && !OlderThan(rows[i], c);
    }
  }

  /** Appending an older page keeps the window: no row comes twice. */
  lemma OlderKeepsWindow(v: View, rows: seq<Message>)
    requires WellFormed(rows) && Window(v, rows) && LoadOlder(v, rows).Ok?
    ensures Window(LoadOlder(v, rows).value.0, rows)
  {
    hide WellFormed, PageOlder, AllAtOrAbove, AtOrAbove, Descending;
    if !(IsZero(v.cursor) && v.messages != []) {
      var page := PageOlder(rows, v.selected, v.cursor, PageSize).value;
      PageOlderMeaning(rows, v.selected, v.cursor, PageSize);
      PageIsWindow(rows, page);
      if v.messages == [] {
        assert v.messages + page.msgs == page.msgs;
      } else {
        forall m | m in page.msgs ensures forall x :: x in v.messages ==> x.waID != m.waID {
          OlderRowsAreNew(rows, v.messages, v.cursor, m);
        }
        if page.msgs != [] {
          assert page.msgs[|page.msgs| - 1] in page.msgs;
        }
        LoweredCursor(rows, v.messages, v.cursor, page);
        JoinAbove(v.messages, page.msgs, rows, page.next);
      }
    }
  }

  lemma JoinAbove(a: seq<Message>, b: seq<Message>, rows: seq<Message>, c: Cursor)
    requires AllAtOrAbove(a, rows, c) && AllAtOrAbove(b, rows, c)
    ensures AllAtOrAbove(a + b, rows, c)
  {}

  lemma FoldDistinct(msgs: seq<Message>, m: Message)
    requires DistinctWAIDs(msgs)
    ensures DistinctWAIDs(FoldMessage(msgs, m))
    ensures forall x :: x in FoldMessage(msgs, m) ==> x == m || x in msgs
    ensures Has(msgs, m.waID) ==> exists x :: x in msgs && x.waID == m.waID
    ensures m in FoldMessage(msgs, m)
  {
    if Has(msgs, m.waID) {
      var i := IndexOf(msgs, m.waID);
      assert msgs[i] in msgs;
      assert FoldMessage(msgs, m)[i] == m;
    } else {
      assert forall j :: 0 <= j < |msgs| ==> msgs[j].waID != m.waID;
      assert FoldMessage(msgs, m)[0] == m;
    }
  }

  /**
   * Folding an event of the open chat keeps the window exactly when the message is already
   * loaded or its stored row is not below a cursor from which paging goes on.
   */
  lemma FoldKeepsWindowExactly(v: View, rows: seq<Message>, ev: Event)
    requires Window(v, rows) && ev.chatJID == v.selected
    ensures Window(OnIncoming(v, ev), rows) <==> Has(v.messages, ev.waID) || AtOrAbove(rows, ev.waID, v.cursor)
  {
    hide FoldMessage, StableSort, UpsertSummary, AtOrAbove;
    FoldDistinct(v.messages, Bubble(ev));
  }

  /** What a step must not do: bring a stored row below the cursor onto the screen. */
  ghost predicate InWindow(tok: Tokenizer, s: System, step: Step) {
    match step
    case Drain =>
      s.queue != [] && s.queue[0].chatJID == s.view.selected ==>
        Has(s.view.messages, s.queue[0].waID) || AtOrAbove(s.db.rows, s.queue[0].waID, s.view.cursor)
    case Optimistic(waID, chat, body, ts) =>
      chat == s.view.selected && chat != "" && waID != "" ==>
        Has(s.view.messages, waID)
        || AtOrAbove(Inserted(tok, s.db, OptimisticRow(waID, chat, body, ts), false).rows, waID, s.view.cursor)
    case _ => true
  }

  lemma FoldKeepsWindow(v: View, rows: seq<Message>, ev: Event)
    requires Window(v, rows)
    requires ev.chatJID == v.selected ==> Has(v.messages, ev.waID) || AtOrAbove(rows, ev.waID, v.cursor)
    ensures Window(OnIncoming(v, ev), rows)
  {
    hide StableSort, UpsertSummary, AtOrAbove, FoldMessage;
    if ev.chatJID == v.selected {
      FoldDistinct(v.messages, Bubble(ev));
    }
  }

  lemma OptimisticKeepsWindow(tok: Tokenizer, s: System, waID: string, chat: string, body: string, ts: int)
    requires StoreLeads(s) && Window(s.view, s.db.rows) && InWindow(tok, s, Optimistic(waID, chat, body, ts))
    ensures
      var t := Next(tok, s, Optimistic(waID, chat, body, ts));
      Window(t.view, t.db.rows)
  {
    if chat != "" && waID != "" {
      var db := Inserted(tok, s.db, OptimisticRow(waID, chat, body, ts), false);
      InsertedKeeps(tok, s.db, OptimisticRow(waID, chat, body, ts), false);
      hide WellFormed, Window, OnIncoming, Inserted, AtOrAbove;
      WindowKept(s.view, s.db.rows, db.rows);
      FoldKeepsWindow(s.view, db.rows, OptimisticEvent(waID, chat, body, ts));
      TagKeepsWindow(OnIncoming(s.view, OptimisticEvent(waID, chat, body, ts)), db.rows, waID);
    }
  }

  lemma TagKeepsWindow(v: View, rows: seq<Message>, waID: string)
    requires Window(v, rows)
    ensures Window(v.(messages := TagPending(v.messages, waID)), rows)
  {
    hide AtOrAbove;
    HeadIsMember(v.messages);
  }

  lemma NextKeepsWindow(tok: Tokenizer, s: System, step: Step)
    requires StoreLeads(s) && Window(s.view, s.db.rows) && InWindow(tok, s, step)
    ensures Window(Next(tok, s, step).view, Next(tok, s, step).db.rows)
  {
    hide AllStored, Trails, Enumerates, Window, AtOrAbove, Apply, SelectChat, LoadOlder, JumpToMessage,
         OnIncoming, Inserted, LoadChats, MarkRead;
    match step
    case Persist(ev) =>
      PersistKeepsLead(tok, s, ev);
      WindowKept(s.view, s.db.rows, Persisted(tok, s, ev).db.rows);
    case Send(k) =>
    case Drain =>
      if s.queue != [] {
        FoldKeepsWindow(s.view, s.db.rows, s.queue[0]);
      }
    case Select(jid) =>
      if SelectChat(s.view, s.db.rows, jid).Ok? {
        SelectGivesWindow(s.view, s.db.rows, jid);
      }
    case Older =>
      if LoadOlder(s.view, s.db.rows).Ok? {
        OlderKeepsWindow(s.view, s.db.rows);
      }
    case Jump(chat, id) =>
      if JumpToMessage(s.view, s.db.rows, chat, id).Ok? {
        JumpGivesWindow(s.view, s.db.rows, chat, id);
      }
    case GoBack => EmptyWindow(Back(s.view), s.db.rows);
    case Optimistic(waID, chat, body, ts) => OptimisticKeepsWindow(tok, s, waID, chat, body, ts);
    case Reload(order) => SameWindow(s.view, LoadChatsOr(s, order), s.db.rows);
    case MarkSelectedRead =>
      ChatOpKeeps(s.db, s.view.selected, "");
      SameWindow(s.view, Next(tok, s, step).view, s.db.rows);
    case Write(op) =>
      ApplyKeeps(tok, s.db, op);
      WindowKept(s.view, s.db.rows, Apply(tok, s.db, op).rows);
  }

  ghost function LoadChatsOr(s: System, order: seq<string>): (v: View)
    ensures v.messages == s.view.messages && v.cursor == s.view.cursor && v.selected == s.view.selected
  {
    if Enumerates(order, Unarchived(s.db.chats)) then LoadChats(s.view, s.db.chats, order) else s.view
  }

  lemma SameWindow(v: View, w: View, rows: seq<Message>)
    requires Window(v, rows) && w.messages == v.messages && w.cursor == v.cursor && w.selected == v.selected
    ensures Window(w, rows)
  {}

  lemma EmptyWindow(v: View, rows: seq<Message>)
    requires v.messages == [] && v.cursor == Start
    ensures Window(v, rows)
  {}

  /**
   * In every interleaving in which no step brings a stored row from below the cursor onto the
   * screen, the open chat shows no message twice, only messages of that chat, and each has a
   * stored row at or above the cursor paging goes on from.
   */
  lemma {:induction false} OpenChatWindow(tok: Tokenizer, s: System, steps: seq<Step>)
    requires StoreLeads(s) && Window(s.view, s.db.rows)
    requires forall i :: 0 <= i < |steps| ==> InWindow(tok, Run(tok, s, steps[..i]), steps[i])
    ensures Window(Run(tok, s, steps).view, Run(tok, s, steps).db.rows)
    decreases |steps|
  {
    hide StoreLeads, Next, Window, InWindow;
    if steps != [] {
      var before := steps[..|steps| - 1];
      forall i | 0 <= i < |before| ensures before[..i] == steps[..i] {}
      OpenChatWindow(tok, s, before);
      ViewNeverLeadsStore(tok, s, before);
      NextKeepsWindow(tok, Run(tok, s, before), steps[|steps| - 1]);
    }
  }

  // ---------------------------------------------------------------- the late arrival

  /** One more step of a run. */
  lemma RunStep(tok: Tokenizer, s: System, steps: seq<Step>, k: nat)
    requires k < |steps|
    ensures Run(tok, s, steps[..k + 1]) == Next(tok, Run(tok, s, steps[..k]), steps[k])
  {
    assert steps[..k + 1][..k] == steps[..k] && steps[..k + 1][k] == steps[k];
  }

  lemma HistoryOfOne(m: Message)
    requires WellFormed([m])
    ensures History([m], m.chatJID) == [m]
  {
    SelectedMeaning([m], m.chatJID, Everything);
    DescendingUnique(History([m], m.chatJID), [m]);
  }

  lemma HistoryOfTwo(a: Message, b: Message)
    requires WellFormed([a, b]) && a.chatJID == b.chatJID && a.ts > b.ts
    ensures History([a, b], a.chatJID) == [a, b]
  {
    SelectedMeaning([a, b], a.chatJID, Everything);
    DescendingUnique(History([a, b], a.chatJID), [a, b]);
  }

  function LateArrival(first: Event, late: Event): seq<Step> {
    [Persist(first), Select(first.chatJID), Persist(late), Send(1), Drain, Older]
  }

  /** A chat open on its only message. */
  ghost predicate OpenOn(s: System, r1: Message) {
    && s.db.rows == [r1] && s.queue == [] && |s.inflight| == 1
    && s.view.selected == r1.chatJID && s.view.messages == [r1] && s.view.cursor == CursorOf(r1)
  }

  lemma OpenOnFirst(tok: Tokenizer, first: Event)
    requires Acceptable(RowOf(first))
    ensures OpenOn(Next(tok, Next(tok, Boot(Empty()), Persist(first)), Select(first.chatJID)),
        Stored(RowOf(first), 1))
  {
    var r1 := Stored(RowOf(first), 1);
    var s1 := Next(tok, Boot(Empty()), Persist(first));
    FirstPersisted(tok, first);
    OpensOnOnly(s1.view, r1);
  }

  lemma FirstPersisted(tok: Tokenizer, first: Event)
    requires Acceptable(RowOf(first))
    ensures
      var s1 := Next(tok, Boot(Empty()), Persist(first));
      && s1.db.rows == [Stored(RowOf(first), 1)] && s1.inflight == [first] && s1.queue == []
      && s1.view == NewView()
  {
    hide TouchChat;
  }

  lemma OpensOnOnly(v: View, m: Message)
    requires WellFormed([m]) && v == NewView()
    ensures SelectChat(v, [m], m.chatJID) == Ok(Open(v, m.chatJID, Page([m], CursorOf(m))))
  {
    hide PageOlder;
    HistoryOfOne(m);
    FirstPage([m], m.chatJID, PageSize);
  }

  lemma LateOnTop(tok: Tokenizer, s: System, r1: Message, late: Event)
    requires OpenOn(s, r1) && Acceptable(RowOf(late)) && late.waID != r1.waID
    requires late.chatJID == r1.chatJID && r1.id == 1
    ensures
      var t := Next(tok, Next(tok, Next(tok, s, Persist(late)), Send(1)), Drain);
      && t.db.rows == [r1, Stored(RowOf(late), 2)]
      && t.view.selected == r1.chatJID && t.view.cursor == CursorOf(r1) && t.view.messages == [Bubble(late), r1]
  {
    hide StableSort, UpsertSummary, TouchChat;
    var s3 := Next(tok, s, Persist(late));
    assert s3.db.rows == [r1, Stored(RowOf(late), 2)] && s3.inflight[1] == late;
    var s4 := Next(tok, s3, Send(1));
    assert s4.queue == [late];
  }

  lemma OlderRepeats(tok: Tokenizer, s: System, r1: Message, r2: Message, top: Message)
    requires s.db.rows == [r1, r2] && WellFormed([r1, r2]) && r1.chatJID == r2.chatJID && r2.ts < r1.ts
    requires s.view.selected == r1.chatJID && s.view.cursor == CursorOf(r1) && s.view.messages == [top, r1]
    ensures Next(tok, s, Older).view.messages == [top, r1, r2]
  {
    hide PageOlder;
    HistoryOfTwo(r1, r2);
    assert r1 in [r1, r2];
    RowCursor([r1, r2], r1.chatJID, Everything, History([r1, r2], r1.chatJID)[0]);
    NextPage([r1, r2], r1.chatJID, 0, PageSize);
    assert Take([r1, r2][1..], PageSize) == [r2];
  }

  /**
   * The condition is needed. A chat is open on its only message, an older message of the same
   * chat arrives late and is put on top, and the next page brings it a second time.
   */
  lemma LateArrivalShowsTwice(tok: Tokenizer, first: Event, late: Event)
    requires Acceptable(RowOf(first)) && Acceptable(RowOf(late)) && first.waID != late.waID
    requires first.chatJID == late.chatJID && late.ts < first.ts
    ensures
      var msgs := Run(tok, Boot(Empty()), LateArrival(first, late)).view.messages;
      |msgs| == 3 && msgs[0].waID == msgs[2].waID == late.waID && msgs[1].waID == first.waID
  {
    hide Next;
    var r1, r2 := Stored(RowOf(first), 1), Stored(RowOf(late), 2);
    var s2 := Next(tok, Next(tok, Boot(Empty()), Persist(first)), Select(first.chatJID));
    OpenOnFirst(tok, first);
    LateOnTop(tok, s2, r1, late);
    OlderRepeats(tok, Next(tok, Next(tok, Next(tok, s2, Persist(late)), Send(1)), Drain), r1, r2, Bubble(late));
    LateArrivalRun(tok, first, late);
  }

  lemma LateArrivalRun(tok: Tokenizer, first: Event, late: Event)
    ensures Run(tok, Boot(Empty()), LateArrival(first, late))
         == Next(tok, Next(tok, Next(tok, Next(tok, Next(tok, Next(tok, Boot(Empty()),
              Persist(first)), Select(first.chatJID)), Persist(late)), Send(1)), Drain), Older)
  {
    hide Next;
    var s0, steps := Boot(Empty()), LateArrival(first, late);
    assert Run(tok, s0, steps[..0]) == s0;
    hide Run;
    RunStep(tok, s0, steps, 0);
    RunStep(tok, s0, steps, 1);
    RunStep(tok, s0, steps, 2);
    RunStep(tok, s0, steps, 3);
    RunStep(tok, s0, steps, 4);
    RunStep(tok, s0, steps, 5);
    assert steps[..6] == steps;
  }

  // ---------------------------------------------------------------- no event is lost or doubled

  lemma RemovedFromFlight(s: seq<Event>, k: nat)
    requires k < |s|
    ensures multiset(s) == multiset(s[..k] + s[k + 1..]) + multiset{s[k]}
  {
    assert s == s[..k] + [s[k]] + s[k + 1..];
  }

  ghost predicate Conserved(s: System) {
    multiset(s.log.accepted)
        == multiset(s.inflight) + multiset(s.queue) + multiset(s.log.drained) + multiset(s.log.dropped)
  }

  /** Every accepted event is exactly once in flight, queued, drained or dropped. */
  lemma {:induction false} EventsConserved(tok: Tokenizer, s: System, steps: seq<Step>)
    requires Conserved(s)
    ensures Conserved(Run(tok, s, steps))
  {
    if steps != [] {
      var t, step := Run(tok, s, steps[..|steps| - 1]), steps[|steps| - 1];
      EventsConserved(tok, s, steps[..|steps| - 1]);
      NextConserves(tok, t, step);
    }
  }

  lemma NextConserves(tok: Tokenizer, t: System, step: Step)
    requires Conserved(t)
    ensures Conserved(Next(tok, t, step))
  {
    hide Persisted, Sent, Drained;
    if step.Send? {
      SendConserves(t, step.k);
    } else if step.Drain? {
      DrainConserves(t);
    } else if step.Persist? {
      PersistConserves(tok, t, step.ev);
    } else {
      hide Enumerates, Apply, Inserted, MarkRead, OnIncoming, SelectChat, LoadOlder, JumpToMessage, LoadChats,
           Conserved;
      var u := Next(tok, t, step);
      assert u.log == t.log && u.inflight == t.inflight && u.queue == t.queue;
      SameLog(t, u);
    }
  }

  lemma PersistConserves(tok: Tokenizer, t: System, ev: Event)
    requires Conserved(t)
    ensures Conserved(Persisted(tok, t, ev))
  {
    hide Inserted, Has;
  }

  lemma SameLog(t: System, u: System)
    requires Conserved(t) && u.log == t.log && u.inflight == t.inflight && u.queue == t.queue
    ensures Conserved(u)
  {}

  lemma SendConserves(t: System, k: nat)
    requires Conserved(t)
    ensures Conserved(Sent(t, k))
  {
    if k < |t.inflight| {
      RemovedFromFlight(t.inflight, k);
    }
  }

  lemma DrainConserves(t: System)
    requires Conserved(t)
    ensures Conserved(Drained(t))
  {
    hide OnIncoming;
    if t.queue != [] {
      assert t.queue == [t.queue[0]] + t.queue[1..];
    }
  }

  // ---------------------------------------------------------------- the order and the text on screen

  ghost predicate NewestOnTop(msgs: seq<Message>) {
    forall i, j :: 0 <= i < j < |msgs| ==> msgs[i].ts >= msgs[j].ts
  }

  /** The timestamp fits between the entries around position `k`. */
  predicate FitsAt(msgs: seq<Message>, k: int, ts: int)
    requires 0 <= k < |msgs|
  {
    (k > 0 ==> msgs[k - 1].ts >= ts) && (k + 1 < |msgs| ==> ts >= msgs[k + 1].ts)
  }

  /**
   * The fold puts a new message on top and a loaded one where its copy was, whatever the
   * timestamp. So the order by time survives exactly when a new message is not older than the
   * one that was on top, and a loaded one still fits between its neighbours.
   */
  lemma FoldKeepsOrderExactly(v: View, ev: Event)
    requires ev.chatJID == v.selected && NewestOnTop(v.messages)
    ensures NewestOnTop(OnIncoming(v, ev).messages)
       <==> if Has(v.messages, ev.waID) then FitsAt(v.messages, IndexOf(v.messages, ev.waID), ev.ts)
            else v.messages == [] || ev.ts >= v.messages[0].ts
  {
    hide StableSort, UpsertSummary, Has;
    if Has(v.messages, ev.waID) {
      ReplacedInOrder(v.messages, IndexOf(v.messages, ev.waID), Bubble(ev));
    } else {
      PrependedInOrder(v.messages, Bubble(ev));
    }
  }

  /**
   * Both fail: an event older than the top one, and the confirmation of an outgoing message
   * whose server timestamp is later than that of a message shown above it.
   */
  lemma FoldBreaksOrder(v: View, a: Message, b: Message, late: Event, confirmed: Event)
    requires v.messages == [a, b] && a.ts >= b.ts && a.waID != b.waID
    requires late.chatJID == v.selected && late.waID != a.waID && late.waID != b.waID && late.ts < a.ts
    requires confirmed.chatJID == v.selected && confirmed.waID == b.waID && confirmed.ts > a.ts
    ensures NewestOnTop(v.messages)
    ensures !NewestOnTop(OnIncoming(v, late).messages) && !NewestOnTop(OnIncoming(v, confirmed).messages)
  {
    hide StableSort, UpsertSummary, FoldMessage;
    assert v.messages[1].waID == confirmed.waID;
    assert IndexOf(v.messages, confirmed.waID) == 1;
    FoldKeepsOrderExactly(v, late);
    FoldKeepsOrderExactly(v, confirmed);
  }

  lemma ReplacedInOrder(msgs: seq<Message>, k: int, m: Message)
    requires NewestOnTop(msgs) && 0 <= k < |msgs|
    ensures NewestOnTop(msgs[k := m]) <==> FitsAt(msgs, k, m.ts)
  {
    var after := msgs[k := m];
    if NewestOnTop(after) {
      assert k > 0 ==> after[k - 1].ts >= after[k].ts;
      assert k + 1 < |msgs| ==> after[k].ts >= after[k + 1].ts;
    }
    if FitsAt(msgs, k, m.ts) {
      assert forall i :: 0 <= i < k ==> msgs[i].ts >= msgs[k - 1].ts;
      assert forall j :: k < j < |msgs| ==> msgs[k + 1].ts >= msgs[j].ts;
    }
  }

  lemma PrependedInOrder(msgs: seq<Message>, m: Message)
    requires NewestOnTop(msgs)
    ensures NewestOnTop([m] + msgs) <==> msgs == [] || m.ts >= msgs[0].ts
  {
    var after := [m] + msgs;
    if msgs != [] {
      assert after[0].ts == m.ts && after[1] == msgs[0];
      if m.ts >= msgs[0].ts {
        forall j | 1 <= j < |after| ensures m.ts >= after[j].ts {
          assert after[j] == msgs[j - 1];
        }
      }
    }
  }

  /**
   * A redelivery replaces the loaded copy in place, but not by anything fresher: only five
   * fields are carried over, so the copy on screen is no stored row any more. It has lost its
   * rowid, media, delivery status and the marks of an edit or a revoke, which the store keeps.
   */
  lemma RedeliveryStripsCopy(tok: Tokenizer, s: System, ev: Event, k: int)
    requires StoreLeads(s) && DistinctWAIDs(s.view.messages) && Acceptable(RowOf(ev)) && ev.chatJID == s.view.selected
    requires 0 <= k < |s.view.messages| && s.view.messages[k] in s.db.rows && s.view.messages[k].waID == ev.waID
    ensures
      var rows, msgs := Persisted(tok, s, ev).db.rows, OnIncoming(s.view, ev).messages;
      && rows == s.db.rows
      && |msgs| == |s.view.messages| && (forall j :: 0 <= j < |msgs| && j != k ==> msgs[j] == s.view.messages[j])
      && msgs[k] !in rows
      && msgs[k].mediaPath == "" && msgs[k].status == "" && !msgs[k].edited && !msgs[k].revoked
  {
    hide StableSort, UpsertSummary, TouchChat, AllStored, Trails;
    var i :| 0 <= i < |s.db.rows| && s.db.rows[i] == s.view.messages[k];
    assert Has(s.db.rows, ev.waID) && Has(s.view.messages, ev.waID);
    assert IndexOf(s.view.messages, ev.waID) == k;
    assert OnIncoming(s.view, ev).messages[k].id == 0;
  }

  /** Both stand for the same message, with the same text. */
  predicate SameText(a: Message, b: Message) {
    a.waID == b.waID && a.chatJID == b.chatJID && a.senderJID == b.senderJID && a.ts == b.ts && a.body == b.body
  }

  /** A new event is stored and shown alike, and both say what the event said. */
  lemma ShownAsStored(tok: Tokenizer, s: System, v: View, ev: Event)
    requires Acceptable(RowOf(ev)) && !Has(s.db.rows, ev.waID)
    requires v.selected == ev.chatJID && !Has(v.messages, ev.waID)
    ensures
      var t := Next(tok, s, Persist(ev));
      var row, shown := t.db.rows[|s.db.rows|], OnIncoming(v, ev).messages[0];
      && |t.db.rows| == |s.db.rows| + 1
      && SameText(row, shown)
      && row.waID == ev.waID && row.senderJID == ev.senderJID && row.ts == ev.ts && row.body == ev.body
      && row.mediaPath == ev.mediaPath && row.mediaType == ev.mediaType && row.status == "sent"
      && row.quotedWAID == ev.quotedWAID && row.quotedBody == ev.quotedBody && row.quotedSender == ev.quotedSender
      && row.linkURL == ev.linkURL && row.linkTitle == ev.linkTitle && row.linkDesc == ev.linkDesc
  {
    hide StableSort, UpsertSummary, TouchChat;
    assert OnIncoming(v, ev).messages == [Bubble(ev)] + v.messages;
  }

  /** An outgoing message is stored and shown alike, as ours, and as pending in both places. */
  lemma OptimisticShownAsStored(tok: Tokenizer, v: View, db: DB, waID: string, chat: string, body: string, ts: int)
    requires chat != "" && waID != "" && !Has(db.rows, waID)
    requires v.selected == chat && !Has(v.messages, waID)
    ensures AddOptimistic(tok, v, db, waID, chat, body, ts).Ok?
    ensures
      var (w, after) := AddOptimistic(tok, v, db, waID, chat, body, ts).value;
      && |after.rows| == |db.rows| + 1 && |w.messages| == |v.messages| + 1
      && SameText(after.rows[|db.rows|], w.messages[0])
      && after.rows[|db.rows|].senderJID == "" && after.rows[|db.rows|].body == body
      && after.rows[|db.rows|].status == w.messages[0].status == "pending"
      && w.messages[1..] == v.messages
  {
    hide StableSort, UpsertSummary, TouchChat;
    assert OnIncoming(v, OptimisticEvent(waID, chat, body, ts)).messages
        == [Bubble(OptimisticEvent(waID, chat, body, ts))] + v.messages;
  }
}
