/**
 * When a message appears twice in the open chat: exactly when the window shows a message whose
 * stored row lies below the cursor from which LoadOlder goes on.
 */
module Doubles {
  import opened Prelude
  import opened Tables
  import opened Paging
  import opened Reducer
  import opened Protocol
  import opened OpenChat

  function OneOlder(v: View, rows: seq<Message>): View {
    match LoadOlder(v, rows)
    case Ok((w, _)) => w
    case Err(_) => v
  }

  function OlderTimes(v: View, rows: seq<Message>, n: nat): View
    decreases n
  {
    if n == 0 then v else OlderTimes(OneOlder(v, rows), rows, n - 1)
  }

  /** Some number of LoadOlder calls, possibly none, leaves a message on screen twice. */
  ghost predicate ShowsTwice(v: View, rows: seq<Message>) {
    exists n: nat :: !DistinctWAIDs(OlderTimes(v, rows, n).messages)
  }

  /** The message with this wa_id is one that paging on from `c` will return. */
  ghost predicate BelowCursor(rows: seq<Message>, chat: string, waID: string, c: Cursor) {
    c != Start
    && exists i :: 0 <= i < |rows| && rows[i].waID == waID && rows[i].chatJID == chat && OlderThan(rows[i], c)
  }

  ghost predicate NoneBelow(msgs: seq<Message>, rows: seq<Message>, chat: string, c: Cursor) {
    forall m :: m in msgs ==> !BelowCursor(rows, chat, m.waID, c)
  }

  ghost predicate Clean(v: View, rows: seq<Message>) {
    DistinctWAIDs(v.messages) && NoneBelow(v.messages, rows, v.selected, v.cursor)
  }

  // ---------------------------------------------------------------- paging on from a clean window

  /** Rows at or above a cursor are not below it: a wa_id has one row. */
  lemma AboveIsNotBelow(rows: seq<Message>, msgs: seq<Message>, chat: string, c: Cursor)
    requires WellFormed(rows) && AllAtOrAbove(msgs, rows, c)
    ensures NoneBelow(msgs, rows, chat, c)
  {
    forall m | m in msgs ensures !BelowCursor(rows, chat, m.waID, c) {
      var i :| 0 <= i < |rows| && rows[i].waID == m.waID && (c == Start || !OlderThan(rows[i], c));
    }
  }

  lemma LowerCursorKeepsNoneBelow(msgs: seq<Message>, rows: seq<Message>, chat: string, c: Cursor, next: Cursor)
    requires NoneBelow(msgs, rows, chat, c) && c != Start
    requires next == Start || forall m :: OlderThan(m, next) ==> OlderThan(m, c)
    ensures NoneBelow(msgs, rows, chat, next)
  {
    forall m | m in msgs ensures !BelowCursor(rows, chat, m.waID, next) {
      assert !BelowCursor(rows, chat, m.waID, c);
    }
  }

  lemma JoinClean(a: seq<Message>, b: seq<Message>, rows: seq<Message>, chat: string, c: Cursor)
    requires DistinctWAIDs(a) && DistinctWAIDs(b) && NoneBelow(a, rows, chat, c) && NoneBelow(b, rows, chat, c)
    requires forall x, y :: x in a && y in b ==> x.waID != y.waID
    ensures DistinctWAIDs(a + b) && NoneBelow(a + b, rows, chat, c)
  {
    hide BelowCursor;
  }

  lemma PageIsNew(msgs: seq<Message>, rows: seq<Message>, chat: string, c: Cursor, page: seq<Message>)
    requires NoneBelow(msgs, rows, chat, c) && c != Start
    requires forall m :: m in page ==> m in rows && Wanted(m, chat, Below(c))
    ensures forall x, y :: x in msgs && y in page ==> x.waID != y.waID
  {
    forall x, y | x in msgs && y in page ensures x.waID != y.waID {
      var i :| 0 <= i < |rows| && rows[i] == y;
      assert !BelowCursor(rows, chat, x.waID, c);
    }
  }

  lemma OlderKeepsClean(v: View, rows: seq<Message>)
    requires WellFormed(rows) && Clean(v, rows)
    ensures Clean(OneOlder(v, rows), rows)
  {
    hide WellFormed, PageOlder, AllAtOrAbove, NoneBelow, DistinctWAIDs, Descending;
    if v.selected != "" && !(IsZero(v.cursor) && v.messages != []) {
      PageOlderMeaning(rows, v.selected, v.cursor, PageSize);
      var page := PageOlder(rows, v.selected, v.cursor, PageSize).value;
      PageIsWindow(rows, page);
      AboveIsNotBelow(rows, page.msgs, v.selected, page.next);
      if IsZero(v.cursor) {
        assert v.messages + page.msgs == page.msgs;
      } else {
        PageIsNew(v.messages, rows, v.selected, v.cursor, page.msgs);
        if page.msgs != [] {
          assert page.msgs[|page.msgs| - 1] in page.msgs;
        }
        LowerCursorKeepsNoneBelow(v.messages, rows, v.selected, v.cursor, page.next);
        JoinClean(v.messages, page.msgs, rows, v.selected, page.next);
      }
    }
  }

  lemma {:induction false} CleanStaysDistinct(v: View, rows: seq<Message>, n: nat)
    requires WellFormed(rows) && Clean(v, rows)
    ensures DistinctWAIDs(OlderTimes(v, rows, n).messages)
    decreases n
  {
    hide WellFormed, NoneBelow, DistinctWAIDs, OneOlder;
    if n > 0 {
      OlderKeepsClean(v, rows);
      CleanStaysDistinct(OneOlder(v, rows), rows, n - 1);
    }
  }

  // ---------------------------------------------------------------- paging on to a row already shown

  lemma {:induction false} FewerMatch(rows: seq<Message>, chat: string, a: Range, b: Range)
    requires forall m :: m in rows && Wanted(m, chat, b) ==> Wanted(m, chat, a)
    ensures |Matching(rows, chat, b)| <= |Matching(rows, chat, a)|
    ensures (exists m :: m in rows && Wanted(m, chat, a) && !Wanted(m, chat, b))
            ==> |Matching(rows, chat, b)| < |Matching(rows, chat, a)|
  {
    hide Wanted;
    if rows != [] {
      assert rows == [rows[0]] + rows[1..];
      assert forall m :: m in rows[1..] ==> m in rows;
      FewerMatch(rows[1..], chat, a, b);
      if m :| m in rows && Wanted(m, chat, a) && !Wanted(m, chat, b) {
        assert m == rows[0] || m in rows[1..];
      }
    }
  }

  lemma Repeats(msgs: seq<Message>, page: seq<Message>, x: Message, y: Message)
    requires x in msgs && y in page && x.waID == y.waID
    ensures !DistinctWAIDs(msgs + page)
  {
    var i :| 0 <= i < |msgs| && msgs[i] == x;
    var j :| 0 <= j < |page| && page[j] == y;
    assert (msgs + page)[i].waID == (msgs + page)[|msgs| + j].waID;
  }

  /** One more page: it returns the row, or fewer rows remain below the new cursor, this one among them. */
  lemma OneOlderNearsRow(v: View, rows: seq<Message>, r: Message)
    requires WellFormed(rows) && v.cursor != Start && r in rows && Wanted(r, v.selected, Below(v.cursor))
    ensures
      var w := OneOlder(v, rows);
      && w.selected == v.selected && w.messages == v.messages + w.messages[|v.messages|..]
      && (r in w.messages[|v.messages|..]
          || (&& w.cursor != Start && Wanted(r, w.selected, Below(w.cursor))
              && |Matching(rows, v.selected, Below(w.cursor))| < |Matching(rows, v.selected, Below(v.cursor))|))
  {
    hide Matching, PageOlder, Descending;
    var i :| 0 <= i < |rows| && rows[i] == r;
    assert v.selected != "";
    hide WellFormed;
    PageOlderMeaning(rows, v.selected, v.cursor, PageSize);
    var page := PageOlder(rows, v.selected, v.cursor, PageSize).value;
    if r !in page.msgs {
      var last := page.msgs[|page.msgs| - 1];
      assert last in page.msgs && Newer(last, r);
      FewerMatch(rows, v.selected, Below(v.cursor), Below(page.next));
    }
  }

  lemma {:induction false} RowComesAgain(v: View, rows: seq<Message>, m: Message, r: Message) returns (n: nat)
    requires WellFormed(rows) && v.cursor != Start && r in rows && Wanted(r, v.selected, Below(v.cursor))
    requires m in v.messages && m.waID == r.waID
    ensures !DistinctWAIDs(OlderTimes(v, rows, n).messages)
    decreases |Matching(rows, v.selected, Below(v.cursor))|
  {
    hide WellFormed, Matching, Wanted, OneOlder, DistinctWAIDs;
    var w := OneOlder(v, rows);
    OneOlderNearsRow(v, rows, r);
    var page := w.messages[|v.messages|..];
    if r in page {
      Repeats(v.messages, page, m, r);
      assert OlderTimes(w, rows, 0) == w;
      n := 1;
    } else {
      n := RowComesAgain(w, rows, m, r);
      n := n + 1;
    }
  }

  /**
   * For any view of any stored chat: some number of LoadOlder calls shows a message twice if
   * and only if one is on screen twice already, or one is on screen whose row in the open chat
   * is stored below the cursor.
   */
  lemma ShowsTwiceExactly(v: View, rows: seq<Message>)
    requires WellFormed(rows)
    ensures ShowsTwice(v, rows) <==> !Clean(v, rows)
  {
    hide WellFormed, DistinctWAIDs;
    if Clean(v, rows) {
      forall n: nat ensures DistinctWAIDs(OlderTimes(v, rows, n).messages) {
        CleanStaysDistinct(v, rows, n);
      }
    } else if !DistinctWAIDs(v.messages) {
      assert OlderTimes(v, rows, 0) == v;
    } else {
      var m :| m in v.messages && BelowCursor(rows, v.selected, m.waID, v.cursor);
      var i :| 0 <= i < |rows| && rows[i].waID == m.waID && rows[i].chatJID == v.selected
          && OlderThan(rows[i], v.cursor);
      assert Wanted(rows[i], v.selected, Below(v.cursor));
      var n := RowComesAgain(v, rows, m, rows[i]);
    }
  }

  // ---------------------------------------------------------------- which steps bring a double

  lemma FoldCleanExactly(v: View, rows: seq<Message>, ev: Event)
    requires Clean(v, rows) && ev.chatJID == v.selected
    ensures Clean(OnIncoming(v, ev), rows)
       <==> Has(v.messages, ev.waID) || !BelowCursor(rows, v.selected, ev.waID, v.cursor)
  {
    hide FoldMessage, StableSort, UpsertSummary, BelowCursor;
    FoldDistinct(v.messages, Bubble(ev));
  }

  /**
   * Folding an event of the open chat leads to a double, on screen or after paging on, exactly
   * when the message is not loaded and its row in the chat is stored below the cursor.
   */
  lemma FoldDoublesExactly(v: View, rows: seq<Message>, ev: Event)
    requires WellFormed(rows) && !ShowsTwice(v, rows) && ev.chatJID == v.selected
    ensures ShowsTwice(OnIncoming(v, ev), rows)
       <==> !Has(v.messages, ev.waID) && BelowCursor(rows, v.selected, ev.waID, v.cursor)
  {
    hide Clean, ShowsTwice, WellFormed, OnIncoming, BelowCursor;
    ShowsTwiceExactly(v, rows);
    ShowsTwiceExactly(OnIncoming(v, ev), rows);
    FoldCleanExactly(v, rows, ev);
  }

  /** The step puts a message on screen that is stored below the cursor. */
  ghost predicate Brings(tok: Tokenizer, s: System, step: Step) {
    match step
    case Drain =>
      && s.queue != [] && s.queue[0].chatJID == s.view.selected && !Has(s.view.messages, s.queue[0].waID)
      && BelowCursor(s.db.rows, s.view.selected, s.queue[0].waID, s.view.cursor)
    case Optimistic(waID, chat, body, ts) =>
      && chat == s.view.selected && chat != "" && waID != "" && !Has(s.view.messages, waID)
      && BelowCursor(Inserted(tok, s.db, OptimisticRow(waID, chat, body, ts), false).rows, chat, waID, s.view.cursor)
    case _ => false
  }

  /** Writes to the store put no row of a stored message below the cursor. */
  lemma CleanKept(v: View, a: seq<Message>, b: seq<Message>)
    requires WellFormed(b) && Evolves(a, b) && Clean(v, a) && forall m :: m in v.messages ==> Has(a, m.waID)
    ensures Clean(v, b)
  {
    hide DistinctWAIDs;
    forall m | m in v.messages ensures !BelowCursor(b, v.selected, m.waID, v.cursor) {
      var j :| 0 <= j < |a| && a[j].waID == m.waID;
      assert SameKey(a[j], b[j]) && !BelowCursor(a, v.selected, m.waID, v.cursor);
    }
  }

  lemma WindowIsClean(v: View, rows: seq<Message>)
    requires WellFormed(rows) && Window(v, rows)
    ensures Clean(v, rows)
  {
    AboveIsNotBelow(rows, v.messages, v.selected, v.cursor);
  }

  lemma OpenIsClean(v: View, rows: seq<Message>, chat: string, page: Page)
    requires WellFormed(rows) && DistinctWAIDs(page.msgs) && AllAtOrAbove(page.msgs, rows, page.next)
    ensures Clean(Open(v, chat, page), rows)
  {
    AboveIsNotBelow(rows, page.msgs, chat, page.next);
  }

  lemma SelectIsClean(v: View, rows: seq<Message>, jid: string)
    requires WellFormed(rows) && Clean(v, rows) && SelectChat(v, rows, jid).Ok?
    ensures Clean(SelectChat(v, rows, jid).value, rows)
  {
    hide WellFormed, PageOlder, Descending, DistinctWAIDs, AllAtOrAbove, Clean;
    if !(jid == v.selected && v.loaded) {
      PageOlderMeaning(rows, jid, Start, PageSize);
      var page := PageOlder(rows, jid, Start, PageSize).value;
      PageIsWindow(rows, page);
      OpenIsClean(v, rows, jid, page);
    }
  }

  lemma OptimisticCleanExactly(tok: Tokenizer, s: System, waID: string, chat: string, body: string, ts: int)
    requires StoreLeads(s) && Clean(s.view, s.db.rows)
    ensures
      var t := Next(tok, s, Optimistic(waID, chat, body, ts));
      Clean(t.view, t.db.rows) <==> !Brings(tok, s, Optimistic(waID, chat, body, ts))
  {
    if chat != "" && waID != "" {
      var db := Inserted(tok, s.db, OptimisticRow(waID, chat, body, ts), false);
      var ev := OptimisticEvent(waID, chat, body, ts);
      InsertedKeeps(tok, s.db, OptimisticRow(waID, chat, body, ts), false);
      CleanKept(s.view, s.db.rows, db.rows);
      hide WellFormed, Clean, Inserted, BelowCursor, StoreLeads, FoldMessage, StableSort, UpsertSummary;
      if chat == s.view.selected {
        FoldCleanExactly(s.view, db.rows, ev);
      } else {
        SameMessages(s.view, OnIncoming(s.view, ev), db.rows);
      }
      TagIsClean(OnIncoming(s.view, ev), db.rows, waID);
    }
  }

  /** Only the wa_ids matter. */
  lemma SameIDs(a: seq<Message>, b: seq<Message>, rows: seq<Message>, chat: string, c: Cursor)
    requires |a| == |b| && forall i :: 0 <= i < |a| ==> a[i].waID == b[i].waID
    requires DistinctWAIDs(a) && NoneBelow(a, rows, chat, c)
    ensures DistinctWAIDs(b) && NoneBelow(b, rows, chat, c)
  {
    hide BelowCursor;
    forall m | m in b ensures !BelowCursor(rows, chat, m.waID, c) {
      var i :| 0 <= i < |b| && b[i] == m;
      assert a[i] in a;
    }
  }

  lemma TagIsClean(v: View, rows: seq<Message>, waID: string)
    ensures Clean(v.(messages := TagPending(v.messages, waID)), rows) <==> Clean(v, rows)
  {
    hide DistinctWAIDs, NoneBelow;
    var tagged := TagPending(v.messages, waID);
    if Clean(v, rows) {
      SameIDs(v.messages, tagged, rows, v.selected, v.cursor);
    } else if Clean(v.(messages := tagged), rows) {
      SameIDs(tagged, v.messages, rows, v.selected, v.cursor);
    }
  }

  lemma SameMessages(v: View, w: View, rows: seq<Message>)
    requires w.messages == v.messages && w.cursor == v.cursor && w.selected == v.selected
    ensures Clean(w, rows) <==> Clean(v, rows)
  {}

  /** Each single step keeps the window clean exactly when it brings no row from below the cursor. */
  lemma StepDoublesExactly(tok: Tokenizer, s: System, step: Step)
    requires StoreLeads(s) && Clean(s.view, s.db.rows)
    ensures Clean(Next(tok, s, step).view, Next(tok, s, step).db.rows) <==> !Brings(tok, s, step)
  {
    var t := Next(tok, s, step);
    hide AllStored, WellFormed, Enumerates, Clean, Apply, SelectChat, LoadOlder, JumpToMessage, OnIncoming, Inserted,
         LoadChats, MarkRead, BelowCursor, Has, ChatsTrail;
    match step
    case Drain =>
      if s.queue != [] {
        DrainCleanExactly(tok, s);
      }
    case Select(jid) =>
      if SelectChat(s.view, s.db.rows, jid).Ok? {
        SelectIsClean(s.view, s.db.rows, jid);
      }
    case Older => OlderKeepsClean(s.view, s.db.rows);
    case Jump(chat, id) =>
      if JumpToMessage(s.view, s.db.rows, chat, id).Ok? {
        JumpGivesWindow(s.view, s.db.rows, chat, id);
        WindowIsClean(t.view, s.db.rows);
      }
    case GoBack => NothingShown(Back(s.view), s.db.rows);
    case Optimistic(waID, chat, body, ts) => OptimisticCleanExactly(tok, s, waID, chat, body, ts);
    case Reload(order) => SameMessages(s.view, LoadChatsOr(s, order), s.db.rows);
    case Send(k) =>
    case Persist(_) => WriteIsClean(tok, s, step);
    case MarkSelectedRead => WriteIsClean(tok, s, step);
    case Write(_) => WriteIsClean(tok, s, step);
  }

  lemma NothingShown(v: View, rows: seq<Message>)
    requires v.messages == []
    ensures Clean(v, rows)
  {}

  lemma DrainCleanExactly(tok: Tokenizer, s: System)
    requires s.queue != [] && Clean(s.view, s.db.rows)
    ensures Clean(Drained(s).view, s.db.rows) <==> !Brings(tok, s, Drain)
  {
    hide Clean, BelowCursor, StableSort, UpsertSummary, FoldMessage;
    if s.queue[0].chatJID == s.view.selected {
      FoldCleanExactly(s.view, s.db.rows, s.queue[0]);
    } else {
      SameMessages(s.view, OnIncoming(s.view, s.queue[0]), s.db.rows);
    }
  }

  /** Steps that leave the open chat alone, whatever they write. */
  lemma WriteIsClean(tok: Tokenizer, s: System, step: Step)
    requires StoreLeads(s) && Clean(s.view, s.db.rows) && (step.Persist? || step.MarkSelectedRead? || step.Write?)
    ensures Clean(Next(tok, s, step).view, Next(tok, s, step).db.rows)
  {
    hide AllStored, WellFormed, Clean, Apply, Inserted, MarkRead, ChatsTrail;
    var t := Next(tok, s, step);
    NextKeepsLead(tok, s, step);
    CleanKept(s.view, s.db.rows, t.db.rows);
    SameMessages(s.view, t.view, t.db.rows);
  }

  /**
   * Over whole runs, in every interleaving: no state of the run shows a message twice, at once
   * or after any number of LoadOlder calls, if and only if no step of the run puts a message on
   * screen that is not loaded and whose row in the open chat is stored below the cursor.
   */
  lemma RunDoublesExactly(tok: Tokenizer, s: System, steps: seq<Step>)
    requires StoreLeads(s) && !ShowsTwice(s.view, s.db.rows)
    ensures
      (forall k :: 0 <= k <= |steps| ==> !ShowsTwice(Run(tok, s, steps[..k]).view, Run(tok, s, steps[..k]).db.rows))
      <==> (forall k :: 0 <= k < |steps| ==> !Brings(tok, Run(tok, s, steps[..k]), steps[k]))
  {
    hide StoreLeads, ShowsTwice, Clean, Brings, Next;
    ShowsTwiceExactlyIn(s);
    if forall k :: 0 <= k < |steps| ==> !Brings(tok, Run(tok, s, steps[..k]), steps[k]) {
      forall k | 0 <= k <= |steps|
        ensures !ShowsTwice(Run(tok, s, steps[..k]).view, Run(tok, s, steps[..k]).db.rows)
      {
        CleanSoFar(tok, s, steps, k);
        ViewNeverLeadsStore(tok, s, steps[..k]);
        ShowsTwiceExactlyIn(Run(tok, s, steps[..k]));
      }
    }
    if forall k :: 0 <= k <= |steps| ==> !ShowsTwice(Run(tok, s, steps[..k]).view, Run(tok, s, steps[..k]).db.rows) {
      forall k | 0 <= k < |steps| ensures !Brings(tok, Run(tok, s, steps[..k]), steps[k]) {
        var t, u := Run(tok, s, steps[..k]), Run(tok, s, steps[..k + 1]);
        ViewNeverLeadsStore(tok, s, steps[..k]);
        ViewNeverLeadsStore(tok, s, steps[..k + 1]);
        ShowsTwiceExactlyIn(t);
        ShowsTwiceExactlyIn(u);
        RunStep(tok, s, steps, k);
        StepDoublesExactly(tok, t, steps[k]);
      }
    }
  }

  lemma ShowsTwiceExactlyIn(s: System)
    requires StoreLeads(s)
    ensures ShowsTwice(s.view, s.db.rows) <==> !Clean(s.view, s.db.rows)
  {
    ShowsTwiceExactly(s.view, s.db.rows);
  }

  lemma {:induction false} CleanSoFar(tok: Tokenizer, s: System, steps: seq<Step>, k: nat)
    requires StoreLeads(s) && Clean(s.view, s.db.rows) && k <= |steps|
    requires forall i :: 0 <= i < k ==> !Brings(tok, Run(tok, s, steps[..i]), steps[i])
    ensures Clean(Run(tok, s, steps[..k]).view, Run(tok, s, steps[..k]).db.rows)
  {
    hide StoreLeads, Clean, Brings, Next;
    if k > 0 {
      CleanSoFar(tok, s, steps, k - 1);
      ViewNeverLeadsStore(tok, s, steps[..k - 1]);
      RunStep(tok, s, steps, k - 1);
      StepDoublesExactly(tok, Run(tok, s, steps[..k - 1]), steps[k - 1]);
    }
  }
}
