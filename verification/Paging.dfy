/**
 * Keyset paging (internal/store/paging.go): the three SELECTs as filter, order and limit,
 * and what walking a chat with them yields, also while other writers insert rows.
 */
module Paging {
  import opened Prelude
  import opened Tables

  datatype Cursor = Cursor(ts: int, id: int)

  const Start := Cursor(0, 0)

  predicate IsZero(c: Cursor) {
    c == Start
  }

  function CursorOf(m: Message): Cursor {
    Cursor(m.ts, m.id)
  }

  /** `a` precedes `b` in ORDER BY ts DESC, id DESC. */
  predicate Newer(a: Message, b: Message) {
    a.ts > b.ts || (a.ts == b.ts && a.id > b.id)
  }

  predicate OlderThan(m: Message, c: Cursor) {
    m.ts < c.ts || (m.ts == c.ts && m.id < c.id)
  }

  predicate NewerThan(m: Message, c: Cursor) {
    m.ts > c.ts || (m.ts == c.ts && m.id > c.id)
  }

  datatype Range = Everything | Below(c: Cursor) | Above(c: Cursor)

  predicate InRange(m: Message, range: Range) {
    match range
    case Everything => true
    case Below(c) => OlderThan(m, c)
    case Above(c) => NewerThan(m, c)
  }

  predicate Wanted(m: Message, chat: string, range: Range) {
    m.chatJID == chat && InRange(m, range)
  }

  // ---------------------------------------------------------------- SELECT

  function Matching(rows: seq<Message>, chat: string, range: Range): seq<Message> {
    if rows == [] then []
    else (if Wanted(rows[0], chat, range) then [rows[0]] else []) + Matching(rows[1..], chat, range)
  }

  function Place(m: Message, s: seq<Message>): seq<Message> {
    if s == [] || Newer(m, s[0]) then [m] + s else [s[0]] + Place(m, s[1..])
  }

  function Ordered(s: seq<Message>): seq<Message> {
    if s == [] then [] else Place(s[0], Ordered(s[1..]))
  }

  function Take(s: seq<Message>, n: int): seq<Message> {
    if n <= 0 then [] else if n >= |s| then s else s[..n]
  }

  /** SELECT ... WHERE chat_jid = ? AND range ORDER BY ts DESC, id DESC LIMIT ?. */
  function Select(rows: seq<Message>, chat: string, range: Range, limit: int): seq<Message> {
    Take(Ordered(Matching(rows, chat, range)), limit)
  }

  /** The whole history of a chat, newest first. */
  function History(rows: seq<Message>, chat: string): seq<Message> {
    Ordered(Matching(rows, chat, Everything))
  }

  // ---------------------------------------------------------------- the paging operations

  datatype Page = Page(msgs: seq<Message>, next: Cursor)

  function PageOf(msgs: seq<Message>): Page {
    Page(msgs, if msgs == [] then Start else CursorOf(msgs[|msgs| - 1]))
  }

  function PageOlder(rows: seq<Message>, chat: string, before: Cursor, limit: int): Result<Page> {
    if chat == "" then Err("chatJID is required")
    else if limit <= 0 then Err("limit must be positive")
    else Ok(PageOf(Select(rows, chat, if IsZero(before) then Everything else Below(before), limit)))
  }

  /** SELECT ... WHERE id = ? AND chat_jid = ?. */
  function Lookup(rows: seq<Message>, chat: string, id: int): Option<Message> {
    if rows == [] then None
    else if rows[0].id == id && rows[0].chatJID == chat then Some(rows[0])
    else Lookup(rows[1..], chat, id)
  }

  function PageAround(rows: seq<Message>, chat: string, anchorID: int, before: int, after: int): Result<Page> {
    if chat == "" then Err("chatJID is required")
    else if before < 0 || after < 0 then Err("before/after must be non-negative")
    else
      match Lookup(rows, chat, anchorID)
      case None => Err("anchor not found")
      case Some(anchor) =>
        Ok(PageOf(Select(rows, chat, Above(CursorOf(anchor)), after) + [anchor]
                  + Select(rows, chat, Below(CursorOf(anchor)), before)))
  }

  // ---------------------------------------------------------------- what a SELECT returns

  ghost predicate Descending(s: seq<Message>) {
    forall i, j :: 0 <= i < j < |s| ==> Newer(s[i], s[j])
  }

  ghost predicate DistinctIDs(s: seq<Message>) {
    forall i, j :: 0 <= i < j < |s| ==> s[i].id != s[j].id
  }

  lemma {:induction false} MatchingMembers(rows: seq<Message>, chat: string, range: Range, m: Message)
    ensures m in Matching(rows, chat, range) <==> m in rows && Wanted(m, chat, range)
  {
    if rows != [] {
      MatchingMembers(rows[1..], chat, range, m);
    }
  }

  lemma {:induction false} MatchingDistinct(rows: seq<Message>, chat: string, range: Range)
    requires DistinctIDs(rows)
    ensures DistinctIDs(Matching(rows, chat, range))
  {
    if rows != [] {
      var rest := Matching(rows[1..], chat, range);
      MatchingDistinct(rows[1..], chat, range);
      forall j | 0 <= j < |rest| ensures rest[j].id != rows[0].id {
        MatchingMembers(rows[1..], chat, range, rest[j]);
        var k :| 0 <= k < |rows| - 1 && rows[1..][k] == rest[j];
      }
    }
  }

  lemma {:induction false} PlaceMeaning(m: Message, s: seq<Message>)
    requires Descending(s) && forall x :: x in s ==> x.id != m.id
    ensures Descending(Place(m, s))
    ensures forall x :: x in Place(m, s) <==> x == m || x in s
  {
    if s != [] && !Newer(m, s[0]) {
      PlaceMeaning(m, s[1..]);
      assert s == [s[0]] + s[1..];
      var r := Place(m, s[1..]);
      forall j | 0 <= j < |r| ensures Newer(s[0], r[j]) {
        assert r[j] in r;
      }
    }
  }

  lemma {:induction false} OrderedMeaning(s: seq<Message>)
    requires DistinctIDs(s)
    ensures Descending(Ordered(s))
    ensures forall x :: x in Ordered(s) <==> x in s
  {
    if s != [] {
      OrderedMeaning(s[1..]);
      PlaceMeaning(s[0], Ordered(s[1..]));
      assert s == [s[0]] + s[1..];
    }
  }

  /** A descending list is determined by its members. */
  lemma {:induction false} DescendingUnique(a: seq<Message>, b: seq<Message>)
    requires Descending(a) && Descending(b) && forall x :: x in a <==> x in b
    ensures a == b
  {
    if a == [] {
      HeadIsMember(b);
    } else {
      assert a[0] in b && b[0] in a;
      assert a[0] == b[0];
      forall x ensures x in a[1..] <==> x in b[1..] {
        TailMembers(a, x);
        TailMembers(b, x);
      }
      DescendingUnique(a[1..], b[1..]);
    }
  }

  lemma TailMembers(s: seq<Message>, x: Message)
    requires Descending(s) && s != []
    ensures x in s[1..] <==> x in s && x != s[0]
  {}

  /** The rows a range selects, newest first, before the limit applies. */
  lemma SelectedMeaning(rows: seq<Message>, chat: string, range: Range)
    requires WellFormed(rows)
    ensures Descending(Ordered(Matching(rows, chat, range)))
    ensures forall m :: m in Ordered(Matching(rows, chat, range)) <==> m in rows && Wanted(m, chat, range)
  {
    MatchingDistinct(rows, chat, range);
    OrderedMeaning(Matching(rows, chat, range));
    forall m ensures m in Matching(rows, chat, range) <==> m in rows && Wanted(m, chat, range) {
      MatchingMembers(rows, chat, range, m);
    }
  }

  /** Below a row lies the rest of the history after it; above it, the part before. */
  lemma HistorySplits(rows: seq<Message>, chat: string, i: int)
    requires WellFormed(rows) && 0 <= i < |History(rows, chat)|
    ensures Ordered(Matching(rows, chat, Below(CursorOf(History(rows, chat)[i])))) == History(rows, chat)[i + 1..]
    ensures Ordered(Matching(rows, chat, Above(CursorOf(History(rows, chat)[i])))) == History(rows, chat)[..i]
  {
    hide Matching, Ordered, Descending, WellFormed, OlderThan, NewerThan;
    var h := History(rows, chat);
    SelectedMeaning(rows, chat, Everything);
    SelectedMeaning(rows, chat, Below(CursorOf(h[i])));
    SelectedMeaning(rows, chat, Above(CursorOf(h[i])));
    SplitMembers(h, i);
    DescendingUnique(Ordered(Matching(rows, chat, Below(CursorOf(h[i])))), h[i + 1..]);
    DescendingUnique(Ordered(Matching(rows, chat, Above(CursorOf(h[i])))), h[..i]);
  }

  lemma SplitMembers(h: seq<Message>, i: int)
    requires Descending(h) && 0 <= i < |h|
    ensures forall m :: m in h[i + 1..] <==> m in h && OlderThan(m, CursorOf(h[i]))
    ensures forall m :: m in h[..i] <==> m in h && NewerThan(m, CursorOf(h[i]))
  {}

  // ---------------------------------------------------------------- PageOlder

  /** A stored row's cursor is never the start cursor: rowids are positive. */
  lemma RowCursor(rows: seq<Message>, chat: string, range: Range, m: Message)
    requires WellFormed(rows) && m in Ordered(Matching(rows, chat, range))
    ensures CursorOf(m) != Start
  {
    SelectedMeaning(rows, chat, range);
  }

  /** From the start, a page is the newest end of the history. */
  lemma FirstPage(rows: seq<Message>, chat: string, limit: int)
    requires chat != "" && limit > 0
    ensures PageOlder(rows, chat, Start, limit) == Ok(PageOf(Take(History(rows, chat), limit)))
  {}

  /** From a row of the history, a page is the stretch that follows it. */
  lemma NextPage(rows: seq<Message>, chat: string, i: int, limit: int)
    requires WellFormed(rows) && chat != "" && limit > 0 && 0 <= i < |History(rows, chat)|
    ensures PageOlder(rows, chat, CursorOf(History(rows, chat)[i]), limit)
         == Ok(PageOf(Take(History(rows, chat)[i + 1..], limit)))
  {
    HistorySplits(rows, chat, i);
    RowCursor(rows, chat, Everything, History(rows, chat)[i]);
  }

  /**
   * What any page promises, from any cursor: rows of the chat older than the cursor, strictly
   * descending, at most `limit`, and nothing that belongs on it is left out.
   */
  lemma PageOlderMeaning(rows: seq<Message>, chat: string, before: Cursor, limit: int)
    requires WellFormed(rows) && chat != "" && limit > 0
    ensures PageOlder(rows, chat, before, limit).Ok?
    ensures
      var page := PageOlder(rows, chat, before, limit).value;
      var range := if IsZero(before) then Everything else Below(before);
      && Descending(page.msgs) && |page.msgs| <= limit
      && (forall m :: m in page.msgs ==> m in rows && Wanted(m, chat, range))
      && (forall m :: m in rows && Wanted(m, chat, range) && m !in page.msgs
            ==> |page.msgs| == limit && Newer(page.msgs[limit - 1], m))
      && (page.msgs != [] ==> page.next == CursorOf(page.msgs[|page.msgs| - 1]) && page.next != Start)
      && (page.msgs == [] ==> page.next == Start)
  {
    var range := if IsZero(before) then Everything else Below(before);
    var all := Ordered(Matching(rows, chat, range));
    hide Take, Ordered, Matching, Wanted, WellFormed, Descending;
    SelectedMeaning(rows, chat, range);
    TakeMeaning(all, limit);
    if Take(all, limit) != [] {
      RowCursor(rows, chat, range, Take(all, limit)[|Take(all, limit)| - 1]);
    }
  }

  /** The first rows of a descending list; whatever is missing comes after them. */
  lemma TakeMeaning(all: seq<Message>, limit: int)
    requires Descending(all) && limit > 0
    ensures
      var t := Take(all, limit);
      && Descending(t) && |t| <= limit
      && (forall m :: m in t ==> m in all) && (t != [] ==> t[|t| - 1] in all)
      && (forall m :: m in all && m !in t ==> |t| == limit && Newer(t[limit - 1], m))
  {
    if limit < |all| {
      forall m | m in all && m !in all[..limit] ensures Newer(all[limit - 1], m) {
        var k :| 0 <= k < |all| && all[k] == m;
      }
    }
  }

  /**
   * The documentation says that after a page shorter than the limit, paging on from its
   * cursor gives an empty page. That holds exactly when the short page is not itself empty
   * or the chat has no messages: the cursor of an empty page is the start cursor, so the
   * next call returns the newest messages again.
   */
  lemma PagingOnAfterShortPage(rows: seq<Message>, chat: string, before: Cursor, limit: int)
    requires WellFormed(rows) && chat != "" && limit > 0
    requires |PageOlder(rows, chat, before, limit).value.msgs| < limit
    ensures
      var page := PageOlder(rows, chat, before, limit).value;
      (PageOlder(rows, chat, page.next, limit).value.msgs == []) <==> (page.msgs != [] || History(rows, chat) == [])
  {
    var page := PageOlder(rows, chat, before, limit).value;
    if page.msgs == [] {
      PageOlderMeaning(rows, chat, before, limit);
      FirstPage(rows, chat, limit);
    } else {
      NothingBelowShortPage(rows, chat, before, limit);
    }
  }

  lemma LastIsOldest(s: seq<Message>)
    requires Descending(s) && s != []
    ensures forall m :: m in s ==> !OlderThan(m, CursorOf(s[|s| - 1]))
    ensures s[|s| - 1] in s
  {}

  /** What is older than the last row of a short page would have been on the page. */
  lemma NothingBelowShortPage(rows: seq<Message>, chat: string, before: Cursor, limit: int)
    requires WellFormed(rows) && chat != "" && limit > 0
    requires 0 < |PageOlder(rows, chat, before, limit).value.msgs| < limit
    ensures PageOlder(rows, chat, PageOlder(rows, chat, before, limit).value.next, limit).value.msgs == []
  {
    var page := PageOlder(rows, chat, before, limit).value;
    var again := PageOlder(rows, chat, page.next, limit).value;
    PageOlderMeaning(rows, chat, before, limit);
    PageOlderMeaning(rows, chat, page.next, limit);
    hide PageOlder, WellFormed, Descending, OlderThan;
    LastIsOldest(page.msgs);
    assert forall m :: m in again.msgs ==> m in page.msgs;
    HeadIsMember(again.msgs);
  }

  /** The exception occurs: one message, limit one, and the second page is already empty. */
  lemma EmptyPageRestarts(m: Message)
    requires m.id == 1 && m.waID != "" && m.chatJID != ""
    ensures PageOlder([m], m.chatJID, Start, 1) == Ok(Page([m], CursorOf(m)))
    ensures PageOlder([m], m.chatJID, CursorOf(m), 1) == Ok(Page([], Start))
  {
    assert Matching([m], m.chatJID, Everything) == [m] by {
      assert [m][1..] == [];
      assert Wanted([m][0], m.chatJID, Everything);
    }
    assert Ordered([m]) == Place(m, Ordered([])) == [m] by {
      assert [m][1..] == [];
    }
    FirstPage([m], m.chatJID, 1);
    NextPage([m], m.chatJID, 0, 1);
  }

  // ---------------------------------------------------------------- PageAround

  lemma {:induction false} LookupMeaning(rows: seq<Message>, chat: string, id: int)
    ensures Lookup(rows, chat, id).Some? ==>
              Lookup(rows, chat, id).value in rows
              && Lookup(rows, chat, id).value.id == id && Lookup(rows, chat, id).value.chatJID == chat
    ensures Lookup(rows, chat, id).None? ==> forall m :: m in rows ==> !(m.id == id && m.chatJID == chat)
  {
    if rows != [] {
      LookupMeaning(rows[1..], chat, id);
    }
  }

  /** Where in the history the anchor stands, and the window in terms of it. */
  lemma AroundWindow(rows: seq<Message>, chat: string, i: int, before: int, after: int)
    requires WellFormed(rows) && chat != "" && before >= 0 && after >= 0
    requires 0 <= i < |History(rows, chat)|
    ensures
      var h := History(rows, chat);
      PageAround(rows, chat, h[i].id, before, after)
        == Ok(PageOf(Take(h[..i], after) + [h[i]] + Take(h[i + 1..], before)))
  {
    var h := History(rows, chat);
    SelectedMeaning(rows, chat, Everything);
    LookupMeaning(rows, chat, h[i].id);
    assert h[i] in h;
    var found := Lookup(rows, chat, h[i].id).value;
    SameID(rows, found, h[i]);
    HistorySplits(rows, chat, i);
  }

  lemma SameID(rows: seq<Message>, a: Message, b: Message)
    requires WellFormed(rows) && a in rows && b in rows && a.id == b.id
    ensures a == b
  {}

  /** Every chat row between the window's two ends is in the window. */
  ghost predicate GapFree(h: seq<Message>, window: seq<Message>)
    requires window != []
  {
    forall m :: m in h && !Newer(m, window[0]) && !Newer(window[|window| - 1], m) ==> m in window
  }

  /**
   * The window is strictly descending and holds the anchor exactly once, but its newer half
   * is the newest rows of the chat rather than the nearest: it is gap-free exactly when no
   * newer rows were asked for or there are no more of them than asked for.
   */
  lemma AroundMeaning(rows: seq<Message>, chat: string, i: int, before: int, after: int)
    requires WellFormed(rows) && chat != "" && before >= 0 && after >= 0
    requires 0 <= i < |History(rows, chat)|
    ensures PageAround(rows, chat, History(rows, chat)[i].id, before, after).Ok?
    ensures
      var h := History(rows, chat);
      var window := PageAround(rows, chat, h[i].id, before, after).value.msgs;
      && Descending(window)
      && h[i] in window
          && (forall j, k :: 0 <= j < |window| && 0 <= k < |window| && window[j] == window[k] == h[i] ==> j == k)
      && (forall m :: m in window ==> m in h)
      && (GapFree(h, window) <==> after == 0 || i <= after)
  {
    hide PageAround, Ordered, Matching, GapFree, Descending;
    var h := History(rows, chat);
    SelectedMeaning(rows, chat, Everything);
    AroundWindow(rows, chat, i, before, after);
    var n, o := Min(i, after), Min(before, |h| - i - 1);
    assert Take(h[..i], after) == h[..n];
    assert Take(h[i + 1..], before) == h[i + 1..i + 1 + o];
    WindowMeaning(h, i, n, o);
  }

  lemma WindowMeaning(h: seq<Message>, i: int, n: int, o: int)
    requires Descending(h) && 0 <= n <= i < |h| && 0 <= o <= |h| - i - 1
    ensures
      var w := h[..n] + [h[i]] + h[i + 1..i + 1 + o];
      && Descending(w) && w[n] == h[i]
      && (forall m :: m in w ==> m in h)
      && (forall j :: 0 <= j < |w| && w[j] == h[i] ==> j == n)
      && (GapFree(h, w) <==> n == 0 || n == i)
  {
    var w := h[..n] + [h[i]] + h[i + 1..i + 1 + o];
    WindowShape(h, i, n, o);
    if n == i || n == 0 {
      WindowIsStretch(h, i, n, o);
    } else {
      // the row just above the anchor is missing although the newest rows are there
      assert h[i - 1] in h && h[i - 1] !in w;
      assert !Newer(h[i - 1], w[0]) && !Newer(w[|w| - 1], h[i - 1]);
    }
  }

  lemma WindowShape(h: seq<Message>, i: int, n: int, o: int)
    requires Descending(h) && 0 <= n <= i < |h| && 0 <= o <= |h| - i - 1
    ensures
      var w := h[..n] + [h[i]] + h[i + 1..i + 1 + o];
      && Descending(w) && (forall m :: m in w ==> m in h)
      && w[n] == h[i] && (forall j :: 0 <= j < |w| && w[j] == h[i] ==> j == n)
      && (forall k :: n <= k < i ==> h[k] !in w)
      && w[|w| - 1] == h[i + o] && (n > 0 ==> w[0] == h[0])
  {}

  lemma WindowIsStretch(h: seq<Message>, i: int, n: int, o: int)
    requires Descending(h) && 0 <= n <= i < |h| && 0 <= o <= |h| - i - 1 && (n == i || n == 0)
    ensures GapFree(h, h[..n] + [h[i]] + h[i + 1..i + 1 + o])
  {
    var w := h[..n] + [h[i]] + h[i + 1..i + 1 + o];
    assert forall k :: 0 <= k < i ==> Newer(h[k], h[i]);
    forall m | m in h && !Newer(m, w[0]) && !Newer(w[|w| - 1], m) ensures m in w {
      var k :| 0 <= k < |h| && h[k] == m;
      if k < n {
        assert w[k] == m;
      } else if i <= k <= i + o {
        assert w[n + (k - i)] == m;
      }
    }
  }

  /** When the anchor exists: a nonempty strictly descending window of the chat's stored rows. */
  lemma AroundFound(rows: seq<Message>, chat: string, id: int, before: int, after: int)
    requires WellFormed(rows) && PageAround(rows, chat, id, before, after).Ok?
    ensures
      var page := PageAround(rows, chat, id, before, after).value;
      && page.msgs != [] && Descending(page.msgs)
      && (forall m :: m in page.msgs ==> m in rows && m.chatJID == chat)
      && page.next == CursorOf(page.msgs[|page.msgs| - 1]) && page.next != Start
  {
    LookupMeaning(rows, chat, id);
    var anchor := Lookup(rows, chat, id).value;
    hide WellFormed, Matching, Ordered, Descending, GapFree, Lookup;
    SelectedMeaning(rows, chat, Everything);
    var h := History(rows, chat);
    var i :| 0 <= i < |h| && h[i] == anchor;
    AroundMeaning(rows, chat, i, before, after);
    var msgs := PageAround(rows, chat, id, before, after).value.msgs;
    assert msgs[|msgs| - 1] in msgs;
    RowCursor(rows, chat, Everything, msgs[|msgs| - 1]);
  }

  /** Pages one after another from a cursor, up to and including the first short one. */
  function PagesFrom(rows: seq<Message>, chat: string, from: Cursor, limit: int, pages: nat): seq<Message>
    requires chat != "" && limit > 0
    decreases pages
  {
    if pages == 0 then []
    else
      var page := PageOlder(rows, chat, from, limit).value;
      if |page.msgs| < limit then page.msgs
      else page.msgs + PagesFrom(rows, chat, page.next, limit, pages - 1)
  }

  /** From a row of the history, enough pages yield every remaining older row exactly once. */
  lemma {:induction false} PagesFromRow(rows: seq<Message>, chat: string, i: int, limit: int, pages: nat)
    requires WellFormed(rows) && chat != "" && limit > 0
    requires 0 <= i < |History(rows, chat)| && pages >= |History(rows, chat)| - i
    ensures PagesFrom(rows, chat, CursorOf(History(rows, chat)[i]), limit, pages) == History(rows, chat)[i + 1..]
    decreases pages
  {
    hide PageOlder, WellFormed, History;
    var h := History(rows, chat);
    NextPage(rows, chat, i, limit);
    FullTake(h, i + 1, limit);
    if i + 1 + limit <= |h| {
      PagesFromRow(rows, chat, i + limit, limit, pages - 1);
    }
  }

  /** A full page of `s` from position `k` and what follows it, or a short page and nothing. */
  lemma FullTake(s: seq<Message>, k: int, limit: int)
    requires 0 <= k <= |s| && limit > 0
    ensures
      var page := Take(s[k..], limit);
      if k + limit <= |s| then |page| == limit && page[limit - 1] == s[k + limit - 1]
          && s[k..] == page + s[k + limit..]
      else page == s[k..] && |page| < limit
  {}

  /** Continuing from the window's cursor yields exactly the rows older than the window. */
  lemma AroundContinues(rows: seq<Message>, chat: string, i: int, before: int, after: int, limit: int, pages: nat)
    requires WellFormed(rows) && chat != "" && before >= 0 && after >= 0 && limit > 0
    requires 0 <= i < |History(rows, chat)| && pages >= |History(rows, chat)|
    ensures PageAround(rows, chat, History(rows, chat)[i].id, before, after).Ok?
    ensures
      var h := History(rows, chat);
      var page := PageAround(rows, chat, h[i].id, before, after).value;
      PagesFrom(rows, chat, page.next, limit, pages) == h[Min(i + 1 + before, |h|)..]
  {
    hide PageAround, PagesFrom, WellFormed, Matching, Ordered;
    var h := History(rows, chat);
    AroundWindow(rows, chat, i, before, after);
    var last := Min(i + before, |h| - 1);
    assert PageAround(rows, chat, h[i].id, before, after).value.next == CursorOf(h[last]);
    PagesFromRow(rows, chat, last, limit, pages);
  }
}
