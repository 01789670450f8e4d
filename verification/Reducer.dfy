/**
 * The view-model reducer (internal/ui/state.go) as values: the chat list, the open chat and
 * the loaded window of its messages.
 */
module Reducer {
  import opened Prelude
  import opened Tables
  import opened Paging

  const PageSize := 50

  /** A normalized incoming message (internal/wa/handler.go). */
  datatype Event = Event(
    waID: string, chatJID: string, senderJID: string, ts: int, body: string, fromMe: bool,
    quotedWAID: string, quotedBody: string, quotedSender: string,
    mediaPath: string, mediaType: string, linkURL: string, linkTitle: string, linkDesc: string)

  datatype ChatSummary = ChatSummary(jid: string, name: string, lastTS: int, unread: int,
                                     pinned: bool, archived: bool, muteUntil: int)

  /** `loaded` tells an empty message list from one that was never assigned. */
  datatype View = View(chats: seq<ChatSummary>, selected: string, loaded: bool,
                       messages: seq<Message>, cursor: Cursor)

  function NewView(): View {
    View([], "", false, [], Start)
  }

  // ---------------------------------------------------------------- the chat list

  /** The comparison of a stable sort: by last_ts descending, pinned chats first if asked. */
  predicate Before(pinnedFirst: bool, a: ChatSummary, b: ChatSummary) {
    if pinnedFirst && a.pinned != b.pinned then a.pinned else a.lastTS > b.lastTS
  }

  /** Moves `c` left past the entries it must precede. */
  function SlideIn(pinnedFirst: bool, s: seq<ChatSummary>, c: ChatSummary): seq<ChatSummary> {
    if s == [] || !Before(pinnedFirst, c, s[|s| - 1]) then s + [c]
    else SlideIn(pinnedFirst, s[..|s| - 1], c) + [s[|s| - 1]]
  }

  function StableSort(pinnedFirst: bool, s: seq<ChatSummary>): seq<ChatSummary> {
    if s == [] then [] else SlideIn(pinnedFirst, StableSort(pinnedFirst, s[..|s| - 1]), s[|s| - 1])
  }

  /** The position of a chat in the list, the list's length if it is not there. */
  function Position(chats: seq<ChatSummary>, jid: string): (i: nat)
    ensures i <= |chats| && (i < |chats| ==> chats[i].jid == jid)
    ensures forall j :: 0 <= j < i ==> chats[j].jid != jid
  {
    if chats == [] || chats[0].jid == jid then 0 else 1 + Position(chats[1..], jid)
  }

  function Touched(c: ChatSummary, ev: Event): ChatSummary {
    c.(lastTS := Max(c.lastTS, ev.ts), unread := c.unread + if ev.fromMe then 0 else 1)
  }

  function FirstSummary(ev: Event): ChatSummary {
    ChatSummary(ev.chatJID, "", ev.ts, if ev.fromMe then 0 else 1, false, false, 0)
  }

  function UpsertSummary(chats: seq<ChatSummary>, ev: Event): seq<ChatSummary> {
    var i := Position(chats, ev.chatJID);
    if i < |chats| then chats[i := Touched(chats[i], ev)] else chats + [FirstSummary(ev)]
  }

  function SummaryOf(jid: string, c: Chat): ChatSummary {
    ChatSummary(jid, c.name, LastTS(c), c.unread, c.pinned, c.archived, c.muteUntil)
  }

  function Unarchived(chats: map<string, Chat>): set<string> {
    set jid | jid in chats && !chats[jid].archived
  }

  /** The query has no ORDER BY: `order` is the order in which the rows came back. */
  function Summaries(chats: map<string, Chat>, order: seq<string>): seq<ChatSummary>
    requires forall jid :: jid in order ==> jid in chats
  {
    seq(|order|, i requires 0 <= i < |order| => SummaryOf(order[i], chats[order[i]]))
  }

  function LoadChats(v: View, chats: map<string, Chat>, order: seq<string>): View
    requires forall jid :: jid in order ==> jid in chats
  {
    v.(chats := StableSort(true, Summaries(chats, order)))
  }

  function ClearUnread(chats: seq<ChatSummary>, jid: string): seq<ChatSummary> {
    var i := Position(chats, jid);
    if i < |chats| then chats[i := chats[i].(unread := 0)] else chats
  }

  // ---------------------------------------------------------------- the open chat

  /** The bubble an event becomes: only these five fields are carried over. */
  function Bubble(ev: Event): Message {
    Message(0, ev.waID, ev.chatJID, ev.senderJID, ev.ts, ev.body,
            "", "", "", "", "", "", false, false, "", "", "", false)
  }

  /** Replaces the loaded copy with the same wa_id, or puts the message in front. */
  function FoldMessage(msgs: seq<Message>, m: Message): seq<Message> {
    if Has(msgs, m.waID) then msgs[IndexOf(msgs, m.waID) := m] else [m] + msgs
  }

  function OnIncoming(v: View, ev: Event): View {
    var v1 := v.(chats := StableSort(false, UpsertSummary(v.chats, ev)));
    if ev.chatJID == v.selected
    then v1.(loaded := true, messages := FoldMessage(v.messages, Bubble(ev)))
    else v1
  }

  function Open(v: View, jid: string, page: Page): View {
    v.(selected := jid, loaded := true, messages := page.msgs, cursor := page.next)
  }

  function SelectChat(v: View, rows: seq<Message>, jid: string): Result<View> {
    if jid == "" then Err("jid is required")
    else if jid == v.selected && v.loaded then Ok(v)
    else match PageOlder(rows, jid, Start, PageSize)
      case Err(e) => Err(e)
      case Ok(page) => Ok(Open(v, jid, page))
  }

  /** The second component is the number of rows appended. */
  function LoadOlder(v: View, rows: seq<Message>): Result<(View, int)> {
    if v.selected == "" then Err("no chat selected")
    else if IsZero(v.cursor) && v.messages != [] then Ok((v, 0))
    else match PageOlder(rows, v.selected, v.cursor, PageSize)
      case Err(e) => Err(e)
      case Ok(page) =>
        Ok((v.(loaded := v.loaded || IsZero(v.cursor) || page.msgs != [],
               messages := v.messages + page.msgs, cursor := page.next), |page.msgs|))
  }

  function JumpToMessage(v: View, rows: seq<Message>, chat: string, id: int): Result<View> {
    if chat == "" then Err("empty ChatJID")
    else match PageAround(rows, chat, id, PageSize / 2, PageSize / 2)
      case Err(e) => Err(e)
      case Ok(page) => Ok(Open(v, chat, page))
  }

  /** The back arrow (main.go, OnBack). */
  function Back(v: View): View {
    v.(selected := "", loaded := false, messages := [], cursor := Start)
  }

  function OptimisticRow(waID: string, chat: string, body: string, ts: int): Message {
    Message(0, waID, chat, "", ts, body, "", "", StatusPending, "", "", "", false, false, "", "", "", false)
  }

  function OptimisticEvent(waID: string, chat: string, body: string, ts: int): Event {
    Event(waID, chat, "", ts, body, true, "", "", "", "", "", "", "", "")
  }

  function TagPending(msgs: seq<Message>, waID: string): seq<Message> {
    if msgs != [] && msgs[0].waID == waID then msgs[0 := msgs[0].(status := StatusPending)] else msgs
  }

  function AddOptimistic(tok: Tokenizer, v: View, db: DB, waID: string, chat: string, body: string, ts: int)
    : Result<(View, DB)>
  {
    if chat == "" then Err("chatJID is required")
    else if waID == "" then Err("waID is required")
    else
      var v1 := OnIncoming(v, OptimisticEvent(waID, chat, body, ts));
      Ok((v1.(messages := TagPending(v1.messages, waID)),
          Inserted(tok, db, OptimisticRow(waID, chat, body, ts), false)))
  }
}

/** What OnIncoming does to the order of the chat list. */
module ChatOrder {
  import opened Prelude
  import Tables
  import opened Reducer

  ghost predicate DistinctJIDs(s: seq<ChatSummary>) {
    forall i, j :: 0 <= i < j < |s| ==> s[i].jid != s[j].jid
  }

  ghost predicate InOrder(pinnedFirst: bool, s: seq<ChatSummary>) {
    forall i, j :: 0 <= i < j < |s| ==> !Before(pinnedFirst, s[j], s[i])
  }

  ghost predicate NewestFirst(s: seq<ChatSummary>) {
    forall i, j :: 0 <= i < j < |s| ==> s[i].lastTS >= s[j].lastTS
  }

  /** The list without one chat. */
  function Others(s: seq<ChatSummary>, jid: string): seq<ChatSummary> {
    if s == [] then []
    else (if s[0].jid == jid then [] else [s[0]]) + Others(s[1..], jid)
  }

  lemma {:induction false} SlideInMeaning(pinnedFirst: bool, s: seq<ChatSummary>, c: ChatSummary) returns (k: nat)
    ensures k <= |s| && SlideIn(pinnedFirst, s, c) == s[..k] + [c] + s[k..]
    ensures forall j :: k <= j < |s| ==> Before(pinnedFirst, c, s[j])
    ensures k > 0 ==> !Before(pinnedFirst, c, s[k - 1])
  {
    var n := |s| - 1;
    if s == [] || !Before(pinnedFirst, c, s[n]) {
      k := |s|;
    } else {
      k := SlideInMeaning(pinnedFirst, s[..n], c);
      assert s[..n][..k] == s[..k];
      assert s[k..] == s[..n][k..] + [s[n]];
    }
  }

  lemma {:induction false} SlideInPermutes(pinnedFirst: bool, s: seq<ChatSummary>, c: ChatSummary)
    ensures multiset(SlideIn(pinnedFirst, s, c)) == multiset(s) + multiset{c}
  {
    var n := |s| - 1;
    if s != [] && Before(pinnedFirst, c, s[n]) {
      SlideInPermutes(pinnedFirst, s[..n], c);
      assert s == s[..n] + [s[n]];
    }
  }

  lemma {:induction false} StableSortPermutes(pinnedFirst: bool, s: seq<ChatSummary>)
    ensures multiset(StableSort(pinnedFirst, s)) == multiset(s)
  {
    if s != [] {
      var before, c := s[..|s| - 1], s[|s| - 1];
      StableSortPermutes(pinnedFirst, before);
      SlideInPermutes(pinnedFirst, StableSort(pinnedFirst, before), c);
      assert s == before + [c];
    }
  }

  lemma StableSortMembers(pinnedFirst: bool, s: seq<ChatSummary>)
    ensures forall c :: c in StableSort(pinnedFirst, s) <==> c in s
  {
    StableSortPermutes(pinnedFirst, s);
    forall c ensures c in StableSort(pinnedFirst, s) <==> c in s {
      assert c in multiset(StableSort(pinnedFirst, s)) <==> c in multiset(s);
    }
  }

  lemma SlideInKeepsOrder(pinnedFirst: bool, s: seq<ChatSummary>, c: ChatSummary)
    requires InOrder(pinnedFirst, s)
    ensures InOrder(pinnedFirst, SlideIn(pinnedFirst, s, c))
  {
    var k := SlideInMeaning(pinnedFirst, s, c);
    forall i | 0 <= i < k ensures !Before(pinnedFirst, c, s[i]) {
      if i < k - 1 {
        assert !Before(pinnedFirst, s[k - 1], s[i]);
      }
    }
  }

  lemma {:induction false} StableSortOrders(pinnedFirst: bool, s: seq<ChatSummary>)
    ensures InOrder(pinnedFirst, StableSort(pinnedFirst, s))
  {
    if s != [] {
      StableSortOrders(pinnedFirst, s[..|s| - 1]);
      SlideInKeepsOrder(pinnedFirst, StableSort(pinnedFirst, s[..|s| - 1]), s[|s| - 1]);
    }
  }

  lemma LastStays(s: seq<ChatSummary>)
    requires NewestFirst(s) && s != []
    ensures NewestFirst(s[..|s| - 1]) && SlideIn(false, s[..|s| - 1], s[|s| - 1]) == s
  {
    assert s == s[..|s| - 1] + [s[|s| - 1]];
  }

  lemma {:induction false} SortedStays(s: seq<ChatSummary>)
    requires NewestFirst(s)
    ensures StableSort(false, s) == s
  {
    if s != [] {
      LastStays(s);
      hide NewestFirst, SlideIn;
      SortedStays(s[..|s| - 1]);
    }
  }

  /** A sorted list with entry `i` raised to `c` and moved up to `k`. */
  function MovedUp(s: seq<ChatSummary>, k: int, i: int, c: ChatSummary, n: int): seq<ChatSummary>
    requires 0 <= k <= i < n <= |s|
  {
    s[..k] + [c] + s[k..i] + s[i + 1..n]
  }

  lemma MovedUpEnd(s: seq<ChatSummary>, k: int, i: int, c: ChatSummary, n: int)
    requires NewestFirst(s) && 0 <= k <= i < n < |s| && c.lastTS >= s[i].lastTS
    ensures MovedUp(s, k, i, c, n)[n - 1].lastTS >= s[n].lastTS
    ensures MovedUp(s, k, i, c, n) + [s[n]] == MovedUp(s, k, i, c, n + 1)
  {
    assert s[i + 1..n + 1] == s[i + 1..n] + [s[n]];
    assert s[i].lastTS >= s[n].lastTS && s[n - 1].lastTS >= s[n].lastTS;
    if k < i {
      assert s[i - 1].lastTS >= s[n].lastTS;
    }
  }

  lemma PrefixSorted(s: seq<ChatSummary>, i: int)
    requires NewestFirst(s) && 0 <= i <= |s|
    ensures StableSort(false, s[..i]) == s[..i]
  {
    SortedStays(s[..i]);
  }

  lemma SortOneMore(s: seq<ChatSummary>, c: ChatSummary)
    ensures StableSort(false, s + [c]) == SlideIn(false, StableSort(false, s), c)
  {
    assert (s + [c])[..|s|] == s;
  }

  /** The raised entry itself, sorted into the part before it. */
  lemma RaisedEntrySlides(s: seq<ChatSummary>, i: int, c: ChatSummary) returns (k: nat)
    requires NewestFirst(s) && 0 <= i < |s|
    ensures k <= i
    ensures StableSort(false, s[..i] + [c]) == MovedUp(s, k, i, c, i + 1)
  {
    hide StableSort, NewestFirst, SlideIn;
    PrefixSorted(s, i);
    SortOneMore(s[..i], c);
    k := SlideInMeaning(false, s[..i], c);
    assert s[..i][..k] == s[..k] && s[..i][k..] == s[k..i];
  }

  lemma SortAppend(s: seq<ChatSummary>, c: ChatSummary)
    requires StableSort(false, s) == [] || StableSort(false, s)[|StableSort(false, s)| - 1].lastTS >= c.lastTS
    ensures StableSort(false, s + [c]) == StableSort(false, s) + [c]
  {
    SortOneMore(s, c);
  }

  /** Raising one entry of a sorted list and sorting again moves that entry up, and no other. */
  lemma {:induction false} RaisedEntryMovesUp(s: seq<ChatSummary>, i: int, c: ChatSummary, n: int) returns (k: nat)
    requires NewestFirst(s) && 0 <= i < n <= |s| && c.lastTS >= s[i].lastTS
    ensures k <= i
    ensures StableSort(false, s[i := c][..n]) == MovedUp(s, k, i, c, n)
    decreases n
  {
    hide NewestFirst, StableSort;
    if n == i + 1 {
      assert s[i := c][..n] == s[..i] + [c];
      k := RaisedEntrySlides(s, i, c);
    } else {
      var t := s[i := c][..n - 1];
      assert s[i := c][..n] == t + [s[n - 1]];
      k := RaisedEntryMovesUp(s, i, c, n - 1);
      MovedUpEnd(s, k, i, c, n - 1);
      SortAppend(t, s[n - 1]);
    }
  }

  lemma {:induction false} OthersSplit(a: seq<ChatSummary>, b: seq<ChatSummary>, jid: string)
    ensures Others(a + b, jid) == Others(a, jid) + Others(b, jid)
  {
    if a == [] {
      assert a + b == b;
    } else {
      assert (a + b)[1..] == a[1..] + b;
      OthersSplit(a[1..], b, jid);
    }
  }

  lemma OthersOne(c: ChatSummary)
    ensures Others([c], c.jid) == []
  {
    assert [c][1..] == [];
  }

  lemma {:induction false} PositionOf(s: seq<ChatSummary>, i: int)
    requires 0 <= i < |s| && forall j :: 0 <= j < i ==> s[j].jid != s[i].jid
    ensures Position(s, s[i].jid) == i
  {}

  lemma DistinctByMultiset(a: seq<ChatSummary>, b: seq<ChatSummary>)
    requires DistinctJIDs(a) && multiset(a) == multiset(b)
    ensures DistinctJIDs(b)
  {
    forall i, j | 0 <= i < j < |b| ensures b[i].jid != b[j].jid {
      if b[i].jid == b[j].jid {
        assert b[i] in multiset(b) && b[j] in multiset(b);
        assert b[i] in a && b[j] in a;
        assert b[i] == b[j];
        hide DistinctJIDs;
        OccursTwice(b, i, j);
        OccursOnce(a, b[i]);
      }
    }
  }

  lemma OccursTwice(b: seq<ChatSummary>, i: int, j: int)
    requires 0 <= i < j < |b| && b[i] == b[j]
    ensures multiset(b)[b[i]] >= 2
  {
    assert b == b[..i] + [b[i]] + b[i + 1..j] + [b[i]] + b[j + 1..];
  }

  lemma {:induction false} OccursOnce(a: seq<ChatSummary>, x: ChatSummary)
    requires DistinctJIDs(a)
    ensures multiset(a)[x] <= 1
  {
    if a != [] {
      assert a == [a[0]] + a[1..];
      OccursOnce(a[1..], x);
      if a[0] == x {
        assert x !in a[1..];
      }
    }
  }

  lemma UpsertKeepsDistinct(chats: seq<ChatSummary>, ev: Event)
    requires DistinctJIDs(chats)
    ensures DistinctJIDs(UpsertSummary(chats, ev))
  {}

  /** From distinct chats, every fold keeps them distinct and leaves the list newest first. */
  lemma IncomingSortsChats(v: View, ev: Event)
    requires DistinctJIDs(v.chats)
    ensures DistinctJIDs(OnIncoming(v, ev).chats) && NewestFirst(OnIncoming(v, ev).chats)
    ensures multiset(OnIncoming(v, ev).chats) == multiset(UpsertSummary(v.chats, ev))
  {
    hide DistinctJIDs, StableSort, UpsertSummary;
    var up := UpsertSummary(v.chats, ev);
    UpsertKeepsDistinct(v.chats, ev);
    StableSortPermutes(false, up);
    StableSortOrders(false, up);
    DistinctByMultiset(up, StableSort(false, up));
  }

  /** A reload lists a summary of each unarchived chat, once. */
  lemma LoadedSummaries(v: View, chats: map<string, Tables.Chat>, order: seq<string>)
    requires Enumerates(order, Unarchived(chats))
    ensures
      var list := LoadChats(v, chats, order).chats;
      && InOrder(true, list) && DistinctJIDs(list)
      && (forall c :: c in list <==> c.jid in chats && !chats[c.jid].archived && c == SummaryOf(c.jid, chats[c.jid]))
  {
    hide StableSort, InOrder, DistinctJIDs, Summaries, SummaryOf;
    var rows := Summaries(chats, order);
    SummariesMeaning(chats, order);
    StableSortOrders(true, rows);
    StableSortPermutes(true, rows);
    DistinctByMultiset(rows, StableSort(true, rows));
    StableSortMembers(true, rows);
  }

  /** Pinned chats come first, and among the pinned and among the others the newest. */
  ghost predicate PinnedThenNewest(list: seq<ChatSummary>) {
    forall i, j :: 0 <= i < j < |list| ==>
      && (list[j].pinned ==> list[i].pinned)
      && (list[i].pinned == list[j].pinned ==> list[i].lastTS >= list[j].lastTS)
  }

  /** An entry shows its chat's columns, a missing last_ts as zero. */
  predicate Shows(c: ChatSummary, row: Tables.Chat) {
    && c.name == row.name && c.unread == row.unread && c.pinned == row.pinned && c.archived == row.archived
    && c.muteUntil == row.muteUntil
    && c.lastTS == match row.lastTS case None => 0 case Some(ts) => ts
  }

  /**
   * A reload lists exactly the unarchived chats, each once with its stored columns, pinned ones
   * first, each group newest first, whatever order the query returns them in.
   */
  lemma LoadChatsMeaning(v: View, chats: map<string, Tables.Chat>, order: seq<string>)
    requires Enumerates(order, Unarchived(chats))
    ensures
      var w := LoadChats(v, chats, order);
      && PinnedThenNewest(w.chats) && DistinctJIDs(w.chats)
      && (forall c :: c in w.chats ==> c.jid in chats && !chats[c.jid].archived && Shows(c, chats[c.jid]))
      && (forall jid :: jid in chats && !chats[jid].archived ==> exists c :: c in w.chats && c.jid == jid)
      && w.messages == v.messages && w.selected == v.selected && w.cursor == v.cursor && w.loaded == v.loaded
  {
    LoadedSummaries(v, chats, order);
    hide StableSort, DistinctJIDs, Enumerates, Summaries;
    var list := LoadChats(v, chats, order).chats;
    forall jid | jid in chats && !chats[jid].archived ensures exists c :: c in list && c.jid == jid {
      assert SummaryOf(jid, chats[jid]) in list;
    }
  }

  lemma SummariesMeaning(chats: map<string, Tables.Chat>, order: seq<string>)
    requires Enumerates(order, Unarchived(chats))
    ensures DistinctJIDs(Summaries(chats, order))
    ensures forall c :: c in Summaries(chats, order)
                   <==> c.jid in chats && !chats[c.jid].archived && c == SummaryOf(c.jid, chats[c.jid])
  {
    var rows := Summaries(chats, order);
    forall c: ChatSummary | c.jid in chats && !chats[c.jid].archived && c == SummaryOf(c.jid, chats[c.jid])
      ensures c in rows
    {
      assert c.jid in Unarchived(chats) && c.jid in order;
      var i :| 0 <= i < |order| && order[i] == c.jid;
      assert rows[i] == c;
    }
    forall c | c in rows ensures c.jid in chats && !chats[c.jid].archived && c == SummaryOf(c.jid, chats[c.jid]) {
      var i :| 0 <= i < |rows| && rows[i] == c;
      assert order[i] in order && order[i] in Unarchived(chats);
    }
  }

  /** The list is `s` with the one chat of `c` taken out, if it was there, and `c` put in at or above its place. */
  ghost predicate OneMovedUp(s: seq<ChatSummary>, list: seq<ChatSummary>, c: ChatSummary) {
    && Others(list, c.jid) == Others(s, c.jid)
    && Position(list, c.jid) <= Position(s, c.jid)
    && Position(list, c.jid) < |list| && list[Position(list, c.jid)] == c
  }

  lemma KnownChatMovesUp(s: seq<ChatSummary>, i: int, c: ChatSummary)
    requires NewestFirst(s) && i == Position(s, c.jid) < |s| && c.lastTS >= s[i].lastTS
    ensures OneMovedUp(s, StableSort(false, s[i := c]), c)
  {
    hide StableSort, NewestFirst, Others;
    var k := RaisedEntryMovesUp(s, i, c, |s|);
    assert s[i := c][..|s|] == s[i := c];
    MovedUpOthers(s, k, i, c);
  }

  lemma NewChatMovesUp(s: seq<ChatSummary>, c: ChatSummary)
    requires NewestFirst(s) && Position(s, c.jid) == |s|
    ensures OneMovedUp(s, StableSort(false, s + [c]), c)
  {
    hide StableSort, NewestFirst, SlideIn, Others;
    SortedStays(s);
    SortOneMore(s, c);
    var k := SlideInMeaning(false, s, c);
    InsertedOthers(s, k, c);
  }

  /**
   * If the list was newest first, a fold keeps the relative order of all other chats, and the
   * chat it concerns moves up or stays, with its last_ts advanced and its unread counted.
   */
  lemma IncomingMovesOneChat(v: View, ev: Event)
    requires DistinctJIDs(v.chats) && NewestFirst(v.chats)
    ensures Others(OnIncoming(v, ev).chats, ev.chatJID) == Others(v.chats, ev.chatJID)
    ensures Position(OnIncoming(v, ev).chats, ev.chatJID) <= Position(v.chats, ev.chatJID)
    ensures Position(OnIncoming(v, ev).chats, ev.chatJID) < |OnIncoming(v, ev).chats|
    ensures
      var was, now := Position(v.chats, ev.chatJID), Position(OnIncoming(v, ev).chats, ev.chatJID);
      var known, entry := was < |v.chats|, OnIncoming(v, ev).chats[now];
      && entry.lastTS == (if known then Max(v.chats[was].lastTS, ev.ts) else ev.ts)
      && entry.unread == (if known then v.chats[was].unread else 0) + (if ev.fromMe then 0 else 1)
      && entry.name == (if known then v.chats[was].name else "") && (entry.pinned <==> known && v.chats[was].pinned)
      && (entry.archived <==> known && v.chats[was].archived)
      && entry.muteUntil == (if known then v.chats[was].muteUntil else 0)
  {
    hide StableSort, NewestFirst, Others, DistinctJIDs;
    var s := v.chats;
    var i := Position(s, ev.chatJID);
    if i < |s| {
      KnownChatMovesUp(s, i, Touched(s[i], ev));
    } else {
      NewChatMovesUp(s, FirstSummary(ev));
    }
  }

  lemma OthersSkip(a: seq<ChatSummary>, c: ChatSummary, b: seq<ChatSummary>)
    ensures Others(a + [c] + b, c.jid) == Others(a + b, c.jid)
  {
    OthersSplit(a + [c], b, c.jid);
    OthersSplit(a, [c], c.jid);
    OthersOne(c);
    OthersSplit(a, b, c.jid);
  }

  lemma MovedUpOthers(s: seq<ChatSummary>, k: int, i: int, c: ChatSummary)
    requires 0 <= k <= i < |s| && s[i].jid == c.jid && forall j :: 0 <= j < i ==> s[j].jid != c.jid
    ensures Others(MovedUp(s, k, i, c, |s|), c.jid) == Others(s, c.jid)
    ensures Position(MovedUp(s, k, i, c, |s|), c.jid) == k
  {
    MovedUpParts(s, k, i, c);
    OthersSkip(s[..k], c, s[k..i] + s[i + 1..]);
    OthersSkip(s[..i], s[i], s[i + 1..]);
    InsertedPosition(s[..k], c, s[k..i] + s[i + 1..]);
  }

  lemma MovedUpParts(s: seq<ChatSummary>, k: int, i: int, c: ChatSummary)
    requires 0 <= k <= i < |s|
    ensures MovedUp(s, k, i, c, |s|) == s[..k] + [c] + (s[k..i] + s[i + 1..])
    ensures s == s[..i] + [s[i]] + s[i + 1..]
    ensures s[..k] + (s[k..i] + s[i + 1..]) == s[..i] + s[i + 1..]
  {}

  lemma InsertedOthers(s: seq<ChatSummary>, k: int, c: ChatSummary)
    requires 0 <= k <= |s| && forall j :: 0 <= j < |s| ==> s[j].jid != c.jid
    ensures Others(s[..k] + [c] + s[k..], c.jid) == Others(s, c.jid)
    ensures Position(s[..k] + [c] + s[k..], c.jid) == k
  {
    assert s == s[..k] + s[k..];
    OthersSkip(s[..k], c, s[k..]);
    InsertedPosition(s[..k], c, s[k..]);
  }

  lemma InsertedPosition(a: seq<ChatSummary>, c: ChatSummary, b: seq<ChatSummary>)
    requires forall j :: 0 <= j < |a| ==> a[j].jid != c.jid
    ensures Position(a + [c] + b, c.jid) == |a|
  {
    PositionOf(a + [c] + b, |a|);
  }
}
