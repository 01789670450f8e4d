/** Following PageOlder page by page while other writers change the store between the fetches. */
module Walks {
  import opened Prelude
  import opened Tables
  import opened Paging

  /** Each fetch sees the messages table as it is at that moment: `tables[k]` at fetch k. */
  ghost predicate Growing(tables: seq<seq<Message>>) {
    && (forall k :: 0 <= k < |tables| ==> WellFormed(tables[k]))
    && (forall j, k :: 0 <= j <= k < |tables| ==> Evolves(tables[j], tables[k]))
  }

  /** The cursor the k-th fetch is given: the start for the first, then the previous page's. */
  function CursorAt(tables: seq<seq<Message>>, chat: string, limit: int, k: nat): Cursor
    requires k <= |tables| && chat != "" && limit > 0
    decreases k, 0
  {
    if k == 0 then Start else PageAt(tables, chat, limit, k - 1).next
  }

  function PageAt(tables: seq<seq<Message>>, chat: string, limit: int, k: nat): Page
    requires k < |tables| && chat != "" && limit > 0
    decreases k, 1
  {
    PageOlder(tables[k], chat, CursorAt(tables, chat, limit, k), limit).value
  }

  /** All pages fetched so far, one after another. */
  function Collected(tables: seq<seq<Message>>, chat: string, limit: int, k: nat): seq<Message>
    requires k <= |tables| && chat != "" && limit > 0
  {
    if k == 0 then [] else Collected(tables, chat, limit, k - 1) + PageAt(tables, chat, limit, k - 1).msgs
  }

  /** Every page but the last was full, and the last one was short: the walk is over. */
  ghost predicate Finished(tables: seq<seq<Message>>, chat: string, limit: int)
    requires chat != "" && limit > 0
  {
    && tables != []
    && (forall k :: 0 <= k < |tables| - 1 ==> |PageAt(tables, chat, limit, k).msgs| == limit)
    && |PageAt(tables, chat, limit, |tables| - 1).msgs| < limit
  }

  ghost predicate Listed(m: Message, s: seq<Message>) {
    exists x :: x in s && SameKey(m, x)
  }

  /** Rows of the first table that the walk has passed are all collected. */
  ghost predicate CoversFirst(first: seq<Message>, chat: string, passed: Range, s: seq<Message>) {
    forall m :: m in first && m.chatJID == chat && !InRange(m, passed) ==> Listed(m, s)
  }

  function Remaining(c: Cursor): Range {
    if IsZero(c) then Everything else Below(c)
  }

  lemma DescendingAppend(a: seq<Message>, b: seq<Message>)
    requires Descending(a) && Descending(b)
    requires a != [] ==> forall m :: m in b ==> OlderThan(m, CursorOf(a[|a| - 1]))
    ensures Descending(a + b)
  {
    forall i, j | 0 <= i < |a| && 0 <= j < |b| ensures Newer(a[i], b[j]) {
      assert b[j] in b;
      assert i < |a| - 1 ==> Newer(a[i], a[|a| - 1]);
    }
  }

  /** One more page extends the coverage down to its last row, or to everything if it is short. */
  lemma PageExtendsCoverage(first: seq<Message>, rows: seq<Message>, chat: string, before: Cursor, limit: int,
                            soFar: seq<Message>)
    requires WellFormed(first) && WellFormed(rows) && Evolves(first, rows) && chat != "" && limit > 0
    requires CoversFirst(first, chat, Remaining(before), soFar)
    ensures
      var page := PageOlder(rows, chat, before, limit).value;
      && (|page.msgs| == limit ==> CoversFirst(first, chat, Below(page.next), soFar + page.msgs))
      && (|page.msgs| < limit ==> forall m :: m in first && m.chatJID == chat ==> Listed(m, soFar + page.msgs))
  {
    var page := PageOlder(rows, chat, before, limit).value;
    hide PageOlder, WellFormed, Evolves, Descending, CoversFirst;
    PageOlderMeaning(rows, chat, before, limit);
    forall m | m in first && m.chatJID == chat && (|page.msgs| == limit ==> !OlderThan(m, page.next))
      ensures Listed(m, soFar + page.msgs)
    {
      RowIsPassed(first, rows, chat, before, limit, soFar, m);
    }
    CoverageByRows(first, chat, page.next, soFar + page.msgs);
  }

  lemma CoverageByRows(first: seq<Message>, chat: string, c: Cursor, s: seq<Message>)
    ensures CoversFirst(first, chat, Below(c), s)
       <==> forall m :: m in first && m.chatJID == chat && !OlderThan(m, c) ==> Listed(m, s)
  {
    hide Listed;
  }

  /** A row of the first table that is not below the page was collected before or is on it. */
  lemma RowIsPassed(first: seq<Message>, rows: seq<Message>, chat: string, before: Cursor, limit: int,
                    soFar: seq<Message>, m: Message)
    requires WellFormed(rows) && Evolves(first, rows) && chat != "" && limit > 0
    requires CoversFirst(first, chat, Remaining(before), soFar) && m in first && m.chatJID == chat
    requires PageOlder(rows, chat, before, limit).Ok?
    requires
      var page := PageOlder(rows, chat, before, limit).value;
      |page.msgs| == limit ==> !OlderThan(m, page.next)
    ensures Listed(m, soFar + PageOlder(rows, chat, before, limit).value.msgs)
  {
    var page := PageOlder(rows, chat, before, limit).value;
    if InRange(m, Remaining(before)) {
      var i :| 0 <= i < |first| && first[i] == m;
      var x := rows[i];
      assert SameKey(m, x) && x in rows && Wanted(x, chat, Remaining(before));
      PageOlderMeaning(rows, chat, before, limit);
      hide PageOlder, WellFormed, Evolves, CoversFirst, Descending;
      assert x in page.msgs;
      assert x in soFar + page.msgs;
    } else {
      hide PageOlder, WellFormed, Evolves;
      var x :| x in soFar && SameKey(m, x);
      assert x in soFar + page.msgs;
    }
  }

  lemma FirstIsCovered(first: seq<Message>, chat: string)
    ensures CoversFirst(first, chat, Remaining(Start), [])
  {}

  ghost predicate Progress(tables: seq<seq<Message>>, chat: string, limit: int, k: nat)
    requires 0 < k <= |tables| && chat != "" && limit > 0
  {
    var got, c := Collected(tables, chat, limit, k), CursorAt(tables, chat, limit, k);
    && got != [] && c == CursorOf(got[|got| - 1]) && c != Start
    && Descending(got)
    && CoversFirst(tables[0], chat, Below(c), got)
  }

  lemma {:induction false} FullPages(tables: seq<seq<Message>>, chat: string, limit: int, k: nat)
    requires Growing(tables) && chat != "" && limit > 0 && 0 < k <= |tables|
    requires forall j :: 0 <= j < k ==> |PageAt(tables, chat, limit, j).msgs| == limit
    ensures Progress(tables, chat, limit, k)
    decreases k
  {
    hide WellFormed, Evolves, PageOlder, Descending, CoversFirst;
    var got := Collected(tables, chat, limit, k - 1);
    var c := CursorAt(tables, chat, limit, k - 1);
    var page := PageAt(tables, chat, limit, k - 1);
    if k == 1 {
      assert got == [];
    } else {
      FullPages(tables, chat, limit, k - 1);
    }
    FirstIsCovered(tables[0], chat);
    PageOlderMeaning(tables[k - 1], chat, c, limit);
    DescendingAppend(got, page.msgs);
    PageExtendsCoverage(tables[0], tables[k - 1], chat, c, limit, got);
  }

  /**
   * A finished walk, whatever was inserted or edited between its fetches: the pages together
   * are strictly descending by (ts, id), so no row is repeated, and every message of the chat
   * that was there when the walk began has been returned.
   */
  lemma WalkIsComplete(tables: seq<seq<Message>>, chat: string, limit: int)
    requires Growing(tables) && chat != "" && limit > 0 && Finished(tables, chat, limit)
    ensures
      var got := Collected(tables, chat, limit, |tables|);
      Descending(got) && forall m :: m in tables[0] && m.chatJID == chat ==> Listed(m, got)
  {
    hide WellFormed, Evolves, PageOlder, Descending, CoversFirst;
    var n := |tables| - 1;
    var got, c, page := Collected(tables, chat, limit, n), CursorAt(tables, chat, limit, n),
        PageAt(tables, chat, limit, n);
    if n == 0 {
      assert got == [];
    } else {
      FullPages(tables, chat, limit, n);
    }
    FirstIsCovered(tables[0], chat);
    PageOlderMeaning(tables[n], chat, c, limit);
    DescendingAppend(got, page.msgs);
    PageExtendsCoverage(tables[0], tables[n], chat, c, limit, got);
  }

  /** Every collected row was stored in the chat when its page was fetched. */
  lemma {:induction false} CollectedIsStored(tables: seq<seq<Message>>, chat: string, limit: int, k: nat, m: Message)
    requires Growing(tables) && chat != "" && limit > 0 && k <= |tables| && m in Collected(tables, chat, limit, k)
    ensures m.chatJID == chat && exists j :: 0 <= j < k && m in tables[j]
    decreases k
  {
    hide WellFormed, Evolves, PageOlder, Descending;
    if m in PageAt(tables, chat, limit, k - 1).msgs {
      PageOlderMeaning(tables[k - 1], chat, CursorAt(tables, chat, limit, k - 1), limit);
    } else {
      CollectedIsStored(tables, chat, limit, k - 1, m);
    }
  }

  /** On a store that does not change, the walk returns the whole sorted history. */
  lemma QuietWalkIsHistory(rows: seq<Message>, tables: seq<seq<Message>>, chat: string, limit: int)
    requires WellFormed(rows) && chat != "" && limit > 0
    requires tables != [] && (forall k :: 0 <= k < |tables| ==> tables[k] == rows) && Finished(tables, chat, limit)
    ensures Collected(tables, chat, limit, |tables|) == History(rows, chat)
  {
    assert Evolves(rows, rows);
    hide WellFormed, Evolves, Descending, Collected, Finished, PageOlder, Matching, Ordered;
    WalkIsComplete(tables, chat, limit);
    SelectedMeaning(rows, chat, Everything);
    var got := Collected(tables, chat, limit, |tables|);
    forall m ensures m in got <==> m in History(rows, chat) {
      if m in got {
        CollectedIsStored(tables, chat, limit, |tables|, m);
      }
      if m in History(rows, chat) {
        var x :| x in got && SameKey(m, x);
        CollectedIsStored(tables, chat, limit, |tables|, x);
        SameID(rows, m, x);
      }
    }
    DescendingUnique(got, History(rows, chat));
  }

  /** The position in the history at which the k-th page begins. */
  function Offset(k: nat, limit: int): (p: int)
    requires limit > 0
    ensures p >= 0 && (k > 0 ==> p >= limit)
  {
    if k == 0 then 0 else Offset(k - 1, limit) + limit
  }

  /** The cursor and the page of each fetch on a store that does not change. */
  lemma {:induction false} QuietFetch(rows: seq<Message>, tables: seq<seq<Message>>, chat: string, limit: int, k: nat)
    requires WellFormed(rows) && chat != "" && limit > 0 && k < |tables|
    requires forall j :: 0 <= j < |tables| ==> tables[j] == rows
    requires Offset(k, limit) <= |History(rows, chat)|
    ensures PageAt(tables, chat, limit, k) == PageOf(Take(History(rows, chat)[Offset(k, limit)..], limit))
    decreases k
  {
    hide WellFormed, History, PageOlder, Take, PageOf;
    var h := History(rows, chat);
    if k == 0 {
      FirstPage(rows, chat, limit);
      assert h[0..] == h;
    } else {
      QuietFetch(rows, tables, chat, limit, k - 1);
      FullPageEnds(h, Offset(k - 1, limit), limit);
      NextPage(rows, chat, Offset(k, limit) - 1, limit);
    }
  }

  lemma FullPageEnds(h: seq<Message>, k: int, limit: int)
    requires 0 <= k && limit > 0 && k + limit <= |h|
    ensures PageOf(Take(h[k..], limit)).next == CursorOf(h[k + limit - 1])
  {
    FullTake(h, k, limit);
  }

  function Fetches(size: nat, limit: int): nat
    requires limit > 0
  {
    size / limit + 1
  }

  /** A table that does not change, as `n` fetches see it. */
  function Unchanged(rows: seq<Message>, n: nat): (tables: seq<seq<Message>>)
    ensures |tables| == n && forall k :: 0 <= k < n ==> tables[k] == rows
  {
    seq(n, _ => rows)
  }

  /** Such a walk ends: after one fetch per full page and one more, and it has the whole history. */
  lemma QuietWalkEnds(rows: seq<Message>, chat: string, limit: int)
    requires WellFormed(rows) && chat != "" && limit > 0
    ensures
      var tables := Unchanged(rows, Fetches(|History(rows, chat)|, limit));
      Finished(tables, chat, limit) && Collected(tables, chat, limit, |tables|) == History(rows, chat)
  {
    hide WellFormed, History, PageOlder, Collected, PageAt, Offset;
    var h := History(rows, chat);
    var q := Fetches(|h|, limit) - 1;
    var tables := Unchanged(rows, q + 1);
    hide Fetches;
    LastOffset(|h|, limit, q);
    forall k | 0 <= k <= q
      ensures |PageAt(tables, chat, limit, k).msgs| == limit <==> k < q
      ensures |PageAt(tables, chat, limit, k).msgs| <= limit
    {
      OffsetsGrow(k, q, limit);
      QuietFetch(rows, tables, chat, limit, k);
      FullTake(h, Offset(k, limit), limit);
    }
    QuietWalkIsHistory(rows, tables, chat, limit);
  }

  lemma {:induction false} OffsetsGrow(k: nat, q: nat, limit: int)
    requires limit > 0 && k <= q
    ensures if k == q then Offset(k, limit) == Offset(q, limit) else Offset(k, limit) + limit <= Offset(q, limit)
  {
    if k < q {
      OffsetsGrow(k, q - 1, limit);
    }
  }

  lemma {:induction false} OffsetIsProduct(k: nat, limit: int)
    requires limit > 0
    ensures Offset(k, limit) == k * limit
  {
    if k > 0 {
      OffsetIsProduct(k - 1, limit);
      assert k * limit == (k - 1) * limit + limit;
    }
  }

  lemma LastOffset(size: nat, limit: int, q: nat)
    requires limit > 0 && q == size / limit
    ensures Offset(q, limit) <= size < Offset(q, limit) + limit
  {
    OffsetIsProduct(q, limit);
    assert size == size / limit * limit + size % limit;
  }

  // ---------------------------------------------------------------- the writers in between

  function RowsOf(dbs: seq<DB>): (r: seq<seq<Message>>)
    ensures |r| == |dbs| && forall k :: 0 <= k < |dbs| ==> r[k] == dbs[k].rows
  {
    seq(|dbs|, k requires 0 <= k < |dbs| => dbs[k].rows)
  }

  /** The store at each fetch, `between[k]` being what ran between fetches k and k + 1. */
  ghost predicate StoreRun(tok: Tokenizer, dbs: seq<DB>, between: seq<seq<StoreOp>>) {
    && |dbs| == |between| + 1 && WellFormed(dbs[0].rows)
    && forall k :: 0 <= k < |between| ==> dbs[k + 1] == ApplyAll(tok, dbs[k], between[k])
  }

  /** Any store operations between the fetches make the tables a growing sequence. */
  lemma {:induction false} StoreRunGrows(tok: Tokenizer, dbs: seq<DB>, between: seq<seq<StoreOp>>)
    requires StoreRun(tok, dbs, between)
    ensures Growing(RowsOf(dbs))
    decreases |dbs|
  {
    hide WellFormed, ApplyAll;
    var n := |between|;
    if n > 0 {
      var before := dbs[..n];
      StoreRunGrows(tok, before, between[..n - 1]);
      assert RowsOf(before)[n - 1] == dbs[n - 1].rows;
      ApplyAllKeeps(tok, dbs[n - 1], between[n - 1]);
      forall j | 0 <= j <= n ensures Evolves(dbs[j].rows, dbs[n].rows) {
        if j < n {
          assert Evolves(RowsOf(before)[j], RowsOf(before)[n - 1]);
          EvolvesTransitive(dbs[j].rows, dbs[n - 1].rows, dbs[n].rows);
        }
      }
      forall j, k | 0 <= j <= k < n ensures Evolves(dbs[j].rows, dbs[k].rows) && WellFormed(dbs[k].rows) {
        assert Evolves(RowsOf(before)[j], RowsOf(before)[k]);
      }
    }
  }
}
