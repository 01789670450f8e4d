/** Opening a chat and scrolling up through it: LoadOlder refines a growing prefix of the history. */
module Scrolling {
  import opened Prelude
  import opened Tables
  import opened Paging
  import opened Reducer

  /** The view after opening `jid` and calling LoadOlder `n` times on an unchanging store. */
  function Scrolled(v: View, rows: seq<Message>, jid: string, n: nat): View
    requires jid != ""
  {
    if n == 0 then
      match SelectChat(v, rows, jid)
      case Ok(w) => w
      case Err(_) => v
    else
      match LoadOlder(Scrolled(v, rows, jid, n - 1), rows)
      case Ok((w, _)) => w
      case Err(_) => Scrolled(v, rows, jid, n - 1)
  }

  /** What the (n+1)-th call of LoadOlder reports. */
  function Appended(v: View, rows: seq<Message>, jid: string, n: nat): Result<int>
    requires jid != ""
  {
    match LoadOlder(Scrolled(v, rows, jid, n), rows)
    case Ok((_, count)) => Ok(count)
    case Err(e) => Err(e)
  }

  /** The window is a prefix of the history and the cursor says where it ends. */
  ghost predicate ShowsPrefix(w: View, rows: seq<Message>, jid: string, size: nat) {
    var h := History(rows, jid);
    && w.selected == jid && w.loaded
    && w.messages == Take(h, size)
    && (if w.messages == [] then h == [] && w.cursor == Start
        else (w.cursor == CursorOf(w.messages[|w.messages| - 1]) || (w.cursor == Start && w.messages == h)))
  }

  lemma LoadOlderExtends(w: View, rows: seq<Message>, jid: string, size: nat)
    requires WellFormed(rows) && jid != "" && size > 0 && ShowsPrefix(w, rows, jid, size)
    ensures LoadOlder(w, rows).Ok?
    ensures ShowsPrefix(LoadOlder(w, rows).value.0, rows, jid, size + PageSize)
    ensures LoadOlder(w, rows).value.1
        == |Take(History(rows, jid), size + PageSize)| - |Take(History(rows, jid), size)|
  {
    hide WellFormed, Matching, Ordered, PageOlder;
    var h := History(rows, jid);
    if w.messages == [] {
      FirstPage(rows, jid, PageSize);
    } else if w.cursor == Start {
      var i := |w.messages| - 1;
      assert w.messages[i] == h[i] && h[i] in h;
      RowCursor(rows, jid, Everything, h[i]);
    } else {
      var i := |w.messages| - 1;
      assert w.messages[i] == h[i];
      assert w.messages == h[..i + 1];
      assert h[i] in h;
      RowCursor(rows, jid, Everything, h[i]);
      NextPage(rows, jid, i, PageSize);
      var page := Take(h[i + 1..], PageSize);
      assert h[..i + 1] + page == Take(h, size + PageSize);
    }
  }

  lemma OpenShowsPrefix(v: View, rows: seq<Message>, jid: string)
    requires WellFormed(rows) && jid != "" && !(jid == v.selected && v.loaded)
    ensures SelectChat(v, rows, jid).Ok? && ShowsPrefix(SelectChat(v, rows, jid).value, rows, jid, PageSize)
  {
    FirstPage(rows, jid, PageSize);
  }

  /**
   * After n calls the window is exactly the newest 50 (n + 1) messages of the chat, or all of
   * them, and each call reports by how much it grew.
   */
  lemma {:induction false} LoadOlderRefinesPrefix(v: View, rows: seq<Message>, jid: string, n: nat)
    requires WellFormed(rows) && jid != "" && !(jid == v.selected && v.loaded)
    ensures ShowsPrefix(Scrolled(v, rows, jid, n), rows, jid, 50 * (n + 1))
    ensures Scrolled(v, rows, jid, n).messages == Take(History(rows, jid), 50 * (n + 1))
    ensures Appended(v, rows, jid, n)
         == Ok(|Take(History(rows, jid), 50 * (n + 2))| - |Take(History(rows, jid), 50 * (n + 1))|)
  {
    hide WellFormed, History, LoadOlder, SelectChat, Take;
    if n == 0 {
      OpenShowsPrefix(v, rows, jid);
    } else {
      LoadOlderRefinesPrefix(v, rows, jid, n - 1);
      LoadOlderExtends(Scrolled(v, rows, jid, n - 1), rows, jid, PageSize * n);
    }
    LoadOlderExtends(Scrolled(v, rows, jid, n), rows, jid, PageSize * (n + 1));
  }

  /** Once the history is loaded, every further call reports zero and changes no message. */
  lemma HistoryExhausted(v: View, rows: seq<Message>, jid: string, n: nat)
    requires WellFormed(rows) && jid != "" && !(jid == v.selected && v.loaded)
    requires 50 * (n + 1) >= |History(rows, jid)|
    ensures Scrolled(v, rows, jid, n).messages == History(rows, jid)
    ensures Appended(v, rows, jid, n) == Ok(0)
  {
    LoadOlderRefinesPrefix(v, rows, jid, n);
  }

  /**
   * On any table, a call reports zero exactly when the cursor has come back to the start under
   * a window that is not empty, or when no row of the chat is stored below the cursor. In the
   * first case it says nothing about the table: rows stored later are not looked for.
   */
  lemma ZeroExactly(v: View, rows: seq<Message>)
    requires WellFormed(rows) && v.selected != ""
    ensures LoadOlder(v, rows).Ok?
    ensures LoadOlder(v, rows).value.1 == 0
       <==> (IsZero(v.cursor) && v.messages != [])
            || (forall m :: m in rows ==>
                  !Wanted(m, v.selected, if IsZero(v.cursor) then Everything else Below(v.cursor)))
    ensures IsZero(v.cursor) && v.messages != [] ==> LoadOlder(v, rows) == Ok((v, 0))
  {
    hide WellFormed, PageOlder, Wanted;
    PageOlderMeaning(rows, v.selected, v.cursor, PageSize);
    var page := PageOlder(rows, v.selected, v.cursor, PageSize).value.msgs;
    HeadIsMember(page);
  }
}
