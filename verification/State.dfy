/** The view-model state, the handler and the drain loop as mutable objects. */
module States {
  import opened Prelude
  import opened Tables
  import opened Paging
  import R = Reducer
  import ChatOrder
  import opened Stores
  import P = Protocol

  class State {
    const store: Store
    var Chats: seq<R.ChatSummary>
    var SelectedChat: string
    var MessagesSet: bool  // false while Messages has never been assigned
    var Messages: seq<Message>
    var Cursor: Cursor

    ghost function AsView(): R.View
      reads this
    {
      R.View(Chats, SelectedChat, MessagesSet, Messages, Cursor)
    }

    constructor (store: Store)
      ensures this.store == store && AsView() == R.NewView()
    {
      this.store := store;
      Chats, SelectedChat, MessagesSet, Messages, Cursor := [], "", false, [], Start;
    }

    /** The rows come back in some order; the list is sorted pinned-first, then newest-first. */
    method LoadChats() returns (ghost order: seq<string>)
      modifies this
      ensures Enumerates(order, R.Unarchived(store.chats))
      ensures AsView() == R.LoadChats(old(AsView()), store.chats, order)
      ensures ChatOrder.PinnedThenNewest(Chats)
    {
      var out: seq<R.ChatSummary> := [];
      order := [];
      var all := R.Unarchived(store.chats);
      var rest := all;
      while rest != {}
        invariant rest <= all && Enumerates(order, all - rest)
        invariant out == R.Summaries(store.chats, order)
        decreases rest
      {
        var jid :| jid in rest;
        out := out + [R.SummaryOf(jid, store.chats[jid])];
        order := order + [jid];
        rest := rest - {jid};
      }
      assert all - rest == all;
      ChatOrder.LoadChatsMeaning(AsView(), store.chats, order);
      Chats := R.StableSort(true, out);
    }

    /** Opens a chat on its newest page; the chat already open is left alone. */
    method SelectChat(jid: string) returns (r: Result<()>)
      requires store.Valid()
      modifies this
      ensures match R.SelectChat(old(AsView()), store.rows, jid)
              case Ok(v) => r.Ok? && AsView() == v
              case Err(_) => r.Err? && AsView() == old(AsView())
    {
      if jid == "" {
        return Err("jid is required");
      }
      if jid == SelectedChat && MessagesSet {
        return Ok(());
      }
      var page := store.PageOlder(jid, Start, R.PageSize);
      match page
      case Err(e) => return Err(e);
      case Ok(p) =>
        SelectedChat := jid;
        MessagesSet, Messages := true, p.msgs;
        Cursor := p.next;
        return Ok(());
    }

    /** Appends the next older page; zero rows means the history is exhausted. */
    method LoadOlder() returns (r: Result<int>)
      requires store.Valid()
      modifies this
      ensures match R.LoadOlder(old(AsView()), store.rows)
              case Ok((v, n)) => r == Ok(n) && AsView() == v
              case Err(_) => r.Err? && AsView() == old(AsView())
    {
      hide WellFormed, Select;
      if SelectedChat == "" {
        return Err("no chat selected");
      }
      if IsZero(Cursor) && |Messages| > 0 {
        return Ok(0);
      }
      var cursor := Cursor;
      if IsZero(cursor) && |Messages| == 0 {
        var first := store.PageOlder(SelectedChat, Start, R.PageSize);
        match first
        case Err(e) => return Err(e);
        case Ok(p) =>
          MessagesSet, Messages := true, p.msgs;
          Cursor := p.next;
          assert [] + p.msgs == p.msgs;
          return Ok(|p.msgs|);
      }
      var page := store.PageOlder(SelectedChat, cursor, R.PageSize);
      match page
      case Err(e) => return Err(e);
      case Ok(p) =>
        MessagesSet := MessagesSet || p.msgs != [];
        Messages := Messages + p.msgs;
        Cursor := p.next;
        return Ok(|p.msgs|);
    }

    /** Lands on a search hit with its surroundings. */
    method JumpToMessage(chat: string, id: int) returns (r: Result<()>)
      requires store.Valid()
      modifies this
      ensures match R.JumpToMessage(old(AsView()), store.rows, chat, id)
              case Ok(v) => r.Ok? && AsView() == v
              case Err(_) => r.Err? && AsView() == old(AsView())
    {
      hide WellFormed, Select, Lookup;
      if chat == "" {
        return Err("empty ChatJID");
      }
      var page := store.PageAround(chat, id, R.PageSize / 2, R.PageSize / 2);
      match page
      case Err(e) => return Err(e);
      case Ok(p) =>
        SelectedChat := chat;
        MessagesSet, Messages := true, p.msgs;
        Cursor := p.next;
        return Ok(());
    }

    method Back()
      modifies this
      ensures AsView() == R.Back(old(AsView()))
    {
      SelectedChat := "";
      MessagesSet, Messages := false, [];
      Cursor := Start;
    }

    /** Folds an event into the chat list and, if its chat is open, into the messages. */
    method OnIncoming(ev: R.Event)
      modifies this
      ensures AsView() == R.OnIncoming(old(AsView()), ev)
    {
      UpsertChatSummary(ev);
      Chats := R.StableSort(false, Chats);
      if ev.chatJID == SelectedChat {
        FoldMessage(R.Bubble(ev));
      }
    }

    method UpsertChatSummary(ev: R.Event)
      modifies this`Chats
      ensures Chats == R.UpsertSummary(old(Chats), ev)
    {
      for i := 0 to |Chats|
        invariant Chats == old(Chats)
        invariant forall j :: 0 <= j < i ==> Chats[j].jid != ev.chatJID
      {
        var c := Chats[i];
        if c.jid == ev.chatJID {
          if ev.ts > c.lastTS {
            c := c.(lastTS := ev.ts);
          }
          if !ev.fromMe {
            c := c.(unread := c.unread + 1);
          }
          Chats := Chats[i := c];
          return;
        }
      }
      Chats := Chats + [R.FirstSummary(ev)];
    }

    /** Replaces the copy already loaded, or prepends. */
    method FoldMessage(m: Message)
      modifies this`Messages, this`MessagesSet
      ensures Messages == R.FoldMessage(old(Messages), m) && MessagesSet
    {
      MessagesSet := true;
      for i := 0 to |Messages|
        invariant Messages == old(Messages)
        invariant forall j :: 0 <= j < i ==> Messages[j].waID != m.waID
      {
        if Messages[i].waID == m.waID {
          assert Has(Messages, m.waID);
          Messages := Messages[i := m];
          return;
        }
      }
      Messages := [m] + Messages;
    }

    /** Persists an outgoing message as pending and shows it at once; unread is not bumped. */
    method AddOptimistic(waID: string, chat: string, body: string, ts: int) returns (r: Result<()>)
      requires store.Valid()
      modifies this, store
      ensures store.Valid()
      ensures match R.AddOptimistic(store.tokenize, old(AsView()), old(store.Contents()), waID, chat, body, ts)
              case Ok((v, db)) => r.Ok? && AsView() == v && store.Contents() == db
              case Err(_) => r.Err? && AsView() == old(AsView()) && store.Contents() == old(store.Contents())
    {
      hide Inserted, WellFormed, R.OnIncoming, Has;
      if chat == "" {
        return Err("chatJID is required");
      }
      if waID == "" {
        return Err("waID is required");
      }
      var _ := store.Insert(R.OptimisticRow(waID, chat, body, ts), false);
      OnIncoming(R.OptimisticEvent(waID, chat, body, ts));
      if |Messages| > 0 && Messages[0].waID == waID {
        Messages := Messages[0 := Messages[0].(status := StatusPending)];
      }
      return Ok(());
    }

    /** Clears the counter of the open chat in the store and on screen. */
    method MarkSelectedRead() returns (r: Result<()>)
      requires store.Valid()
      modifies this, store
      ensures store.Valid() && r.Ok?
      ensures store.Contents() == if old(SelectedChat) == "" then old(store.Contents())
                                  else MarkRead(old(store.Contents()), old(SelectedChat))
      ensures AsView() == if old(SelectedChat) == "" then old(AsView())
                          else old(AsView()).(chats := R.ClearUnread(old(Chats), old(SelectedChat)))
    {
      if SelectedChat == "" {
        return Ok(());
      }
      var marked := store.MarkRead(SelectedChat);
      for i := 0 to |Chats|
        invariant Chats == old(Chats) && AsView() == old(AsView())
        invariant forall j :: 0 <= j < i ==> Chats[j].jid != SelectedChat
      {
        if Chats[i].jid == SelectedChat {
          Chats := Chats[i := Chats[i].(unread := 0)];
          break;
        }
      }
      return Ok(());
    }
  }

  /** The bounded channel between the handler and the frame loop. */
  class Channel {
    var buffer: seq<R.Event>

    constructor ()
      ensures buffer == []
    {
      buffer := [];
    }
  }

  class Handler {
    const store: Store
    const out: Channel
    var notified: nat

    constructor (store: Store, out: Channel)
      ensures this.store == store && this.out == out && notified == 0
    {
      this.store := store;
      this.out := out;
      notified := 0;
    }

    /**
     * Persist, then send without blocking, then notify. Seen from the protocol this is the
     * step Persist followed by the step Send for the same event; `s` is any protocol state
     * with this store and this queue, and a refused event leaves everything as it was.
     */
    method OnMessage(ev: R.Event, ghost s: P.System) returns (r: Result<()>)
      requires store.Valid()
      requires s.db == store.Contents() && s.queue == out.buffer
      modifies this, store, out
      ensures store.Valid()
      ensures r.Ok? <==> ev.waID != "" && ev.chatJID != ""
      ensures out.buffer == if r.Ok? && |old(out.buffer)| < 64 then old(out.buffer) + [ev] else old(out.buffer)
      ensures
        var t := P.Sent(P.Persisted(store.tokenize, s, ev), |s.inflight|);
        store.Contents() == t.db && out.buffer == t.queue
      ensures notified == old(notified) + if r.Ok? then 1 else 0
    {
      var inserted := store.Insert(P.RowOf(ev), !ev.fromMe);
      if inserted.Err? {
        return Err(inserted.error);
      }
      if |out.buffer| < P.IncomingBuffer {
        out.buffer := out.buffer + [ev];
      }
      notified := notified + 1;
      return Ok(());
    }
  }

  /** Folds every queued event into the state without blocking: Drain until the queue is empty. */
  method DrainIncoming(incoming: Channel, state: State, ghost s: P.System)
    requires s.view == state.AsView() && s.queue == incoming.buffer
    modifies incoming, state
    ensures incoming.buffer == []
    ensures state.AsView() == P.DrainAll(s).view == P.FoldAll(old(state.AsView()), old(incoming.buffer))
  {
    P.DrainsInOrder(s);
    ghost var t := s;
    while |incoming.buffer| > 0
      invariant t.view == state.AsView() && t.queue == incoming.buffer
      invariant P.DrainAll(t) == P.DrainAll(s)
      decreases |incoming.buffer|
    {
      var ev := incoming.buffer[0];
      incoming.buffer := incoming.buffer[1..];
      state.OnIncoming(ev);
      t := P.Drained(t);
    }
  }
}
