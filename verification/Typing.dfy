/** Typing indicators (internal/ui/state.go): what the list of typers means for any event history. */
module TypingSpec {
  import opened Prelude

  const TypingTTL := 10 * 1000

  datatype Entry = Entry(sender: string, until: int)

  /** Still before its deadline, and not of the sender to leave out, if any. */
  predicate Keeps(e: Entry, except: Option<string>, now: int) {
    (except.Some? ==> e.sender != except.value) && e.until > now
  }

  function Filter(entries: seq<Entry>, except: Option<string>, now: int): seq<Entry> {
    if entries == [] then []
    else
      var n := |entries| - 1;
      Filter(entries[..n], except, now) + if Keeps(entries[n], except, now) then [entries[n]] else []
  }

  lemma FilterStep(entries: seq<Entry>, i: int, except: Option<string>, now: int)
    requires 0 <= i < |entries|
    ensures Filter(entries[..i + 1], except, now)
         == Filter(entries[..i], except, now) + if Keeps(entries[i], except, now) then [entries[i]] else []
  {
    assert entries[..i + 1][..i] == entries[..i];
  }

  /** An event drops expired entries and the sender's own, then adds a new one if composing. */
  function AfterEvent(entries: seq<Entry>, sender: string, composing: bool, now: int): seq<Entry> {
    Filter(entries, Some(sender), now) + if composing then [Entry(sender, now + TypingTTL)] else []
  }

  function Live(entries: seq<Entry>, now: int): seq<Entry> {
    Filter(entries, None, now)
  }

  // ---------------------------------------------------------------- histories

  datatype Typed = Typed(chat: string, sender: string, composing: bool, at: int)

  /** Events without a chat or a sender are ignored. */
  predicate Concerns(e: Typed, chat: string) {
    e.chat == chat && e.chat != "" && e.sender != ""
  }

  /** The stored list of a chat after a history of events. */
  function ListAfter(events: seq<Typed>, chat: string): seq<Entry> {
    if events == [] then []
    else
      var before, e := ListAfter(events[..|events| - 1], chat), events[|events| - 1];
      if Concerns(e, chat) then AfterEvent(before, e.sender, e.composing, e.at) else before
  }

  /** The position of a sender's latest event in a chat, -1 if there is none. */
  function Latest(events: seq<Typed>, chat: string, sender: string): (i: int)
    ensures -1 <= i < |events|
    ensures i >= 0 ==> Concerns(events[i], chat) && events[i].sender == sender
  {
    if events == [] then -1
    else
      var n := |events| - 1;
      if Concerns(events[n], chat) && events[n].sender == sender then n
      else Latest(events[..n], chat, sender)
  }

  predicate ClockRuns(events: seq<Typed>) {
    forall i, j :: 0 <= i <= j < |events| ==> events[i].at <= events[j].at
  }

  /** The sender's latest event in the chat was composing, less than ten seconds (in milliseconds) ago. */
  predicate IsTyping(events: seq<Typed>, chat: string, sender: string, now: int) {
    var i := Latest(events, chat, sender);
    i >= 0 && events[i].composing && now < events[i].at + 10_000
  }

  /** Entries in order of their senders' latest events, each carrying that event's deadline. */
  ghost predicate Chronicles(list: seq<Entry>, events: seq<Typed>, chat: string) {
    && (forall k :: 0 <= k < |list| ==>
          var i := Latest(events, chat, list[k].sender);
          i >= 0 && events[i].composing && list[k].until == events[i].at + 10_000)
    && (forall j, k :: 0 <= j < k < |list| ==>
          Latest(events, chat, list[j].sender) < Latest(events, chat, list[k].sender))
  }

  ghost predicate Lists(list: seq<Entry>, sender: string) {
    exists e :: e in list && e.sender == sender
  }

  /** Nobody who is typing at `now` is missing. */
  ghost predicate MissesNobody(list: seq<Entry>, events: seq<Typed>, chat: string, now: int) {
    forall s :: IsTyping(events, chat, s, now) ==> Lists(list, s)
  }

  lemma LatestStep(events: seq<Typed>, e: Typed, chat: string, sender: string)
    ensures Latest(events + [e], chat, sender)
         == if Concerns(e, chat) && e.sender == sender then |events| else Latest(events, chat, sender)
  {
    assert (events + [e])[..|events|] == events;
  }

  lemma {:induction false} FilterMembers(list: seq<Entry>, except: Option<string>, now: int, e: Entry)
    ensures e in Filter(list, except, now) <==> e in list && Keeps(e, except, now)
  {
    if list != [] {
      var n := |list| - 1;
      assert list == list[..n] + [list[n]];
      FilterMembers(list[..n], except, now, e);
    }
  }

  lemma ChronicleSplits(list: seq<Entry>, events: seq<Typed>, chat: string)
    requires list != [] && Chronicles(list, events, chat)
    ensures Chronicles(list[..|list| - 1], events, chat)
    ensures Chronicles([list[|list| - 1]], events, chat)
    ensures forall x :: x in list[..|list| - 1] ==>
              Latest(events, chat, x.sender) < Latest(events, chat, list[|list| - 1].sender)
  {}

  lemma ChronicleAppend(list: seq<Entry>, e: Entry, events: seq<Typed>, chat: string)
    requires Chronicles(list, events, chat) && Chronicles([e], events, chat)
    requires forall x :: x in list ==> Latest(events, chat, x.sender) < Latest(events, chat, e.sender)
    ensures Chronicles(list + [e], events, chat)
  {
    assert [e][0] == e;
  }

  lemma {:induction false} FilterKeepsChronicle(list: seq<Entry>, except: Option<string>, now: int,
      events: seq<Typed>, chat: string)
    requires Chronicles(list, events, chat)
    ensures Chronicles(Filter(list, except, now), events, chat)
  {
    if list != [] {
      hide Chronicles;
      var n := |list| - 1;
      ChronicleSplits(list, events, chat);
      FilterKeepsChronicle(list[..n], except, now, events, chat);
      forall x | x in Filter(list[..n], except, now) ensures x in list[..n] {
        FilterMembers(list[..n], except, now, x);
      }
      ChronicleAppend(Filter(list[..n], except, now), list[n], events, chat);
    }
  }

  /** An event of another chat, or one that is ignored, changes no latest event of this chat. */
  lemma OtherEvent(list: seq<Entry>, events: seq<Typed>, e: Typed, chat: string)
    requires !Concerns(e, chat) && Chronicles(list, events, chat)
    ensures Chronicles(list, events + [e], chat)
    ensures forall s, now :: IsTyping(events + [e], chat, s, now) ==> IsTyping(events, chat, s, now)
  {
    forall s ensures Latest(events + [e], chat, s) == Latest(events, chat, s) {
      LatestStep(events, e, chat, s);
    }
  }

  /** Entries of other senders stay in order when a sender's new event comes last. */
  lemma OwnEventComesLast(list: seq<Entry>, events: seq<Typed>, e: Typed, chat: string)
    requires Concerns(e, chat) && Chronicles(list, events, chat)
    requires forall k :: 0 <= k < |list| ==> list[k].sender != e.sender
    ensures Chronicles(list, events + [e], chat)
    ensures e.composing ==> Chronicles(list + [Entry(e.sender, e.at + TypingTTL)], events + [e], chat)
  {
    forall s ensures Latest(events + [e], chat, s) == if s == e.sender then |events| else Latest(events, chat, s) {
      LatestStep(events, e, chat, s);
    }
  }

  lemma EventKeepsChronicle(list: seq<Entry>, events: seq<Typed>, e: Typed, chat: string)
    requires Concerns(e, chat) && Chronicles(list, events, chat)
    ensures Chronicles(AfterEvent(list, e.sender, e.composing, e.at), events + [e], chat)
  {
    var kept := Filter(list, Some(e.sender), e.at);
    FilterKeepsChronicle(list, Some(e.sender), e.at, events, chat);
    forall k | 0 <= k < |kept| ensures kept[k].sender != e.sender {
      FilterMembers(list, Some(e.sender), e.at, kept[k]);
    }
    OwnEventComesLast(kept, events, e, chat);
    assert kept + [] == kept;
  }

  /** An entry's deadline is that of its sender's latest event. */
  lemma EntryOf(list: seq<Entry>, events: seq<Typed>, chat: string, x: Entry)
    requires Chronicles(list, events, chat) && x in list
    ensures
      var i := Latest(events, chat, x.sender);
      i >= 0 && events[i].composing && x.until == events[i].at + 10_000
  {}

  lemma NobodyDropped(list: seq<Entry>, events: seq<Typed>, e: Typed, chat: string, s: string)
    requires Concerns(e, chat) && Chronicles(list, events, chat) && MissesNobody(list, events, chat, e.at)
    requires IsTyping(events + [e], chat, s, e.at)
    ensures Lists(AfterEvent(list, e.sender, e.composing, e.at), s)
  {
    LatestStep(events, e, chat, s);
    if s == e.sender {
      assert Entry(s, e.at + TypingTTL) in AfterEvent(list, e.sender, e.composing, e.at);
    } else {
      assert IsTyping(events, chat, s, e.at);
      var x :| x in list && x.sender == s;
      EntryOf(list, events, chat, x);
      assert Keeps(x, Some(e.sender), e.at);
      FilterMembers(list, Some(e.sender), e.at, x);
    }
  }

  lemma NothingListed(chat: string)
    ensures Chronicles([], [], chat)
  {}

  /** A concerning event leaves a list that misses nobody, from then on. */
  lemma EventMissesNobody(list: seq<Entry>, before: seq<Typed>, e: Typed, chat: string, now: int)
    requires Concerns(e, chat) && Chronicles(list, before, chat) && MissesNobody(list, before, chat, e.at)
        && e.at <= now
    ensures MissesNobody(AfterEvent(list, e.sender, e.composing, e.at), before + [e], chat, now)
  {
    hide Chronicles, AfterEvent, Lists;
    forall s | IsTyping(before + [e], chat, s, now)
      ensures Lists(AfterEvent(list, e.sender, e.composing, e.at), s)
    {
      assert IsTyping(before + [e], chat, s, e.at);
      NobodyDropped(list, before, e, chat, s);
    }
  }

  lemma OtherEventMissesNobody(list: seq<Entry>, before: seq<Typed>, e: Typed, chat: string, now: int)
    requires !Concerns(e, chat) && Chronicles(list, before, chat) && MissesNobody(list, before, chat, now)
    ensures MissesNobody(list, before + [e], chat, now)
  {
    hide Chronicles, Lists, IsTyping;
    OtherEvent(list, before, e, chat);
  }

  lemma {:induction false} StoredList(events: seq<Typed>, chat: string, now: int)
    requires ClockRuns(events) && (events != [] ==> events[|events| - 1].at <= now)
    ensures Chronicles(ListAfter(events, chat), events, chat)
    ensures MissesNobody(ListAfter(events, chat), events, chat, now)
    decreases |events|
  {
    hide Chronicles, AfterEvent, Concerns;
    if events == [] {
      NothingListed(chat);
    } else {
      hide MissesNobody;
      var before, e := events[..|events| - 1], events[|events| - 1];
      assert events == before + [e];
      var list := ListAfter(before, chat);
      if Concerns(e, chat) {
        StoredList(before, chat, e.at);
        EventKeepsChronicle(list, before, e, chat);
        EventMissesNobody(list, before, e, chat, now);
      } else {
        StoredList(before, chat, now);
        OtherEvent(list, before, e, chat);
        OtherEventMissesNobody(list, before, e, chat, now);
      }
    }
  }

  /**
   * For any history with a running clock, the active typers of a chat are exactly the senders
   * whose latest event there was composing less than ten seconds ago, each once, in the order
   * of those events.
   */
  lemma ActiveTypersExact(events: seq<Typed>, chat: string, now: int)
    requires ClockRuns(events) && (events != [] ==> events[|events| - 1].at <= now)
    ensures
      var active := Live(ListAfter(events, chat), now);
      && Chronicles(active, events, chat)
      && (forall s :: Lists(active, s) <==> IsTyping(events, chat, s, now))
      && (forall j, k :: 0 <= j < k < |active| ==>
            active[j].sender != active[k].sender && active[j].until <= active[k].until)
  {
    hide Chronicles, Live, Lists, IsTyping, ClockRuns;
    var list := ListAfter(events, chat);
    StoredList(events, chat, now);
    LiveKeepsChronicle(list, now, events, chat);
    ChronicleOrder(Live(list, now), events, chat);
    forall s ensures Lists(Live(list, now), s) <==> IsTyping(events, chat, s, now) {
      SenderIsActive(list, events, chat, now, s);
    }
  }

  lemma LiveKeepsChronicle(list: seq<Entry>, now: int, events: seq<Typed>, chat: string)
    requires Chronicles(list, events, chat)
    ensures Chronicles(Live(list, now), events, chat)
  {
    FilterKeepsChronicle(list, None, now, events, chat);
  }

  lemma ChronicleOrder(list: seq<Entry>, events: seq<Typed>, chat: string)
    requires Chronicles(list, events, chat) && ClockRuns(events)
    ensures forall j, k :: 0 <= j < k < |list| ==> list[j].sender != list[k].sender && list[j].until <= list[k].until
  {
    forall j, k | 0 <= j < k < |list| ensures list[j].sender != list[k].sender && list[j].until <= list[k].until {
      assert Latest(events, chat, list[j].sender) < Latest(events, chat, list[k].sender);
    }
  }

  lemma SenderIsActive(list: seq<Entry>, events: seq<Typed>, chat: string, now: int, s: string)
    requires Chronicles(list, events, chat) && MissesNobody(list, events, chat, now)
    ensures Lists(Live(list, now), s) <==> IsTyping(events, chat, s, now)
  {
    hide Chronicles, Live;
    if IsTyping(events, chat, s, now) {
      var x :| x in list && x.sender == s;
      EntryOf(list, events, chat, x);
      LiveMembers(list, now, x);
    }
    if Lists(Live(list, now), s) {
      var x :| x in Live(list, now) && x.sender == s;
      LiveMembers(list, now, x);
      EntryOf(list, events, chat, x);
    }
  }

  lemma LiveMembers(list: seq<Entry>, now: int, e: Entry)
    ensures e in Live(list, now) <==> e in list && e.until > now
  {
    FilterMembers(list, None, now, e);
  }
}
