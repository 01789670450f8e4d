/** The typing table with its backing arrays: the filter runs in place in the list it reads. */
module TypingTables {
  import opened Prelude
  import opened TypingSpec

  /** A slice: the first `len` elements of a backing array, whose length is its capacity. */
  datatype Slice = Slice(buf: array<Entry>, len: nat)

  class TypingTable {
    var typing: map<string, Slice>

    /** No chat keeps an empty list, and no two chats share a backing array. */
    ghost predicate Valid()
      reads this
    {
      && (forall c :: c in typing ==> 0 < typing[c].len <= typing[c].buf.Length)
      && (forall c, d :: c in typing && d in typing && c != d ==> typing[c].buf != typing[d].buf)
    }

    ghost function Buffers(): set<object>
      reads this
    {
      set c | c in typing :: typing[c].buf as object
    }

    ghost function List(chat: string): seq<Entry>
      requires Valid()
      reads this, Buffers()
    {
      if chat in typing then typing[chat].buf[..typing[chat].len] else []
    }

    constructor ()
      ensures Valid() && typing == map[]
    {
      typing := map[];
    }

    /**
     * One typing event. The chat's list becomes what the event leaves of it, other chats keep
     * theirs, and a list that becomes empty leaves the table.
     */
    method SetTyping(chat: string, sender: string, composing: bool, now: int)
      requires Valid()
      modifies this, Buffers()
      ensures Valid() && fresh(Buffers() - old(Buffers()))
      ensures List(chat) == if chat == "" || sender == "" then old(List(chat))
                            else AfterEvent(old(List(chat)), sender, composing, now)
      ensures forall c :: c != chat ==> List(c) == old(List(c))
    {
      hide AfterEvent;
      if chat == "" || sender == "" {
        return;
      }
      var entries: Slice;
      if chat in typing {
        entries := typing[chat];
      } else {
        var none := new Entry[0];
        entries := Slice(none, 0);
      }
      var kept := Rewrite(entries, sender, composing, now);
      Put(chat, kept);
    }

    /** Stores a chat's list back, or takes the chat out if nothing is left. */
    method Put(chat: string, kept: Slice)
      requires Valid() && kept.len <= kept.buf.Length
      requires forall c :: c in typing && c != chat ==> typing[c].buf != kept.buf
      modifies this`typing
      ensures Valid() && Buffers() <= old(Buffers()) + {kept.buf}
      ensures List(chat) == kept.buf[..kept.len]
      ensures forall c :: c != chat ==>
                (c in typing <==> c in old(typing)) && (c in typing ==> typing[c] == old(typing)[c])
    {
      if kept.len == 0 {
        typing := typing - {chat};
      } else {
        typing := typing[chat := kept];
      }
    }

    /** What is left of a chat's list after an event, in the same array as long as it fits. */
    static method Rewrite(entries: Slice, sender: string, composing: bool, now: int) returns (kept: Slice)
      requires entries.len <= entries.buf.Length
      modifies entries.buf
      ensures kept.buf == entries.buf || fresh(kept.buf)
      ensures kept.len <= kept.buf.Length
      ensures kept.buf[..kept.len] == AfterEvent(old(entries.buf[..entries.len]), sender, composing, now)
    {
      var k := FilterInPlace(entries.buf, entries.len, sender, now);
      kept := Slice(entries.buf, k);
      if composing {
        kept := Append(kept, Entry(sender, now + TypingTTL));
      }
    }

    /**
     * The loop over `entries` that appends to `entries[:0]`: the write position never passes
     * the read position, so an entry not yet read is never overwritten.
     */
    static method FilterInPlace(buf: array<Entry>, n: nat, sender: string, now: int) returns (k: nat)
      requires n <= buf.Length
      modifies buf
      ensures k <= n && buf[..k] == Filter(old(buf[..n]), Some(sender), now)
    {
      k := 0;
      ghost var entries := buf[..n];
      ghost var kept: seq<Entry> := [];
      assert entries[..0] == [];
      for i := 0 to n
        invariant k <= i && kept == Filter(entries[..i], Some(sender), now)
        invariant buf[..k] == kept
        invariant forall j :: i <= j < n ==> buf[j] == entries[j]
      {
        FilterStep(entries, i, Some(sender), now);
        hide Filter;
        var e := buf[i];
        if e.sender == sender {
          assert kept + [] == kept;
          continue;
        }
        if e.until > now {
          kept := kept + [e];
          buf[k] := e;
          k := k + 1;
        } else {
          assert kept + [] == kept;
        }
      }
      assert entries[..n] == entries;
    }

    /** Go's append: in place while the capacity lasts, into a larger copy after that. */
    static method Append(s: Slice, e: Entry) returns (r: Slice)
      requires s.len <= s.buf.Length
      modifies s.buf
      ensures r.buf == s.buf || fresh(r.buf)
      ensures r.len == s.len + 1 <= r.buf.Length
      ensures r.buf[..r.len] == old(s.buf[..s.len]) + [e]
    {
      if s.len < s.buf.Length {
        s.buf[s.len] := e;
        r := Slice(s.buf, s.len + 1);
      } else {
        var larger := new Entry[2 * s.len + 1](_ => e);
        for i := 0 to s.len
          invariant larger[..i] == s.buf[..i]
          invariant larger[s.len] == e
          invariant s.buf[..] == old(s.buf[..])
        {
          larger[i] := s.buf[i];
        }
        r := Slice(larger, s.len + 1);
      }
    }

    /** The senders typing right now; the table itself is only read. */
    method ActiveTypers(chat: string, now: int) returns (out: seq<Entry>)
      requires Valid()
      ensures out == Live(List(chat), now)
    {
      out := [];
      if chat !in typing {
        return;
      }
      var s := typing[chat];
      ghost var entries := List(chat);
      for i := 0 to s.len
        invariant out == Live(entries[..i], now)
      {
        assert entries[..i + 1][..i] == entries[..i];
        if s.buf[i].until > now {
          out := out + [s.buf[i]];
        }
      }
      assert entries[..s.len] == entries;
    }
  }
}
