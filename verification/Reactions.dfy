/** Reactions (internal/store/reactions.go) and the summary under a bubble (internal/ui/bubble.go). */
module Reactions {
  import opened Prelude

  datatype Reaction = Reaction(target: string, sender: string, emoji: string, ts: int)

  /** The primary key: one reaction per message and sender. */
  datatype Key = Key(target: string, sender: string)

  type Table = map<Key, Reaction>

  predicate Accepted(r: Reaction) {
    r.target != "" && r.sender != ""
  }

  /** An empty emoji removes the reaction; calls without a target or sender are refused. */
  function Set(table: Table, r: Reaction): Table {
    if !Accepted(r) then table
    else if r.emoji == "" then table - {Key(r.target, r.sender)}
    else table[Key(r.target, r.sender) := r]
  }

  function After(calls: seq<Reaction>): Table {
    if calls == [] then map[] else Set(After(calls[..|calls| - 1]), calls[|calls| - 1])
  }

  /** The sender's last call for the message, if any. */
  function LastCall(calls: seq<Reaction>, key: Key): Option<Reaction> {
    if calls == [] then None
    else
      var r := calls[|calls| - 1];
      if Accepted(r) && Key(r.target, r.sender) == key then Some(r) else LastCall(calls[..|calls| - 1], key)
  }

  predicate Reacts(calls: seq<Reaction>, key: Key) {
    LastCall(calls, key).Some? && LastCall(calls, key).value.emoji != ""
  }

  /** The table holds exactly the last calls that were not removals. */
  lemma {:induction false} TableIsLastCalls(calls: seq<Reaction>, key: Key)
    ensures key in After(calls) <==> Reacts(calls, key)
    ensures key in After(calls) ==> After(calls)[key] == LastCall(calls, key).value
    ensures LastCall(calls, key).Some?
        ==> Key(LastCall(calls, key).value.target, LastCall(calls, key).value.sender) == key
  {
    if calls != [] {
      TableIsLastCalls(calls[..|calls| - 1], key);
    }
  }

  /** The senders whose last call for the message was a reaction. */
  function Reactors(calls: seq<Reaction>, target: string): set<string> {
    set r | r in calls && Reacts(calls, Key(target, r.sender)) :: r.sender
  }

  function ReactorsWith(calls: seq<Reaction>, target: string, emoji: string): set<string> {
    set s | s in Reactors(calls, target) && LastCall(calls, Key(target, s)).value.emoji == emoji
  }

  lemma {:induction false} ReactorCalled(calls: seq<Reaction>, target: string, sender: string)
    requires Reacts(calls, Key(target, sender))
    ensures sender in Reactors(calls, target)
  {
    var r := LastCall(calls, Key(target, sender)).value;
    LastCallIsCall(calls, Key(target, sender));
    TableIsLastCalls(calls, Key(target, sender));
    assert r.sender == sender;
  }

  lemma {:induction false} LastCallIsCall(calls: seq<Reaction>, key: Key)
    requires LastCall(calls, key).Some?
    ensures LastCall(calls, key).value in calls
  {
    var n := |calls| - 1;
    if !(Accepted(calls[n]) && Key(calls[n].target, calls[n].sender) == key) {
      LastCallIsCall(calls[..n], key);
    }
  }

  // ---------------------------------------------------------------- listing

  /** One result of SELECT ... WHERE target_waid = ? ORDER BY ts ASC, ties in any order. */
  ghost predicate IsListing(rs: seq<Reaction>, table: Table, target: string) {
    && Distinct(rs)
    && (forall r :: r in rs <==>
          r.target == target && Key(r.target, r.sender) in table && table[Key(r.target, r.sender)] == r)
    && (forall i, j :: 0 <= i < j < |rs| ==> rs[i].ts <= rs[j].ts)
  }

  /** Each row sits under its own key. */
  ghost predicate WellKeyed(table: Table) {
    forall k :: k in table ==> Key(table[k].target, table[k].sender) == k
  }

  // ---------------------------------------------------------------- the summary

  datatype Tally = Tally(emoji: string, count: int)

  function Count(rs: seq<Reaction>, emoji: string): nat {
    if rs == [] then 0 else Count(rs[..|rs| - 1], emoji) + if rs[|rs| - 1].emoji == emoji then 1 else 0
  }

  /** Go's string order. */
  predicate Less(a: string, b: string) {
    b != [] && (a == [] || a[0] < b[0] || (a[0] == b[0] && Less(a[1..], b[1..])))
  }

  /** By count descending, then emoji ascending. */
  predicate Precedes(a: Tally, b: Tally) {
    if a.count != b.count then a.count > b.count else Less(a.emoji, b.emoji)
  }

  ghost predicate Ranked(ts: seq<Tally>) {
    forall i, j :: 0 <= i < j < |ts| ==> Precedes(ts[i], ts[j])
  }

  /** The ranked list that counts each non-empty emoji occurring in `rs` once. */
  ghost predicate IsSummary(ts: seq<Tally>, rs: seq<Reaction>) {
    && Ranked(ts)
    && (forall t :: t in ts <==> t.emoji != "" && t.count == Count(rs, t.emoji) > 0)
  }

  lemma {:induction false} LessTotal(a: string, b: string)
    ensures a != b ==> Less(a, b) || Less(b, a)
    ensures !(Less(a, b) && Less(b, a)) && !Less(a, a)
  {
    if a != [] && b != [] && a[0] == b[0] {
      LessTotal(a[1..], b[1..]);
      assert a == [a[0]] + a[1..] && b == [b[0]] + b[1..];
    }
    if a != [] {
      LessTotal(a[1..], a[1..]);
    }
  }

  lemma {:induction false} LessTransitive(a: string, b: string, c: string)
    requires Less(a, b) && Less(b, c)
    ensures Less(a, c)
  {
    if a != [] && a[0] == b[0] == c[0] {
      LessTransitive(a[1..], b[1..], c[1..]);
    }
  }

  /** Go's order on strings by its meaning: a proper prefix, or smaller at the first difference. */
  ghost predicate ComesFirst(a: string, b: string) {
    exists k: nat ::
      && k <= |a| && k < |b| && a[..k] == b[..k]
      && (k == |a| || a[k] < b[k])
  }

  lemma {:induction false} LessMeaning(a: string, b: string)
    ensures Less(a, b) <==> ComesFirst(a, b)
  {
    if a == [] && b != [] {
      assert a[..0] == b[..0];
    } else if a != [] && b != [] {
      forall k: nat | 0 < k <= |a| && k < |b| && a[..k] == b[..k] ensures a[0] == b[0] {
        SameHead(a, b, k);
      }
      if a[0] < b[0] {
        assert a[..0] == b[..0];
      } else if a[0] == b[0] {
        LessMeaning(a[1..], b[1..]);
        ComesFirstCons(a, b);
      }
    }
  }

  lemma SameHead(a: string, b: string, k: nat)
    requires 0 < k <= |a| && k <= |b| && a[..k] == b[..k]
    ensures a[0] == b[0]
  {
    assert a[..k][0] == b[..k][0];
  }

  lemma SplitHead(s: string, k: nat)
    requires k < |s|
    ensures s[..k + 1] == [s[0]] + s[1..][..k] && s[..k + 1][1..] == s[1..][..k]
  {}

  lemma ComesFirstCons(a: string, b: string)
    requires a != [] && b != [] && a[0] == b[0]
    ensures ComesFirst(a, b) <==> ComesFirst(a[1..], b[1..])
  {
    if ComesFirst(a, b) {
      var k: nat :| k <= |a| && k < |b| && a[..k] == b[..k] && (k == |a| || a[k] < b[k]);
      assert k > 0;
      SplitHead(a, k - 1);
      SplitHead(b, k - 1);
    }
    var x, y := a[1..], b[1..];
    if ComesFirst(x, y) {
      var k: nat :| k <= |x| && k < |y| && x[..k] == y[..k] && (k == |x| || x[k] < y[k]);
      SplitHead(a, k);
      SplitHead(b, k);
      assert a[..k + 1] == b[..k + 1];
    }
  }

  /** The most frequent emoji comes first, and of two equally frequent ones the smaller. */
  lemma SummaryOrder(ts: seq<Tally>, rs: seq<Reaction>)
    requires IsSummary(ts, rs)
    ensures forall i, j :: 0 <= i < j < |ts| ==>
              ts[i].count > ts[j].count || (ts[i].count == ts[j].count && ComesFirst(ts[i].emoji, ts[j].emoji))
  {
    hide Less, ComesFirst, Count;
    forall i, j | 0 <= i < j < |ts|
      ensures ts[i].count > ts[j].count || (ts[i].count == ts[j].count && ComesFirst(ts[i].emoji, ts[j].emoji))
    {
      LessMeaning(ts[i].emoji, ts[j].emoji);
      assert Precedes(ts[i], ts[j]);
    }
  }

  lemma PrecedesTotal(a: Tally, b: Tally)
    ensures a != b ==> Precedes(a, b) || Precedes(b, a)
    ensures !(Precedes(a, b) && Precedes(b, a))
  {
    LessTotal(a.emoji, b.emoji);
  }

  lemma PrecedesTransitive(a: Tally, b: Tally, c: Tally)
    requires Precedes(a, b) && Precedes(b, c)
    ensures Precedes(a, c)
  {
    if a.count == b.count == c.count {
      LessTransitive(a.emoji, b.emoji, c.emoji);
    }
  }

  /** A summary is unique: it depends on neither the map order nor the sorting algorithm. */
  lemma {:induction false} SummaryUnique(a: seq<Tally>, b: seq<Tally>)
    requires Ranked(a) && Ranked(b) && forall t :: t in a <==> t in b
    ensures a == b
  {
    HeadIsMember(a);
    HeadIsMember(b);
    if a != [] && b != [] {
      PrecedesTotal(a[0], b[0]);
      assert a[0] == b[0];
      forall t ensures t in a[1..] <==> t in b[1..] {
        TailMembers(a, t);
        TailMembers(b, t);
      }
      SummaryUnique(a[1..], b[1..]);
    }
  }

  lemma TailMembers(s: seq<Tally>, t: Tally)
    requires Ranked(s) && s != []
    ensures t in s[1..] <==> t in s && t != s[0]
  {
    PrecedesTotal(t, t);
    assert s == [s[0]] + s[1..];
  }

  function Insert(t: Tally, s: seq<Tally>): seq<Tally> {
    if s == [] || Precedes(t, s[0]) then [t] + s else [s[0]] + Insert(t, s[1..])
  }

  function Sort(s: seq<Tally>): seq<Tally> {
    if s == [] then [] else Insert(s[0], Sort(s[1..]))
  }

  lemma {:induction false} InsertRanks(t: Tally, s: seq<Tally>)
    requires Ranked(s) && t !in s
    ensures Ranked(Insert(t, s)) && forall x :: x in Insert(t, s) <==> x == t || x in s
  {
    if s != [] {
      assert s == [s[0]] + s[1..];
      if Precedes(t, s[0]) {
        forall x | x in s[1..] ensures Precedes(t, x) {
          PrecedesTransitive(t, s[0], x);
        }
      } else {
        PrecedesTotal(t, s[0]);
        InsertRanks(t, s[1..]);
        var r := Insert(t, s[1..]);
        forall j | 0 <= j < |r| ensures Precedes(s[0], r[j]) {
          assert r[j] in r;
        }
      }
    }
  }

  lemma {:induction false} SortRanks(s: seq<Tally>)
    requires Distinct(s)
    ensures Ranked(Sort(s)) && forall x :: x in Sort(s) <==> x in s
  {
    if s != [] {
      SortRanks(s[1..]);
      assert s == [s[0]] + s[1..];
      InsertRanks(s[0], Sort(s[1..]));
    }
  }

  // ---------------------------------------------------------------- what the counts add up to

  function Total(ts: seq<Tally>): int {
    if ts == [] then 0 else Total(ts[..|ts| - 1]) + ts[|ts| - 1].count
  }

  /** The sum over `ts` of how often each listed emoji occurs in `rs`. */
  function Occurrences(ts: seq<Tally>, rs: seq<Reaction>): nat {
    if ts == [] then 0 else Occurrences(ts[..|ts| - 1], rs) + Count(rs, ts[|ts| - 1].emoji)
  }

  ghost predicate DistinctEmojis(ts: seq<Tally>) {
    forall i, j :: 0 <= i < j < |ts| ==> ts[i].emoji != ts[j].emoji
  }

  lemma {:induction false} OccurrencesStep(ts: seq<Tally>, rs: seq<Reaction>)
    requires rs != [] && DistinctEmojis(ts)
    ensures Occurrences(ts, rs) == Occurrences(ts, rs[..|rs| - 1])
              + if exists i :: 0 <= i < |ts| && ts[i].emoji == rs[|rs| - 1].emoji then 1 else 0
  {
    if ts != [] {
      var n := |ts| - 1;
      var e := rs[|rs| - 1].emoji;
      OccurrencesStep(ts[..n], rs);
      if i :| 0 <= i < n && ts[..n][i].emoji == e {
        assert ts[i].emoji == e;
      }
      if i :| 0 <= i < |ts| && ts[i].emoji == e {
        assert i < n ==> ts[..n][i].emoji == e;
      }
    }
  }

  lemma {:induction false} OccurrencesCover(ts: seq<Tally>, rs: seq<Reaction>)
    requires DistinctEmojis(ts)
    requires forall r :: r in rs ==> exists i :: 0 <= i < |ts| && ts[i].emoji == r.emoji
    ensures Occurrences(ts, rs) == |rs|
    decreases |rs|
  {
    if rs == [] {
      NoOccurrences(ts);
    } else {
      var n := |rs| - 1;
      assert rs[n] in rs;
      OccurrencesStep(ts, rs);
      OccurrencesCover(ts, rs[..n]);
    }
  }

  lemma {:induction false} NoOccurrences(ts: seq<Tally>)
    ensures Occurrences(ts, []) == 0
  {
    if ts != [] {
      NoOccurrences(ts[..|ts| - 1]);
    }
  }

  lemma {:induction false} TotalIsOccurrences(ts: seq<Tally>, rs: seq<Reaction>)
    requires forall t :: t in ts ==> t.count == Count(rs, t.emoji)
    ensures Total(ts) == Occurrences(ts, rs)
  {
    if ts != [] {
      var n := |ts| - 1;
      assert ts[n] in ts;
      TotalIsOccurrences(ts[..n], rs);
    }
  }

  lemma {:induction false} CountPositive(rs: seq<Reaction>, r: Reaction)
    requires r in rs
    ensures Count(rs, r.emoji) > 0
  {
    var n := |rs| - 1;
    if rs[n].emoji != r.emoji {
      assert r in rs[..n];
      CountPositive(rs[..n], r);
    }
  }

  /** The counts of a summary of non-empty reactions add up to the number of reactions. */
  lemma SummaryTotal(ts: seq<Tally>, rs: seq<Reaction>)
    requires IsSummary(ts, rs) && forall r :: r in rs ==> r.emoji != ""
    ensures Total(ts) == |rs|
  {
    forall i, j | 0 <= i < j < |ts| ensures ts[i].emoji != ts[j].emoji {
      assert ts[i] in ts && ts[j] in ts;
      PrecedesTotal(ts[i], ts[j]);
    }
    forall r | r in rs ensures exists i :: 0 <= i < |ts| && ts[i].emoji == r.emoji {
      CountPositive(rs, r);
      assert Tally(r.emoji, Count(rs, r.emoji)) in ts;
    }
    TotalIsOccurrences(ts, rs);
    OccurrencesCover(ts, rs);
  }

  function Senders(rs: seq<Reaction>): set<string> {
    set r | r in rs :: r.sender
  }

  lemma {:induction false} SendersSize(rs: seq<Reaction>)
    requires forall i, j :: 0 <= i < j < |rs| ==> rs[i].sender != rs[j].sender
    ensures |Senders(rs)| == |rs|
  {
    if rs != [] {
      var n := |rs| - 1;
      SendersSize(rs[..n]);
      assert rs == rs[..n] + [rs[n]];
      assert Senders(rs) == Senders(rs[..n]) + {rs[n].sender};
      assert forall r :: r in rs[..n] ==> r.sender != rs[n].sender;
    }
  }

  /**
   * After any run of calls, whatever listing the database returns: the counts of its summary
   * add up to the number of senders whose last call for the message had an emoji.
   */
  lemma TallyCountsReactors(calls: seq<Reaction>, target: string, rs: seq<Reaction>, ts: seq<Tally>)
    requires IsListing(rs, After(calls), target) && IsSummary(ts, rs)
    ensures Total(ts) == |Reactors(calls, target)|
  {
    forall i, j | 0 <= i < j < |rs| ensures rs[i].sender != rs[j].sender {
      assert rs[i] in rs && rs[j] in rs;
    }
    forall r | r in rs ensures r.emoji != "" && r.sender in Reactors(calls, target) {
      ListedReacts(calls, target, rs, r);
    }
    SendersSize(rs);
    forall s | s in Reactors(calls, target) ensures s in Senders(rs) {
      TableIsLastCalls(calls, Key(target, s));
      assert After(calls)[Key(target, s)] in rs;
    }
    assert Senders(rs) == Reactors(calls, target);
    SummaryTotal(ts, rs);
  }

  lemma ListedReacts(calls: seq<Reaction>, target: string, rs: seq<Reaction>, r: Reaction)
    requires IsListing(rs, After(calls), target) && r in rs
    ensures r.emoji != "" && r.sender in Reactors(calls, target)
    ensures LastCall(calls, Key(target, r.sender)) == Some(r)
  {
    TableIsLastCalls(calls, Key(target, r.sender));
    ReactorCalled(calls, target, r.sender);
  }

  /** Each count is the number of senders whose last call for the message was that emoji. */
  lemma {:induction false} CountIsReactors(calls: seq<Reaction>, target: string, rs: seq<Reaction>, emoji: string)
    requires IsListing(rs, After(calls), target)
    ensures Count(rs, emoji) == |ReactorsWith(calls, target, emoji)|
  {
    var picked := With(rs, emoji);
    CountIsLength(rs, emoji);
    forall i, j | 0 <= i < j < |rs| ensures rs[i].sender != rs[j].sender {
      assert rs[i] in rs && rs[j] in rs;
    }
    WithDistinct(rs, emoji);
    SendersSize(picked);
    forall s ensures s in Senders(picked) <==> s in ReactorsWith(calls, target, emoji) {
      if s in Senders(picked) {
        var r :| r in picked && r.sender == s;
        WithMembers(rs, emoji, r);
        ListedReacts(calls, target, rs, r);
      }
      if s in ReactorsWith(calls, target, emoji) {
        TableIsLastCalls(calls, Key(target, s));
        WithMembers(rs, emoji, After(calls)[Key(target, s)]);
      }
    }
    assert Senders(picked) == ReactorsWith(calls, target, emoji);
  }

  /** Any two listings of a message, summed up in any map order, give the same summary. */
  lemma SummariesAgree(calls: seq<Reaction>, target: string, rs: seq<Reaction>, qs: seq<Reaction>,
                       ts: seq<Tally>, us: seq<Tally>)
    requires IsListing(rs, After(calls), target) && IsListing(qs, After(calls), target)
    requires IsSummary(ts, rs) && IsSummary(us, qs)
    ensures ts == us
  {
    forall t ensures t in ts <==> t in us {
      CountIsReactors(calls, target, rs, t.emoji);
      CountIsReactors(calls, target, qs, t.emoji);
    }
    SummaryUnique(ts, us);
  }

  function With(rs: seq<Reaction>, emoji: string): seq<Reaction> {
    if rs == [] then []
    else With(rs[..|rs| - 1], emoji) + if rs[|rs| - 1].emoji == emoji then [rs[|rs| - 1]] else []
  }

  lemma {:induction false} CountIsLength(rs: seq<Reaction>, emoji: string)
    ensures Count(rs, emoji) == |With(rs, emoji)|
  {
    if rs != [] {
      CountIsLength(rs[..|rs| - 1], emoji);
    }
  }

  lemma {:induction false} WithMembers(rs: seq<Reaction>, emoji: string, r: Reaction)
    ensures r in With(rs, emoji) <==> r in rs && r.emoji == emoji
  {
    if rs != [] {
      var n := |rs| - 1;
      assert rs == rs[..n] + [rs[n]];
      WithMembers(rs[..n], emoji, r);
    }
  }

  lemma {:induction false} WithDistinct(rs: seq<Reaction>, emoji: string)
    requires forall i, j :: 0 <= i < j < |rs| ==> rs[i].sender != rs[j].sender
    ensures forall i, j :: 0 <= i < j < |With(rs, emoji)| ==> With(rs, emoji)[i].sender != With(rs, emoji)[j].sender
  {
    if rs != [] {
      var n := |rs| - 1;
      var r := With(rs[..n], emoji);
      WithDistinct(rs[..n], emoji);
      forall i | 0 <= i < |r| ensures r[i].sender != rs[n].sender {
        WithMembers(rs[..n], emoji, r[i]);
        var k :| 0 <= k < n && rs[..n][k] == r[i];
      }
    }
  }
}
