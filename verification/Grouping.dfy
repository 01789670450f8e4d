/** Message grouping (internal/ui/grouping.go): the labels spell out the maximal sender runs. */
module Grouping {
  import opened Prelude
  import opened Tables

  datatype Position = Solo | Head | Middle | Tail

  /** A duration in nanoseconds as whole milliseconds, truncated toward zero. */
  function Milliseconds(window: int): int {
    if window >= 0 then window / 1_000_000 else -((-window) / 1_000_000)
  }

  predicate SameGroup(a: Message, b: Message, winMs: int) {
    var gap := a.ts - b.ts;
    a.senderJID == b.senderJID && (if gap < 0 then -gap else gap) <= winMs
  }

  /** Same sender and at most the window apart in either direction, the window included. */
  lemma SameGroupMeaning(a: Message, b: Message, winMs: int)
    ensures SameGroup(a, b, winMs) <==> a.senderJID == b.senderJID && a.ts - winMs <= b.ts <= a.ts + winMs
    ensures SameGroup(a, b, winMs) == SameGroup(b, a, winMs)
  {}

  /**
   * In terms of the window as it is given, in nanoseconds, with timestamps in milliseconds: the
   * messages group exactly if the sender is the same and the gap fits into the window; with a
   * window below zero only equal timestamps can, and only if it is less than a millisecond below.
   */
  lemma GroupsWithinWindow(a: Message, b: Message, window: int)
    ensures
      var gap := if a.ts < b.ts then b.ts - a.ts else a.ts - b.ts;
      SameGroup(a, b, Milliseconds(window))
      <==> a.senderJID == b.senderJID
           && (gap * 1_000_000 <= window || (gap == 0 && -1_000_000 < window))
  {
    var ms := Milliseconds(window);
    if window >= 0 {
      assert 1_000_000 * ms <= window < 1_000_000 * ms + 1_000_000;
    } else {
      assert -1_000_000 < window <==> ms == 0;
      assert ms <= 0;
    }
  }

  /** Newest-first, as the messages are stored: "above" on screen is the next, older index. */
  function LabelAt(msgs: seq<Message>, winMs: int, i: int): Position
    requires 0 <= i < |msgs|
  {
    var hasAbove := i + 1 < |msgs| && SameGroup(msgs[i], msgs[i + 1], winMs);
    var hasBelow := i > 0 && SameGroup(msgs[i], msgs[i - 1], winMs);
    if !hasAbove && !hasBelow then Solo
    else if !hasAbove then Head
    else if hasBelow then Middle
    else Tail
  }

  function Labels(msgs: seq<Message>, winMs: int): seq<Position> {
    seq(|msgs|, i requires 0 <= i < |msgs| => LabelAt(msgs, winMs, i))
  }

  method GroupMessages(msgs: seq<Message>, window: int) returns (out: array<Position>)
    ensures fresh(out) && out[..] == Labels(msgs, Milliseconds(window))
  {
    var winMs := Milliseconds(window);
    out := new Position[|msgs|](_ => Solo);
    for i := 0 to |msgs|
      invariant forall j :: 0 <= j < i ==> out[j] == LabelAt(msgs, winMs, j)
    {
      var hasAbove, hasBelow := false, false;
      if i + 1 < |msgs| {
        hasAbove := SameGroup(msgs[i], msgs[i + 1], winMs);
      }
      if i > 0 {
        hasBelow := SameGroup(msgs[i], msgs[i - 1], winMs);
      }
      if !hasAbove && !hasBelow {
        out[i] := Solo;
      } else if !hasAbove && hasBelow {
        out[i] := Head;
      } else if hasAbove && hasBelow {
        out[i] := Middle;
      } else {
        out[i] := Tail;
      }
    }
  }

  // ---------------------------------------------------------------- the grammar

  /**
   * Reads labels from the oldest (the last index) as (Solo | Head Middle* Tail)* and returns
   * the lengths of the runs, oldest first; None if the labels do not parse.
   */
  function Parse(labels: seq<Position>): Option<seq<nat>>
    decreases |labels|
  {
    if labels == [] then Some([])
    else
      var n := |labels| - 1;
      match labels[n]
      case Solo => Cons(1, Parse(labels[..n]))
      case Head => ParseRun(labels[..n], 1)
      case _ => None
  }

  /** Inside a run of which `len` labels have been read. */
  function ParseRun(labels: seq<Position>, len: nat): Option<seq<nat>>
    decreases |labels|
  {
    if labels == [] then None
    else
      var n := |labels| - 1;
      match labels[n]
      case Middle => ParseRun(labels[..n], len + 1)
      case Tail => Cons(len + 1, Parse(labels[..n]))
      case _ => None
  }

  lemma ConsNothing(len: nat)
    ensures Cons(len, Some([])) == Some([len])
  {
    assert [len] + [] == [len];
  }

  function Cons(len: nat, rest: Option<seq<nat>>): Option<seq<nat>> {
    match rest
    case None => None
    case Some(runs) => Some([len] + runs)
  }

  /** The maximal chains of adjacent same-group messages, oldest first, by length. */
  function Chains(msgs: seq<Message>, winMs: int): seq<nat> {
    if msgs == [] then [] else ChainFrom(msgs, winMs, 1)
  }

  /** The last message is the newest so far of a chain of length `len`. */
  function ChainFrom(msgs: seq<Message>, winMs: int, len: nat): seq<nat>
    requires msgs != []
    decreases |msgs|
  {
    var n := |msgs| - 1;
    if n == 0 then [len]
    else if SameGroup(msgs[n - 1], msgs[n], winMs) then ChainFrom(msgs[..n], winMs, len + 1)
    else [len] + ChainFrom(msgs[..n], winMs, 1)
  }

  /** The unread part of the labels, where the next message does not continue a run. */
  lemma {:induction false} ParseFromBoundary(msgs: seq<Message>, winMs: int, k: nat)
    requires k <= |msgs| && (0 < k < |msgs| ==> !SameGroup(msgs[k - 1], msgs[k], winMs))
    ensures Parse(Labels(msgs, winMs)[..k]) == Some(Chains(msgs[..k], winMs))
    decreases k
  {
    hide SameGroup;
    if k > 0 {
      var labels := Labels(msgs, winMs);
      if k > 1 {
        SameGroupMeaning(msgs[k - 2], msgs[k - 1], winMs);
      }
      assert labels[..k][..k - 1] == labels[..k - 1];
      assert msgs[..k][..k - 1] == msgs[..k - 1];
      if k > 1 && SameGroup(msgs[k - 2], msgs[k - 1], winMs) {
        ParseInsideRun(msgs, winMs, k - 1, 1);
      } else {
        ParseFromBoundary(msgs, winMs, k - 1);
        ConsNothing(1);
      }
    }
  }

  /** The same where the next message continues the run being read. */
  lemma {:induction false} ParseInsideRun(msgs: seq<Message>, winMs: int, k: nat, len: nat)
    requires 0 < k < |msgs| && SameGroup(msgs[k - 1], msgs[k], winMs)
    ensures ParseRun(Labels(msgs, winMs)[..k], len) == Some(ChainFrom(msgs[..k], winMs, len + 1))
    decreases k
  {
    hide SameGroup;
    var labels := Labels(msgs, winMs);
    SameGroupMeaning(msgs[k - 1], msgs[k], winMs);
    if k > 1 {
      SameGroupMeaning(msgs[k - 2], msgs[k - 1], winMs);
    }
    assert labels[..k][..k - 1] == labels[..k - 1];
    assert msgs[..k][..k - 1] == msgs[..k - 1];
    if k > 1 && SameGroup(msgs[k - 2], msgs[k - 1], winMs) {
      ParseInsideRun(msgs, winMs, k - 1, len + 1);
    } else {
      ParseFromBoundary(msgs, winMs, k - 1);
      ConsNothing(len + 1);
    }
  }

  /** The labels always parse, and the runs they spell are exactly the maximal chains. */
  lemma LabelsSpellChains(msgs: seq<Message>, winMs: int)
    ensures Parse(Labels(msgs, winMs)) == Some(Chains(msgs, winMs))
  {
    ParseFromBoundary(msgs, winMs, |msgs|);
    assert Labels(msgs, winMs)[..|msgs|] == Labels(msgs, winMs);
    assert msgs[..|msgs|] == msgs;
  }

  /**
   * Joining a newer and an older stretch of messages relabels at most the two messages at the
   * seam, so a loaded older page changes at most the oldest label shown and a new message at
   * most the newest.
   */
  lemma OnlyTheSeamChanges(newer: seq<Message>, older: seq<Message>, winMs: int)
    ensures
      var joined := Labels(newer + older, winMs);
      && |joined| == |newer| + |older|
      && (forall i :: 0 <= i < |newer| - 1 ==> joined[i] == Labels(newer, winMs)[i])
      && (forall i :: 1 <= i < |older| ==> joined[|newer| + i] == Labels(older, winMs)[i])
  {
    var all := newer + older;
    forall i | 1 <= i < |older| ensures LabelAt(all, winMs, |newer| + i) == LabelAt(older, winMs, i) {
      assert all[|newer| + i - 1] == older[i - 1];
    }
  }
}
