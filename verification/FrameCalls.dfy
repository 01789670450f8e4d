/** The calls the frame loop makes on the cache are matched, so a larger budget never hurts it. */
module FrameCalls {
  import opened Prelude
  import opened Media
  import opened Budgets
  import opened Visibility

  function Releases(order: seq<string>): seq<Call> {
    if order == [] then [] else Releases(order[..|order| - 1]) + [ReleaseCall(order[|order| - 1])]
  }

  function Decodes(dec: Decoder, order: seq<string>): seq<Call> {
    if order == [] then []
    else
      var path := order[|order| - 1];
      Decodes(dec, order[..|order| - 1]) + [DecodeCall(path, dec(path))]
  }

  /** The calls of one frame operation; what they are does not depend on the budget. */
  function CallsOf(dec: Decoder, op: FrameOp): seq<Call> {
    match op
    case Draw(path) =>
      if path == "" then []
      else if dec(path).Decoded? then [DecodeCall(path, dec(path)), ReleaseCall(path)]
      else [DecodeCall(path, dec(path))]
    case SetVisible(_, departures, arrivals) => Releases(departures) + Decodes(dec, arrivals)
    case Clear(departures) => Releases(departures)
  }

  function AllCalls(dec: Decoder, ops: seq<FrameOp>): seq<Call> {
    if ops == [] then [] else AllCalls(dec, ops[..|ops| - 1]) + CallsOf(dec, ops[|ops| - 1])
  }

  lemma {:induction false} ReleasesRun(c: Cache, order: seq<string>)
    ensures RunFrom(c, Releases(order)) == ReleaseAll(c, order)
  {
    if order != [] {
      var before := order[..|order| - 1];
      ReleasesRun(c, before);
      assert Releases(order)[..|Releases(before)|] == Releases(before);
    }
  }

  lemma {:induction false} DecodesRun(c: Cache, dec: Decoder, order: seq<string>)
    ensures RunFrom(c, Decodes(dec, order)) == DecodeAll(c, dec, order)
  {
    if order != [] {
      var before := order[..|order| - 1];
      DecodesRun(c, dec, before);
      assert Decodes(dec, order)[..|Decodes(dec, before)|] == Decodes(dec, before);
    }
  }

  lemma DrawRun(c: Cache, dec: Decoder, path: string)
    requires forall p :: p in c.entries ==> dec(p).Decoded?
    ensures RunFrom(c, CallsOf(dec, Draw(path))) == Thumbnail(c, dec, path)
  {
    if path != "" {
      var d, r := DecodeCall(path, dec(path)), ReleaseCall(path);
      assert [d][..0] == [] && RunFrom(c, [d]) == Decode(c, path, dec(path));
      assert [d, r][..1] == [d];
    }
  }

  /** Replaying the calls gives the cache of the frames. */
  lemma {:induction false} FramesAreCalls(maxBytes: int, dec: Decoder, ops: seq<FrameOp>)
    requires LegalRun(maxBytes, dec, ops)
    ensures RunFrames(maxBytes, dec, ops).cache == Run(maxBytes, AllCalls(dec, ops))
    decreases |ops|
  {
    if ops != [] {
      var before, op := ops[..|ops| - 1], ops[|ops| - 1];
      forall i | 0 <= i < |before| ensures before[..i] == ops[..i] {}
      FramesAreCalls(maxBytes, dec, before);
      ThumbnailMemory(maxBytes, dec, before);
      var c := RunFrames(maxBytes, dec, before).cache;
      RunFromSplit(New(maxBytes), AllCalls(dec, before), CallsOf(dec, op));
      match op
      case Draw(path) => DrawRun(c, dec, path);
      case SetVisible(_, departures, arrivals) =>
        ReleasesRun(c, departures);
        DecodesRun(ReleaseAll(c, departures), dec, arrivals);
        RunFromSplit(c, Releases(departures), Decodes(dec, arrivals));
      case Clear(departures) => ReleasesRun(c, departures);
    }
  }

  // ---------------------------------------------------------------- the calls are matched

  /** The calls so far are matched and leave exactly the visible paths outstanding. */
  ghost predicate Tracks(calls: seq<Call>, dec: Decoder, visible: set<string>) {
    && Uses(calls, dec) && Matched(calls, dec)
    && forall p :: dec(p).Decoded? ==> Balance(calls, p) == if p in visible then 1 else 0
  }

  lemma MatchedAppend(calls: seq<Call>, dec: Decoder, call: Call)
    requires Uses(calls, dec) && Matched(calls, dec)
    requires call.DecodeCall? ==> call.outcome == dec(call.path)
    requires call.ReleaseCall? ==> MayRelease(calls, dec, call.path)
    ensures Uses(calls + [call], dec) && Matched(calls + [call], dec)
    ensures forall p :: Balance(calls + [call], p) == Balance(calls, p) +
              if call.path != p then 0 else if call.ReleaseCall? then -1 else if call.outcome.Decoded? then 1 else 0
  {
    var after := calls + [call];
    assert after[..|calls|] == calls;
    forall i | 0 <= i < |calls| ensures after[..i] == calls[..i] {}
  }

  lemma {:induction false} ReleasesTrack(calls: seq<Call>, dec: Decoder, visible: set<string>, order: seq<string>)
    requires Tracks(calls, dec, visible) && Distinct(order) && forall p :: p in order ==> p in visible
    ensures Tracks(calls + Releases(order), dec, visible - Members(order))
  {
    if order == [] {
      assert calls + [] == calls && visible - Members(order) == visible;
    } else {
      var before, path := order[..|order| - 1], order[|order| - 1];
      forall p | p in before ensures p in visible { assert p in order; }
      ReleasesTrack(calls, dec, visible, before);
      SplitMembers(order);
      assert path !in before;
      MatchedAppend(calls + Releases(before), dec, ReleaseCall(path));
      assert calls + Releases(order) == calls + Releases(before) + [ReleaseCall(path)];
    }
  }

  lemma {:induction false} DecodesTrack(calls: seq<Call>, dec: Decoder, visible: set<string>, order: seq<string>)
    requires Tracks(calls, dec, visible) && Distinct(order) && forall p :: p in order ==> p !in visible
    ensures Tracks(calls + Decodes(dec, order), dec, visible + Members(order))
  {
    if order == [] {
      assert calls + [] == calls && visible + Members(order) == visible;
    } else {
      var before, path := order[..|order| - 1], order[|order| - 1];
      forall p | p in before ensures p !in visible { assert p in order; }
      DecodesTrack(calls, dec, visible, before);
      SplitMembers(order);
      assert path !in before;
      MatchedAppend(calls + Decodes(dec, before), dec, DecodeCall(path, dec(path)));
      assert calls + Decodes(dec, order) == calls + Decodes(dec, before) + [DecodeCall(path, dec(path))];
    }
  }

  lemma DrawTracks(calls: seq<Call>, dec: Decoder, visible: set<string>, path: string)
    requires Tracks(calls, dec, visible)
    ensures Tracks(calls + CallsOf(dec, Draw(path)), dec, visible)
  {
    if path == "" {
      assert calls + [] == calls;
    } else {
      var d, r := DecodeCall(path, dec(path)), ReleaseCall(path);
      MatchedAppend(calls, dec, d);
      if dec(path).Decoded? {
        MatchedAppend(calls + [d], dec, r);
        assert calls + [d, r] == calls + [d] + [r];
      }
    }
  }

  lemma SetVisibleTracks(calls: seq<Call>, dec: Decoder, visible: set<string>, next: set<string>,
                         departures: seq<string>, arrivals: seq<string>)
    requires Tracks(calls, dec, visible)
    requires Enumerates(departures, visible - next) && Enumerates(arrivals, next - visible)
    ensures Tracks(calls + (Releases(departures) + Decodes(dec, arrivals)), dec, next)
  {
    hide Tracks;
    ReleasesTrack(calls, dec, visible, departures);
    assert visible - Members(departures) == visible * next;
    DecodesTrack(calls + Releases(departures), dec, visible * next, arrivals);
    assert visible * next + Members(arrivals) == next;
    assert calls + (Releases(departures) + Decodes(dec, arrivals))
        == calls + Releases(departures) + Decodes(dec, arrivals);
  }

  lemma OpTracks(calls: seq<Call>, dec: Decoder, f: Frames, op: FrameOp)
    requires Tracks(calls, dec, f.visible) && Legal(f, op)
    ensures Tracks(calls + CallsOf(dec, op), dec, Apply(f, dec, op).visible)
  {
    hide Tracks, Enumerates;
    match op
    case Draw(path) => DrawTracks(calls, dec, f.visible, path);
    case SetVisible(paths, departures, arrivals) =>
      SetVisibleTracks(calls, dec, f.visible, Wanted(paths), departures, arrivals);
    case Clear(departures) =>
      ClearTracks(calls, dec, f.visible, departures);
  }

  lemma ClearTracks(calls: seq<Call>, dec: Decoder, visible: set<string>, departures: seq<string>)
    requires Tracks(calls, dec, visible) && Enumerates(departures, visible)
    ensures Tracks(calls + Releases(departures), dec, {})
  {
    hide Tracks;
    ReleasesTrack(calls, dec, visible, departures);
    assert visible - Members(departures) == {};
  }

  lemma {:induction false} FrameCallsAreMatched(maxBytes: int, dec: Decoder, ops: seq<FrameOp>)
    requires LegalRun(maxBytes, dec, ops)
    ensures Tracks(AllCalls(dec, ops), dec, RunFrames(maxBytes, dec, ops).visible)
    decreases |ops|
  {
    hide Tracks, Apply, CallsOf, Legal;
    if ops == [] {
      NoCalls(dec);
    } else {
      var before, op := ops[..|ops| - 1], ops[|ops| - 1];
      forall i | 0 <= i < |before| ensures before[..i] == ops[..i] {}
      FrameCallsAreMatched(maxBytes, dec, before);
      OpTracks(AllCalls(dec, before), dec, RunFrames(maxBytes, dec, before), op);
    }
  }

  lemma NoCalls(dec: Decoder)
    ensures Tracks([], dec, {})
  {}

  lemma {:induction false} VisibleIgnoresBudget(b1: int, b2: int, dec: Decoder, ops: seq<FrameOp>)
    ensures RunFrames(b1, dec, ops).visible == RunFrames(b2, dec, ops).visible
  {
    if ops != [] {
      VisibleIgnoresBudget(b1, b2, dec, ops[..|ops| - 1]);
    }
  }

  /**
   * The same frames under a smaller and a larger budget: they are possible under both, and
   * the larger cache has the same paths pinned and never decodes more.
   */
  lemma FramesNeverDecodeMore(b1: int, b2: int, dec: Decoder, ops: seq<FrameOp>)
    requires BudgetAtMost(b1, b2) && LegalRun(b1, dec, ops)
    ensures LegalRun(b2, dec, ops)
    ensures RunFrames(b1, dec, ops).cache == Run(b1, AllCalls(dec, ops))
    ensures RunFrames(b2, dec, ops).cache == Run(b2, AllCalls(dec, ops))
    ensures Pinned(RunFrames(b1, dec, ops).cache) == Pinned(RunFrames(b2, dec, ops).cache)
    ensures DecoderCalls(b2, AllCalls(dec, ops)) <= DecoderCalls(b1, AllCalls(dec, ops))
  {
    forall i | 0 <= i < |ops| ensures Legal(RunFrames(b2, dec, ops[..i]), ops[i]) {
      VisibleIgnoresBudget(b1, b2, dec, ops[..i]);
    }
    FramesAreCalls(b1, dec, ops);
    FramesAreCalls(b2, dec, ops);
    FrameCallsAreMatched(b1, dec, ops);
    LargerBudgetNeverDecodesMore(b1, b2, dec, AllCalls(dec, ops));
  }
}
