/**
 * The visibility tracker (internal/media/tracker.go) over the cache, with the
 * decode-and-release pair the view performs for each bubble it draws.
 */
module Visibility {
  import opened Prelude
  import opened Media

  /** The paths a frame drew: duplicates collapse and rows without media are skipped. */
  function Wanted(paths: seq<string>): set<string> {
    set p | p in paths && p != ""
  }

  lemma WantedAppend(paths: seq<string>, path: string)
    ensures Wanted(paths + [path]) == Wanted(paths) + if path == "" then {} else {path}
  {}

  function ReleaseAll(c: Cache, order: seq<string>): Cache {
    if order == [] then c else Release(ReleaseAll(c, order[..|order| - 1]), order[|order| - 1])
  }

  function DecodeAll(c: Cache, dec: Decoder, order: seq<string>): Cache {
    if order == [] then c
    else
      var path := order[|order| - 1];
      Decode(DecodeAll(c, dec, order[..|order| - 1]), path, dec(path))
  }

  function Thumbnail(c: Cache, dec: Decoder, path: string): Cache {
    if path == "" || (path !in c.entries && dec(path).Unreadable?) then c
    else Release(Decode(c, path, dec(path)), path)
  }

  /** A resident entry has one user when its path is visible and none otherwise. */
  ghost predicate Pins(c: Cache, visible: set<string>) {
    Inv(c) && forall p :: p in c.entries ==> c.entries[p].refcount == if p in visible then 1 else 0
  }

  /** Moreover the residents hold what the decoder answers, and every visible path is resident if it can be. */
  ghost predicate Balanced(c: Cache, dec: Decoder, visible: set<string>) {
    && Pins(c, visible)
    && (forall p :: p in c.entries ==> dec(p) == Decoded(c.entries[p].img, c.entries[p].bytes))
    && (forall p :: p in visible && dec(p).Decoded? ==> p in c.entries)
  }

  /** Eviction only takes entries that nobody uses. */
  lemma PinnedStay(d: Cache)
    requires Accounted(d)
    ensures Inv(EvictIfOver(d))
    ensures forall p :: p in EvictIfOver(d).entries ==> p in d.entries && EvictIfOver(d).entries[p] == d.entries[p]
    ensures forall p :: p in d.entries && d.entries[p].refcount > 0 ==> p in EvictIfOver(d).entries
  {
    hide Inv, Accounted;
    EvictKeepsAccounts(d);
    EvictKeepsEntries(d);
    EvictionOrder(d);
  }

  lemma ReleaseOne(c: Cache, dec: Decoder, visible: set<string>, path: string)
    requires Pins(c, visible) && path in visible
    ensures Pins(Release(c, path), visible - {path})
    ensures Balanced(c, dec, visible) ==> Balanced(Release(c, path), dec, visible - {path})
  {
    hide Inv, Accounted, EvictIfOver;
    if path in c.entries {
      var d := Unpinned(c, path);
      PinnedStay(d);
      hide Release;
    }
  }

  lemma DecodeOne(c: Cache, dec: Decoder, visible: set<string>, path: string)
    requires Pins(c, visible) && path !in visible
    ensures Pins(Decode(c, path, dec(path)), visible + {path})
    ensures Balanced(c, dec, visible) ==> Balanced(Decode(c, path, dec(path)), dec, visible + {path})
  {
    hide Inv, Accounted, EvictIfOver;
    DecodeKeepsInv(c, path, dec(path));
    if path !in c.entries && dec(path).Decoded? {
      var d := Admitted(c, path, dec(path).img, dec(path).bytes);
      PinnedStay(d);
      hide Admit;
    }
  }

  /** Drawing a bubble leaves every count as it was, whether or not the path is visible yet. */
  lemma ThumbnailKeepsBalance(c: Cache, dec: Decoder, visible: set<string>, path: string)
    requires Balanced(c, dec, visible)
    ensures Balanced(Thumbnail(c, dec, path), dec, visible)
  {
    if path in visible && path in c.entries {
      var d := Decode(c, path, dec(path));
      DecodeKeepsInv(c, path, dec(path));
      ReleaseKeepsInv(d, path);
    } else if path !in visible {
      DecodeOne(c, dec, visible, path);
      ReleaseOne(Decode(c, path, dec(path)), dec, visible + {path}, path);
      assert visible + {path} - {path} == visible;
    }
  }

  lemma {:induction false} ReleaseAllKeepsBalance(c: Cache, dec: Decoder, visible: set<string>, order: seq<string>)
    requires Pins(c, visible) && Distinct(order) && (forall p :: p in order ==> p in visible)
    ensures Pins(ReleaseAll(c, order), visible - Members(order))
    ensures Balanced(c, dec, visible) ==> Balanced(ReleaseAll(c, order), dec, visible - Members(order))
  {
    hide Pins, Balanced;
    if order == [] {
      assert visible - Members(order) == visible;
    } else {
      var before, path := order[..|order| - 1], order[|order| - 1];
      forall p | p in before ensures p in visible { assert p in order; }
      ReleaseAllKeepsBalance(c, dec, visible, before);
      assert path !in before;
      ReleaseOne(ReleaseAll(c, before), dec, visible - Members(before), path);
      SplitMembers(order);
      assert visible - Members(order) == visible - Members(before) - {path};
    }
  }

  lemma {:induction false} DecodeAllKeepsBalance(c: Cache, dec: Decoder, visible: set<string>, order: seq<string>)
    requires Pins(c, visible) && Distinct(order) && (forall p :: p in order ==> p !in visible)
    ensures Pins(DecodeAll(c, dec, order), visible + Members(order))
    ensures Balanced(c, dec, visible) ==> Balanced(DecodeAll(c, dec, order), dec, visible + Members(order))
  {
    hide Pins, Balanced;
    if order == [] {
      assert visible + Members(order) == visible;
    } else {
      var before, path := order[..|order| - 1], order[|order| - 1];
      forall p | p in before ensures p !in visible { assert p in order; }
      DecodeAllKeepsBalance(c, dec, visible, before);
      assert path !in before;
      DecodeOne(DecodeAll(c, dec, before), dec, visible + Members(before), path);
      SplitMembers(order);
      assert visible + Members(order) == visible + Members(before) + {path};
    }
  }

  function Members(s: seq<string>): set<string> {
    set p | p in s
  }

  lemma SplitMembers(s: seq<string>)
    requires s != []
    ensures Members(s) == Members(s[..|s| - 1]) + {s[|s| - 1]}
  {
    assert s == s[..|s| - 1] + [s[|s| - 1]];
  }

  // ---------------------------------------------------------------- the memory bound

  function VisibleSizes(dec: Decoder, visible: set<string>): map<string, nat> {
    map p | p in visible :: if dec(p).Decoded? then dec(p).bytes else 0
  }

  /** Decoded bytes stay under the budget, except that what is on screen is always kept. */
  lemma MemoryBound(c: Cache, dec: Decoder, visible: set<string>)
    requires Balanced(c, dec, visible) && c.maxBytes > 0
    ensures c.total <= Max(c.maxBytes, Sum(VisibleSizes(dec, visible)))
  {
    if c.lru == [] {
      forall p | p in c.entries ensures p in visible {
        assert p !in c.lru;
      }
      SumMonotone(Sizes(c.entries), VisibleSizes(dec, visible));
    }
  }

  // ---------------------------------------------------------------- whole runs of frames

  datatype Frames = Frames(cache: Cache, visible: set<string>, decoded: nat, released: nat)

  /** The orders in which Go iterates its maps are part of the operation. */
  datatype FrameOp =
    | Draw(path: string)
    | SetVisible(paths: seq<string>, departures: seq<string>, arrivals: seq<string>)
    | Clear(departures: seq<string>)

  ghost predicate Legal(f: Frames, op: FrameOp) {
    match op
    case Draw(_) => true
    case SetVisible(paths, departures, arrivals) =>
      Enumerates(departures, f.visible - Wanted(paths)) && Enumerates(arrivals, Wanted(paths) - f.visible)
    case Clear(departures) => Enumerates(departures, f.visible)
  }

  function Apply(f: Frames, dec: Decoder, op: FrameOp): Frames {
    match op
    case Draw(path) => f.(cache := Thumbnail(f.cache, dec, path))
    case SetVisible(paths, departures, arrivals) =>
      Frames(DecodeAll(ReleaseAll(f.cache, departures), dec, arrivals), Wanted(paths),
             f.decoded + |arrivals|, f.released + |departures|)
    case Clear(departures) =>
      Frames(ReleaseAll(f.cache, departures), {}, f.decoded, f.released + |departures|)
  }

  function RunFrames(maxBytes: int, dec: Decoder, ops: seq<FrameOp>): Frames {
    if ops == [] then Frames(New(maxBytes), {}, 0, 0)
    else Apply(RunFrames(maxBytes, dec, ops[..|ops| - 1]), dec, ops[|ops| - 1])
  }

  ghost predicate LegalRun(maxBytes: int, dec: Decoder, ops: seq<FrameOp>) {
    forall i :: 0 <= i < |ops| ==> Legal(RunFrames(maxBytes, dec, ops[..i]), ops[i])
  }

  ghost predicate FrameInv(f: Frames, dec: Decoder) {
    Balanced(f.cache, dec, f.visible) && f.decoded - f.released == |f.visible|
  }

  /** Replacing the visible set by `next`, whatever order the maps are walked in. */
  lemma ReconcileKeepsBalance(c: Cache, dec: Decoder, visible: set<string>, next: set<string>,
                              departures: seq<string>, arrivals: seq<string>)
    requires Pins(c, visible)
    requires Enumerates(departures, visible - next) && Enumerates(arrivals, next - visible)
    ensures Pins(DecodeAll(ReleaseAll(c, departures), dec, arrivals), next)
    ensures Balanced(c, dec, visible) ==> Balanced(DecodeAll(ReleaseAll(c, departures), dec, arrivals), dec, next)
    ensures |arrivals| - |departures| == |next| - |visible|
  {
    hide Pins, Balanced;
    ReleaseAllKeepsBalance(c, dec, visible, departures);
    assert visible - Members(departures) == visible * next;
    DecodeAllKeepsBalance(ReleaseAll(c, departures), dec, visible * next, arrivals);
    assert visible * next + Members(arrivals) == next;
    EnumerationLength(departures, visible - next);
    EnumerationLength(arrivals, next - visible);
    DifferenceSize(visible, next);
    DifferenceSize(next, visible);
    assert visible * next == next * visible;
  }

  lemma DifferenceSize(a: set<string>, b: set<string>)
    ensures |a| == |a * b| + |a - b|
  {
    assert a == a * b + (a - b);
  }

  lemma ApplyKeepsFrameInv(f: Frames, dec: Decoder, op: FrameOp)
    requires FrameInv(f, dec) && Legal(f, op)
    ensures FrameInv(Apply(f, dec, op), dec)
  {
    match op
    case Draw(path) =>
      ThumbnailKeepsBalance(f.cache, dec, f.visible, path);
    case SetVisible(paths, departures, arrivals) =>
      ReconcileKeepsBalance(f.cache, dec, f.visible, Wanted(paths), departures, arrivals);
    case Clear(departures) =>
      assert f.visible - {} == f.visible;
      assert Enumerates([], {} - f.visible);
      ReconcileKeepsBalance(f.cache, dec, f.visible, {}, departures, []);
  }

  /**
   * Between the operations of any run of frames: each resident entry has exactly the users
   * the visible set accounts for, the cache calls made balance out to the visible set, and
   * with a positive budget the decoded bytes are bounded independently of the history.
   */
  lemma {:induction false} ThumbnailMemory(maxBytes: int, dec: Decoder, ops: seq<FrameOp>)
    requires LegalRun(maxBytes, dec, ops)
    ensures
      var f := RunFrames(maxBytes, dec, ops);
      && FrameInv(f, dec)
      && f.cache.maxBytes == maxBytes
      && (maxBytes > 0 ==> f.cache.total <= Max(maxBytes, Sum(VisibleSizes(dec, f.visible))))
    decreases |ops|
  {
    var f := RunFrames(maxBytes, dec, ops);
    if ops != [] {
      var before, op := ops[..|ops| - 1], ops[|ops| - 1];
      forall i | 0 <= i < |before| ensures before[..i] == ops[..i] {}
      ThumbnailMemory(maxBytes, dec, before);
      ApplyKeepsFrameInv(RunFrames(maxBytes, dec, before), dec, op);
      ApplyKeepsBudget(RunFrames(maxBytes, dec, before), dec, op);
    }
    if maxBytes > 0 {
      MemoryBound(f.cache, dec, f.visible);
    }
  }

  lemma {:induction false} ReleaseAllKeepsBudget(c: Cache, order: seq<string>)
    ensures ReleaseAll(c, order).maxBytes == c.maxBytes
  {
    if order != [] {
      ReleaseAllKeepsBudget(c, order[..|order| - 1]);
      BudgetIsFixed(ReleaseAll(c, order[..|order| - 1]), ReleaseCall(order[|order| - 1]));
    }
  }

  lemma {:induction false} DecodeAllKeepsBudget(c: Cache, dec: Decoder, order: seq<string>)
    ensures DecodeAll(c, dec, order).maxBytes == c.maxBytes
  {
    if order != [] {
      var path := order[|order| - 1];
      DecodeAllKeepsBudget(c, dec, order[..|order| - 1]);
      BudgetIsFixed(DecodeAll(c, dec, order[..|order| - 1]), DecodeCall(path, dec(path)));
    }
  }

  lemma ApplyKeepsBudget(f: Frames, dec: Decoder, op: FrameOp)
    ensures Apply(f, dec, op).cache.maxBytes == f.cache.maxBytes
  {
    match op
    case Draw(path) =>
      BudgetIsFixed(f.cache, DecodeCall(path, dec(path)));
      BudgetIsFixed(Decode(f.cache, path, dec(path)), ReleaseCall(path));
    case SetVisible(_, departures, arrivals) =>
      ReleaseAllKeepsBudget(f.cache, departures);
      DecodeAllKeepsBudget(ReleaseAll(f.cache, departures), dec, arrivals);
    case Clear(departures) =>
      ReleaseAllKeepsBudget(f.cache, departures);
  }
}
