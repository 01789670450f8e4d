/**
 * Frames whose decode hook may answer the same path differently each time (a file that is
 * still being written, say): exactly which draws break the tracker's pairing.
 */
module FlakyDecoders {
  import opened Prelude
  import opened Media
  import opened Budgets
  import opened Visibility

  /** The path still fits when everything that nobody uses has been evicted. */
  predicate FitsBesidePinned(c: Cache, bytes: nat) {
    c.maxBytes <= 0 || PinnedBytes(c) + bytes <= c.maxBytes
  }

  /**
   * The bubble's Decode is the one that succeeds for a visible path, so the Release that
   * follows takes the only user of an entry that stays.
   */
  predicate LosesPin(c: Cache, visible: set<string>, path: string, outcome: DecodeResult) {
    && path != "" && path in visible && path !in c.entries
    && outcome.Decoded? && FitsBesidePinned(c, outcome.bytes)
  }

  /** The cache between the bubble's Decode and its Release. */
  lemma AdmittedOnce(c: Cache, path: string, img: Image, bytes: nat) returns (e: Cache)
    requires Inv(c) && path !in c.entries
    ensures e == Admit(c, path, img, bytes) && Inv(e) && e.maxBytes == c.maxBytes
    ensures path in e.entries && e.entries[path].refcount == 1
    ensures forall p :: p in e.entries && p != path ==> p in c.entries && e.entries[p] == c.entries[p]
    ensures PinnedBytes(e) == PinnedBytes(c) + bytes
  {
    hide Accounted, WithinBudget, EvictIfOver, PinnedBytes;
    var d := Admitted(c, path, img, bytes);
    e := EvictIfOver(d);
    EvictKeepsAccounts(d);
    EvictKeepsPinnedBytes(d);
    EvictKeepsBudget(d);
    EvictKeepsEntries(d);
    EvictKeepsUsers(d);
    assert Refcount(e, path) == 1;
    AdmittedBytes(c, path, d);
  }

  /** The cache just before the eviction loop of the bubble's Release. */
  lemma DrawnOnce(c: Cache, path: string, img: Image, bytes: nat) returns (u: Cache)
    requires Inv(c) && path !in c.entries
    ensures Accounted(u) && EvictIfOver(u) == Release(Admit(c, path, img, bytes), path)
    ensures u.maxBytes == c.maxBytes && u.lru != [] && u.lru[|u.lru| - 1] == path
    ensures path in u.entries && u.entries[path].refcount == 0
    ensures forall p :: p in u.entries && p != path ==> p in c.entries && u.entries[p] == c.entries[p]
    ensures u.total - SeqBytes(u.entries, u.lru[..|u.lru| - 1]) == PinnedBytes(c) + bytes
  {
    hide Inv, Accounted, EvictIfOver, Release, Admit;
    var e := AdmittedOnce(c, path, img, bytes);
    u := Unpinned(e, path);
    UnlistedBytes(e, path, u);
  }

  lemma UnlistedBytes(e: Cache, path: string, u: Cache)
    requires Inv(e) && path in e.entries && e.entries[path].refcount == 1
    requires u.lru == RemoveFromLRU(e.lru, path) + [path]
    requires u.entries == e.entries[path := e.entries[path].(refcount := 0)]
    ensures u.lru[..|u.lru| - 1] == e.lru && SeqBytes(u.entries, e.lru) == SeqBytes(e.entries, e.lru)
  {
    assert path !in e.lru;
    RemoveFromLRUAt(e.lru, path);
    SeqBytesFrame(u.entries, e.entries, e.lru);
  }

  /** The newest released path survives an eviction pass exactly when it fits beside the pinned ones. */
  lemma NewestSurvives(u: Cache)
    requires Accounted(u) && u.lru != []
    ensures
      var n := |u.lru| - 1;
      u.lru[n] in EvictIfOver(u).entries
      <==> u.maxBytes <= 0 || u.total - SeqBytes(u.entries, u.lru[..n]) <= u.maxBytes
  {
    hide Accounted, EvictIfOver;
    var n, k := |u.lru| - 1, Evicted(u);
    EvictionOrder(u);
    if k <= n {
      NotBeforeItself(u, k);
      assert u.lru[..n] == u.lru[..k] + u.lru[k..n];
      SeqBytesSplit(u.entries, u.lru[..k], u.lru[k..n]);
      assert u.lru[n] in EvictIfOver(u).entries;
      assert u.maxBytes <= 0 || u.total - SeqBytes(u.entries, u.lru[..k]) <= u.maxBytes;
    } else {
      assert u.lru[n] in u.lru[..k];
      assert u.lru[n] !in EvictIfOver(u).entries;
      assert 0 < u.maxBytes < u.total - SeqBytes(u.entries, u.lru[..n]);
    }
  }

  lemma NotBeforeItself(u: Cache, k: int)
    requires Accounted(u) && 0 <= k < |u.lru|
    ensures u.lru[|u.lru| - 1] in u.entries && u.lru[|u.lru| - 1] !in u.lru[..k]
  {}

  /** Drawing a bubble keeps one user per visible resident exactly when it does not lose a pin. */
  lemma DrawPinsExactly(c: Cache, dec: Decoder, visible: set<string>, path: string)
    requires Pins(c, visible)
    ensures Pins(Thumbnail(c, dec, path), visible) <==> !LosesPin(c, visible, path, dec(path))
  {
    if path in c.entries && path in visible {
      RetainKeepsInv(c, path);
      ReleaseKeepsInv(Retain(c, path), path);
    } else if path !in visible {
      DecodeOne(c, dec, visible, path);
      ReleaseOne(Decode(c, path, dec(path)), dec, visible + {path}, path);
      assert visible + {path} - {path} == visible;
    } else if dec(path).Decoded? {
      MissedDraw(c, visible, path, dec(path).img, dec(path).bytes);
    }
  }

  lemma MissedDraw(c: Cache, visible: set<string>, path: string, img: Image, bytes: nat)
    requires Pins(c, visible) && path in visible && path !in c.entries
    ensures
      var r := Release(Admit(c, path, img, bytes), path);
      && (Pins(r, visible) <==> !FitsBesidePinned(c, bytes))
      && (FitsBesidePinned(c, bytes) ==> path in r.entries && r.entries[path].refcount == 0)
  {
    hide Accounted, WithinBudget, Release, Admit;
    var u := DrawnOnce(c, path, img, bytes);
    EvictKeepsAccounts(u);
    EvictKeepsEntries(u);
    NewestSurvives(u);
  }

  // ---------------------------------------------------------------- whole runs of frames

  /** A frame operation with the decoder as it answers while the operation lasts. */
  datatype TimedOp = TimedOp(op: FrameOp, dec: Decoder)

  function RunTimed(maxBytes: int, ops: seq<TimedOp>): Frames {
    if ops == [] then Frames(New(maxBytes), {}, 0, 0)
    else Apply(RunTimed(maxBytes, ops[..|ops| - 1]), ops[|ops| - 1].dec, ops[|ops| - 1].op)
  }

  ghost predicate LegalTimed(maxBytes: int, ops: seq<TimedOp>) {
    forall i :: 0 <= i < |ops| ==> Legal(RunTimed(maxBytes, ops[..i]), ops[i].op)
  }

  ghost predicate Paired(f: Frames) {
    Pins(f.cache, f.visible)
  }

  predicate Loses(f: Frames, t: TimedOp) {
    t.op.Draw? && LosesPin(f.cache, f.visible, t.op.path, t.dec(t.op.path))
  }

  lemma OpPairsExactly(f: Frames, t: TimedOp)
    requires Paired(f) && Legal(f, t.op)
    ensures Paired(Apply(f, t.dec, t.op)) <==> !Loses(f, t)
  {
    match t.op
    case Draw(path) => DrawPinsExactly(f.cache, t.dec, f.visible, path);
    case SetVisible(paths, departures, arrivals) =>
      ReconcileKeepsBalance(f.cache, t.dec, f.visible, Wanted(paths), departures, arrivals);
    case Clear(departures) =>
      assert f.visible - {} == f.visible;
      assert Enumerates([], {} - f.visible);
      ReconcileKeepsBalance(f.cache, t.dec, f.visible, {}, departures, []);
  }

  lemma OneMoreOp(maxBytes: int, ops: seq<TimedOp>, k: nat)
    requires k < |ops|
    ensures RunTimed(maxBytes, ops[..k + 1]) == Apply(RunTimed(maxBytes, ops[..k]), ops[k].dec, ops[k].op)
  {
    assert ops[..k + 1][..k] == ops[..k] && ops[..k + 1][k] == ops[k];
  }

  lemma {:induction false} PairedSoFar(maxBytes: int, ops: seq<TimedOp>, k: nat)
    requires LegalTimed(maxBytes, ops) && k <= |ops|
    requires forall i :: 0 <= i < k ==> !Loses(RunTimed(maxBytes, ops[..i]), ops[i])
    ensures Paired(RunTimed(maxBytes, ops[..k]))
  {
    hide Loses, Legal, Apply;
    if k == 0 {
      EmptyIsPaired(maxBytes);
    } else {
      PairedSoFar(maxBytes, ops, k - 1);
      OneMoreOp(maxBytes, ops, k - 1);
      OpPairsExactly(RunTimed(maxBytes, ops[..k - 1]), ops[k - 1]);
    }
  }

  lemma EmptyIsPaired(maxBytes: int)
    ensures Pins(New(maxBytes), {})
  {}

  /**
   * With a decoder that may answer differently each time, the frames keep one user for every
   * visible resident and none for the others throughout exactly when no draw is the first to
   * succeed for a visible path that fits beside the pinned ones. A decode that fails at the
   * draw and succeeds afterwards, or that differs for a path that is not visible, does no harm.
   */
  lemma FramesPairExactly(maxBytes: int, ops: seq<TimedOp>)
    requires LegalTimed(maxBytes, ops)
    ensures (forall k :: 0 <= k <= |ops| ==> Paired(RunTimed(maxBytes, ops[..k])))
       <==> (forall k :: 0 <= k < |ops| ==> !Loses(RunTimed(maxBytes, ops[..k]), ops[k]))
  {
    hide Loses, Paired, Legal, Apply;
    if forall k :: 0 <= k < |ops| ==> !Loses(RunTimed(maxBytes, ops[..k]), ops[k]) {
      forall k | 0 <= k <= |ops| ensures Paired(RunTimed(maxBytes, ops[..k])) {
        PairedSoFar(maxBytes, ops, k);
      }
    }
    if forall k :: 0 <= k <= |ops| ==> Paired(RunTimed(maxBytes, ops[..k])) {
      forall k | 0 <= k < |ops| ensures !Loses(RunTimed(maxBytes, ops[..k]), ops[k]) {
        OneMoreOp(maxBytes, ops, k);
        OpPairsExactly(RunTimed(maxBytes, ops[..k]), ops[k]);
      }
    }
  }

  // ---------------------------------------------------------------- the failing run

  /** The path fails while it becomes visible and succeeds when its bubble is next drawn. */
  function LateSuccess(path: string, failing: Decoder, working: Decoder): seq<TimedOp> {
    [TimedOp(SetVisible([path], [], [path]), failing), TimedOp(Draw(path), working)]
  }

  /** Two frame operations after which a visible path is resident and unpinned, under any budget it fits in. */
  lemma FlakyDecoderLosesThePin(maxBytes: int, path: string, failing: Decoder, working: Decoder)
    requires path != "" && failing(path).Unreadable? && working(path).Decoded?
    requires maxBytes <= 0 || working(path).bytes <= maxBytes
    ensures LegalTimed(maxBytes, LateSuccess(path, failing, working))
    ensures
      var f := RunTimed(maxBytes, LateSuccess(path, failing, working));
      f.visible == {path} && path in f.cache.entries && f.cache.entries[path].refcount == 0
  {
    var ops := LateSuccess(path, failing, working);
    var shown := Frames(New(maxBytes), {path}, 1, 0);
    OneMoreOp(maxBytes, ops, 0);
    OneMoreOp(maxBytes, ops, 1);
    FirstFails(maxBytes, path, failing);
    assert ops[..2] == ops;
    EmptyIsPaired(maxBytes);
    assert Pins(New(maxBytes), {path});
    MissedDraw(New(maxBytes), {path}, path, working(path).img, working(path).bytes);
  }

  lemma FirstFails(maxBytes: int, path: string, failing: Decoder)
    requires path != "" && failing(path).Unreadable?
    ensures
      var f := Frames(New(maxBytes), {}, 0, 0);
      && Legal(f, SetVisible([path], [], [path]))
      && Apply(f, failing, SetVisible([path], [], [path])) == Frames(New(maxBytes), {path}, 1, 0)
  {
    assert Wanted([path]) == {path};
    assert {} - Wanted([path]) == {} && Wanted([path]) - {} == {path};
    assert [path][..0] == [] && ReleaseAll(New(maxBytes), []) == New(maxBytes);
    assert DecodeAll(New(maxBytes), failing, [path]) == New(maxBytes);
  }
}
