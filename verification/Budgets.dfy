/**
 * Two caches serving the same calls under different budgets: the larger budget never
 * decodes more (the cache has no Belady anomaly).
 */
module Budgets {
  import opened Prelude
  import opened Media

  predicate BudgetAtMost(b1: int, b2: int) {
    b2 <= 0 || 0 < b1 <= b2
  }

  /** Every decode answers as `dec` does. */
  predicate Uses(calls: seq<Call>, dec: Decoder) {
    forall i :: 0 <= i < |calls| && calls[i].DecodeCall? ==> calls[i].outcome == dec(calls[i].path)
  }

  /** Successful decodes of `path` minus its releases. */
  function Balance(calls: seq<Call>, path: string): int {
    if calls == [] then 0
    else
      var call := calls[|calls| - 1];
      Balance(calls[..|calls| - 1], path) +
      if call.path != path then 0
      else if call.ReleaseCall? then -1
      else if call.outcome.Decoded? then 1 else 0
  }

  /** A Release pairs with an outstanding successful Decode, or its path cannot be decoded at all. */
  predicate MayRelease(before: seq<Call>, dec: Decoder, path: string) {
    dec(path).Unreadable? || Balance(before, path) > 0
  }

  predicate Matched(calls: seq<Call>, dec: Decoder) {
    forall i :: 0 <= i < |calls| && calls[i].ReleaseCall? ==> MayRelease(calls[..i], dec, calls[i].path)
  }

  /** How often a run reaches the decode hook. */
  function DecoderCalls(maxBytes: int, calls: seq<Call>): nat {
    if calls == [] then 0
    else
      var before, call := calls[..|calls| - 1], calls[|calls| - 1];
      DecoderCalls(maxBytes, before) +
      if call.DecodeCall? && call.path !in Run(maxBytes, before).entries then 1 else 0
  }

  function Refcount(c: Cache, path: string): nat {
    if path in c.entries then c.entries[path].refcount else 0
  }

  function Pinned(c: Cache): set<string> {
    set p | p in c.entries && c.entries[p].refcount > 0
  }

  /** The last `n` elements. */
  function Last(s: seq<string>, n: int): seq<string>
    requires 0 <= n <= |s|
  {
    s[|s| - n..]
  }

  ghost predicate IsSuffix(a: seq<string>, b: seq<string>) {
    |a| <= |b| && a == Last(b, |a|)
  }

  /** The first cache holds nothing the second does not; they differ in unpinned paths only. */
  ghost predicate SharesEntries(c1: Cache, c2: Cache) {
    && (forall p :: p in c1.entries ==> p in c2.entries && c1.entries[p] == c2.entries[p])
    && (forall p :: p in c2.entries && c2.entries[p].refcount > 0 ==> p in c1.entries)
  }

  function PinnedBytes(c: Cache): int {
    c.total - SeqBytes(c.entries, c.lru)
  }

  /** What the two caches share, the first one having the smaller budget. */
  ghost predicate Simulates(c1: Cache, c2: Cache) {
    && BudgetAtMost(c1.maxBytes, c2.maxBytes)
    && SharesEntries(c1, c2)
    && IsSuffix(c1.lru, c2.lru)
    && PinnedBytes(c1) == PinnedBytes(c2)
  }

  lemma {:induction false} SeqBytesSplit(entries: map<string, Entry>, a: seq<string>, b: seq<string>)
    ensures SeqBytes(entries, a + b) == SeqBytes(entries, a) + SeqBytes(entries, b)
  {
    if a == [] {
      assert a + b == b;
    } else {
      assert (a + b)[1..] == a[1..] + b;
      SeqBytesSplit(entries, a[1..], b);
    }
  }

  /** Dropping a prefix leaves the pinned bytes and what the kept suffix holds. */
  lemma KeptBytes(c: Cache, n: int)
    requires 0 <= n <= |c.lru|
    ensures c.total - SeqBytes(c.entries, c.lru[..|c.lru| - n])
        == PinnedBytes(c) + SeqBytes(c.entries, Last(c.lru, n))
  {
    var j := |c.lru| - n;
    assert c.lru == c.lru[..j] + c.lru[j..];
    SeqBytesSplit(c.entries, c.lru[..j], c.lru[j..]);
  }

  lemma LongerSuffixHoldsMore(entries: map<string, Entry>, s: seq<string>, n: int, m: int)
    requires 0 <= n <= m <= |s|
    ensures SeqBytes(entries, Last(s, n)) <= SeqBytes(entries, Last(s, m))
  {
    assert Last(s, m) == Last(s, m)[..m - n] + Last(s, n);
    SeqBytesSplit(entries, Last(s, m)[..m - n], Last(s, n));
  }

  lemma SharedSuffix(c1: Cache, c2: Cache, n: int)
    requires Accounted(c1) && SharesEntries(c1, c2) && IsSuffix(c1.lru, c2.lru)
    requires 0 <= n <= |c1.lru|
    ensures Last(c1.lru, n) == Last(c2.lru, n)
    ensures SeqBytes(c1.entries, Last(c1.lru, n)) == SeqBytes(c2.entries, Last(c2.lru, n))
  {
    hide Distinct;
    var paths := Last(c1.lru, n);
    assert paths == Last(c2.lru, n);
    forall p | p in paths ensures p in c1.lru {}
    SeqBytesFrame(c1.entries, c2.entries, paths);
  }

  /** The larger budget keeps at least as long a suffix. */
  lemma LargerBudgetKeepsMore(c1: Cache, c2: Cache)
    requires Accounted(c1) && Accounted(c2) && Simulates(c1, c2)
    ensures |EvictIfOver(c1).lru| <= |EvictIfOver(c2).lru|
  {
    hide Accounted, SharesEntries;
    EvictIsLeast(c1);
    EvictIsLeast(c2);
    var n1, n2 := |EvictIfOver(c1).lru|, |EvictIfOver(c2).lru|;
    if n2 < n1 {
      // c1 fits its budget with n1 released paths, yet c2 was over with only n2 + 1 left
      KeptBytes(c1, n1);
      KeptBytes(c2, n2 + 1);
      SharedSuffix(c1, c2, n2 + 1);
      LongerSuffixHoldsMore(c1.entries, c1.lru, n2 + 1, n1);
      assert false;
    }
  }

  lemma KeptSuffixBytes(c: Cache)
    requires Accounted(c)
    ensures SeqBytes(EvictIfOver(c).entries, EvictIfOver(c).lru) == SeqBytes(c.entries, EvictIfOver(c).lru)
  {
    hide Distinct;
    EvictKeepsEntries(c);
    EvictKeepsAccounts(c);
    SeqBytesFrame(EvictIfOver(c).entries, c.entries, EvictIfOver(c).lru);
  }

  lemma EvictKeepsPinnedBytes(c: Cache)
    requires Accounted(c)
    ensures PinnedBytes(EvictIfOver(c)) == PinnedBytes(c)
  {
    hide Accounted;
    EvictDropsPrefix(c);
    EvictIsLeast(c);
    KeptBytes(c, |c.lru| - Evicted(c));
    KeptSuffixBytes(c);
  }

  /** A path of the smaller cache that survives there survives in the larger one. */
  lemma SurvivorsShared(c1: Cache, c2: Cache)
    requires Accounted(c1) && Accounted(c2) && SharesEntries(c1, c2) && IsSuffix(c1.lru, c2.lru)
    requires |EvictIfOver(c1).lru| <= |EvictIfOver(c2).lru|
    ensures SharesEntries(EvictIfOver(c1), EvictIfOver(c2))
  {
    hide Accounted, IsSuffix, EvictIfOver;
    var r1, r2 := EvictIfOver(c1), EvictIfOver(c2);
    EvictKeepsUsers(c1);
    EvictKeepsUsers(c2);
    EvictKeepsEntries(c1);
    EvictKeepsEntries(c2);
    forall p | p in r1.entries ensures p in r2.entries {
      SurvivorShared(c1, c2, p);
    }
    forall p | p in r2.entries && r2.entries[p].refcount > 0 ensures p in r1.entries {
      assert Refcount(r1, p) == Refcount(c1, p) > 0;
    }
  }

  lemma SurvivorShared(c1: Cache, c2: Cache, p: string)
    requires Accounted(c1) && Accounted(c2) && SharesEntries(c1, c2) && IsSuffix(c1.lru, c2.lru)
    requires |EvictIfOver(c1).lru| <= |EvictIfOver(c2).lru|
    requires p in EvictIfOver(c1).entries
    ensures p in EvictIfOver(c2).entries
  {
    hide Distinct, EvictIfOver;
    EvictDropsPrefix(c1);
    EvictDropsPrefix(c2);
    WithoutAllMeaning(c1.entries, c1.lru[..Evicted(c1)]);
    WithoutAllMeaning(c2.entries, c2.lru[..Evicted(c2)]);
    if p in c1.lru {
      PrefixOrSuffix(c1.lru, Evicted(c1), p);
      SharedSuffix(c1, c2, |EvictIfOver(c1).lru|);
      DisjointParts(c2.lru, Evicted(c2), |EvictIfOver(c1).lru|, p);
    } else {
      assert p !in c2.lru;
    }
  }

  lemma PrefixOrSuffix(s: seq<string>, k: int, p: string)
    requires 0 <= k <= |s| && p in s && p !in s[..k]
    ensures p in s[k..]
  {}

  lemma PrefixIsReleased(c: Cache, k: int, p: string)
    requires Accounted(c) && 0 <= k <= |c.lru| && p in c.lru[..k]
    ensures p in c.entries && c.entries[p].refcount == 0
  {
    assert p in c.lru;
  }

  /** In a duplicate-free list a prefix and a suffix that do not overlap share no element. */
  lemma DisjointParts(s: seq<string>, k: int, n: int, p: string)
    requires Distinct(s) && 0 <= k && 0 <= n && k + n <= |s|
    requires p in Last(s, n)
    ensures p !in s[..k]
  {}

  lemma EvictSimulates(c1: Cache, c2: Cache)
    requires Accounted(c1) && Accounted(c2) && Simulates(c1, c2)
    ensures Simulates(EvictIfOver(c1), EvictIfOver(c2))
  {
    hide Accounted, SharesEntries, PinnedBytes, EvictIfOver, IsSuffix;
    LargerBudgetKeepsMore(c1, c2);
    EvictKeepsPinnedBytes(c1);
    EvictKeepsPinnedBytes(c2);
    EvictKeepsBudget(c1);
    EvictKeepsBudget(c2);
    SurvivorsShared(c1, c2);
    EvictKeepsSuffix(c1, c2);
  }

  lemma EvictKeepsSuffix(c1: Cache, c2: Cache)
    requires Accounted(c1) && Accounted(c2) && SharesEntries(c1, c2) && IsSuffix(c1.lru, c2.lru)
    requires |EvictIfOver(c1).lru| <= |EvictIfOver(c2).lru|
    ensures IsSuffix(EvictIfOver(c1).lru, EvictIfOver(c2).lru)
  {
    hide Accounted, SharesEntries, EvictIfOver;
    EvictDropsPrefix(c1);
    EvictDropsPrefix(c2);
    SharedSuffix(c1, c2, |EvictIfOver(c1).lru|);
  }

  lemma EvictKeepsUsers(c: Cache)
    requires Accounted(c)
    ensures forall p :: Refcount(EvictIfOver(c), p) == Refcount(c, p)
  {
    hide Accounted;
    EvictDropsPrefix(c);
    EvictKeepsEntries(c);
    WithoutAllMeaning(c.entries, c.lru[..Evicted(c)]);
    forall p | p in c.lru[..Evicted(c)] ensures p in c.entries && c.entries[p].refcount == 0 {
      PrefixIsReleased(c, Evicted(c), p);
    }
  }

  /** Moving one path between pinned and released moves its bytes. */
  lemma RemovedBytes(entries: map<string, Entry>, lru: seq<string>, path: string)
    requires Distinct(lru) && path in lru && path in entries
    ensures SeqBytes(entries, RemoveFromLRU(lru, path)) == SeqBytes(entries, lru) - entries[path].bytes
  {
    hide RemoveFromLRU;
    var k :| 0 <= k < |lru| && lru[k] == path;
    assert path !in lru[..k];
    hide Distinct;
    RemoveFirst(lru, path, k);
    assert lru == lru[..k] + ([path] + lru[k + 1..]);
    SeqBytesSplit(entries, lru[..k], [path] + lru[k + 1..]);
    SeqBytesSplit(entries, lru[..k], lru[k + 1..]);
  }

  /** Taking a path out of both lists keeps one a suffix of the other. */
  lemma {:induction false} RemovalKeepsSuffix(a: seq<string>, b: seq<string>, path: string)
    requires IsSuffix(a, b) && Distinct(b)
    ensures IsSuffix(RemoveFromLRU(a, path), RemoveFromLRU(b, path))
    decreases |b|
  {
    if |a| < |b| {
      if b[0] == path {
        assert path !in b[1..];
        assert a == Last(b[1..], |a|);
        RemoveFromLRUAt(a, path);
      } else {
        assert Last(b, |a|) == Last(b[1..], |a|);
        RemovalKeepsSuffix(a, b[1..], path);
      }
    }
  }

  lemma RetainBytes(c: Cache, path: string)
    requires Inv(c) && path in c.entries
    ensures SeqBytes(Retain(c, path).entries, Retain(c, path).lru)
         == SeqBytes(c.entries, c.lru) - if path in c.lru then c.entries[path].bytes else 0
  {
    var r := RemoveFromLRU(c.lru, path);
    RemoveFromLRUMeaning(c.lru, path);
    RemoveFromLRUAt(c.lru, path);
    SeqBytesFrame(Retain(c, path).entries, c.entries, r);
    if path in c.lru {
      RemovedBytes(c.entries, c.lru, path);
    }
  }

  lemma ListedAlike(c1: Cache, c2: Cache, path: string)
    requires Inv(c1) && Inv(c2) && SharesEntries(c1, c2) && path in c1.entries
    ensures path in c1.lru <==> path in c2.lru
  {}

  lemma RetainSimulates(c1: Cache, c2: Cache, path: string)
    requires Inv(c1) && Inv(c2) && Simulates(c1, c2) && path in c1.entries
    ensures Simulates(Retain(c1, path), Retain(c2, path))
  {
    hide Inv, IsSuffix;
    RemovalKeepsSuffix2(c1, c2, path);
    RetainBytes(c1, path);
    RetainBytes(c2, path);
    ListedAlike(c1, c2, path);
    assert c1.entries[path] == c2.entries[path];
    UpdateKeepsShared(c1, c2, path, Retain(c1, path), Retain(c2, path));
    hide SharesEntries, SeqBytes;
  }

  lemma RemovalKeepsSuffix2(c1: Cache, c2: Cache, path: string)
    requires Inv(c2) && IsSuffix(c1.lru, c2.lru)
    ensures IsSuffix(RemoveFromLRU(c1.lru, path), RemoveFromLRU(c2.lru, path))
  {
    RemovalKeepsSuffix(c1.lru, c2.lru, path);
  }

  lemma AdmittedBytes(c: Cache, path: string, d: Cache)
    requires Inv(c) && path !in c.entries && path in d.entries
    requires d.entries == c.entries[path := d.entries[path]] && d.lru == c.lru
    requires d.total == c.total + d.entries[path].bytes
    ensures PinnedBytes(d) == PinnedBytes(c) + d.entries[path].bytes
  {
    SeqBytesFrame(d.entries, c.entries, c.lru);
  }

  /** The smaller cache misses where the larger one hits a released path. */
  lemma MissAgainstHit(c1: Cache, c2: Cache, path: string, img: Image, bytes: nat)
    requires Inv(c1) && Inv(c2) && Simulates(c1, c2)
    requires path !in c1.entries && path in c2.entries
    requires c2.entries[path].img == img && c2.entries[path].bytes == bytes
    ensures Simulates(Admit(c1, path, img, bytes), Retain(c2, path))
  {
    hide Inv, Accounted, EvictIfOver, SharesEntries, IsSuffix;
    var d := Admitted(c1, path, img, bytes);
    OnlyInLarger(c1, c2, path);
    AdmittedKeepsShared(c1, c2, path, d);
    AdmittedBytes(c1, path, d);
    RetainBytes(c2, path);
    RemoveFromLRUAt(c1.lru, path);
    RemovalKeepsSuffix2(c1, c2, path);
    RetainKeepsAccounts(c2, path);
    EvictSimulates(d, Retain(c2, path));
  }

  lemma RetainKeepsAccounts(c: Cache, path: string)
    requires Inv(c) && path in c.entries
    ensures Accounted(Retain(c, path)) && EvictIfOver(Retain(c, path)) == Retain(c, path)
  {
    RetainKeepsInv(c, path);
  }

  lemma OnlyInLarger(c1: Cache, c2: Cache, path: string)
    requires Inv(c1) && Inv(c2) && SharesEntries(c1, c2) && path !in c1.entries && path in c2.entries
    ensures path in c2.lru && path !in c1.lru && c2.entries[path].refcount == 0
  {}

  lemma AdmittedKeepsShared(c1: Cache, c2: Cache, path: string, d: Cache)
    requires SharesEntries(c1, c2) && path in c2.entries && c2.entries[path].refcount == 0
    requires d.entries == c1.entries[path := c2.entries[path].(refcount := 1)]
    ensures SharesEntries(d, Retain(c2, path))
  {}

  lemma BothMiss(c1: Cache, c2: Cache, path: string, img: Image, bytes: nat)
    requires Inv(c1) && Inv(c2) && Simulates(c1, c2)
    requires path !in c1.entries && path !in c2.entries
    ensures Simulates(Admit(c1, path, img, bytes), Admit(c2, path, img, bytes))
  {
    hide Inv, Accounted, EvictIfOver;
    var d1 := Admitted(c1, path, img, bytes);
    var d2 := Admitted(c2, path, img, bytes);
    AdmittedBytes(c1, path, d1);
    AdmittedBytes(c2, path, d2);
    EvictSimulates(d1, d2);
  }

  lemma UnpinnedBytes(c: Cache, path: string, d: Cache)
    requires Inv(c) && Refcount(c, path) == 1
    requires d.lru == RemoveFromLRU(c.lru, path) + [path]
    requires d.entries == c.entries[path := c.entries[path].(refcount := 0)]
    ensures d.lru == c.lru + [path]
    ensures SeqBytes(d.entries, d.lru) == SeqBytes(c.entries, c.lru) + c.entries[path].bytes
  {
    assert path !in c.lru;
    RemoveFromLRUAt(c.lru, path);
    SeqBytesSplit(d.entries, c.lru, [path]);
    SeqBytesFrame(d.entries, c.entries, c.lru);
  }

  lemma CountedDownBytes(c: Cache, path: string)
    requires Inv(c) && Refcount(c, path) > 1
    ensures PinnedBytes(Release(c, path)) == PinnedBytes(c)
  {
    SeqBytesFrame(Release(c, path).entries, c.entries, c.lru);
  }

  lemma ReleaseSimulates(c1: Cache, c2: Cache, path: string)
    requires Inv(c1) && Inv(c2) && Simulates(c1, c2) && Refcount(c1, path) > 0
    ensures Simulates(Release(c1, path), Release(c2, path))
  {
    hide Inv, Accounted, EvictIfOver, IsSuffix, PinnedBytes;
    assert path in c1.entries && path in c2.entries && c1.entries[path] == c2.entries[path];
    if Refcount(c1, path) == 1 {
      LastUserLeaves(c1, c2, path);
    } else {
      CountedDownBytes(c1, path);
      CountedDownBytes(c2, path);
      UpdateKeepsShared(c1, c2, path, Release(c1, path), Release(c2, path));
    }
  }

  lemma LastUserLeaves(c1: Cache, c2: Cache, path: string)
    requires Inv(c1) && Inv(c2) && Simulates(c1, c2) && Refcount(c1, path) == 1
    requires path in c2.entries && c1.entries[path] == c2.entries[path]
    ensures Simulates(Release(c1, path), Release(c2, path))
  {
    hide Inv, Accounted, EvictIfOver, Release, SharesEntries;
    var d1 := Unpinned(c1, path);
    var d2 := Unpinned(c2, path);
    UnpinnedBytes(c1, path, d1);
    UnpinnedBytes(c2, path, d2);
    AppendKeepsSuffix(c1.lru, c2.lru, path);
    UpdateKeepsShared(c1, c2, path, d1, d2);
    EvictSimulates(d1, d2);
  }

  lemma UpdateKeepsShared(c1: Cache, c2: Cache, path: string, d1: Cache, d2: Cache)
    requires SharesEntries(c1, c2) && path in c1.entries && path in d1.entries
    requires d1.entries == c1.entries[path := d1.entries[path]]
    requires d2.entries == c2.entries[path := d1.entries[path]]
    ensures SharesEntries(d1, d2)
  {}

  lemma AppendKeepsSuffix(a: seq<string>, b: seq<string>, path: string)
    requires IsSuffix(a, b)
    ensures IsSuffix(a + [path], b + [path])
  {}

  /** The resident entries hold what the decoder answers, and each user is accounted for. */
  ghost predicate Faithful(c: Cache, dec: Decoder, calls: seq<Call>) {
    && (forall p :: p in c.entries ==> dec(p) == Decoded(c.entries[p].img, c.entries[p].bytes))
    && (forall p :: dec(p).Decoded? ==> Refcount(c, p) == Balance(calls, p))
  }

  lemma StepIsFaithful(c: Cache, dec: Decoder, calls: seq<Call>, call: Call)
    requires Inv(c) && Faithful(c, dec, calls)
    requires call.DecodeCall? ==> call.outcome == dec(call.path)
    requires call.ReleaseCall? ==> MayRelease(calls, dec, call.path)
    ensures Faithful(Step(c, call), dec, calls + [call])
  {
    hide Inv, EvictIfOver;
    assert (calls + [call])[..|calls|] == calls;
    var path := call.path;
    if call.DecodeCall? && path !in c.entries {
      if call.outcome.Decoded? {
        var d := Admitted(c, path, call.outcome.img, call.outcome.bytes);
        EvictKeepsUsers(d);
        EvictKeepsEntries(d);
      }
    } else if call.ReleaseCall? && path in c.entries {
      assert Refcount(c, path) > 0;
      if Refcount(c, path) == 1 {
        var d := Unpinned(c, path);
        EvictKeepsUsers(d);
        EvictKeepsEntries(d);
      }
    }
  }

  lemma {:induction false} ReachableIsFaithful(maxBytes: int, dec: Decoder, calls: seq<Call>)
    requires Uses(calls, dec) && Matched(calls, dec)
    ensures Faithful(Run(maxBytes, calls), dec, calls)
    decreases |calls|
  {
    if calls != [] {
      var before, call := calls[..|calls| - 1], calls[|calls| - 1];
      PrefixIsMatched(calls, dec);
      ReachableIsFaithful(maxBytes, dec, before);
      ReachableCache(maxBytes, before);
      StepIsFaithful(Run(maxBytes, before), dec, before, call);
      assert before + [call] == calls;
    }
  }

  lemma PrefixIsMatched(calls: seq<Call>, dec: Decoder)
    requires calls != [] && Uses(calls, dec) && Matched(calls, dec)
    ensures Uses(calls[..|calls| - 1], dec) && Matched(calls[..|calls| - 1], dec)
  {
    var before := calls[..|calls| - 1];
    forall i | 0 <= i < |before| ensures before[..i] == calls[..i] {}
  }

  lemma StepSimulates(c1: Cache, c2: Cache, dec: Decoder, calls: seq<Call>, call: Call)
    requires Inv(c1) && Inv(c2) && Simulates(c1, c2)
    requires Faithful(c1, dec, calls) && Faithful(c2, dec, calls)
    requires call.DecodeCall? ==> call.outcome == dec(call.path)
    requires call.ReleaseCall? ==> MayRelease(calls, dec, call.path)
    ensures Simulates(Step(c1, call), Step(c2, call))
  {
    var path := call.path;
    if call.ReleaseCall? {
      if dec(path).Decoded? {
        assert Refcount(c1, path) > 0;
        ReleaseSimulates(c1, c2, path);
      }
    } else if path in c1.entries {
      RetainSimulates(c1, c2, path);
    } else if call.outcome.Decoded? {
      if path in c2.entries {
        MissAgainstHit(c1, c2, path, call.outcome.img, call.outcome.bytes);
      } else {
        BothMiss(c1, c2, path, call.outcome.img, call.outcome.bytes);
      }
    }
  }

  /**
   * No Belady anomaly. The same matched calls against the same decoder, under a smaller and
   * a larger budget: after every prefix (each prefix is itself such a run) both pin the same
   * paths, the smaller cache's released list is a suffix of the larger one's, and the larger
   * cache has reached the decode hook no more often.
   */
  lemma {:induction false} LargerBudgetNeverDecodesMore(b1: int, b2: int, dec: Decoder, calls: seq<Call>)
    requires BudgetAtMost(b1, b2) && Uses(calls, dec) && Matched(calls, dec)
    ensures Simulates(Run(b1, calls), Run(b2, calls))
    ensures Pinned(Run(b1, calls)) == Pinned(Run(b2, calls))
    ensures IsSuffix(Run(b1, calls).lru, Run(b2, calls).lru)
    ensures DecoderCalls(b2, calls) <= DecoderCalls(b1, calls)
    decreases |calls|
  {
    if calls != [] {
      var before, call := calls[..|calls| - 1], calls[|calls| - 1];
      PrefixIsMatched(calls, dec);
      LargerBudgetNeverDecodesMore(b1, b2, dec, before);
      ReachableCache(b1, before);
      ReachableCache(b2, before);
      ReachableIsFaithful(b1, dec, before);
      ReachableIsFaithful(b2, dec, before);
      StepSimulates(Run(b1, before), Run(b2, before), dec, before, call);
    }
  }

  // ---------------------------------------------------------------- the pairing is needed

  /** Path "a" costs two bytes, every other path one. */
  function Sizes21(path: string): DecodeResult {
    Decoded(Image([]), if path == "a" then 2 else 1)
  }

  function Get(path: string): Call {
    DecodeCall(path, Sizes21(path))
  }

  /** "a" is released a second time although nobody holds it any more. */
  const UnpairedCalls: seq<Call> :=
    [Get("a"), ReleaseCall("a"), Get("b"), ReleaseCall("b"), ReleaseCall("a"), Get("c"), Get("b")]

  function Held(bytes: nat, refcount: nat): Entry {
    Entry(Image([]), bytes, refcount)
  }

  lemma DropsHead(c: Cache, bytes: nat)
    requires c.lru != [] && c.lru[0] in c.entries && c.entries[c.lru[0]].bytes == bytes
    requires 0 < c.maxBytes < c.total && c.total - bytes <= c.maxBytes
    ensures EvictIfOver(c) == Cache(c.maxBytes, c.entries - {c.lru[0]}, c.lru[1..], c.total - bytes)
  {}

  /** One more call of a run. */
  lemma OneMoreCall(maxBytes: int, calls: seq<Call>, k: nat)
    requires k < |calls|
    ensures Run(maxBytes, calls[..k + 1]) == Step(Run(maxBytes, calls[..k]), calls[k])
    ensures
      var c := Run(maxBytes, calls[..k]);
      DecoderCalls(maxBytes, calls[..k + 1])
        == DecoderCalls(maxBytes, calls[..k]) + if calls[k].DecodeCall? && calls[k].path !in c.entries then 1 else 0
  {
    assert calls[..k + 1][..k] == calls[..k] && calls[..k + 1][k] == calls[k];
  }

  /** "a" comes and goes: at both budgets it stays resident, unpinned. */
  lemma AComesAndGoes(maxBytes: int)
    requires maxBytes == 2 || maxBytes == 3
    ensures Step(New(maxBytes), Get("a")) == Cache(maxBytes, map["a" := Held(2, 1)], [], 2)
    ensures Step(Cache(maxBytes, map["a" := Held(2, 1)], [], 2), ReleaseCall("a"))
        == Cache(maxBytes, map["a" := Held(2, 0)], ["a"], 2)
  {}

  lemma BAtTwo()
    ensures Step(Cache(2, map["a" := Held(2, 0)], ["a"], 2), Get("b")) == Cache(2, map["b" := Held(1, 1)], [], 1)
  {
    var full := Cache(2, map["a" := Held(2, 0), "b" := Held(1, 1)], ["a"], 3);
    DropsHead(full, 2);
    assert full.entries - {"a"} == map["b" := Held(1, 1)];
  }

  lemma BGoesAtTwo()
    ensures Step(Cache(2, map["b" := Held(1, 1)], [], 1), ReleaseCall("b"))
        == Cache(2, map["b" := Held(1, 0)], ["b"], 1)
    ensures Step(Cache(2, map["b" := Held(1, 0)], ["b"], 1), ReleaseCall("a"))
        == Cache(2, map["b" := Held(1, 0)], ["b"], 1)
  {}

  lemma BAtThree()
    ensures Step(Cache(3, map["a" := Held(2, 0)], ["a"], 2), Get("b"))
        == Cache(3, map["a" := Held(2, 0), "b" := Held(1, 1)], ["a"], 3)
  {}

  lemma BothGoAtThree()
    ensures Step(Cache(3, map["a" := Held(2, 0), "b" := Held(1, 1)], ["a"], 3), ReleaseCall("b"))
         == Cache(3, map["a" := Held(2, 0), "b" := Held(1, 0)], ["a", "b"], 3)
    ensures Step(Cache(3, map["a" := Held(2, 0), "b" := Held(1, 0)], ["a", "b"], 3), ReleaseCall("a"))
         == Cache(3, map["a" := Held(2, 0), "b" := Held(1, 0)], ["b", "a"], 3)
  {
    RemoveAbsent(["a"], "b");
    RemoveFirst(["a", "b"], "a", 0);
  }

  /** Five calls of the counterexample, from the five cache states they lead to. */
  lemma FiveCalls(maxBytes: int, c1: Cache, c2: Cache, c3: Cache, c4: Cache)
    requires c1 == Step(New(maxBytes), Get("a")) && c2 == Step(c1, ReleaseCall("a")) && c3 == Step(c2, Get("b"))
    requires c4 == Step(c3, ReleaseCall("b")) && "b" !in c2.entries
    ensures Run(maxBytes, UnpairedCalls[..5]) == Step(c4, ReleaseCall("a"))
    ensures DecoderCalls(maxBytes, UnpairedCalls[..5]) == 2
  {
    hide Step;
    assert Run(maxBytes, UnpairedCalls[..0]) == New(maxBytes) && DecoderCalls(maxBytes, UnpairedCalls[..0]) == 0;
    OneMoreCall(maxBytes, UnpairedCalls, 0);
    OneMoreCall(maxBytes, UnpairedCalls, 1);
    OneMoreCall(maxBytes, UnpairedCalls, 2);
    OneMoreCall(maxBytes, UnpairedCalls, 3);
    OneMoreCall(maxBytes, UnpairedCalls, 4);
  }

  lemma UnpairedAtTwo()
    ensures Run(2, UnpairedCalls[..5]) == Cache(2, map["b" := Held(1, 0)], ["b"], 1)
    ensures DecoderCalls(2, UnpairedCalls[..5]) == 2
  {
    hide Step, DecoderCalls, RunFrom;
    AComesAndGoes(2);
    BAtTwo();
    BGoesAtTwo();
    FiveCalls(2, Cache(2, map["a" := Held(2, 1)], [], 2), Cache(2, map["a" := Held(2, 0)], ["a"], 2),
              Cache(2, map["b" := Held(1, 1)], [], 1), Cache(2, map["b" := Held(1, 0)], ["b"], 1));
  }

  lemma UnpairedAtThree()
    ensures Run(3, UnpairedCalls[..5]) == Cache(3, map["a" := Held(2, 0), "b" := Held(1, 0)], ["b", "a"], 3)
    ensures DecoderCalls(3, UnpairedCalls[..5]) == 2
  {
    hide Step, DecoderCalls, RunFrom;
    AComesAndGoes(3);
    BAtThree();
    BothGoAtThree();
    FiveCalls(3, Cache(3, map["a" := Held(2, 1)], [], 2), Cache(3, map["a" := Held(2, 0)], ["a"], 2),
              Cache(3, map["a" := Held(2, 0), "b" := Held(1, 1)], ["a"], 3),
              Cache(3, map["a" := Held(2, 0), "b" := Held(1, 0)], ["a", "b"], 3));
  }

  lemma CAtTwo()
    ensures Step(Cache(2, map["b" := Held(1, 0)], ["b"], 1), Get("c"))
        == Cache(2, map["b" := Held(1, 0), "c" := Held(1, 1)], ["b"], 2)
  {}

  lemma CAtThree()
    ensures "b" !in Step(Cache(3, map["a" := Held(2, 0), "b" := Held(1, 0)], ["b", "a"], 3), Get("c")).entries
  {
    DropsHead(Cache(3, map["a" := Held(2, 0), "b" := Held(1, 0), "c" := Held(1, 1)], ["b", "a"], 4), 1);
  }

  lemma LastTwoCalls(maxBytes: int)
    ensures DecoderCalls(maxBytes, UnpairedCalls) ==
            DecoderCalls(maxBytes, UnpairedCalls[..5])
            + (if "c" !in Run(maxBytes, UnpairedCalls[..5]).entries then 1 else 0)
            + (if "b" !in Step(Run(maxBytes, UnpairedCalls[..5]), Get("c")).entries then 1 else 0)
  {
    hide Step, DecoderCalls, RunFrom;
    OneMoreCall(maxBytes, UnpairedCalls, 5);
    OneMoreCall(maxBytes, UnpairedCalls, 6);
    assert UnpairedCalls[..7] == UnpairedCalls;
  }

  /**
   * Without the pairing the larger budget can lose: the stray Release makes "a" look recently
   * used where it still is resident, so the larger cache evicts "b" and must decode it again.
   */
  lemma StrayReleaseIsAnomalous()
    ensures DecoderCalls(2, UnpairedCalls) == 3 && DecoderCalls(3, UnpairedCalls) == 4
    ensures Uses(UnpairedCalls, Sizes21) && !Matched(UnpairedCalls, Sizes21)
  {
    hide Step, DecoderCalls, RunFrom, Balance;
    UnpairedAtTwo();
    UnpairedAtThree();
    CAtTwo();
    CAtThree();
    LastTwoCalls(2);
    LastTwoCalls(3);
    StrayRelease();
  }

  lemma StrayRelease()
    ensures !Matched(UnpairedCalls, Sizes21)
  {
    var calls := UnpairedCalls;
    assert calls[..4][..3] == calls[..3] && calls[..3][..2] == calls[..2] && calls[..2][..1] == calls[..1]
        && calls[..1][..0] == [];
    assert Balance(calls[..1], "a") == 1;
    assert Balance(calls[..2], "a") == 0;
    assert Balance(calls[..4], "a") == 0;
    assert !MayRelease(calls[..4], Sizes21, "a");
  }
}
