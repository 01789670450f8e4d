/**
 * The thumbnail cache (internal/media/cache.go) as values: what each call does to the
 * resident entries, the list of evictable paths and the byte total, and what every run
 * of calls keeps.
 */
module Media {
  import opened Prelude

  datatype Image = Image(pixels: seq<nat>)

  /** What the decode hook returns: an image and its decoded cost, or an error. */
  datatype DecodeResult = Decoded(img: Image, bytes: nat) | Unreadable(reason: string)

  type Decoder = string -> DecodeResult

  datatype Entry = Entry(img: Image, bytes: nat, refcount: nat)

  /** `lru` holds the released paths, oldest first; a budget of zero or less never evicts. */
  datatype Cache = Cache(maxBytes: int, entries: map<string, Entry>, lru: seq<string>, total: int)

  // ---------------------------------------------------------------- the operations

  function New(maxBytes: int): Cache {
    Cache(maxBytes, map[], [], 0)
  }

  function RemoveFromLRU(lru: seq<string>, path: string): seq<string> {
    if lru == [] then []
    else if lru[0] == path then lru[1..]
    else [lru[0]] + RemoveFromLRU(lru[1..], path)
  }

  function DropEntry(c: Cache, victim: string): Cache {
    if victim in c.entries
    then c.(entries := c.entries - {victim}, total := c.total - c.entries[victim].bytes)
    else c
  }

  function EvictIfOver(c: Cache): Cache
    decreases |c.lru|
  {
    if c.maxBytes <= 0 || c.total <= c.maxBytes || c.lru == [] then c
    else EvictIfOver(DropEntry(c.(lru := c.lru[1..]), c.lru[0]))
  }

  function Retain(c: Cache, path: string): Cache
    requires path in c.entries
  {
    var e := c.entries[path];
    c.(entries := c.entries[path := e.(refcount := e.refcount + 1)], lru := RemoveFromLRU(c.lru, path))
  }

  function Admit(c: Cache, path: string, img: Image, bytes: nat): Cache {
    EvictIfOver(c.(entries := c.entries[path := Entry(img, bytes, 1)], total := c.total + bytes))
  }

  /** `outcome` is what the decode hook returns if the call reaches it. */
  function Decode(c: Cache, path: string, outcome: DecodeResult): Cache {
    if path in c.entries then Retain(c, path)
    else match outcome
      case Unreadable(_) => c
      case Decoded(img, bytes) => Admit(c, path, img, bytes)
  }

  function Release(c: Cache, path: string): Cache {
    if path !in c.entries then c
    else
      var e := c.entries[path];
      var count := if e.refcount > 0 then e.refcount - 1 else e.refcount;
      var c1 := c.(entries := c.entries[path := e.(refcount := count)]);
      if count == 0 then EvictIfOver(c1.(lru := RemoveFromLRU(c.lru, path) + [path])) else c1
  }

  // ---------------------------------------------------------------- the invariant

  function Sizes(entries: map<string, Entry>): map<string, nat> {
    map p | p in entries :: entries[p].bytes
  }

  ghost predicate Accounted(c: Cache) {
    && c.total == Sum(Sizes(c.entries))
    && Distinct(c.lru)
    && forall p :: p in c.lru <==> p in c.entries && c.entries[p].refcount == 0
  }

  predicate WithinBudget(c: Cache) {
    c.maxBytes <= 0 || c.total <= c.maxBytes || c.lru == []
  }

  /** What holds between any two calls. */
  ghost predicate Inv(c: Cache) {
    Accounted(c) && WithinBudget(c)
  }

  /** The bytes held by the listed entries. */
  function SeqBytes(entries: map<string, Entry>, paths: seq<string>): nat {
    if paths == [] then 0
    else (if paths[0] in entries then entries[paths[0]].bytes else 0) + SeqBytes(entries, paths[1..])
  }

  lemma {:induction false} RemoveFirst(lru: seq<string>, path: string, k: int)
    requires 0 <= k < |lru| && lru[k] == path && path !in lru[..k]
    ensures RemoveFromLRU(lru, path) == lru[..k] + lru[k + 1..]
    decreases k
  {
    if k > 0 {
      assert lru[0] in lru[..k];
      assert lru[1..][..k - 1] == lru[..k][1..];
      RemoveFirst(lru[1..], path, k - 1);
    }
  }

  lemma {:induction false} RemoveAbsent(lru: seq<string>, path: string)
    requires path !in lru
    ensures RemoveFromLRU(lru, path) == lru
  {
    if lru != [] {
      RemoveAbsent(lru[1..], path);
    }
  }

  lemma RemoveFromLRUAt(lru: seq<string>, path: string)
    ensures path !in lru ==> RemoveFromLRU(lru, path) == lru
    ensures forall k :: 0 <= k < |lru| && lru[k] == path && path !in lru[..k]
              ==> RemoveFromLRU(lru, path) == lru[..k] + lru[k + 1..]
  {
    if path !in lru {
      RemoveAbsent(lru, path);
    }
    forall k | 0 <= k < |lru| && lru[k] == path && path !in lru[..k]
      ensures RemoveFromLRU(lru, path) == lru[..k] + lru[k + 1..]
    {
      RemoveFirst(lru, path, k);
    }
  }

  /** Taking a path out of a duplicate-free list leaves the other paths in their order. */
  lemma RemoveFromLRUMeaning(lru: seq<string>, path: string)
    requires Distinct(lru)
    ensures Distinct(RemoveFromLRU(lru, path))
    ensures forall p :: p in RemoveFromLRU(lru, path) <==> p in lru && p != path
  {
    hide RemoveFromLRU;
    if path in lru {
      var k :| 0 <= k < |lru| && lru[k] == path;
      assert path !in lru[..k];
      RemoveFirst(lru, path, k);
      SpliceMeaning(lru, k);
    } else {
      RemoveAbsent(lru, path);
    }
  }

  lemma SpliceMeaning(lru: seq<string>, k: int)
    requires Distinct(lru) && 0 <= k < |lru|
    ensures Distinct(lru[..k] + lru[k + 1..])
    ensures forall p :: p in lru[..k] + lru[k + 1..] <==> p in lru && p != lru[k]
  {
    var r := lru[..k] + lru[k + 1..];
    forall p | p in lru && p != lru[k] ensures p in r {
      var i :| 0 <= i < |lru| && lru[i] == p;
      assert r[if i < k then i else i - 1] == p;
    }
  }

  lemma DropSizes(c: Cache, victim: string)
    requires victim in c.entries && c.total == Sum(Sizes(c.entries))
    ensures DropEntry(c, victim).total == Sum(Sizes(DropEntry(c, victim).entries))
  {
    SumRemove(Sizes(c.entries), victim);
    assert Sizes(c.entries) - {victim} == Sizes(c.entries - {victim});
  }

  lemma {:induction false} EvictKeepsAccounts(c: Cache)
    requires Accounted(c)
    ensures Inv(EvictIfOver(c))
    decreases |c.lru|
  {
    if !WithinBudget(c) {
      var e := AfterOne(c);
      EvictKeepsAccounts(e);
    }
  }

  lemma {:induction false} SeqBytesFrame(a: map<string, Entry>, b: map<string, Entry>, paths: seq<string>)
    requires forall p :: p in paths ==> p in a && p in b && a[p].bytes == b[p].bytes
    ensures SeqBytes(a, paths) == SeqBytes(b, paths)
  {
    if paths != [] {
      SeqBytesFrame(a, b, paths[1..]);
    }
  }

  /** How many paths an eviction pass takes off the front of the released list. */
  function Evicted(c: Cache): int {
    |c.lru| - |EvictIfOver(c).lru|
  }

  function WithoutAll(entries: map<string, Entry>, paths: seq<string>): map<string, Entry> {
    if paths == [] then entries else WithoutAll(entries - {paths[0]}, paths[1..])
  }

  lemma {:induction false} WithoutAllMeaning(entries: map<string, Entry>, paths: seq<string>)
    ensures forall p :: p in WithoutAll(entries, paths) <==> p in entries && p !in paths
    ensures forall p :: p in WithoutAll(entries, paths) ==> WithoutAll(entries, paths)[p] == entries[p]
    decreases |paths|
  {
    if paths != [] {
      WithoutAllMeaning(entries - {paths[0]}, paths[1..]);
      assert forall p :: p in paths <==> p == paths[0] || p in paths[1..];
    }
  }

  /** What goes is a prefix of the released list, with its entries. */
  lemma {:induction false} EvictDropsPrefix(c: Cache)
    requires Accounted(c)
    ensures 0 <= Evicted(c) <= |c.lru|
    ensures EvictIfOver(c).lru == c.lru[Evicted(c)..]
    ensures EvictIfOver(c).entries == WithoutAll(c.entries, c.lru[..Evicted(c)])
    decreases |c.lru|
  {
    hide Accounted;
    if !WithinBudget(c) {
      var e := AfterOne(c);
      EvictDropsPrefix(e);
      var k := Evicted(e);
      assert Evicted(c) == k + 1;
      hide EvictIfOver, WithinBudget, WithoutAll;
      WithoutOneMore(c.entries, c.lru, k);
    }
  }

  lemma WithoutOneMore(entries: map<string, Entry>, lru: seq<string>, k: int)
    requires 0 <= k < |lru|
    ensures WithoutAll(entries, lru[..k + 1]) == WithoutAll(entries - {lru[0]}, lru[1..][..k])
    ensures lru[1..][k..] == lru[k + 1..]
  {
    assert lru[..k + 1][1..] == lru[1..][..k];
  }

  /** The cache after one round of the eviction loop. */
  lemma AfterOne(c: Cache) returns (e: Cache)
    requires Accounted(c) && !WithinBudget(c)
    ensures e == DropEntry(c.(lru := c.lru[1..]), c.lru[0])
    ensures Accounted(e) && EvictIfOver(e) == EvictIfOver(c)
    ensures e.maxBytes == c.maxBytes && e.lru == c.lru[1..]
    ensures e.entries == c.entries - {c.lru[0]} && e.total == c.total - c.entries[c.lru[0]].bytes
  {
    var d := c.(lru := c.lru[1..]);
    e := DropEntry(d, c.lru[0]);
    DropSizes(d, c.lru[0]);
    forall p ensures p in d.lru <==> p in c.lru && p != c.lru[0] {}
  }

  lemma OneRoundBytes(c: Cache, e: Cache, j: int)
    requires Accounted(c) && c.lru != [] && e.lru == c.lru[1..] && e.entries == c.entries - {c.lru[0]}
    requires 0 <= j <= |e.lru|
    ensures SeqBytes(c.entries, c.lru[..j + 1]) == c.entries[c.lru[0]].bytes + SeqBytes(e.entries, e.lru[..j])
  {
    assert c.lru[..j + 1][1..] == e.lru[..j];
    SeqBytesFrame(c.entries, e.entries, e.lru[..j]);
  }

  /** The number evicted is the least that brings the total under the budget, or all. */
  lemma {:induction false} EvictIsLeast(c: Cache)
    requires Accounted(c)
    ensures 0 <= Evicted(c) <= |c.lru|
    ensures EvictIfOver(c).total == c.total - SeqBytes(c.entries, c.lru[..Evicted(c)])
    ensures forall j :: 0 <= j < Evicted(c) ==> 0 < c.maxBytes < c.total - SeqBytes(c.entries, c.lru[..j])
    ensures 0 < c.maxBytes && Evicted(c) < |c.lru| ==> EvictIfOver(c).total <= c.maxBytes
    decreases |c.lru|
  {
    hide Accounted;
    if WithinBudget(c) {
      assert c.lru[..0] == [];
    } else {
      var e := AfterOne(c);
      EvictIsLeast(e);
      var k := Evicted(e);
      assert Evicted(c) == k + 1;
      hide EvictIfOver, SeqBytes;
      OneRoundBytes(c, e, k);
      forall j | 0 <= j < k + 1 ensures 0 < c.maxBytes < c.total - SeqBytes(c.entries, c.lru[..j]) {
        if j == 0 {
          NoBytes(c);
        } else {
          OneRoundBytes(c, e, j - 1);
        }
      }
    }
  }

  lemma NoBytes(c: Cache)
    ensures SeqBytes(c.entries, c.lru[..0]) == 0
  {
    assert c.lru[..0] == [];
  }

  /**
   * Eviction removes exactly the shortest prefix of the released list whose removal brings
   * the total within the budget (the whole list if none does), and never a pinned entry.
   */
  lemma EvictionOrder(c: Cache)
    requires Accounted(c)
    ensures
      var k, r := Evicted(c), EvictIfOver(c);
      && 0 <= k <= |c.lru|
      && r.lru == c.lru[k..]
      && (forall p :: p in r.entries <==> p in c.entries && p !in c.lru[..k])
      && (forall p :: p in c.entries && c.entries[p].refcount > 0 ==> p in r.entries && r.entries[p] == c.entries[p])
      && (k < |c.lru| ==> c.maxBytes <= 0 || c.total - SeqBytes(c.entries, c.lru[..k]) <= c.maxBytes)
      && (forall j :: 0 <= j < k ==> 0 < c.maxBytes < c.total - SeqBytes(c.entries, c.lru[..j]))
  {
    EvictDropsPrefix(c);
    WithoutAllMeaning(c.entries, c.lru[..Evicted(c)]);
    EvictIsLeast(c);
    forall p | p in c.entries && c.entries[p].refcount > 0 ensures p !in c.lru[..Evicted(c)] {
      assert p !in c.lru;
    }
  }

  /** Eviction changes no entry it leaves. */
  lemma EvictKeepsEntries(c: Cache)
    requires Accounted(c)
    ensures forall p :: p in EvictIfOver(c).entries ==> p in c.entries && EvictIfOver(c).entries[p] == c.entries[p]
  {
    EvictDropsPrefix(c);
    WithoutAllMeaning(c.entries, c.lru[..Evicted(c)]);
  }

  lemma SetCount(c: Cache, path: string, count: nat)
    requires path in c.entries
    ensures Sizes(c.entries[path := c.entries[path].(refcount := count)]) == Sizes(c.entries)
  {}

  lemma RetainKeepsInv(c: Cache, path: string)
    requires Inv(c) && path in c.entries
    ensures Inv(Retain(c, path))
  {
    SetCount(c, path, c.entries[path].refcount + 1);
    RemoveFromLRUMeaning(c.lru, path);
    RemoveFromLRUAt(c.lru, path);
  }

  /** The cache Admit hands to the eviction loop. */
  lemma Admitted(c: Cache, path: string, img: Image, bytes: nat) returns (d: Cache)
    requires Inv(c) && path !in c.entries
    ensures d == c.(entries := c.entries[path := Entry(img, bytes, 1)], total := c.total + bytes)
    ensures Accounted(d) && Admit(c, path, img, bytes) == EvictIfOver(d)
  {
    d := c.(entries := c.entries[path := Entry(img, bytes, 1)], total := c.total + bytes);
    AdmittedSum(c.entries, path, d.entries[path]);
    hide Sizes, EvictIfOver, Distinct;
  }

  lemma AdmittedSum(entries: map<string, Entry>, path: string, e: Entry)
    requires path !in entries
    ensures Sum(Sizes(entries[path := e])) == Sum(Sizes(entries)) + e.bytes
  {
    SumInsert(Sizes(entries), path, e.bytes);
    assert Sizes(entries[path := e]) == Sizes(entries)[path := e.bytes];
  }

  /** The cache a Release that drops the last user hands to the eviction loop. */
  lemma Unpinned(c: Cache, path: string) returns (d: Cache)
    requires Inv(c) && path in c.entries && c.entries[path].refcount <= 1
    ensures d == c.(entries := c.entries[path := c.entries[path].(refcount := 0)],
        lru := RemoveFromLRU(c.lru, path) + [path])
    ensures Accounted(d) && Release(c, path) == EvictIfOver(d)
  {
    var r := RemoveFromLRU(c.lru, path);
    d := c.(entries := c.entries[path := c.entries[path].(refcount := 0)], lru := r + [path]);
    SetCount(c, path, 0);
    RemoveFromLRUMeaning(c.lru, path);
    forall p ensures p in d.lru <==> p in r || p == path {}
  }

  lemma DecodeKeepsInv(c: Cache, path: string, outcome: DecodeResult)
    requires Inv(c)
    ensures Inv(Decode(c, path, outcome))
  {
    if path in c.entries {
      RetainKeepsInv(c, path);
    } else if outcome.Decoded? {
      var d := Admitted(c, path, outcome.img, outcome.bytes);
      EvictKeepsAccounts(d);
    }
  }

  /** A successful decode leaves the path resident and pinned, even if others were evicted. */
  lemma DecodedIsPinned(c: Cache, path: string, outcome: DecodeResult)
    requires Inv(c) && (path in c.entries || outcome.Decoded?)
    ensures
      var r := Decode(c, path, outcome);
      && path in r.entries && r.entries[path].refcount > 0
      && r.entries[path].img == (if path in c.entries then c.entries[path].img else outcome.img)
  {
    if path !in c.entries {
      var d := Admitted(c, path, outcome.img, outcome.bytes);
      EvictionOrder(d);
    }
  }

  lemma ReleaseKeepsInv(c: Cache, path: string)
    requires Inv(c)
    ensures Inv(Release(c, path))
  {
    if path in c.entries {
      if c.entries[path].refcount <= 1 {
        var d := Unpinned(c, path);
        EvictKeepsAccounts(d);
      } else {
        SetCount(c, path, c.entries[path].refcount - 1);
      }
    }
  }

  // ---------------------------------------------------------------- whole runs

  datatype Call = DecodeCall(path: string, outcome: DecodeResult) | ReleaseCall(path: string)

  function Step(c: Cache, call: Call): Cache {
    match call
    case DecodeCall(path, outcome) => Decode(c, path, outcome)
    case ReleaseCall(path) => Release(c, path)
  }

  function RunFrom(c: Cache, calls: seq<Call>): Cache {
    if calls == [] then c else Step(RunFrom(c, calls[..|calls| - 1]), calls[|calls| - 1])
  }

  function Run(maxBytes: int, calls: seq<Call>): Cache {
    RunFrom(New(maxBytes), calls)
  }

  lemma {:induction false} RunFromSplit(c: Cache, a: seq<Call>, b: seq<Call>)
    ensures RunFrom(c, a + b) == RunFrom(RunFrom(c, a), b)
    decreases |b|
  {
    if b == [] {
      assert a + b == a;
    } else {
      var n := |b| - 1;
      assert (a + b)[..|a| + n] == a + b[..n];
      RunFromSplit(c, a, b[..n]);
    }
  }

  /** The position of the last Release of `path` in the run, -1 if there was none. */
  function LastRelease(calls: seq<Call>, path: string): (i: int)
    ensures -1 <= i < |calls|
  {
    if calls == [] then -1
    else if calls[|calls| - 1] == ReleaseCall(path) then |calls| - 1
    else LastRelease(calls[..|calls| - 1], path)
  }

  lemma LastReleaseStep(calls: seq<Call>, call: Call, path: string)
    ensures LastRelease(calls + [call], path)
         == if call == ReleaseCall(path) then |calls| else LastRelease(calls, path)
  {
    assert (calls + [call])[..|calls|] == calls;
  }

  ghost predicate InReleaseOrder(calls: seq<Call>, lru: seq<string>) {
    && (forall i :: 0 <= i < |lru| ==> 0 <= LastRelease(calls, lru[i]))
    && (forall i, j :: 0 <= i < j < |lru| ==> LastRelease(calls, lru[i]) < LastRelease(calls, lru[j]))
  }

  lemma StepKeepsInv(c: Cache, call: Call)
    requires Inv(c)
    ensures Inv(Step(c, call))
  {
    match call
    case DecodeCall(path, outcome) => DecodeKeepsInv(c, path, outcome);
    case ReleaseCall(path) => ReleaseKeepsInv(c, path);
  }

  /** Removing a path from the released list keeps the order, whatever the next call is. */
  lemma RemovalKeepsOrder(calls: seq<Call>, call: Call, lru: seq<string>)
    requires Distinct(lru) && InReleaseOrder(calls, lru)
    ensures InReleaseOrder(calls + [call], RemoveFromLRU(lru, call.path))
  {
    var r := RemoveFromLRU(lru, call.path);
    RemoveFromLRUAt(lru, call.path);
    RemoveFromLRUMeaning(lru, call.path);
    if call.path in lru {
      var k :| 0 <= k < |lru| && lru[k] == call.path;
      assert call.path !in lru[..k];
      SpliceKeepsOrder(calls, lru, k);
    }
    OtherPathsKeepOrder(calls, call, r);
  }

  lemma SpliceKeepsOrder(calls: seq<Call>, lru: seq<string>, k: int)
    requires InReleaseOrder(calls, lru) && 0 <= k < |lru|
    ensures InReleaseOrder(calls, lru[..k] + lru[k + 1..])
  {}

  lemma OtherPathsKeepOrder(calls: seq<Call>, call: Call, lru: seq<string>)
    requires InReleaseOrder(calls, lru) && call.path !in lru
    ensures InReleaseOrder(calls + [call], lru)
  {
    forall i | 0 <= i < |lru| ensures LastRelease(calls + [call], lru[i]) == LastRelease(calls, lru[i]) {
      LastReleaseStep(calls, call, lru[i]);
    }
  }

  lemma SuffixKeepsOrder(calls: seq<Call>, lru: seq<string>, k: int)
    requires InReleaseOrder(calls, lru) && 0 <= k <= |lru|
    ensures InReleaseOrder(calls, lru[k..])
  {}

  lemma AppendKeepsOrder(calls: seq<Call>, call: Call, lru: seq<string>)
    requires call.ReleaseCall? && call.path !in lru && InReleaseOrder(calls + [call], lru)
    ensures InReleaseOrder(calls + [call], lru + [call.path])
  {
    LastReleaseStep(calls, call, call.path);
    forall p | p in lru ensures LastRelease(calls + [call], p) < |calls| {
      LastReleaseStep(calls, call, p);
    }
  }

  /** One call keeps the released list in order of last Release. */
  lemma StepKeepsOrder(calls: seq<Call>, call: Call, c: Cache)
    requires Inv(c) && InReleaseOrder(calls, c.lru)
    ensures InReleaseOrder(calls + [call], Step(c, call).lru)
  {
    var after := calls + [call];
    RemovalKeepsOrder(calls, call, c.lru);
    RemoveFromLRUAt(c.lru, call.path);
    if call.path !in c.entries {
      assert call.path !in c.lru;
      if call.DecodeCall? && call.outcome.Decoded? {
        var d := Admitted(c, call.path, call.outcome.img, call.outcome.bytes);
        EvictDropsPrefix(d);
        SuffixKeepsOrder(after, d.lru, Evicted(d));
      }
    } else if call.ReleaseCall? {
      if c.entries[call.path].refcount <= 1 {
        var d := Unpinned(c, call.path);
        RemoveFromLRUMeaning(c.lru, call.path);
        LastReleaseStep(calls, call, call.path);
        AppendKeepsOrder(calls, call, RemoveFromLRU(c.lru, call.path));
        EvictDropsPrefix(d);
        SuffixKeepsOrder(after, d.lru, Evicted(d));
      } else {
        assert call.path !in c.lru;
      }
    }
  }

  /**
   * In every reachable state the total is the sum of the resident sizes, the released list
   * is duplicate-free and holds exactly the entries with no user, in order of last Release,
   * and a positive budget is exceeded only when nothing can be evicted. The decode hook is
   * arbitrary: it may answer the same path differently each time.
   */
  lemma {:induction false} ReachableCache(maxBytes: int, calls: seq<Call>)
    ensures Inv(Run(maxBytes, calls))
    ensures Run(maxBytes, calls).maxBytes == maxBytes
    ensures InReleaseOrder(calls, Run(maxBytes, calls).lru)
    decreases |calls|
  {
    if calls != [] {
      var before, call := calls[..|calls| - 1], calls[|calls| - 1];
      assert calls == before + [call];
      ReachableCache(maxBytes, before);
      StepKeepsInv(Run(maxBytes, before), call);
      StepKeepsOrder(before, call, Run(maxBytes, before));
      BudgetIsFixed(Run(maxBytes, before), call);
    }
  }

  lemma {:induction false} EvictKeepsBudget(c: Cache)
    ensures EvictIfOver(c).maxBytes == c.maxBytes
    decreases |c.lru|
  {
    if !WithinBudget(c) {
      EvictKeepsBudget(DropEntry(c.(lru := c.lru[1..]), c.lru[0]));
    }
  }

  lemma BudgetIsFixed(c: Cache, call: Call)
    ensures Step(c, call).maxBytes == c.maxBytes
  {
    match call
    case DecodeCall(path, outcome) =>
      if path !in c.entries && outcome.Decoded? {
        EvictKeepsBudget(c.(entries := c.entries[path := Entry(outcome.img, outcome.bytes, 1)],
                            total := c.total + outcome.bytes));
      }
    case ReleaseCall(path) =>
      if path in c.entries {
        var e := c.entries[path];
        EvictKeepsBudget(c.(entries := c.entries[path := e.(refcount := 0)],
                            lru := RemoveFromLRU(c.lru, path) + [path]));
      }
  }
}
