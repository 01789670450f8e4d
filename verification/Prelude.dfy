/** Small vocabulary shared by every module: results, options, enumerations and sums. */
module Prelude {

  datatype Option<+T> = None | Some(value: T)

  datatype Result<+T> = Ok(value: T) | Err(error: string)

  function Max(a: int, b: int): int {
    if a >= b then a else b
  }

  function Min(a: int, b: int): int {
    if a <= b then a else b
  }

  ghost predicate Distinct<T>(s: seq<T>) {
    forall i, j :: 0 <= i < j < |s| ==> s[i] != s[j]
  }

  lemma HeadIsMember<T>(s: seq<T>)
    ensures s == [] || s[0] in s
  {}

  /** `order` lists the members of `s`, each once: one possible iteration of a Go map. */
  ghost predicate Enumerates<T(!new)>(order: seq<T>, s: set<T>) {
    Distinct(order) && forall x :: x in order <==> x in s
  }

  lemma EnumerationLength<T(!new)>(order: seq<T>, s: set<T>)
    requires Enumerates(order, s)
    ensures |order| == |s|
  {
    if order == [] {
      assert s == {};
    } else {
      var rest := order[1..];
      forall x ensures x in rest <==> x in s - {order[0]} {
        assert x in order <==> x == order[0] || x in rest;
      }
      EnumerationLength(rest, s - {order[0]});
    }
  }

  /** The sum of the values of a map. */
  ghost function Sum(m: map<string, nat>): nat {
    if m == map[] then 0 else var k :| k in m; m[k] + Sum(m - {k})
  }

  /** The sum does not depend on the key that is taken out first. */
  lemma {:induction false} SumRemove(m: map<string, nat>, k: string)
    requires k in m
    ensures Sum(m) == m[k] + Sum(m - {k})
    decreases |m|
  {
    var p :| p in m && Sum(m) == m[p] + Sum(m - {p});
    if p != k {
      assert |m - {p}| < |m| && |m - {k}| < |m| by {
        assert (m - {p}).Keys == m.Keys - {p} && (m - {k}).Keys == m.Keys - {k};
      }
      SumRemove(m - {p}, k);
      SumRemove(m - {k}, p);
      assert m - {p} - {k} == m - {k} - {p};
    }
  }

  lemma SumInsert(m: map<string, nat>, k: string, v: nat)
    requires k !in m
    ensures Sum(m[k := v]) == Sum(m) + v
  {
    SumRemove(m[k := v], k);
    assert m[k := v] - {k} == m;
  }

  lemma {:induction false} SumMonotone(small: map<string, nat>, large: map<string, nat>)
    requires forall k :: k in small ==> k in large && small[k] <= large[k]
    ensures Sum(small) <= Sum(large)
    decreases |small|
  {
    if small != map[] {
      var k :| k in small;
      SumRemove(small, k);
      SumRemove(large, k);
      assert (small - {k}).Keys == small.Keys - {k};
      SumMonotone(small - {k}, large - {k});
    }
  }
}
