/** The reactions table as a mutable object, and the summary as the loop the bubble runs. */
module ReactionTables {
  import opened Prelude
  import opened Reactions

  class ReactionTable {
    var table: Table

    ghost predicate Valid()
      reads this
    {
      WellKeyed(table)
    }

    constructor ()
      ensures table == map[] && Valid()
    {
      table := map[];
    }

    method SetReaction(target: string, sender: string, emoji: string, ts: int) returns (r: Result<()>)
      requires Valid()
      modifies this
      ensures Valid()
      ensures r.Ok? <==> target != "" && sender != ""
      ensures table == Set(old(table), Reaction(target, sender, emoji, ts))
    {
      if target == "" || sender == "" {
        return Err("target and sender required");
      }
      if emoji == "" {
        table := table - {Key(target, sender)};
        return Ok(());
      }
      table := table[Key(target, sender) := Reaction(target, sender, emoji, ts)];
      return Ok(());
    }

    /** Every reaction on a message, oldest first. */
    method ListReactions(target: string) returns (r: Result<seq<Reaction>>)
      requires Valid()
      ensures r.Ok? <==> target != ""
      ensures r.Ok? ==> IsListing(r.value, table, target)
      ensures r.Ok? ==> forall i, j :: 0 <= i < j < |r.value| ==> r.value[i].ts <= r.value[j].ts
    {
      if target == "" {
        return Err("targetWAID required");
      }
      var out: seq<Reaction> := [];
      var all := set k | k in table && k.target == target;
      var rest := all;
      while rest != {}
        invariant rest <= all && Distinct(out)
        invariant forall x :: x in out <==>
                    Key(x.target, x.sender) in all - rest && table[Key(x.target, x.sender)] == x
        invariant forall i, k :: 0 <= i < |out| && k in rest ==> out[i].ts <= table[k].ts
        invariant forall i, j :: 0 <= i < j < |out| ==> out[i].ts <= out[j].ts
        decreases rest
      {
        OldestExists(table, rest);
        var k :| k in rest && IsOldest(table, rest, k);
        out := out + [table[k]];
        rest := rest - {k};
      }
      return Ok(out);
    }
  }

  predicate IsOldest(table: Table, keys: set<Key>, k: Key)
    requires keys <= table.Keys && k in keys
  {
    forall j :: j in keys ==> table[k].ts <= table[j].ts
  }

  lemma OldestExists(table: Table, keys: set<Key>)
    requires keys != {} && keys <= table.Keys
    ensures exists k :: k in keys && IsOldest(table, keys, k)
    decreases |keys|
  {
    var x :| x in keys;
    if keys == {x} {
      assert IsOldest(table, keys, x);
    } else {
      OldestExists(table, keys - {x});
      var k :| k in keys - {x} && IsOldest(table, keys - {x}, k);
      var m := if table[x].ts <= table[k].ts then x else k;
      assert IsOldest(table, keys, m);
    }
  }

  /** How many reactions of each emoji, most frequent first, whatever order the map is walked in. */
  method SummarizeReactions(rs: seq<Reaction>) returns (out: seq<Tally>)
    ensures IsSummary(out, rs)
    ensures forall i, j :: 0 <= i < j < |out| ==>
              out[i].count > out[j].count || (out[i].count == out[j].count && ComesFirst(out[i].emoji, out[j].emoji))
  {
    var counts: map<string, nat> := map[];
    for i := 0 to |rs|
      invariant forall e :: e in counts <==> e != "" && Count(rs[..i], e) > 0
      invariant forall e :: e in counts ==> counts[e] == Count(rs[..i], e)
    {
      assert rs[..i + 1][..i] == rs[..i];
      var emoji := rs[i].emoji;
      if emoji == "" {
        continue;
      }
      counts := counts[emoji := (if emoji in counts then counts[emoji] else 0) + 1];
    }
    assert rs[..|rs|] == rs;
    var list: seq<Tally> := [];
    var rest := counts.Keys;
    while rest != {}
      invariant rest <= counts.Keys && Distinct(list)
      invariant forall t :: t in list <==> t.emoji in counts.Keys - rest && t.count == counts[t.emoji]
      decreases rest
    {
      var e :| e in rest;
      list := list + [Tally(e, counts[e])];
      rest := rest - {e};
    }
    SortRanks(list);
    out := Sort(list);
    SummaryOrder(out, rs);
  }
}
