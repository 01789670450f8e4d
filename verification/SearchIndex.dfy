/** The full-text index (internal/store/schema.sql) agrees with the messages table. */
module SearchIndex {
  import opened Prelude
  import opened Tables

  /** The postings an index built from scratch over the current bodies would hold. */
  function Rebuild(tok: Tokenizer, rows: seq<Message>): multiset<Posting> {
    if rows == [] then multiset{}
    else
      var last := rows[|rows| - 1];
      Rebuild(tok, rows[..|rows| - 1]) + Tokens(tok, last.id, last.body)
  }

  ghost predicate Agrees(tok: Tokenizer, db: DB) {
    db.postings == Rebuild(tok, db.rows)
  }

  lemma {:induction false} RebuildReplace(tok: Tokenizer, rows: seq<Message>, i: int, row: Message)
    requires 0 <= i < |rows|
    ensures Tokens(tok, rows[i].id, rows[i].body) <= Rebuild(tok, rows)
    ensures Rebuild(tok, rows[i := row])
         == Rebuild(tok, rows) - Tokens(tok, rows[i].id, rows[i].body) + Tokens(tok, row.id, row.body)
    decreases |rows|
  {
    hide Tokens;
    var n := |rows| - 1;
    var rest, last := Rebuild(tok, rows[..n]), Tokens(tok, rows[n].id, rows[n].body);
    if i == n {
      assert rows[i := row][..n] == rows[..n];
      Exchange(last, last, multiset{}, rest);
      assert rest + last - last == rest;
    } else {
      assert rows[i := row][..n] == rows[..n][i := row];
      RebuildReplace(tok, rows[..n], i, row);
      Exchange(rest, Tokens(tok, rows[i].id, rows[i].body), Tokens(tok, row.id, row.body), last);
    }
  }

  lemma Exchange(all: multiset<Posting>, removed: multiset<Posting>, added: multiset<Posting>,
      more: multiset<Posting>)
    requires removed <= all
    ensures removed <= all + more
    ensures all - removed + added + more == all + more - removed + added
  {}

  lemma InsertRowAgrees(tok: Tokenizer, db: DB, m: Message)
    requires Agrees(tok, db)
    ensures Agrees(tok, InsertRow(tok, db, m))
  {
    if !Has(db.rows, m.waID) {
      var rows := InsertRow(tok, db, m).rows;
      assert rows[..|rows| - 1] == db.rows;
    }
  }

  lemma InsertedAgrees(tok: Tokenizer, db: DB, m: Message, bump: bool)
    requires Agrees(tok, db)
    ensures Agrees(tok, Inserted(tok, db, m, bump))
  {
    InsertRowAgrees(tok, db, m);
  }

  /** The update trigger deletes exactly what was indexed, so no stale posting stays behind. */
  lemma UpdateRowAgrees(tok: Tokenizer, db: DB, waID: string, change: Change)
    requires Agrees(tok, db)
    ensures Agrees(tok, UpdateRow(tok, db, waID, change))
  {
    if Has(db.rows, waID) {
      var i := IndexOf(db.rows, waID);
      RebuildReplace(tok, db.rows, i, Changed(db.rows[i], change));
    }
  }

  lemma {:induction false} InsertEachAgrees(tok: Tokenizer, db: DB, msgs: seq<Message>)
    requires Agrees(tok, db)
    ensures Agrees(tok, InsertEach(tok, db, msgs))
  {
    if msgs != [] {
      InsertEachAgrees(tok, db, msgs[..|msgs| - 1]);
      InsertRowAgrees(tok, InsertEach(tok, db, msgs[..|msgs| - 1]), msgs[|msgs| - 1]);
    }
  }

  lemma ApplyAgrees(tok: Tokenizer, db: DB, op: StoreOp)
    requires Agrees(tok, db)
    ensures Agrees(tok, Apply(tok, db, op))
  {
    match op
    case DoInsert(m, _) => InsertRowAgrees(tok, db, m);
    case DoInsertBatch(msgs) => InsertEachAgrees(tok, db, msgs);
    case DoUpdate(waID, change) => UpdateRowAgrees(tok, db, waID, change);
    case DoUpsertChat(_, _) =>
    case DoMarkRead(_) =>
  }

  /** After any run on a fresh database the triggers have kept the index exact. */
  lemma {:induction false} IndexStaysExact(tok: Tokenizer, ops: seq<StoreOp>)
    ensures Agrees(tok, ApplyAll(tok, Empty(), ops))
  {
    if ops != [] {
      IndexStaysExact(tok, ops[..|ops| - 1]);
      ApplyAgrees(tok, ApplyAll(tok, Empty(), ops[..|ops| - 1]), ops[|ops| - 1]);
    }
  }

  // ---------------------------------------------------------------- what a search finds

  /** The index lists the row for the token. */
  ghost predicate Finds(postings: multiset<Posting>, token: string, rowid: int) {
    exists k: nat :: Posting(token, rowid, k) in postings
  }

  lemma {:induction false} RebuildMeaning(tok: Tokenizer, rows: seq<Message>, p: Posting)
    ensures p in Rebuild(tok, rows) <==>
            exists i :: 0 <= i < |rows| && rows[i].id == p.rowid && OccursAt(tok, rows[i].body, p.token, p.position)
  {
    hide Tokens, OccursAt;
    if rows != [] {
      var n, last := |rows| - 1, rows[|rows| - 1];
      RebuildMeaning(tok, rows[..n], p);
      TokensMeaning(tok, last.id, last.body, p);
      if p in Rebuild(tok, rows[..n]) {
        var i :| 0 <= i < n && rows[..n][i].id == p.rowid && OccursAt(tok, rows[..n][i].body, p.token, p.position);
        assert rows[i].id == p.rowid && OccursAt(tok, rows[i].body, p.token, p.position);
      }
      if i :| 0 <= i < n && rows[i].id == p.rowid && OccursAt(tok, rows[i].body, p.token, p.position) {
        assert rows[..n][i].id == p.rowid && OccursAt(tok, rows[..n][i].body, p.token, p.position);
      }
    }
  }

  predicate OccursAt(tok: Tokenizer, body: string, token: string, k: int) {
    0 <= k < |tok(body)| && tok(body)[k] == token
  }

  lemma TokensMeaning(tok: Tokenizer, id: int, body: string, p: Posting)
    ensures p in Tokens(tok, id, body) <==> p.rowid == id && OccursAt(tok, body, p.token, p.position)
  {
    var t := tok(body);
    var s := seq(|t|, i requires 0 <= i < |t| => Posting(t[i], id, i));
    assert p in multiset(s) <==> p in s;
    if p in s {
      var i :| 0 <= i < |s| && s[i] == p;
    }
    if p.rowid == id && OccursAt(tok, body, p.token, p.position) {
      assert s[p.position] == p;
    }
  }

  /**
   * A token finds a row if and only if the row's current body contains it: a search neither
   * misses an edited body nor hits the words an edit removed.
   */
  lemma SearchIsExact(tok: Tokenizer, ops: seq<StoreOp>, i: int, token: string)
    requires 0 <= i < |ApplyAll(tok, Empty(), ops).rows|
    ensures
      var db := ApplyAll(tok, Empty(), ops);
      Finds(db.postings, token, db.rows[i].id) <==> token in tok(db.rows[i].body)
  {
    var db := ApplyAll(tok, Empty(), ops);
    var row := db.rows[i];
    IndexStaysExact(tok, ops);
    ApplyAllKeeps(tok, Empty(), ops);
    if Finds(db.postings, token, row.id) {
      var k: nat :| Posting(token, row.id, k) in db.postings;
      RebuildMeaning(tok, db.rows, Posting(token, row.id, k));
      var j :| 0 <= j < |db.rows| && db.rows[j].id == row.id && OccursAt(tok, db.rows[j].body, token, k);
      assert j == i;
    }
    if token in tok(row.body) {
      var k :| 0 <= k < |tok(row.body)| && tok(row.body)[k] == token;
      assert OccursAt(tok, row.body, token, k);
      RebuildMeaning(tok, db.rows, Posting(token, row.id, k));
    }
  }
}
