/**
 * The loop of `load_initial_rows`: for every row, an update-or-insert whose filter is the whole
 * row and whose insert is the row itself; a row whose insert breaks a unique index raises a
 * duplicate key error, which is logged and the row skipped.
 */
module Seeding {
  import opened Documents

  /** A row read from a JSON file, or built from one: it holds no object id. */
  ghost predicate JsonRow(row: Doc)
  {
    forall f :: f in row ==> !row[f].Oid?
  }

  /** The document the upsert inserts: the row, with a fresh `_id` unless it carries one. */
  function WithId(row: Doc, next: nat): Doc
  {
    if ID in row then row else row[ID := Oid(next)]
  }

  /** Inserting `doc` would break the unique index on `key` or the one on `_id`. */
  predicate Clashes(table: seq<Doc>, doc: Doc, key: string)
  {
    exists i :: 0 <= i < |table| && (KeyOf(table[i], key) == KeyOf(doc, key) || KeyOf(table[i], ID) == KeyOf(doc, ID))
  }

  predicate SomeMatch(table: seq<Doc>, row: Doc)
  {
    exists i :: 0 <= i < |table| && Matches(row, table[i])
  }

  /**
   * One iteration: nothing when a document matches the row; otherwise the row is inserted,
   * unless the insert breaks a unique index, in which case the row is skipped.
   */
  function SeedRow(table: seq<Doc>, next: nat, row: Doc, key: string): (seq<Doc>, nat)
  {
    if SomeMatch(table, row) then (table, next)
    else
      var doc := WithId(row, next);
      if Clashes(table, doc, key) then (table, next) else (table + [doc], next + 1)
  }

  /** The whole loop, row by row in order. */
  function SeedRows(table: seq<Doc>, next: nat, rows: seq<Doc>, key: string): (seq<Doc>, nat)
  {
    if rows == [] then (table, next)
    else
      var before := SeedRows(table, next, rows[..|rows| - 1], key);
      SeedRow(before.0, before.1, rows[|rows| - 1], key)
  }

  /** The unique indexes of a seeded table hold, and its object ids are below the counter. */
  ghost predicate Indexed(table: seq<Doc>, next: nat, key: string)
  {
    IdsBelow(table, next) && UniqueOn(table, key) && UniqueOn(table, ID)
  }

  /**
   * The store already answers for the row: a document matches it, or one holds its value of the
   * unique key (or its own `_id`), so that its insert would be refused.
   */
  ghost predicate Settled(table: seq<Doc>, row: Doc, key: string)
  {
    SomeMatch(table, row) ||
    exists i :: 0 <= i < |table| && (KeyOf(table[i], key) == KeyOf(row, key) || (ID in row && KeyOf(table[i], ID) == row[ID]))
  }

  /** A settled row without an `_id` of its own has its key value in the table. */
  lemma SettledHolds(table: seq<Doc>, row: Doc, key: string)
    requires Settled(table, row, key) && key in row && ID !in row
    ensures exists i :: 0 <= i < |table| && KeyOf(table[i], key) == row[key]
  {
    if SomeMatch(table, row) {
      var i :| 0 <= i < |table| && Matches(row, table[i]);
      assert KeyOf(table[i], key) == row[key];
    }
  }

  /** One iteration keeps the indexes and only ever appends. */
  lemma SeedRowIndexed(table: seq<Doc>, next: nat, row: Doc, key: string)
    requires key != ID && JsonRow(row) && Indexed(table, next, key)
    ensures var r := SeedRow(table, next, row, key);
      Indexed(r.0, r.1, key) && table <= r.0 && next <= r.1
  {
    if !SomeMatch(table, row) {
      var doc := WithId(row, next);
      if !Clashes(table, doc, key) {
        var t := table + [doc];
        forall i, j | 0 <= i < j < |t| ensures KeyOf(t[i], key) != KeyOf(t[j], key) && KeyOf(t[i], ID) != KeyOf(t[j], ID) {
          if j == |table| {
            assert t[j] == doc && t[i] == table[i];
          } else {
            assert t[i] == table[i] && t[j] == table[j];
          }
        }
      }
    }
  }

  /** After one iteration the store answers for that row. */
  lemma SeedRowSettles(table: seq<Doc>, next: nat, row: Doc, key: string)
    requires key != ID && IdsBelow(table, next)
    ensures Settled(SeedRow(table, next, row, key).0, row, key)
  {
    if !SomeMatch(table, row) {
      var doc := WithId(row, next);
      assert KeyOf(doc, key) == KeyOf(row, key);
      if Clashes(table, doc, key) {
        var i :| 0 <= i < |table| && (KeyOf(table[i], key) == KeyOf(doc, key) || KeyOf(table[i], ID) == KeyOf(doc, ID));
        if ID !in row && KeyOf(table[i], key) != KeyOf(doc, key) {
          assert false;
        }
      } else {
        var t := table + [doc];
        assert Matches(row, t[|table|]);
      }
    }
  }

  /** A row the store already answers for changes nothing. */
  lemma SettledRowNoChange(table: seq<Doc>, next: nat, row: Doc, key: string)
    requires key != ID && Settled(table, row, key)
    ensures SeedRow(table, next, row, key) == (table, next)
  {
    if !SomeMatch(table, row) {
      var doc := WithId(row, next);
      var i :| 0 <= i < |table| && (KeyOf(table[i], key) == KeyOf(row, key) || (ID in row && KeyOf(table[i], ID) == row[ID]));
      assert KeyOf(table[i], key) == KeyOf(doc, key) || KeyOf(table[i], ID) == KeyOf(doc, ID);
    }
  }

  lemma SettledGrows(table: seq<Doc>, bigger: seq<Doc>, row: Doc, key: string)
    requires table <= bigger && Settled(table, row, key)
    ensures Settled(bigger, row, key)
  {
    if SomeMatch(table, row) {
      var i :| 0 <= i < |table| && Matches(row, table[i]);
      assert bigger[i] == table[i];
    } else {
      var i :| 0 <= i < |table| && (KeyOf(table[i], key) == KeyOf(row, key) || (ID in row && KeyOf(table[i], ID) == row[ID]));
      assert bigger[i] == table[i];
    }
  }

  /**
   * The loop keeps the indexes and only appends; afterwards the store answers for every row,
   * so a row that was skipped is one whose insert the store refuses.
   */
  lemma {:induction false} SeedRowsSettle(table: seq<Doc>, next: nat, rows: seq<Doc>, key: string)
    requires key != ID && Indexed(table, next, key)
    requires forall k :: 0 <= k < |rows| ==> JsonRow(rows[k])
    ensures var r := SeedRows(table, next, rows, key);
      && Indexed(r.0, r.1, key) && table <= r.0
      && forall k :: 0 <= k < |rows| ==> Settled(r.0, rows[k], key)
  {
    if rows != [] {
      var init := rows[..|rows| - 1];
      var last := rows[|rows| - 1];
      SeedRowsSettle(table, next, init, key);
      var before := SeedRows(table, next, init, key);
      SeedRowIndexed(before.0, before.1, last, key);
      SeedRowSettles(before.0, before.1, last, key);
      var after := SeedRow(before.0, before.1, last, key);
      forall k | 0 <= k < |rows| ensures Settled(after.0, rows[k], key) {
        if k < |rows| - 1 {
          assert rows[k] == init[k];
          SettledGrows(before.0, after.0, rows[k], key);
        }
      }
    }
  }

  /** Rows the store already answers for leave the table and the counter as they are. */
  lemma {:induction false} SettledRowsNoChange(table: seq<Doc>, next: nat, rows: seq<Doc>, key: string)
    requires key != ID
    requires forall k :: 0 <= k < |rows| ==> Settled(table, rows[k], key)
    ensures SeedRows(table, next, rows, key) == (table, next)
  {
    if rows != [] {
      var init := rows[..|rows| - 1];
      assert forall k :: 0 <= k < |init| ==> init[k] == rows[k];
      SettledRowsNoChange(table, next, init, key);
      SettledRowNoChange(table, next, rows[|rows| - 1], key);
    }
  }

  /** Loading the same rows a second time changes nothing: the loop is idempotent. */
  lemma SeedRowsIdempotent(table: seq<Doc>, next: nat, rows: seq<Doc>, key: string)
    requires key != ID && Indexed(table, next, key)
    requires forall k :: 0 <= k < |rows| ==> JsonRow(rows[k])
    ensures var once := SeedRows(table, next, rows, key);
      SeedRows(once.0, once.1, rows, key) == once
  {
    SeedRowsSettle(table, next, rows, key);
    var once := SeedRows(table, next, rows, key);
    SettledRowsNoChange(once.0, once.1, rows, key);
  }

  /** The rows agree, position by position, on the unique key (which they all carry) and on `_id`. */
  ghost predicate SameKeys(rows: seq<Doc>, others: seq<Doc>, key: string)
  {
    |rows| == |others| &&
    forall k :: 0 <= k < |rows| ==>
      key in rows[k] && key in others[k] && rows[k][key] == others[k][key]
      && (ID in rows[k] <==> ID in others[k]) && (ID in rows[k] ==> rows[k][ID] == others[k][ID])
  }

  /**
   * A rerun whose rows differ from the first run's only outside the unique key (a password
   * hashed again with a new salt) changes nothing: no filter may match, but every insert is
   * refused by the unique index and skipped.
   */
  lemma RerunWithChangedRows(table: seq<Doc>, next: nat, rows: seq<Doc>, rerun: seq<Doc>, key: string)
    requires key != ID && Indexed(table, next, key)
    requires forall k :: 0 <= k < |rows| ==> JsonRow(rows[k])
    requires SameKeys(rows, rerun, key)
    ensures var once := SeedRows(table, next, rows, key);
      SeedRows(once.0, once.1, rerun, key) == once
  {
    SeedRowsSettle(table, next, rows, key);
    var once := SeedRows(table, next, rows, key);
    forall k | 0 <= k < |rerun| ensures Settled(once.0, rerun[k], key) {
      var row := rows[k];
      assert Settled(once.0, row, key);
      if SomeMatch(once.0, row) {
        var i :| 0 <= i < |once.0| && Matches(row, once.0[i]);
        assert KeyOf(once.0[i], key) == row[key];
        assert KeyOf(once.0[i], key) == KeyOf(rerun[k], key);
      }
    }
    SettledRowsNoChange(once.0, once.1, rerun, key);
  }

  /** Every document holds a string under `field`. */
  ghost predicate StrField(table: seq<Doc>, field: string)
  {
    forall i :: 0 <= i < |table| ==> field in table[i] && table[i][field].Str?
  }

  /** Seeding a row that holds a string under `field` keeps that true of the table. */
  lemma SeedRowStrField(table: seq<Doc>, next: nat, row: Doc, key: string, field: string)
    requires StrField(table, field) && field in row && row[field].Str? && field != ID
    ensures StrField(SeedRow(table, next, row, key).0, field)
  {
    var doc := WithId(row, next);
    assert field in doc && doc[field].Str?;
    assert forall i :: 0 <= i < |table| ==> (table + [doc])[i] == table[i];
  }
}
