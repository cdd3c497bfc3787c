/** The abstract record table behind each service: a map from a generated,
    nonzero id to a row. Ids come from a counter and are never reused, so a
    listing can walk the ids in increasing order. `key` reads a row's own id. */
module Store {

  /** The ids of `table` that a scan in id order has passed once it reaches `bound`. */
  ghost function KeysBelow<R>(table: map<nat, R>, bound: nat): set<nat> {
    set k | k in table && k < bound
  }

  /** The ids of the rows of a listing. */
  ghost function KeysOf<R>(rows: seq<R>, key: R -> nat): set<nat> {
    set i | 0 <= i < |rows| :: key(rows[i])
  }

  /** `rows` lists, in increasing id order, exactly the rows of `table` below `bound`. */
  ghost predicate ListsBelow<R>(rows: seq<R>, key: R -> nat, table: map<nat, R>, bound: nat) {
    && (forall i :: 0 <= i < |rows| ==> key(rows[i]) in table && table[key(rows[i])] == rows[i] && key(rows[i]) < bound)
    && (forall i, j :: 0 <= i < j < |rows| ==> key(rows[i]) < key(rows[j]))
    && KeysOf(rows, key) == KeysBelow(table, bound)
  }

  /** `rows` lists every row of `table` exactly once, in increasing id order. */
  ghost predicate ListsTable<R>(rows: seq<R>, key: R -> nat, table: map<nat, R>) {
    && |rows| == |table|
    && (forall i :: 0 <= i < |rows| ==> key(rows[i]) in table && table[key(rows[i])] == rows[i])
    && (forall i, j :: 0 <= i < j < |rows| ==> key(rows[i]) < key(rows[j]))
    && (forall k :: k in table ==> table[k] in rows)
  }

  /** A table whose every row is stored under its own id, all ids in `0 < id < next`. */
  ghost predicate Keyed<R>(table: map<nat, R>, key: R -> nat, next: nat) {
    forall k :: k in table ==> 0 < k < next && key(table[k]) == k
  }

  /** Before the scan starts at id 1 nothing is listed. */
  lemma ListsBelowFirst<R>(key: R -> nat, table: map<nat, R>, next: nat)
    requires Keyed(table, key, next)
    ensures ListsBelow([], key, table, 1) && |KeysBelow(table, 1)| == 0
  {
  }

  /** One step of the scan lists the row under `bound`, if there is one. */
  lemma ListsBelowStep<R>(rows: seq<R>, key: R -> nat, table: map<nat, R>, bound: nat)
    requires ListsBelow(rows, key, table, bound)
    requires bound in table ==> key(table[bound]) == bound
    ensures bound in table ==> ListsBelow(rows + [table[bound]], key, table, bound + 1)
    ensures bound in table ==> |KeysBelow(table, bound + 1)| == |KeysBelow(table, bound)| + 1
    ensures bound !in table ==> ListsBelow(rows, key, table, bound + 1)
    ensures bound !in table ==> |KeysBelow(table, bound + 1)| == |KeysBelow(table, bound)|
  {
    if bound in table {
      assert KeysBelow(table, bound + 1) == KeysBelow(table, bound) + {bound};
      assert bound !in KeysBelow(table, bound);
      var ext := rows + [table[bound]];
      assert forall i :: 0 <= i < |rows| ==> ext[i] == rows[i];
      assert ext[|rows|] == table[bound];
      assert KeysOf(ext, key) == KeysOf(rows, key) + {bound};
    } else {
      assert KeysBelow(table, bound + 1) == KeysBelow(table, bound);
    }
  }

  /** A scan that has passed every stored id has listed the whole table. */
  lemma ListsBelowAll<R>(rows: seq<R>, key: R -> nat, table: map<nat, R>, next: nat)
    requires Keyed(table, key, next)
    requires ListsBelow(rows, key, table, next) && |rows| == |KeysBelow(table, next)|
    ensures ListsTable(rows, key, table)
  {
    assert KeysBelow(table, next) == table.Keys;
    assert KeysOf(rows, key) == table.Keys;
    forall k | k in table ensures table[k] in rows {
      assert k in KeysOf(rows, key);
      var i :| 0 <= i < |rows| && key(rows[i]) == k;
      assert rows[i] == table[k];
    }
  }
}
