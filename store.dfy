/**
 * The JPA repository `JPATokenRepository`: the `token` table keyed by an
 * integer id, the derived query `findTokenByIdentifier`, and the inherited
 * `save` of a new entity.
 */
module Store {
  import opened Wrappers
  import opened Tokens

  /** The whole table as a value: its rows in insertion order and the next identity value. */
  datatype Table = Table(rows: seq<Row>, nextId: int)

  /**
   * Outcome of a query that expects at most one row. `NonUnique` stands for
   * the exception Spring Data raises when an `Optional` query finds several.
   */
  datatype Query<T> = Empty | Unique(value: T) | NonUnique

  /** Row `j` precedes row `k` only if its id is smaller: ids follow insertion order. */
  ghost predicate IdsIncrease(rows: seq<Row>, j: int, k: int) {
    0 <= j < k < |rows| ==> rows[j].id < rows[k].id
  }

  /**
   * Ids are positive, increase with insertion order and stay below the next
   * identity value. The pairwise part is instantiated only where a proof names
   * `IdsIncrease`.
   */
  ghost predicate Keyed(t: Table) {
    && 0 < t.nextId
    && (forall k | 0 <= k < |t.rows| :: 0 < t.rows[k].id < t.nextId)
    && (forall j, k {:trigger IdsIncrease(t.rows, j, k)} :: IdsIncrease(t.rows, j, k))
  }

  /** Appending a row whose id is the next identity value keeps the table keyed. */
  lemma InsertKeepsKeyed(t: Table, row: Row)
    requires Keyed(t) && row.id == t.nextId
    ensures Keyed(Table(t.rows + [row], t.nextId + 1))
  {
    var rows := t.rows + [row];
    forall j, k ensures IdsIncrease(rows, j, k) {
      if 0 <= j < k < |rows| {
        if k < |t.rows| {
          assert IdsIncrease(t.rows, j, k);
        }
      }
    }
  }

  /** Distinct positions of a keyed table hold distinct ids. */
  lemma KeyedIdsDistinct(t: Table, j: nat, k: nat)
    requires Keyed(t) && j < |t.rows| && k < |t.rows| && j != k
    ensures t.rows[j].id != t.rows[k].id
  {
    if j < k {
      assert IdsIncrease(t.rows, j, k);
    } else {
      assert IdsIncrease(t.rows, k, j);
    }
  }

  /** `findTokenByIdentifier` on table values: the position of the row with identifier `i`. */
  function Lookup(rows: seq<Row>, i: Option<string>): (r: Query<nat>)
    ensures r.Empty? <==> forall k | 0 <= k < |rows| :: rows[k].identifier != i
    ensures r.Unique? ==>
      && r.value < |rows| && rows[r.value].identifier == i
      && forall k | 0 <= k < |rows| && rows[k].identifier == i :: k == r.value
    ensures r.NonUnique? ==>
      exists j, k | 0 <= j < k < |rows| :: rows[j].identifier == i && rows[k].identifier == i
  {
    if rows == [] then Empty
    else
      var here := rows[0].identifier == i;
      match Lookup(rows[1..], i)
      case Empty => if here then Unique(0) else Empty
      case Unique(k) =>
        if here then
          assert rows[k + 1] == rows[1..][k];
          NonUnique
        else
          Unique(k + 1)
      case NonUnique =>
        ghost var j, k :| 0 <= j < k < |rows[1..]| && rows[1..][j].identifier == i && rows[1..][k].identifier == i;
        assert rows[j + 1] == rows[1..][j] && rows[k + 1] == rows[1..][k];
        NonUnique
  }

  /** The rows held by a sequence of entity objects. */
  function RowsOf(ts: seq<Token>): (s: seq<Row>)
    reads ts
    ensures |s| == |ts| && forall k | 0 <= k < |ts| :: s[k] == ts[k].AsRow()
  {
    if ts == [] then [] else [ts[0].AsRow()] + RowsOf(ts[1..])
  }

  class JpaTokenRepository {
    /** The managed entities, one per row, in insertion order. */
    var rows: seq<Token>
    /** The next value of the IDENTITY column. */
    var nextId: int
    /** The table as a value: what the managed entities hold. */
    ghost var table: Table

    /** Each managed entity holds its row of `table`, and the ids are well formed. */
    ghost predicate Valid()
      reads this, rows
    {
      && |rows| == |table.rows| && nextId == table.nextId
      && (forall k | 0 <= k < |rows| ::
            && rows[k].id == table.rows[k].id
            && rows[k].identifier == table.rows[k].identifier
            && rows[k].token == table.rows[k].token)
      && Keyed(table)
    }

    /** An empty table whose identity column starts at 1. */
    constructor ()
      ensures Valid() && table == Table([], 1) && rows == []
    {
      rows := [];
      nextId := 1;
      table := Table([], 1);
    }

    /** `findTokenByIdentifier(i)`: the managed entity whose identifier is `i`, null included. */
    function FindTokenByIdentifier(i: Option<string>): (r: Query<Token>)
      requires Valid()
      reads this, rows
      ensures r.Empty? <==> Lookup(table.rows, i).Empty?
      ensures r.NonUnique? <==> Lookup(table.rows, i).NonUnique?
      ensures r.Unique? ==>
        && Lookup(table.rows, i).Unique?
        && r.value == rows[Lookup(table.rows, i).value]
        && r.value.identifier == i
    {
      assert RowsOf(rows) == table.rows;
      match Lookup(RowsOf(rows), i)
      case Empty => Empty
      case Unique(k) => Unique(rows[k])
      case NonUnique => NonUnique
    }

    /**
     * `save(t)` for a new entity (id 0, which Spring Data treats as new):
     * assigns the next identity value and inserts the row.
     */
    method Save(t: Token) returns (saved: Token)
      requires Valid() && t.id == 0
      modifies this, t
      ensures Valid()
      ensures saved == t && rows == old(rows) + [t]
      ensures t.AsRow() == old(t.AsRow()).(id := old(nextId))
      ensures table == Table(old(table.rows) + [t.AsRow()], old(table.nextId) + 1)
    {
      assert t !in rows by {
        forall k | 0 <= k < |rows| ensures rows[k] != t {
          assert table.rows[k].id > 0;
        }
      }
      t.id := nextId;
      InsertKeepsKeyed(table, t.AsRow());
      table := Table(table.rows + [t.AsRow()], nextId + 1);
      nextId := nextId + 1;
      rows := rows + [t];
      saved := t;
    }
  }
}
