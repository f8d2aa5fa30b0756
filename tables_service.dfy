/** The `tables` table and the queries the tables service runs on it, held in memory. */
module TablesService {
  import opened Wrappers
  import opened Records
  import opened Ordering

  /** The columns a table insert supplies; the status column defaults to "Free". */
  datatype NewTable = NewTable(id: Option<int>, name: string, capacity: int, reservationId: Option<int>)

  function InsertedTable(n: NewTable, id: int): Table
  {
    Table(id, n.name, n.capacity, Free, n.reservationId)
  }

  /** The rows after a keyed update with the whole row `t`: the row keyed `t.id`, if there is one, becomes `t`. */
  function Written(rows: map<int, Table>, t: Table): (after: map<int, Table>)
    ensures after.Keys == rows.Keys
    ensures forall id :: id in rows && id != t.id ==> after[id] == rows[id]
    ensures t.id in rows ==> after[t.id] == t
  {
    if t.id in rows then rows[t.id := t] else rows
  }

  /** Every table is stored under its own id. */
  ghost predicate TablesKeyed(rows: map<int, Table>)
  {
    forall id :: id in rows ==> rows[id].id == id
  }

  function NameKey(t: Table): string { t.name }

  /** The specification of `list()`: every table, each once, by name. */
  ghost predicate IsTableListing(rows: map<int, Table>, result: seq<Table>)
  {
    && (forall t :: t in result <==> t in rows.Values)
    && SortedBy(result, NameKey)
    && NoDuplicates(result)
  }

  class TableStore {
    var rows: map<int, Table>
    /** The next value of the `table_id` sequence. */
    var nextId: int

    ghost predicate Valid()
      reads this
    {
      TablesKeyed(rows)
    }

    constructor ()
      ensures Valid() && rows == map[] && nextId == 1
    {
      rows := map[];
      nextId := 1;
    }

    /** `list()` */
    method List() returns (result: seq<Table>)
      ensures IsTableListing(rows, result)
    {
      result := SelectSorted(rows, t => true, NameKey);
    }

    /** `read(table_id)`: the table with that id, or nothing. */
    function Read(id: int): (r: Option<Table>)
      reads this
      requires Valid()
      ensures r.Some? <==> id in rows
      ensures r.Some? ==> r.value.id == id && r.value == rows[id]
    {
      if id in rows then Some(rows[id]) else None
    }

    /** `create(table)`: like a reservation insert; on success the store holds one table more. */
    method Create(n: NewTable) returns (r: Result<Table, ErrorKind>)
      requires Valid()
      modifies this
      ensures Valid()
      ensures nextId == if n.id.None? then old(nextId) + 1 else old(nextId)
      ensures var id := n.id.GetOr(old(nextId));
        if id in old(rows) then r == Failure(DuplicateKey) && rows == old(rows)
        else r == Success(InsertedTable(n, id)) && rows == old(rows)[id := InsertedTable(n, id)]
      ensures r.Success? ==> |rows| == |old(rows)| + 1
    {
      var id := n.id.GetOr(nextId);
      if n.id.None? {
        nextId := nextId + 1;
      }
      if id in rows {
        r := Failure(DuplicateKey);
      } else {
        var row := InsertedTable(n, id);
        rows := rows[id := row];
        r := Success(row);
      }
    }

    /** The keyed update both `seat` and `finish` run: the row with `t.id` becomes `t`. */
    method Write(t: Table) returns (r: Option<Table>)
      requires Valid()
      modifies this`rows
      ensures Valid()
      ensures rows == Written(old(rows), t)
      ensures r == if t.id in old(rows) then Some(t) else None
    {
      if t.id in rows {
        rows := rows[t.id := t];
        r := Some(t);
      } else {
        r := None;
      }
    }

    /** `seat(table)` */
    method Seat(t: Table) returns (r: Option<Table>)
      requires Valid()
      modifies this`rows
      ensures Valid()
      ensures rows == Written(old(rows), t)
      ensures r == if t.id in old(rows) then Some(t) else None
    {
      r := Write(t);
    }

    /** `finish(table)`: the same keyed update as `seat`. */
    method Finish(t: Table) returns (r: Option<Table>)
      requires Valid()
      modifies this`rows
      ensures Valid()
      ensures rows == Written(old(rows), t)
      ensures r == if t.id in old(rows) then Some(t) else None
    {
      r := Write(t);
    }
  }
}
