/**
 The local database as the row sync engine sees it: tables, the column
 remote-to-local id index, rows and cells, with the queries and writes the
 engine issues. Deleting a row also deletes its cells, as the foreign-key
 cascade of the real schema does.
 */
module LocalStore {
  import opened Nullable
  import opened Entity
  import opened TableEntity

  /** A stored `Row` (its local id is its key in `Store.rows`). */
  datatype Row = Row(
    accountId: AccountId,
    tableId: LocalId,
    remoteId: Option<RemoteId>,
    status: Status,
    eTag: Option<string>)

  /** A row together with its local id, as a query returns it. */
  datatype Entry = Entry(id: LocalId, row: Row)

  /** The unique coordinate of a cell (`Data`): its column and its row. */
  datatype CellKey = CellKey(columnId: LocalId, rowId: LocalId)

  /** A stored cell value (`Data`). */
  datatype Cell = Cell(id: LocalId, accountId: AccountId, value: string)

  /** Key of the column index: a column's account and server id. */
  datatype ColumnKey = ColumnKey(accountId: AccountId, remoteId: RemoteId)

  datatype Store = Store(
    tables: seq<Table>,
    columnIds: map<ColumnKey, LocalId>,
    rows: map<LocalId, Row>,
    cells: map<CellKey, Cell>,
    nextRowId: LocalId,
    nextCellId: LocalId)

  /**
   Auto-increment counters lie above every id in use, and every cell belongs
   to a stored row (the foreign key from `Data` to `Row`).
   */
  ghost predicate Valid(s: Store) {
    && (forall id :: id in s.rows ==> id < s.nextRowId)
    && (forall k :: k in s.cells ==> k.rowId in s.rows)
    && (forall k :: k in s.cells ==> s.cells[k].id < s.nextCellId)
  }

  /** Within an account, no two rows carry the same server id. */
  ghost predicate UniqueRemoteIds(s: Store) {
    forall a, b ::
      (a in s.rows && b in s.rows && s.rows[a].remoteId.Some? &&
       s.rows[a].remoteId == s.rows[b].remoteId && s.rows[a].accountId == s.rows[b].accountId) ==> a == b
  }

  function Ids(es: seq<Entry>): (ids: seq<LocalId>)
    ensures |ids| == |es|
    ensures forall i :: 0 <= i < |es| ==> ids[i] == es[i].id
  {
    seq(|es|, i requires 0 <= i < |es| => es[i].id)
  }

  predicate Increasing(xs: seq<nat>) {
    forall i, j :: 0 <= i < j < |xs| ==> xs[i] < xs[j]
  }

  predicate Selected(rows: map<LocalId, Row>, id: LocalId, account: AccountId, status: Status) {
    id in rows && rows[id].accountId == account && rows[id].status == status
  }

  /** The rows of `account` with `status` among local ids below `bound`, in id order. */
  function RowsBelow(rows: map<LocalId, Row>, account: AccountId, status: Status, bound: nat): (es: seq<Entry>)
    ensures forall i :: 0 <= i < |es| ==>
      es[i].id < bound && Selected(rows, es[i].id, account, status) && rows[es[i].id] == es[i].row
    ensures forall id: LocalId :: id < bound && Selected(rows, id, account, status) ==> id in Ids(es)
    ensures Increasing(Ids(es))
  {
    if bound == 0 then []
    else
      var es := RowsBelow(rows, account, status, bound - 1);
      if Selected(rows, bound - 1, account, status) then
        assert Ids(es + [Entry(bound - 1, rows[bound - 1])]) == Ids(es) + [bound - 1];
        es + [Entry(bound - 1, rows[bound - 1])]
      else es
  }

  /** `RowDao.getRows(accountId, status)`: every row of the account with that status, in id order. */
  function RowsWithStatus(s: Store, account: AccountId, status: Status): (es: seq<Entry>)
    requires Valid(s)
    ensures Increasing(Ids(es))
    ensures forall i :: 0 <= i < |es| ==> Selected(s.rows, es[i].id, account, status) && s.rows[es[i].id] == es[i].row
    ensures forall id :: Selected(s.rows, id, account, status) ==> id in Ids(es)
  {
    RowsBelow(s.rows, account, status, s.nextRowId)
  }

  /** `TableDao.getTables(accountId)`: the account's tables, in the order they are stored. */
  function TablesOf(tables: seq<Table>, account: AccountId): (r: seq<Table>)
    ensures forall t :: t in r <==> t in tables && t.base.accountId == account
    ensures |r| <= |tables|
  {
    if tables == [] then []
    else if tables[0].base.accountId == account then [tables[0]] + TablesOf(tables[1..], account)
    else TablesOf(tables[1..], account)
  }

  /** Listing a concatenation lists each part in turn, so the stored order of the account's tables is kept. */
  lemma {:induction false} TablesOfAppend(a: seq<Table>, b: seq<Table>, account: AccountId)
    ensures TablesOf(a + b, account) == TablesOf(a, account) + TablesOf(b, account)
    decreases |a|
  {
    if a == [] {
      assert a + b == b;
    } else {
      assert (a + b)[0] == a[0];
      assert (a + b)[1..] == a[1..] + b;
      TablesOfAppend(a[1..], b, account);
    }
  }

  /** A single table is listed exactly when it belongs to the account. */
  lemma TablesOfSingle(t: Table, account: AccountId)
    ensures TablesOf([t], account) == if t.base.accountId == account then [t] else []
  {
    assert [t][1..] == [];
  }

  /** `TableDao.getRemoteId(tableId)`: the server id of the first table with that id, null when there is none. */
  function TableRemoteId(tables: seq<Table>, tableId: LocalId): (r: Option<RemoteId>)
    ensures r.Some? ==> exists t :: t in tables && t.base.id == tableId && t.base.remoteId == r
    ensures (forall t :: t in tables ==> t.base.id != tableId) ==> r == Null
    ensures forall i ::
      (0 <= i < |tables| && tables[i].base.id == tableId && forall j :: 0 <= j < i ==> tables[j].base.id != tableId) ==>
      r == tables[i].base.remoteId
  {
    if tables == [] then Null
    else if tables[0].base.id == tableId then tables[0].base.remoteId
    else TableRemoteId(tables[1..], tableId)
  }

  predicate Holds(rows: map<LocalId, Row>, id: LocalId, account: AccountId, rid: RemoteId) {
    id in rows && rows[id].accountId == account && rows[id].remoteId == Some(rid)
  }

  /** The smallest local id below `bound` of a row of `account` with server id `rid`. */
  function FindRow(rows: map<LocalId, Row>, account: AccountId, rid: RemoteId, bound: nat): (r: Option<LocalId>)
    ensures r.Some? ==> r.value < bound && Holds(rows, r.value, account, rid)
    ensures r.Null? ==> forall id: LocalId :: id < bound ==> !Holds(rows, id, account, rid)
    ensures r.Some? ==> forall id: LocalId :: id < r.value ==> !Holds(rows, id, account, rid)
  {
    if bound == 0 then Null
    else
      var below := FindRow(rows, account, rid, bound - 1);
      if below.Some? then below
      else if Holds(rows, bound - 1, account, rid) then Some(bound - 1)
      else Null
  }

  /**
   `RowDao.getRowRemoteAndLocalIds(accountId, remoteIds)`: one batch lookup,
   server id to local id; should the account hold a server id twice, the
   lowest local id is taken.
   */
  function RowIdsByRemote(s: Store, account: AccountId, rids: set<RemoteId>): (m: map<RemoteId, LocalId>)
    requires Valid(s)
    ensures m.Keys <= rids
    ensures forall rid :: rid in m ==> Holds(s.rows, m[rid], account, rid)
    ensures forall rid :: rid in rids && rid !in m ==> forall id :: !Holds(s.rows, id, account, rid)
    ensures forall rid, id :: rid in m && id < m[rid] ==> !Holds(s.rows, id, account, rid)
  {
    map rid | rid in rids && FindRow(s.rows, account, rid, s.nextRowId).Some? ::
      FindRow(s.rows, account, rid, s.nextRowId).value
  }

  /** The cells of one row, by column (`DataDao.getDataForRow`). */
  function CellsOfRow(cells: map<CellKey, Cell>, rowId: LocalId): (m: map<LocalId, string>)
    ensures forall c :: c in m <==> CellKey(c, rowId) in cells
    ensures forall c :: c in m ==> m[c] == cells[CellKey(c, rowId)].value
  {
    var columns := set k | k in cells && k.rowId == rowId :: k.columnId;
    assert forall c :: c in columns <==> CellKey(c, rowId) in cells by {
      forall c | CellKey(c, rowId) in cells
        ensures c in columns
      {
        assert CellKey(c, rowId).columnId == c;
      }
    }
    map c | c in columns :: cells[CellKey(c, rowId)].value
  }

  /** Deletes the rows `ids` and, by the foreign-key cascade, every cell of theirs. */
  function DeleteRows(s: Store, ids: set<LocalId>): (r: Store)
    ensures r.rows == s.rows - ids
    ensures forall k :: k in r.cells <==> k in s.cells && k.rowId !in ids
    ensures forall k :: k in r.cells ==> r.cells[k] == s.cells[k]
    ensures r.tables == s.tables && r.columnIds == s.columnIds
    ensures r.nextRowId == s.nextRowId && r.nextCellId == s.nextCellId
  {
    s.(rows := s.rows - ids, cells := map k | k in s.cells && k.rowId !in ids :: s.cells[k])
  }

  /** Deleting rows keeps the store valid and keeps server ids unique per account. */
  lemma DeleteRowsKeepsInvariants(s: Store, ids: set<LocalId>)
    ensures Valid(s) ==> Valid(DeleteRows(s, ids))
    ensures UniqueRemoteIds(s) ==> UniqueRemoteIds(DeleteRows(s, ids))
  {
  }

  /** Deleting in two steps deletes the union. */
  lemma DeleteRowsTwice(s: Store, a: set<LocalId>, b: set<LocalId>)
    ensures DeleteRows(DeleteRows(s, a), b) == DeleteRows(s, a + b)
  {
    var l := DeleteRows(DeleteRows(s, a), b);
    var r := DeleteRows(s, a + b);
    assert l.rows == r.rows;
    assert l.cells == r.cells;
  }

  /** `RowDao.update(row)`: overwrites the stored row with that id; an absent id is left alone. */
  function UpdateRow(s: Store, id: LocalId, row: Row): (r: Store)
    ensures id in s.rows ==> r.rows == s.rows[id := row]
    ensures id !in s.rows ==> r == s
    ensures r.tables == s.tables && r.columnIds == s.columnIds && r.cells == s.cells
    ensures r.nextRowId == s.nextRowId && r.nextCellId == s.nextCellId
    ensures Valid(s) ==> Valid(r)
  {
    if id in s.rows then s.(rows := s.rows[id := row]) else s
  }

  /** `RowDao.insert(row)`: stores the row under a fresh id and returns that id. */
  function InsertRow(s: Store, row: Row): (r: (Store, LocalId))
    requires Valid(s)
    ensures r.1 == s.nextRowId && r.1 !in s.rows
    ensures r.0.rows == s.rows[r.1 := row]
    ensures r.0.nextRowId == s.nextRowId + 1
    ensures r.0.tables == s.tables && r.0.columnIds == s.columnIds && r.0.cells == s.cells
    ensures r.0.nextCellId == s.nextCellId
    ensures Valid(r.0)
  {
    (s.(rows := s.rows[s.nextRowId := row], nextRowId := s.nextRowId + 1), s.nextRowId)
  }

  /**
   `DataDao.getDataForCoordinates` followed by `update` or `insert`: writes the
   value at `key`, keeping the id of a cell already there, else taking a fresh one.
   */
  function UpsertCell(s: Store, key: CellKey, account: AccountId, value: string): (r: Store)
    requires Valid(s) && key.rowId in s.rows
    ensures key in r.cells && r.cells[key].value == value && r.cells[key].accountId == account
    ensures key in s.cells ==> r.cells[key].id == s.cells[key].id && r.nextCellId == s.nextCellId
    ensures key !in s.cells ==> r.cells[key].id == s.nextCellId && r.nextCellId == s.nextCellId + 1
    ensures forall k :: k != key ==> (k in r.cells <==> k in s.cells)
    ensures forall k :: k != key && k in s.cells ==> r.cells[k] == s.cells[k]
    ensures r.tables == s.tables && r.columnIds == s.columnIds && r.rows == s.rows
    ensures r.nextRowId == s.nextRowId
    ensures Valid(r)
  {
    if key in s.cells then
      s.(cells := s.cells[key := Cell(s.cells[key].id, account, value)])
    else
      s.(cells := s.cells[key := Cell(s.nextCellId, account, value)], nextCellId := s.nextCellId + 1)
  }

  predicate Stale(row: Row, tableId: LocalId, keep: set<RemoteId>) {
    row.tableId == tableId && row.remoteId.Some? && row.remoteId.value !in keep
  }

  /**
   `RowDao.deleteExcept(tableId, remoteIds)`: deletes the table's rows whose
   server id is not in `keep`, with their cells; rows without a server id stay.
   */
  function DeleteExcept(s: Store, tableId: LocalId, keep: set<RemoteId>): (r: Store)
    ensures forall id :: id in r.rows <==> id in s.rows && !Stale(s.rows[id], tableId, keep)
    ensures forall id :: id in r.rows ==> r.rows[id] == s.rows[id]
    ensures Valid(s) ==> forall k :: k in r.cells <==> k in s.cells && k.rowId in r.rows
    ensures forall k :: k in r.cells ==> k in s.cells && r.cells[k] == s.cells[k]
    ensures r.tables == s.tables && r.columnIds == s.columnIds
    ensures r.nextRowId == s.nextRowId && r.nextCellId == s.nextCellId
    ensures Valid(s) ==> Valid(r)
    ensures UniqueRemoteIds(s) ==> UniqueRemoteIds(r)
  {
    DeleteRowsKeepsInvariants(s, set id | id in s.rows && Stale(s.rows[id], tableId, keep));
    DeleteRows(s, set id | id in s.rows && Stale(s.rows[id], tableId, keep))
  }
}
