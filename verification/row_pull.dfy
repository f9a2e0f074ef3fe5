/**
 `pullRemoteChanges`: for every table of the account, the rows fetched by the
 pagination loop are written into the local database (updated in place when
 a row with the same server id exists in the account, inserted otherwise),
 their cells are upserted column by column, and the table's rows the server
 no longer lists are deleted.
 */
module RowPull {
  import opened Nullable
  import opened Entity
  import opened TableEntity
  import opened LocalStore
  import opened RemoteApi
  import opened RowFetch

  /**
   The value that the cells of `data` leave in `column`: the last item whose
   column is known locally and is `column`, decoded; `Null` if none is.
   */
  function Written(columnIds: map<ColumnKey, LocalId>, account: AccountId, data: seq<RemoteData>,
                   column: LocalId, decode: (LocalId, string) -> string): (w: Option<string>)
  {
    if data == [] then Null
    else
      var later := Written(columnIds, account, data[1..], column, decode);
      var key := ColumnKey(account, data[0].remoteColumnId);
      if later.Some? then later
      else if key in columnIds && columnIds[key] == column then Some(decode(column, data[0].value))
      else Null
  }

  /**
   The loop over `row.getData()`: an item whose column has no local id is
   skipped; any other is decoded by the column's type and upserted at
   (column, row).
   */
  function UpsertCells(s: Store, account: AccountId, rowId: LocalId, data: seq<RemoteData>,
                       decode: (LocalId, string) -> string): (r: Store)
    requires Valid(s) && rowId in s.rows
    ensures Valid(r)
    ensures r.rows == s.rows && r.tables == s.tables && r.columnIds == s.columnIds
    ensures r.nextRowId == s.nextRowId
    decreases |data|
  {
    if data == [] then s
    else
      var key := ColumnKey(account, data[0].remoteColumnId);
      var next :=
        if key in s.columnIds then
          UpsertCell(s, CellKey(s.columnIds[key], rowId), account, decode(s.columnIds[key], data[0].value))
        else s;
      UpsertCells(next, account, rowId, data[1..], decode)
  }

  /**
   The cells of row `rowId` after `data` is written over `before`: a column
   the data reaches holds the last value for it, in `account`; any other
   keeps its cell.
   */
  ghost predicate CellsWritten(before: map<CellKey, Cell>, after: map<CellKey, Cell>, columnIds: map<ColumnKey, LocalId>,
                               account: AccountId, rowId: LocalId, data: seq<RemoteData>,
                               decode: (LocalId, string) -> string)
  {
    forall c :: var w := Written(columnIds, account, data, c, decode);
      && (CellKey(c, rowId) in after <==> CellKey(c, rowId) in before || w.Some?)
      && (w.Some? ==> after[CellKey(c, rowId)].value == w.value && after[CellKey(c, rowId)].accountId == account)
      && (w.Null? && CellKey(c, rowId) in before ==> after[CellKey(c, rowId)] == before[CellKey(c, rowId)])
  }

  /**
   After the loop each cell of the row holds what `Written` says the data
   leaves in its column, and keeps its id if it existed; a column the data
   does not reach keeps its cell as it was; cells of other rows are untouched.
   */
  lemma {:induction false} UpsertCellsSpec(s: Store, account: AccountId, rowId: LocalId, data: seq<RemoteData>,
                                           decode: (LocalId, string) -> string)
    requires Valid(s) && rowId in s.rows
    ensures var r := UpsertCells(s, account, rowId, data, decode);
      && (forall k: CellKey :: k.rowId != rowId ==> (k in r.cells <==> k in s.cells))
      && (forall k: CellKey :: k.rowId != rowId && k in s.cells ==> r.cells[k] == s.cells[k])
      && CellsWritten(s.cells, r.cells, s.columnIds, account, rowId, data, decode)
      && (forall k :: k in s.cells ==> r.cells[k].id == s.cells[k].id)
    decreases |data|
  {
    if data != [] {
      var key := ColumnKey(account, data[0].remoteColumnId);
      var next :=
        if key in s.columnIds then
          UpsertCell(s, CellKey(s.columnIds[key], rowId), account, decode(s.columnIds[key], data[0].value))
        else s;
      UpsertCellsSpec(next, account, rowId, data[1..], decode);
      var r := UpsertCells(s, account, rowId, data, decode);
      forall c
        ensures var w := Written(s.columnIds, account, data, c, decode);
          && (CellKey(c, rowId) in r.cells <==> CellKey(c, rowId) in s.cells || w.Some?)
          && (w.Some? ==> r.cells[CellKey(c, rowId)].value == w.value && r.cells[CellKey(c, rowId)].accountId == account)
          && (w.Null? && CellKey(c, rowId) in s.cells ==> r.cells[CellKey(c, rowId)] == s.cells[CellKey(c, rowId)])
      {
        var w := Written(s.columnIds, account, data[1..], c, decode);
        assert CellKey(c, rowId) in r.cells <==> CellKey(c, rowId) in next.cells || w.Some?;
      }
    }
  }

  /** Data whose columns are all unknown locally (deleted columns the server still lists) writes nothing. */
  lemma {:induction false} UnknownColumnsSkipped(s: Store, account: AccountId, rowId: LocalId, data: seq<RemoteData>,
                                                 decode: (LocalId, string) -> string)
    requires Valid(s) && rowId in s.rows
    requires forall i :: 0 <= i < |data| ==> ColumnKey(account, data[i].remoteColumnId) !in s.columnIds
    ensures UpsertCells(s, account, rowId, data, decode) == s
    decreases |data|
  {
    if data != [] {
      assert ColumnKey(account, data[0].remoteColumnId) !in s.columnIds;
      UnknownColumnsSkipped(s, account, rowId, data[1..], decode);
    }
  }

  /** The local row a fetched row becomes: the table's account and id, its server id, `VOID`, the page's `ETag`. */
  function RowOf(t: Table, f: Fetched): (row: Row) {
    Row(t.base.accountId, t.base.id, Some(f.row.remoteId), Void, f.eTag)
  }

  /** `ids` maps each server id to a row of `account` that holds it. */
  predicate Located(rows: map<LocalId, Row>, account: AccountId, ids: map<RemoteId, LocalId>) {
    forall rid :: rid in ids ==> Holds(rows, ids[rid], account, rid)
  }

  /**
   Updates the row under the local id the lookup gives for the fetched row's
   server id, or inserts it under a fresh id; returns the store and the id.
   */
  function Place(s: Store, t: Table, ids: map<RemoteId, LocalId>, f: Fetched): (p: (Store, LocalId))
    requires Valid(s) && Located(s.rows, t.base.accountId, ids)
    ensures Valid(p.0) && Located(p.0.rows, t.base.accountId, ids)
    ensures p.0.rows == s.rows[p.1 := RowOf(t, f)]
    ensures f.row.remoteId in ids ==> p.1 == ids[f.row.remoteId] && p.0.nextRowId == s.nextRowId
    ensures f.row.remoteId !in ids ==> p.1 == s.nextRowId && p.0.nextRowId == s.nextRowId + 1
    ensures p.0.cells == s.cells && p.0.tables == s.tables && p.0.columnIds == s.columnIds
  {
    var row := RowOf(t, f);
    if f.row.remoteId in ids then (UpdateRow(s, ids[f.row.remoteId], row), ids[f.row.remoteId])
    else InsertRow(s, row)
  }

  datatype Upserted = Upserted(store: Store, ids: seq<LocalId>)

  /**
   The loop over `fetchedRows`: a row whose server id the lookup `ids`
   (made once, before the loop) maps is updated under that local id, any
   other row is inserted under a fresh id; then its cells are upserted. The
   local id each fetched row got is returned alongside.
   */
  function UpsertRows(s: Store, t: Table, ids: map<RemoteId, LocalId>, fetched: seq<Fetched>,
                      decode: (LocalId, string) -> string): (r: Upserted)
    requires Valid(s) && Located(s.rows, t.base.accountId, ids)
    ensures Valid(r.store) && |r.ids| == |fetched|
    ensures r.store.tables == s.tables && r.store.columnIds == s.columnIds
    decreases |fetched|
  {
    if fetched == [] then Upserted(s, [])
    else
      var placed := Place(s, t, ids, fetched[0]);
      var next := UpsertCells(placed.0, t.base.accountId, placed.1, fetched[0].row.data, decode);
      var r := UpsertRows(next, t, ids, fetched[1..], decode);
      Upserted(r.store, [placed.1] + r.ids)
  }

  /** The store after placing the first fetched row and upserting its cells. */
  function AfterFirst(s: Store, t: Table, ids: map<RemoteId, LocalId>, f: Fetched,
                      decode: (LocalId, string) -> string): (next: Store)
    requires Valid(s) && Located(s.rows, t.base.accountId, ids)
    ensures Valid(next) && Located(next.rows, t.base.accountId, ids)
  {
    var placed := Place(s, t, ids, f);
    UpsertCells(placed.0, t.base.accountId, placed.1, f.row.data, decode)
  }

  /** What the first turn of the row loop does to the store. */
  lemma AfterFirstSpec(s: Store, t: Table, ids: map<RemoteId, LocalId>, f: Fetched, decode: (LocalId, string) -> string)
    requires Valid(s) && Located(s.rows, t.base.accountId, ids)
    ensures var next := AfterFirst(s, t, ids, f, decode);
      var p := Place(s, t, ids, f);
      && next.rows == s.rows[p.1 := RowOf(t, f)] && next.nextRowId == p.0.nextRowId
      && next.columnIds == s.columnIds
      && CellsWritten(s.cells, next.cells, s.columnIds, t.base.accountId, p.1, f.row.data, decode)
      && (forall k: CellKey :: k.rowId != p.1 ==> (k in next.cells <==> k in s.cells))
      && (forall k: CellKey :: k.rowId != p.1 && k in s.cells ==> next.cells[k] == s.cells[k])
      && (forall k :: k in s.cells ==> k in next.cells && next.cells[k].id == s.cells[k].id)
  {
    var p := Place(s, t, ids, f);
    UpsertCellsSpec(p.0, t.base.accountId, p.1, f.row.data, decode);
  }

  /** One turn of the row loop. */
  lemma UpsertRowsStep(s: Store, t: Table, ids: map<RemoteId, LocalId>, fetched: seq<Fetched>,
                       decode: (LocalId, string) -> string)
    requires Valid(s) && Located(s.rows, t.base.accountId, ids) && fetched != []
    ensures var r := UpsertRows(s, t, ids, fetched, decode);
      var q := UpsertRows(AfterFirst(s, t, ids, fetched[0], decode), t, ids, fetched[1..], decode);
      r.store == q.store && r.ids == [Place(s, t, ids, fetched[0]).1] + q.ids
  {
  }

  /**
   A fetched row whose server id the lookup maps keeps that local id; any
   other gets a fresh id at or above the store's counter, fresh ids rising in
   fetch order.
   */
  lemma {:induction false} UpsertRowsIds(s: Store, t: Table, ids: map<RemoteId, LocalId>, fetched: seq<Fetched>,
                                         decode: (LocalId, string) -> string)
    requires Valid(s) && Located(s.rows, t.base.accountId, ids)
    ensures var r := UpsertRows(s, t, ids, fetched, decode);
      && |r.ids| == |fetched|
      && s.nextRowId <= r.store.nextRowId
      && (forall i :: 0 <= i < |fetched| && fetched[i].row.remoteId in ids ==>
            r.ids[i] == ids[fetched[i].row.remoteId])
      && (forall i :: 0 <= i < |fetched| && fetched[i].row.remoteId !in ids ==>
            s.nextRowId <= r.ids[i] < r.store.nextRowId)
      && (forall i, j :: 0 <= i < j < |fetched| && fetched[i].row.remoteId !in ids && fetched[j].row.remoteId !in ids ==>
            r.ids[i] < r.ids[j])
    decreases |fetched|
  {
    if fetched != [] {
      UpsertRowsStep(s, t, ids, fetched, decode);
      var next := AfterFirst(s, t, ids, fetched[0], decode);
      var id := Place(s, t, ids, fetched[0]).1;
      assert next.nextRowId == s.nextRowId + (if fetched[0].row.remoteId in ids then 0 else 1);
      UpsertRowsIds(next, t, ids, fetched[1..], decode);
      var q := UpsertRows(next, t, ids, fetched[1..], decode);
      var r := UpsertRows(s, t, ids, fetched, decode);
      IdsShift(fetched, ids, r.ids, q.ids, id, s.nextRowId, next.nextRowId, r.store.nextRowId);
    }
  }

  lemma IdsShift(fetched: seq<Fetched>, ids: map<RemoteId, LocalId>, all: seq<LocalId>, later: seq<LocalId>,
                 id: LocalId, lo: nat, mid: nat, hi: nat)
    requires fetched != [] && all == [id] + later && |later| == |fetched| - 1
    requires fetched[0].row.remoteId in ids ==> id == ids[fetched[0].row.remoteId] && mid == lo
    requires fetched[0].row.remoteId !in ids ==> id == lo && mid == lo + 1
    requires mid <= hi
    requires forall i :: 0 <= i < |later| && fetched[1..][i].row.remoteId in ids ==>
      later[i] == ids[fetched[1..][i].row.remoteId]
    requires forall i :: 0 <= i < |later| && fetched[1..][i].row.remoteId !in ids ==> mid <= later[i] < hi
    requires forall i, j ::
      (0 <= i < j < |later| && fetched[1..][i].row.remoteId !in ids && fetched[1..][j].row.remoteId !in ids) ==>
      later[i] < later[j]
    ensures forall i :: 0 <= i < |fetched| && fetched[i].row.remoteId in ids ==> all[i] == ids[fetched[i].row.remoteId]
    ensures forall i :: 0 <= i < |fetched| && fetched[i].row.remoteId !in ids ==> lo <= all[i] < hi
    ensures forall i, j ::
      (0 <= i < j < |fetched| && fetched[i].row.remoteId !in ids && fetched[j].row.remoteId !in ids) ==>
      all[i] < all[j]
  {
    forall i | 0 < i < |fetched|
      ensures all[i] == later[i - 1] && fetched[i] == fetched[1..][i - 1]
    {
    }
  }

  /**
   The loop touches only the rows it placed: every other row, and every cell
   of another row, is as it was; the rows after it are those before it plus
   the placed ones.
   */
  lemma {:induction false} UpsertRowsFrame(s: Store, t: Table, ids: map<RemoteId, LocalId>, fetched: seq<Fetched>,
                                           decode: (LocalId, string) -> string)
    requires Valid(s) && Located(s.rows, t.base.accountId, ids)
    ensures var r := UpsertRows(s, t, ids, fetched, decode);
      && (forall id :: id in r.store.rows <==> id in s.rows || id in r.ids)
      && (forall id :: id in s.rows && id !in r.ids ==> r.store.rows[id] == s.rows[id])
      && (forall k: CellKey :: k.rowId !in r.ids ==> (k in r.store.cells <==> k in s.cells))
      && (forall k: CellKey :: k.rowId !in r.ids && k in s.cells ==> r.store.cells[k] == s.cells[k])
      && (forall k :: k in s.cells ==> k in r.store.cells && r.store.cells[k].id == s.cells[k].id)
    decreases |fetched|
  {
    if fetched != [] {
      UpsertRowsStep(s, t, ids, fetched, decode);
      var placed := Place(s, t, ids, fetched[0]);
      var next := AfterFirst(s, t, ids, fetched[0], decode);
      UpsertCellsSpec(placed.0, t.base.accountId, placed.1, fetched[0].row.data, decode);
      UpsertRowsFrame(next, t, ids, fetched[1..], decode);
    }
  }

  /** Distinct server ids are placed under distinct local ids. */
  lemma UpsertRowsDistinct(s: Store, t: Table, ids: map<RemoteId, LocalId>, fetched: seq<Fetched>,
                           decode: (LocalId, string) -> string)
    requires Valid(s) && Located(s.rows, t.base.accountId, ids)
    requires DistinctRemoteIds(fetched)
    ensures var r := UpsertRows(s, t, ids, fetched, decode);
      forall i, j :: 0 <= i < j < |r.ids| ==> r.ids[i] != r.ids[j]
  {
    UpsertRowsIds(s, t, ids, fetched, decode);
    var r := UpsertRows(s, t, ids, fetched, decode);
    forall i, j | 0 <= i < j < |r.ids|
      ensures r.ids[i] != r.ids[j]
    {
      var a := fetched[i].row.remoteId;
      var b := fetched[j].row.remoteId;
      if a in ids && b in ids {
        assert s.rows[ids[a]].remoteId == Some(a) && s.rows[ids[b]].remoteId == Some(b);
      } else if a in ids {
        assert ids[a] in s.rows;
      } else if b in ids {
        assert ids[b] in s.rows;
      }
    }
  }

  /** The first fetched row's local id is not given to any later one. */
  lemma FirstPlacedOnce(s: Store, t: Table, ids: map<RemoteId, LocalId>, fetched: seq<Fetched>,
                        decode: (LocalId, string) -> string)
    requires Valid(s) && Located(s.rows, t.base.accountId, ids)
    requires DistinctRemoteIds(fetched) && fetched != []
    ensures Place(s, t, ids, fetched[0]).1 !in UpsertRows(AfterFirst(s, t, ids, fetched[0], decode), t, ids, fetched[1..], decode).ids
  {
    var r := UpsertRows(s, t, ids, fetched, decode);
    var q := UpsertRows(AfterFirst(s, t, ids, fetched[0], decode), t, ids, fetched[1..], decode);
    UpsertRowsStep(s, t, ids, fetched, decode);
    UpsertRowsDistinct(s, t, ids, fetched, decode);
    forall j | 0 <= j < |q.ids| ensures q.ids[j] != r.ids[0] {
      assert q.ids[j] == r.ids[j + 1];
    }
  }

  /** Each placed row holds what the fetched row it came from says, tagged with the table. */
  lemma {:induction false} UpsertRowsContents(s: Store, t: Table, ids: map<RemoteId, LocalId>, fetched: seq<Fetched>,
                                              decode: (LocalId, string) -> string)
    requires Valid(s) && Located(s.rows, t.base.accountId, ids)
    requires DistinctRemoteIds(fetched)
    ensures var r := UpsertRows(s, t, ids, fetched, decode);
      && |r.ids| == |fetched|
      && forall i :: 0 <= i < |fetched| ==> r.ids[i] in r.store.rows && r.store.rows[r.ids[i]] == RowOf(t, fetched[i])
    decreases |fetched|
  {
    if fetched != [] {
      var r := UpsertRows(s, t, ids, fetched, decode);
      UpsertRowsStep(s, t, ids, fetched, decode);
      var next := AfterFirst(s, t, ids, fetched[0], decode);
      var q := UpsertRows(next, t, ids, fetched[1..], decode);
      AfterFirstSpec(s, t, ids, fetched[0], decode);
      FirstPlacedOnce(s, t, ids, fetched, decode);
      assert DistinctRemoteIds(fetched[1..]);
      UpsertRowsContents(next, t, ids, fetched[1..], decode);
      UpsertRowsFrame(next, t, ids, fetched[1..], decode);
      ContentsStep(t, next.rows, q.store.rows, r.ids, q.ids, fetched);
    }
  }

  /** Combines the first placed row with the rows placed after it. */
  lemma ContentsStep(t: Table, mid: map<LocalId, Row>, after: map<LocalId, Row>,
                     all: seq<LocalId>, later: seq<LocalId>, fetched: seq<Fetched>)
    requires |all| == |fetched| > 0 && all == [all[0]] + later && all[0] !in later
    requires all[0] in mid && mid[all[0]] == RowOf(t, fetched[0])
    requires forall i :: 0 <= i < |later| ==> later[i] in after && after[later[i]] == RowOf(t, fetched[1..][i])
    requires forall id :: id in mid && id !in later ==> id in after && after[id] == mid[id]
    ensures forall i :: 0 <= i < |fetched| ==> all[i] in after && after[all[i]] == RowOf(t, fetched[i])
  {
    forall i | 0 < i < |fetched|
      ensures all[i] in after && after[all[i]] == RowOf(t, fetched[i])
    {
      assert all[i] == later[i - 1] && fetched[i] == fetched[1..][i - 1];
    }
  }

  /**
   Each placed row's cells are those its fetched data writes, over the cells
   it had: a column the data reaches holds the decoded value of the last item
   for it, any other column keeps its old cell.
   */
  lemma {:induction false} UpsertRowsCells(s: Store, t: Table, ids: map<RemoteId, LocalId>, fetched: seq<Fetched>,
                                           decode: (LocalId, string) -> string)
    requires Valid(s) && Located(s.rows, t.base.accountId, ids)
    requires DistinctRemoteIds(fetched)
    ensures var r := UpsertRows(s, t, ids, fetched, decode);
      && |r.ids| == |fetched|
      && forall i :: 0 <= i < |fetched| ==>
           CellsWritten(s.cells, r.store.cells, s.columnIds, t.base.accountId, r.ids[i], fetched[i].row.data, decode)
    decreases |fetched|
  {
    if fetched != [] {
      var r := UpsertRows(s, t, ids, fetched, decode);
      UpsertRowsStep(s, t, ids, fetched, decode);
      var next := AfterFirst(s, t, ids, fetched[0], decode);
      var q := UpsertRows(next, t, ids, fetched[1..], decode);
      AfterFirstSpec(s, t, ids, fetched[0], decode);
      FirstPlacedOnce(s, t, ids, fetched, decode);
      assert DistinctRemoteIds(fetched[1..]);
      UpsertRowsCells(next, t, ids, fetched[1..], decode);
      UpsertRowsFrame(next, t, ids, fetched[1..], decode);
      CellsStep(s.cells, next.cells, q.store.cells, s.columnIds, t.base.accountId, r.ids, q.ids, fetched, decode);
    }
  }

  /** Combines the first row's cell writes with those of the rows after it. */
  lemma CellsStep(before: map<CellKey, Cell>, mid: map<CellKey, Cell>, after: map<CellKey, Cell>,
                  columnIds: map<ColumnKey, LocalId>, account: AccountId, all: seq<LocalId>, later: seq<LocalId>,
                  fetched: seq<Fetched>, decode: (LocalId, string) -> string)
    requires |all| == |fetched| > 0 && all == [all[0]] + later && all[0] !in later
    requires CellsWritten(before, mid, columnIds, account, all[0], fetched[0].row.data, decode)
    requires forall k: CellKey :: k.rowId != all[0] ==> (k in mid <==> k in before)
    requires forall k: CellKey :: k.rowId != all[0] && k in before ==> mid[k] == before[k]
    requires forall i :: 0 <= i < |later| ==>
      CellsWritten(mid, after, columnIds, account, later[i], fetched[1..][i].row.data, decode)
    requires forall k: CellKey :: k.rowId !in later ==> (k in after <==> k in mid)
    requires forall k: CellKey :: k.rowId !in later && k in mid ==> after[k] == mid[k]
    ensures forall i :: 0 <= i < |fetched| ==> CellsWritten(before, after, columnIds, account, all[i], fetched[i].row.data, decode)
  {
    UntouchedRowCells(before, mid, after, columnIds, account, all[0], fetched[0].row.data, decode);
    forall i | 0 < i < |fetched|
      ensures CellsWritten(before, after, columnIds, account, all[i], fetched[i].row.data, decode)
    {
      assert all[i] == later[i - 1] && fetched[i] == fetched[1..][i - 1];
      CellsOfOtherRow(before, mid, after, columnIds, account, all[i], fetched[i].row.data, decode, all[0]);
    }
  }

  lemma UntouchedRowCells(before: map<CellKey, Cell>, mid: map<CellKey, Cell>, after: map<CellKey, Cell>,
                          columnIds: map<ColumnKey, LocalId>, account: AccountId, rowId: LocalId, data: seq<RemoteData>,
                          decode: (LocalId, string) -> string)
    requires CellsWritten(before, mid, columnIds, account, rowId, data, decode)
    requires forall k: CellKey :: k.rowId == rowId ==> (k in after <==> k in mid)
    requires forall k: CellKey :: k.rowId == rowId && k in mid ==> after[k] == mid[k]
    ensures CellsWritten(before, after, columnIds, account, rowId, data, decode)
  {
    forall c ensures CellKey(c, rowId) in after <==> CellKey(c, rowId) in mid {
      assert CellKey(c, rowId).rowId == rowId;
    }
  }

  lemma CellsOfOtherRow(before: map<CellKey, Cell>, mid: map<CellKey, Cell>, after: map<CellKey, Cell>,
                        columnIds: map<ColumnKey, LocalId>, account: AccountId, rowId: LocalId, data: seq<RemoteData>,
                        decode: (LocalId, string) -> string, other: LocalId)
    requires rowId != other
    requires forall k: CellKey :: k.rowId != other ==> (k in mid <==> k in before)
    requires forall k: CellKey :: k.rowId != other && k in before ==> mid[k] == before[k]
    requires CellsWritten(mid, after, columnIds, account, rowId, data, decode)
    ensures CellsWritten(before, after, columnIds, account, rowId, data, decode)
  {
    forall c ensures CellKey(c, rowId) in mid <==> CellKey(c, rowId) in before {
      assert CellKey(c, rowId).rowId != other;
    }
  }

  /**
   With a lookup that finds every fetched server id the account already
   holds, the loop never gives two rows of the account the same server id.
   */
  lemma UpsertRowsUnique(s: Store, t: Table, ids: map<RemoteId, LocalId>, fetched: seq<Fetched>,
                         decode: (LocalId, string) -> string)
    requires Valid(s) && Located(s.rows, t.base.accountId, ids) && UniqueRemoteIds(s)
    requires DistinctRemoteIds(fetched)
    requires forall i, id :: 0 <= i < |fetched| && Holds(s.rows, id, t.base.accountId, fetched[i].row.remoteId) ==>
      fetched[i].row.remoteId in ids
    ensures UniqueRemoteIds(UpsertRows(s, t, ids, fetched, decode).store)
  {
    var u := UpsertRows(s, t, ids, fetched, decode);
    UpsertRowsIds(s, t, ids, fetched, decode);
    UpsertRowsFrame(s, t, ids, fetched, decode);
    UpsertRowsContents(s, t, ids, fetched, decode);
    forall a, b | a in u.store.rows && b in u.store.rows && u.store.rows[a].remoteId.Some? &&
                  u.store.rows[a].remoteId == u.store.rows[b].remoteId &&
                  u.store.rows[a].accountId == u.store.rows[b].accountId
      ensures a == b
    {
      var rid := u.store.rows[a].remoteId.value;
      var acc := u.store.rows[a].accountId;
      // Each of a and b is either a placed row or an old row left as it was.
      SameHolder(s, t, ids, fetched, u, a, acc, rid);
      SameHolder(s, t, ids, fetched, u, b, acc, rid);
    }
  }

  /**
   After the loop, a row of `account` holding `rid` is: the row placed for
   the fetched row with that id if there is one, else an old row, unchanged.
   */
  lemma SameHolder(s: Store, t: Table, ids: map<RemoteId, LocalId>, fetched: seq<Fetched>, u: Upserted,
                   id: LocalId, account: AccountId, rid: RemoteId)
    requires Valid(s) && Located(s.rows, t.base.accountId, ids) && UniqueRemoteIds(s)
    requires DistinctRemoteIds(fetched)
    requires forall i, id :: 0 <= i < |fetched| && Holds(s.rows, id, t.base.accountId, fetched[i].row.remoteId) ==>
      fetched[i].row.remoteId in ids
    requires |u.ids| == |fetched|
    requires forall i :: 0 <= i < |fetched| && fetched[i].row.remoteId in ids ==> u.ids[i] == ids[fetched[i].row.remoteId]
    requires forall id :: id in u.store.rows <==> id in s.rows || id in u.ids
    requires forall id :: id in s.rows && id !in u.ids ==> u.store.rows[id] == s.rows[id]
    requires forall i :: 0 <= i < |fetched| ==> u.ids[i] in u.store.rows && u.store.rows[u.ids[i]] == RowOf(t, fetched[i])
    requires Holds(u.store.rows, id, account, rid)
    ensures forall i :: 0 <= i < |fetched| && account == t.base.accountId && fetched[i].row.remoteId == rid ==> id == u.ids[i]
    ensures (forall i :: 0 <= i < |fetched| ==> account != t.base.accountId || fetched[i].row.remoteId != rid) ==>
      id in s.rows && Holds(s.rows, id, account, rid)
  {
    forall i | 0 <= i < |fetched| && account == t.base.accountId && fetched[i].row.remoteId == rid
      ensures id == u.ids[i]
    {
      forall j | 0 <= j < |fetched| && u.ids[j] == id
        ensures j == i
      {
        assert fetched[j].row.remoteId == rid;
      }
      assert id in s.rows && id !in u.ids ==> Holds(s.rows, id, account, rid) && id == ids[rid];
    }
  }

  datatype PullResult = PullResult(store: Store, calls: seq<Call>, consumed: nat, outcome: Outcome)

  /**
   What follows the pagination loop: look the fetched server ids up in the
   account once, write the rows and their cells, then delete the table's
   rows whose server id was not fetched.
   */
  function WriteFetched(s: Store, t: Table, fetched: seq<Fetched>, decode: (LocalId, string) -> string): (r: Store)
    requires Valid(s)
    ensures Valid(r) && r.tables == s.tables && r.columnIds == s.columnIds
  {
    var keep := RemoteIdsOf(fetched);
    var ids := RowIdsByRemote(s, t.base.accountId, keep);
    var u := UpsertRows(s, t, ids, fetched, decode);
    DeleteExcept(u.store, t.base.id, keep)
  }

  /**
   One turn of the table loop: fetch every page, look the fetched server ids
   up in the account once, write the rows and their cells, then delete the
   table's rows whose server id was not fetched. If fetching fails, nothing
   is written for this table.
   */
  function PullTable(s: Store, t: Table, limit: nat, pages: seq<PageReply>,
                     decode: (LocalId, string) -> string): (r: PullResult)
    requires Valid(s)
    ensures Valid(r.store) && r.store.tables == s.tables && r.store.columnIds == s.columnIds
    ensures r.consumed <= |pages|
  {
    var f := FetchRows(t.base.remoteId, limit, 0, [], pages);
    if f.outcome != Done then PullResult(s, f.calls, f.consumed, f.outcome)
    else PullResult(WriteFetched(s, t, f.fetched, decode), f.calls, f.consumed, Done)
  }

  /** The table loop: tables in order, each consuming the page replies the previous ones left. */
  function PullTables(s: Store, tables: seq<Table>, limit: nat, pages: seq<PageReply>,
                      decode: (LocalId, string) -> string): (r: PullResult)
    requires Valid(s)
    ensures Valid(r.store) && r.store.tables == s.tables && r.store.columnIds == s.columnIds
    ensures r.consumed <= |pages|
    decreases |tables|
  {
    if tables == [] then PullResult(s, [], 0, Done)
    else
      var p := PullTable(s, tables[0], limit, pages, decode);
      if p.outcome != Done then p
      else
        var q := PullTables(p.store, tables[1..], limit, pages[p.consumed..], decode);
        PullResult(q.store, p.calls + q.calls, p.consumed + q.consumed, q.outcome)
  }

  /** One turn of the table loop. */
  lemma PullTablesStep(s: Store, tables: seq<Table>, limit: nat, pages: seq<PageReply>,
                       decode: (LocalId, string) -> string)
    requires Valid(s) && tables != []
    ensures var p := PullTable(s, tables[0], limit, pages, decode);
      var r := PullTables(s, tables, limit, pages, decode);
      && (p.outcome != Done ==> r == p)
      && (p.outcome == Done ==>
            var q := PullTables(p.store, tables[1..], limit, pages[p.consumed..], decode);
            r == PullResult(q.store, p.calls + q.calls, p.consumed + q.consumed, q.outcome))
  {
  }

  /** What pulling one table writes: nothing if fetching fails, else the fetched rows. */
  lemma PullTableStore(s: Store, t: Table, limit: nat, pages: seq<PageReply>, decode: (LocalId, string) -> string)
    requires Valid(s)
    ensures var p := PullTable(s, t, limit, pages, decode);
      var f := FetchRows(t.base.remoteId, limit, 0, [], pages);
      && p.outcome == f.outcome
      && (p.outcome != Done ==> p.store == s)
      && (p.outcome == Done ==> p.store == WriteFetched(s, t, f.fetched, decode))
  {
  }

  /** `pullRemoteChanges(api, account)`: the table loop over the account's tables, `limit` rows per page. */
  function PullRemoteChanges(s: Store, account: AccountId, limit: nat, pages: seq<PageReply>,
                             decode: (LocalId, string) -> string): (r: PullResult)
    requires Valid(s)
    ensures Valid(r.store) && r.store.tables == s.tables && r.store.columnIds == s.columnIds
    ensures r.consumed <= |pages|
  {
    PullTables(s, TablesOf(s.tables, account), limit, pages, decode)
  }

  /** The lookup made from the fetched ids finds every fetched id some row of the account already holds. */
  lemma LookupComplete(s: Store, account: AccountId, fetched: seq<Fetched>)
    requires Valid(s)
    ensures var ids := RowIdsByRemote(s, account, RemoteIdsOf(fetched));
      && Located(s.rows, account, ids)
      && forall i, id :: 0 <= i < |fetched| && Holds(s.rows, id, account, fetched[i].row.remoteId) ==>
           fetched[i].row.remoteId in ids
  {
    forall i | 0 <= i < |fetched| ensures fetched[i].row.remoteId in RemoteIdsOf(fetched) {
      RemoteIdsOfIndex(fetched, fetched[i].row.remoteId);
    }
  }

  /**
   After the fetched rows are written, every fetched row is in the database
   exactly once, tagged with the table and `VOID`, with the cells its data
   writes. A row the account already held under that server id keeps its
   local id and is overwritten whatever its status; no other existing row is
   reused.
   */
  lemma WriteFetchedRows(s: Store, t: Table, fetched: seq<Fetched>, decode: (LocalId, string) -> string)
    requires Valid(s) && DistinctRemoteIds(fetched)
    ensures var r := WriteFetched(s, t, fetched, decode);
      && (forall i :: 0 <= i < |fetched| ==> exists id ::
            && id in r.rows && r.rows[id] == RowOf(t, fetched[i])
            && (id in s.rows ==> Holds(s.rows, id, t.base.accountId, fetched[i].row.remoteId))
            && CellsWritten(s.cells, r.cells, s.columnIds, t.base.accountId, id, fetched[i].row.data, decode))
  {
    var r := WriteFetched(s, t, fetched, decode);
    var keep := RemoteIdsOf(fetched);
    var acc := t.base.accountId;
    var ids := RowIdsByRemote(s, acc, keep);
    var u := UpsertRows(s, t, ids, fetched, decode);
    UpsertRowsIds(s, t, ids, fetched, decode);
    UpsertRowsCells(s, t, ids, fetched, decode);
    WriteFetchedPlaced(s, t, fetched, decode);
    forall i | 0 <= i < |fetched|
      ensures u.ids[i] in s.rows ==> Holds(s.rows, u.ids[i], acc, fetched[i].row.remoteId)
      ensures CellsWritten(s.cells, r.cells, s.columnIds, acc, u.ids[i], fetched[i].row.data, decode)
    {
      UntouchedRowCells(s.cells, u.store.cells, r.cells, s.columnIds, acc, u.ids[i], fetched[i].row.data, decode);
    }
  }

  /** Every row the loop placed survives the deletion of stale rows that follows it. */
  lemma WriteFetchedPlaced(s: Store, t: Table, fetched: seq<Fetched>, decode: (LocalId, string) -> string)
    requires Valid(s) && DistinctRemoteIds(fetched)
    ensures var u := UpsertRows(s, t, RowIdsByRemote(s, t.base.accountId, RemoteIdsOf(fetched)), fetched, decode);
      var r := WriteFetched(s, t, fetched, decode);
      forall i :: 0 <= i < |fetched| ==> u.ids[i] in r.rows && r.rows[u.ids[i]] == RowOf(t, fetched[i])
  {
    var keep := RemoteIdsOf(fetched);
    var ids := RowIdsByRemote(s, t.base.accountId, keep);
    var u := UpsertRows(s, t, ids, fetched, decode);
    UpsertRowsContents(s, t, ids, fetched, decode);
    forall i | 0 <= i < |fetched| ensures !Stale(u.store.rows[u.ids[i]], t.base.id, keep) {
      RemoteIdsOfIndex(fetched, fetched[i].row.remoteId);
    }
  }

  /** The row placed for a fetched server id is the one the account already held under it, if any. */
  lemma HolderIsPlaced(s: Store, t: Table, ids: map<RemoteId, LocalId>, fetched: seq<Fetched>,
                       decode: (LocalId, string) -> string)
    requires Valid(s) && Located(s.rows, t.base.accountId, ids) && UniqueRemoteIds(s)
    requires forall i, id :: 0 <= i < |fetched| && Holds(s.rows, id, t.base.accountId, fetched[i].row.remoteId) ==>
      fetched[i].row.remoteId in ids
    ensures var u := UpsertRows(s, t, ids, fetched, decode);
      forall i, id :: 0 <= i < |fetched| && Holds(s.rows, id, t.base.accountId, fetched[i].row.remoteId) ==>
        id == u.ids[i]
  {
    UpsertRowsIds(s, t, ids, fetched, decode);
  }

  /**
   A row the account already held under a fetched server id keeps its local
   id and takes the fetched contents, whatever its status was.
   */
  lemma WriteFetchedOverwrites(s: Store, t: Table, fetched: seq<Fetched>, decode: (LocalId, string) -> string)
    requires Valid(s) && UniqueRemoteIds(s) && DistinctRemoteIds(fetched)
    ensures var r := WriteFetched(s, t, fetched, decode);
      forall i, id :: 0 <= i < |fetched| && Holds(s.rows, id, t.base.accountId, fetched[i].row.remoteId) ==>
        id in r.rows && r.rows[id] == RowOf(t, fetched[i])
  {
    var ids := RowIdsByRemote(s, t.base.accountId, RemoteIdsOf(fetched));
    LookupComplete(s, t.base.accountId, fetched);
    HolderIsPlaced(s, t, ids, fetched, decode);
    WriteFetchedPlaced(s, t, fetched, decode);
  }

  /** Writing the fetched rows never gives two rows of an account the same server id. */
  lemma WriteFetchedUnique(s: Store, t: Table, fetched: seq<Fetched>, decode: (LocalId, string) -> string)
    requires Valid(s) && UniqueRemoteIds(s) && DistinctRemoteIds(fetched)
    ensures UniqueRemoteIds(WriteFetched(s, t, fetched, decode))
  {
    var ids := RowIdsByRemote(s, t.base.accountId, RemoteIdsOf(fetched));
    LookupComplete(s, t.base.accountId, fetched);
    UpsertRowsUnique(s, t, ids, fetched, decode);
  }

  /** A row that holds one of `keep` in `account`. */
  predicate HoldsAny(row: Row, account: AccountId, keep: set<RemoteId>) {
    row.accountId == account && row.remoteId.Some? && row.remoteId.value in keep
  }

  /** The loop places no old row that holds none of the fetched ids in the table's account. */
  lemma UnplacedRows(s: Store, t: Table, ids: map<RemoteId, LocalId>, fetched: seq<Fetched>,
                     decode: (LocalId, string) -> string)
    requires Valid(s) && Located(s.rows, t.base.accountId, ids)
    ensures var u := UpsertRows(s, t, ids, fetched, decode);
      forall id :: id in s.rows && !HoldsAny(s.rows[id], t.base.accountId, RemoteIdsOf(fetched)) ==> id !in u.ids
  {
    var u := UpsertRows(s, t, ids, fetched, decode);
    UpsertRowsIds(s, t, ids, fetched, decode);
    forall id | id in s.rows && !HoldsAny(s.rows[id], t.base.accountId, RemoteIdsOf(fetched))
      ensures id !in u.ids
    {
      forall j | 0 <= j < |u.ids| ensures u.ids[j] != id {
        var rid := fetched[j].row.remoteId;
        RemoteIdsOfIndex(fetched, rid);
        if rid in ids {
          assert Holds(s.rows, ids[rid], t.base.accountId, rid);
        }
      }
    }
  }

  /**
   Writing the fetched rows leaves no row of the table with a server id that
   was not fetched, and a row outside the table afterwards is an old row, as
   it was.
   */
  lemma WriteFetchedTombstones(s: Store, t: Table, fetched: seq<Fetched>, decode: (LocalId, string) -> string)
    requires Valid(s)
    ensures var r := WriteFetched(s, t, fetched, decode);
      && (forall id :: id in r.rows && r.rows[id].tableId == t.base.id && r.rows[id].remoteId.Some? ==>
            r.rows[id].remoteId.value in RemoteIdsOf(fetched))
      && (forall id :: id in r.rows && r.rows[id].tableId != t.base.id ==> id in s.rows && r.rows[id] == s.rows[id])
  {
    var keep := RemoteIdsOf(fetched);
    var ids := RowIdsByRemote(s, t.base.accountId, keep);
    LookupComplete(s, t.base.accountId, fetched);
    OutsideTableUnchanged(s, t, ids, fetched, decode);
  }

  /** Every row the loop places belongs to the table, so a row outside it is an old row, as it was. */
  lemma {:induction false} OutsideTableUnchanged(s: Store, t: Table, ids: map<RemoteId, LocalId>,
                                                 fetched: seq<Fetched>, decode: (LocalId, string) -> string)
    requires Valid(s) && Located(s.rows, t.base.accountId, ids)
    ensures var u := UpsertRows(s, t, ids, fetched, decode);
      forall id :: id in u.store.rows && u.store.rows[id].tableId != t.base.id ==>
        id in s.rows && u.store.rows[id] == s.rows[id]
    decreases |fetched|
  {
    if fetched != [] {
      UpsertRowsStep(s, t, ids, fetched, decode);
      OutsideTableUnchanged(AfterFirst(s, t, ids, fetched[0], decode), t, ids, fetched[1..], decode);
    }
  }

  /**
   An old row that holds no fetched id in the table's account, and is
   outside the table or has no server id, stays as it was, with its cells.
   */
  lemma WriteFetchedKeeps(s: Store, t: Table, fetched: seq<Fetched>, decode: (LocalId, string) -> string)
    requires Valid(s)
    ensures var r := WriteFetched(s, t, fetched, decode);
      && (forall id :: (id in s.rows && !HoldsAny(s.rows[id], t.base.accountId, RemoteIdsOf(fetched)) &&
                        (s.rows[id].tableId != t.base.id || s.rows[id].remoteId.Null?)) ==>
            id in r.rows && r.rows[id] == s.rows[id])
      && (forall k :: (k in s.cells && !HoldsAny(s.rows[k.rowId], t.base.accountId, RemoteIdsOf(fetched)) &&
                       (s.rows[k.rowId].tableId != t.base.id || s.rows[k.rowId].remoteId.Null?)) ==>
            k in r.cells && r.cells[k] == s.cells[k])
  {
    var keep := RemoteIdsOf(fetched);
    var ids := RowIdsByRemote(s, t.base.accountId, keep);
    LookupComplete(s, t.base.accountId, fetched);
    UpsertRowsFrame(s, t, ids, fetched, decode);
    UnplacedRows(s, t, ids, fetched, decode);
  }

  /** The server ids held by rows of table `tableId`. */
  function TableRemoteIds(rows: map<LocalId, Row>, tableId: LocalId): (rids: set<RemoteId>)
    ensures forall id :: id in rows && rows[id].tableId == tableId && rows[id].remoteId.Some? ==>
      rows[id].remoteId.value in rids
  {
    set id | id in rows && rows[id].tableId == tableId && rows[id].remoteId.Some? :: rows[id].remoteId.value
  }

  /**
   Pulling a table issues exactly the page requests of the pagination loop
   and ends as it ends. If it fails nothing is written; if it finishes, the
   fetched rows (no two with one server id, and holding exactly the ids of
   the 200 pages consumed) are written.
   */
  lemma PullTableSpec(s: Store, t: Table, limit: nat, pages: seq<PageReply>, decode: (LocalId, string) -> string)
    requires Valid(s)
    ensures var f := FetchRows(t.base.remoteId, limit, 0, [], pages);
      var r := PullTable(s, t, limit, pages, decode);
      && r.calls == f.calls && r.consumed == f.consumed && r.outcome == f.outcome
      && |r.calls| == r.consumed + (if r.outcome == Failed(NoReply) then 1 else 0)
      && (forall k :: 0 <= k < |r.calls| ==> r.calls[k] == GetRowsCall(t.base.remoteId, limit, limit * OkPages(pages[..k])))
      && (r.outcome != Done ==> r.store == s)
      && (r.outcome == Done ==>
            && r.store == WriteFetched(s, t, f.fetched, decode)
            && DistinctRemoteIds(f.fetched)
            && RemoteIdsOf(f.fetched) == RemoteIdsOf(Bodies(pages[..r.consumed])))
  {
    FetchOffsets(t.base.remoteId, limit, 0, [], pages);
    FetchedDistinct(t.base.remoteId, limit, 0, [], pages);
    assert RemoteIdsOf([]) == {};
  }

  /**
   After a table is pulled successfully, the server ids its rows hold are
   exactly the ids the server listed for it.
   */
  lemma PullTableMirrors(s: Store, t: Table, limit: nat, pages: seq<PageReply>, decode: (LocalId, string) -> string)
    requires Valid(s)
    ensures var r := PullTable(s, t, limit, pages, decode);
      r.outcome == Done ==> TableRemoteIds(r.store.rows, t.base.id) == RemoteIdsOf(Bodies(pages[..r.consumed]))
  {
    var f := FetchRows(t.base.remoteId, limit, 0, [], pages);
    var r := PullTable(s, t, limit, pages, decode);
    PullTableSpec(s, t, limit, pages, decode);
    if r.outcome == Done {
      WriteFetchedMirrors(s, t, f.fetched, decode);
    }
  }

  /** After writing a distinct fetched set, the table's rows hold exactly its server ids. */
  lemma WriteFetchedMirrors(s: Store, t: Table, fetched: seq<Fetched>, decode: (LocalId, string) -> string)
    requires Valid(s) && DistinctRemoteIds(fetched)
    ensures TableRemoteIds(WriteFetched(s, t, fetched, decode).rows, t.base.id) == RemoteIdsOf(fetched)
  {
    var r := WriteFetched(s, t, fetched, decode);
    WriteFetchedRows(s, t, fetched, decode);
    WriteFetchedTombstones(s, t, fetched, decode);
    forall rid | rid in RemoteIdsOf(fetched) ensures rid in TableRemoteIds(r.rows, t.base.id) {
      RemoteIdsOfIndex(fetched, rid);
      var i :| 0 <= i < |fetched| && fetched[i].row.remoteId == rid;
      var id :| id in r.rows && r.rows[id] == RowOf(t, fetched[i]);
    }
  }

  /** Pulling never gives two rows of an account the same server id. */
  lemma {:induction false} PullTablesUnique(s: Store, tables: seq<Table>, limit: nat, pages: seq<PageReply>,
                                            decode: (LocalId, string) -> string)
    requires Valid(s) && UniqueRemoteIds(s)
    ensures UniqueRemoteIds(PullTables(s, tables, limit, pages, decode).store)
    decreases |tables|
  {
    if tables != [] {
      var t := tables[0];
      var f := FetchRows(t.base.remoteId, limit, 0, [], pages);
      var p := PullTable(s, t, limit, pages, decode);
      PullTablesStep(s, tables, limit, pages, decode);
      PullTableStore(s, t, limit, pages, decode);
      if p.outcome == Done {
        FetchedDistinct(t.base.remoteId, limit, 0, [], pages);
        WriteFetchedUnique(s, t, f.fetched, decode);
        PullTablesUnique(p.store, tables[1..], limit, pages[p.consumed..], decode);
      }
    }
  }

  /** A row of another account than `account` that sits in none of `tables`. */
  predicate Foreign(row: Row, account: AccountId, tables: seq<Table>) {
    row.accountId != account && forall t :: t in tables ==> row.tableId != t.base.id
  }

  /**
   A row of another account whose table is none of the pulled tables stays
   as it was, with its cells.
   */
  lemma {:induction false} PullTablesKeepOthers(s: Store, account: AccountId, tables: seq<Table>, limit: nat,
                                                pages: seq<PageReply>, decode: (LocalId, string) -> string)
    requires Valid(s)
    requires forall t :: t in tables ==> t.base.accountId == account
    ensures var r := PullTables(s, tables, limit, pages, decode);
      && (forall id :: id in s.rows && Foreign(s.rows[id], account, tables) ==>
            id in r.store.rows && r.store.rows[id] == s.rows[id])
      && (forall k :: k in s.cells && Foreign(s.rows[k.rowId], account, tables) ==>
            k in r.store.cells && r.store.cells[k] == s.cells[k])
    decreases |tables|
  {
    if tables != [] {
      var t := tables[0];
      var f := FetchRows(t.base.remoteId, limit, 0, [], pages);
      var p := PullTable(s, t, limit, pages, decode);
      PullTablesStep(s, tables, limit, pages, decode);
      PullTableStore(s, t, limit, pages, decode);
      if p.outcome == Done {
        WriteFetchedKeeps(s, t, f.fetched, decode);
        assert forall u :: u in tables[1..] ==> u in tables;
        PullTablesKeepOthers(p.store, account, tables[1..], limit, pages[p.consumed..], decode);
      }
    }
  }

  /** Pulling an account never gives two rows of an account the same server id. */
  lemma PullKeepsRemoteIdsUnique(s: Store, account: AccountId, limit: nat, pages: seq<PageReply>,
                                 decode: (LocalId, string) -> string)
    requires Valid(s) && UniqueRemoteIds(s)
    ensures UniqueRemoteIds(PullRemoteChanges(s, account, limit, pages, decode).store)
  {
    PullTablesUnique(s, TablesOf(s.tables, account), limit, pages, decode);
  }

  /**
   Pulling an account leaves the rows of other accounts that do not sit in
   one of its tables, and their cells, as they were.
   */
  lemma PullKeepsOtherAccounts(s: Store, account: AccountId, limit: nat, pages: seq<PageReply>,
                               decode: (LocalId, string) -> string)
    requires Valid(s)
    ensures var r := PullRemoteChanges(s, account, limit, pages, decode);
      && (forall id :: id in s.rows && Foreign(s.rows[id], account, TablesOf(s.tables, account)) ==>
            id in r.store.rows && r.store.rows[id] == s.rows[id])
      && (forall k :: k in s.cells && Foreign(s.rows[k.rowId], account, TablesOf(s.tables, account)) ==>
            k in r.store.cells && r.store.cells[k] == s.cells[k])
  {
    PullTablesKeepOthers(s, account, TablesOf(s.tables, account), limit, pages, decode);
  }
}
