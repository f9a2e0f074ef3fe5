/**
 Pulling a table a second time against the same page replies changes
 nothing. The pagination loop never reads the local database, so the second
 pass fetches the same rows; the lookup finds each of them under the local
 id the first pass gave it, the rows and cells it writes are those already
 there, and no row of the table is left to delete.
 */
module RowPullRepeat {
  import opened Nullable
  import opened Entity
  import opened TableEntity
  import opened LocalStore
  import opened RemoteApi
  import opened RowFetch
  import opened RowPull

  /**
   The cells after `data` is written for row `rowId` when every column it
   reaches already has a cell there: those cells keep their ids and take the
   last value for their column, in `account`; every other cell is unchanged.
   */
  function Rewritten(cells: map<CellKey, Cell>, columnIds: map<ColumnKey, LocalId>, account: AccountId,
                     rowId: LocalId, data: seq<RemoteData>, decode: (LocalId, string) -> string): (r: map<CellKey, Cell>)
    ensures r.Keys == cells.Keys
  {
    map k | k in cells ::
      var w := Written(columnIds, account, data, k.columnId, decode);
      if k.rowId == rowId && w.Some? then Cell(cells[k].id, account, w.value) else cells[k]
  }

  /** Every column `data` reaches already has a cell of `rowId` holding the value written, in `account`. */
  ghost predicate CellsInPlace(cells: map<CellKey, Cell>, columnIds: map<ColumnKey, LocalId>, account: AccountId,
                               rowId: LocalId, data: seq<RemoteData>, decode: (LocalId, string) -> string)
  {
    forall c :: var w := Written(columnIds, account, data, c, decode);
      w.Some? ==> && CellKey(c, rowId) in cells
                  && cells[CellKey(c, rowId)].value == w.value
                  && cells[CellKey(c, rowId)].accountId == account
  }

  /**
   Every fetched row is already stored, as `RowOf` makes it, under the local
   id the lookup `ids` gives for its server id, with the cells its data writes.
   */
  ghost predicate InPlace(s: Store, t: Table, ids: map<RemoteId, LocalId>, fetched: seq<Fetched>,
                          decode: (LocalId, string) -> string)
  {
    forall i :: 0 <= i < |fetched| ==>
      && fetched[i].row.remoteId in ids
      && ids[fetched[i].row.remoteId] in s.rows
      && s.rows[ids[fetched[i].row.remoteId]] == RowOf(t, fetched[i])
      && CellsInPlace(s.cells, s.columnIds, t.base.accountId, ids[fetched[i].row.remoteId], fetched[i].row.data, decode)
  }

  /**
   When every column the data reaches already has a cell of the row, the
   cell loop only rewrites those cells in place: no cell is added, no id
   changes, and each takes the last value written to its column.
   */
  lemma {:induction false} UpsertCellsOverExisting(s: Store, account: AccountId, rowId: LocalId, data: seq<RemoteData>,
                                                   decode: (LocalId, string) -> string)
    requires Valid(s) && rowId in s.rows
    requires forall c :: Written(s.columnIds, account, data, c, decode).Some? ==> CellKey(c, rowId) in s.cells
    ensures UpsertCells(s, account, rowId, data, decode) ==
      s.(cells := Rewritten(s.cells, s.columnIds, account, rowId, data, decode))
    decreases |data|
  {
    if data == [] {
      assert Rewritten(s.cells, s.columnIds, account, rowId, data, decode) == s.cells;
    } else {
      var key := ColumnKey(account, data[0].remoteColumnId);
      var next :=
        if key in s.columnIds then
          UpsertCell(s, CellKey(s.columnIds[key], rowId), account, decode(s.columnIds[key], data[0].value))
        else s;
      if key in s.columnIds {
        assert Written(s.columnIds, account, data, s.columnIds[key], decode).Some?;
      }
      assert next.cells.Keys == s.cells.Keys && next.nextCellId == s.nextCellId;
      forall c | Written(s.columnIds, account, data[1..], c, decode).Some?
        ensures CellKey(c, rowId) in next.cells
      {
        assert Written(s.columnIds, account, data, c, decode).Some?;
      }
      UpsertCellsOverExisting(next, account, rowId, data[1..], decode);
      RewrittenStep(s.cells, next.cells, s.columnIds, account, rowId, data, decode);
    }
  }

  /** One item of the data: writing it, then the rest, rewrites as the whole data does. */
  lemma RewrittenStep(cells: map<CellKey, Cell>, next: map<CellKey, Cell>, columnIds: map<ColumnKey, LocalId>,
                      account: AccountId, rowId: LocalId, data: seq<RemoteData>, decode: (LocalId, string) -> string)
    requires data != []
    requires var key := ColumnKey(account, data[0].remoteColumnId);
      && (key in columnIds ==>
            var k := CellKey(columnIds[key], rowId);
            k in cells && next == cells[k := Cell(cells[k].id, account, decode(columnIds[key], data[0].value))])
      && (key !in columnIds ==> next == cells)
    ensures Rewritten(next, columnIds, account, rowId, data[1..], decode) ==
      Rewritten(cells, columnIds, account, rowId, data, decode)
  {
    var l := Rewritten(next, columnIds, account, rowId, data[1..], decode);
    var r := Rewritten(cells, columnIds, account, rowId, data, decode);
    forall k | k in r ensures k in l && l[k] == r[k] {
      var later := Written(columnIds, account, data[1..], k.columnId, decode);
      assert Written(columnIds, account, data, k.columnId, decode) ==
        if later.Some? then later
        else if ColumnKey(account, data[0].remoteColumnId) in columnIds &&
                columnIds[ColumnKey(account, data[0].remoteColumnId)] == k.columnId
        then Some(decode(k.columnId, data[0].value))
        else later;
    }
  }

  /** A row whose cells are already in place for its data is left as it is by the cell loop. */
  lemma UpsertCellsUnchanged(s: Store, account: AccountId, rowId: LocalId, data: seq<RemoteData>,
                             decode: (LocalId, string) -> string)
    requires Valid(s) && rowId in s.rows
    requires CellsInPlace(s.cells, s.columnIds, account, rowId, data, decode)
    ensures UpsertCells(s, account, rowId, data, decode) == s
  {
    UpsertCellsOverExisting(s, account, rowId, data, decode);
    assert Rewritten(s.cells, s.columnIds, account, rowId, data, decode) == s.cells;
  }

  /** The row loop over rows that are all in place, with their cells, changes nothing. */
  lemma {:induction false} UpsertRowsInPlace(s: Store, t: Table, ids: map<RemoteId, LocalId>, fetched: seq<Fetched>,
                                             decode: (LocalId, string) -> string)
    requires Valid(s) && Located(s.rows, t.base.accountId, ids)
    requires InPlace(s, t, ids, fetched, decode)
    ensures UpsertRows(s, t, ids, fetched, decode).store == s
    decreases |fetched|
  {
    if fetched != [] {
      UpsertRowsStep(s, t, ids, fetched, decode);
      InPlaceSplit(s, t, ids, fetched, decode);
      AfterFirstInPlace(s, t, ids, fetched[0], decode);
      UpsertRowsInPlace(s, t, ids, fetched[1..], decode);
    }
  }

  /** Rows in place are the first one in place and the rest in place. */
  lemma InPlaceSplit(s: Store, t: Table, ids: map<RemoteId, LocalId>, fetched: seq<Fetched>,
                     decode: (LocalId, string) -> string)
    requires fetched != [] && InPlace(s, t, ids, fetched, decode)
    ensures var f := fetched[0];
      && f.row.remoteId in ids && ids[f.row.remoteId] in s.rows && s.rows[ids[f.row.remoteId]] == RowOf(t, f)
      && CellsInPlace(s.cells, s.columnIds, t.base.accountId, ids[f.row.remoteId], f.row.data, decode)
    ensures InPlace(s, t, ids, fetched[1..], decode)
  {
    assert forall i :: 0 <= i < |fetched| - 1 ==> fetched[1..][i] == fetched[i + 1];
  }

  /** A fetched row already in place, with its cells, is rewritten as it is. */
  lemma AfterFirstInPlace(s: Store, t: Table, ids: map<RemoteId, LocalId>, f: Fetched,
                          decode: (LocalId, string) -> string)
    requires Valid(s) && Located(s.rows, t.base.accountId, ids)
    requires f.row.remoteId in ids && ids[f.row.remoteId] in s.rows && s.rows[ids[f.row.remoteId]] == RowOf(t, f)
    requires CellsInPlace(s.cells, s.columnIds, t.base.accountId, ids[f.row.remoteId], f.row.data, decode)
    ensures AfterFirst(s, t, ids, f, decode) == s
  {
    var id := ids[f.row.remoteId];
    assert s.rows[id := RowOf(t, f)] == s.rows;
    assert Place(s, t, ids, f) == (s, id);
    UpsertCellsUnchanged(s, t.base.accountId, id, f.row.data, decode);
  }

  /** Deleting the table's stale rows when there are none changes nothing. */
  lemma DeleteExceptNothingStale(s: Store, tableId: LocalId, keep: set<RemoteId>)
    requires forall id :: id in s.rows ==> !Stale(s.rows[id], tableId, keep)
    ensures DeleteExcept(s, tableId, keep) == s
  {
    var gone := set id | id in s.rows && Stale(s.rows[id], tableId, keep);
    assert gone == {};
    assert s.rows - gone == s.rows;
    assert (map k | k in s.cells && k.rowId !in gone :: s.cells[k]) == s.cells;
  }

  /**
   After the fetched rows are written, the row placed for a fetched server id
   is the lowest local id of the account that holds it: any other holder is
   an old row the first lookup passed over for a lower one.
   */
  lemma PlacedIsLowest(s: Store, t: Table, fetched: seq<Fetched>, decode: (LocalId, string) -> string, i: nat)
    requires Valid(s) && DistinctRemoteIds(fetched) && i < |fetched|
    ensures var keep := RemoteIdsOf(fetched);
      var u := UpsertRows(s, t, RowIdsByRemote(s, t.base.accountId, keep), fetched, decode);
      var r := WriteFetched(s, t, fetched, decode);
      && u.ids[i] in r.rows && r.rows[u.ids[i]] == RowOf(t, fetched[i])
      && forall id :: Holds(r.rows, id, t.base.accountId, fetched[i].row.remoteId) ==> u.ids[i] <= id
  {
    var keep := RemoteIdsOf(fetched);
    var acc := t.base.accountId;
    var rid := fetched[i].row.remoteId;
    var ids := RowIdsByRemote(s, acc, keep);
    var u := UpsertRows(s, t, ids, fetched, decode);
    var r := WriteFetched(s, t, fetched, decode);
    WriteFetchedPlaced(s, t, fetched, decode);
    UpsertRowsIds(s, t, ids, fetched, decode);
    UpsertRowsFrame(s, t, ids, fetched, decode);
    UpsertRowsContents(s, t, ids, fetched, decode);
    LookupComplete(s, acc, fetched);
    HolderAtOrAbove(s.rows, u.store.rows, r.rows, t, ids, fetched, u.ids, i);
  }

  /**
   A holder of the i-th fetched server id after the loop is either the row
   placed for it or an old holder, and the lookup took the lowest old one.
   */
  lemma HolderAtOrAbove(before: map<LocalId, Row>, mid: map<LocalId, Row>, after: map<LocalId, Row>, t: Table,
                        ids: map<RemoteId, LocalId>, fetched: seq<Fetched>, placed: seq<LocalId>, i: nat)
    requires DistinctRemoteIds(fetched) && |placed| == |fetched| && i < |fetched|
    requires forall rid, id :: rid in ids && id < ids[rid] ==> !Holds(before, id, t.base.accountId, rid)
    requires forall j, id :: 0 <= j < |fetched| && Holds(before, id, t.base.accountId, fetched[j].row.remoteId) ==>
      fetched[j].row.remoteId in ids
    requires forall j :: 0 <= j < |fetched| && fetched[j].row.remoteId in ids ==> placed[j] == ids[fetched[j].row.remoteId]
    requires forall id :: id in mid ==> id in before || id in placed
    requires forall id :: id in before && id !in placed && id in mid ==> mid[id] == before[id]
    requires forall j :: 0 <= j < |fetched| ==> placed[j] in mid && mid[placed[j]] == RowOf(t, fetched[j])
    requires forall id :: id in after ==> id in mid && after[id] == mid[id]
    ensures forall id :: Holds(after, id, t.base.accountId, fetched[i].row.remoteId) ==> placed[i] <= id
  {
    var acc := t.base.accountId;
    var rid := fetched[i].row.remoteId;
    forall id | Holds(after, id, acc, rid) ensures placed[i] <= id {
      assert id in mid && after[id] == mid[id];
      if id in placed {
        var j :| 0 <= j < |placed| && placed[j] == id;
        PlacedHolder(t, fetched, mid, i, j, id);
      } else {
        assert Holds(before, id, acc, rid);
        assert rid in ids && placed[i] == ids[rid];
        OldHolder(before, ids, acc, rid, id);
      }
    }
  }

  /** A row placed for the j-th fetched row that holds the i-th server id was placed for the i-th. */
  lemma PlacedHolder(t: Table, fetched: seq<Fetched>, rows: map<LocalId, Row>, i: nat, j: nat, id: LocalId)
    requires DistinctRemoteIds(fetched) && i < |fetched| && j < |fetched|
    requires id in rows && rows[id] == RowOf(t, fetched[j])
    requires Holds(rows, id, t.base.accountId, fetched[i].row.remoteId)
    ensures i == j
  {
    assert fetched[j].row.remoteId == fetched[i].row.remoteId;
  }

  /** An old holder of a server id lies at or above the local id the lookup gave for it. */
  lemma OldHolder(rows: map<LocalId, Row>, ids: map<RemoteId, LocalId>, account: AccountId, rid: RemoteId, id: LocalId)
    requires rid in ids && Holds(rows, id, account, rid)
    requires forall other :: other < ids[rid] ==> !Holds(rows, other, account, rid)
    ensures ids[rid] <= id
  {
  }

  /** The next pass's lookup finds a fetched server id under the local id this pass placed it at. */
  lemma FoundAgain(s: Store, t: Table, fetched: seq<Fetched>, decode: (LocalId, string) -> string, i: nat)
    requires Valid(s) && DistinctRemoteIds(fetched) && i < |fetched|
    ensures var keep := RemoteIdsOf(fetched);
      var u := UpsertRows(s, t, RowIdsByRemote(s, t.base.accountId, keep), fetched, decode);
      var r := WriteFetched(s, t, fetched, decode);
      var again := RowIdsByRemote(r, t.base.accountId, keep);
      && fetched[i].row.remoteId in again && again[fetched[i].row.remoteId] == u.ids[i]
      && u.ids[i] in r.rows && r.rows[u.ids[i]] == RowOf(t, fetched[i])
  {
    var keep := RemoteIdsOf(fetched);
    var rid := fetched[i].row.remoteId;
    var u := UpsertRows(s, t, RowIdsByRemote(s, t.base.accountId, keep), fetched, decode);
    var r := WriteFetched(s, t, fetched, decode);
    PlacedIsLowest(s, t, fetched, decode, i);
    RemoteIdsOfIndex(fetched, rid);
    LookupFindsLowest(r, t.base.accountId, keep, rid, u.ids[i]);
  }

  /** The lookup maps a server id the account holds to the lowest local id holding it. */
  lemma LookupFindsLowest(s: Store, account: AccountId, rids: set<RemoteId>, rid: RemoteId, id: LocalId)
    requires Valid(s) && rid in rids && Holds(s.rows, id, account, rid)
    requires forall other :: Holds(s.rows, other, account, rid) ==> id <= other
    ensures var m := RowIdsByRemote(s, account, rids);
      rid in m && m[rid] == id
  {
  }

  /** The cells a placed row's data wrote are still there once the stale rows are deleted. */
  lemma PlacedCells(s: Store, t: Table, fetched: seq<Fetched>, decode: (LocalId, string) -> string, i: nat)
    requires Valid(s) && DistinctRemoteIds(fetched) && i < |fetched|
    ensures var u := UpsertRows(s, t, RowIdsByRemote(s, t.base.accountId, RemoteIdsOf(fetched)), fetched, decode);
      var r := WriteFetched(s, t, fetched, decode);
      CellsInPlace(r.cells, r.columnIds, t.base.accountId, u.ids[i], fetched[i].row.data, decode)
  {
    var ids := RowIdsByRemote(s, t.base.accountId, RemoteIdsOf(fetched));
    var u := UpsertRows(s, t, ids, fetched, decode);
    var r := WriteFetched(s, t, fetched, decode);
    UpsertRowsCells(s, t, ids, fetched, decode);
    WriteFetchedPlaced(s, t, fetched, decode);
    CellsSurvive(s.cells, u.store.cells, r.cells, s.columnIds, t.base.accountId, u.ids[i], fetched[i].row.data, decode,
                 r.rows.Keys);
  }

  /**
   After the fetched rows are written, the lookup the next pass makes finds
   every fetched row where this pass put it, with the cells its data wrote.
   */
  lemma WrittenInPlace(s: Store, t: Table, fetched: seq<Fetched>, decode: (LocalId, string) -> string)
    requires Valid(s) && DistinctRemoteIds(fetched)
    ensures var r := WriteFetched(s, t, fetched, decode);
      InPlace(r, t, RowIdsByRemote(r, t.base.accountId, RemoteIdsOf(fetched)), fetched, decode)
  {
    forall i | 0 <= i < |fetched|
      ensures var r := WriteFetched(s, t, fetched, decode);
        var again := RowIdsByRemote(r, t.base.accountId, RemoteIdsOf(fetched));
        && fetched[i].row.remoteId in again
        && again[fetched[i].row.remoteId] in r.rows
        && r.rows[again[fetched[i].row.remoteId]] == RowOf(t, fetched[i])
        && CellsInPlace(r.cells, r.columnIds, t.base.accountId, again[fetched[i].row.remoteId], fetched[i].row.data, decode)
    {
      FoundAgain(s, t, fetched, decode, i);
      PlacedCells(s, t, fetched, decode, i);
    }
  }

  /** The cells a row's data wrote survive a deletion that keeps the row. */
  lemma CellsSurvive(before: map<CellKey, Cell>, mid: map<CellKey, Cell>, after: map<CellKey, Cell>,
                     columnIds: map<ColumnKey, LocalId>, account: AccountId, rowId: LocalId, data: seq<RemoteData>,
                     decode: (LocalId, string) -> string, kept: set<LocalId>)
    requires CellsWritten(before, mid, columnIds, account, rowId, data, decode)
    requires rowId in kept
    requires forall k :: k in after <==> k in mid && k.rowId in kept
    requires forall k :: k in after ==> after[k] == mid[k]
    ensures CellsInPlace(after, columnIds, account, rowId, data, decode)
  {
  }

  /**
   Writing the same fetched rows a second time changes nothing: the store
   after two writes is the store after one.
   */
  lemma WriteFetchedIdempotent(s: Store, t: Table, fetched: seq<Fetched>, decode: (LocalId, string) -> string)
    requires Valid(s) && DistinctRemoteIds(fetched)
    ensures var r := WriteFetched(s, t, fetched, decode);
      WriteFetched(r, t, fetched, decode) == r
  {
    var keep := RemoteIdsOf(fetched);
    var r := WriteFetched(s, t, fetched, decode);
    var again := RowIdsByRemote(r, t.base.accountId, keep);
    WrittenInPlace(s, t, fetched, decode);
    UpsertRowsInPlace(r, t, again, fetched, decode);
    WriteFetchedTombstones(s, t, fetched, decode);
    DeleteExceptNothingStale(r, t.base.id, keep);
  }

  /**
   Pulling a table again against the same page replies repeats the same
   requests and leaves the database as the first pull left it.
   */
  lemma PullTableIdempotent(s: Store, t: Table, limit: nat, pages: seq<PageReply>,
                            decode: (LocalId, string) -> string)
    requires Valid(s)
    ensures var p := PullTable(s, t, limit, pages, decode);
      PullTable(p.store, t, limit, pages, decode) == p
  {
    var p := PullTable(s, t, limit, pages, decode);
    var f := FetchRows(t.base.remoteId, limit, 0, [], pages);
    PullTableStore(s, t, limit, pages, decode);
    PullTableStore(p.store, t, limit, pages, decode);
    if f.outcome == Done {
      FetchedDistinct(t.base.remoteId, limit, 0, [], pages);
      WriteFetchedIdempotent(s, t, f.fetched, decode);
    }
  }
}
