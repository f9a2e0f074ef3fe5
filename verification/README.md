# Nextcloud Tables row sync, modelled in Dafny

This project models three parts of the Nextcloud Tables Android client:

- The row sync engine (`RowSyncAdapter`), which works in two phases:
  - The **push** phase deletes every `LOCAL_DELETED` row of an account, on the server when the row has a server id. It then creates or updates every `LOCAL_EDITED` row on the server. The first failing reply ends the push.
  - The **pull** phase fetches each of the account's tables page by page and writes the fetched rows and their cells into the local database. It then deletes the table's rows that the server no longer lists.
- The selection-default codec of `ColumnAdapter`.
- The `Table` entity: its fields, setters, `equals` and `hashCode`.

The model has no side effects:

- The local database is an immutable `Store`: tables, the column index, rows keyed by local id, and cells keyed by (column, row). Every DAO call the engine makes is a function on it.
- The server is a script. Deletes, writes (creates and updates together) and page requests each answer from their own finite list of replies, in order. A call made after its list is used up gets no reply (`NoReply`). That stands for the transport failing, and it also lets every loop terminate without a fuel bound.
- Collaborators whose code is not part of this model are function-valued parameters. These are:
  - `EDataType.findByColumn`
  - `TablesSerializationUtil.serializeArray`/`deserializeArray`
  - `DataAdapter.serialize`, and `getTypeForData` with `deserialize` (together `decode`, keyed by the column's local id)
  - the superclass `equals`/`hashCode`
  - `OnSharePermission.equals`/`hashCode`

Modules, one per file:

| module | file | what |
|---|---|---|
| `Nullable` | nullable.dfy | Java `null` as an option type |
| `JavaLang` | java_lang.dfy | 32-bit `int` wrap-around, `String`/`Boolean`/`Instant` hash codes, `Objects.hash`, `Objects.equals` |
| `Entity` | entity.dfy | `DBStatus` and the `AbstractRemoteEntity` part |
| `TableEntity` | table.dfy | `Table`, its getters and setters, `equals`, `hashCode` |
| `ColumnAdapter` | column_adapter.dfy | `serializeSelectionDefault` / `deserializeSelectionDefault` |
| `LocalStore` | local_store.dfy | the local database and the queries and writes the engine issues |
| `RemoteApi` | remote_api.dfy | calls, scripted replies, the errors the engine throws |
| `RowPush` | row_push.dfy | `pushLocalChanges` |
| `RowFetch` | row_fetch.dfy | the pagination loop `fetchRowsLoop` |
| `RowPull` | row_pull.dfy | row upsert, cell upsert, `deleteExcept`, `pullRemoteChanges` |
| `RowPullRepeat` | row_pull_repeat.dfy | a second pull of a table against the same replies changes nothing |

## Behaviour of the code worth knowing

Each of these follows from the code as written and is stated as a lemma.

- **304 Not Modified.** The `break` in the `304` case of `pullRemoteChanges` (`RowSyncAdapter.java:119-122`) leaves only the `switch`, not the page loop. The same request is issued again at the same offset, and the loop ends only when another code arrives.
  - `RowFetch.NotModifiedRepeatsRequest` proves that the request after a 304 is the same request.
  - `RowFetch.EndlessNotModified` proves that a server answering only 304 keeps the loop going until the replies run out.
- **Page count.** The loop stops only at a 200 page whose size is not L. Against a server that serves n rows in pages of L, it therefore makes ⌊n/L⌋ + 1 requests. When L divides n, the last request returns an empty page. This is `RowFetch.HonestRequests`.
- **Rows edited locally.** A pull updates every row whose server id it fetched, whatever its status, so a `LOCAL_EDITED` or `LOCAL_DELETED` row is overwritten (`RowPull.WriteFetchedOverwrites`).

## Model

Paths are relative to the repository root. `RowSyncAdapter.java` is `app/src/main/java/it/niedermann/nextcloud/tables/repository/sync/RowSyncAdapter.java`, and likewise for the others.

| member | source | states |
|---|---|---|
| ColumnAdapter.StripQuotes | app/src/main/java/it/niedermann/nextcloud/tables/remote/adapter/ColumnAdapter.java:48 | `replaceAll("\"", "")`: the result has no double quote, holds exactly the input's other characters, is no longer than the input, and equals it when it had no quote |
| ColumnAdapter.StripQuotesIdempotent | app/src/main/java/it/niedermann/nextcloud/tables/remote/adapter/ColumnAdapter.java:48 | removing the quotes a second time changes nothing |
| ColumnAdapter.SerializeSelectionDefault | app/src/main/java/it/niedermann/nextcloud/tables/remote/adapter/ColumnAdapter.java:22-31 | a multi-select column gives `serializeArray` of its default; any other type gives the default unchanged |
| ColumnAdapter.DeserializeSelectionDefault | app/src/main/java/it/niedermann/nextcloud/tables/remote/adapter/ColumnAdapter.java:33-52 | any type but multi-select gives the default unchanged; for multi-select, a null default and the literal `null` both give null, and anything else gives `deserializeArray` applied to the default with every quote removed, an argument that contains no quote |
| ColumnAdapter.DependsOnlyOnTypeAndDefault | app/src/main/java/it/niedermann/nextcloud/tables/remote/adapter/ColumnAdapter.java:22-52 | two columns with the same resolved type and the same default get the same result in both directions, whatever else differs |
| ColumnAdapter.NonMultiRoundTrip | app/src/main/java/it/niedermann/nextcloud/tables/remote/adapter/ColumnAdapter.java:22-52 | for a type other than multi-select, deserializing the serialized default gives the original default back |
| ColumnAdapter.MultiIgnoresQuotes | app/src/main/java/it/niedermann/nextcloud/tables/remote/adapter/ColumnAdapter.java:37-48 | for multi-select, two non-null defaults that differ only in their double quotes decode alike, unless one of them is the literal `null` |
| ColumnAdapter.QuotedNullLiteralIsNotNull | app/src/main/java/it/niedermann/nextcloud/tables/remote/adapter/ColumnAdapter.java:44-48 | the `null` check runs before the quotes are removed, so a quoted `"null"` reaches `deserializeArray` as the text `null` instead of decoding to null |
| TableEntity.Set | app/src/main/java/it/niedermann/nextcloud/tables/database/entity/Table.java:55-129 | a setter's field reads back the value just set; every other field and the superclass part are unchanged |
| TableEntity.SetCurrentValue | app/src/main/java/it/niedermann/nextcloud/tables/database/entity/Table.java:50-129 | setting a field to what its getter returns leaves the table as it was |
| TableEntity.SettersCommute | app/src/main/java/it/niedermann/nextcloud/tables/database/entity/Table.java:55-129 | setters of two different fields give the same table in either order |
| TableEntity.Extensionality | app/src/main/java/it/niedermann/nextcloud/tables/database/entity/Table.java:25-44 | a table is determined by its superclass part and its ten getters |
| TableEntity.NewTable | app/src/main/java/it/niedermann/nextcloud/tables/database/entity/Table.java:25-48 | a new table has the non-null title `""` and is not shared; every other field is null |
| TableEntity.HashCode | app/src/main/java/it/niedermann/nextcloud/tables/database/entity/Table.java:140-143 | `Objects.hash` over the super hash and the ten fields is a 32-bit `int` |
| TableEntity.Equals | app/src/main/java/it/niedermann/nextcloud/tables/database/entity/Table.java:131-139 | a table equals the object at its own reference; it equals only a `Table` object, and one at another reference only when the superclass parts are equal (the field comparison is stated by `EqualsComparesEveryField`) |
| TableEntity.EqualsReflexive | app/src/main/java/it/niedermann/nextcloud/tables/database/entity/Table.java:133 | a table equals itself, whatever the superclass `equals` says |
| TableEntity.EqualsRejectsOtherClasses | app/src/main/java/it/niedermann/nextcloud/tables/database/entity/Table.java:134 | `equals` is false for null and for an object of another class |
| TableEntity.EqualsComparesEveryField | app/src/main/java/it/niedermann/nextcloud/tables/database/entity/Table.java:131-138 | for two distinct references, `equals` holds exactly when the superclass parts are equal and each of the ten fields compares equal |
| TableEntity.EqualsImpliesEqualHash | app/src/main/java/it/niedermann/nextcloud/tables/database/entity/Table.java:131-143 | equal tables have equal hash codes, provided the superclass and `OnSharePermission` keep the `equals`/`hashCode` contract |
| TableEntity.HashDependsOnComparedFields | app/src/main/java/it/niedermann/nextcloud/tables/database/entity/Table.java:142 | the hash code reads only the super hash and the ten fields |
| JavaLang.StringHashIsPolynomial | app/src/main/java/it/niedermann/nextcloud/tables/database/entity/Table.java:142 | the title's `String.hashCode`, wrapped to 32 bits after each step, is the exact sum `s[0]*31^(n-1) + … + s[n-1]` wrapped once |
| LocalStore.RowsWithStatus | app/src/main/java/it/niedermann/nextcloud/tables/repository/sync/RowSyncAdapter.java:41 | `getRows(account, status)` lists exactly the account's rows with that status, each with its stored value, once each, in increasing id order |
| LocalStore.TablesOf | app/src/main/java/it/niedermann/nextcloud/tables/repository/sync/RowSyncAdapter.java:86 | `getTables(account)` lists the account's tables and no others |
| LocalStore.TablesOfAppend | app/src/main/java/it/niedermann/nextcloud/tables/repository/sync/RowSyncAdapter.java:86 | listing a concatenation of stored tables lists each part in turn, so the stored order is kept |
| LocalStore.TablesOfSingle | app/src/main/java/it/niedermann/nextcloud/tables/repository/sync/RowSyncAdapter.java:86 | a single stored table is listed exactly when it belongs to the account; with `TablesOfAppend`, this fixes the list's order and multiplicity |
| LocalStore.TableRemoteId | app/src/main/java/it/niedermann/nextcloud/tables/repository/sync/RowSyncAdapter.java:71 | `getRemoteId(tableId)` gives the server id of the first stored table with that id, and null when there is no such table |
| LocalStore.RowIdsByRemote | app/src/main/java/it/niedermann/nextcloud/tables/repository/sync/RowSyncAdapter.java:131 | the batch lookup maps only requested server ids, each to a row of the account that holds it, and leaves out an id exactly when no row of the account holds it; an id held twice maps to the lower local id |
| LocalStore.CellsOfRow | app/src/main/java/it/niedermann/nextcloud/tables/repository/sync/RowSyncAdapter.java:64 | `getDataForRow` gives exactly the row's cells, by column |
| LocalStore.DeleteRows | app/src/main/java/it/niedermann/nextcloud/tables/repository/sync/RowSyncAdapter.java:46-52 | deleting rows removes them and, by the foreign-key cascade, exactly their cells; everything else is unchanged |
| LocalStore.UpdateRow | app/src/main/java/it/niedermann/nextcloud/tables/repository/sync/RowSyncAdapter.java:77 | `update(row)` overwrites a stored row and changes nothing else; an absent id changes nothing |
| LocalStore.InsertRow | app/src/main/java/it/niedermann/nextcloud/tables/repository/sync/RowSyncAdapter.java:137 | `insert(row)` stores the row under a fresh id, returns that id and changes nothing else |
| LocalStore.UpsertCell | app/src/main/java/it/niedermann/nextcloud/tables/repository/sync/RowSyncAdapter.java:160-166 | the cell at (column, row) takes the value; it keeps the id of an existing cell or takes a fresh id; every other cell is unchanged |
| LocalStore.DeleteExcept | app/src/main/java/it/niedermann/nextcloud/tables/repository/sync/RowSyncAdapter.java:173-174 | `deleteExcept(table, ids)` removes exactly the table's rows whose server id is set and not in `ids`, with their cells; it keeps the store valid and server ids unique per account |
| RowPush.PushDeletes | app/src/main/java/it/niedermann/nextcloud/tables/repository/sync/RowSyncAdapter.java:43-57 | the delete loop finishes exactly when every row is handled; it can fail only at a row that has a server id |
| RowPush.PushDeletesStore | app/src/main/java/it/niedermann/nextcloud/tables/repository/sync/RowSyncAdapter.java:43-57 | exactly the handled rows are gone, with their cells; the failing row and all later rows are as they were |
| RowPush.PushDeletesCalls | app/src/main/java/it/niedermann/nextcloud/tables/repository/sync/RowSyncAdapter.java:44-49 | one server delete per handled row that has a server id, in order, plus the one that failed; a row without a server id costs no call |
| RowPush.PushDeletesReplies | app/src/main/java/it/niedermann/nextcloud/tables/repository/sync/RowSyncAdapter.java:49-55 | every reply consumed by a handled row was 2xx; a failure carries the unsuccessful code and the row's server id, or is `NoReply` when the replies ran out |
| RowPush.EditCall | app/src/main/java/it/niedermann/nextcloud/tables/repository/sync/RowSyncAdapter.java:69-72 | a row without a server id is sent as a create with its table's server id; any other row is sent as an update of its own server id; either way the payload is `serialize` of exactly the row's cells, by column |
| RowPush.PushEdits | app/src/main/java/it/niedermann/nextcloud/tables/repository/sync/RowSyncAdapter.java:62-81 | the edit loop finishes exactly when every row is handled |
| RowPush.PushEditsCalls | app/src/main/java/it/niedermann/nextcloud/tables/repository/sync/RowSyncAdapter.java:62-81 | one call per handled row plus the failing one, each as `EditCall` decides; the handled rows' replies were 2xx with a body; a failure names its code, a null body or the missing reply |
| RowPush.PushEditsStore | app/src/main/java/it/niedermann/nextcloud/tables/repository/sync/RowSyncAdapter.java:74-80 | each handled row is written back as `Pushed` from its reply; the failing row, every later row, every cell and every counter are unchanged |
| RowPush.PushDeletesBeforeEdits | app/src/main/java/it/niedermann/nextcloud/tables/repository/sync/RowSyncAdapter.java:40-62 | no delete call follows a create or update; once a create or update is issued, every `LOCAL_DELETED` row of the account is gone, so a failed delete means no create or update is issued |
| RowPush.DeleteLoopClearsAccount | app/src/main/java/it/niedermann/nextcloud/tables/repository/sync/RowSyncAdapter.java:41-57 | the delete loop only removes rows, never those of another account, and leaves no `LOCAL_DELETED` row of the account when it finishes |
| RowPush.EditLoopClearsAccount | app/src/main/java/it/niedermann/nextcloud/tables/repository/sync/RowSyncAdapter.java:59-81 | the edit loop writes no row of another account and no row that was not `LOCAL_EDITED`; when it finishes every such row of the account is `VOID` |
| RowPush.PushKeepsOtherAccounts | app/src/main/java/it/niedermann/nextcloud/tables/repository/sync/RowSyncAdapter.java:40-82 | rows of other accounts are never touched by an account's push |
| RowPush.PushCleansAccount | app/src/main/java/it/niedermann/nextcloud/tables/repository/sync/RowSyncAdapter.java:40-82 | after a push that finishes, every row of the account is `VOID` |
| RowPush.PushOnlyDeletesKeepsOtherRows | app/src/main/java/it/niedermann/nextcloud/tables/repository/sync/RowSyncAdapter.java:40-82 | while only deletes have been issued (in particular after a failed delete), every row that was not `LOCAL_DELETED`, edited rows included, is unchanged |
| RowPush.PushLocalChanges | app/src/main/java/it/niedermann/nextcloud/tables/repository/sync/RowSyncAdapter.java:40-82 | the delete calls come first, as a prefix of all calls; a failed delete loop ends the push with its failure and no create or update call |
| RowFetch.AddAllSpec | app/src/main/java/it/niedermann/nextcloud/tables/repository/sync/RowSyncAdapter.java:108 | `addAll` keeps what was already fetched as a prefix, ends up holding exactly the server ids of both, and never adds a second row with an id already present |
| RowFetch.FetchStops | app/src/main/java/it/niedermann/nextcloud/tables/repository/sync/RowSyncAdapter.java:91-127 | every reply before the last one continues the loop (304, or a full 200 page); the last one ends it: a 200 page whose size is not L finishes, a null body or any other code throws; if the replies run out, the loop fails with `NoReply` |
| RowFetch.FetchOffsets | app/src/main/java/it/niedermann/nextcloud/tables/repository/sync/RowSyncAdapter.java:88-122 | request k asks for offset `offset + L × (number of 200 replies before it)`; one request per consumed reply, plus one that got no reply |
| RowFetch.FetchCollects | app/src/main/java/it/niedermann/nextcloud/tables/repository/sync/RowSyncAdapter.java:87-116 | the fetched rows are those of every consumed 200 page, added in order with the first row per server id kept |
| RowFetch.FetchedDistinct | app/src/main/java/it/niedermann/nextcloud/tables/repository/sync/RowSyncAdapter.java:87-108 | the fetched rows never hold two rows with one server id, and they hold exactly the ids of the consumed 200 pages |
| RowFetch.AddAll | app/src/main/java/it/niedermann/nextcloud/tables/repository/sync/RowSyncAdapter.java:108 | `addAll` yields at most the rows already fetched plus the new ones (its content is stated by `AddAllSpec`) |
| RowFetch.FetchRows | app/src/main/java/it/niedermann/nextcloud/tables/repository/sync/RowSyncAdapter.java:90-127 | the page loop consumes at most the replies given (its requests, stop and rows are stated by `FetchStops`, `FetchOffsets` and `FetchCollects`) |
| RowFetch.NotModifiedRepeatsRequest | app/src/main/java/it/niedermann/nextcloud/tables/repository/sync/RowSyncAdapter.java:119-122 | the request after a 304 reply is the same request again |
| RowFetch.EndlessNotModified | app/src/main/java/it/niedermann/nextcloud/tables/repository/sync/RowSyncAdapter.java:119-122 | against a server that only answers 304, every request is for the same page, nothing is fetched, and the loop ends only when the replies run out |
| RowFetch.HonestRequests | app/src/main/java/it/niedermann/nextcloud/tables/repository/sync/RowSyncAdapter.java:110-114 | against a server that answers every request with 200, the loop finishes after ⌊n/L⌋ + 1 requests |
| RowFetch.HonestOffsets | app/src/main/java/it/niedermann/nextcloud/tables/repository/sync/RowSyncAdapter.java:93-114 | against the same server, request k asks for offset `from + k × L` |
| RowFetch.HonestRows | app/src/main/java/it/niedermann/nextcloud/tables/repository/sync/RowSyncAdapter.java:96-116 | against the same server, every served row is fetched, in order, tagged with the server's `ETag` |
| RowPull.UpsertCellsSpec | app/src/main/java/it/niedermann/nextcloud/tables/repository/sync/RowSyncAdapter.java:148-170 | each cell of the row holds the decoded value of the last data item for its column (`Written`, an independent definition), in the table's account, and keeps its id if it existed; a column the data does not reach keeps its cell; cells of other rows are unchanged |
| RowPull.UnknownColumnsSkipped | app/src/main/java/it/niedermann/nextcloud/tables/repository/sync/RowSyncAdapter.java:149-151 | data whose columns have no local id writes nothing and raises no error |
| RowPull.UpsertCells | app/src/main/java/it/niedermann/nextcloud/tables/repository/sync/RowSyncAdapter.java:148-170 | the cell loop keeps the store valid and changes no row, table, column id or row counter (the cells it writes are stated by `UpsertCellsSpec`) |
| RowPull.Place | app/src/main/java/it/niedermann/nextcloud/tables/repository/sync/RowSyncAdapter.java:133-142 | a fetched row whose server id the lookup maps is updated under that local id; any other is inserted under the next fresh id |
| RowPull.UpsertRowsIds | app/src/main/java/it/niedermann/nextcloud/tables/repository/sync/RowSyncAdapter.java:133-142 | a row whose server id was mapped keeps its old local id; any other gets a fresh id, and the fresh ids rise in fetch order |
| RowPull.UpsertRowsFrame | app/src/main/java/it/niedermann/nextcloud/tables/repository/sync/RowSyncAdapter.java:133-171 | only the placed rows and their cells change; the rows afterwards are the old ones plus the placed ones; existing cells keep their ids |
| RowPull.UpsertRowsDistinct | app/src/main/java/it/niedermann/nextcloud/tables/repository/sync/RowSyncAdapter.java:133-142 | distinct server ids are placed under distinct local ids |
| RowPull.UpsertRowsContents | app/src/main/java/it/niedermann/nextcloud/tables/repository/sync/RowSyncAdapter.java:103-142 | each placed row holds its fetched row, tagged with the table's account and id, `VOID` and the page's `ETag` |
| RowPull.UpsertRowsCells | app/src/main/java/it/niedermann/nextcloud/tables/repository/sync/RowSyncAdapter.java:144-170 | each placed row's cells are those its fetched data writes over the cells it had |
| RowPull.UpsertRows | app/src/main/java/it/niedermann/nextcloud/tables/repository/sync/RowSyncAdapter.java:133-171 | the row loop keeps the store valid, gives one local id per fetched row, and changes no table or column id |
| RowPull.UpsertRowsUnique | app/src/main/java/it/niedermann/nextcloud/tables/repository/sync/RowSyncAdapter.java:130-142 | given a lookup that finds every fetched id already held, no two rows of an account end up with the same server id |
| RowPull.LookupComplete | app/src/main/java/it/niedermann/nextcloud/tables/repository/sync/RowSyncAdapter.java:130-131 | the lookup made from the fetched ids finds every fetched id that some row of the account already holds |
| RowPull.WriteFetched | app/src/main/java/it/niedermann/nextcloud/tables/repository/sync/RowSyncAdapter.java:130-174 | writing the fetched rows keeps the store valid and changes no table or column id (what it writes and deletes is stated by the `WriteFetched…` lemmas) |
| RowPull.WriteFetchedRows | app/src/main/java/it/niedermann/nextcloud/tables/repository/sync/RowSyncAdapter.java:130-174 | after the write, every fetched row is stored, tagged with the table and `VOID`, with the cells its data writes; an existing local id is reused only for the row that held that server id |
| RowPull.WriteFetchedOverwrites | app/src/main/java/it/niedermann/nextcloud/tables/repository/sync/RowSyncAdapter.java:134-141 | a row the account already held under a fetched server id keeps its local id and takes the fetched contents, whatever its status |
| RowPull.WriteFetchedUnique | app/src/main/java/it/niedermann/nextcloud/tables/repository/sync/RowSyncAdapter.java:130-174 | writing the fetched rows never gives two rows of an account the same server id |
| RowPull.WriteFetchedTombstones | app/src/main/java/it/niedermann/nextcloud/tables/repository/sync/RowSyncAdapter.java:173-174 | afterwards no row of the table has a server id that was not fetched; a row outside the table is an old row, unchanged |
| RowPull.WriteFetchedKeeps | app/src/main/java/it/niedermann/nextcloud/tables/repository/sync/RowSyncAdapter.java:130-174 | an old row that holds no fetched id of the account, and is outside the table or has no server id, stays as it was, with its cells |
| RowPull.WriteFetchedMirrors | app/src/main/java/it/niedermann/nextcloud/tables/repository/sync/RowSyncAdapter.java:130-174 | afterwards the server ids held by the table's rows are exactly the fetched ids |
| RowPull.PullTableSpec | app/src/main/java/it/niedermann/nextcloud/tables/repository/sync/RowSyncAdapter.java:86-174 | one table's pull makes exactly the page requests of the loop, from offset 0; a failure writes nothing; a finished fetch writes the fetched rows, which hold exactly the ids of the consumed 200 pages |
| RowPull.PullTable | app/src/main/java/it/niedermann/nextcloud/tables/repository/sync/RowSyncAdapter.java:86-174 | one table's pull keeps the store valid, changes no table or column id, and consumes at most the replies given |
| RowPull.PullTableMirrors | app/src/main/java/it/niedermann/nextcloud/tables/repository/sync/RowSyncAdapter.java:86-174 | after a table's pull finishes, its rows hold exactly the server ids the server listed for it |
| RowPull.PullTablesUnique | app/src/main/java/it/niedermann/nextcloud/tables/repository/sync/RowSyncAdapter.java:86-175 | pulling a list of tables never gives two rows of an account the same server id |
| RowPull.PullTablesKeepOthers | app/src/main/java/it/niedermann/nextcloud/tables/repository/sync/RowSyncAdapter.java:86-175 | a row of another account that sits in none of the pulled tables, and its cells, stay as they were |
| RowPull.PullTables | app/src/main/java/it/niedermann/nextcloud/tables/repository/sync/RowSyncAdapter.java:86-175 | the table loop keeps the store valid, changes no table or column id, and consumes at most the replies given |
| RowPull.PullRemoteChanges | app/src/main/java/it/niedermann/nextcloud/tables/repository/sync/RowSyncAdapter.java:84-176 | `pullRemoteChanges` keeps the store valid, changes no table or column id, and consumes at most the replies given |
| RowPull.PullKeepsRemoteIdsUnique | app/src/main/java/it/niedermann/nextcloud/tables/repository/sync/RowSyncAdapter.java:84-176 | `pullRemoteChanges` keeps server ids unique within each account |
| RowPull.PullKeepsOtherAccounts | app/src/main/java/it/niedermann/nextcloud/tables/repository/sync/RowSyncAdapter.java:84-176 | `pullRemoteChanges` leaves the rows of other accounts outside the account's tables, and their cells, as they were |
| RowPullRepeat.UpsertCellsOverExisting | app/src/main/java/it/niedermann/nextcloud/tables/repository/sync/RowSyncAdapter.java:148-170 | when every column the data reaches already has a cell of the row, the loop adds no cell and changes no id: those cells take the last value for their column, every other cell stays |
| RowPullRepeat.UpsertRowsInPlace | app/src/main/java/it/niedermann/nextcloud/tables/repository/sync/RowSyncAdapter.java:133-171 | when every fetched row is already stored as the fetched row makes it, under the id the lookup gives, with the cells its data writes, the row loop changes nothing |
| RowPullRepeat.WrittenInPlace | app/src/main/java/it/niedermann/nextcloud/tables/repository/sync/RowSyncAdapter.java:130-174 | after one write of the fetched rows, the next lookup finds each of them under the local id it was placed at, stored as fetched, with its cells |
| RowPullRepeat.WriteFetchedIdempotent | app/src/main/java/it/niedermann/nextcloud/tables/repository/sync/RowSyncAdapter.java:130-174 | writing the same fetched rows a second time leaves the database as the first write left it |
| RowPullRepeat.PullTableIdempotent | app/src/main/java/it/niedermann/nextcloud/tables/repository/sync/RowSyncAdapter.java:86-174 | pulling a table a second time against the same page replies makes the same requests, has the same outcome and leaves the database as the first pull left it |

## Left out

- Logging, HTTP execution and the `IOException` of the transport are not modelled. A transport failure appears only as `NoReply`, when a reply script is used up.
- The `ETag` header is an opaque token on each page reply. Conditional requests (`If-None-Match`) are not modelled, so nothing makes the server answer 304.
- `TablesAPI.DEFAULT_API_LIMIT_ROWS` is not part of this model, so the page size L is a parameter.
- `fetchedRows` is a `HashSet<Row>`. Its deduplication depends on `Row.equals`, which is not part of this model. The fetched rows are a sequence keyed by server id in arrival order, the first row per id kept. `HashSet` iteration order is not modelled, so the upsert loop walks the rows in arrival order.
- `RowDao`, `DataDao`, `ColumnDao`, `TableDao`, `GenericDao` and the database schema are not part of this model. Their calls are functions on `Store`. The assumed details are:
  - `getRows` lists in increasing local id order. `getTables` lists the account's tables in the order of `Store.tables`, which the model leaves free. The tables share one list of page replies, so this order decides which replies each table consumes.
  - A row's cells are deleted with it (the foreign-key cascade).
  - `deleteExcept` keeps rows that have no server id.
  - `getRowRemoteAndLocalIds` maps a server id the account holds twice to the lower local id. Neither its row order nor its handling of duplicate keys is visible.
  - A fetched row becomes `VOID`, because `Row`'s default status is not part of this model.
- `Row.getData()` returning null is not modelled. A fetched row's data is always a list.
- `DataAdapter.serialize`, `getTypeForData` and `deserialize` are function parameters. No serialize/deserialize round trip is claimed, because their code is not part of this model.
- `TablesSerializationUtil.serializeArray`/`deserializeArray` and `EDataType.findByColumn` are function parameters. For a multi-select column no round trip is claimed.
- The superclass `AbstractRemoteEntity.equals`/`hashCode` and `OnSharePermission.equals`/`hashCode` are function parameters. `Instant.equals` is structural equality on seconds and nanos.
- The title of a `Table` is modelled as never null, as the `@NonNull` at `Table.java:55` declares. Java does not enforce that annotation at run time, and a null title would make `title.equals` at `Table.java:137` throw.
- JavaLang.StringHashIsPolynomial: a Dafny `char` is a Unicode scalar value, while a Java `char` is a UTF-16 code unit. A title holding characters outside the Basic Multilingual Plane therefore hashes differently from Java.
- Concurrency is not modelled: the sync runs one account at a time, and nothing else writes the database meanwhile. The orchestration of the sync adapters, the other adapters and the UI are outside this model.
- Idempotence is stated for one table's pull (`RowPullRepeat.PullTableIdempotent`), not for `pullRemoteChanges` over several tables. The tables consume one shared list of page replies, and the row lookup covers the whole account, so a later table's pull can take over a row an earlier table's pull wrote.
- `offset` is a Java `int` (`RowSyncAdapter.java:88`, `:114`). The model's offset is a `nat`, so the wrap-around after 2^31 − 1 fetched rows is not modelled.
- `toUnmodifiableSet` (`RowSyncAdapter.java:130`) throws a `NullPointerException` when a fetched row has a null server id, which aborts the rest of the pull. A fetched row's server id (`RemoteRow.remoteId`) is never null in the model, so this error path is absent.
- The same exception arises at `RowSyncAdapter.java:144` for a data item with a null `remoteColumnId`, and at `:65` during the push for a cell with a null column id. Neither can be null in the model, so neither error path is modelled.
