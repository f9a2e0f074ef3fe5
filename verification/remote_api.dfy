/**
 The server as the row sync engine sees it: the calls it issues and the
 replies it gets. Replies are scripted: deletes, writes (creates and updates
 together) and page requests each answer from their own finite sequence, in
 order; a call made after its script is used up gets no reply, which stands
 for the transport failing (`IOException`).
 */
module RemoteApi {
  import opened Nullable
  import opened Entity

  /** The requests of `TablesAPI` the row sync engine makes. */
  datatype Call =
    | DeleteRowCall(remoteId: RemoteId)
    | CreateRowCall(tableRemoteId: Option<RemoteId>, payload: string)
    | UpdateRowCall(remoteId: RemoteId, payload: string)
    | GetRowsCall(tableRemoteId: Option<RemoteId>, limit: nat, offset: nat)

  /** `Response.isSuccessful()`: a 2xx status. */
  predicate Successful(code: int) {
    200 <= code < 300
  }

  const Ok: int := 200
  const NotModified: int := 304

  /** The row the server returns after a create or update; only its id matters here. */
  datatype RowBody = RowBody(remoteId: Option<RemoteId>)

  /** Reply to `createRow`/`updateRow`: status and a possibly-null body. */
  datatype WriteReply = WriteReply(code: int, body: Option<RowBody>)

  /** One cell of a row as the server lists it: the column's server id and the raw value. */
  datatype RemoteData = RemoteData(remoteColumnId: RemoteId, value: string)

  /** One row as the server lists it. */
  datatype RemoteRow = RemoteRow(remoteId: RemoteId, data: seq<RemoteData>)

  /** Reply to `getRows`: status, a possibly-null page of rows, and the `ETag` header. */
  datatype PageReply = PageReply(code: int, body: Option<seq<RemoteRow>>, eTag: Option<string>)

  /** What the sync engine throws. */
  datatype SyncError =
    | HttpFailed(code: int, remoteId: Option<RemoteId>)  // NextcloudHttpRequestFailedException
    | NullBody                                           // null body on a success reply
    | NoReply                                            // the transport failed (IOException)

  datatype Outcome = Done | Failed(error: SyncError)
}
