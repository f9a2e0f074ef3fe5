/**
 The push phase of `RowSyncAdapter`: first every locally deleted row of the
 account is deleted (on the server when it has a server id), then every
 locally edited row is created or updated on the server. The first failing
 reply ends the whole push; what was done before it stays done.
 */
module RowPush {
  import opened Nullable
  import opened Entity
  import opened LocalStore
  import opened RemoteApi
  import opened TableEntity

  /** Where a loop over a batch of rows stopped: `done` rows handled, then `outcome`. */
  datatype Progress = Progress(store: Store, calls: seq<Call>, done: nat, outcome: Outcome)

  function IdSet(batch: seq<Entry>): (ids: set<LocalId>)
    ensures forall i :: 0 <= i < |batch| ==> batch[i].id in ids
    ensures forall id :: id in ids ==> exists i :: 0 <= i < |batch| && batch[i].id == id
  {
    set i | 0 <= i < |batch| :: batch[i].id
  }

  predicate DistinctIds(batch: seq<Entry>) {
    forall i, j :: 0 <= i < j < |batch| ==> batch[i].id != batch[j].id
  }

  /** The server deletes a batch of locally deleted rows needs: one per row that has a server id. */
  function DeleteCalls(batch: seq<Entry>): (calls: seq<Call>)
    ensures |calls| <= |batch|
    ensures forall i :: 0 <= i < |calls| ==> calls[i].DeleteRowCall?
  {
    if batch == [] then []
    else
      (if batch[0].row.remoteId.Some? then [DeleteRowCall(batch[0].row.remoteId.value)] else [])
      + DeleteCalls(batch[1..])
  }

  lemma {:induction false} DeleteCallsAppend(a: seq<Entry>, b: seq<Entry>)
    ensures DeleteCalls(a + b) == DeleteCalls(a) + DeleteCalls(b)
    decreases |a|
  {
    if a == [] {
      assert a + b == b;
    } else {
      assert (a + b)[0] == a[0];
      assert (a + b)[1..] == a[1..] + b;
      DeleteCallsAppend(a[1..], b);
    }
  }

  lemma PrefixStep(batch: seq<Entry>, d: nat)
    requires 0 < |batch| && d < |batch|
    ensures batch[..d + 1] == [batch[0]] + batch[1..][..d]
    ensures IdSet(batch[..d + 1]) == {batch[0].id} + IdSet(batch[1..][..d])
    ensures DeleteCalls(batch[..d + 1]) == DeleteCalls([batch[0]]) + DeleteCalls(batch[1..][..d])
  {
    var pre := batch[..d + 1];
    assert pre == [batch[0]] + batch[1..][..d];
    assert pre[1..] == batch[1..][..d];
    assert [batch[0]][1..] == [];
  }

  /**
   The loop over `RowDao.getRows(account, LOCAL_DELETED)`. A row without a
   server id is deleted locally with no call; otherwise the server delete is
   made and the row is deleted locally only when it succeeds. `replies` are
   the statuses the delete endpoint answers with, in order.
   */
  function PushDeletes(s: Store, replies: seq<int>, batch: seq<Entry>): (p: Progress)
    ensures p.done <= |batch|
    ensures p.outcome.Done? <==> p.done == |batch|
    ensures p.outcome.Failed? ==> batch[p.done].row.remoteId.Some?
    decreases |batch|
  {
    if batch == [] then Progress(s, [], 0, Done)
    else
      var e := batch[0];
      match e.row.remoteId
      case Null =>
        var p := PushDeletes(DeleteRows(s, {e.id}), replies, batch[1..]);
        p.(done := p.done + 1)
      case Some(rid) =>
        if replies == [] then
          Progress(s, [DeleteRowCall(rid)], 0, Failed(NoReply))
        else if Successful(replies[0]) then
          var p := PushDeletes(DeleteRows(s, {e.id}), replies[1..], batch[1..]);
          p.(calls := [DeleteRowCall(rid)] + p.calls, done := p.done + 1)
        else
          Progress(s, [DeleteRowCall(rid)], 0, Failed(HttpFailed(replies[0], Some(rid))))
  }

  /** Whether the delete loop gets past row `e` given the replies left: no call needed, or a 2xx reply. */
  predicate GetsPast(e: Entry, replies: seq<int>) {
    e.row.remoteId.Null? || (replies != [] && Successful(replies[0]))
  }

  /** The replies left once row `e` is past: its reply is consumed if it made a call. */
  function RepliesAfter(e: Entry, replies: seq<int>): (rest: seq<int>)
    requires GetsPast(e, replies)
    ensures |rest| + |DeleteCalls([e])| == |replies|
    ensures forall k :: 0 <= k < |rest| ==> rest[k] == replies[k + |DeleteCalls([e])|]
  {
    assert [e][1..] == [];
    if e.row.remoteId.Null? then replies else replies[1..]
  }

  /** One turn of the delete loop on a row it gets past. */
  lemma DeletesGoOn(s: Store, replies: seq<int>, batch: seq<Entry>)
    requires batch != [] && GetsPast(batch[0], replies)
    ensures var q := PushDeletes(DeleteRows(s, {batch[0].id}), RepliesAfter(batch[0], replies), batch[1..]);
      PushDeletes(s, replies, batch) == q.(calls := DeleteCalls([batch[0]]) + q.calls, done := q.done + 1)
  {
    assert [batch[0]][1..] == [];
  }

  /** The turn of the delete loop on a row whose server delete fails. */
  lemma DeletesStop(s: Store, replies: seq<int>, batch: seq<Entry>)
    requires batch != [] && !GetsPast(batch[0], replies)
    ensures var p := PushDeletes(s, replies, batch);
      && p.store == s && p.done == 0
      && p.calls == [DeleteRowCall(batch[0].row.remoteId.value)]
      && p.outcome == if replies == [] then Failed(NoReply) else Failed(HttpFailed(replies[0], batch[0].row.remoteId))
  {
  }

  /**
   Exactly the handled rows are gone, with their cells: the rows before the
   failing one, or all of them. The failing row and every later one stay as they were.
   */
  lemma {:induction false} PushDeletesStore(s: Store, replies: seq<int>, batch: seq<Entry>)
    ensures PushDeletes(s, replies, batch).store == DeleteRows(s, IdSet(batch[..PushDeletes(s, replies, batch).done]))
    decreases |batch|
  {
    var p := PushDeletes(s, replies, batch);
    if batch == [] {
      assert IdSet(batch[..0]) == {};
      assert DeleteRows(s, {}) == s;
    } else if GetsPast(batch[0], replies) {
      var e := batch[0];
      DeletesGoOn(s, replies, batch);
      PushDeletesStore(DeleteRows(s, {e.id}), RepliesAfter(e, replies), batch[1..]);
      var q := PushDeletes(DeleteRows(s, {e.id}), RepliesAfter(e, replies), batch[1..]);
      PrefixStep(batch, q.done);
      DeleteRowsTwice(s, {e.id}, IdSet(batch[1..][..q.done]));
    } else {
      DeletesStop(s, replies, batch);
      assert IdSet(batch[..0]) == {};
      assert DeleteRows(s, {}) == s;
    }
  }

  /**
   The calls made are one server delete per handled row that has a server id,
   in order, plus the delete that failed; rows without a server id cost no call.
   */
  lemma {:induction false} PushDeletesCalls(s: Store, replies: seq<int>, batch: seq<Entry>)
    ensures var p := PushDeletes(s, replies, batch);
      && (p.outcome.Done? ==> p.calls == DeleteCalls(batch))
      && (p.outcome.Failed? ==>
            p.calls == DeleteCalls(batch[..p.done]) + [DeleteRowCall(batch[p.done].row.remoteId.value)])
    decreases |batch|
  {
    var p := PushDeletes(s, replies, batch);
    if batch != [] && GetsPast(batch[0], replies) {
      var e := batch[0];
      DeletesGoOn(s, replies, batch);
      PushDeletesCalls(DeleteRows(s, {e.id}), RepliesAfter(e, replies), batch[1..]);
      CallsStep(batch, p, PushDeletes(DeleteRows(s, {e.id}), RepliesAfter(e, replies), batch[1..]));
    } else if batch != [] {
      DeletesStop(s, replies, batch);
      assert batch[..0] == [];
    }
  }

  /** One step of `PushDeletesCalls`: prepending a handled row prepends its calls. */
  lemma CallsStep(batch: seq<Entry>, p: Progress, q: Progress)
    requires batch != [] && q.done < |batch|
    requires p.calls == DeleteCalls([batch[0]]) + q.calls && p.done == q.done + 1 && p.outcome == q.outcome
    requires q.outcome.Done? ==> q.calls == DeleteCalls(batch[1..])
    requires q.outcome.Failed? ==> q.done < |batch[1..]| && batch[1..][q.done].row.remoteId.Some?
    requires q.outcome.Failed? ==>
      q.calls == DeleteCalls(batch[1..][..q.done]) + [DeleteRowCall(batch[1..][q.done].row.remoteId.value)]
    ensures p.outcome.Done? ==> p.calls == DeleteCalls(batch)
    ensures p.outcome.Failed? ==>
      p.calls == DeleteCalls(batch[..p.done]) + [DeleteRowCall(batch[p.done].row.remoteId.value)]
  {
    if p.outcome.Done? {
      DeleteCallsAppend([batch[0]], batch[1..]);
      assert [batch[0]] + batch[1..] == batch;
    } else {
      PrefixStep(batch, q.done);
      assert batch[p.done] == batch[1..][q.done];
    }
  }

  /**
   A row is deleted locally exactly when its server delete answered 2xx: the
   replies consumed by handled rows were all successful, and a failure carries
   the unsuccessful status and the row's server id. Without a reply the push
   fails with `NoReply`.
   */
  lemma {:induction false} PushDeletesReplies(s: Store, replies: seq<int>, batch: seq<Entry>)
    ensures var p := PushDeletes(s, replies, batch);
      var n := |DeleteCalls(batch[..p.done])|;
      && n <= |replies|
      && (forall k :: 0 <= k < n ==> Successful(replies[k]))
      && (p.outcome == Failed(NoReply) ==> |replies| == n)
      && (p.outcome.Failed? && p.outcome.error != NoReply ==>
            && n < |replies|
            && !Successful(replies[n])
            && p.outcome.error == HttpFailed(replies[n], batch[p.done].row.remoteId))
    decreases |batch|
  {
    var p := PushDeletes(s, replies, batch);
    if batch == [] {
      assert batch[..0] == [];
    } else {
      var e := batch[0];
      if e.row.remoteId.Null? || (replies != [] && Successful(replies[0])) {
        var rest := if e.row.remoteId.Null? then replies else replies[1..];
        var q := PushDeletes(DeleteRows(s, {e.id}), rest, batch[1..]);
        PushDeletesReplies(DeleteRows(s, {e.id}), rest, batch[1..]);
        assert [e][1..] == [];
        RepliesStep(batch, replies, rest, p, q);
      } else {
        assert batch[..0] == [];
      }
    }
  }

  /** One step of `PushDeletesReplies`: the handled row consumed a 2xx reply if it made a call. */
  lemma RepliesStep(batch: seq<Entry>, replies: seq<int>, rest: seq<int>, p: Progress, q: Progress)
    requires batch != [] && q.done < |batch|
    requires batch[0].row.remoteId.Null? ==> rest == replies
    requires batch[0].row.remoteId.Some? ==> replies != [] && Successful(replies[0]) && rest == replies[1..]
    requires p.done == q.done + 1 && p.outcome == q.outcome
    requires q.outcome.Failed? ==> q.done < |batch[1..]|
    requires var n := |DeleteCalls(batch[1..][..q.done])|;
      && n <= |rest|
      && (forall k :: 0 <= k < n ==> Successful(rest[k]))
      && (q.outcome == Failed(NoReply) ==> |rest| == n)
      && (q.outcome.Failed? && q.outcome.error != NoReply ==>
            && n < |rest|
            && !Successful(rest[n])
            && q.outcome.error == HttpFailed(rest[n], batch[1..][q.done].row.remoteId))
    ensures var n := |DeleteCalls(batch[..p.done])|;
      && n <= |replies|
      && (forall k :: 0 <= k < n ==> Successful(replies[k]))
      && (p.outcome == Failed(NoReply) ==> |replies| == n)
      && (p.outcome.Failed? && p.outcome.error != NoReply ==>
            && n < |replies|
            && !Successful(replies[n])
            && p.outcome.error == HttpFailed(replies[n], batch[p.done].row.remoteId))
  {
    PrefixStep(batch, q.done);
    assert [batch[0]][1..] == [];
    var m := |DeleteCalls(batch[1..][..q.done])|;
    if batch[0].row.remoteId.Some? {
      assert |DeleteCalls(batch[..p.done])| == m + 1;
      assert forall k :: 0 < k < m + 1 ==> replies[k] == rest[k - 1];
    } else {
      assert |DeleteCalls(batch[..p.done])| == m;
    }
  }

  /**
   The request for one locally edited row: a create with its table's server id
   when the row has none yet, else an update of its server id. The payload is
   `DataAdapter.serialize` applied to the row's cells.
   */
  function EditCall(tables: seq<Table>, cells: map<CellKey, Cell>, e: Entry,
                    serialize: map<LocalId, string> -> string): (c: Call)
    ensures e.row.remoteId.Null? <==> c.CreateRowCall?
    ensures c.CreateRowCall? ==> c.tableRemoteId == TableRemoteId(tables, e.row.tableId)
    ensures c.UpdateRowCall? ==> Some(c.remoteId) == e.row.remoteId
    ensures (c.CreateRowCall? || c.UpdateRowCall?) && c.payload == serialize(CellsOfRow(cells, e.id))
  {
    var payload := serialize(CellsOfRow(cells, e.id));
    match e.row.remoteId
    case Null => CreateRowCall(TableRemoteId(tables, e.row.tableId), payload)
    case Some(rid) => UpdateRowCall(rid, payload)
  }

  /** The row as written back after a successful push: status `VOID`, server id from the reply. */
  function Pushed(e: Entry, body: RowBody): (r: Row)
    ensures r.status == Void && r.remoteId == body.remoteId
    ensures r.accountId == e.row.accountId && r.tableId == e.row.tableId && r.eTag == e.row.eTag
  {
    e.row.(status := Void, remoteId := body.remoteId)
  }

  /**
   The loop over `RowDao.getRows(account, LOCAL_EDITED)`. Each row is sent;
   on a 2xx reply it is written back as `Pushed`, otherwise the push throws.
   `replies` answer the creates and updates together, in order.
   */
  function PushEdits(s: Store, replies: seq<WriteReply>, batch: seq<Entry>,
                     serialize: map<LocalId, string> -> string): (p: Progress)
    ensures p.done <= |batch|
    ensures p.outcome.Done? <==> p.done == |batch|
    decreases |batch|
  {
    if batch == [] then Progress(s, [], 0, Done)
    else
      var e := batch[0];
      var call := EditCall(s.tables, s.cells, e, serialize);
      if replies == [] then Progress(s, [call], 0, Failed(NoReply))
      else if !Successful(replies[0].code) then
        Progress(s, [call], 0, Failed(HttpFailed(replies[0].code, e.row.remoteId)))
      else if replies[0].body.Null? then Progress(s, [call], 0, Failed(NullBody))
      else
        var p := PushEdits(UpdateRow(s, e.id, Pushed(e, replies[0].body.value)), replies[1..], batch[1..], serialize);
        p.(calls := [call] + p.calls, done := p.done + 1)
  }

  /**
   One call per handled row plus the one that failed, each a create or an
   update as `EditCall` decides; a reply is consumed per call, the handled
   ones all 2xx with a body, and a failure names its cause.
   */
  lemma {:induction false} PushEditsCalls(s: Store, replies: seq<WriteReply>, batch: seq<Entry>,
                                          serialize: map<LocalId, string> -> string)
    ensures var p := PushEdits(s, replies, batch, serialize);
      && |p.calls| == p.done + (if p.outcome.Failed? then 1 else 0)
      && (forall i :: 0 <= i < |p.calls| ==> p.calls[i] == EditCall(s.tables, s.cells, batch[i], serialize))
      && p.done <= |replies|
      && (forall i :: 0 <= i < p.done ==> Successful(replies[i].code) && replies[i].body.Some?)
      && (p.outcome == Failed(NoReply) ==> |replies| == p.done)
      && (p.outcome == Failed(NullBody) ==>
            p.done < |replies| && Successful(replies[p.done].code) && replies[p.done].body.Null?)
      && (p.outcome.Failed? && p.outcome.error.HttpFailed? ==>
            && p.done < |replies|
            && !Successful(replies[p.done].code)
            && p.outcome.error == HttpFailed(replies[p.done].code, batch[p.done].row.remoteId))
    decreases |batch|
  {
    var p := PushEdits(s, replies, batch, serialize);
    if batch != [] && replies != [] && Successful(replies[0].code) && replies[0].body.Some? {
      var e := batch[0];
      var s' := UpdateRow(s, e.id, Pushed(e, replies[0].body.value));
      PushEditsCalls(s', replies[1..], batch[1..], serialize);
      var q := PushEdits(s', replies[1..], batch[1..], serialize);
      EditsCallsStep(s.tables, s.cells, replies, batch, serialize, p, q);
    }
  }

  /** One step of `PushEditsCalls`: a handled row prepends its call and its 2xx reply. */
  lemma EditsCallsStep(tables: seq<Table>, cells: map<CellKey, Cell>, replies: seq<WriteReply>, batch: seq<Entry>,
                       serialize: map<LocalId, string> -> string, p: Progress, q: Progress)
    requires batch != [] && replies != [] && Successful(replies[0].code) && replies[0].body.Some?
    requires p.calls == [EditCall(tables, cells, batch[0], serialize)] + q.calls
    requires p.done == q.done + 1 && p.outcome == q.outcome && p.done <= |batch|
    requires |q.calls| == q.done + (if q.outcome.Failed? then 1 else 0)
    requires q.outcome.Failed? ==> q.done < |batch[1..]|
    requires forall i :: 0 <= i < |q.calls| ==> q.calls[i] == EditCall(tables, cells, batch[1..][i], serialize)
    requires q.done <= |replies[1..]|
    requires forall i :: 0 <= i < q.done ==> Successful(replies[1..][i].code) && replies[1..][i].body.Some?
    requires q.outcome == Failed(NoReply) ==> |replies[1..]| == q.done
    requires q.outcome == Failed(NullBody) ==>
      q.done < |replies[1..]| && Successful(replies[1..][q.done].code) && replies[1..][q.done].body.Null?
    requires q.outcome.Failed? && q.outcome.error.HttpFailed? ==>
      && q.done < |replies[1..]|
      && !Successful(replies[1..][q.done].code)
      && q.outcome.error == HttpFailed(replies[1..][q.done].code, batch[1..][q.done].row.remoteId)
    ensures |p.calls| == p.done + (if p.outcome.Failed? then 1 else 0)
    ensures forall i :: 0 <= i < |p.calls| ==> p.calls[i] == EditCall(tables, cells, batch[i], serialize)
    ensures p.done <= |replies|
    ensures forall i :: 0 <= i < p.done ==> Successful(replies[i].code) && replies[i].body.Some?
    ensures p.outcome == Failed(NoReply) ==> |replies| == p.done
    ensures p.outcome == Failed(NullBody) ==>
      p.done < |replies| && Successful(replies[p.done].code) && replies[p.done].body.Null?
    ensures p.outcome.Failed? && p.outcome.error.HttpFailed? ==>
      && p.done < |replies|
      && !Successful(replies[p.done].code)
      && p.outcome.error == HttpFailed(replies[p.done].code, batch[p.done].row.remoteId)
  {
    assert forall i :: 0 < i < |p.calls| ==> p.calls[i] == q.calls[i - 1] && batch[i] == batch[1..][i - 1];
    assert forall i :: 0 < i < |replies| ==> replies[i] == replies[1..][i - 1];
  }

  /**
   The handled rows are written back as `Pushed` from their replies; every
   other row, the failing one and all later ones included, is unchanged, and
   so are the cells. No row is added or removed.
   */
  lemma {:induction false} PushEditsStore(s: Store, replies: seq<WriteReply>, batch: seq<Entry>,
                                          serialize: map<LocalId, string> -> string)
    requires DistinctIds(batch)
    ensures var p := PushEdits(s, replies, batch, serialize);
      && p.done <= |replies|
      && (forall i :: 0 <= i < p.done ==> replies[i].body.Some?)
      && p.store.rows.Keys == s.rows.Keys
      && (forall i :: 0 <= i < p.done && batch[i].id in s.rows ==>
            p.store.rows[batch[i].id] == Pushed(batch[i], replies[i].body.value))
      && (forall id :: id in s.rows && id !in IdSet(batch[..p.done]) ==> p.store.rows[id] == s.rows[id])
      && p.store.cells == s.cells && p.store.tables == s.tables && p.store.columnIds == s.columnIds
      && p.store.nextRowId == s.nextRowId && p.store.nextCellId == s.nextCellId
    decreases |batch|
  {
    var p := PushEdits(s, replies, batch, serialize);
    if batch != [] && replies != [] && Successful(replies[0].code) && replies[0].body.Some? {
      var e := batch[0];
      var s' := UpdateRow(s, e.id, Pushed(e, replies[0].body.value));
      PushEditsStore(s', replies[1..], batch[1..], serialize);
      var q := PushEdits(s', replies[1..], batch[1..], serialize);
      assert p.store == q.store && p.done == q.done + 1;
      EditsStoreStep(s, s', replies, batch, p, q);
    } else {
      assert batch[..0] == [];
      assert IdSet(batch[..0]) == {};
    }
  }

  /** One step of `PushEditsStore`: the first row's write-back survives the later, disjoint ones. */
  lemma EditsStoreStep(s: Store, s': Store, replies: seq<WriteReply>, batch: seq<Entry>, p: Progress, q: Progress)
    requires DistinctIds(batch) && batch != [] && replies != [] && replies[0].body.Some?
    requires s' == UpdateRow(s, batch[0].id, Pushed(batch[0], replies[0].body.value))
    requires p.store == q.store && p.done == q.done + 1 && q.done <= |batch[1..]|
    requires q.done <= |replies[1..]|
    requires forall i :: 0 <= i < q.done ==> replies[1..][i].body.Some?
    requires q.store.rows.Keys == s'.rows.Keys
    requires forall i :: 0 <= i < q.done && batch[1..][i].id in s'.rows ==>
      q.store.rows[batch[1..][i].id] == Pushed(batch[1..][i], replies[1..][i].body.value)
    requires forall id :: id in s'.rows && id !in IdSet(batch[1..][..q.done]) ==> q.store.rows[id] == s'.rows[id]
    ensures p.done <= |replies|
    ensures forall i :: 0 <= i < p.done ==> replies[i].body.Some?
    ensures p.store.rows.Keys == s.rows.Keys
    ensures forall i :: 0 <= i < p.done && batch[i].id in s.rows ==>
      p.store.rows[batch[i].id] == Pushed(batch[i], replies[i].body.value)
    ensures forall id :: id in s.rows && id !in IdSet(batch[..p.done]) ==> p.store.rows[id] == s.rows[id]
  {
    PrefixStep(batch, q.done);
    var e := batch[0];
    assert e.id !in IdSet(batch[1..][..q.done]);
    forall i | 0 <= i < p.done && batch[i].id in s.rows
      ensures p.store.rows[batch[i].id] == Pushed(batch[i], replies[i].body.value)
    {
      if i > 0 {
        assert batch[i] == batch[1..][i - 1] && replies[i] == replies[1..][i - 1];
      }
    }
  }

  datatype PushResult = PushResult(store: Store, calls: seq<Call>, outcome: Outcome)

  /**
   `pushLocalChanges(api, account)`: all deletions of the account's rows first,
   then all edits; a failure in the first loop means the second never starts.
   */
  function PushLocalChanges(s: Store, account: AccountId, deleteReplies: seq<int>,
                            writeReplies: seq<WriteReply>, serialize: map<LocalId, string> -> string): (r: PushResult)
    requires Valid(s)
    ensures var p := PushDeletes(s, deleteReplies, RowsWithStatus(s, account, LocalDeleted));
      && p.calls <= r.calls
      && (p.outcome.Failed? ==> r.outcome == p.outcome && r.calls == p.calls)
  {
    var deletes := RowsWithStatus(s, account, LocalDeleted);
    var p := PushDeletes(s, deleteReplies, deletes);
    if p.outcome.Failed? then PushResult(p.store, p.calls, p.outcome)
    else
      PushDeletesStore(s, deleteReplies, deletes);
      DeleteRowsKeepsInvariants(s, IdSet(deletes[..p.done]));
      var edits := RowsWithStatus(p.store, account, LocalEdited);
      var q := PushEdits(p.store, writeReplies, edits, serialize);
      PushResult(q.store, p.calls + q.calls, q.outcome)
  }

  lemma IncreasingIsDistinct(batch: seq<Entry>)
    requires Increasing(Ids(batch))
    ensures DistinctIds(batch)
  {
    forall i, j | 0 <= i < j < |batch|
      ensures batch[i].id != batch[j].id
    {
      assert Ids(batch)[i] < Ids(batch)[j];
    }
  }

  lemma DeleteCallsAreDeletes(s: Store, replies: seq<int>, batch: seq<Entry>)
    ensures var p := PushDeletes(s, replies, batch);
      forall i :: 0 <= i < |p.calls| ==> p.calls[i].DeleteRowCall?
  {
    PushDeletesCalls(s, replies, batch);
  }

  lemma EditCallsAreWrites(s: Store, replies: seq<WriteReply>, batch: seq<Entry>,
                           serialize: map<LocalId, string> -> string)
    ensures var p := PushEdits(s, replies, batch, serialize);
      forall i :: 0 <= i < |p.calls| ==> !p.calls[i].DeleteRowCall?
  {
    PushEditsCalls(s, replies, batch, serialize);
    var p := PushEdits(s, replies, batch, serialize);
    forall i | 0 <= i < |p.calls|
      ensures !p.calls[i].DeleteRowCall?
    {
      var c := EditCall(s.tables, s.cells, batch[i], serialize);
      assert c.CreateRowCall? || c.UpdateRowCall?;
    }
  }

  /**
   Deletions come first: no delete call follows a create or update, and once
   a create or update has been issued every locally deleted row of the
   account is gone. So a failed delete means no create or update is issued.
   */
  lemma PushDeletesBeforeEdits(s: Store, account: AccountId, deleteReplies: seq<int>,
                               writeReplies: seq<WriteReply>, serialize: map<LocalId, string> -> string)
    requires Valid(s)
    ensures var r := PushLocalChanges(s, account, deleteReplies, writeReplies, serialize);
      && (forall i, j :: 0 <= i < j < |r.calls| && r.calls[j].DeleteRowCall? ==> r.calls[i].DeleteRowCall?)
      && ((exists i :: 0 <= i < |r.calls| && !r.calls[i].DeleteRowCall?) ==>
            forall id :: Selected(s.rows, id, account, LocalDeleted) ==> id !in r.store.rows)
  {
    var r := PushLocalChanges(s, account, deleteReplies, writeReplies, serialize);
    var deletes := RowsWithStatus(s, account, LocalDeleted);
    var p := PushDeletes(s, deleteReplies, deletes);
    DeleteCallsAreDeletes(s, deleteReplies, deletes);
    if p.outcome.Done? {
      PushDeletesStore(s, deleteReplies, deletes);
      DeleteRowsKeepsInvariants(s, IdSet(deletes[..p.done]));
      var edits := RowsWithStatus(p.store, account, LocalEdited);
      IncreasingIsDistinct(edits);
      EditCallsAreWrites(p.store, writeReplies, edits, serialize);
      PushEditsStore(p.store, writeReplies, edits, serialize);
      assert deletes[..p.done] == deletes;
      forall id | Selected(s.rows, id, account, LocalDeleted)
        ensures id !in r.store.rows
      {
        assert id in Ids(deletes);
        var i :| 0 <= i < |deletes| && Ids(deletes)[i] == id;
        assert deletes[i].id in IdSet(deletes);
      }
    }
  }

  /** Completing the delete loop over the account's `LOCAL_DELETED` rows leaves none of them. */
  lemma DeleteLoopClearsAccount(s: Store, account: AccountId, replies: seq<int>)
    requires Valid(s)
    ensures var p := PushDeletes(s, replies, RowsWithStatus(s, account, LocalDeleted));
      && (forall id :: id in p.store.rows ==> id in s.rows && p.store.rows[id] == s.rows[id])
      && (forall id :: id in s.rows && s.rows[id].accountId != account ==> id in p.store.rows)
      && (p.outcome.Done? ==> forall id :: id in p.store.rows ==> !Selected(s.rows, id, account, LocalDeleted))
  {
    var deletes := RowsWithStatus(s, account, LocalDeleted);
    var p := PushDeletes(s, replies, deletes);
    PushDeletesStore(s, replies, deletes);
    forall id | id in s.rows && s.rows[id].accountId != account
      ensures id !in IdSet(deletes[..p.done])
    {
      forall i | 0 <= i < p.done
        ensures deletes[i].id != id
      {
        assert Selected(s.rows, deletes[i].id, account, LocalDeleted);
      }
    }
    if p.outcome.Done? {
      assert deletes[..p.done] == deletes;
      forall id | Selected(s.rows, id, account, LocalDeleted)
        ensures id in IdSet(deletes)
      {
        assert id in Ids(deletes);
        var i :| 0 <= i < |deletes| && Ids(deletes)[i] == id;
        assert deletes[i].id in IdSet(deletes);
      }
    }
  }

  /**
   Completing the edit loop over the account's `LOCAL_EDITED` rows turns each
   of them `VOID`; every other row keeps its value, and no row of another
   account is written.
   */
  lemma EditLoopClearsAccount(s: Store, account: AccountId, replies: seq<WriteReply>,
                              serialize: map<LocalId, string> -> string)
    requires Valid(s)
    ensures var q := PushEdits(s, replies, RowsWithStatus(s, account, LocalEdited), serialize);
      && q.store.rows.Keys == s.rows.Keys
      && (forall id :: id in s.rows && s.rows[id].accountId != account ==> q.store.rows[id] == s.rows[id])
      && (forall id :: id in s.rows && s.rows[id].status != LocalEdited ==> q.store.rows[id] == s.rows[id])
      && (q.outcome.Done? ==> forall id :: Selected(s.rows, id, account, LocalEdited) ==>
            q.store.rows[id].status == Void && q.store.rows[id].accountId == account)
  {
    var edits := RowsWithStatus(s, account, LocalEdited);
    IncreasingIsDistinct(edits);
    var q := PushEdits(s, replies, edits, serialize);
    PushEditsStore(s, replies, edits, serialize);
    forall id | id in s.rows && !Selected(s.rows, id, account, LocalEdited)
      ensures id !in IdSet(edits[..q.done])
    {
      forall i | 0 <= i < q.done
        ensures edits[i].id != id
      {
        assert Selected(s.rows, edits[i].id, account, LocalEdited);
      }
    }
    if q.outcome.Done? {
      assert edits[..q.done] == edits;
      forall id | Selected(s.rows, id, account, LocalEdited)
        ensures q.store.rows[id].status == Void && q.store.rows[id].accountId == account
      {
        assert id in Ids(edits);
        var i :| 0 <= i < |edits| && Ids(edits)[i] == id;
        assert q.store.rows[edits[i].id] == Pushed(edits[i], replies[i].body.value);
      }
    }
  }

  /** Rows of other accounts are never touched by an account's push. */
  lemma PushKeepsOtherAccounts(s: Store, account: AccountId, deleteReplies: seq<int>,
                               writeReplies: seq<WriteReply>, serialize: map<LocalId, string> -> string)
    requires Valid(s)
    ensures var r := PushLocalChanges(s, account, deleteReplies, writeReplies, serialize);
      forall id :: id in s.rows && s.rows[id].accountId != account ==>
        id in r.store.rows && r.store.rows[id] == s.rows[id]
  {
    var deletes := RowsWithStatus(s, account, LocalDeleted);
    var p := PushDeletes(s, deleteReplies, deletes);
    DeleteLoopClearsAccount(s, account, deleteReplies);
    if p.outcome.Done? {
      PushDeletesStore(s, deleteReplies, deletes);
      DeleteRowsKeepsInvariants(s, IdSet(deletes[..p.done]));
      EditLoopClearsAccount(p.store, account, writeReplies, serialize);
    }
  }

  /**
   After a push that completes, every row of the account is `VOID`: the
   deleted ones are gone and the edited ones were written back as pushed.
   */
  lemma PushCleansAccount(s: Store, account: AccountId, deleteReplies: seq<int>,
                          writeReplies: seq<WriteReply>, serialize: map<LocalId, string> -> string)
    requires Valid(s)
    ensures var r := PushLocalChanges(s, account, deleteReplies, writeReplies, serialize);
      r.outcome.Done? ==>
        forall id :: id in r.store.rows && r.store.rows[id].accountId == account ==> r.store.rows[id].status == Void
  {
    var deletes := RowsWithStatus(s, account, LocalDeleted);
    var p := PushDeletes(s, deleteReplies, deletes);
    DeleteLoopClearsAccount(s, account, deleteReplies);
    if p.outcome.Done? {
      PushDeletesStore(s, deleteReplies, deletes);
      DeleteRowsKeepsInvariants(s, IdSet(deletes[..p.done]));
      EditLoopClearsAccount(p.store, account, writeReplies, serialize);
    }
  }

  /**
   While only deletes have been issued (in particular when a delete failed),
   every row that was not `LOCAL_DELETED`, each edited row included, is
   exactly as it was.
   */
  lemma PushOnlyDeletesKeepsOtherRows(s: Store, account: AccountId, deleteReplies: seq<int>,
                                      writeReplies: seq<WriteReply>, serialize: map<LocalId, string> -> string)
    requires Valid(s)
    ensures var r := PushLocalChanges(s, account, deleteReplies, writeReplies, serialize);
      (forall i :: 0 <= i < |r.calls| ==> r.calls[i].DeleteRowCall?) ==>
        forall id :: id in s.rows && s.rows[id].status != LocalDeleted ==>
          id in r.store.rows && r.store.rows[id] == s.rows[id]
  {
    var r := PushLocalChanges(s, account, deleteReplies, writeReplies, serialize);
    var deletes := RowsWithStatus(s, account, LocalDeleted);
    var p := PushDeletes(s, deleteReplies, deletes);
    PushDeletesStore(s, deleteReplies, deletes);
    forall id | id in s.rows && s.rows[id].status != LocalDeleted
      ensures id !in IdSet(deletes[..p.done])
    {
      forall i | 0 <= i < p.done
        ensures deletes[i].id != id
      {
        assert Selected(s.rows, deletes[i].id, account, LocalDeleted);
      }
    }
    if p.outcome.Done? {
      DeleteRowsKeepsInvariants(s, IdSet(deletes[..p.done]));
      var edits := RowsWithStatus(p.store, account, LocalEdited);
      var q := PushEdits(p.store, writeReplies, edits, serialize);
      EditLoopClearsAccount(p.store, account, writeReplies, serialize);
      PushEditsCalls(p.store, writeReplies, edits, serialize);
      if edits != [] {
        var c := EditCall(p.store.tables, p.store.cells, edits[0], serialize);
        assert r.calls[|p.calls|] == q.calls[0] == c;
      } else {
        assert q.store == p.store;
      }
    }
  }
}
