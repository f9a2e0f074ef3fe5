/**
 The pagination loop of `pullRemoteChanges` for one table: pages of at most
 `limit` rows are requested at offsets 0, limit, 2·limit, …; the loop stops at
 the first 200 page whose size is not `limit`. A 304 reply is handled inside
 the `switch` only, so the loop re-issues the same request at the same offset.
 */
module RowFetch {
  import opened Nullable
  import opened Entity
  import opened RemoteApi

  /** A fetched row, tagged with the `ETag` header of the page it arrived in. */
  datatype Fetched = Fetched(row: RemoteRow, eTag: Option<string>)

  /** The server ids of a sequence of fetched rows. */
  function RemoteIdsOf(f: seq<Fetched>): (ids: set<RemoteId>) {
    if f == [] then {} else {f[0].row.remoteId} + RemoteIdsOf(f[1..])
  }

  lemma {:induction false} RemoteIdsOfIndex(f: seq<Fetched>, rid: RemoteId)
    ensures rid in RemoteIdsOf(f) <==> exists i :: 0 <= i < |f| && f[i].row.remoteId == rid
    decreases |f|
  {
    if f != [] {
      RemoteIdsOfIndex(f[1..], rid);
      if rid in RemoteIdsOf(f[1..]) {
        var i :| 0 <= i < |f[1..]| && f[1..][i].row.remoteId == rid;
        assert f[i + 1].row.remoteId == rid;
      }
      if exists i :: 0 <= i < |f| && f[i].row.remoteId == rid {
        var i :| 0 <= i < |f| && f[i].row.remoteId == rid;
        if i > 0 {
          assert f[1..][i - 1] == f[i];
        }
      }
    }
  }

  lemma {:induction false} RemoteIdsOfConcat(a: seq<Fetched>, b: seq<Fetched>)
    ensures RemoteIdsOf(a + b) == RemoteIdsOf(a) + RemoteIdsOf(b)
    decreases |a|
  {
    if a == [] {
      assert a + b == b;
    } else {
      assert (a + b)[0] == a[0];
      assert (a + b)[1..] == a[1..] + b;
      RemoteIdsOfConcat(a[1..], b);
    }
  }

  predicate DistinctRemoteIds(f: seq<Fetched>) {
    forall i, j :: 0 <= i < j < |f| ==> f[i].row.remoteId != f[j].row.remoteId
  }

  /** Tags every row of a page with the page's `ETag`. */
  function Tag(rows: seq<RemoteRow>, eTag: Option<string>): (f: seq<Fetched>)
    ensures |f| == |rows|
    ensures forall i :: 0 <= i < |rows| ==> f[i] == Fetched(rows[i], eTag)
  {
    seq(|rows|, i requires 0 <= i < |rows| => Fetched(rows[i], eTag))
  }

  /**
   `fetchedRows.addAll(rows)` with rows identified by server id: a row whose
   id is already present is not added again, so the first one stays.
   */
  function AddAll(acc: seq<Fetched>, rows: seq<Fetched>): (r: seq<Fetched>)
    ensures |r| <= |acc| + |rows|
    decreases |rows|
  {
    if rows == [] then acc
    else if rows[0].row.remoteId in RemoteIdsOf(acc) then AddAll(acc, rows[1..])
    else AddAll(acc + [rows[0]], rows[1..])
  }

  /**
   The result keeps `acc` as its prefix, holds exactly the ids of `acc` and
   `rows`, and never holds two rows with the same id if `acc` did not.
   */
  lemma {:induction false} AddAllSpec(acc: seq<Fetched>, rows: seq<Fetched>)
    ensures var r := AddAll(acc, rows);
      && |acc| <= |r| && r[..|acc|] == acc
      && RemoteIdsOf(r) == RemoteIdsOf(acc) + RemoteIdsOf(rows)
      && (DistinctRemoteIds(acc) ==> DistinctRemoteIds(r))
    decreases |rows|
  {
    if rows != [] {
      var x := rows[0];
      var next := if x.row.remoteId in RemoteIdsOf(acc) then acc else acc + [x];
      AddAllSpec(next, rows[1..]);
      assert RemoteIdsOf([x]) == {x.row.remoteId};
      RemoteIdsOfConcat(acc, [x]);
      RemoteIdsOfConcat([x], rows[1..]);
      assert rows == [x] + rows[1..];
      var r := AddAll(acc, rows);
      assert r[..|next|][..|acc|] == r[..|acc|];
      if x.row.remoteId !in RemoteIdsOf(acc) && DistinctRemoteIds(acc) {
        RemoteIdsOfIndex(acc, x.row.remoteId);
        assert DistinctRemoteIds(next);
      }
    }
  }

  lemma {:induction false} AddAllAppend(acc: seq<Fetched>, a: seq<Fetched>, b: seq<Fetched>)
    ensures AddAll(AddAll(acc, a), b) == AddAll(acc, a + b)
    decreases |a|
  {
    if a == [] {
      assert a + b == b;
    } else {
      assert (a + b)[0] == a[0];
      assert (a + b)[1..] == a[1..] + b;
      var next := if a[0].row.remoteId in RemoteIdsOf(acc) then acc else acc + [a[0]];
      AddAllAppend(next, a[1..], b);
      assert AddAll(acc, a) == AddAll(next, a[1..]);
    }
  }

  /** A reply after which the loop goes on: a 304, or a 200 page of exactly `limit` rows. */
  predicate Continues(p: PageReply, limit: nat) {
    p.code == NotModified || (p.code == Ok && p.body.Some? && |p.body.value| == limit)
  }

  /** How the loop ends on a reply that does not continue it. */
  function StopOutcome(p: PageReply, tableRemoteId: Option<RemoteId>): (o: Outcome) {
    if p.code == Ok then
      if p.body.Null? then Failed(NullBody) else Done
    else Failed(HttpFailed(p.code, tableRemoteId))
  }

  /** The number of 200 replies among `pages`: each one advanced the offset. */
  function OkPages(pages: seq<PageReply>): (n: nat) {
    if pages == [] then 0 else (if pages[0].code == Ok then 1 else 0) + OkPages(pages[1..])
  }

  /** The rows of every 200 page, in order, each tagged with its page's `ETag`. */
  function Bodies(pages: seq<PageReply>): (f: seq<Fetched>) {
    if pages == [] then []
    else
      PageRows(pages[0]) + Bodies(pages[1..])
  }

  lemma {:induction false} OkPagesAppend(a: seq<PageReply>, b: seq<PageReply>)
    ensures OkPages(a + b) == OkPages(a) + OkPages(b)
    decreases |a|
  {
    if a == [] {
      assert a + b == b;
    } else {
      assert (a + b)[0] == a[0];
      assert (a + b)[1..] == a[1..] + b;
      OkPagesAppend(a[1..], b);
    }
  }

  lemma {:induction false} BodiesAppend(a: seq<PageReply>, b: seq<PageReply>)
    ensures Bodies(a + b) == Bodies(a) + Bodies(b)
    decreases |a|
  {
    if a == [] {
      assert a + b == b;
    } else {
      assert (a + b)[0] == a[0];
      assert (a + b)[1..] == a[1..] + b;
      BodiesAppend(a[1..], b);
    }
  }

  /** The offset of the next request after a reply that continues the loop. */
  function NextOffset(p: PageReply, offset: nat): (next: nat) {
    if p.code == Ok && p.body.Some? then offset + |p.body.value| else offset
  }

  /** The rows a page adds: those of a 200 page with a body, tagged with its `ETag`. */
  function PageRows(p: PageReply): (f: seq<Fetched>) {
    if p.code == Ok && p.body.Some? then Tag(p.body.value, p.eTag) else []
  }

  datatype FetchResult = FetchResult(fetched: seq<Fetched>, calls: seq<Call>, consumed: nat, outcome: Outcome)

  /**
   `fetchRowsLoop`: requests the page at `offset`, consumes one reply from
   `pages`, and goes on or stops as the reply's code dictates.
   */
  function FetchRows(tableRemoteId: Option<RemoteId>, limit: nat, offset: nat,
                     fetched: seq<Fetched>, pages: seq<PageReply>): (r: FetchResult)
    ensures r.consumed <= |pages|
    decreases |pages|
  {
    var call := GetRowsCall(tableRemoteId, limit, offset);
    if pages == [] then FetchResult(fetched, [call], 0, Failed(NoReply))
    else
      var p := pages[0];
      if p.code == Ok then
        if p.body.Null? then FetchResult(fetched, [call], 1, Failed(NullBody))
        else
          var rows := p.body.value;
          var more := AddAll(fetched, Tag(rows, p.eTag));
          if |rows| != limit then FetchResult(more, [call], 1, Done)
          else
            var r := FetchRows(tableRemoteId, limit, offset + |rows|, more, pages[1..]);
            r.(calls := [call] + r.calls, consumed := r.consumed + 1)
      else if p.code == NotModified then
        var r := FetchRows(tableRemoteId, limit, offset, fetched, pages[1..]);
        r.(calls := [call] + r.calls, consumed := r.consumed + 1)
      else FetchResult(fetched, [call], 1, Failed(HttpFailed(p.code, tableRemoteId)))
  }

  /** One turn of the loop on a reply that continues it. */
  lemma FetchGoesOn(tableRemoteId: Option<RemoteId>, limit: nat, offset: nat,
                    fetched: seq<Fetched>, pages: seq<PageReply>)
    requires pages != [] && Continues(pages[0], limit)
    ensures var r := FetchRows(tableRemoteId, limit, offset, fetched, pages);
      var q := FetchRows(tableRemoteId, limit, NextOffset(pages[0], offset),
                         AddAll(fetched, PageRows(pages[0])), pages[1..]);
      r == q.(calls := [GetRowsCall(tableRemoteId, limit, offset)] + q.calls, consumed := q.consumed + 1)
  {
    assert AddAll(fetched, []) == fetched;
  }

  /** The turn of the loop on a reply that ends it. */
  lemma FetchEnds(tableRemoteId: Option<RemoteId>, limit: nat, offset: nat,
                  fetched: seq<Fetched>, pages: seq<PageReply>)
    requires pages != [] && !Continues(pages[0], limit)
    ensures var r := FetchRows(tableRemoteId, limit, offset, fetched, pages);
      && r.calls == [GetRowsCall(tableRemoteId, limit, offset)] && r.consumed == 1
      && r.outcome == StopOutcome(pages[0], tableRemoteId)
      && r.fetched == AddAll(fetched, if r.outcome == Done then PageRows(pages[0]) else [])
  {
    assert AddAll(fetched, []) == fetched;
  }

  /**
   Where the loop stops: every consumed reply but the last continues it and
   the last one ends it (a 200 page whose size is not L ends it normally, a
   null body or any code other than 200/304 throws); if the replies run out
   first, it fails with `NoReply`.
   */
  lemma {:induction false} FetchStops(tableRemoteId: Option<RemoteId>, limit: nat, offset: nat,
                                      fetched: seq<Fetched>, pages: seq<PageReply>)
    ensures var r := FetchRows(tableRemoteId, limit, offset, fetched, pages);
      && (r.outcome == Failed(NoReply) ==>
            r.consumed == |pages| && forall k :: 0 <= k < |pages| ==> Continues(pages[k], limit))
      && (r.outcome != Failed(NoReply) ==>
            && 0 < r.consumed
            && (forall k :: 0 <= k < r.consumed - 1 ==> Continues(pages[k], limit))
            && !Continues(pages[r.consumed - 1], limit)
            && r.outcome == StopOutcome(pages[r.consumed - 1], tableRemoteId))
    decreases |pages|
  {
    if pages != [] && Continues(pages[0], limit) {
      FetchGoesOn(tableRemoteId, limit, offset, fetched, pages);
      FetchStops(tableRemoteId, limit, NextOffset(pages[0], offset),
                 AddAll(fetched, PageRows(pages[0])), pages[1..]);
      assert forall k :: 0 < k < |pages| ==> pages[k] == pages[1..][k - 1];
    } else if pages != [] {
      FetchEnds(tableRemoteId, limit, offset, fetched, pages);
    }
  }

  /**
   The k-th request asks for the page at `offset + limit * (number of 200
   replies before it)`: a full page moves the offset on by `limit`, a 304
   leaves it where it was. One request is made per consumed reply, plus one
   that got no reply when the replies ran out.
   */
  lemma {:induction false} FetchOffsets(tableRemoteId: Option<RemoteId>, limit: nat, offset: nat,
                                        fetched: seq<Fetched>, pages: seq<PageReply>)
    ensures var r := FetchRows(tableRemoteId, limit, offset, fetched, pages);
      && |r.calls| == r.consumed + (if r.outcome == Failed(NoReply) then 1 else 0)
      && forall k :: 0 <= k < |r.calls| ==>
           r.calls[k] == GetRowsCall(tableRemoteId, limit, offset + limit * OkPages(pages[..k]))
    decreases |pages|
  {
    var r := FetchRows(tableRemoteId, limit, offset, fetched, pages);
    if pages == [] {
      assert pages[..0] == [];
    } else if Continues(pages[0], limit) {
      FetchGoesOn(tableRemoteId, limit, offset, fetched, pages);
      var q := FetchRows(tableRemoteId, limit, NextOffset(pages[0], offset),
                         AddAll(fetched, PageRows(pages[0])), pages[1..]);
      FetchOffsets(tableRemoteId, limit, NextOffset(pages[0], offset),
                   AddAll(fetched, PageRows(pages[0])), pages[1..]);
      OffsetsStep(tableRemoteId, limit, offset, pages, r, q);
    } else {
      FetchEnds(tableRemoteId, limit, offset, fetched, pages);
      assert pages[..0] == [];
    }
  }

  /** Combines the first request with the offsets of the rest of the loop. */
  lemma OffsetsStep(tableRemoteId: Option<RemoteId>, limit: nat, offset: nat,
                    pages: seq<PageReply>, r: FetchResult, q: FetchResult)
    requires pages != [] && Continues(pages[0], limit)
    requires r == q.(calls := [GetRowsCall(tableRemoteId, limit, offset)] + q.calls, consumed := q.consumed + 1)
    requires q.consumed < |pages|
    requires |q.calls| == q.consumed + (if q.outcome == Failed(NoReply) then 1 else 0)
    requires forall k :: 0 <= k < |q.calls| ==>
      q.calls[k] == GetRowsCall(tableRemoteId, limit, NextOffset(pages[0], offset) + limit * OkPages(pages[1..][..k]))
    ensures |r.calls| == r.consumed + (if r.outcome == Failed(NoReply) then 1 else 0)
    ensures forall k :: 0 <= k < |r.calls| ==>
      r.calls[k] == GetRowsCall(tableRemoteId, limit, offset + limit * OkPages(pages[..k]))
  {
    var p := pages[0];
    var step := if p.code == Ok then 1 else 0;
    assert OkPages([p]) == step by { assert [p][1..] == []; }
    assert pages[..0] == [];
    assert NextOffset(p, offset) == offset + limit * step;
    forall k | 0 < k < |r.calls|
      ensures r.calls[k] == GetRowsCall(tableRemoteId, limit, offset + limit * OkPages(pages[..k]))
    {
      var m := OkPages(pages[1..][..k - 1]);
      assert pages[..k] == [p] + pages[1..][..k - 1];
      OkPagesAppend([p], pages[1..][..k - 1]);
      assert limit * (step + m) == limit * step + limit * m;
      assert r.calls[k] == q.calls[k - 1];
    }
  }

  /** The fetched rows are those of every 200 page consumed, added in order, first occurrence kept. */
  lemma {:induction false} FetchCollects(tableRemoteId: Option<RemoteId>, limit: nat, offset: nat,
                                         fetched: seq<Fetched>, pages: seq<PageReply>)
    ensures var r := FetchRows(tableRemoteId, limit, offset, fetched, pages);
      r.fetched == AddAll(fetched, Bodies(pages[..r.consumed]))
    decreases |pages|
  {
    var r := FetchRows(tableRemoteId, limit, offset, fetched, pages);
    if pages == [] {
      assert pages[..0] == [];
    } else if Continues(pages[0], limit) {
      FetchGoesOn(tableRemoteId, limit, offset, fetched, pages);
      var more := AddAll(fetched, PageRows(pages[0]));
      var q := FetchRows(tableRemoteId, limit, NextOffset(pages[0], offset), more, pages[1..]);
      FetchCollects(tableRemoteId, limit, NextOffset(pages[0], offset), more, pages[1..]);
      CollectsStep(fetched, pages, r.consumed, q.consumed, q.fetched);
    } else {
      FetchEnds(tableRemoteId, limit, offset, fetched, pages);
      assert pages[..r.consumed] == [pages[0]];
      assert Bodies([pages[0]]) == PageRows(pages[0]) by { assert [pages[0]][1..] == []; }
    }
  }

  /** Combines the first page's rows with those collected by the rest of the loop. */
  lemma CollectsStep(fetched: seq<Fetched>, pages: seq<PageReply>, consumed: nat, rest: nat, collected: seq<Fetched>)
    requires pages != [] && rest < |pages| && consumed == rest + 1
    requires collected == AddAll(AddAll(fetched, PageRows(pages[0])), Bodies(pages[1..][..rest]))
    ensures collected == AddAll(fetched, Bodies(pages[..consumed]))
  {
    var p := pages[0];
    assert Bodies([p]) == PageRows(p) by { assert [p][1..] == []; }
    assert pages[..consumed] == [p] + pages[1..][..rest];
    BodiesAppend([p], pages[1..][..rest]);
    AddAllAppend(fetched, PageRows(p), Bodies(pages[1..][..rest]));
  }

  /**
   The fetched rows never hold two rows with one server id, and they hold
   exactly the ids of the 200 pages consumed (with those already fetched).
   */
  lemma FetchedDistinct(tableRemoteId: Option<RemoteId>, limit: nat, offset: nat,
                        fetched: seq<Fetched>, pages: seq<PageReply>)
    requires DistinctRemoteIds(fetched)
    ensures var r := FetchRows(tableRemoteId, limit, offset, fetched, pages);
      && DistinctRemoteIds(r.fetched)
      && RemoteIdsOf(r.fetched) == RemoteIdsOf(fetched) + RemoteIdsOf(Bodies(pages[..r.consumed]))
  {
    var r := FetchRows(tableRemoteId, limit, offset, fetched, pages);
    FetchCollects(tableRemoteId, limit, offset, fetched, pages);
    AddAllSpec(fetched, Bodies(pages[..r.consumed]));
  }

  /**
   A 304 reply does not move the loop on: the request that follows it is
   the same request again.
   */
  lemma NotModifiedRepeatsRequest(tableRemoteId: Option<RemoteId>, limit: nat, offset: nat,
                                  fetched: seq<Fetched>, pages: seq<PageReply>, k: nat)
    requires k + 1 < |FetchRows(tableRemoteId, limit, offset, fetched, pages).calls|
    requires k < |pages| && pages[k].code == NotModified
    ensures var r := FetchRows(tableRemoteId, limit, offset, fetched, pages);
      r.calls[k + 1] == r.calls[k]
  {
    FetchOffsets(tableRemoteId, limit, offset, fetched, pages);
    assert pages[..k + 1] == pages[..k] + [pages[k]];
    OkPagesAppend(pages[..k], [pages[k]]);
    assert OkPages([pages[k]]) == 0 by { assert [pages[k]][1..] == []; }
  }

  /**
   A server that answers only 304 keeps the loop asking for the same page
   until it stops answering: nothing is fetched, and the loop never ends on
   its own.
   */
  lemma {:induction false} EndlessNotModified(tableRemoteId: Option<RemoteId>, limit: nat, offset: nat,
                                              fetched: seq<Fetched>, pages: seq<PageReply>)
    requires forall k :: 0 <= k < |pages| ==> pages[k].code == NotModified
    ensures var r := FetchRows(tableRemoteId, limit, offset, fetched, pages);
      && r.outcome == Failed(NoReply)
      && r.fetched == fetched
      && |r.calls| == |pages| + 1
      && forall k :: 0 <= k < |r.calls| ==> r.calls[k] == GetRowsCall(tableRemoteId, limit, offset)
    decreases |pages|
  {
    if pages != [] {
      FetchGoesOn(tableRemoteId, limit, offset, fetched, pages);
      assert PageRows(pages[0]) == [];
      assert AddAll(fetched, []) == fetched;
      EndlessNotModified(tableRemoteId, limit, offset, fetched, pages[1..]);
    }
  }

  /**
   The replies of a server that holds `rows` and answers every request
   honestly with 200: the page at `from` holds up to `limit` rows, and a
   page shorter than `limit` (possibly empty) is the last.
   */
  function ServePages(rows: seq<RemoteRow>, limit: nat, from: nat, eTag: Option<string>): (pages: seq<PageReply>)
    requires 0 < limit && from <= |rows|
    ensures pages != []
    decreases |rows| - from
  {
    if |rows| - from < limit then [PageReply(Ok, Some(rows[from..]), eTag)]
    else [PageReply(Ok, Some(rows[from..from + limit]), eTag)] + ServePages(rows, limit, from + limit, eTag)
  }

  /** A full page from an honest server: the loop goes on at the next page with the page's rows added. */
  lemma HonestStep(tableRemoteId: Option<RemoteId>, rows: seq<RemoteRow>, limit: nat, from: nat,
                   fetched: seq<Fetched>, eTag: Option<string>)
    requires 0 < limit && from + limit <= |rows|
    ensures var r := FetchRows(tableRemoteId, limit, from, fetched, ServePages(rows, limit, from, eTag));
      var q := FetchRows(tableRemoteId, limit, from + limit, AddAll(fetched, Tag(rows[from..from + limit], eTag)),
                         ServePages(rows, limit, from + limit, eTag));
      r == q.(calls := [GetRowsCall(tableRemoteId, limit, from)] + q.calls, consumed := q.consumed + 1)
  {
    var pages := ServePages(rows, limit, from, eTag);
    assert pages[0] == PageReply(Ok, Some(rows[from..from + limit]), eTag);
    assert pages[1..] == ServePages(rows, limit, from + limit, eTag);
    FetchGoesOn(tableRemoteId, limit, from, fetched, pages);
  }

  /** The last page from an honest server, shorter than `limit`: the loop adds its rows and ends. */
  lemma HonestLast(tableRemoteId: Option<RemoteId>, rows: seq<RemoteRow>, limit: nat, from: nat,
                   fetched: seq<Fetched>, eTag: Option<string>)
    requires 0 < limit && from <= |rows| < from + limit
    ensures FetchRows(tableRemoteId, limit, from, fetched, ServePages(rows, limit, from, eTag))
         == FetchResult(AddAll(fetched, Tag(rows[from..], eTag)), [GetRowsCall(tableRemoteId, limit, from)], 1, Done)
  {
    var pages := ServePages(rows, limit, from, eTag);
    assert pages == [PageReply(Ok, Some(rows[from..]), eTag)];
  }

  /**
   Against an honest server the loop makes ⌊n/limit⌋ + 1 requests (n the
   number of rows from `from` on) and finishes normally. When `limit`
   divides n, the last request returns an empty page.
   */
  lemma {:induction false} HonestRequests(tableRemoteId: Option<RemoteId>, rows: seq<RemoteRow>,
                                          limit: nat, from: nat, fetched: seq<Fetched>, eTag: Option<string>)
    requires 0 < limit && from <= |rows|
    ensures var r := FetchRows(tableRemoteId, limit, from, fetched, ServePages(rows, limit, from, eTag));
      && r.outcome == Done
      && (|r.calls| - 1) * limit <= |rows| - from < |r.calls| * limit
    decreases |rows| - from
  {
    if |rows| - from >= limit {
      HonestStep(tableRemoteId, rows, limit, from, fetched, eTag);
      var more := AddAll(fetched, Tag(rows[from..from + limit], eTag));
      HonestRequests(tableRemoteId, rows, limit, from + limit, more, eTag);
      var q := FetchRows(tableRemoteId, limit, from + limit, more, ServePages(rows, limit, from + limit, eTag));
      CountStep(|q.calls|, limit, |rows| - from);
    } else {
      HonestLast(tableRemoteId, rows, limit, from, fetched, eTag);
    }
  }

  /** Against an honest server the k-th request asks for the page at `from + k·limit`. */
  lemma {:induction false} HonestOffsets(tableRemoteId: Option<RemoteId>, rows: seq<RemoteRow>,
                                         limit: nat, from: nat, fetched: seq<Fetched>, eTag: Option<string>)
    requires 0 < limit && from <= |rows|
    ensures var r := FetchRows(tableRemoteId, limit, from, fetched, ServePages(rows, limit, from, eTag));
      forall k :: 0 <= k < |r.calls| ==> r.calls[k] == GetRowsCall(tableRemoteId, limit, from + k * limit)
    decreases |rows| - from
  {
    if |rows| - from >= limit {
      HonestStep(tableRemoteId, rows, limit, from, fetched, eTag);
      var more := AddAll(fetched, Tag(rows[from..from + limit], eTag));
      HonestOffsets(tableRemoteId, rows, limit, from + limit, more, eTag);
      var q := FetchRows(tableRemoteId, limit, from + limit, more, ServePages(rows, limit, from + limit, eTag));
      ShiftedOffsets(tableRemoteId, limit, from, q.calls);
    } else {
      HonestLast(tableRemoteId, rows, limit, from, fetched, eTag);
    }
  }

  lemma CountStep(c: int, limit: int, n: int)
    requires (c - 1) * limit <= n - limit < c * limit
    ensures c * limit <= n < (c + 1) * limit
  {
    assert (c + 1) * limit == c * limit + limit;
    assert c * limit == (c - 1) * limit + limit;
  }

  /** Against an honest server the loop fetches every row in server order, first occurrence of each id kept. */
  lemma {:induction false} HonestRows(tableRemoteId: Option<RemoteId>, rows: seq<RemoteRow>,
                                      limit: nat, from: nat, fetched: seq<Fetched>, eTag: Option<string>)
    requires 0 < limit && from <= |rows|
    ensures var r := FetchRows(tableRemoteId, limit, from, fetched, ServePages(rows, limit, from, eTag));
      r.fetched == AddAll(fetched, Tag(rows[from..], eTag))
    decreases |rows| - from
  {
    if |rows| - from >= limit {
      HonestStep(tableRemoteId, rows, limit, from, fetched, eTag);
      var page := rows[from..from + limit];
      var more := AddAll(fetched, Tag(page, eTag));
      HonestRows(tableRemoteId, rows, limit, from + limit, more, eTag);
      TagSplit(rows, from, from + limit, eTag);
      AddAllAppend(fetched, Tag(page, eTag), Tag(rows[from + limit..], eTag));
    } else {
      HonestLast(tableRemoteId, rows, limit, from, fetched, eTag);
    }
  }

  lemma TagSplit(rows: seq<RemoteRow>, from: nat, mid: nat, eTag: Option<string>)
    requires from <= mid <= |rows|
    ensures Tag(rows[from..], eTag) == Tag(rows[from..mid], eTag) + Tag(rows[mid..], eTag)
  {
    assert rows[from..] == rows[from..mid] + rows[mid..];
  }

  lemma ShiftedOffsets(tableRemoteId: Option<RemoteId>, limit: nat, from: nat, later: seq<Call>)
    requires forall k :: 0 <= k < |later| ==> later[k] == GetRowsCall(tableRemoteId, limit, from + limit + k * limit)
    ensures var calls := [GetRowsCall(tableRemoteId, limit, from)] + later;
      forall k :: 0 <= k < |calls| ==> calls[k] == GetRowsCall(tableRemoteId, limit, from + k * limit)
  {
    var calls := [GetRowsCall(tableRemoteId, limit, from)] + later;
    forall k | 0 < k < |calls|
      ensures calls[k] == GetRowsCall(tableRemoteId, limit, from + k * limit)
    {
      assert calls[k] == later[k - 1];
      assert (k - 1) * limit == k * limit - limit;
    }
  }
}
