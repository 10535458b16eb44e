/** `RequestQueue` of request_queue.cpp: a bounded history of search requests over a search
    server, recording for each request whether it found anything, and keeping only the most
    recent `min_in_day_` records. */
module Requests {
  import opened Wrappers
  import opened Index
  import opened Ranking
  import Server

  /** One history record: the raw query and `sucsess`, 1 when the search found a document and
      0 when it found none. */
  datatype QueryResult = QueryResult(rawQuery: string, success: int)

  /** The record of a request whose search returned `found`. */
  function RecordOf(rawQuery: string, found: seq<Document>): QueryResult
  {
    QueryResult(rawQuery, if |found| > 0 then 1 else 0)
  }

  /** The history after appending `rec` and trimming the front while more than `limit`
      records remain: it holds `limit` records or all of them, whichever is fewer, and its
      records are the most recent ones, newest last. */
  function Record(history: seq<QueryResult>, rec: QueryResult, limit: nat): (r: seq<QueryResult>)
    ensures |r| == if |history| < limit then |history| + 1 else limit
    ensures forall i :: 0 <= i < |r| ==> r[i] == (history + [rec])[|history| + 1 - |r| + i]
    ensures limit > 0 ==> r[|r| - 1] == rec
  {
    var h := history + [rec];
    if |h| > limit then h[|h| - limit..] else h
  }

  /** A history that fits within the limit still fits after one more request. */
  lemma RecordBounded(history: seq<QueryResult>, rec: QueryResult, limit: nat)
    requires |history| <= limit
    ensures |Record(history, rec, limit)| <= limit
  {
  }

  /** A history that is already full drops exactly its oldest record. */
  lemma RecordWhenFull(history: seq<QueryResult>, rec: QueryResult, limit: nat)
    requires |history| == limit > 0
    ensures Record(history, rec, limit) == history[1..] + [rec]
  {
    var r := Record(history, rec, limit);
    forall i | 0 <= i < |r| ensures r[i] == (history[1..] + [rec])[i] {
      assert r[i] == (history + [rec])[1 + i];
    }
  }

  /** The newest record after a request holds its query and tells whether it found anything.
      The no-result count grows by one for an empty search while the history has room; once
      it is full, the count of the dropped oldest record is given up. */
  lemma RecordNoResults(history: seq<QueryResult>, rawQuery: string, found: seq<Document>, limit: nat)
    requires limit > 0
    ensures var r := Record(history, RecordOf(rawQuery, found), limit);
      && r[|r| - 1].rawQuery == rawQuery
      && (r[|r| - 1].success == 1 <==> |found| > 0)
      && (r[|r| - 1].success == 0 <==> |found| == 0)
      && (|history| < limit ==> NoResultCount(r) == NoResultCount(history) + (if |found| == 0 then 1 else 0))
      && (|history| == limit ==>
            NoResultCount(r) + (if history[0].success == 0 then 1 else 0) ==
            NoResultCount(history) + (if |found| == 0 then 1 else 0))
  {
    var rec := RecordOf(rawQuery, found);
    var r := Record(history, rec, limit);
    if |history| < limit {
      assert r == history + [rec];
      assert r[..|r| - 1] == history;
    } else if |history| == limit {
      RecordFullNoResults(history, rec, limit);
    }
  }

  /** With a full history, the record added and the oldest record dropped are the only
      changes to the no-result count. */
  lemma RecordFullNoResults(history: seq<QueryResult>, rec: QueryResult, limit: nat)
    requires |history| == limit > 0
    ensures NoResultCount(Record(history, rec, limit)) + (if history[0].success == 0 then 1 else 0) ==
      NoResultCount(history) + (if rec.success == 0 then 1 else 0)
  {
    RecordWhenFull(history, rec, limit);
    var dropped := if history[0].success == 0 then 1 else 0;
    var added := if rec.success == 0 then 1 else 0;
    assert NoResultCount([rec]) == added by {
      assert [rec][..0] == [];
    }
    assert NoResultCount([history[0]]) == dropped by {
      assert [history[0]][..0] == [];
    }
    assert NoResultCount(history) == dropped + NoResultCount(history[1..]) by {
      NoResultCountAppend([history[0]], history[1..]);
      assert [history[0]] + history[1..] == history;
    }
    assert NoResultCount(history[1..] + [rec]) == NoResultCount(history[1..]) + added by {
      NoResultCountAppend(history[1..], [rec]);
    }
  }

  /** The number of records with `sucsess == 0`. */
  function NoResultCount(history: seq<QueryResult>): nat
    decreases |history|
  {
    if |history| == 0 then 0
    else NoResultCount(history[..|history| - 1]) + (if history[|history| - 1].success == 0 then 1 else 0)
  }

  /** The count lies between 0 and the size; it is 0 exactly when every request found
      something and the size exactly when none did. */
  lemma {:induction false} NoResultCountSpec(history: seq<QueryResult>)
    ensures NoResultCount(history) <= |history|
    ensures NoResultCount(history) == 0 <==> forall i :: 0 <= i < |history| ==> history[i].success != 0
    ensures NoResultCount(history) == |history| <==> forall i :: 0 <= i < |history| ==> history[i].success == 0
    decreases |history|
  {
    if |history| > 0 {
      var pre := history[..|history| - 1];
      NoResultCountSpec(pre);
      assert forall i :: 0 <= i < |pre| ==> pre[i] == history[i];
    }
  }

  /** Counting distributes over concatenation. */
  lemma {:induction false} NoResultCountAppend(a: seq<QueryResult>, b: seq<QueryResult>)
    ensures NoResultCount(a + b) == NoResultCount(a) + NoResultCount(b)
    decreases |b|
  {
    if |b| > 0 {
      assert (a + b)[..|a + b| - 1] == a + b[..|b| - 1];
      assert (a + b)[|a + b| - 1] == b[|b| - 1];
      NoResultCountAppend(a, b[..|b| - 1]);
    } else {
      assert a + b == a;
    }
  }

  class RequestQueue {
    /** `temp_server_`, the server every request searches. */
    const server: Server.SearchServer

    /** `min_in_day_`, the number of records kept. */
    const minInDay: nat

    /** `requests_`, oldest first. */
    var requests: seq<QueryResult>

    /** An empty history over `server`. */
    constructor(server: Server.SearchServer, minInDay: nat)
      ensures this.server == server && this.minInDay == minInDay && requests == []
    {
      this.server := server;
      this.minInDay := minInDay;
      requests := [];
    }

    /** `AddFindRequest(raw_query, status)`: the sequential search with the status filter; a
        query that fails to parse throws before anything is recorded; otherwise one record is
        appended and the history trimmed to the most recent `min_in_day_`, and the search
        result is returned as it is. */
    method AddFindRequest(rawQuery: string, status: Status) returns (r: Result<seq<Document>>)
      requires server.Valid()
      modifies this
      ensures r == server.TopDocuments(Server.Sequenced, rawQuery, Server.StatusIs(status))
      ensures r.Err? ==> requests == old(requests)
      ensures r.Ok? ==> requests == Record(old(requests), RecordOf(rawQuery, r.value), minInDay)
    {
      r := server.FindTopDocumentsByStatus(Server.Sequenced, rawQuery, status);
      if r.Err? {
        return;
      }
      Push(RecordOf(rawQuery, r.value));
    }

    /** `AddFindRequest(raw_query)`: as the status overload with `ACTUAL`, since the server's
        status-less search filters on `ACTUAL`. */
    method AddFindRequestActual(rawQuery: string) returns (r: Result<seq<Document>>)
      requires server.Valid()
      modifies this
      ensures r == server.TopDocuments(Server.Sequenced, rawQuery, Server.StatusIs(Actual))
      ensures r.Err? ==> requests == old(requests)
      ensures r.Ok? ==> requests == Record(old(requests), RecordOf(rawQuery, r.value), minInDay)
    {
      r := server.FindTopDocumentsActual(Server.Sequenced, rawQuery);
      if r.Err? {
        return;
      }
      Push(RecordOf(rawQuery, r.value));
    }

    /** The common tail of both overloads: `push_back`, then `CutDeque` when the history
        outgrew the limit. */
    method Push(rec: QueryResult)
      modifies this
      ensures requests == Record(old(requests), rec, minInDay)
    {
      requests := requests + [rec];
      if |requests| > minInDay {
        CutDeque();
      }
    }

    /** `CutDeque`: `pop_front` until exactly `min_in_day_` records remain, which are the
        newest ones in their order. Its callers only call it on a history longer than that. */
    method CutDeque()
      requires |requests| >= minInDay
      modifies this
      ensures |requests| == minInDay
      ensures requests == old(requests)[|old(requests)| - minInDay..]
    {
      while |requests| != minInDay
        invariant minInDay <= |requests| <= |old(requests)|
        invariant requests == old(requests)[|old(requests)| - |requests|..]
        decreases |requests|
      {
        requests := requests[1..];
      }
    }

    /** `GetNoResultRequests`: the records whose search found nothing, counted front to back. */
    method GetNoResultRequests() returns (count: nat)
      ensures count == NoResultCount(requests)
    {
      count := 0;
      var i := 0;
      while i < |requests|
        invariant 0 <= i <= |requests|
        invariant count == NoResultCount(requests[..i])
      {
        assert requests[..i + 1][..i] == requests[..i];
        if requests[i].success == 0 {
          count := count + 1;
        }
        i := i + 1;
      }
      assert requests[..i] == requests;
    }
  }
}
