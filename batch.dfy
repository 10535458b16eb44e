/** process_queries.cpp: a batch of queries run against one server, each with the default
    search (sequential, status `ACTUAL`), either kept per query or joined into one list. */
module Batch {
  import opened Wrappers
  import opened Index
  import opened Ranking
  import Server

  /** The default search of each query, in query order. */
  ghost function DefaultSearches(server: Server.SearchServer, queries: seq<string>): seq<Result<seq<Document>>>
    reads server
  {
    seq(|queries|, i reads server requires 0 <= i < |queries| =>
      server.TopDocuments(Server.Sequenced, queries[i], Server.StatusIs(Actual)))
  }

  /** The results in order, or the error of the first one that failed. */
  function Collect(rs: seq<Result<seq<Document>>>): Result<seq<seq<Document>>>
    decreases |rs|
  {
    if |rs| == 0 then Ok([])
    else
      match Collect(rs[..|rs| - 1])
      case Err(e) => Err(e)
      case Ok(lists) =>
        match rs[|rs| - 1]
        case Err(e) => Err(e)
        case Ok(docs) => Ok(lists + [docs])
  }

  /** The batch succeeds exactly when every result does; it then holds one list per result,
      in order. */
  lemma {:induction false} CollectSpec(rs: seq<Result<seq<Document>>>)
    ensures Collect(rs).Ok? <==> forall i :: 0 <= i < |rs| ==> rs[i].Ok?
    ensures Collect(rs).Ok? ==>
      && |Collect(rs).value| == |rs|
      && forall i :: 0 <= i < |rs| ==> Collect(rs).value[i] == rs[i].value
    decreases |rs|
  {
    if |rs| > 0 {
      var pre := rs[..|rs| - 1];
      CollectSpec(pre);
      assert forall i :: 0 <= i < |pre| ==> pre[i] == rs[i];
    }
  }

  /** A failing prefix fails the whole batch with the same error. */
  lemma {:induction false} CollectErrSticky(rs: seq<Result<seq<Document>>>, i: nat)
    requires i <= |rs| && Collect(rs[..i]).Err?
    ensures Collect(rs) == Collect(rs[..i])
    decreases |rs|
  {
    if i < |rs| {
      var pre := rs[..|rs| - 1];
      assert pre[..i] == rs[..i];
      CollectErrSticky(pre, i);
    } else {
      assert rs[..i] == rs;
    }
  }

  /** What `ProcessQueries` returns on `server`. */
  ghost function Searches(server: Server.SearchServer, queries: seq<string>): Result<seq<seq<Document>>>
    reads server
  {
    Collect(DefaultSearches(server, queries))
  }

  /** A batch succeeds exactly when each of its queries parses; its `i`-th list is then the
      default search of the `i`-th query. */
  lemma SearchesSpec(server: Server.SearchServer, queries: seq<string>)
    ensures Searches(server, queries).Ok? <==>
      forall i :: 0 <= i < |queries| ==> server.TopDocuments(Server.Sequenced, queries[i], Server.StatusIs(Actual)).Ok?
    ensures Searches(server, queries).Ok? ==>
      var lists := Searches(server, queries).value;
      && |lists| == |queries|
      && forall i :: 0 <= i < |queries| ==>
           lists[i] == server.TopDocuments(Server.Sequenced, queries[i], Server.StatusIs(Actual)).value
  {
    var rs := DefaultSearches(server, queries);
    assert |rs| == |queries|;
    assert forall i :: 0 <= i < |queries| ==> rs[i] == server.TopDocuments(Server.Sequenced, queries[i], Server.StatusIs(Actual));
    CollectSpec(rs);
  }

  /** `ProcessQueries`: one default search per query, results in query order. */
  method ProcessQueries(server: Server.SearchServer, queries: seq<string>) returns (r: Result<seq<seq<Document>>>)
    requires server.Valid()
    ensures r == Searches(server, queries)
  {
    ghost var rs := DefaultSearches(server, queries);
    var lists: seq<seq<Document>> := [];
    var i := 0;
    while i < |queries|
      invariant 0 <= i <= |queries|
      invariant Collect(rs[..i]) == Ok(lists)
    {
      assert rs[..i + 1][..i] == rs[..i];
      var docs := server.FindTopDocumentsActual(Server.Sequenced, queries[i]);
      assert docs == rs[i];
      if docs.Err? {
        CollectErrSticky(rs, i + 1);
        return Err(docs.error);
      }
      lists := lists + [docs.value];
      i := i + 1;
    }
    assert rs[..i] == rs;
    r := Ok(lists);
  }

  /** The lists one after another, each in its own order. */
  function Flatten(lists: seq<seq<Document>>): seq<Document>
    decreases |lists|
  {
    if |lists| == 0 then [] else Flatten(lists[..|lists| - 1]) + lists[|lists| - 1]
  }

  /** The sum of the lengths of the lists. */
  function TotalLength(lists: seq<seq<Document>>): nat
    decreases |lists|
  {
    if |lists| == 0 then 0 else TotalLength(lists[..|lists| - 1]) + |lists[|lists| - 1]|
  }

  /** Flattening turns concatenation of batches into concatenation of results. */
  lemma {:induction false} FlattenAppend(a: seq<seq<Document>>, b: seq<seq<Document>>)
    ensures Flatten(a + b) == Flatten(a) + Flatten(b)
    decreases |b|
  {
    if |b| == 0 {
      assert a + b == a;
    } else {
      assert (a + b)[..|a + b| - 1] == a + b[..|b| - 1];
      assert (a + b)[|a + b| - 1] == b[|b| - 1];
      FlattenAppend(a, b[..|b| - 1]);
    }
  }

  /** The joined length is the sum of the per-query lengths. */
  lemma {:induction false} FlattenLength(lists: seq<seq<Document>>)
    ensures |Flatten(lists)| == TotalLength(lists)
    decreases |lists|
  {
    if |lists| > 0 {
      FlattenLength(lists[..|lists| - 1]);
    }
  }

  /** A document is in the joined list exactly when it is in one of the lists. */
  lemma {:induction false} FlattenHas(lists: seq<seq<Document>>, d: Document)
    ensures d in Flatten(lists) <==> exists i :: 0 <= i < |lists| && d in lists[i]
    decreases |lists|
  {
    if |lists| > 0 {
      var pre := lists[..|lists| - 1];
      FlattenHas(pre, d);
      assert forall i :: 0 <= i < |pre| ==> pre[i] == lists[i];
      if d in lists[|lists| - 1] {
        assert d in Flatten(lists);
      }
    }
  }

  /** The nested `push_back` loops of `ProcessQueriesJoined`. */
  method Join(lists: seq<seq<Document>>) returns (joined: seq<Document>)
    ensures joined == Flatten(lists)
  {
    joined := [];
    var i := 0;
    while i < |lists|
      invariant 0 <= i <= |lists|
      invariant joined == Flatten(lists[..i])
    {
      var list := lists[i];
      var j := 0;
      while j < |list|
        invariant 0 <= j <= |list|
        invariant joined == Flatten(lists[..i]) + list[..j]
      {
        assert list[..j + 1] == list[..j] + [list[j]];
        joined := joined + [list[j]];
        j := j + 1;
      }
      assert list[..j] == list;
      assert lists[..i + 1][..i] == lists[..i];
      i := i + 1;
    }
    assert lists[..i] == lists;
  }

  /** `ProcessQueriesJoined`: the per-query results concatenated in query order. */
  method ProcessQueriesJoined(server: Server.SearchServer, queries: seq<string>) returns (r: Result<seq<Document>>)
    requires server.Valid()
    ensures Searches(server, queries).Err? ==> r == Err(Searches(server, queries).error)
    ensures Searches(server, queries).Ok? ==> r == Ok(Flatten(Searches(server, queries).value))
  {
    var lists := ProcessQueries(server, queries);
    if lists.Err? {
      return Err(lists.error);
    }
    var joined := Join(lists.value);
    r := Ok(joined);
  }
}
