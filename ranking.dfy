/** The ranking and matching rules of `SearchServer` (search_server.h, search_server.cpp) as
    functions of the inverted index: which documents a query finds, with which relevance, in
    which order they come out of `FindAllDocuments`, how `FindTopDocuments` orders and truncates
    them, and what `MatchDocument` reports. */
module Ranking {
  import opened Wrappers
  import opened Index
  import QueryParsing
  import Sorting

  /** `MAX_RESULT_DOCUMENT_COUNT`. */
  const MaxResultDocumentCount: nat := 5

  /** `DIFF`: relevances closer than this count as equal. */
  const Diff: real := 0.000001

  /** `Document`: a search result. */
  datatype Document = Document(id: int, relevance: real, rating: int)

  /** The caller's filter over (id, status, rating). */
  type DocumentPredicate = (int, Status, int) -> bool

  /** `ComputeWordInverseDocumentFreq` as a function of the document count and the number of
      documents holding the word; the logarithm itself is not modelled. */
  type Idf = (nat, nat) -> real

  /** The document is live and the predicate accepts its id, status and rating. */
  predicate Passes(docs: map<int, DocumentData>, pred: DocumentPredicate, id: int)
  {
    id in docs && pred(id, docs[id].status, docs[id].rating)
  }

  /** Word `w` has a posting for document `id`. */
  predicate HasPosting(p: Postings, w: string, id: int)
  {
    w in p && id in p[w]
  }

  /** Some word of `ws` has a posting for document `id`. */
  predicate Hit(p: Postings, ws: seq<string>, id: int)
  {
    exists k :: 0 <= k < |ws| && HasPosting(p, ws[k], id)
  }

  /** Whether a word list hits a document depends only on which words it holds. */
  lemma HitByMembers(p: Postings, a: seq<string>, b: seq<string>, id: int)
    requires forall w :: w in a <==> w in b
    ensures Hit(p, a, id) <==> Hit(p, b, id)
  {
    if Hit(p, a, id) {
      var k :| 0 <= k < |a| && HasPosting(p, a[k], id);
      assert a[k] in b;
    }
    if Hit(p, b, id) {
      var k :| 0 <= k < |b| && HasPosting(p, b[k], id);
      assert b[k] in a;
    }
  }

  lemma HitSnoc(p: Postings, ws: seq<string>, id: int)
    requires |ws| > 0
    ensures Hit(p, ws, id) <==> Hit(p, ws[..|ws| - 1], id) || HasPosting(p, ws[|ws| - 1], id)
  {
    var pre := ws[..|ws| - 1];
    if Hit(p, ws, id) {
      var k :| 0 <= k < |ws| && HasPosting(p, ws[k], id);
      if k < |pre| {
        assert pre[k] == ws[k];
      }
    }
    if Hit(p, pre, id) {
      var k :| 0 <= k < |pre| && HasPosting(p, pre[k], id);
      assert ws[k] == pre[k];
    }
  }

  /** `term_freq * inverse_document_freq`. */
  function Score(termFreq: real, inverseDocumentFreq: real): real
  {
    termFreq * inverseDocumentFreq
  }

  /** `term_freq * inverse_document_freq` for word `w` and document `id`; a word without a
      posting for the document contributes nothing. */
  function Contribution(p: Postings, docs: map<int, DocumentData>, idf: Idf, w: string, id: int): real
  {
    if HasPosting(p, w, id) then Score(p[w][id], idf(|docs|, |p[w]|)) else 0.0
  }

  /** The relevance of document `id` for the plus words `ws`: the sum of the contributions of
      the words. */
  function Relevance(p: Postings, docs: map<int, DocumentData>, idf: Idf, ws: seq<string>, id: int): real
    decreases |ws|
  {
    if |ws| == 0 then 0.0
    else Relevance(p, docs, idf, ws[..|ws| - 1], id) + Contribution(p, docs, idf, ws[|ws| - 1], id)
  }

  /** A word with no posting for the document (in particular one absent from the index) adds
      nothing to its relevance, wherever it stands in the query. */
  lemma {:induction false} RelevanceWithoutHit(p: Postings, docs: map<int, DocumentData>, idf: Idf, ws: seq<string>, id: int)
    requires !Hit(p, ws, id)
    ensures Relevance(p, docs, idf, ws, id) == 0.0
    decreases |ws|
  {
    if |ws| > 0 {
      HitSnoc(p, ws, id);
      RelevanceWithoutHit(p, docs, idf, ws[..|ws| - 1], id);
    }
  }

  /** Relevance adds up over a split of the plus words. */
  lemma {:induction false} RelevanceAppend(p: Postings, docs: map<int, DocumentData>, idf: Idf, a: seq<string>, b: seq<string>, id: int)
    ensures Relevance(p, docs, idf, a + b, id) == Relevance(p, docs, idf, a, id) + Relevance(p, docs, idf, b, id)
    decreases |b|
  {
    if |b| > 0 {
      assert (a + b)[..|a + b| - 1] == a + b[..|b| - 1];
      assert (a + b)[|a + b| - 1] == b[|b| - 1];
      RelevanceAppend(p, docs, idf, a, b[..|b| - 1], id);
    } else {
      assert a + b == a;
    }
  }

  /** `document_to_relevance[id] += x`, where a missing entry starts at 0. */
  function Credit(m: map<int, real>, id: int, x: real): map<int, real>
  {
    m[id := (if id in m then m[id] else 0.0) + x]
  }

  /** The inner loop over the postings `ids` of word `w`: every accepted document is credited
      with its contribution. */
  function CreditAll(m: map<int, real>, p: Postings, docs: map<int, DocumentData>, idf: Idf,
                     pred: DocumentPredicate, w: string, ids: seq<int>): map<int, real>
    decreases |ids|
  {
    if |ids| == 0 then m
    else
      var m' := CreditAll(m, p, docs, idf, pred, w, ids[..|ids| - 1]);
      var id := ids[|ids| - 1];
      if HasPosting(p, w, id) && Passes(docs, pred, id) then Credit(m', id, Contribution(p, docs, idf, w, id)) else m'
  }

  /** One more posting visited by the inner loop: its document, when accepted, gains
      `term_freq * inverse_document_freq`. */
  lemma CreditAllStep(m: map<int, real>, p: Postings, docs: map<int, DocumentData>, idf: Idf,
                      pred: DocumentPredicate, w: string, ids: seq<int>, j: nat, termFreq: real, inverseDocumentFreq: real)
    requires w in p && j < |ids| && ids[j] in p[w] && ids[j] in docs
    requires termFreq == p[w][ids[j]] && inverseDocumentFreq == idf(|docs|, |p[w]|)
    ensures CreditAll(m, p, docs, idf, pred, w, ids[..j + 1]) ==
      if pred(ids[j], docs[ids[j]].status, docs[ids[j]].rating)
      then Credit(CreditAll(m, p, docs, idf, pred, w, ids[..j]), ids[j], Score(termFreq, inverseDocumentFreq))
      else CreditAll(m, p, docs, idf, pred, w, ids[..j])
  {
    assert ids[..j + 1][..j] == ids[..j];
  }

  /** One plus word of the sequential loop, independent of the order of its postings: each
      document with a posting under `w` that the predicate accepts gains its contribution. */
  function AddWord(m: map<int, real>, p: Postings, docs: map<int, DocumentData>, idf: Idf,
                   pred: DocumentPredicate, w: string): map<int, real>
  {
    if w !in p then m
    else
      map id | id in m.Keys + (set d | d in p[w] && Passes(docs, pred, d)) ::
        (if id in m then m[id] else 0.0) + (if id in p[w] && Passes(docs, pred, id) then Contribution(p, docs, idf, w, id) else 0.0)
  }

  /** Walking the postings of `w` in any order that visits each of them once gives `AddWord`. */
  lemma {:induction false} CreditAllIsAddWord(m: map<int, real>, p: Postings, docs: map<int, DocumentData>, idf: Idf,
                                              pred: DocumentPredicate, w: string, ids: seq<int>)
    requires w in p
    requires forall i, j :: 0 <= i < j < |ids| ==> ids[i] != ids[j]
    ensures forall d :: d in CreditAll(m, p, docs, idf, pred, w, ids) <==>
      d in m || (d in ids && d in p[w] && Passes(docs, pred, d))
    ensures forall d :: d in CreditAll(m, p, docs, idf, pred, w, ids) ==>
      CreditAll(m, p, docs, idf, pred, w, ids)[d] ==
        (if d in m then m[d] else 0.0) + (if d in ids && d in p[w] && Passes(docs, pred, d) then Contribution(p, docs, idf, w, d) else 0.0)
    decreases |ids|
  {
    if |ids| > 0 {
      var pre := ids[..|ids| - 1];
      CreditAllIsAddWord(m, p, docs, idf, pred, w, pre);
      assert ids == pre + [ids[|ids| - 1]];
      assert ids[|ids| - 1] !in pre by {
        forall i | 0 <= i < |pre| ensures pre[i] != ids[|ids| - 1] {
          assert pre[i] == ids[i];
        }
      }
    }
  }

  /** Walking all postings of `w`, each once, gives `AddWord`. */
  lemma CreditAllEqualsAddWord(m: map<int, real>, p: Postings, docs: map<int, DocumentData>, idf: Idf,
                               pred: DocumentPredicate, w: string, ids: seq<int>)
    requires w in p
    requires forall i, j :: 0 <= i < j < |ids| ==> ids[i] != ids[j]
    requires forall d :: d in ids <==> d in p[w]
    ensures CreditAll(m, p, docs, idf, pred, w, ids) == AddWord(m, p, docs, idf, pred, w)
  {
    CreditAllIsAddWord(m, p, docs, idf, pred, w, ids);
    var a, b := CreditAll(m, p, docs, idf, pred, w, ids), AddWord(m, p, docs, idf, pred, w);
    var gained := set d | d in p[w] && Passes(docs, pred, d);
    assert b.Keys == m.Keys + gained;
    forall d ensures d in a <==> d in b {
      assert d in gained <==> d in p[w] && Passes(docs, pred, d);
    }
    assert a.Keys == b.Keys;
    forall d | d in a ensures a[d] == b[d] {
    }
  }

  /** The relevance map of the sequential loop over the plus words `ws`, before the minus words. */
  function Accumulate(p: Postings, docs: map<int, DocumentData>, idf: Idf, pred: DocumentPredicate, ws: seq<string>): map<int, real>
    decreases |ws|
  {
    if |ws| == 0 then map[]
    else AddWord(Accumulate(p, docs, idf, pred, ws[..|ws| - 1]), p, docs, idf, pred, ws[|ws| - 1])
  }

  /** A document gets an entry exactly when the predicate accepts it and some plus word has a
      posting for it; its entry is then its relevance. */
  lemma {:induction false} AccumulateSpec(p: Postings, docs: map<int, DocumentData>, idf: Idf, pred: DocumentPredicate, ws: seq<string>)
    ensures forall id :: id in Accumulate(p, docs, idf, pred, ws) <==> Passes(docs, pred, id) && Hit(p, ws, id)
    ensures forall id :: id in Accumulate(p, docs, idf, pred, ws) ==>
      Accumulate(p, docs, idf, pred, ws)[id] == Relevance(p, docs, idf, ws, id)
    decreases |ws|
  {
    if |ws| > 0 {
      var pre := ws[..|ws| - 1];
      var w := ws[|ws| - 1];
      AccumulateSpec(p, docs, idf, pred, pre);
      forall id ensures Hit(p, ws, id) <==> Hit(p, pre, id) || HasPosting(p, w, id) {
        HitSnoc(p, ws, id);
      }
      forall id | id in Accumulate(p, docs, idf, pred, ws) && id !in Accumulate(p, docs, idf, pred, pre)
        ensures Relevance(p, docs, idf, pre, id) == 0.0
      {
        RelevanceWithoutHit(p, docs, idf, pre, id);
      }
    }
  }

  /** Only live documents get an entry. */
  lemma AccumulateKeys(p: Postings, docs: map<int, DocumentData>, idf: Idf, pred: DocumentPredicate, ws: seq<string>)
    ensures Accumulate(p, docs, idf, pred, ws).Keys <= docs.Keys
  {
    AccumulateSpec(p, docs, idf, pred, ws);
    forall id | id in Accumulate(p, docs, idf, pred, ws) ensures id in docs {
      assert Passes(docs, pred, id);
    }
  }

  /** The inner loop over the postings `ids` of a minus word: each is erased. */
  function EraseAll(m: map<int, real>, ids: seq<int>): map<int, real>
    decreases |ids|
  {
    if |ids| == 0 then m else EraseAll(m, ids[..|ids| - 1]) - {ids[|ids| - 1]}
  }

  lemma {:induction false} EraseAllSpec(m: map<int, real>, ids: seq<int>)
    ensures forall d :: d in EraseAll(m, ids) <==> d in m && d !in ids
    ensures forall d :: d in EraseAll(m, ids) ==> EraseAll(m, ids)[d] == m[d]
    decreases |ids|
  {
    if |ids| > 0 {
      EraseAllSpec(m, ids[..|ids| - 1]);
      assert ids == ids[..|ids| - 1] + [ids[|ids| - 1]];
    }
  }

  /** Erasing all postings of a word, each once, removes exactly its documents. */
  lemma EraseAllIsDifference(m: map<int, real>, ids: seq<int>, keys: set<int>)
    requires forall d :: d in ids <==> d in keys
    ensures EraseAll(m, ids) == m - keys
  {
    EraseAllSpec(m, ids);
    forall d ensures d in EraseAll(m, ids) <==> d in m - keys {
    }
    assert EraseAll(m, ids).Keys == (m - keys).Keys;
    forall d | d in EraseAll(m, ids) ensures EraseAll(m, ids)[d] == (m - keys)[d] {
    }
  }

  /** The minus-word loop: every document with a posting under one of the words `ws` is
      erased, whatever the predicate says of it. */
  function Exclude(m: map<int, real>, p: Postings, ws: seq<string>): map<int, real>
    decreases |ws|
  {
    if |ws| == 0 then m
    else
      var m' := Exclude(m, p, ws[..|ws| - 1]);
      var w := ws[|ws| - 1];
      if w in p then m' - p[w].Keys else m'
  }

  lemma {:induction false} ExcludeSpec(m: map<int, real>, p: Postings, ws: seq<string>)
    ensures forall id :: id in Exclude(m, p, ws) <==> id in m && !Hit(p, ws, id)
    ensures forall id :: id in Exclude(m, p, ws) ==> Exclude(m, p, ws)[id] == m[id]
    decreases |ws|
  {
    if |ws| > 0 {
      ExcludeSpec(m, p, ws[..|ws| - 1]);
      forall id ensures Hit(p, ws, id) <==> Hit(p, ws[..|ws| - 1], id) || HasPosting(p, ws[|ws| - 1], id) {
        HitSnoc(p, ws, id);
      }
    }
  }

  /** `matched_documents`: one result per key of `ks`, in that order, with the relevance
      from `m` and the rating from `documents_`. */
  function ToDocuments(ks: seq<int>, m: map<int, real>, docs: map<int, DocumentData>): (r: seq<Document>)
    requires forall i :: 0 <= i < |ks| ==> ks[i] in m && ks[i] in docs
    ensures |r| == |ks|
    ensures forall i :: 0 <= i < |r| ==> r[i] == Document(ks[i], m[ks[i]], docs[ks[i]].rating)
    decreases |ks|
  {
    if |ks| == 0 then []
    else
      var k := ks[|ks| - 1];
      ToDocuments(ks[..|ks| - 1], m, docs) + [Document(k, m[k], docs[k].rating)]
  }

  /** The keys of the final map in ascending order, each made a `Document`. */
  ghost function Materialize(m: map<int, real>, docs: map<int, DocumentData>): seq<Document>
    requires m.Keys <= docs.Keys
  {
    Sorting.IntLessIsStrictTotalOrder();
    Sorting.AscendingSpec(m.Keys, Sorting.IntLess);
    ToDocuments(Sorting.Ascending(m.Keys, Sorting.IntLess), m, docs)
  }

  /** The materialised results are in strictly ascending id order, one per key of `m`, each
      with its value in `m` and its document's rating. */
  lemma MaterializeSpec(m: map<int, real>, docs: map<int, DocumentData>)
    requires m.Keys <= docs.Keys
    ensures var r := Materialize(m, docs);
      && |r| == |m|
      && (forall i, j :: 0 <= i < j < |r| ==> r[i].id < r[j].id)
      && (forall id :: id in m <==> exists i :: 0 <= i < |r| && r[i].id == id)
      && (forall i :: 0 <= i < |r| ==> r[i].id in m && r[i].relevance == m[r[i].id] && r[i].rating == docs[r[i].id].rating)
  {
    Sorting.IntLessIsStrictTotalOrder();
    Sorting.AscendingSpec(m.Keys, Sorting.IntLess);
    var ks := Sorting.Ascending(m.Keys, Sorting.IntLess);
    var r := Materialize(m, docs);
    forall id | id in m ensures exists i :: 0 <= i < |r| && r[i].id == id {
      var i :| 0 <= i < |ks| && ks[i] == id;
      assert r[i].id == id;
    }
  }

  /** The relevance map of the sequential `FindAllDocuments`. */
  function SequentialRelevance(p: Postings, docs: map<int, DocumentData>, idf: Idf, pred: DocumentPredicate,
                               q: QueryParsing.Query): map<int, real>
  {
    Exclude(Accumulate(p, docs, idf, pred, q.plus), p, q.minus)
  }

  lemma SequentialKeys(p: Postings, docs: map<int, DocumentData>, idf: Idf, pred: DocumentPredicate, q: QueryParsing.Query)
    ensures SequentialRelevance(p, docs, idf, pred, q).Keys <= docs.Keys
  {
    var m := Accumulate(p, docs, idf, pred, q.plus);
    AccumulateKeys(p, docs, idf, pred, q.plus);
    ExcludeSpec(m, p, q.minus);
    forall id | id in Exclude(m, p, q.minus) ensures id in docs {
      assert id in m;
    }
  }

  /** The sequential `FindAllDocuments`. */
  ghost function FindAllSequential(p: Postings, docs: map<int, DocumentData>, idf: Idf, pred: DocumentPredicate,
                                   q: QueryParsing.Query): seq<Document>
  {
    AccumulateKeys(p, docs, idf, pred, q.plus);
    SequentialKeys(p, docs, idf, pred, q);
    Materialize(SequentialRelevance(p, docs, idf, pred, q), docs)
  }

  /** The parallel `FindAllDocuments`, which accumulates the plus words and never applies the
      minus words. */
  ghost function FindAllParallel(p: Postings, docs: map<int, DocumentData>, idf: Idf, pred: DocumentPredicate,
                                 q: QueryParsing.Query): seq<Document>
  {
    AccumulateKeys(p, docs, idf, pred, q.plus);
    Materialize(Accumulate(p, docs, idf, pred, q.plus), docs)
  }

  /** A document is found by the sequential search exactly when the predicate accepts it,
      some plus word has a posting for it and no minus word has one; results come in strictly
      ascending id order, each with its relevance and its rating. */
  lemma FindAllSequentialSpec(p: Postings, docs: map<int, DocumentData>, idf: Idf, pred: DocumentPredicate, q: QueryParsing.Query)
    ensures var r := FindAllSequential(p, docs, idf, pred, q);
      && (forall id :: (exists i :: 0 <= i < |r| && r[i].id == id) <==>
            Passes(docs, pred, id) && Hit(p, q.plus, id) && !Hit(p, q.minus, id))
      && (forall i, j :: 0 <= i < j < |r| ==> r[i].id < r[j].id)
      && (forall i :: 0 <= i < |r| ==>
            r[i].id in docs && r[i].relevance == Relevance(p, docs, idf, q.plus, r[i].id) && r[i].rating == docs[r[i].id].rating)
  {
    AccumulateSpec(p, docs, idf, pred, q.plus);
    AccumulateKeys(p, docs, idf, pred, q.plus);
    ExcludeSpec(Accumulate(p, docs, idf, pred, q.plus), p, q.minus);
    SequentialKeys(p, docs, idf, pred, q);
    MaterializeSpec(SequentialRelevance(p, docs, idf, pred, q), docs);
    assert FindAllSequential(p, docs, idf, pred, q) == Materialize(SequentialRelevance(p, docs, idf, pred, q), docs);
  }

  /** A document is found by the parallel search exactly when the predicate accepts it and
      some plus word has a posting for it; minus words play no part. */
  lemma FindAllParallelSpec(p: Postings, docs: map<int, DocumentData>, idf: Idf, pred: DocumentPredicate, q: QueryParsing.Query)
    ensures var r := FindAllParallel(p, docs, idf, pred, q);
      && (forall id :: (exists i :: 0 <= i < |r| && r[i].id == id) <==> Passes(docs, pred, id) && Hit(p, q.plus, id))
      && (forall i, j :: 0 <= i < j < |r| ==> r[i].id < r[j].id)
      && (forall i :: 0 <= i < |r| ==>
            r[i].id in docs && r[i].relevance == Relevance(p, docs, idf, q.plus, r[i].id) && r[i].rating == docs[r[i].id].rating)
  {
    var m := Accumulate(p, docs, idf, pred, q.plus);
    AccumulateSpec(p, docs, idf, pred, q.plus);
    AccumulateKeys(p, docs, idf, pred, q.plus);
    MaterializeSpec(m, docs);
  }

  /** Every sequential result is also a parallel one, and a parallel result missing from the
      sequential list has a posting under some minus word. */
  lemma FindAllParallelCoversSequential(p: Postings, docs: map<int, DocumentData>, idf: Idf, pred: DocumentPredicate, q: QueryParsing.Query)
    ensures var s, r := FindAllSequential(p, docs, idf, pred, q), FindAllParallel(p, docs, idf, pred, q);
      && (forall i :: 0 <= i < |s| ==> s[i] in r)
      && (forall i :: 0 <= i < |r| && r[i] !in s ==> Hit(p, q.minus, r[i].id))
  {
    var m := Accumulate(p, docs, idf, pred, q.plus);
    AccumulateSpec(p, docs, idf, pred, q.plus);
    AccumulateKeys(p, docs, idf, pred, q.plus);
    ExcludeSpec(m, p, q.minus);
    SequentialKeys(p, docs, idf, pred, q);
    MaterializeSpec(m, docs);
    MaterializeSpec(SequentialRelevance(p, docs, idf, pred, q), docs);
    var s, r := FindAllSequential(p, docs, idf, pred, q), FindAllParallel(p, docs, idf, pred, q);
    forall i | 0 <= i < |s| ensures s[i] in r {
      var j :| 0 <= j < |r| && r[j].id == s[i].id;
      assert r[j] == s[i];
    }
    forall i | 0 <= i < |r| && !Hit(p, q.minus, r[i].id) ensures r[i] in s {
      var j :| 0 <= j < |s| && s[j].id == r[i].id;
      assert s[j] == r[i];
    }
  }

  function Abs(x: real): real
  {
    if x < 0.0 then -x else x
  }

  /** The comparator of `FindTopDocuments`: with relevances closer than `Diff` the higher
      rating comes first, otherwise the higher relevance. */
  predicate Precedes(a: Document, b: Document)
  {
    if Abs(a.relevance - b.relevance) < Diff then a.rating > b.rating else a.relevance > b.relevance
  }

  /** The comparator never puts two documents before each other. It is not transitive, so
      no total order is claimed. */
  lemma PrecedesAsymmetric()
    ensures Sorting.Asymmetric(Precedes)
  {
    forall a: Document, b: Document | Precedes(a, b) ensures !Precedes(b, a) {
      assert Abs(b.relevance - a.relevance) == Abs(a.relevance - b.relevance);
    }
  }

  /** Examples of the tie rule: relevances closer than `Diff` with equal ratings leave two
      documents unordered either way; a close pair is ordered by rating, a distant pair by
      relevance. */
  lemma PrecedesTies()
    ensures !Precedes(Document(1, 0.5, 3), Document(2, 0.5000001, 3))
    ensures !Precedes(Document(2, 0.5000001, 3), Document(1, 0.5, 3))
    ensures Precedes(Document(1, 0.5, 7), Document(2, 0.5000001, 3))
    ensures Precedes(Document(2, 0.6, 1), Document(1, 0.5, 7))
  {
  }

  /** The comparator is not a strict weak ordering: being tied is not transitive. Documents
      1 and 2 tie, 2 and 3 tie, yet 3 comes before 1, so `std::sort` has no specified result
      for inputs like these. */
  lemma PrecedesTiesNotTransitive()
    ensures var d1, d2, d3 := Document(1, 0.0, 1), Document(2, 0.0000006, 1), Document(3, 0.0000012, 1);
      && !Precedes(d1, d2) && !Precedes(d2, d1)
      && !Precedes(d2, d3) && !Precedes(d3, d2)
      && Precedes(d3, d1)
  {
  }

  /** `resize(MAX_RESULT_DOCUMENT_COUNT)` when longer. */
  function Truncate<T>(s: seq<T>, n: nat): seq<T>
  {
    if |s| > n then s[..n] else s
  }

  /** `FindTopDocuments` after the search: the results sorted by the comparator and cut to
      `MaxResultDocumentCount`. */
  function Top(all: seq<Document>): seq<Document>
  {
    Truncate(Sorting.InsertionSort(all, Precedes), MaxResultDocumentCount)
  }

  /** At most five results, exactly five when there are more; each is one of the found
      documents, none is repeated beyond its multiplicity, and no neighbouring pair is out of
      the comparator's order. */
  lemma TopSpec(all: seq<Document>)
    ensures var r := Top(all);
      && |r| == (if |all| > MaxResultDocumentCount then MaxResultDocumentCount else |all|)
      && multiset(r) <= multiset(all)
      && Sorting.NoAdjacentInversion(r, Precedes)
  {
    var sorted := Sorting.InsertionSort(all, Precedes);
    Sorting.SortPermutes(all, Precedes);
    PrecedesAsymmetric();
    Sorting.SortNoAdjacentInversion(all, Precedes);
    var r := Top(all);
    assert sorted == r + sorted[|r|..];
    assert multiset(sorted) == multiset(r) + multiset(sorted[|r|..]);
  }

  /** The plus words that have a posting for document `id`, in query order. */
  function Filter(ws: seq<string>, p: Postings, id: int): seq<string>
    decreases |ws|
  {
    if |ws| == 0 then []
    else Filter(ws[..|ws| - 1], p, id) + (if HasPosting(p, ws[|ws| - 1], id) then [ws[|ws| - 1]] else [])
  }

  /** `Filter` keeps exactly the words with a posting, in the order of `ws`, so a strictly
      ascending input gives a strictly ascending output. */
  lemma {:induction false} FilterSpec(ws: seq<string>, p: Postings, id: int)
    ensures forall w :: w in Filter(ws, p, id) <==> w in ws && HasPosting(p, w, id)
    ensures Sorting.StrictlySorted(ws, Sorting.Less) ==> Sorting.StrictlySorted(Filter(ws, p, id), Sorting.Less)
    decreases |ws|
  {
    if |ws| > 0 {
      var pre := ws[..|ws| - 1];
      FilterSpec(pre, p, id);
      assert ws == pre + [ws[|ws| - 1]];
      if Sorting.StrictlySorted(ws, Sorting.Less) {
        var f := Filter(pre, p, id);
        assert Sorting.StrictlySorted(pre, Sorting.Less);
        forall i | 0 <= i < |f| ensures Sorting.Less(f[i], ws[|ws| - 1]) {
          assert f[i] in pre;
          var k :| 0 <= k < |pre| && pre[k] == f[i];
          assert ws[k] == f[i];
        }
      }
    }
  }

  /** `MatchDocument` after parsing: `documents_.at(id)` fails for an unknown id; a minus
      word with a posting for the document empties the list; otherwise the plus words with a
      posting are listed. */
  function MatchQuery(p: Postings, docs: map<int, DocumentData>, q: QueryParsing.Query, id: int): Result<(seq<string>, Status)>
  {
    if id !in docs then Err(OutOfRange)
    else if Hit(p, q.minus, id) then Ok(([], docs[id].status))
    else Ok((Filter(q.plus, p, id), docs[id].status))
  }

  /** The sequential `MatchDocument`. */
  function MatchSequential(p: Postings, docs: map<int, DocumentData>, stopWords: set<string>, text: string, id: int): Result<(seq<string>, Status)>
  {
    match QueryParsing.ParseQuery(text, stopWords)
    case Err(e) => Err(e)
    case Ok(q) => MatchQuery(p, docs, q, id)
  }

  /** The parallel `MatchDocument`: the raw query, `any_of` over its minus words, `copy_if`
      over its plus words, then sort and unique. */
  function MatchParallel(p: Postings, docs: map<int, DocumentData>, stopWords: set<string>, text: string, id: int): Result<(seq<string>, Status)>
  {
    match QueryParsing.ParseRawQuery(text, stopWords)
    case Err(e) => Err(e)
    case Ok(q) =>
      if id !in docs then Err(OutOfRange)
      else if Hit(p, q.minus, id) then Ok(([], docs[id].status))
      else Ok((Sorting.SortUnique(Filter(q.plus, p, id)), docs[id].status))
  }

  /** A malformed query fails with `InvalidArgument` and an unknown id with `OutOfRange`;
      otherwise the status is the document's, the list is empty when a minus word of the query
      hits the document, and else it holds, strictly ascending, exactly the plus words of the
      query with a posting for the document. */
  lemma MatchSequentialSpec(p: Postings, docs: map<int, DocumentData>, stopWords: set<string>, text: string, id: int)
    ensures var r, raw := MatchSequential(p, docs, stopWords, text, id), QueryParsing.ParseRawQuery(text, stopWords);
      && (raw.Err? ==> r == Err(InvalidArgument))
      && (raw.Ok? && id !in docs ==> r == Err(OutOfRange))
      && (raw.Ok? && id in docs ==> r.Ok? && r.value.1 == docs[id].status)
      && (raw.Ok? && id in docs && Hit(p, raw.value.minus, id) ==> r.value.0 == [])
      && (raw.Ok? && id in docs && !Hit(p, raw.value.minus, id) ==>
            && Sorting.StrictlySorted(r.value.0, Sorting.Less)
            && forall w :: w in r.value.0 <==> w in raw.value.plus && HasPosting(p, w, id))
  {
    QueryParsing.ParseQuerySpec(text, stopWords);
    var raw := QueryParsing.ParseRawQuery(text, stopWords);
    if raw.Err? {
      QueryParsing.RawErrorIsInvalidArgument(text, stopWords);
    } else {
      var q := QueryParsing.ParseQuery(text, stopWords).value;
      HitByMembers(p, q.minus, raw.value.minus, id);
      FilterSpec(q.plus, p, id);
    }
  }

  /** The parallel `MatchDocument` returns what the sequential one does. */
  lemma MatchParallelIsSequential(p: Postings, docs: map<int, DocumentData>, stopWords: set<string>, text: string, id: int)
    ensures MatchParallel(p, docs, stopWords, text, id) == MatchSequential(p, docs, stopWords, text, id)
  {
    QueryParsing.ParseQuerySpec(text, stopWords);
    var raw := QueryParsing.ParseRawQuery(text, stopWords);
    if raw.Ok? && id in docs {
      var q := QueryParsing.ParseQuery(text, stopWords).value;
      HitByMembers(p, q.minus, raw.value.minus, id);
      FilterSpec(q.plus, p, id);
      FilterSpec(raw.value.plus, p, id);
      Sorting.SortUniqueCanonical(Filter(raw.value.plus, p, id), Filter(q.plus, p, id));
      Sorting.SortUniqueOfStrictlySorted(Filter(q.plus, p, id));
    }
  }
}
