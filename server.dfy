/** `SearchServer` of search_server.h and search_server.cpp: the document store whose methods
    update the two indices, the metadata and the id set in place, the query parser that pushes
    words and then sorts and deduplicates them, and the searches and matches over the store. */
module Server {
  import opened Wrappers
  import Tokenizer
  import Sorting
  import QueryParsing
  import opened Index
  import opened Ranking
  import ConcurrentMaps

  /** `std::execution::sequenced_policy` and `std::execution::parallel_policy`. */
  datatype Policy = Sequenced | Parallel

  /** The stop words a constructor keeps (`MakeUniqueNonEmptyStrings`: the distinct non-empty
      words), or `InvalidArgument` when one of them holds a control character. */
  function StopWords(words: seq<string>): Result<set<string>>
  {
    var s := set w | w in words && w != [];
    if forall w :: w in s ==> QueryParsing.IsValidWord(w) then Ok(s) else Err(InvalidArgument)
  }

  /** The stop words are accepted exactly when every given word is valid, and they are then
      the non-empty given words. */
  lemma StopWordsSpec(words: seq<string>)
    ensures StopWords(words).Ok? <==> forall k :: 0 <= k < |words| ==> QueryParsing.IsValidWord(words[k])
    ensures StopWords(words).Ok? ==> forall w :: w in StopWords(words).value <==> w in words && w != []
    ensures StopWords(words).Err? ==> StopWords(words).error == InvalidArgument
  {
    if StopWords(words).Ok? {
      forall k | 0 <= k < |words| ensures QueryParsing.IsValidWord(words[k]) {
        if words[k] != [] {
          assert words[k] in set w | w in words && w != [];
        }
      }
    }
  }

  /** The predicate of the status overloads of `FindTopDocuments`. */
  function StatusIs(status: Status): DocumentPredicate
  {
    (id: int, s: Status, rating: int) => s == status
  }

  /** The sequential branch of `FindAllDocuments` on the index: the plus words accumulate
      relevance, the minus words then erase their documents, and the map becomes the result
      list in ascending id order. */
  method SearchSequential(p: Postings, docs: map<int, DocumentData>, idf: Idf, pred: DocumentPredicate,
                          q: QueryParsing.Query) returns (r: seq<Document>)
    requires forall w :: w in p ==> p[w].Keys <= docs.Keys
    ensures r == Ranking.FindAllSequential(p, docs, idf, pred, q)
  {
    var rel: map<int, real> := map[];
    var i := 0;
    while i < |q.plus|
      invariant 0 <= i <= |q.plus|
      invariant rel == Accumulate(p, docs, idf, pred, q.plus[..i])
    {
      assert q.plus[..i + 1][..i] == q.plus[..i];
      if q.plus[i] in p {
        rel := CreditWord(rel, p, docs, idf, pred, q.plus[i]);
      }
      i := i + 1;
    }
    assert q.plus[..|q.plus|] == q.plus;
    ghost var acc := rel;
    i := 0;
    while i < |q.minus|
      invariant 0 <= i <= |q.minus|
      invariant rel == Exclude(acc, p, q.minus[..i])
    {
      assert q.minus[..i + 1][..i] == q.minus[..i];
      if q.minus[i] in p {
        rel := EraseWord(rel, p, q.minus[i]);
      }
      i := i + 1;
    }
    assert q.minus[..|q.minus|] == q.minus;
    SequentialKeys(p, docs, idf, pred, q);
    r := MaterializeAscending(rel, docs);
  }

  /** The tail of `FindTopDocuments`: `std::sort` with the comparator on a copy of the found
      documents, then `resize` to `MAX_RESULT_DOCUMENT_COUNT` when longer. */
  method SortTop(matched: seq<Document>) returns (r: seq<Document>)
    ensures r == Top(matched)
  {
    var a := new Document[|matched|](i requires 0 <= i < |matched| => matched[i]);
    assert a[..] == matched;
    Sorting.SortInPlace(a, Precedes);
    r := a[..];
    if |r| > MaxResultDocumentCount {
      r := r[..MaxResultDocumentCount];
    }
  }

  /** `1.0 / words.size()`; with no words the loop that would use it does not run. */
  function InverseWordCount(ws: seq<string>): real
  {
    if |ws| == 0 then 0.0 else 1.0 / |ws| as real
  }

  /** The inner loop of the sequential search for one plus word present in the index: its
      postings in ascending id order, each document that the predicate accepts credited with
      `term_freq * inverse_document_freq`. */
  method CreditWord(rel: map<int, real>, p: Postings, docs: map<int, DocumentData>, idf: Idf,
                    pred: DocumentPredicate, w: string) returns (r: map<int, real>)
    requires w in p && p[w].Keys <= docs.Keys
    ensures r == AddWord(rel, p, docs, idf, pred, w)
  {
    var postings := p[w];
    var inverseDocumentFreq := idf(|docs|, |postings|);
    var ids := Sorting.EnumerateInts(postings.Keys);
    r := rel;
    var j := 0;
    while j < |ids|
      invariant 0 <= j <= |ids|
      invariant r == CreditAll(rel, p, docs, idf, pred, w, ids[..j])
    {
      var id := ids[j];
      assert id in postings;
      CreditAllStep(rel, p, docs, idf, pred, w, ids, j, postings[id], inverseDocumentFreq);
      var data := docs[id];
      if pred(id, data.status, data.rating) {
        r := Credit(r, id, Score(postings[id], inverseDocumentFreq));
      }
      j := j + 1;
    }
    assert ids[..|ids|] == ids;
    CreditAllEqualsAddWord(rel, p, docs, idf, pred, w, ids);
  }

  /** The erasing loop of the sequential search for one minus word present in the index. */
  method EraseWord(rel: map<int, real>, p: Postings, w: string) returns (r: map<int, real>)
    requires w in p
    ensures r == rel - p[w].Keys
  {
    var ids := Sorting.EnumerateInts(p[w].Keys);
    r := rel;
    var j := 0;
    while j < |ids|
      invariant 0 <= j <= |ids|
      invariant r == EraseAll(rel, ids[..j])
    {
      assert ids[..j + 1][..j] == ids[..j];
      r := r - {ids[j]};
      j := j + 1;
    }
    assert ids[..|ids|] == ids;
    EraseAllIsDifference(rel, ids, p[w].Keys);
  }

  /** `matched_documents`: a `Document` per key of the relevance map, in ascending id order,
      with the rating from `documents_`. */
  method MaterializeAscending(m: map<int, real>, docs: map<int, DocumentData>) returns (r: seq<Document>)
    requires m.Keys <= docs.Keys
    ensures r == Materialize(m, docs)
  {
    Sorting.IntLessIsStrictTotalOrder();
    var ks := Sorting.EnumerateAscending(m.Keys, Sorting.IntLess);
    Sorting.AscendingEnumerates(m.Keys, Sorting.IntLess);
    assert forall i :: 0 <= i < |ks| ==> ks[i] in m && ks[i] in docs;
    r := [];
    var k := 0;
    while k < |ks|
      invariant 0 <= k <= |ks| && |r| == k
      invariant forall i :: 0 <= i < k ==> r[i] == Document(ks[i], m[ks[i]], docs[ks[i]].rating)
    {
      r := r + [Document(ks[k], m[ks[k]], docs[ks[k]].rating)];
      k := k + 1;
    }
    assert r == ToDocuments(ks, m, docs);
  }

  /** `document_to_relevance[id].ref_to_value += x`: `operator[]` inserts 0 for a missing id,
      then the referenced value is overwritten with the sum. */
  method AddTo(cm: ConcurrentMaps.ConcurrentMap<real>, id: int, x: real)
    requires cm.Valid() && cm.zero == 0.0
    modifies cm, cm.buckets
    ensures cm.Valid()
    ensures cm.contents == Credit(old(cm.contents), id, x)
  {
    ghost var before := cm.contents;
    var value := cm.Access(id);
    ghost var mid := cm.contents;
    cm.Write(id, value + x);
    OverwriteDefault(before, mid, id, value + x);
  }

  /** The inner loop of the parallel search for one plus word present in the index, through
      `document_to_relevance[id].ref_to_value += ...` on the sharded map. */
  method CreditWordConcurrent(cm: ConcurrentMaps.ConcurrentMap<real>, p: Postings, docs: map<int, DocumentData>,
                              idf: Idf, pred: DocumentPredicate, w: string)
    requires w in p && p[w].Keys <= docs.Keys && cm.Valid() && cm.zero == 0.0
    modifies cm, cm.buckets
    ensures cm.Valid()
    ensures cm.contents == AddWord(old(cm.contents), p, docs, idf, pred, w)
  {
    var postings := p[w];
    var inverseDocumentFreq := idf(|docs|, |postings|);
    var ids := Sorting.EnumerateInts(postings.Keys);
    ghost var start := cm.contents;
    var j := 0;
    while j < |ids|
      invariant 0 <= j <= |ids|
      invariant cm.Valid()
      invariant cm.contents == CreditAll(start, p, docs, idf, pred, w, ids[..j])
    {
      var id := ids[j];
      assert id in postings;
      CreditAllStep(start, p, docs, idf, pred, w, ids, j, postings[id], inverseDocumentFreq);
      var data := docs[id];
      if pred(id, data.status, data.rating) {
        AddTo(cm, id, Score(postings[id], inverseDocumentFreq));
      }
      j := j + 1;
    }
    assert ids[..|ids|] == ids;
    CreditAllEqualsAddWord(start, p, docs, idf, pred, w, ids);
  }

  /** `any_of` over the minus words: whether one has a posting for the document. */
  method AnyHit(p: Postings, words: seq<string>, id: int) returns (b: bool)
    ensures b == Hit(p, words, id)
  {
    var i := 0;
    while i < |words|
      invariant 0 <= i <= |words|
      invariant !Hit(p, words[..i], id)
    {
      assert words[..i + 1][..i] == words[..i];
      HitSnoc(p, words[..i + 1], id);
      if words[i] in p && id in p[words[i]] {
        return true;
      }
      i := i + 1;
    }
    assert words[..|words|] == words;
    return false;
  }

  /** The plus words with a posting for the document, in their order (the loop of the
      sequential `MatchDocument`, the `copy_if` of the parallel one). */
  method CopyMatching(p: Postings, words: seq<string>, id: int) returns (matched: seq<string>)
    ensures matched == Filter(words, p, id)
  {
    matched := [];
    var i := 0;
    while i < |words|
      invariant 0 <= i <= |words|
      invariant matched == Filter(words[..i], p, id)
    {
      assert words[..i + 1][..i] == words[..i];
      if words[i] in p && id in p[words[i]] {
        matched := matched + [words[i]];
      }
      i := i + 1;
    }
    assert words[..|words|] == words;
  }

  /** The set of a sequence's elements. */
  function Members(s: seq<string>): set<string>
  {
    set w | w in s
  }

  /** Overwriting a key after `operator[]` inserted its default is overwriting it in the map
      from before. */
  lemma OverwriteDefault(before: map<int, real>, mid: map<int, real>, id: int, v: real)
    requires mid == if id in before then before else before[id := 0.0]
    ensures mid[id := v] == before[id := v]
  {
  }

  /** The erasing loop of `RemoveDocument` on the inverted index. */
  method EraseFromPostings(p: Postings, words: seq<string>, id: int) returns (r: Postings)
    requires forall k :: 0 <= k < |words| ==> words[k] in p
    ensures r == RemovePostings(p, Members(words), id)
  {
    r := p;
    assert RemovePostings(p, {}, id) == p;
    assert Members(words[..0]) == {};
    var i := 0;
    while i < |words|
      invariant 0 <= i <= |words|
      invariant r == RemovePostings(p, Members(words[..i]), id)
    {
      var w := words[i];
      RemovePostingsStep(p, Members(words[..i]), w, id);
      assert words[..i + 1] == words[..i] + [w];
      MembersSnoc(words[..i], w);
      r := r[w := r[w] - {id}];
      i := i + 1;
    }
    assert words[..|words|] == words;
  }

  lemma MembersSnoc(s: seq<string>, x: string)
    ensures Members(s + [x]) == Members(s) + {x}
  {
    forall v ensures v in Members(s + [x]) <==> v in Members(s) + {x} {
      assert v in s + [x] <==> v in s || v == x;
    }
  }

  class SearchServer {
    /** `stop_words_`. */
    const stopWords: set<string>

    /** `ComputeWordInverseDocumentFreq` as a function of `GetDocumentCount()` and the
        posting count of the word. */
    const idf: Idf

    /** `word_to_document_freqs_`. */
    var wordToDocumentFreqs: Postings

    /** `documents_`. */
    var documents: map<int, DocumentData>

    /** `document_ids_`. */
    var documentIds: set<int>

    /** `storage`: every added text, in order. */
    var storage: seq<string>

    /** `ids_to_word_freq_`. */
    var idsToWordFreq: Forward

    ghost predicate Valid()
      reads this
    {
      Consistent(wordToDocumentFreqs, idsToWordFreq, documents, documentIds)
    }

    /** The member initialisers: the given stop words and an empty store. */
    constructor Init(stopWords: set<string>, idf: Idf)
      ensures this.stopWords == stopWords && this.idf == idf
      ensures wordToDocumentFreqs == map[] && idsToWordFreq == map[] && documents == map[]
      ensures documentIds == {} && storage == []
      ensures Valid()
    {
      this.stopWords := stopWords;
      this.idf := idf;
      wordToDocumentFreqs := map[];
      idsToWordFreq := map[];
      documents := map[];
      documentIds := {};
      storage := [];
      EmptyConsistent();
    }

    /** The constructors from a container of stop words: `InvalidArgument` when a stop word
        holds a control character, otherwise an empty server with the non-empty words as stop
        words. */
    static method FromWords(words: seq<string>, idf: Idf) returns (r: Result<SearchServer>)
      ensures r.Err? <==> StopWords(words).Err?
      ensures r.Err? ==> r.error == InvalidArgument
      ensures r.Ok? ==> fresh(r.value) && r.value.Valid() && r.value.stopWords == StopWords(words).value
      ensures r.Ok? ==> r.value.documents == map[] && r.value.wordToDocumentFreqs == map[] && r.value.storage == []
      ensures r.Ok? ==> r.value.idsToWordFreq == map[] && r.value.documentIds == {}
    {
      var stop := set w | w in words && w != [];
      var ok := true;
      var rest := stop;
      while rest != {}
        invariant rest <= stop
        invariant ok <==> forall w :: w in stop - rest ==> QueryParsing.IsValidWord(w)
        decreases |rest|
      {
        var w :| w in rest;
        ok := ok && QueryParsing.IsValidWord(w);
        rest := rest - {w};
      }
      if !ok {
        return Err(InvalidArgument);
      }
      var server := new SearchServer.Init(stop, idf);
      return Ok(server);
    }

    /** The constructors from a text of stop words: its words, as `SplitIntoWords` gives them. */
    static method FromText(text: string, idf: Idf) returns (r: Result<SearchServer>)
      ensures r.Err? <==> StopWords(Tokenizer.Words(text)).Err?
      ensures r.Err? ==> r.error == InvalidArgument
      ensures r.Ok? ==> fresh(r.value) && r.value.Valid() && r.value.stopWords == StopWords(Tokenizer.Words(text)).value
      ensures r.Ok? ==> r.value.documents == map[] && r.value.wordToDocumentFreqs == map[] && r.value.storage == []
      ensures r.Ok? ==> r.value.idsToWordFreq == map[] && r.value.documentIds == {}
    {
      var words := Tokenizer.SplitIntoWords(text);
      r := FromWords(words, idf);
    }

    /** `SplitIntoWordsNoStop`: the tokens in order, a token with a control character failing
        the call, stop words dropped. */
    method SplitIntoWordsNoStop(text: string) returns (r: Result<seq<string>>)
      ensures r == NoStopWords(Tokenizer.Words(text), stopWords)
    {
      var tokens := Tokenizer.SplitIntoWords(text);
      NoStopWordsSpec(tokens, stopWords);
      var words := [];
      var i := 0;
      while i < |tokens|
        invariant 0 <= i <= |tokens|
        invariant NoStopWords(tokens[..i], stopWords) == Ok(words)
      {
        assert tokens[..i + 1][..i] == tokens[..i];
        if !QueryParsing.IsValidWord(tokens[i]) {
          return Err(InvalidArgument);
        }
        if tokens[i] !in stopWords {
          words := words + [tokens[i]];
        }
        i := i + 1;
      }
      assert tokens[..|tokens|] == tokens;
      return Ok(words);
    }

    /** `AddDocument`. A negative or live id fails with `InvalidArgument` and changes nothing.
        Otherwise the text is stored; a token with a control character then fails with
        `InvalidArgument` and nothing else changes. Otherwise every occurrence of a non-stop word
        adds the reciprocal of the word count to the document's frequency in both indices, and
        the document and its id are registered, with the average rating. A document without
        words gets no forward entry. */
    method AddDocument(id: int, document: string, status: Status, ratings: seq<int>) returns (o: Outcome)
      requires Valid()
      modifies this
      ensures Valid()
      ensures id < 0 || id in old(documents) ==> o == Fail(InvalidArgument) && unchanged(this)
      ensures id >= 0 && id !in old(documents) ==> storage == old(storage) + [document]
      ensures var words := NoStopWords(Tokenizer.Words(document), stopWords);
        id >= 0 && id !in old(documents) && words.Err? ==>
          && o == Fail(InvalidArgument)
          && wordToDocumentFreqs == old(wordToDocumentFreqs) && idsToWordFreq == old(idsToWordFreq)
          && documents == old(documents) && documentIds == old(documentIds)
      ensures var words := NoStopWords(Tokenizer.Words(document), stopWords);
        id >= 0 && id !in old(documents) && words.Ok? ==>
          && o == Pass
          && wordToDocumentFreqs == AddPostings(old(wordToDocumentFreqs), id, words.value, InverseWordCount(words.value))
          && idsToWordFreq == AddForward(old(idsToWordFreq), id, words.value, InverseWordCount(words.value))
          && documents == old(documents)[id := DocumentData(AverageRating(ratings), status)]
          && documentIds == old(documentIds) + {id}
    {
      if id < 0 || id in documents {
        return Fail(InvalidArgument);
      }
      storage := storage + [document];
      var words := SplitIntoWordsNoStop(document);
      NoStopWordsSpec(Tokenizer.Words(document), stopWords);
      if words.Err? {
        return Fail(words.error);
      }
      var ws := words.value;
      var inc := InverseWordCount(ws);
      var data := DocumentData(AverageRating(ratings), status);
      AddKeepsConsistent(wordToDocumentFreqs, idsToWordFreq, documents, documentIds, id, ws, inc, data);
      IndexWords(id, ws, inc);
      documents := documents[id := data];
      documentIds := documentIds + {id};
      return Pass;
    }

    /** The loop of `AddDocument`: each occurrence of a word adds `inc` to the document's
        frequency under that word in both indices. */
    method IndexWords(id: int, ws: seq<string>, inc: real)
      modifies this
      ensures wordToDocumentFreqs == AddPostings(old(wordToDocumentFreqs), id, ws, inc)
      ensures idsToWordFreq == AddForward(old(idsToWordFreq), id, ws, inc)
      ensures documents == old(documents) && documentIds == old(documentIds) && storage == old(storage)
    {
      var i := 0;
      while i < |ws|
        invariant 0 <= i <= |ws|
        invariant wordToDocumentFreqs == AddPostings(old(wordToDocumentFreqs), id, ws[..i], inc)
        invariant idsToWordFreq == AddForward(old(idsToWordFreq), id, ws[..i], inc)
        invariant documents == old(documents) && documentIds == old(documentIds) && storage == old(storage)
      {
        assert ws[..i + 1][..i] == ws[..i];
        wordToDocumentFreqs := BumpPosting(wordToDocumentFreqs, ws[i], id, inc);
        idsToWordFreq := BumpForward(idsToWordFreq, id, ws[i], inc);
        i := i + 1;
      }
      assert ws[..|ws|] == ws;
    }

    /** After a successful `AddDocument`, the document's frequency for each word is the share
        of the word among the document's non-stop tokens (none for a stop word) in the inverted
        index, and that share on top of any stale value in the forward index. */
    lemma AddedFrequencies(p: Postings, f: Forward, docs: map<int, DocumentData>, ids: set<int>,
                           id: int, document: string)
      requires Consistent(p, f, docs, ids) && id !in docs
      requires NoStopWords(Tokenizer.Words(document), stopWords).Ok?
      requires |NoStopWords(Tokenizer.Words(document), stopWords).value| > 0
      ensures var ws := NoStopWords(Tokenizer.Words(document), stopWords).value;
        var n := |ws| as real;
        forall w ::
          var c := if w in stopWords then 0 else Count(Tokenizer.Words(document), w);
          && PostingOf(AddPostings(p, id, ws, InverseWordCount(ws)), w, id) == c as real / n
          && ForwardOf(AddForward(f, id, ws, InverseWordCount(ws)), id, w) == ForwardOf(f, id, w) + c as real / n
    {
      var ws := NoStopWords(Tokenizer.Words(document), stopWords).value;
      NoStopWordsSpec(Tokenizer.Words(document), stopWords);
      forall w ensures PostingOf(AddPostings(p, id, ws, InverseWordCount(ws)), w, id) == Count(ws, w) as real / |ws| as real
        && ForwardOf(AddForward(f, id, ws, InverseWordCount(ws)), id, w) == ForwardOf(f, id, w) + Count(ws, w) as real / |ws| as real
      {
        TermFrequencies(p, f, id, ws, w);
        assert !(w in p && id in p[w]);
      }
    }

    /** `GetWordFrequencies`: the forward entry, `OutOfRange` (from `.at`) without one. Every
        word it lists is a key of the inverted index, and a document with any posting has one. */
    function GetWordFrequencies(id: int): (r: Result<map<string, real>>)
      reads this
      ensures r.Err? ==> r.error == OutOfRange
      ensures Valid() && r.Ok? ==> forall w :: w in r.value ==> w in wordToDocumentFreqs
      ensures Valid() && (exists w :: w in wordToDocumentFreqs && id in wordToDocumentFreqs[w]) ==> r.Ok?
    {
      if id in idsToWordFreq then Ok(idsToWordFreq[id]) else Err(OutOfRange)
    }

    /** `GetDocumentCount`: the number of live documents. */
    function GetDocumentCount(): (n: nat)
      reads this
      ensures Valid() ==> n == |documentIds|
    {
      |documents|
    }

    /** `begin()`/`end()`: the live ids in ascending order. */
    method DocumentIds() returns (ids: seq<int>)
      ensures Sorting.StrictTotalOrder(Sorting.IntLess)
      ensures ids == Sorting.Ascending(documentIds, Sorting.IntLess)
    {
      Sorting.IntLessIsStrictTotalOrder();
      ids := Sorting.EnumerateAscending(documentIds, Sorting.IntLess);
    }

    /** `word_to_document_freqs_.at(word).erase(id)` for each word of `words` in turn. */
    method ErasePostings(words: seq<string>, id: int)
      requires forall k :: 0 <= k < |words| ==> words[k] in wordToDocumentFreqs
      modifies this
      ensures wordToDocumentFreqs == RemovePostings(old(wordToDocumentFreqs), Members(words), id)
      ensures idsToWordFreq == old(idsToWordFreq) && documents == old(documents)
      ensures documentIds == old(documentIds) && storage == old(storage)
    {
      wordToDocumentFreqs := EraseFromPostings(wordToDocumentFreqs, words, id);
    }

    /** The common tail of the `RemoveDocument` overloads: the id erased from the postings of
        `words` (the words of its forward entry), then from `documents_` and `document_ids_`. */
    method EraseDocument(id: int, words: seq<string>)
      requires Valid() && id in idsToWordFreq && Members(words) == idsToWordFreq[id].Keys
      modifies this
      ensures Valid()
      ensures wordToDocumentFreqs == RemovePostings(old(wordToDocumentFreqs), old(idsToWordFreq)[id].Keys, id)
      ensures documents == old(documents) - {id} && documentIds == old(documentIds) - {id}
      ensures idsToWordFreq == old(idsToWordFreq) && storage == old(storage)
    {
      RemoveKeepsConsistent(wordToDocumentFreqs, idsToWordFreq, documents, documentIds, id);
      forall k | 0 <= k < |words| ensures words[k] in wordToDocumentFreqs {
        assert words[k] in Members(words);
      }
      ErasePostings(words, id);
      documents := documents - {id};
      documentIds := documentIds - {id};
    }

    /** `RemoveDocument`: `OutOfRange` (from `GetWordFrequencies`) for an id without a forward
        entry, changing nothing; otherwise the id is erased from the postings of every word of
        its forward entry, from `documents_` and from `document_ids_`. The forward entry itself
        and the word keys stay. */
    method RemoveDocument(id: int) returns (o: Outcome)
      requires Valid()
      modifies this
      ensures Valid()
      ensures id !in old(idsToWordFreq) ==> o == Fail(OutOfRange) && unchanged(this)
      ensures id in old(idsToWordFreq) ==>
        && o == Pass
        && wordToDocumentFreqs == RemovePostings(old(wordToDocumentFreqs), old(idsToWordFreq)[id].Keys, id)
        && documents == old(documents) - {id} && documentIds == old(documentIds) - {id}
        && idsToWordFreq == old(idsToWordFreq) && storage == old(storage)
    {
      var memb := GetWordFrequencies(id);
      if memb.Err? {
        return Fail(memb.error);
      }
      Sorting.LessIsStrictTotalOrder();
      var words := Sorting.EnumerateAscending(memb.value.Keys, Sorting.Less);
      Sorting.AscendingSpec(memb.value.Keys, Sorting.Less);
      assert Members(words) == memb.value.Keys;
      EraseDocument(id, words);
      return Pass;
    }

    /** The policy overloads of `RemoveDocument`. The sequenced one delegates; the parallel
        one first copies the words of the forward entry into a vector and then erases the id
        under each; both end in the same state. */
    method RemoveDocumentWith(policy: Policy, id: int) returns (o: Outcome)
      requires Valid()
      modifies this
      ensures Valid()
      ensures id !in old(idsToWordFreq) ==> o == Fail(OutOfRange) && unchanged(this)
      ensures id in old(idsToWordFreq) ==>
        && o == Pass
        && wordToDocumentFreqs == RemovePostings(old(wordToDocumentFreqs), old(idsToWordFreq)[id].Keys, id)
        && documents == old(documents) - {id} && documentIds == old(documentIds) - {id}
        && idsToWordFreq == old(idsToWordFreq) && storage == old(storage)
    {
      if policy == Sequenced {
        o := RemoveDocument(id);
        return;
      }
      var memb := GetWordFrequencies(id);
      if memb.Err? {
        return Fail(memb.error);
      }
      Sorting.LessIsStrictTotalOrder();
      var keys := Sorting.EnumerateAscending(memb.value.Keys, Sorting.Less);
      Sorting.AscendingSpec(memb.value.Keys, Sorting.Less);
      var words := [];
      var i := 0;
      while i < |keys|
        invariant 0 <= i <= |keys|
        invariant words == keys[..i]
      {
        words := words + [keys[i]];
        i := i + 1;
      }
      assert words == keys;
      assert Members(words) == memb.value.Keys;
      EraseDocument(id, words);
      return Pass;
    }

    /** `ParseQueryWithoutDeleteCopyes`: each token parsed in turn, the first malformed one
        failing the call, stop words dropped, the rest pushed to the plus or the minus list. */
    method ParseQueryWithoutDeleteCopyes(text: string) returns (r: Result<QueryParsing.Query>)
      ensures r == QueryParsing.ParseRawQuery(text, stopWords)
    {
      var tokens := Tokenizer.SplitIntoWords(text);
      var plus, minus := [], [];
      var i := 0;
      while i < |tokens|
        invariant 0 <= i <= |tokens|
        invariant QueryParsing.ParseTokens(tokens[..i], stopWords) == Ok(QueryParsing.Query(plus, minus))
      {
        assert tokens[..i + 1][..i] == tokens[..i];
        var queryWord := QueryParsing.ParseQueryWord(tokens[i], stopWords);
        if queryWord.Err? {
          QueryParsing.ParseTokensErrPropagates(tokens, i + 1, stopWords);
          QueryParsing.RawErrorIsInvalidArgument(text, stopWords);
          return Err(queryWord.error);
        }
        if !queryWord.value.isStop {
          if queryWord.value.isMinus {
            minus := minus + [queryWord.value.data];
          } else {
            plus := plus + [queryWord.value.data];
          }
        }
        i := i + 1;
      }
      assert tokens[..|tokens|] == tokens;
      return Ok(QueryParsing.Query(plus, minus));
    }

    /** `ParseQuery`: the words as above, then each list sorted and its repeats erased. */
    method ParseQuery(text: string) returns (r: Result<QueryParsing.Query>)
      ensures r == QueryParsing.ParseQuery(text, stopWords)
    {
      var raw := ParseQueryWithoutDeleteCopyes(text);
      if raw.Err? {
        return Err(raw.error);
      }
      var plus := Sorting.SortAndUnique(raw.value.plus);
      var minus := Sorting.SortAndUnique(raw.value.minus);
      return Ok(QueryParsing.Query(plus, minus));
    }

    /** The sequential branch of `FindAllDocuments`. */
    method FindAllDocumentsSequential(q: QueryParsing.Query, pred: DocumentPredicate) returns (r: seq<Document>)
      requires Valid()
      ensures r == Ranking.FindAllSequential(wordToDocumentFreqs, documents, idf, pred, q)
    {
      forall w | w in wordToDocumentFreqs ensures wordToDocumentFreqs[w].Keys <= documents.Keys {
        PostedAreLive(wordToDocumentFreqs, idsToWordFreq, documents, documentIds, w);
      }
      r := SearchSequential(wordToDocumentFreqs, documents, idf, pred, q);
    }

    /** The parallel branch of `FindAllDocuments`: the plus words accumulate relevance in a
        sharded map of 15 buckets, the merged map becomes the result list, and the minus words
        are never consulted. */
    method FindAllDocumentsParallel(q: QueryParsing.Query, pred: DocumentPredicate) returns (r: seq<Document>)
      requires Valid()
      ensures r == Ranking.FindAllParallel(wordToDocumentFreqs, documents, idf, pred, q)
    {
      var cm := new ConcurrentMaps.ConcurrentMap<real>(15, 0.0);
      var i := 0;
      while i < |q.plus|
        invariant 0 <= i <= |q.plus|
        invariant fresh(cm.buckets) && cm.Valid() && cm.zero == 0.0
        invariant cm.contents == Accumulate(wordToDocumentFreqs, documents, idf, pred, q.plus[..i])
      {
        assert q.plus[..i + 1][..i] == q.plus[..i];
        if q.plus[i] in wordToDocumentFreqs {
          PostedAreLive(wordToDocumentFreqs, idsToWordFreq, documents, documentIds, q.plus[i]);
          CreditWordConcurrent(cm, wordToDocumentFreqs, documents, idf, pred, q.plus[i]);
        }
        i := i + 1;
      }
      assert q.plus[..|q.plus|] == q.plus;
      var rel := cm.BuildOrdinaryMap();
      AccumulateKeys(wordToDocumentFreqs, documents, idf, pred, q.plus);
      r := MaterializeAscending(rel, documents);
    }

    /** What `FindTopDocuments(policy, raw_query, predicate)` returns: the parse error, or the
        found documents sorted by the comparator and cut to five. */
    ghost function TopDocuments(policy: Policy, text: string, pred: DocumentPredicate): Result<seq<Document>>
      reads this
    {
      match QueryParsing.ParseQuery(text, stopWords)
      case Err(e) => Err(e)
      case Ok(q) =>
        Ok(Top(if policy == Sequenced then Ranking.FindAllSequential(wordToDocumentFreqs, documents, idf, pred, q)
               else Ranking.FindAllParallel(wordToDocumentFreqs, documents, idf, pred, q)))
    }

    /** A malformed query fails with `InvalidArgument`. Otherwise at most five documents come
        back, exactly five when more were found; neighbours are in the comparator's order; each
        is live, accepted by the predicate, has a posting under some plus word, carries its
        relevance and its rating, and (sequential policy only) has no posting under a minus word. */
    lemma TopDocumentsSpec(policy: Policy, text: string, pred: DocumentPredicate)
      ensures var r := TopDocuments(policy, text, pred);
        && (r.Err? <==> QueryParsing.ParseRawQuery(text, stopWords).Err?)
        && (r.Err? ==> r.error == InvalidArgument)
      ensures var r := TopDocuments(policy, text, pred);
        r.Ok? ==>
          var q := QueryParsing.ParseQuery(text, stopWords).value;
          var all := if policy == Sequenced then Ranking.FindAllSequential(wordToDocumentFreqs, documents, idf, pred, q)
                     else Ranking.FindAllParallel(wordToDocumentFreqs, documents, idf, pred, q);
          && |r.value| == (if |all| > MaxResultDocumentCount then MaxResultDocumentCount else |all|)
          && Sorting.NoAdjacentInversion(r.value, Precedes)
          && forall d :: d in r.value ==>
               && Passes(documents, pred, d.id) && Hit(wordToDocumentFreqs, q.plus, d.id)
               && d.relevance == Relevance(wordToDocumentFreqs, documents, idf, q.plus, d.id)
               && d.rating == documents[d.id].rating
               && (policy == Sequenced ==> !Hit(wordToDocumentFreqs, q.minus, d.id))
    {
      QueryParsing.ParseQuerySpec(text, stopWords);
      QueryParsing.RawErrorIsInvalidArgument(text, stopWords);
      var r := TopDocuments(policy, text, pred);
      if r.Ok? {
        var q := QueryParsing.ParseQuery(text, stopWords).value;
        var all := if policy == Sequenced then Ranking.FindAllSequential(wordToDocumentFreqs, documents, idf, pred, q)
                   else Ranking.FindAllParallel(wordToDocumentFreqs, documents, idf, pred, q);
        FindAllSequentialSpec(wordToDocumentFreqs, documents, idf, pred, q);
        FindAllParallelSpec(wordToDocumentFreqs, documents, idf, pred, q);
        TopSpec(all);
        forall d | d in r.value ensures d in all {
          assert d in multiset(r.value);
        }
      }
    }

    /** The status overloads return only documents of the requested status. */
    lemma StatusSearchSpec(policy: Policy, text: string, status: Status)
      ensures var r := TopDocuments(policy, text, StatusIs(status));
        r.Ok? ==> forall d :: d in r.value ==> d.id in documents && documents[d.id].status == status
    {
      TopDocumentsSpec(policy, text, StatusIs(status));
    }

    /** `FindTopDocuments(policy, raw_query, predicate)`: parse, search, sort in place with the
        comparator, keep the first five. */
    method FindTopDocuments(policy: Policy, text: string, pred: DocumentPredicate) returns (r: Result<seq<Document>>)
      requires Valid()
      ensures r == TopDocuments(policy, text, pred)
    {
      var q := ParseQuery(text);
      if q.Err? {
        return Err(q.error);
      }
      var matched;
      if policy == Sequenced {
        matched := FindAllDocumentsSequential(q.value, pred);
      } else {
        matched := FindAllDocumentsParallel(q.value, pred);
      }
      var sorted := SortTop(matched);
      return Ok(sorted);
    }

    /** The status overloads of `FindTopDocuments`: the predicate is equality with `status`. */
    method FindTopDocumentsByStatus(policy: Policy, text: string, status: Status) returns (r: Result<seq<Document>>)
      requires Valid()
      ensures r == TopDocuments(policy, text, StatusIs(status))
    {
      r := FindTopDocuments(policy, text, StatusIs(status));
    }

    /** The overloads without a status: status `ACTUAL`. */
    method FindTopDocumentsActual(policy: Policy, text: string) returns (r: Result<seq<Document>>)
      requires Valid()
      ensures r == TopDocuments(policy, text, StatusIs(Actual))
    {
      r := FindTopDocumentsByStatus(policy, text, Actual);
    }

    /** The sequential `MatchDocument`. */
    method MatchDocumentSequential(text: string, id: int) returns (r: Result<(seq<string>, Status)>)
      ensures r == MatchSequential(wordToDocumentFreqs, documents, stopWords, text, id)
    {
      var q := ParseQuery(text);
      if q.Err? {
        return Err(q.error);
      }
      var minusHit := AnyHit(wordToDocumentFreqs, q.value.minus, id);
      if minusHit {
        if id !in documents {
          return Err(OutOfRange);
        }
        return Ok(([], documents[id].status));
      }
      var matched := CopyMatching(wordToDocumentFreqs, q.value.plus, id);
      if id !in documents {
        return Err(OutOfRange);
      }
      return Ok((matched, documents[id].status));
    }

    /** The parallel `MatchDocument`: the raw query, then the matching plus words sorted and
        deduplicated. */
    method MatchDocumentParallel(text: string, id: int) returns (r: Result<(seq<string>, Status)>)
      ensures r == MatchParallel(wordToDocumentFreqs, documents, stopWords, text, id)
    {
      var q := ParseQueryWithoutDeleteCopyes(text);
      if q.Err? {
        return Err(q.error);
      }
      var minusHit := AnyHit(wordToDocumentFreqs, q.value.minus, id);
      if minusHit {
        if id !in documents {
          return Err(OutOfRange);
        }
        return Ok(([], documents[id].status));
      }
      var matched := CopyMatching(wordToDocumentFreqs, q.value.plus, id);
      matched := Sorting.SortAndUnique(matched);
      if id !in documents {
        return Err(OutOfRange);
      }
      return Ok((matched, documents[id].status));
    }

    /** The three overloads of `MatchDocument`; both policies give the sequential result. */
    method MatchDocument(policy: Policy, text: string, id: int) returns (r: Result<(seq<string>, Status)>)
      ensures r == MatchSequential(wordToDocumentFreqs, documents, stopWords, text, id)
    {
      if policy == Sequenced {
        r := MatchDocumentSequential(text, id);
      } else {
        r := MatchDocumentParallel(text, id);
        MatchParallelIsSequential(wordToDocumentFreqs, documents, stopWords, text, id);
      }
    }
  }
}
