/** The earlier, self-contained `SearchServer` of search-server/main.cpp: no id or word
    validation, no forward index and no removal; stop words accumulate through
    `SetStopWords`, queries parse into sets, and a repeated id adds its words again while
    keeping its first rating and status. */
module Legacy {
  import opened Wrappers
  import opened Index
  import opened Ranking
  import Tokenizer
  import Sorting
  import QueryParsing
  import Server

  /** `SplitIntoWords`, the char-by-char loop: a space ends the word being built (if any),
      any other character extends it, and a word still open at the end is kept. It yields the
      same tokens as the view-based tokenizer. */
  method SplitIntoWords(text: string) returns (words: seq<string>)
    ensures words == Tokenizer.Words(text)
  {
    words := [];
    var word: string := [];
    var i := 0;
    while i < |text|
      invariant 0 <= |word| <= i <= |text|
      invariant word == text[i - |word|..i]
      invariant forall k :: i - |word| <= k < i ==> text[k] != ' '
      invariant Tokenizer.Words(text) == words + Tokenizer.WordsFrom(text, i - |word|)
    {
      var start := i - |word|;
      if text[i] == ' ' {
        if word != [] {
          Tokenizer.TokenThenRest(text, start, i);
          words := words + [word];
        }
        word := [];
      } else {
        word := word + [text[i]];
      }
      i := i + 1;
    }
    if word != [] {
      Tokenizer.TokenThenRest(text, i - |word|, i);
      words := words + [word];
    }
  }

  /** `SplitIntoWordsNoStop` without validation: the tokens that are not stop words, in order. */
  function WithoutStopWords(tokens: seq<string>, stopWords: set<string>): seq<string>
    decreases |tokens|
  {
    if |tokens| == 0 then []
    else
      var t := tokens[|tokens| - 1];
      WithoutStopWords(tokens[..|tokens| - 1], stopWords) + (if t in stopWords then [] else [t])
  }

  /** Each word that is not a stop word is kept as often as it occurs, and no stop word is
      kept. */
  lemma {:induction false} WithoutStopWordsCount(tokens: seq<string>, stopWords: set<string>, w: string)
    ensures Count(WithoutStopWords(tokens, stopWords), w) == if w in stopWords then 0 else Count(tokens, w)
    decreases |tokens|
  {
    if |tokens| > 0 {
      var pre := tokens[..|tokens| - 1];
      WithoutStopWordsCount(pre, stopWords, w);
      var ws := WithoutStopWords(pre, stopWords);
      var t := tokens[|tokens| - 1];
      if t !in stopWords {
        assert (ws + [t])[..|ws + [t]| - 1] == ws;
      } else {
        assert ws + [] == ws;
      }
    }
  }

  /** On a text whose tokens are all valid, the current server's `SplitIntoWordsNoStop`
      returns what this one does. */
  lemma {:induction false} NoStopWordsAgrees(tokens: seq<string>, stopWords: set<string>)
    requires NoStopWords(tokens, stopWords).Ok?
    ensures NoStopWords(tokens, stopWords).value == WithoutStopWords(tokens, stopWords)
    decreases |tokens|
  {
    if |tokens| > 0 {
      NoStopWordsAgrees(tokens[..|tokens| - 1], stopWords);
    }
  }

  /** `ParseQueryWord` without validation: a leading '-' is stripped and marks a minus word.
      An empty token, which the tokenizer never yields, reads `text[0]` as the terminating
      NUL and so is a plus word. */
  function ParseQueryWord(text: string, stopWords: set<string>): QueryParsing.QueryWord
  {
    if |text| > 0 && text[0] == '-' then QueryParsing.QueryWord(text[1..], true, text[1..] in stopWords)
    else QueryParsing.QueryWord(text, false, text in stopWords)
  }

  /** Every token is recovered from its parse; the stop flag tells whether the word is a stop
      word; and on a token the current server accepts, both parses agree. */
  lemma ParseQueryWordSpec(text: string, stopWords: set<string>)
    ensures QueryParsing.Unparse(ParseQueryWord(text, stopWords)) == text
    ensures ParseQueryWord(text, stopWords).isMinus <==> |text| > 0 && text[0] == '-'
    ensures ParseQueryWord(text, stopWords).isStop == (ParseQueryWord(text, stopWords).data in stopWords)
    ensures QueryParsing.ParseQueryWord(text, stopWords).Ok? ==>
      QueryParsing.ParseQueryWord(text, stopWords).value == ParseQueryWord(text, stopWords)
  {
    if |text| > 0 && text[0] == '-' {
      assert text == "-" + text[1..];
    }
  }

  /** `Query`: the plus and minus words as sets. */
  datatype SetQuery = SetQuery(plus: set<string>, minus: set<string>)

  /** `ParseQuery` over tokens: each token parsed; a stop word is dropped, a minus word goes
      to the minus set and any other word to the plus set. */
  function ParseTokens(tokens: seq<string>, stopWords: set<string>): SetQuery
    decreases |tokens|
  {
    if |tokens| == 0 then SetQuery({}, {})
    else
      var q := ParseTokens(tokens[..|tokens| - 1], stopWords);
      var w := ParseQueryWord(tokens[|tokens| - 1], stopWords);
      if w.isStop then q
      else if w.isMinus then SetQuery(q.plus, q.minus + {w.data})
      else SetQuery(q.plus + {w.data}, q.minus)
  }

  /** `ParseQuery`. */
  function ParseQuery(text: string, stopWords: set<string>): SetQuery
  {
    ParseTokens(Tokenizer.Words(text), stopWords)
  }

  /** A word is a plus (minus) word of the query exactly when some token parses to it as a
      non-stop plus (minus) word; so neither set holds a stop word. */
  lemma {:induction false} ParseTokensSpec(tokens: seq<string>, stopWords: set<string>, w: string)
    ensures w in ParseTokens(tokens, stopWords).plus <==>
      exists k :: 0 <= k < |tokens| && ParseQueryWord(tokens[k], stopWords) == QueryParsing.QueryWord(w, false, false)
    ensures w in ParseTokens(tokens, stopWords).minus <==>
      exists k :: 0 <= k < |tokens| && ParseQueryWord(tokens[k], stopWords) == QueryParsing.QueryWord(w, true, false)
    decreases |tokens|
  {
    if |tokens| > 0 {
      var pre := tokens[..|tokens| - 1];
      ParseTokensSpec(pre, stopWords, w);
      assert forall k :: 0 <= k < |pre| ==> pre[k] == tokens[k];
      var last := |tokens| - 1;
      if exists k :: 0 <= k < |tokens| && ParseQueryWord(tokens[k], stopWords) == QueryParsing.QueryWord(w, false, false) {
        var k :| 0 <= k < |tokens| && ParseQueryWord(tokens[k], stopWords) == QueryParsing.QueryWord(w, false, false);
        if k < last {
          assert ParseQueryWord(pre[k], stopWords) == QueryParsing.QueryWord(w, false, false);
        }
      }
      if exists k :: 0 <= k < |tokens| && ParseQueryWord(tokens[k], stopWords) == QueryParsing.QueryWord(w, true, false) {
        var k :| 0 <= k < |tokens| && ParseQueryWord(tokens[k], stopWords) == QueryParsing.QueryWord(w, true, false);
        if k < last {
          assert ParseQueryWord(pre[k], stopWords) == QueryParsing.QueryWord(w, true, false);
        }
      }
    }
  }

  /** The query's sets walked in ascending order, as the range-for over a `std::set` does. */
  ghost function AsQuery(q: SetQuery): QueryParsing.Query
  {
    Sorting.LessIsStrictTotalOrder();
    QueryParsing.Query(Sorting.Ascending(q.plus, Sorting.Less), Sorting.Ascending(q.minus, Sorting.Less))
  }

  /** A word of a set walked in order hits a document exactly when some member of the set does. */
  lemma HitAscending(p: Postings, s: set<string>, id: int)
    ensures Sorting.StrictTotalOrder(Sorting.Less)
    ensures Hit(p, Sorting.Ascending(s, Sorting.Less), id) <==> exists w :: w in s && HasPosting(p, w, id)
  {
    Sorting.LessIsStrictTotalOrder();
    var a := Sorting.Ascending(s, Sorting.Less);
    Sorting.AscendingSpec(s, Sorting.Less);
    if exists w :: w in s && HasPosting(p, w, id) {
      var w :| w in s && HasPosting(p, w, id);
      assert w in a;
      var k :| 0 <= k < |a| && a[k] == w;
    }
  }

  class LegacyServer {
    /** `stop_words_`, grown by `SetStopWords`. */
    var stopWords: set<string>

    /** `ComputeWordInverseDocumentFreq` as a function of `GetDocumentCount()` and the
        posting count; the logarithm is not modelled. */
    const idf: Idf

    /** `word_to_document_freqs_`. */
    var wordToDocumentFreqs: Postings

    /** `documents_`. */
    var documents: map<int, DocumentData>

    /** Every document with a posting is registered, so the search's `documents_.at` never
        fails. */
    ghost predicate Valid()
      reads this
    {
      forall w, id :: w in wordToDocumentFreqs && id in wordToDocumentFreqs[w] ==> id in documents
    }

    /** The default constructor: no stop words, no documents. */
    constructor(idf: Idf)
      ensures Valid() && this.idf == idf
      ensures stopWords == {} && wordToDocumentFreqs == map[] && documents == map[]
    {
      this.idf := idf;
      stopWords := {};
      wordToDocumentFreqs := map[];
      documents := map[];
    }

    /** `SetStopWords`: every token of `text` becomes a stop word, in addition to the earlier
        ones. */
    method SetStopWords(text: string)
      modifies this
      ensures stopWords == old(stopWords) + Server.Members(Tokenizer.Words(text))
      ensures wordToDocumentFreqs == old(wordToDocumentFreqs) && documents == old(documents)
    {
      var tokens := SplitIntoWords(text);
      var i := 0;
      while i < |tokens|
        invariant 0 <= i <= |tokens|
        invariant stopWords == old(stopWords) + Server.Members(tokens[..i])
        invariant wordToDocumentFreqs == old(wordToDocumentFreqs) && documents == old(documents)
      {
        assert tokens[..i + 1] == tokens[..i] + [tokens[i]];
        Server.MembersSnoc(tokens[..i], tokens[i]);
        stopWords := stopWords + {tokens[i]};
        i := i + 1;
      }
      assert tokens[..i] == tokens;
    }

    /** `SplitIntoWordsNoStop`. */
    method SplitIntoWordsNoStop(text: string) returns (words: seq<string>)
      ensures words == WithoutStopWords(Tokenizer.Words(text), stopWords)
    {
      var tokens := SplitIntoWords(text);
      words := [];
      var i := 0;
      while i < |tokens|
        invariant 0 <= i <= |tokens|
        invariant words == WithoutStopWords(tokens[..i], stopWords)
      {
        assert tokens[..i + 1][..i] == tokens[..i];
        if tokens[i] !in stopWords {
          words := words + [tokens[i]];
        } else {
          assert words + [] == words;
        }
        i := i + 1;
      }
      assert tokens[..i] == tokens;
    }

    /** `AddDocument`, with no check on the id or the words: every occurrence of a non-stop
        word adds the reciprocal of the word count to the document's frequency (on top of any
        earlier one for the same id), and `emplace` registers the rating and status only for
        an id not yet present. */
    method AddDocument(id: int, document: string, status: Status, ratings: seq<int>)
      requires Valid()
      modifies this
      ensures Valid()
      ensures var ws := WithoutStopWords(Tokenizer.Words(document), stopWords);
        wordToDocumentFreqs == AddPostings(old(wordToDocumentFreqs), id, ws, Server.InverseWordCount(ws))
      ensures documents == if id in old(documents) then old(documents)
                           else old(documents)[id := DocumentData(AverageRating(ratings), status)]
      ensures stopWords == old(stopWords)
    {
      var ws := SplitIntoWordsNoStop(document);
      var inc := Server.InverseWordCount(ws);
      ghost var before := wordToDocumentFreqs;
      var i := 0;
      while i < |ws|
        invariant 0 <= i <= |ws|
        invariant wordToDocumentFreqs == AddPostings(before, id, ws[..i], inc)
        invariant documents == old(documents) && stopWords == old(stopWords)
      {
        assert ws[..i + 1][..i] == ws[..i];
        wordToDocumentFreqs := BumpPosting(wordToDocumentFreqs, ws[i], id, inc);
        i := i + 1;
      }
      assert ws[..i] == ws;
      if id !in documents {
        documents := documents[id := DocumentData(AverageRating(ratings), status)];
      }
      AddPostingsKeys(before, id, ws, inc);
      AddPostingsOthers(before, id, ws, inc);
    }

    /** `GetDocumentCount`. */
    function GetDocumentCount(): nat
      reads this
    {
      |documents|
    }

    /** `ParseQuery`: the tokens of `text` parsed one by one into the two sets. */
    method ParseQueryText(text: string) returns (q: SetQuery)
      ensures q == ParseQuery(text, stopWords)
    {
      var tokens := SplitIntoWords(text);
      q := SetQuery({}, {});
      var i := 0;
      while i < |tokens|
        invariant 0 <= i <= |tokens|
        invariant q == ParseTokens(tokens[..i], stopWords)
      {
        assert tokens[..i + 1][..i] == tokens[..i];
        var w := ParseQueryWord(tokens[i], stopWords);
        if !w.isStop {
          if w.isMinus {
            q := SetQuery(q.plus, q.minus + {w.data});
          } else {
            q := SetQuery(q.plus + {w.data}, q.minus);
          }
        }
        i := i + 1;
      }
      assert tokens[..i] == tokens;
    }

    /** `FindAllDocuments`: the plus set in ascending order accumulates relevance, with
        `GetDocumentCount()` in the inverse document frequency; the minus set then erases
        its documents, and the map becomes the result list in ascending id order. */
    method FindAllDocuments(q: SetQuery, pred: DocumentPredicate) returns (r: seq<Document>)
      requires Valid()
      ensures r == FindAllSequential(wordToDocumentFreqs, documents, idf, pred, AsQuery(q))
    {
      Sorting.LessIsStrictTotalOrder();
      var plus := Sorting.EnumerateAscending(q.plus, Sorting.Less);
      var minus := Sorting.EnumerateAscending(q.minus, Sorting.Less);
      assert AsQuery(q) == QueryParsing.Query(plus, minus);
      forall w | w in wordToDocumentFreqs ensures wordToDocumentFreqs[w].Keys <= documents.Keys {
        forall id | id in wordToDocumentFreqs[w] ensures id in documents {
          assert w in wordToDocumentFreqs && id in wordToDocumentFreqs[w];
        }
      }
      r := Server.SearchSequential(wordToDocumentFreqs, documents, idf, pred, QueryParsing.Query(plus, minus));
    }

    /** What `FindTopDocuments(raw_query, predicate)` returns. */
    ghost function TopDocuments(text: string, pred: DocumentPredicate): seq<Document>
      reads this
    {
      Top(FindAllSequential(wordToDocumentFreqs, documents, idf, pred, AsQuery(ParseQuery(text, stopWords))))
    }

    /** At most five documents, exactly five when more were found; neighbours are in the
        comparator's order; each is registered, accepted by the predicate, has a posting
        under some plus word and none under any minus word, and carries its relevance and its
        rating. */
    lemma TopDocumentsSpec(text: string, pred: DocumentPredicate)
      ensures var q, r := ParseQuery(text, stopWords), TopDocuments(text, pred);
        var all := FindAllSequential(wordToDocumentFreqs, documents, idf, pred, AsQuery(q));
        && |r| == (if |all| > MaxResultDocumentCount then MaxResultDocumentCount else |all|)
        && Sorting.NoAdjacentInversion(r, Precedes)
        && forall d :: d in r ==>
             && Passes(documents, pred, d.id)
             && (exists w :: w in q.plus && HasPosting(wordToDocumentFreqs, w, d.id))
             && !(exists w :: w in q.minus && HasPosting(wordToDocumentFreqs, w, d.id))
             && d.relevance == Relevance(wordToDocumentFreqs, documents, idf, AsQuery(q).plus, d.id)
             && d.rating == documents[d.id].rating
    {
      var q := ParseQuery(text, stopWords);
      var all := FindAllSequential(wordToDocumentFreqs, documents, idf, pred, AsQuery(q));
      FindAllSequentialSpec(wordToDocumentFreqs, documents, idf, pred, AsQuery(q));
      TopSpec(all);
      var r := TopDocuments(text, pred);
      forall d | d in r
        ensures (exists w :: w in q.plus && HasPosting(wordToDocumentFreqs, w, d.id))
        ensures !(exists w :: w in q.minus && HasPosting(wordToDocumentFreqs, w, d.id))
      {
        assert d in multiset(r);
        assert d in all;
        HitAscending(wordToDocumentFreqs, q.plus, d.id);
        HitAscending(wordToDocumentFreqs, q.minus, d.id);
      }
      forall d | d in r ensures d in all {
        assert d in multiset(r);
      }
    }

    /** The minus-word test: when every indexed document contains "pain" and "pain" is not a
        stop word, the query "-pain python" finds nothing. */
    lemma MinusWordExcludes(text: string, pred: DocumentPredicate)
      requires text == "-pain python" && "pain" !in stopWords
      requires forall w, id :: w in wordToDocumentFreqs && id in wordToDocumentFreqs[w] ==> HasPosting(wordToDocumentFreqs, "pain", id)
      ensures forall d :: d !in TopDocuments(text, pred)
    {
      assert text[0..5] == "-pain" && text[6..12] == "python";
      Tokenizer.TokenThenRest(text, 6, 12);
      Tokenizer.TokenThenRest(text, 0, 5);
      assert Tokenizer.Words(text) == ["-pain", "python"];
      var tokens := ["-pain", "python"];
      assert "-pain"[1..] == "pain";
      assert ParseQueryWord("-pain", stopWords) == QueryParsing.QueryWord("pain", true, false);
      assert tokens[..1] == ["-pain"] && tokens[..1][..0] == [];
      var q := ParseQuery(text, stopWords);
      assert "pain" in q.minus;
      TopDocumentsSpec(text, pred);
      var r := TopDocuments(text, pred);
      assert forall d :: d in r ==> HasPosting(wordToDocumentFreqs, "pain", d.id);
    }

    /** `FindTopDocuments(raw_query, predicate)`: parse, search, sort, keep the first five. */
    method FindTopDocuments(text: string, pred: DocumentPredicate) returns (r: seq<Document>)
      requires Valid()
      ensures r == TopDocuments(text, pred)
    {
      var q := ParseQueryText(text);
      var matched := FindAllDocuments(q, pred);
      r := Server.SortTop(matched);
    }

    /** `FindTopDocuments(raw_query, status)`: the predicate is equality with `status`. */
    method FindTopDocumentsByStatus(text: string, status: Status) returns (r: seq<Document>)
      requires Valid()
      ensures r == TopDocuments(text, Server.StatusIs(status))
    {
      r := FindTopDocuments(text, Server.StatusIs(status));
    }

    /** `FindTopDocuments(raw_query)`: status `ACTUAL`. */
    method FindTopDocumentsActual(text: string) returns (r: seq<Document>)
      requires Valid()
      ensures r == TopDocuments(text, Server.StatusIs(Actual))
    {
      r := FindTopDocumentsByStatus(text, Actual);
    }

    /** `MatchDocument`: the plus words (ascending) with a posting for the document, the list
        cleared when a minus word has one, and the document's status, which `.at` fails to
        find for an unregistered id. */
    method MatchDocument(text: string, id: int) returns (r: Result<(seq<string>, Status)>)
      ensures r == MatchQuery(wordToDocumentFreqs, documents, AsQuery(ParseQuery(text, stopWords)), id)
    {
      var q := ParseQueryText(text);
      Sorting.LessIsStrictTotalOrder();
      var plus := Sorting.EnumerateAscending(q.plus, Sorting.Less);
      var minus := Sorting.EnumerateAscending(q.minus, Sorting.Less);
      assert AsQuery(q) == QueryParsing.Query(plus, minus);
      var matched := Server.CopyMatching(wordToDocumentFreqs, plus, id);
      var minusHit := Server.AnyHit(wordToDocumentFreqs, minus, id);
      if minusHit {
        matched := [];
      }
      if id !in documents {
        return Err(OutOfRange);
      }
      return Ok((matched, documents[id].status));
    }

    /** An unregistered id fails with `OutOfRange`; otherwise the status is the document's,
        the list is empty when a minus word has a posting for the document, and else it holds,
        strictly ascending, exactly the plus words with a posting for it. */
    lemma MatchDocumentSpec(text: string, id: int)
      ensures var q, r := ParseQuery(text, stopWords), MatchQuery(wordToDocumentFreqs, documents, AsQuery(ParseQuery(text, stopWords)), id);
        && (id !in documents <==> r == Err(OutOfRange))
        && (id in documents ==> r.Ok? && r.value.1 == documents[id].status)
        && (id in documents && (exists w :: w in q.minus && HasPosting(wordToDocumentFreqs, w, id)) ==> r.value.0 == [])
        && (id in documents && !(exists w :: w in q.minus && HasPosting(wordToDocumentFreqs, w, id)) ==>
              && Sorting.StrictlySorted(r.value.0, Sorting.Less)
              && forall w :: w in r.value.0 <==> w in q.plus && HasPosting(wordToDocumentFreqs, w, id))
    {
      var q := ParseQuery(text, stopWords);
      Sorting.LessIsStrictTotalOrder();
      Sorting.AscendingSpec(q.plus, Sorting.Less);
      HitAscending(wordToDocumentFreqs, q.minus, id);
      FilterSpec(AsQuery(q).plus, wordToDocumentFreqs, id);
    }
  }

  /** A document's stop words get no posting from `AddDocument`; every other token does. */
  lemma StopWordsNotIndexed(p: Postings, id: int, tokens: seq<string>, stopWords: set<string>, w: string)
    ensures var ws := WithoutStopWords(tokens, stopWords);
      var after := AddPostings(p, id, ws, Server.InverseWordCount(ws));
      && (w in stopWords ==> PostingOf(after, w, id) == PostingOf(p, w, id))
      && (w !in stopWords && w in tokens ==> w in after && id in after[w])
  {
    var ws := WithoutStopWords(tokens, stopWords);
    WithoutStopWordsCount(tokens, stopWords, w);
    AddPostingsOwn(p, id, ws, Server.InverseWordCount(ws), w);
    AddPostingsKeys(p, id, ws, Server.InverseWordCount(ws));
    CountPositive(ws, w);
    CountPositive(tokens, w);
  }

  /** After `AddDocument` with at least one non-stop word, each word's frequency for the
      document rises by its share among the non-stop tokens (none for a stop word). */
  lemma AddedFrequency(p: Postings, id: int, tokens: seq<string>, stopWords: set<string>, w: string)
    requires |WithoutStopWords(tokens, stopWords)| > 0
    ensures var ws := WithoutStopWords(tokens, stopWords);
      var c := if w in stopWords then 0 else Count(tokens, w);
      PostingOf(AddPostings(p, id, ws, Server.InverseWordCount(ws)), w, id) == PostingOf(p, w, id) + c as real / |ws| as real
  {
    var ws := WithoutStopWords(tokens, stopWords);
    WithoutStopWordsCount(tokens, stopWords, w);
    TermFrequencies(p, map[], id, ws, w);
  }

  /** The stop-word test's document splits into its four words. */
  lemma CatInTheCityWords(s: string)
    requires s == "cat in the city"
    ensures Tokenizer.Words(s) == ["cat", "in", "the", "city"]
  {
    assert s[11..15] == "city" && s[7..10] == "the" && s[4..6] == "in" && s[0..3] == "cat";
    Tokenizer.TokenThenRest(s, 11, 15);
    Tokenizer.TokenThenRest(s, 7, 10);
    Tokenizer.TokenThenRest(s, 4, 6);
    Tokenizer.TokenThenRest(s, 0, 3);
  }

  /** With stop words "in" and "the" only "cat" and "city" are indexed; with none, all four
      words are. */
  lemma CatInTheCityStopWords(tokens: seq<string>, stopWords: set<string>)
    requires tokens == ["cat", "in", "the", "city"]
    ensures stopWords == {"in", "the"} ==> WithoutStopWords(tokens, stopWords) == ["cat", "city"]
    ensures stopWords == {} ==> WithoutStopWords(tokens, stopWords) == tokens
  {
    assert tokens[..4] == tokens;
    assert tokens[..1][..0] == [];
    assert tokens[..2][..1] == tokens[..1] && tokens[..3][..2] == tokens[..2] && tokens[..4][..3] == tokens[..3];
    var w1 := WithoutStopWords(tokens[..1], stopWords);
    var w2 := WithoutStopWords(tokens[..2], stopWords);
    var w3 := WithoutStopWords(tokens[..3], stopWords);
    assert WithoutStopWords(tokens[..1][..0], stopWords) == [];
    assert w1 == (if "cat" in stopWords then [] else ["cat"]);
    assert w2 == w1 + (if "in" in stopWords then [] else ["in"]);
    assert w3 == w2 + (if "the" in stopWords then [] else ["the"]);
    assert WithoutStopWords(tokens, stopWords) == w3 + (if "city" in stopWords then [] else ["city"]);
    if stopWords == {"in", "the"} {
      assert "city" !in stopWords && "the" in stopWords && "in" in stopWords && "cat" !in stopWords;
    }
  }
}
