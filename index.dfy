/** The document store of search_server.cpp as values: the inverted index
    `word_to_document_freqs_` (word -> id -> term frequency), the forward index
    `ids_to_word_freq_` (id -> word -> term frequency), the document metadata and what
    `AddDocument` and `RemoveDocument` do to them. */
module Index {
  import opened Wrappers
  import QueryParsing

  /** `DocumentStatus`. */
  datatype Status = Actual | Irrelevant | Banned | Removed

  /** `SearchServer::DocumentData`: the average rating and the status of a document. */
  datatype DocumentData = DocumentData(rating: int, status: Status)

  /** `word_to_document_freqs_`. */
  type Postings = map<string, map<int, real>>

  /** `ids_to_word_freq_`. */
  type Forward = map<int, map<string, real>>

  /** The number of occurrences of `w` in `ws`. */
  function Count(ws: seq<string>, w: string): nat
    decreases |ws|
  {
    if |ws| == 0 then 0
    else Count(ws[..|ws| - 1], w) + (if ws[|ws| - 1] == w then 1 else 0)
  }

  lemma {:induction false} CountPositive(ws: seq<string>, w: string)
    ensures Count(ws, w) > 0 <==> w in ws
    decreases |ws|
  {
    if |ws| > 0 {
      CountPositive(ws[..|ws| - 1], w);
      assert ws == ws[..|ws| - 1] + [ws[|ws| - 1]];
    }
  }

  lemma {:induction false} CountSum(ws: seq<string>, a: string, b: string)
    requires a != b
    ensures Count(ws, a) + Count(ws, b) <= |ws|
    decreases |ws|
  {
    if |ws| > 0 {
      CountSum(ws[..|ws| - 1], a, b);
    }
  }

  /** `SplitIntoWordsNoStop` over the tokens of a document: a token with a control character
      is an error, stop words are dropped and the other tokens kept in order. */
  function NoStopWords(tokens: seq<string>, stopWords: set<string>): Result<seq<string>>
    decreases |tokens|
  {
    if |tokens| == 0 then Ok([])
    else
      match NoStopWords(tokens[..|tokens| - 1], stopWords)
      case Err(e) => Err(e)
      case Ok(ws) =>
        var t := tokens[|tokens| - 1];
        if !QueryParsing.IsValidWord(t) then Err(InvalidArgument)
        else if t in stopWords then Ok(ws)
        else Ok(ws + [t])
  }

  /** The words of a document are accepted exactly when every token is valid; then each word
      that is not a stop word is kept as often as it occurs, and no stop word is kept; a
      rejection is an `InvalidArgument`. */
  lemma {:induction false} NoStopWordsSpec(tokens: seq<string>, stopWords: set<string>)
    ensures NoStopWords(tokens, stopWords).Ok? <==> forall k :: 0 <= k < |tokens| ==> QueryParsing.IsValidWord(tokens[k])
    ensures NoStopWords(tokens, stopWords).Ok? ==>
      forall w :: Count(NoStopWords(tokens, stopWords).value, w) == if w in stopWords then 0 else Count(tokens, w)
    ensures NoStopWords(tokens, stopWords).Err? ==> NoStopWords(tokens, stopWords) == Err(InvalidArgument)
    decreases |tokens|
  {
    if |tokens| > 0 {
      var pre := tokens[..|tokens| - 1];
      NoStopWordsSpec(pre, stopWords);
      assert forall k :: 0 <= k < |pre| ==> pre[k] == tokens[k];
      var r := NoStopWords(tokens, stopWords);
      if r.Ok? {
        var ws := NoStopWords(pre, stopWords).value;
        var t := tokens[|tokens| - 1];
        if t !in stopWords {
          assert (ws + [t])[..|ws + [t]| - 1] == ws;
        }
      }
    }
  }

  /** The sum of the ratings. */
  function Sum(ratings: seq<int>): int
    decreases |ratings|
  {
    if |ratings| == 0 then 0 else Sum(ratings[..|ratings| - 1]) + ratings[|ratings| - 1]
  }

  /** C++ integer division, which truncates toward zero. */
  function TruncDiv(a: int, b: int): int
    requires b > 0
  {
    if a >= 0 then a / b else -((-a) / b)
  }

  /** `ComputeAverageRating`: 0 for no ratings, else the sum divided by the count with the
      quotient truncated toward zero. */
  function AverageRating(ratings: seq<int>): int
  {
    if |ratings| == 0 then 0 else TruncDiv(Sum(ratings), |ratings|)
  }

  /** The average rating is the quotient of the sum by the count rounded toward zero: its
      product with the count lies between zero and the sum, less than one count away. */
  lemma AverageRatingSpec(ratings: seq<int>)
    requires |ratings| > 0
    ensures var r, n, s := AverageRating(ratings), |ratings|, Sum(ratings);
      (s >= 0 ==> 0 <= r * n <= s < (r + 1) * n) && (s < 0 ==> (r - 1) * n < s <= r * n <= 0)
  {
    var n, s := |ratings|, Sum(ratings);
    if s >= 0 {
      DivBounds(s, n);
    } else {
      DivBounds(-s, n);
    }
  }

  /** Euclidean division of a non-negative number. */
  lemma DivBounds(a: int, b: int)
    requires a >= 0 && b > 0
    ensures 0 <= (a / b) * b <= a < (a / b + 1) * b
  {
    assert a == (a / b) * b + a % b;
  }

  /** The ratings of the unit tests in search-server/main.cpp. */
  lemma AverageRatingExamples()
    ensures AverageRating([2, 3, 4]) == 3
    ensures AverageRating([-2, -3, -4]) == -3
    ensures AverageRating([2, -2, 6]) == 2
  {
    assert Sum([2, 3, 4]) == 9 by {
      assert [2, 3, 4][..2] == [2, 3] && [2, 3][..1] == [2] && [2][..0] == [];
    }
    assert Sum([-2, -3, -4]) == -9 by {
      assert [-2, -3, -4][..2] == [-2, -3] && [-2, -3][..1] == [-2] && [-2][..0] == [];
    }
    assert Sum([2, -2, 6]) == 6 by {
      assert [2, -2, 6][..2] == [2, -2] && [2, -2][..1] == [2] && [2][..0] == [];
    }
  }

  /** The frequency stored under word `w` for document `id`, 0 when there is none. */
  function PostingOf(p: Postings, w: string, id: int): real
  {
    if w in p && id in p[w] then p[w][id] else 0.0
  }

  /** The frequency stored in document `id`'s forward entry for `w`, 0 when there is none. */
  function ForwardOf(f: Forward, id: int, w: string): real
  {
    if id in f && w in f[id] then f[id][w] else 0.0
  }

  /** `word_to_document_freqs_[w][id] += inc`, creating missing entries at 0. */
  function BumpPosting(p: Postings, w: string, id: int, inc: real): Postings
  {
    p[w := (if w in p then p[w] else map[])[id := PostingOf(p, w, id) + inc]]
  }

  /** `ids_to_word_freq_[id][w] += inc`, creating missing entries at 0. */
  function BumpForward(f: Forward, id: int, w: string, inc: real): Forward
  {
    f[id := (if id in f then f[id] else map[])[w := ForwardOf(f, id, w) + inc]]
  }

  lemma BumpPostingOf(p: Postings, v: string, id: int, inc: real, w: string)
    ensures PostingOf(BumpPosting(p, v, id, inc), w, id) == PostingOf(p, w, id) + (if v == w then inc else 0.0)
  {
  }

  lemma BumpForwardOf(f: Forward, id: int, v: string, inc: real, w: string)
    ensures ForwardOf(BumpForward(f, id, v, inc), id, w) == ForwardOf(f, id, w) + (if v == w then inc else 0.0)
  {
  }

  /** `inc` added `c` times, as the loop of `AddDocument` adds it once per occurrence. */
  function Repeat(c: nat, inc: real): real
  {
    if c == 0 then 0.0 else Repeat(c - 1, inc) + inc
  }

  lemma {:induction false} RepeatIsProduct(c: nat, inc: real)
    ensures Repeat(c, inc) == c as real * inc
  {
    if c > 0 {
      RepeatIsProduct(c - 1, inc);
      assert (c - 1) as real * inc + inc == c as real * inc;
    }
  }


  /** The inverted index after `inc` is added for every occurrence of each word of `ws`. */
  function AddPostings(p: Postings, id: int, ws: seq<string>, inc: real): Postings
    decreases |ws|
  {
    if |ws| == 0 then p
    else BumpPosting(AddPostings(p, id, ws[..|ws| - 1], inc), ws[|ws| - 1], id, inc)
  }

  /** The forward index after `inc` is added for every occurrence of each word of `ws`. */
  function AddForward(f: Forward, id: int, ws: seq<string>, inc: real): Forward
    decreases |ws|
  {
    if |ws| == 0 then f
    else BumpForward(AddForward(f, id, ws[..|ws| - 1], inc), id, ws[|ws| - 1], inc)
  }

  /** Adding the words `ws` for document `id` creates a posting for `id` under every word of
      `ws` and adds no other key. */
  lemma {:induction false} AddPostingsKeys(p: Postings, id: int, ws: seq<string>, inc: real)
    ensures forall w :: w in AddPostings(p, id, ws, inc) <==> w in p || w in ws
    ensures forall w :: w in ws ==> id in AddPostings(p, id, ws, inc)[w]
    ensures forall w :: w in AddPostings(p, id, ws, inc) && id in AddPostings(p, id, ws, inc)[w] ==>
      w in ws || (w in p && id in p[w])
    decreases |ws|
  {
    if |ws| > 0 {
      AddPostingsKeys(p, id, ws[..|ws| - 1], inc);
      assert ws == ws[..|ws| - 1] + [ws[|ws| - 1]];
    }
  }

  /** Each word's frequency for `id` rises by `inc` per occurrence of the word in `ws`. */
  lemma {:induction false} AddPostingsOwn(p: Postings, id: int, ws: seq<string>, inc: real, w: string)
    ensures PostingOf(AddPostings(p, id, ws, inc), w, id) == PostingOf(p, w, id) + Repeat(Count(ws, w), inc)
    decreases |ws|
  {
    if |ws| > 0 {
      var pre := ws[..|ws| - 1];
      AddPostingsOwn(p, id, pre, inc, w);
      BumpPostingOf(AddPostings(p, id, pre, inc), ws[|ws| - 1], id, inc, w);
    }
  }



  /** The postings of every other document are unchanged. */
  lemma {:induction false} AddPostingsOthers(p: Postings, id: int, ws: seq<string>, inc: real)
    ensures forall w, d :: d != id ==>
      && PostingOf(AddPostings(p, id, ws, inc), w, d) == PostingOf(p, w, d)
      && (w in AddPostings(p, id, ws, inc) && d in AddPostings(p, id, ws, inc)[w] <==> w in p && d in p[w])
    decreases |ws|
  {
    if |ws| > 0 {
      AddPostingsOthers(p, id, ws[..|ws| - 1], inc);
    }
  }

  /** The forward index gains an entry for `id` exactly when `ws` is non-empty; that entry
      gains the words of `ws`, and the entries of other documents are unchanged. */
  lemma {:induction false} AddForwardKeys(f: Forward, id: int, ws: seq<string>, inc: real)
    ensures forall d :: d in AddForward(f, id, ws, inc) <==> d in f || (d == id && |ws| > 0)
    ensures forall d :: d in AddForward(f, id, ws, inc) && d != id ==> AddForward(f, id, ws, inc)[d] == f[d]
    ensures id in AddForward(f, id, ws, inc) ==>
      forall w :: w in AddForward(f, id, ws, inc)[id] <==> (id in f && w in f[id]) || w in ws
    decreases |ws|
  {
    if |ws| > 0 {
      AddForwardKeys(f, id, ws[..|ws| - 1], inc);
      assert ws == ws[..|ws| - 1] + [ws[|ws| - 1]];
    }
  }

  /** Each word's frequency in the entry of `id` rises by `inc` per occurrence in `ws`, on top
      of whatever a stale entry held. */
  lemma {:induction false} AddForwardOwn(f: Forward, id: int, ws: seq<string>, inc: real, w: string)
    ensures ForwardOf(AddForward(f, id, ws, inc), id, w) == ForwardOf(f, id, w) + Repeat(Count(ws, w), inc)
    decreases |ws|
  {
    if |ws| > 0 {
      var pre := ws[..|ws| - 1];
      AddForwardOwn(f, id, pre, inc, w);
      BumpForwardOf(AddForward(f, id, pre, inc), id, ws[|ws| - 1], inc, w);
    }
  }



  lemma Reciprocal(c: real, n: real)
    requires n > 0.0
    ensures c * (1.0 / n) == c / n
  {
  }

  /** `inc` added once per occurrence, with `inc` the reciprocal of the word count, is the
      share of the word's occurrences among the document's words. */
  lemma Share(ws: seq<string>, w: string)
    requires |ws| > 0
    ensures Repeat(Count(ws, w), 1.0 / |ws| as real) == Count(ws, w) as real / |ws| as real
  {
    RepeatIsProduct(Count(ws, w), 1.0 / |ws| as real);
    Reciprocal(Count(ws, w) as real, |ws| as real);
  }

  /** With `inc` the reciprocal of the word count, each word's frequency for the document
      grows by the share of its occurrences among the document's words, in both indices. */
  lemma TermFrequencies(p: Postings, f: Forward, id: int, ws: seq<string>, w: string)
    requires |ws| > 0
    ensures PostingOf(AddPostings(p, id, ws, 1.0 / |ws| as real), w, id) == PostingOf(p, w, id) + Count(ws, w) as real / |ws| as real
    ensures ForwardOf(AddForward(f, id, ws, 1.0 / |ws| as real), id, w) == ForwardOf(f, id, w) + Count(ws, w) as real / |ws| as real
  {
    AddPostingsOwn(p, id, ws, 1.0 / |ws| as real, w);
    AddForwardOwn(f, id, ws, 1.0 / |ws| as real, w);
    Share(ws, w);
  }

  /** `word_to_document_freqs_.at(w).erase(id)` for every word `w` in `words`. */
  function RemovePostings(p: Postings, words: set<string>, id: int): Postings
  {
    map w | w in p :: if w in words then p[w] - {id} else p[w]
  }

  /** Erasing `id` under one more word `w`. */
  lemma RemovePostingsStep(p: Postings, words: set<string>, w: string, id: int)
    requires w in p
    ensures RemovePostings(p, words, id)[w := RemovePostings(p, words, id)[w] - {id}] == RemovePostings(p, words + {w}, id)
  {
    var a := RemovePostings(p, words, id)[w := RemovePostings(p, words, id)[w] - {id}];
    var b := RemovePostings(p, words + {w}, id);
    assert a.Keys == b.Keys;
    forall v | v in a ensures a[v] == b[v] {
      if v == w {
        assert a[v] == p[w] - {id};
      }
    }
  }

  /** The invariant that the operations of the store keep:
      - `document_ids_` holds exactly the ids of `documents_`, and all of them are >= 0;
      - a posting of word `w` for document `id` means that `id` is a live document and that
        `w` is in its forward entry;
      - every word of every forward entry is a key of the inverted index (keys are never
        erased, even when their postings become empty). */
  ghost predicate Consistent(p: Postings, f: Forward, docs: map<int, DocumentData>, ids: set<int>)
  {
    && ids == docs.Keys
    && (forall id :: id in docs ==> id >= 0)
    && (forall w, id :: w in p && id in p[w] ==> id in docs && id in f && w in f[id])
    && (forall id, w :: id in f && w in f[id] ==> w in p)
  }

  /** Every document with a posting is live. */
  lemma PostedAreLive(p: Postings, f: Forward, docs: map<int, DocumentData>, ids: set<int>, w: string)
    requires Consistent(p, f, docs, ids) && w in p
    ensures p[w].Keys <= docs.Keys
  {
    forall id | id in p[w] ensures id in docs {
      assert w in p && id in p[w];
    }
  }

  /** The empty store is consistent. */
  lemma EmptyConsistent()
    ensures Consistent(map[], map[], map[], {})
  {
  }

  /** Adding a document under a fresh non-negative id keeps the store consistent. */
  lemma AddKeepsConsistent(p: Postings, f: Forward, docs: map<int, DocumentData>, ids: set<int>,
                           id: int, ws: seq<string>, inc: real, data: DocumentData)
    requires Consistent(p, f, docs, ids) && id >= 0 && id !in docs
    ensures Consistent(AddPostings(p, id, ws, inc), AddForward(f, id, ws, inc), docs[id := data], ids + {id})
  {
    AddPostingsKeys(p, id, ws, inc);
    AddPostingsOthers(p, id, ws, inc);
    AddForwardKeys(f, id, ws, inc);
    var p', f' := AddPostings(p, id, ws, inc), AddForward(f, id, ws, inc);
    forall w, d | w in p' && d in p'[w] ensures d in docs[id := data] && d in f' && w in f'[d] {
      if d != id {
        assert w in p && d in p[w];
      } else {
        assert w in ws;
      }
    }
  }

  /** Removing a document through its forward entry keeps the store consistent and leaves no
      posting for it; postings of other documents are untouched. */
  lemma RemoveKeepsConsistent(p: Postings, f: Forward, docs: map<int, DocumentData>, ids: set<int>, id: int)
    requires Consistent(p, f, docs, ids) && id in f
    ensures Consistent(RemovePostings(p, f[id].Keys, id), f, docs - {id}, ids - {id})
    ensures forall w :: w in RemovePostings(p, f[id].Keys, id) ==> id !in RemovePostings(p, f[id].Keys, id)[w]
    ensures forall w, d :: d != id && w in p ==> (d in p[w] <==> d in RemovePostings(p, f[id].Keys, id)[w])
  {
  }
}
