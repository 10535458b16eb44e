# cpp-search-server in Dafny

A model of a small in-memory full-text search engine, with proofs about it. The engine is a
`SearchServer` that:

- keeps an inverted index (word -> document id -> term frequency), a forward index
  (document id -> word -> term frequency), and per-document rating and status;
- splits texts into words on spaces and rejects words that hold control characters;
- parses queries into plus words and minus words;
- ranks the documents a query finds by TF-IDF, sorts them with an epsilon comparator and
  keeps the first five of that order.

Around the server sit a sharded map used by its parallel search, a bounded history of search
requests, a duplicate-document remover and a batch query runner. An older, self-contained
variant of the server is modelled too.

## Modules

- `Wrappers`: `Result`/`Outcome` and the two exception kinds. `InvalidArgument` and
  `OutOfRange` stand for `std::invalid_argument` and `std::out_of_range`.
- `Tokenizer` (string_processing.cpp):
  - `Words` defines the tokens of a text;
  - `SplitIntoWords` is the `string_view` loop, proved to compute it.
- `Sorting`: the sorting and deduplication the program relies on.
  - `std::sort` is modelled as a deterministic insertion sort, on sequences and in place on
    an array.
  - `std::unique` is modelled as `Dedup` / `UniqueInPlace`.
  - It also holds the lexicographic string order, and the ascending enumeration of a set
    (`std::set` / `std::map` iteration).
- `QueryParsing`: `IsValidWord`, `ParseQueryWord`, `ParseQueryWithoutDeleteCopyes` (token
  order, with duplicates) and `ParseQuery` (sorted and unique).
- `Index`:
  - the effect on the two indices of `AddDocument` and `RemoveDocument`, as functions on
    maps;
  - `SplitIntoWordsNoStop` and `ComputeAverageRating`;
  - the consistency invariant the server keeps.
- `Ranking`:
  - what `FindAllDocuments` computes, as functions of the index;
  - the result comparator, and the sort-and-truncate of `FindTopDocuments`;
  - what `MatchDocument` reports.
- `ConcurrentMaps` (concurrent_map.h): `ConcurrentMap` as a class over an array of bucket
  maps, with bucket routing, default insertion and `BuildOrdinaryMap`.
- `Server` (search_server.h and search_server.cpp):
  - the class `SearchServer`, with the fields of the C++ class;
  - its constructors, `AddDocument`, `RemoveDocument` (all policies), `GetWordFrequencies`,
    `GetDocumentCount`, `begin`/`end`, the query parsers, the sequential and parallel
    `FindAllDocuments`, the `FindTopDocuments` overloads and the `MatchDocument` overloads.
  - Each method is proved equal to the spec function in `Index` or `Ranking`.
- `Requests` (request_queue.cpp): `RequestQueue` with `AddFindRequest` (both overloads),
  `CutDeque` and `GetNoResultRequests`.
- `Duplicates` (remove_duplicates.cpp): `RemoveDuplicates` as a first-occurrence-wins scan
  over word sets, then the removal of the duplicates found.
- `Batch` (process_queries.cpp): `ProcessQueries` and `ProcessQueriesJoined`.
- `Legacy` (search-server/main.cpp): the older `SearchServer`.
  - It has a character-loop `SplitIntoWords`, stop words set from a text, and no validation.
  - Its queries are `std::set`s, and it has its own `FindAllDocuments` and `MatchDocument`.
  - Its unit tests are stated as lemmas.

### Numerics, I/O and parameters

- Term frequencies are exact reals: each occurrence adds `1 / |words|`. The inverse
  document frequency is a function `Idf` of (document count, posting count), fixed when the
  server is made. The logarithm of `ComputeWordInverseDocumentFreq` is not modelled.
- The search predicate is a function-valued parameter on (id, status, rating).
- Execution policies are a parameter (`Policy`).
- `min_in_day_` is a constructor parameter of the request queue.
- `cout` output is left out.
- A Dafny `char` stands for one byte of a C++ `std::string`, read as 0..255; only those values
  are meant. `IsValidWord` rejects bytes 0..31: the C++ test `c >= '\0' && c < ' '` on a signed
  `char` lets the bytes 128..255 through, since they are negative there. The string order is
  `char_traits` order, which compares bytes as unsigned 0..255.

### Where the model follows the code rather than the design

- `RemoveDocument` and `GetWordFrequencies` fail with `OutOfRange` for an id that has no
  forward entry. This covers ids never added and documents without non-stop words.
  - They do not quietly do nothing.
  - `RemoveDocument` never erases the forward entry, and leaves words whose posting lists
    became empty.
- A document with no non-stop words is registered without a forward entry. `RemoveDuplicates`
  therefore fails with `OutOfRange` on a server holding one, and removes nothing.
- Re-adding a removed id adds its frequencies onto the stale forward entry.
- The parallel `FindAllDocuments` never applies minus words.
- In `AddFindRequest`, a query that fails to parse throws before anything is recorded.
- The older server does no id check. Its `emplace` keeps the first metadata of a repeated id,
  while the postings still accumulate.

## Model

| member | source | states |
|---|---|---|
| Tokenizer.RunEnd | string_processing.cpp:21 | the end of the token that starts at `i` is the first space at or after `i`, or the end of the text |
| Tokenizer.FindFirstNotOf | string_processing.cpp:14 | `find_first_not_of`: every character skipped equals `c`, and the one found does not |
| Tokenizer.Find | string_processing.cpp:21 | `find`: no character skipped equals `c`, and the one found does |
| Tokenizer.SplitIntoWords | string_processing.cpp:3-33 | the `remove_prefix` loop yields exactly `Words(text)` |
| Tokenizer.SpansFrom | string_processing.cpp:22-29 | token spans lie inside the text at strictly increasing, non-overlapping offsets |
| Tokenizer.SpansLocateWords | string_processing.cpp:22-29 | each token is the contiguous slice of the text at its span |
| Tokenizer.SpansAreMaximal | string_processing.cpp:10-31 | a token holds no space, and is bounded by a space or the text's ends on both sides: tokens are maximal runs |
| Tokenizer.SpansCoverNonSpaces | string_processing.cpp:13-31 | every non-space character lies inside some token |
| Tokenizer.WordsAreNonEmptyAndSpaceFree | string_processing.cpp:13-22 | each token is non-empty and contains no `' '` |
| Tokenizer.NoWordsIffAllSpaces | string_processing.cpp:5-9 | there are no tokens iff the text is empty or all spaces |
| Tokenizer.SkipSpaces | string_processing.cpp:17-20 | leading spaces yield no tokens |
| Tokenizer.TokenThenRest | string_processing.cpp:21-29 | a run of non-spaces ended by a space or the end is one token, followed by the tokens after that space |
| Tokenizer.OnlySpaceSeparates | string_processing.cpp:13-22 | a non-empty text without `' '` is one token, whatever other bytes (tabs, newlines) it holds |
| Tokenizer.RunEndShift | string_processing.cpp:24-29 | the token length depends only on the remaining view, not on the prefix removed |
| Tokenizer.WordsFromShift | string_processing.cpp:24-29 | the tokens depend only on the remaining view |
| Tokenizer.SplitJoinRoundTrip | string_processing.cpp:3-33 | splitting the space-joined non-empty, space-free words gives back those words |
| Sorting.InsertPermutes | search-server/search_server.h:149-160 | one insertion step adds exactly one element |
| Sorting.SortPermutes | search-server/search_server.h:149-160 | the sort is a permutation of its input |
| Sorting.InsertNoAdjacentInversion | search-server/search_server.h:149-160 | for an asymmetric comparator, insertion keeps every adjacent pair un-inverted |
| Sorting.SortNoAdjacentInversion | search-server/search_server.h:149-160 | for an asymmetric comparator, no adjacent pair of the sorted output is inverted |
| Sorting.InsertSorted | search-server/search_server.cpp:311-312 | for a strict total order, insertion into a sorted sequence keeps it sorted |
| Sorting.SortSorted | search-server/search_server.cpp:311-312 | for a strict total order, the output is sorted |
| Sorting.SortInPlace | search-server/search_server.cpp:216 | the in-place array sort leaves the array equal to the functional sort of its old contents |
| Sorting.InsertAt | search-server/search_server.cpp:216 | one pass of the in-place sort inserts `a[i]` into the sorted prefix and leaves the rest alone |
| Sorting.ShiftGreater | search-server/search_server.cpp:216 | the shift loop moves the greater prefix elements up one slot and stops where insertion belongs |
| Sorting.Dedup | search-server/search_server.cpp:314-318 | for a non-empty input the result is non-empty and ends with the input's last value |
| Sorting.DedupElements | search-server/search_server.cpp:314-318 | `std::unique` keeps exactly the elements of its input |
| Sorting.DedupStrictlySorted | search-server/search_server.cpp:314-318 | `std::unique` of a sorted sequence is strictly sorted |
| Sorting.UniqueInPlace | search-server/search_server.cpp:217-218 | the in-place unique-and-erase leaves the deduplicated prefix and returns its length |
| Sorting.StrictlySortedUnique | search-server/search_server.cpp:311-318 | two strictly sorted sequences with the same elements are equal |
| Sorting.LessIrreflexive | search-server/search_server.cpp:311 | the string order is irreflexive |
| Sorting.LessTransitive | search-server/search_server.cpp:311 | the string order is transitive |
| Sorting.LessTotal | search-server/search_server.cpp:311 | two different strings are ordered one way or the other |
| Sorting.LessIsStrictTotalOrder | search-server/search_server.cpp:311 | the string order is a strict total order |
| Sorting.SortUniqueSpec | search-server/search_server.cpp:311-318 | sort-then-unique gives a strictly sorted sequence with exactly the input's elements |
| Sorting.SortUniqueCanonical | search-server/search_server.cpp:311-318 | inputs with the same elements give the same sort-then-unique result |
| Sorting.SortUniqueOfStrictlySorted | search-server/search_server.cpp:311-318 | sort-then-unique leaves an already strictly sorted sequence unchanged |
| Sorting.SortAndUnique | search-server/search_server.cpp:311-318 | the in-place sort, unique and erase compute `SortUnique` |
| Sorting.LeastExists | search-server/search_server.cpp:8-16 | a non-empty finite set has a least element |
| Sorting.Least | search-server/search_server.cpp:8-16 | the chosen element is in the set and below every other member |
| Sorting.AscendingSpec | search-server/search_server.cpp:8-16 | the iteration order of a set is strictly ascending, holds exactly its members, and has its size |
| Sorting.AscendingEnumerates | search-server/search_server.cpp:8-16 | the iteration visits each member exactly once |
| Sorting.AscendingStep | search-server/search_server.cpp:8-16 | the iteration starts at the least member and continues with the rest |
| Sorting.EnumerateAscending | search-server/search_server.h:276-280 | the method enumerates a set in ascending order |
| Sorting.IntLessIsStrictTotalOrder | search-server/search_server.cpp:8-16 | `<` on ids is a strict total order |
| Sorting.EnumerateInts | search-server/search_server.cpp:8-16 | the ids come out strictly increasing, exactly the set's members |
| QueryParsing.ValidConcat | search-server/search_server.cpp:228-233 | a concatenation is valid iff both parts are valid (validity is per character) |
| QueryParsing.ParseQueryWordSpec | search-server/search_server.cpp:271-291 | a query word is rejected iff it is empty, a bare `-`, starts with `--`, or holds a control byte. An accepted word is recovered from its parse: the minus flag is the leading `-`, the data is valid and does not start with `-`, and the stop flag is membership in the stop words |
| QueryParsing.ParseTokensOk | search-server/search_server.cpp:322-341 | the raw query parses iff every token parses |
| QueryParsing.ParseTokensPlus | search-server/search_server.cpp:322-341 | a word is a raw plus word iff some token parses to it as a non-stop plus word |
| QueryParsing.ParseTokensMinus | search-server/search_server.cpp:322-341 | a word is a raw minus word iff some token parses to it as a non-stop minus word |
| QueryParsing.ParseTokensErrPropagates | search-server/search_server.cpp:325-327 | an invalid token makes the whole parse fail |
| QueryParsing.ParseQuerySpec | search-server/search_server.cpp:293-320 | `ParseQuery` fails iff the raw parse fails. Its plus and minus lists are strictly sorted, stop-word free, and have the raw lists' elements |
| QueryParsing.RawErrorIsInvalidArgument | search-server/search_server.cpp:271-291 | parse failures are `invalid_argument` |
| QueryParsing.ParseTokensErrorIsInvalidArgument | search-server/search_server.cpp:276-287 | every token failure is `invalid_argument` |
| Index.CountPositive | search-server/search_server.cpp:95-99 | a word occurs a positive number of times iff it is among the tokens |
| Index.NoStopWordsSpec | search-server/search_server.cpp:235-251 | words are accepted iff every token is valid. The accepted list counts each non-stop word as often as the tokens do, and stop words never. A failure is `invalid_argument` |
| Index.AverageRatingSpec | search-server/search_server.cpp:253-262 | the average is the sum over the count, truncated toward zero (bounds on both signs) |
| Index.AverageRatingExamples | search-server/main.cpp:411-422 | the averages of {2,3,4}, {-2,-3,-4} and {2,-2,6} are 3, -3 and 2 |
| Index.BumpPostingOf | search-server/search_server.cpp:97 | one `+=` on the inverted index changes only that word's entry for that id |
| Index.BumpForwardOf | search-server/search_server.cpp:98 | one `+=` on the forward index changes only that word's entry for that id |
| Index.RepeatIsProduct | search-server/search_server.cpp:94-99 | adding `inc` `c` times adds `c * inc` |
| Index.AddPostingsKeys | search-server/search_server.cpp:95-99 | after the add loop, the words are the old ones plus the document's. The document is posted under each of its words, and under no other new word |
| Index.AddPostingsOwn | search-server/search_server.cpp:97 | the added document's frequency for a word grows by (occurrences) times `inc` |
| Index.AddPostingsOthers | search-server/search_server.cpp:95-99 | other documents' postings are unchanged |
| Index.AddForwardKeys | search-server/search_server.cpp:94-99 | a forward entry is created only when the document has words. Other entries are unchanged, and the entry's words are the old ones plus the document's |
| Index.AddForwardOwn | search-server/search_server.cpp:98 | the forward frequency of a word grows by (occurrences) times `inc` |
| Index.TermFrequencies | search-server/search_server.cpp:94-99 | adding `1/n` per occurrence adds (occurrences)/n in both indices |
| Index.RemovePostingsStep | search-server/search_server.cpp:30 | one loop step over a word extends the removal by that word |
| Index.PostedAreLive | search-server/search_server.h:255 | under the invariant, every posted id is a live document, so `documents_.at` does not throw |
| Index.EmptyConsistent | search-server/search_server.cpp:73-81 | an empty server satisfies the invariant |
| Index.AddKeepsConsistent | search-server/search_server.cpp:83-103 | a successful add keeps the invariant |
| Index.RemoveKeepsConsistent | search-server/search_server.cpp:25-36 | a removal keeps the invariant, erases the id from all postings, and keeps the other ids' postings |
| Ranking.HitByMembers | search-server/search_server.h:245-261 | whether a document is hit depends only on which words are in the list, not their order or repeats |
| Ranking.RelevanceWithoutHit | search-server/search_server.h:245-259 | a document no plus word posts has relevance zero |
| Ranking.RelevanceAppend | search-server/search_server.h:245-259 | relevance sums over the plus words |
| Ranking.CreditAllStep | search-server/search_server.h:253-260 | one inner loop step credits tf×idf to a document the predicate accepts, and skips the rest |
| Ranking.CreditAllIsAddWord | search-server/search_server.h:253-260 | the inner loop over a word's postings adds that word's contribution to exactly the accepted documents it posts |
| Ranking.CreditAllEqualsAddWord | search-server/search_server.h:253-260 | the inner loop over all of a word's postings equals adding that word |
| Ranking.AccumulateSpec | search-server/search_server.h:244-261 | the plus loop leaves exactly the accepted documents that some plus word posts, with relevance summed over the plus words |
| Ranking.AccumulateKeys | search-server/search_server.h:255 | accumulated ids are live documents |
| Ranking.EraseAllSpec | search-server/search_server.h:269-272 | erasing a posting list removes exactly those ids and keeps the other values |
| Ranking.EraseAllIsDifference | search-server/search_server.h:269-272 | erasing a list of ids is map difference by their set |
| Ranking.ExcludeSpec | search-server/search_server.h:263-273 | the minus loop removes exactly the documents some minus word posts, whatever the predicate says, and keeps the other values |
| Ranking.ToDocuments | search-server/search_server.h:275-281 | each result carries its id, its accumulated relevance and the document's rating |
| Ranking.MaterializeSpec | search-server/search_server.h:275-281 | the results come in strictly ascending id order, one per accumulated id, with its relevance and the document's rating |
| Ranking.SequentialKeys | search-server/search_server.h:244-273 | only live documents reach the result |
| Ranking.FindAllSequentialSpec | search-server/search_server.h:244-281 | a document is found iff it passes the predicate, some plus word posts it, and no minus word does. Ids are ascending, relevance is the plus-word sum, and the rating is the document's |
| Ranking.FindAllParallelSpec | search-server/search_server.h:284-314 | the parallel branch finds exactly the accepted documents some plus word posts, ignoring minus words, in ascending order with the same relevance and rating |
| Ranking.FindAllParallelCoversSequential | search-server/search_server.h:284-314 | every sequential result is also a parallel result. A parallel-only result is posted by a minus word |
| Ranking.PrecedesAsymmetric | search-server/search_server.h:149-160 | the comparator is asymmetric |
| Ranking.PrecedesTies | search-server/search_server.h:149-160 | examples only: two documents with relevances within `DIFF` and equal ratings are unordered both ways; a close pair is ordered by rating, a distant pair by relevance |
| Ranking.PrecedesTiesNotTransitive | search-server/search_server.h:149-160 | the comparator is not a strict weak ordering: with relevances 0, 0.0000006 and 0.0000012 and equal ratings, the first two tie and the last two tie, yet the third comes before the first |
| Ranking.TopSpec | search-server/search_server.h:149-164 | the top list has `min(size, 5)` elements drawn from the input, with no adjacent pair inverted |
| Ranking.FilterSpec | search-server/search_server.cpp:168-178 | the matched words are exactly the listed words posting the document, in the list's order |
| Ranking.MatchSequentialSpec | search-server/search_server.cpp:148-180 | a bad query is `invalid_argument` and an unknown id is `out_of_range`. Otherwise the status is the document's, the list is empty on a minus hit, and else it is exactly the plus words posting the document, strictly sorted |
| Ranking.MatchParallelIsSequential | search-server/search_server.cpp:188-221 | the parallel overload (copy_if, sort, unique over the raw query) returns the same as the sequential one |
| ConcurrentMaps.Route | search-server/concurrent_map.h:42 | the bucket index is within the bucket count |
| ConcurrentMaps.RouteSpec | search-server/concurrent_map.h:42 | the bucket is `uint64(key) % bucket_count`: the key itself for non-negative keys, and `key + 2^64` for negative ones |
| ConcurrentMaps.RouteExamples | search-server/concurrent_map.h:42 | with 15 buckets, keys 1 and 16 share bucket 1, and key -1 goes to bucket 0 |
| ConcurrentMaps.MergedHas | search-server/concurrent_map.h:46-58 | a key is in the merged map iff it is in its routed bucket |
| ConcurrentMaps.BucketsDisjoint | search-server/concurrent_map.h:42-43 | with every key in its routed bucket, the buckets' key sets are pairwise disjoint |
| ConcurrentMaps.StoreInBucket | search-server/concurrent_map.h:42-43 | storing into the routed bucket keeps the routing and updates the merged map at that key |
| ConcurrentMaps.ConcurrentMap.constructor | search-server/concurrent_map.h:27-29 | a map with the given positive bucket count and no keys |
| ConcurrentMaps.ConcurrentMap.Access | search-server/concurrent_map.h:31-44 | `operator[]` inserts zero for an absent key, leaves a present value, returns the value, and touches only the routed bucket |
| ConcurrentMaps.ConcurrentMap.Write | search-server/concurrent_map.h:19-25 | writing through `ref_to_value` changes only that key's value, in its bucket |
| ConcurrentMaps.ConcurrentMap.BuildOrdinaryMap | search-server/concurrent_map.h:46-58 | the union of the buckets is exactly the map's contents, and the buckets are unchanged |
| Server.StopWordsSpec | search-server/search_server.h:130-139 | stop words are accepted iff all are valid. They are then the non-empty given words, and a failure is `invalid_argument` |
| Server.SearchSequential | search-server/search_server.h:244-281 | the sequential search loops compute `FindAllSequential` |
| Server.SortTop | search-server/search_server.h:149-164 | the sort and `resize` compute `Top` |
| Server.CreditWord | search-server/search_server.h:253-260 | the inner loop over a word's postings adds that word |
| Server.EraseWord | search-server/search_server.h:269-272 | the erase loop removes the word's posted ids |
| Server.MaterializeAscending | search-server/search_server.h:275-281 | the push-back loop over the relevance map builds `Materialize` |
| Server.AddTo | search-server/search_server.h:302 | `document_to_relevance[id].ref_to_value += x` credits `x` to `id` |
| Server.CreditWordConcurrent | search-server/search_server.h:296-304 | the parallel inner loop leaves the concurrent map holding the word added |
| Server.AnyHit | search-server/search_server.cpp:156-163 | `any_of` over the minus words tells whether one posts the document |
| Server.CopyMatching | search-server/search_server.cpp:168-178 | the copy loop keeps exactly the words posting the document, in order |
| Server.EraseFromPostings | search-server/search_server.cpp:28-31 | the erase loop removes the id from the postings of each word of the forward entry |
| Server.SearchServer.Init | search-server/search_server.cpp:73-81 | an empty, consistent server with the given stop words |
| Server.SearchServer.FromWords | search-server/search_server.h:130-139 | the container constructor throws `invalid_argument` iff a stop word is invalid, and otherwise makes a server with the non-empty words as stop words in which every index, `documents_`, `document_ids_` and the storage are empty |
| Server.SearchServer.FromText | search-server/search_server.cpp:61-71 | the text constructors use the text's tokens as the container, and on success give the same empty server |
| Server.SearchServer.SplitIntoWordsNoStop | search-server/search_server.cpp:235-251 | the loop computes `NoStopWords` of the tokens |
| Server.SearchServer.AddDocument | search-server/search_server.cpp:83-103 | a negative or present id gives `invalid_argument` and changes nothing. An invalid word gives `invalid_argument` after storing the text, and leaves the indices alone. Otherwise it adds postings and forward entries of `1/n` per occurrence and registers the document with its average rating |
| Server.SearchServer.IndexWords | search-server/search_server.cpp:95-99 | the add loop updates both indices as `AddPostings` / `AddForward` |
| Server.SearchServer.AddedFrequencies | search-server/search_server.cpp:94-99 | after an add, each word's posting for the new id is (occurrences)/(non-stop token count), and zero for stop words. Its forward entry grows by that amount, on top of any entry left by an earlier removal of the same id |
| Server.SearchServer.GetWordFrequencies | search-server/search_server.cpp:18-23 | `.at` throws `out_of_range` without a forward entry, and succeeds for any document some word posts. The words found are indexed words |
| Server.SearchServer.GetDocumentCount | search-server/search_server.cpp:143-146 | the count of live documents |
| Server.SearchServer.DocumentIds | search-server/search_server.cpp:8-16 | `begin`/`end` iterate the ids in ascending order |
| Server.SearchServer.ErasePostings | search-server/search_server.cpp:28-31 | the erase loop removes the id from the listed words' postings, and nothing else changes |
| Server.SearchServer.EraseDocument | search-server/search_server.cpp:28-35 | the remove steps after the lookup keep the invariant and erase the id from postings, `documents_` and `document_ids_` |
| Server.SearchServer.RemoveDocument | search-server/search_server.cpp:25-41 | an id without a forward entry gives `out_of_range`. Otherwise the id is erased from its words' postings, `documents_` and `document_ids_`, and the forward entry stays |
| Server.SearchServer.RemoveDocumentWith | search-server/search_server.cpp:38-59 | both policy overloads have the same final effect as `RemoveDocument` |
| Server.SearchServer.ParseQueryWithoutDeleteCopyes | search-server/search_server.cpp:322-341 | the loop computes the raw parse in token order |
| Server.SearchServer.ParseQuery | search-server/search_server.cpp:293-320 | the loop, sort, unique and erase compute `ParseQuery` |
| Server.SearchServer.FindAllDocumentsSequential | search-server/search_server.h:242-282 | the sequential branch computes `FindAllSequential` |
| Server.SearchServer.FindAllDocumentsParallel | search-server/search_server.h:284-314 | the concurrent-map branch (15 buckets) computes `FindAllParallel` |
| Server.SearchServer.TopDocumentsSpec | search-server/search_server.h:141-195 | a search fails iff the query fails to parse (`invalid_argument`). Otherwise it returns `min(found, 5)` documents with no adjacent inversion, each accepted, hit by a plus word, with the plus-word relevance and its rating. The sequential ones are also not hit by a minus word |
| Server.SearchServer.FindTopDocuments | search-server/search_server.h:141-195 | the parse, search, sort and truncate compute `TopDocuments` |
| Server.SearchServer.StatusSearchSpec | search-server/search_server.cpp:105-125 | every document a status search returns is live and has exactly the requested status |
| Server.SearchServer.FindTopDocumentsByStatus | search-server/search_server.cpp:105-125 | the status overloads search with the status filter |
| Server.SearchServer.FindTopDocumentsActual | search-server/search_server.cpp:127-141 | the status-less overloads search for `ACTUAL` |
| Server.SearchServer.MatchDocumentSequential | search-server/search_server.cpp:148-186 | the sequential overloads compute `MatchSequential` |
| Server.SearchServer.MatchDocumentParallel | search-server/search_server.cpp:188-221 | the parallel overload computes `MatchParallel` |
| Server.SearchServer.MatchDocument | search-server/search_server.cpp:182-221 | either policy gives the sequential answer |
| Requests.Record | search-server/request_queue.cpp:9-18 | after push and cut, the history holds `min(size + 1, limit)` records, the most recent ones in order with the new one last |
| Requests.RecordNoResults | search-server/request_queue.cpp:5-18 | after a request, the newest record holds its query, with `sucsess` 1 iff the search found something and 0 iff it found nothing. While the history has room, the no-result count grows by one exactly for an empty search. When it is full, the dropped oldest record's count is given up |
| Requests.RecordBounded | search-server/request_queue.cpp:15-18 | a history within the limit stays within it |
| Requests.RecordFullNoResults | search-server/request_queue.cpp:9-18 | with a full history, the no-result count after a request plus the dropped oldest record's share equals the old count plus the new record's share |
| Requests.RecordWhenFull | search-server/request_queue.cpp:54-60 | a full history drops exactly its oldest record |
| Requests.NoResultCountSpec | search-server/request_queue.cpp:41-52 | the count lies between 0 and the size. It is 0 iff every request found something, and the size iff none did |
| Requests.NoResultCountAppend | search-server/request_queue.cpp:41-52 | counting distributes over concatenation |
| Requests.RequestQueue.constructor | search-server/request_queue.cpp:1 | the constructor and member initialisers live in request_queue.h, which is not part of this model. The constructor gives the state `AddFindRequest` works on: an empty `requests_` over the given server, with the given `min_in_day_` |
| Requests.RequestQueue.AddFindRequest | search-server/request_queue.cpp:3-20 | returns the server's status search unchanged. A query that throws records nothing, and otherwise one record is added and the history trimmed |
| Requests.RequestQueue.AddFindRequestActual | search-server/request_queue.cpp:22-39 | the same with `ACTUAL`, which equals the status overload with `ACTUAL` |
| Requests.RequestQueue.Push | search-server/request_queue.cpp:9-18 | push-back then cut gives `Record` |
| Requests.RequestQueue.CutDeque | search-server/request_queue.cpp:54-60 | `pop_front` until `min_in_day_` records remain, keeping the newest in order |
| Requests.RequestQueue.GetNoResultRequests | search-server/request_queue.cpp:41-52 | the loop counts the records with `sucsess == 0` |
| Duplicates.InOrder | search-server/remove_duplicates.cpp:6 | documents are visited in strictly ascending id order, each once |
| Duplicates.SeenSnoc | search-server/remove_duplicates.cpp:8-22 | a visited document with words adds its word set to the kept sets, and an empty one adds nothing |
| Duplicates.ScanOk | search-server/remove_duplicates.cpp:7 | the scan fails (`out_of_range`) iff some visited id has no forward entry |
| Duplicates.ScanErrSticky | search-server/remove_duplicates.cpp:7 | a failure part-way fails the whole scan |
| Duplicates.ScanSpec | search-server/remove_duplicates.cpp:12-22 | an id is recorded iff it is a duplicate: it has words, and an earlier document had the same word set |
| Duplicates.FirstOccurrenceKept | search-server/remove_duplicates.cpp:12-22 | every word set present has a first occurrence that is not recorded |
| Duplicates.ScanOnlyWords | search-server/remove_duplicates.cpp:13-15 | only word sets matter, not frequency values |
| Duplicates.ScanFindsForwardEntries | search-server/remove_duplicates.cpp:7-22 | every recorded id has a forward entry |
| Duplicates.RemoveAllSpec | search-server/remove_duplicates.cpp:25-28 | removing the recorded ids erases exactly their postings under their own words, keeping every other posting and value |
| Duplicates.WordsOf | search-server/remove_duplicates.cpp:13-15 | the words of a frequency map are its keys |
| Duplicates.FindDuplicates | search-server/remove_duplicates.cpp:6-22 | the scan loop computes `Scan` over the ids in order |
| Duplicates.RemoveDuplicates | search-server/remove_duplicates.cpp:3-30 | a failing scan removes nothing. Otherwise exactly the recorded duplicates leave `documents_`, `document_ids_` and their postings, and everything else is untouched |
| Batch.CollectSpec | process_queries.cpp:5-16 | the batch succeeds iff every search does, and then holds one list per query in order |
| Batch.CollectErrSticky | process_queries.cpp:10-14 | a failing query fails the batch with its error |
| Batch.SearchesSpec | process_queries.cpp:5-16 | the result has as many lists as queries, and list `i` is the `ACTUAL` search of query `i` |
| Batch.ProcessQueries | process_queries.cpp:5-16 | the method computes `Searches` |
| Batch.FlattenAppend | process_queries.cpp:22-31 | joining respects concatenation of batches |
| Batch.FlattenLength | process_queries.cpp:24-30 | the joined length is the sum of the lengths |
| Batch.FlattenHas | process_queries.cpp:22-31 | a document is in the joined list iff it is in some list |
| Batch.Join | process_queries.cpp:22-31 | the nested push-back loops concatenate the lists in order |
| Batch.ProcessQueriesJoined | process_queries.cpp:18-32 | the joined result is the per-query lists flattened, or the batch error |
| Legacy.SplitIntoWords | search-server/main.cpp:79-97 | the character loop yields exactly the tokens of string_processing.cpp |
| Legacy.WithoutStopWordsCount | search-server/main.cpp:213-221 | stop words are dropped, and every other word keeps its number of occurrences |
| Legacy.NoStopWordsAgrees | search-server/main.cpp:213-221 | on valid input, the older filtering equals the newer one |
| Legacy.ParseQueryWordSpec | search-server/main.cpp:240-248 | the word is recovered from its parse. The minus flag is a leading `-`, the stop flag is membership, and it agrees with the newer parser wherever that one accepts |
| Legacy.ParseTokensSpec | search-server/main.cpp:255-268 | a word is a plus (minus) word iff some token parses to it as a non-stop plus (minus) word |
| Legacy.HitAscending | search-server/main.cpp:276-306 | iterating a word set in order hits a document iff some word of the set posts it |
| Legacy.LegacyServer.constructor | search-server/main.cpp:204-206 | an empty server without stop words |
| Legacy.LegacyServer.SetStopWords | search-server/main.cpp:114-118 | adds the text's tokens to the stop words, and nothing else changes |
| Legacy.LegacyServer.SplitIntoWordsNoStop | search-server/main.cpp:213-221 | the loop drops the stop words from the tokens |
| Legacy.LegacyServer.AddDocument | search-server/main.cpp:120-128 | adds `1/n` per occurrence to the postings without any id check. A present id keeps its first metadata, and the stop words are unchanged |
| Legacy.LegacyServer.ParseQueryText | search-server/main.cpp:255-268 | the loop inserts into the plus and minus sets as `ParseQuery` |
| Legacy.LegacyServer.FindAllDocuments | search-server/main.cpp:276-306 | the search over the set query computes `FindAllSequential` |
| Legacy.LegacyServer.TopDocumentsSpec | search-server/main.cpp:133-150 | `min(found, 5)` documents with no adjacent inversion, each accepted, containing a plus word and no minus word, with the plus-word relevance and its rating |
| Legacy.LegacyServer.MinusWordExcludes | search-server/main.cpp:352-363 | when "pain" is not a stop word and every indexed document contains "pain", the query "-pain python" finds nothing |
| Legacy.LegacyServer.FindTopDocuments | search-server/main.cpp:133-150 | the parse, search, sort and truncate compute `TopDocuments` |
| Legacy.LegacyServer.FindTopDocumentsByStatus | search-server/main.cpp:154-160 | the status overload filters by status equality |
| Legacy.LegacyServer.FindTopDocumentsActual | search-server/main.cpp:162-168 | the default overload filters for `ACTUAL` |
| Legacy.LegacyServer.MatchDocument | search-server/main.cpp:174-196 | the match loops compute `MatchQuery` over the set query |
| Legacy.LegacyServer.MatchDocumentSpec | search-server/main.cpp:174-196 | an unknown id is `out_of_range`. Otherwise the document's status is returned, an empty list when it contains a minus word, and else exactly the plus words it contains, sorted |
| Legacy.StopWordsNotIndexed | search-server/main.cpp:326-349 | adding a document leaves every stop word's posting list unchanged (a re-added id may already be posted there), and posts the id under every other word the document contains |
| Legacy.AddedFrequency | search-server/main.cpp:120-128 | a word's posting grows by (occurrences)/(non-stop token count), and not at all for stop words |
| Legacy.CatInTheCityWords | search-server/main.cpp:326-349 | "cat in the city" splits into four words |
| Legacy.CatInTheCityStopWords | search-server/main.cpp:326-349 | with stop words "in the" the indexed words are "cat" and "city". Without stop words, all four are indexed |

## Left out

- Floating point: term frequencies are exact reals, and the IDF's `log` is an uninterpreted
  function. The numeric relevance values expected by the tests at
  search-server/main.cpp:461-487 are therefore not stated.
- Ranking.TopSpec: the epsilon comparator is not a strict weak ordering (see
  `Ranking.PrecedesTiesNotTransitive`), so `std::sort` has no defined result for it. The sort is modelled as an insertion sort, and only "no adjacent pair
  inverted" is claimed, not a total order.
- Concurrency: the mutexes and `lock_guard` of concurrent_map.h, and every
  `std::execution::par` algorithm. Only their sequential result is modelled. An exception
  inside the parallel `std::transform` of `ProcessQueries` would call `std::terminate`; it is
  modelled as the batch's error.
- I/O: `ReadLine`/`ReadLineWithNumber`, the `Assert`/`RUN_TEST` harness of
  search-server/main.cpp, and the `cout` of search-server/remove_duplicates.cpp:27.
- search-server/document.cpp (`operator<<`) is not part of this model.
- `string_view` lifetimes: words are modelled as strings, and `storage` as an append-only
  sequence of texts.
- Index.AverageRatingSpec: the rating sum is an unbounded integer; 32-bit overflow of the sum
  is not modelled.
- `MakeUniqueNonEmptyStrings`, request_queue.h, log_duration.h and read_input_functions.h are
  not part of this model. The stop words are the non-empty given words, and `min_in_day_` is
  a constructor parameter of `RequestQueue`.
- Requests.RequestQueue.CutDeque: requires at least `min_in_day_` records, which its callers
  guarantee. On a shorter history the C++ loop would `pop_front` an empty deque.
- Legacy.LegacyServer.MinusWordExcludes: stated for the test's query on any index where "pain"
  is not a stop word and every indexed document contains "pain". The test's one concrete
  document (id 54) is not rebuilt.
- Legacy.ParseQueryWord: the older parser reads `text[0]` of an empty word. The tokenizer
  never produces one, and the model treats it as a plus word.
- Legacy.LegacyServer.GetDocumentCount: kept as the size of `documents_`, with no contract of
  its own.
- Legacy.LegacyServer.MatchDocument: the C++ code builds the word list and then throws from
  `documents_.at` for an unknown id. The model returns `out_of_range` directly.
