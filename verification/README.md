# cpp-search-server in Dafny

This project models the inverted-index search engine of `cpp-search-server`: a
`SearchServer` that stores documents with a rating and a status, indexes their
non-stop words with term frequencies, parses plus/minus queries, ranks documents
by TF-IDF relevance and removes documents again. It also models the small
helpers around the engine: the tokenizer, `MakeUniqueNonEmptyStrings`,
`Paginator` and `RemoveDuplicates`. The older, self-contained `SearchServer` in
`main.cpp` is modelled separately as the legacy server.

The model is functional. The server is an immutable `Index.Server` value made of
four parts:

- `documents` (id → rating and status);
- `documentIds`;
- `postings`, the word → (id → term frequency) map called `word_to_document_freqs_`;
- `wordFreqs`, its inverse.

Every operation is a pure function. Each one returns a new state, a result, or an
`Outcomes.Error`:

- `InvalidArgument` for `std::invalid_argument`;
- `OutOfRange` for `std::out_of_range`, including the one thrown by `map::at`.

`Index.Valid` is the class invariant. It requires:

- `documentIds` equals the keys of `documents`;
- ids are non-negative;
- every id in `wordFreqs` is a document;
- no stop word is indexed;
- the two frequency maps are exact inverses (`Index.Synced`).

Every transition preserves it.

Modules, in dependency order:

| module | file | models |
|---|---|---|
| `Outcomes` | outcomes.dfy | exceptions as a result type |
| `Documents` | documents.dfy | `Document`, `DocumentStatus`, document metadata, the predicate and IDF types |
| `Strings` | strings.dfy | `SplitIntoWords`, `IsValidWord`, `MakeUniqueNonEmptyStrings` |
| `Ordering` | ordering.dfy | `std::string` order, sort + unique, `std::set` iteration order |
| `Index` | index.dfy | server state, constructors, `AddDocument`, `RemoveDocument` (3 variants), accessors |
| `Queries` | queries.dfy | `ParseQueryWord`, both `ParseQuery` overloads |
| `Ranking` | ranking.dfy | relevance accumulation, minus-word exclusion, sort by relevance then rating, cap at 5 |
| `Search` | search.dfy | `MatchDocument` (seq and par), `FindAllDocuments`, `FindTopDocuments` overloads |
| `Paging` | paging.dfy | `Paginator` and `Paginate` |
| `Duplicates` | duplicates.dfy | `RemoveDuplicates` |
| `Legacy` | legacy.dfy | the `main.cpp` server |

Decisions about the model:

- **Inputs the model cannot compute.** The IDF (`std::log` of a quotient of counts) is a function parameter `Idf`, applied to the document count and the size of the word's posting map. The search predicate is a parameter `Predicate`. Term frequencies are `real`.
- **Characters.** The source treats only bytes 0x00–0x1F as invalid: its test is `c >= '\0' && c < ' '`. DEL (0x7F) passes it. Bytes at or above 0x80 are negative as a signed `char`, so `c >= '\0'` is false for them and they are valid too. The model therefore rejects exactly the characters below `' '`. Strings compare as `std::string` does, lexicographically with a proper prefix first.
- **Tokenizer.** `search_server.cpp` calls a `string_view` tokenizer whose source is not part of this model. `Strings.SplitIntoWords` models the tokenizer of `main.cpp`: it splits on `' '` only and drops empty tokens. Both servers use it.
- **Sorting.** `FindTopDocuments` is modelled with an exact comparator: relevance descending, then rating descending. Documents equal on both keep ascending id order.

Two places where the code does something other than a plain reading of the
design, modelled as the code does it:

- **Empty posting maps stay.** Removing the last document of a word leaves an empty posting map under that word. `Index.AddThenRemove` states that the posting keys grow by the new words.
- **Stop-word-only documents are never removed.** Such a document gets metadata but no `word_freqs` entry, so `RemoveDocument` ignores it (`Index.StopOnlyDocumentSticks`).

Also, a word may be a plus word and a minus word of the same query. The source
never checks this; the minus word wins.

## Model

| member | source | states |
|---|---|---|
| Strings.SplitTokens | search-server/main.cpp:31-50 | the tokenizer loop with the pending word as accumulator: every token is non-empty and holds no space, and the tokens laid end to end are the pending word followed by the input with its spaces deleted |
| Strings.SplitIntoWords | search-server/main.cpp:31-50 | `SplitIntoWords` yields only non-empty, space-free tokens whose concatenation is the input with all spaces deleted; with `SplitSpace`, `SplitIntoWordsSpace` and `SplitNoSpace` this fixes the split points: the tokens are exactly the maximal runs of non-space characters |
| Strings.SplitSpace | search-server/main.cpp:35-41 | a space always closes the pending word: the loop over `a`, a space, then `b` gives the tokens of `a` (pending word included) followed by the tokens of `b` read with an empty pending word |
| Strings.SplitIntoWordsSpace | search-server/main.cpp:31-50 | the tokens of `a + " " + b` are the tokens of `a` followed by those of `b`, so no token spans a space |
| Strings.SplitNoSpace | search-server/main.cpp:31-50 | a text without spaces is a single token, or no token when it is empty |
| Strings.SplitIntoWordsExample | search-server/main.cpp:31-50 | `"ewaeae awea "` splits into exactly `["ewaeae", "awea"]`; a trailing space adds no empty token |
| Strings.SplitJoin | search-server/main.cpp:31-50 | only `' '` separates tokens: splitting the space-joined list of any tokens gives back exactly those tokens (inverse of the tokenizer) |
| Strings.TokensValid | search-server/search_server.cpp:130-134 | all tokens of a text are free of control characters iff the whole text is, so validating tokens and validating the text agree |
| Strings.MakeUniqueNonEmptyStrings | search-server/string_processing.h:8-17 | the result holds no empty string, every non-empty input element, only input elements, and no more elements than the input |
| Ordering.InsertSorted | search-server/main.cpp:282-288 | `std::set::insert` on a strictly sorted list: stays strictly sorted, gains exactly the inserted word, grows by at most one |
| Ordering.SortUnique | search-server/search_server.cpp:190-193 | `sort` then `unique`/`erase`: strictly sorted, same elements as the input, no longer than it |
| Ordering.SortedUnique | search-server/search_server.cpp:190-193 | two strictly sorted lists with the same elements are equal, so sort + unique has exactly one possible result |
| Ordering.BelowTransitive | search-server/search_server.cpp:190-193 | the string order used by `sort` is transitive |
| Ordering.BelowTotal | search-server/search_server.cpp:190-193 | the string order is total on distinct strings |
| Ordering.Keep | search-server/search_server.cpp:81-88 | the filtering loop keeps exactly the elements that pass, with their multiplicities, and keeps a strictly sorted input strictly sorted |
| Ordering.Ascending | search-server/search_server.cpp:50-68 | iteration over `document_ids_`: strictly increasing, exactly the set's elements, one per element |
| Index.NewServer | search-server/search_server.h:114-121 | construction succeeds iff no stop word has a control character; the stop words are exactly the non-empty distinct inputs; the new server is empty and valid |
| Index.NewServerFromText | search-server/search_server.cpp:3-13 | the text constructors succeed iff the text has no control character, and otherwise fail with invalid_argument; the stop words are exactly its tokens and the new server is empty and valid |
| Index.GetDocumentCount | search-server/search_server.cpp:45-47 | the number of stored documents: on a valid server the size of the id set that `begin()`/`end()` enumerate, and 0 exactly when no document is stored |
| Index.DocumentIds | search-server/search_server.cpp:50-68 | `begin`/`end` enumerate exactly the stored documents in increasing id order, as many as `GetDocumentCount` |
| Index.GetWordFrequencies | search-server/search_server.cpp:219-228 | empty for an id without an entry; on a valid server it is the id's column of the inverted index, with equal frequencies |
| Index.TruncDiv | search-server/search_server.cpp:149-158 | C++ `int` division of the sum by the count: the quotient rounds toward zero for either sign |
| Index.ComputeAverageRating | search-server/search_server.cpp:149-158 | 0 for no ratings; otherwise the quotient sum / count truncated toward zero, characterised by bounds (the legacy server in `main.cpp` computes the same value and uses this function) |
| Index.SplitIntoWordsNoStop | search-server/search_server.cpp:136-147 | fails iff some token has a control character; otherwise the tokens minus stop words, with each word's count kept |
| Index.RepeatFraction | search-server/search_server.cpp:25-29 | adding 1/n to a frequency c times gives c/n |
| Index.PostWords | search-server/search_server.cpp:25-28 | after `word_to_document_freqs_[word][id] += inc` for every word, the id is posted exactly under the words, each with count × inc, and other ids are untouched |
| Index.FreqWords | search-server/search_server.cpp:25-29 | the same for `word_freqs[id][word] += inc` |
| Index.AddDocument | search-server/search_server.cpp:15-32 | fails with invalid_argument iff the id is negative or present or the text has a control character, with no state change; otherwise records the metadata, grows the count by one, adds the id, and keeps the server valid |
| Index.AddDocumentFrequencies | search-server/search_server.cpp:25-29 | after a successful add, a word is posted for the id iff it is a non-stop token; `postings[w][id] == wordFreqs[id][w] == count(w)/n`; no stop word becomes a key; other documents' entries and frequency views are unchanged |
| Index.AddDocumentFrequenciesSumToOne | search-server/search_server.cpp:25-29 | a new document with at least one non-stop word has a frequency view keyed by exactly its distinct non-stop words, and those frequencies sum to 1 (each is count/n, and the counts sum to n) |
| Index.FreqsSumToOne | search-server/search_server.cpp:25-29 | frequencies of count/n over a non-empty list of n words sum to exactly 1 over any duplicate-free listing of its distinct words |
| Index.StopOnlyDocumentSticks | search-server/search_server.cpp:230-234 | a document of stop words only is stored without a `word_freqs` entry, so `RemoveDocument` leaves the server unchanged and the document counted |
| Index.RemoveDocument | search-server/search_server.cpp:230-244 | a no-op without a `word_freqs` entry; otherwise removes the id from `documents_`, `document_ids_`, `word_freqs` and every posting map, keeps the posting keys, leaves every other id's postings as they were, keeps the server valid, and `GetWordFrequencies(id)` becomes empty |
| Index.RemoveDocumentWith | search-server/search_server.cpp:246-281 | the `seq` and `par` removal overloads erase the id word by word in any order that covers the document's words, and every such order ends in the state of the plain `RemoveDocument` |
| Index.AddThenRemove | search-server/search_server.cpp:15-32 | adding a document with at least one non-stop word and then removing it restores documents, ids, `word_freqs`, the count, which (word, id) postings exist and every posting value; the posting keys keep the document's new words |
| Queries.ParseQueryWord | search-server/search_server.cpp:160-175 | rejects exactly an empty token, a bare `-`, a token starting `--`, and a token with a control character; otherwise strips one leading `-` (setting the minus flag), leaves a non-empty word not starting with `-`, and flags stop words |
| Queries.ParseWordText | search-server/search_server.cpp:160-175 | parsing the token of a well-formed query word gives that word back (round trip) |
| Queries.CollectWords | search-server/search_server.cpp:198-213 | the parsing loop fails iff some token fails; its plus words are exactly the non-stop tokens without `-`, and its minus words are exactly the non-stop words whose `-` form is a token |
| Queries.ParseQueryUnsorted | search-server/search_server.cpp:198-213 | `ParseQuery(bool, text)`: the same accept/reject rule and word membership, over the tokens of the text |
| Queries.ParseQuery | search-server/search_server.cpp:177-196 | same rejection rule; plus and minus words strictly sorted, without stop words, each taken from a query token |
| Queries.ParseQuerySorts | search-server/search_server.cpp:190-196 | the sorted query is the unsorted one with each list sorted and de-duplicated, whatever sort produced it |
| Ranking.AccumulatePlus | search-server/search_server.h:203-213 | after the plus-word loop, an id has a score iff a plus word reaches it and the predicate accepts it; the score adds its relevance, the sum of term frequency × IDF over the plus words containing it |
| Ranking.EraseMinus | search-server/search_server.h:215-223 | after the minus-word loop, exactly the ids no minus word reaches keep their scores, unchanged |
| Ranking.Scores | search-server/search_server.h:203-223 | after both loops the score map holds exactly the documents a plus word reaches with the predicate true and no minus word reaches, each with its relevance |
| Ranking.EmitAscending | search-server/search_server.h:225-229 | the result vector built from the score map lists its ids once each in increasing order, each with its score and the stored rating |
| Ranking.FindAll | search-server/search_server.h:199-230 | the result lists ids in strictly increasing order; an id appears iff a plus word reaches it with the predicate true and no minus word reaches it; each entry carries the stored rating and its relevance |
| Ranking.FindAllParallelOrder | search-server/search_server.h:233-269 | with the minus erasure run before the plus accumulation, an id appears iff a plus word reaches it and the predicate accepts it: minus words exclude nothing |
| Ranking.ParallelOrderIgnoresMinus | search-server/search_server.h:237-259 | a document that a plus word reaches with the predicate true and that a minus word also reaches is returned by the parallel phase order and not by the sequential search |
| Ranking.InsertByRank | search-server/search_server.h:128-137 | inserting into a list ordered by (relevance, rating) descending keeps it ordered and adds exactly that document |
| Ranking.SortByRank | search-server/search_server.h:128-137 | the sort yields a permutation ordered by relevance, then rating, both descending |
| Ranking.PrefixDominates | search-server/search_server.h:128-141 | after the sort, every document kept by the cut ranks at least as high as every document cut off |
| Ranking.TopQualifies | search-server/search_server.h:124-144 | every document kept by the sort and cut qualifies for the query: a plus word reaches it with the predicate true and no minus word reaches it |
| Ranking.TopDocuments | search-server/search_server.h:124-144 | sorted, at most `MAX_RESULT_DOCUMENT_COUNT` = 5 and exactly min(n, 5) documents, drawn from the input, and no dropped document ranks above a kept one |
| Search.MatchDocument | search-server/search_server.cpp:70-96 | fails iff the query is malformed (invalid_argument) or the id is unknown (out_of_range); if a minus word is in the document the word list is empty; otherwise it is exactly the plus words the document contains, strictly sorted; the status is the stored one |
| Search.MatchDocumentPar | search-server/search_server.cpp:97-124 | the parallel overload (unsorted query, filter, sort + unique) returns the same result as the sequential one |
| Search.FindAllDocuments | search-server/search_server.h:165-230 | fails iff the query is malformed; otherwise ascending ids, present iff qualifying, each with the stored rating and its relevance over the document count |
| Search.FindTopDocuments | search-server/search_server.h:124-148 | fails iff the query is malformed; otherwise at most 5 documents, ordered, drawn from `FindAllDocuments`, each qualifying, and none left out ranks above one kept |
| Search.FindTopDocumentsByStatus | search-server/search_server.h:151-157 | the status overload is `FindTopDocuments` with the predicate that accepts exactly the documents of that status, so it inherits that contract; invalid_argument iff the query is malformed; every returned document has the requested status, is reached by a plus word and by no minus word, and there are at most 5, rank-sorted |
| Search.FindTopDocumentsActual | search-server/search_server.cpp:39-43 | the default overload is the status overload with `ACTUAL`; invalid_argument iff the query is malformed; only `ACTUAL` documents, each reached by a plus word and by no minus word, at most 5, rank-sorted |
| Search.MatchedIffFound | search-server/search_server.h:199-230 | for a document the predicate accepts, `MatchDocument` returns a non-empty list iff `FindAllDocuments` returns the document |
| Paging.Paginate | search-server/paginator.h:15-35 | the pages laid end to end are the input; every page but the last has `size` elements; the last has 1..`size`; an empty range gives no pages and a non-empty one gives the ceiling of n / size (n = (pages − 1)·size + last); `size()` reports the page size |
| Duplicates.FindDuplicates | search-server/remove_duplicates.cpp:11-28 | visiting ids in ascending order, an id is scheduled iff a smaller id has exactly the same word set (frequencies ignored); every word set gets a keeper, which is a document with that set and no earlier twin |
| Duplicates.RemoveAll | search-server/remove_duplicates.cpp:29-33 | removing the scheduled ids in turn keeps the server valid and removes exactly the scheduled ids that have a `word_freqs` entry, leaving the others' metadata and frequencies untouched |
| Duplicates.RemoveDuplicates | search-server/remove_duplicates.cpp:3-34 | the scheduled ids are exactly those with an earlier twin; keepers stay; afterwards no two remaining indexed documents share a word set, and the server is valid |
| Legacy.NewLegacyServer | search-server/main.cpp:99-109 | succeeds iff every stop word, empty ones included, has no control character; stop words are the non-empty distinct inputs |
| Legacy.NewLegacyServerFromText | search-server/main.cpp:111-116 | succeeds iff the text has no control character, and otherwise fails with invalid_argument; the new server is empty and its stop words are exactly the tokens |
| Legacy.LegacyWordsNoStop | search-server/main.cpp:235-243 | the legacy `SplitIntoWordsNoStop` validates nothing: it yields exactly the tokens that are not stop words, each as many times as in the text, and never fails |
| Legacy.CheckMinus | search-server/main.cpp:84-94 | on a non-empty text, false iff the last character is `-` or two adjacent `-` occur |
| Legacy.AddDocument | search-server/main.cpp:123-135 | as written: rejects iff the id is present, or documents exist and the id is ≤ -1 or the text has a control character; otherwise stores the metadata and posts the id under exactly its non-stop tokens, other ids untouched |
| Legacy.EmptyServerAcceptsInvalid | search-server/main.cpp:123-127 | on an empty server, id -1 with a tab as text is accepted and leaves an invalid state; the checked version rejects it |
| Legacy.AddDocumentChecked | search-server/main.cpp:123-135 | the corrected add: rejects iff the id is negative or present or the text has a control character, and keeps ids non-negative, postings known and stop words unindexed |
| Legacy.CheckedAgreesWhenNonEmpty | search-server/main.cpp:123-127 | on a server with a document the as-written and corrected adds agree |
| Legacy.LegacyParseQueryWord | search-server/main.cpp:263-271 | strips one leading `-` and sets the flag, with no validation; reading the token back gives the input |
| Legacy.LegacyParseQuery | search-server/main.cpp:278-292 | the plus set is exactly the non-stop tokens without `-`, the minus set exactly the non-stop words whose `-` form is a token, both in set order |
| Legacy.LegacyFindTopDocuments | search-server/main.cpp:138-158 | fails with invalid_argument iff the raw query fails `CheckMinus` or `IsValidWord`; otherwise exactly min(n, 5) documents drawn from the legacy query's full result, ordered by relevance then rating, each qualifying, and no document left out ranks above one kept |
| Legacy.LegacyFindTopDocumentsByStatus | search-server/main.cpp:161-169 | the status overload (the default overload passes `ACTUAL`) is the predicate overload with the predicate that accepts exactly that status, so it inherits that contract; invalid_argument iff the query is rejected; only documents of the requested status, at most 5, rank-sorted |
| Legacy.LegacyMatchDocument | search-server/main.cpp:175-200 | fails iff the raw query is rejected (invalid_argument) or the id is unknown (out_of_range); the plus words the document contains in set order, cleared when a minus word is present |
| Legacy.LegacyDocumentCount | search-server/main.cpp:171-173 | the number of stored documents, 0 exactly when none is stored (the condition under which the legacy `AddDocument` skips its checks) |
| Legacy.GetDocumentId | search-server/main.cpp:204-209 | out_of_range iff index > count or index ≤ -1; otherwise the index itself, in 0..count |
| Legacy.ParsersAgree | search-server/main.cpp:278-292 | whenever the current parser accepts a query, the legacy parser yields the same plus and minus words |
| Legacy.FindTopAgrees | search-server/main.cpp:138-158 | on the same index, a query both servers accept gives the same top documents |

## Left out

- Floating point. IDF and the predicate are parameters, and term frequencies are exact reals. `std::log` and `double` rounding are not modelled.
- Ranking.AtLeast: the comparator treats relevances within 1e-6 as equal. That is not a strict weak ordering, so the model orders by exact relevance, then rating. `std::sort` leaves ties unordered; the model keeps them in ascending id order.
- Index.ComputeAverageRating: the rating sum is an unbounded integer. The source's `int` sum can overflow, which is undefined behaviour.
- The `word_` deque that owns document texts, and `string_view` lifetimes. Words are owned strings. The source appends the text to `word_` even when `AddDocument` then rejects it; that growth is not modelled.
- The parallel `FindAllDocuments` is modelled only by the phase order of its two loops (`Ranking.FindAllParallelOrder`). `ConcurrentMap`, its shards and `NUMTHREAD` are not part of this model.
- Concurrency in the `par` overloads of `RemoveDocument` and `MatchDocument`. They are modelled by their sequential end results.
- `RequestQueue`: its `AddRequest` body is not part of this model.
- I/O:
  - `ReadLine`, `ReadLineWithNumber`, `PrintDocument`, `main`;
  - the `operator<<` printers;
  - the message `RemoveDuplicates` prints for each duplicate.
- Paging.Paginate: a page size of 0 on a non-empty range never terminates in the source, and a negative one is undefined. The method therefore requires a positive size, or size 0 with an empty range. Page contents are subsequences rather than iterator pairs.
- Legacy.CheckMinus: requires a non-empty text, because the source indexes `size() - 1`. So `LegacyFindTopDocuments` and `LegacyMatchDocument` also require a non-empty raw query.
- Search.FindAllDocuments: requires every posted id to be a document (`PostingsKnown`). That is what `documents_.at` needs, and every valid server has it.

## Findings

| source | as written | input that shows it | evidently intended | confidence | as-written member | corrected member |
|---|---|---|---|---|---|---|
| search-server/main.cpp:123-127 | the id and text checks of the legacy `AddDocument` sit inside a loop over the stored documents, so they only run when there is at least one | an empty server, id -1 and text `"\t"`: the document is stored | reject a negative or repeated id and text with control characters on every call | high, not executed | Legacy.AddDocument, Legacy.EmptyServerAcceptsInvalid | Legacy.AddDocumentChecked |
| search-server/search_server.h:237-259 | the parallel `FindAllDocuments` erases minus-word ids before the plus words add their scores, so the erasure acts on an empty accumulator | one document, id 1, text "cat from"; query "cat -from": document 1 is returned | a document a minus word reaches is never returned, as in the sequential overload | high, not executed | Ranking.FindAllParallelOrder, Ranking.ParallelOrderIgnoresMinus | Ranking.FindAll |
