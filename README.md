# SearchServer in Dafny

A model of `SearchServer.cpp`, a small in-memory full-text search server.
The server is built with a set of stop words. `AddDocument` stores documents
under non-negative ids, each with a status and an average rating, and builds
an inverted index that maps each word to the documents holding it and their
term frequency. The server then answers two kinds of query:

- `FindTopDocuments` ranks documents by TF-IDF relevance. It takes plus-words
  and `-`minus-words and an optional filter, and keeps at most five documents.
- `MatchDocument` lists the plus-words a document holds. The list is empty
  when the document holds a minus-word.

Modules, one per part of the program:

- `Errors`: every `throw` of the source as a constructor of `Error`, with the
  `Result` and `Outcome` wrappers.
- `Tokenizer`: `SplitIntoWords` (a loop proved equal to the `Words` function)
  and `IsValidWord`. Words are proved non-empty and free of spaces, and they
  lose nothing of the text: joining them gives back the text without its
  spaces, and splitting a join of words gives back the words.
- `StringSets`: `std::string`'s order and `std::set<std::string>` as a strictly
  increasing sequence.
- `Ranking`: `Document`, the epsilon comparator, the sort and the cut to
  `MAX_RESULT_DOCUMENT_COUNT`.
- `Ratings`: `ComputeAverageRating` with C++ division, which rounds toward zero.
- `Index`: `DocumentStatus`, `DocumentData`, the term-frequency postings
  `AddDocument` builds, `SplitIntoWordsNoStop`'s outcome and the store
  invariant.
- `QueryParser`: `ParseQueryWord` and `ParseQuery`.
- `Retrieval`: relevance, the candidates of `FindAllDocuments`, the result of
  `FindTopDocuments` as a specification function, and the matched words of
  `MatchDocument`.
- `Search`: the `SearchServer` class. Its fields `stopWords`,
  `wordToDocumentFreqs`, `documents` and `idIndex` are updated in place. Its
  methods are loops proved against the functions above.

Every `throw` becomes an `Err` or `Fail` result. The constructors can throw,
so they are the factory methods `NewSearchServer` and
`NewSearchServerFromText`, which return `Result<SearchServer>`. `std::log` is
the parameter `ln: real -> real`.

## Model

| member | source | states |
|---|---|---|
| Tokenizer.IsValidWord | SearchServer.cpp:225-232 | definition: a word is valid exactly when none of its characters lies below ' ' (codes 0x00-0x1F) |
| Tokenizer.FirstInvalid | SearchServer.cpp:94-99 | the position of the first invalid word: every word before it is valid, and it is invalid unless it is the end |
| Tokenizer.FirstInvalidStep | SearchServer.cpp:244-249 | scanning from a point no later than the first invalid word, a valid word lies before it and an invalid one is it |
| Tokenizer.FirstInvalidAt | SearchServer.cpp:94-99 | an invalid word with only valid words before it is the first invalid word |
| Tokenizer.Words | SearchServer.cpp:34-58 | definition: the maximal runs of non-space characters of a text, in order; the reference SplitIntoWords is proved against |
| Tokenizer.SplitIntoWords | SearchServer.cpp:34-58 | the character loop yields `Words(text)`; every word is non-empty and holds no space; the words written together are the text without its spaces |
| Tokenizer.WordsWellFormed | SearchServer.cpp:34-58 | every word of a text is non-empty and has no space in it |
| Tokenizer.WordsConcat | SearchServer.cpp:34-58 | the words of a text, written together, give back the text without its spaces |
| Tokenizer.WordsOfJoin | SearchServer.cpp:34-58 | splitting non-empty, space-free words joined by single spaces gives back those words (round trip) |
| StringSets.Less | SearchServer.cpp:304-305 | definition: `std::string`'s `operator<`, under which the query's sets are ordered: the first differing character decides, and a proper prefix comes first |
| StringSets.LessIrreflexive | SearchServer.cpp:304-305 | no string orders before itself |
| StringSets.LessTransitive | SearchServer.cpp:304-305 | the string order is transitive |
| StringSets.LessTotal | SearchServer.cpp:304-305 | any two different strings are ordered one way or the other |
| StringSets.Insert | SearchServer.cpp:319-323 | `set::insert` keeps the sequence strictly increasing and its members are the old members plus the new word |
| StringSets.SortedDistinct | SearchServer.cpp:304-305 | a strictly increasing sequence never holds a word twice |
| Ranking.RanksBefore | SearchServer.cpp:142-150 | definition: the sort comparator, higher rating first when relevances differ by less than 1e-6, higher relevance first otherwise |
| Ranking.RanksBeforeAsymmetric | SearchServer.cpp:141-150 | the comparator never ranks two documents each before the other |
| Ranking.RanksBeforeNotWeakOrdering | SearchServer.cpp:141-150 | the comparator is not a strict weak ordering: equivalence within 1e-6 is not transitive |
| Ranking.SeparatedNegativelyTransitive | SearchServer.cpp:142-150 | when relevances are pairwise equal or at least 1e-6 apart, "not ranked before" is transitive on them |
| Ranking.NoInversionOrdered | SearchServer.cpp:141-150 | where "not ranked before" is transitive, a list with no adjacent inversion has no inversion between any two positions |
| Ranking.InsertByRank | SearchServer.cpp:141-150 | inserting into a list without adjacent inversions keeps it so; the result is the old multiset plus the document |
| Ranking.SortByRank | SearchServer.cpp:141-150 | the sorted list is a permutation of the input, and no document is directly followed by one the comparator ranks before it |
| Ranking.Truncate | SearchServer.cpp:151-154 | the result is a prefix of the input of length min(n, 5), and it keeps the absence of inversions and of repeated ids |
| Ranking.TopOfSortedIsBest | SearchServer.cpp:141-154 | with separated relevances, a document cut off after the first five does not rank before any kept one |
| Ranking.InsertByRankDistinct | SearchServer.cpp:141-150 | inserting a document with a new id keeps the ids distinct |
| Ranking.SortByRankDistinct | SearchServer.cpp:141-150 | sorting keeps the ids distinct |
| Ratings.Sum | SearchServer.cpp:265 | definition: `accumulate` from 0 over the ratings |
| Ratings.TruncDiv | SearchServer.cpp:266 | int division rounds toward zero: the remainder has the sign of the dividend and is smaller than the divisor |
| Ratings.ComputeAverageRating | SearchServer.cpp:259-267 | 0 for no ratings; otherwise the sum over the count, rounded toward zero |
| Ratings.SumBounds | SearchServer.cpp:265 | n ratings in [lo, hi] sum to a value in [n*lo, n*hi] |
| Ratings.AverageWithinRange | SearchServer.cpp:259-267 | the average of non-empty ratings lies between their least and greatest value |
| Ratings.AverageOfPositiveRatings | SearchServer.cpp:259-267 | ratings {7, 2, 7} average to 5 |
| Ratings.AverageOfMixedRatings | SearchServer.cpp:259-267 | ratings {-7, 2} average to -2 (toward zero), not to the floored -3 |
| Index.Share | SearchServer.cpp:120 | definition: `inv_word_count`, one over the number of the document's words (0 for a document without words) |
| Index.Repeated | SearchServer.cpp:121-124 | definition: the value c executions of `+= inv_word_count` leave in an entry that started at 0 |
| Index.AddOccurrence | SearchServer.cpp:121-124 | definition: one `word_to_document_freqs_[word][document_id] += inv_word_count`, starting from 0 for a new entry |
| Index.Posted | SearchServer.cpp:121-124 | definition: the index after the word loop has applied AddOccurrence to each word in turn |
| Index.Count | SearchServer.cpp:121-124 | the count of a word is at most the length, and is positive exactly when the word occurs |
| Index.PostedStep | SearchServer.cpp:121-124 | indexing one more word of the document is one more `+= inv_word_count` on its entry |
| Index.PostedAt | SearchServer.cpp:121-124 | after the word loop, each word of the document has the entry `share * occurrences` for its id; every other entry is as before |
| Index.RepeatedIsProduct | SearchServer.cpp:120-124 | c additions of `inv_word_count` equal c times it |
| Index.TermFrequencyInRange | SearchServer.cpp:120-124 | a word's term frequency times the word count is its number of occurrences, and lies in (0, 1] |
| Index.TermFrequencyExample | SearchServer.cpp:120-124 | in "fluffy cat fluffy tail" the term frequency of "fluffy" is 1/2 |
| Index.PostedEntries | SearchServer.cpp:119-124 | indexing a new document adds exactly its words' entries for its id, with their term frequency in (0, 1], and changes no other entry |
| Index.WithoutStopWords | SearchServer.cpp:250-253 | exactly the non-stop words are kept, each as often as it occurs |
| Index.WithoutStopWordsStep | SearchServer.cpp:250-253 | one more token is kept exactly when it is not a stop word |
| Index.WithoutStopWordsAppend | SearchServer.cpp:250-253 | the kept words keep the tokens' order: filtering a concatenation is concatenating the filtered parts |
| Index.WithoutStopWordsKeepsAll | SearchServer.cpp:250-253 | tokens without stop words are kept whole, in their order |
| Index.DocumentWords | SearchServer.cpp:241-256 | fails exactly when a word is invalid, with the first such word; otherwise the valid, non-empty words that are not stop words |
| Index.StopWordsOnlyDocument | SearchServer.cpp:241-256 | a document made only of valid stop words yields no words, not an error |
| Index.StoreInvariantAfterAdd | SearchServer.cpp:106-127 | adding a document with a new, non-negative id and valid non-stop words keeps the store invariant |
| Index.IndexWordsAfterPostings | SearchServer.cpp:121-124 | after indexing, every indexed word is valid, is not a stop word and has a posting |
| Index.PostingsAfterPostings | SearchServer.cpp:121-125 | after indexing, every posting belongs to a stored document and holds a frequency in (0, 1] |
| Index.OrderAfterAdd | SearchServer.cpp:125-126 | appending the new id keeps the insertion order a list of the stored ids without repeats |
| QueryParser.ParsedQuery | SearchServer.cpp:309-328 | definition: ParseQuery as the fold of ParseQueryWord over the words of the text; the reference the ParseQuery loop is proved against |
| QueryParser.ParseQueryWord | SearchServer.cpp:278-299 | the three errors in the source's order; the minus flag is set exactly for a leading '-', which is stripped; the stop flag is set for stop words |
| QueryParser.AddQueryWord | SearchServer.cpp:315-325 | adding a word keeps both query sets sorted |
| QueryParser.ParseWords | SearchServer.cpp:309-328 | a successful parse yields sorted plus- and minus-sets |
| QueryParser.ParseWordsSucceeds | SearchServer.cpp:309-328 | the parse succeeds exactly when every word passes ParseQueryWord |
| QueryParser.ParseWordsFirstError | SearchServer.cpp:309-328 | a failed parse reports the error of the first word that fails, all words before it having passed |
| QueryParser.ParseWordsContents | SearchServer.cpp:309-328 | the plus-set holds exactly the unmarked non-stop words and the minus-set exactly the '-'-marked non-stop words |
| QueryParser.ParsedQueryContents | SearchServer.cpp:309-328 | ParseQuery on a text: the error conditions and the exact, ordered contents of both sets, with no stop word in either |
| Retrieval.Contains | SearchServer.cpp:187-191 | definition: the word is indexed and its postings hold the document, the two `count` tests MatchDocument and FindAllDocuments make |
| Retrieval.StatusIs | SearchServer.cpp:161-165 | definition: the filter that keeps exactly the documents whose status is the given one |
| Retrieval.InverseDocumentFreq | SearchServer.cpp:331-334 | definition: `ln` of the document count over the number of documents holding the word |
| Retrieval.Weight | SearchServer.cpp:353 | definition: `term_freq * inverse_document_freq`, the amount one posting adds to a document's relevance |
| Retrieval.Contribution | SearchServer.cpp:353 | definition: term frequency times inverse document frequency when the document holds the word, otherwise 0 |
| Retrieval.Relevance | SearchServer.cpp:347-355 | definition: a document's relevance is the sum of the contributions of the plus-words |
| Retrieval.ContainsAnyOfSnoc | SearchServer.cpp:341-346 | a document holds a word of `ws + [w]` exactly when it holds one of `ws` or `w` |
| Retrieval.RelevanceSoFarStep | SearchServer.cpp:348-354 | visiting one more posting adds the word's tf times idf to an accepted document, starting from 0 for a new one, and leaves the rest as they were |
| Retrieval.RelevanceSoFarDone | SearchServer.cpp:348-354 | once all postings of a plus-word are visited, each accepted document holding an earlier plus-word or this one carries their summed contributions |
| Retrieval.RelevanceWithoutWords | SearchServer.cpp:340-356 | a document that holds none of the words gets relevance 0 from them |
| Retrieval.CandidateIds | SearchServer.cpp:337-368 | definition: the candidates are exactly the stored documents the filter accepts that hold a plus-word and no minus-word |
| Retrieval.MinimumExists | SearchServer.cpp:371 | a non-empty set of ids has a least element |
| Retrieval.AscendingIds | SearchServer.cpp:371 | `std::map` visits its keys once each, in strictly ascending order |
| Retrieval.Least | SearchServer.cpp:371 | the next key visited is the least one left |
| Retrieval.AscendingIdsLength | SearchServer.cpp:371 | the ascending order lists as many ids as the set holds |
| Retrieval.AscendingHead | SearchServer.cpp:371 | a strictly increasing list starts with its least id, and its tail holds all the others |
| Retrieval.AscendingIdsFirst | SearchServer.cpp:371 | the ascending order starts with the least id |
| Retrieval.AscendingUnique | SearchServer.cpp:371 | two strictly increasing id lists with the same members are equal |
| Retrieval.AllDocuments | SearchServer.cpp:337-378 | definition: the candidates in ascending id order, each with its relevance and stored rating; the reference FindAllDocuments is proved against |
| Retrieval.CollectedAllDocuments | SearchServer.cpp:370-377 | the documents listed in ascending id order with their relevance and rating are `AllDocuments` |
| Retrieval.AllDocumentsFacts | SearchServer.cpp:337-378 | FindAllDocuments returns every candidate once, each with its TF-IDF relevance and its stored rating |
| Retrieval.TopDocuments | SearchServer.cpp:135-156 | definition: the parse error, or AllDocuments sorted by the comparator and cut to five |
| Retrieval.TopDocumentsProperties | SearchServer.cpp:135-156 | at most five distinct candidates with their relevance and rating, and no adjacent pair in the wrong order; when there are at most five candidates, all of them |
| Retrieval.DroppedCandidate | SearchServer.cpp:151-154 | a candidate whose id is absent from a result list is an AllDocuments entry that the list does not hold |
| Retrieval.TopDocumentsBest | SearchServer.cpp:134-156 | the top five are the best: when candidate relevances are pairwise equal or at least 1e-6 apart, no candidate left out ranks before a kept one |
| Retrieval.MatchedWords | SearchServer.cpp:185-195 | a word is matched exactly when it is a plus-word indexed for the document |
| Retrieval.MatchedWordsSorted | SearchServer.cpp:185-195 | the matched words keep the ascending order of the plus-set |
| Search.SearchServer.constructor | SearchServer.cpp:92-102 | an empty store over the given valid stop words satisfies the invariant |
| Search.SearchServer.IsStopWord | SearchServer.cpp:235-238 | definition: a word is a stop word exactly when it is in the stop-word set |
| Search.SearchServer.GetDocumentCount | SearchServer.cpp:174-177 | the number of stored documents equals the length of the insertion order |
| Search.SearchServer.GetDocumentId | SearchServer.cpp:129-132 | the id added at position `index` (a stored id), or IndexOutOfRange exactly when `index` is outside [0, count) |
| Search.SearchServer.SplitIntoWordsNoStop | SearchServer.cpp:241-256 | the loop's outcome is `DocumentWords`: the first invalid word's error, or the words without stop words |
| Search.SearchServer.AddDocument | SearchServer.cpp:106-127 | DuplicateId, then NegativeId, then the first invalid word, each leaving the store unchanged; otherwise the postings, data and insertion order of the new document; the invariant is kept |
| Search.SearchServer.ParseQuery | SearchServer.cpp:309-328 | the parse loop yields `ParsedQuery` |
| Search.SearchServer.FindAllDocuments | SearchServer.cpp:337-378 | the result is `AllDocuments`: every candidate once, in ascending id order, with its relevance and rating |
| Search.SearchServer.PlusRelevance | SearchServer.cpp:340-356 | the accepted documents holding a plus-word, each mapped to its summed TF-IDF |
| Search.SearchServer.AddWordRelevance | SearchServer.cpp:347-355 | one plus-word adds its tf times idf to every accepted document holding it and adds those documents |
| Search.SearchServer.EraseMinusWords | SearchServer.cpp:358-368 | exactly the documents holding a minus-word are erased; the others keep their relevance |
| Search.SearchServer.Collect | SearchServer.cpp:370-377 | one Document per relevance entry, in strictly ascending id order, with the stored rating |
| Search.SearchServer.FindTopDocuments | SearchServer.cpp:135-156 | the result is `TopDocuments`: the parse error, or the candidates sorted and cut to five |
| Search.SearchServer.FindTopDocumentsByStatus | SearchServer.cpp:158-166 | the filter keeps the documents whose status is the given one |
| Search.SearchServer.FindTopDocumentsActual | SearchServer.cpp:168-171 | the status is ACTUAL |
| Search.SearchServer.MatchDocument | SearchServer.cpp:180-209 | the parse error first, then DocumentNotFound; otherwise the document's status and its plus-words in ascending order, or none when it holds a minus-word |
| Search.NewSearchServer | SearchServer.cpp:91-102 | fails exactly when some stop word is invalid, naming the first; otherwise a fresh, empty server whose stop words are exactly the given words |
| Search.NewSearchServerFromText | SearchServer.cpp:87-89 | the stop words are the words of the text, under the same conditions |

## Left out

- ReadLine, ReadLineWithNumber, PrintDocument and main (SearchServer.cpp:17-31, 382-414) do console I/O. PrintRange.cpp is not part of this model.
- Floating point: term frequency and relevance are exact `real`s, and relevances are compared with the same 1e-6 tolerance. Rounding of `double` is not modelled.
- `std::log` is the parameter `ln`, about which nothing is assumed.
- Ranking.SortByRank: `std::sort` with a comparator that is not a strict weak ordering has no specified result. The model fixes one order, an insertion sort on values rather than in place. It promises only what the comparator allows: a permutation with no adjacent inversion.
- Retrieval.TopDocumentsBest: that the five kept are the best ranked is proved only when the candidates' relevances are pairwise equal or at least 1e-6 apart. Otherwise the comparator is not a strict weak ordering, `std::sort`'s result is unspecified, and so is which five are kept.
- Ratings.ComputeAverageRating: 32-bit overflow of `accumulate` and of `int` is not modelled; sums are unbounded.
- Index.Share: for a document without words, C++ computes 1.0 / 0 and never uses it; the model uses 0.
- Tokenizer.IsValidWord: the source tests `char` bytes; the model tests Unicode characters. Characters 0x00-0x1F are refused in both, and bytes 0x80 and above are accepted in both, whether `char` is signed (they are negative) or unsigned (they are not below ' ').
- Exception messages are not kept; each `throw` site is its own `Error` constructor.
- The order in which the relevance loop visits the postings of a word is left open, because its result does not depend on it. Only the final collection loop follows `std::map`'s ascending order.
- A construction that fails returns `Err` instead of throwing out of the constructor.
- The stop words of the constructor from a collection are a `seq<string>`, standing for any iterable `StringCollection`.
- `GetDocumentCount` returns the size of `documents_`. The store invariant proves that this equals the length of `id_index_`.
