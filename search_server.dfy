/** The SearchServer class: the store as fields updated in place by
    AddDocument, and the queries answered against it. */
module Search {
  import opened Errors
  import opened Tokenizer
  import opened StringSets
  import opened Ratings
  import opened Ranking
  import opened Index
  import opened QueryParser
  import opened Retrieval

  /** SearchServer */
  class SearchServer {
    const stopWords: set<string>
    var wordToDocumentFreqs: map<string, map<int, real>>
    var documents: map<int, DocumentData>
    var idIndex: seq<int>

    /** What every public operation keeps: stop words and indexed words are
        valid, no stop word is indexed, every posting belongs to a stored
        document with a frequency in (0, 1], ids are non-negative, and the
        insertion order lists each stored id once. */
    ghost predicate Valid()
      reads this
    {
      StoreInvariant(stopWords, wordToDocumentFreqs, documents, idIndex)
    }

    /** An empty server over a set of stop words already checked. */
    constructor (stops: set<string>)
      requires forall w :: w in stops ==> IsValidWord(w)
      ensures Valid() && stopWords == stops
      ensures wordToDocumentFreqs == map[] && documents == map[] && idIndex == []
    {
      stopWords := stops;
      wordToDocumentFreqs := map[];
      documents := map[];
      idIndex := [];
    }

    /** IsStopWord */
    predicate IsStopWord(w: string) {
      w in stopWords
    }

    /** GetDocumentCount: the number of stored documents, which is also the
        number of positions in the insertion order. */
    function GetDocumentCount(): (n: nat)
      reads this
      requires Valid()
      ensures n == |idIndex|
    {
      |documents|
    }

    /** GetDocumentId: the id added at position `index`, or IndexOutOfRange. */
    function GetDocumentId(index: int): (r: Result<int>)
      reads this
      requires Valid()
      ensures r.Ok? <==> 0 <= index < GetDocumentCount()
      ensures r.Err? ==> r.error == IndexOutOfRange
      ensures r.Ok? ==> r.value in documents && r.value == idIndex[index]
    {
      if 0 <= index < |idIndex| then Ok(idIndex[index]) else Err(IndexOutOfRange)
    }

    /** SplitIntoWordsNoStop: every word is checked before stop words are
        dropped. */
    method SplitIntoWordsNoStop(text: string) returns (r: Result<seq<string>>)
      ensures r == DocumentWords(text, stopWords)
    {
      var tokens := SplitIntoWords(text);
      var words: seq<string> := [];
      for i := 0 to |tokens|
        invariant FirstInvalid(tokens) >= i
        invariant words == WithoutStopWords(tokens[..i], stopWords)
      {
        FirstInvalidStep(tokens, i);
        if !IsValidWord(tokens[i]) {
          return Err(InvalidDocumentWord(tokens[i]));
        }
        WithoutStopWordsStep(tokens, i, stopWords);
        if !IsStopWord(tokens[i]) {
          words := words + [tokens[i]];
        }
      }
      assert tokens[..|tokens|] == tokens;
      r := Ok(words);
    }

    /** AddDocument: the id is checked for a duplicate, then for a negative
        value, then the words for control characters; only then does
        anything change. */
    method AddDocument(id: int, text: string, status: DocumentStatus, ratings: seq<int>)
      returns (r: Outcome)
      requires Valid()
      modifies this
      ensures Valid()
      ensures id in old(documents) ==> r == Fail(DuplicateId)
      ensures id !in old(documents) && id < 0 ==> r == Fail(NegativeId)
      ensures id !in old(documents) && id >= 0 ==>
        r == (if DocumentWords(text, stopWords).Err?
              then Fail(DocumentWords(text, stopWords).error) else Pass)
      ensures r.Fail? ==>
        wordToDocumentFreqs == old(wordToDocumentFreqs) && documents == old(documents)
        && idIndex == old(idIndex)
      ensures r.Pass? ==>
        var words := DocumentWords(text, stopWords).value;
        && wordToDocumentFreqs == Posted(old(wordToDocumentFreqs), words, id, Share(words))
        && documents == old(documents)[id := DocumentData(ComputeAverageRating(ratings), status)]
        && idIndex == old(idIndex) + [id]
      ensures r.Pass? ==>
        GetDocumentCount() == old(|documents|) + 1 && GetDocumentId(GetDocumentCount() - 1) == Ok(id)
    {
      if id in documents {
        return Fail(DuplicateId);
      }
      if id < 0 {
        return Fail(NegativeId);
      }
      var split := SplitIntoWordsNoStop(text);
      if split.Err? {
        return Fail(split.error);
      }
      var words := split.value;
      var share := Share(words);
      ghost var index0 := wordToDocumentFreqs;
      for i := 0 to |words|
        invariant wordToDocumentFreqs == Posted(index0, words[..i], id, share)
        invariant documents == old(documents) && idIndex == old(idIndex)
      {
        PostedStep(index0, words, i, id, share);
        wordToDocumentFreqs := AddOccurrence(wordToDocumentFreqs, words[i], id, share);
      }
      assert words[..|words|] == words;
      var data := DocumentData(ComputeAverageRating(ratings), status);
      StoreInvariantAfterAdd(stopWords, index0, documents, idIndex, id, words, data);
      documents := documents[id := data];
      idIndex := idIndex + [id];
      r := Pass;
    }

    /** ParseQuery: each word of the text is parsed in turn into the sets. */
    method ParseQuery(text: string) returns (r: Result<Query>)
      ensures r == ParsedQuery(text, stopWords)
    {
      var tokens := SplitIntoWords(text);
      var query := EmptyQuery;
      for i := 0 to |tokens|
        invariant Sorted(query.plus) && Sorted(query.minus)
        invariant ParseWords(tokens, EmptyQuery, stopWords) == ParseWords(tokens[i..], query, stopWords)
      {
        assert tokens[i..][0] == tokens[i] && tokens[i..][1..] == tokens[i + 1..];
        var word := ParseQueryWord(tokens[i], stopWords);
        if word.Err? {
          return Err(word.error);
        }
        var qw := word.value;
        if !qw.isStop {
          if qw.isMinus {
            query := query.(minus := Insert(query.minus, qw.data));
          } else {
            query := query.(plus := Insert(query.plus, qw.data));
          }
        }
      }
      r := Ok(query);
    }

    /** FindAllDocuments: relevance is accumulated for every document the
        predicate accepts that has a plus-word, documents with a minus-word
        are erased, and the rest are listed in ascending id order. */
    method FindAllDocuments(q: Query, pred: DocumentPredicate, ln: real -> real)
      returns (r: seq<Document>)
      requires Valid()
      ensures r == AllDocuments(wordToDocumentFreqs, documents, q, pred, ln)
    {
      var relevance := PlusRelevance(q, pred, ln);
      relevance := EraseMinusWords(q, relevance);
      ghost var candidates := CandidateIds(wordToDocumentFreqs, documents, q, pred);
      forall id
        ensures id in relevance.Keys <==> id in candidates
      {
        if id in relevance {
          assert IsCandidate(wordToDocumentFreqs, documents, q, pred, id);
        }
      }
      assert relevance.Keys == candidates;
      r := Collect(relevance);
      CollectedAllDocuments(wordToDocumentFreqs, documents, q, pred, ln, relevance, r);
    }

    /** The last loop of FindAllDocuments: the relevance map is visited in
        ascending id order and each entry becomes a Document with the
        stored rating. */
    method Collect(relevance: map<int, real>) returns (r: seq<Document>)
      requires forall id :: id in relevance ==> id in documents
      ensures Ascending(Ids(r))
      ensures forall id :: id in relevance <==> id in Ids(r)
      ensures forall k :: 0 <= k < |r| ==>
        r[k].id in relevance && r[k] == Document(r[k].id, relevance[r[k].id], documents[r[k].id].rating)
    {
      r := [];
      var remaining := relevance.Keys;
      while remaining != {}
        invariant remaining <= relevance.Keys
        invariant forall k :: 0 <= k < |r| ==>
          r[k].id in relevance && r[k].id !in remaining
          && r[k] == Document(r[k].id, relevance[r[k].id], documents[r[k].id].rating)
        invariant Ascending(Ids(r))
        invariant forall k, x :: 0 <= k < |r| && x in remaining ==> r[k].id < x
        invariant forall x :: x in relevance && x !in remaining ==> x in Ids(r)
        decreases |remaining|
      {
        var id := Least(remaining);
        ghost var before := r;
        r := r + [Document(id, relevance[id], documents[id].rating)];
        assert Ids(r) == Ids(before) + [id];
        assert forall k :: 0 <= k < |before| ==> r[k] == before[k];
        remaining := remaining - {id};
      }
    }

    /** The plus-word loop of FindAllDocuments: for each plus-word that is
        indexed, each document that holds it and that the predicate accepts
        gains term frequency times inverse document frequency. */
    method PlusRelevance(q: Query, pred: DocumentPredicate, ln: real -> real)
      returns (relevance: map<int, real>)
      requires Valid()
      ensures forall id :: id in relevance <==>
        id in documents && pred(id, documents[id].status, documents[id].rating)
        && ContainsAnyOf(wordToDocumentFreqs, q.plus, id)
      ensures forall id :: id in relevance ==>
        relevance[id] == Relevance(wordToDocumentFreqs, |documents|, q.plus, id, ln)
    {
      relevance := map[];
      for i := 0 to |q.plus|
        invariant forall id :: id in relevance <==>
          id in documents && pred(id, documents[id].status, documents[id].rating)
          && ContainsAnyOf(wordToDocumentFreqs, q.plus[..i], id)
        invariant forall id :: id in relevance ==>
          relevance[id] == Relevance(wordToDocumentFreqs, |documents|, q.plus[..i], id, ln)
      {
        var w := q.plus[i];
        assert q.plus[..i + 1] == q.plus[..i] + [w];
        assert q.plus[..i + 1][..i] == q.plus[..i];
        ContainsAnyOfSnoc(wordToDocumentFreqs, q.plus[..i], w);
        if w in wordToDocumentFreqs {
          relevance := AddWordRelevance(w, pred, ln, q.plus[..i], relevance);
        }
      }
      assert q.plus[..|q.plus|] == q.plus;
    }

    /** One pass of the plus-word loop: every document that holds `w` and
        that the predicate accepts gains the word's contribution. */
    method AddWordRelevance(w: string, pred: DocumentPredicate, ln: real -> real,
                            ghost prior: seq<string>, relevance: map<int, real>)
      returns (updated: map<int, real>)
      requires HasPostings(wordToDocumentFreqs) && w in wordToDocumentFreqs
      requires forall id :: id in wordToDocumentFreqs[w] ==> id in documents
      requires forall id :: id in relevance <==>
        id in documents && pred(id, documents[id].status, documents[id].rating)
        && ContainsAnyOf(wordToDocumentFreqs, prior, id)
      requires forall id :: id in relevance ==>
        relevance[id] == Relevance(wordToDocumentFreqs, |documents|, prior, id, ln)
      ensures forall id :: id in updated <==>
        id in documents && pred(id, documents[id].status, documents[id].rating)
        && (ContainsAnyOf(wordToDocumentFreqs, prior, id) || Contains(wordToDocumentFreqs, w, id))
      ensures forall id :: id in updated ==>
        updated[id] == Relevance(wordToDocumentFreqs, |documents|, prior, id, ln)
          + Contribution(wordToDocumentFreqs, |documents|, w, id, ln)
    {
      updated := relevance;
      var postings := wordToDocumentFreqs[w];
      var idf := InverseDocumentFreq(wordToDocumentFreqs, |documents|, w, ln);
      var todo := postings.Keys;
      assert postings.Keys - todo == {};
      while todo != {}
        invariant todo <= postings.Keys
        invariant RelevanceSoFar(wordToDocumentFreqs, documents, pred, ln, prior, w, postings.Keys - todo, updated)
        decreases |todo|
      {
        NonEmptyIds(todo);
        var id :| id in todo;
        ghost var before := updated;
        var document := documents[id];
        if pred(id, document.status, document.rating) {
          var current := if id in updated then updated[id] else 0.0;
          updated := updated[id := current + Weight(postings[id], idf)];
        }
        RelevanceSoFarStep(wordToDocumentFreqs, documents, pred, ln, prior, w, postings.Keys - todo, before, id, updated);
        assert postings.Keys - (todo - {id}) == (postings.Keys - todo) + {id};
        todo := todo - {id};
      }
      RelevanceSoFarDone(wordToDocumentFreqs, documents, pred, ln, prior, w, updated);
    }

    /** The minus-word loop of FindAllDocuments: every document that holds
        an indexed minus-word is erased. */
    method EraseMinusWords(q: Query, relevance: map<int, real>) returns (kept: map<int, real>)
      requires Valid()
      ensures forall id :: id in kept <==>
        id in relevance && !ContainsAnyOf(wordToDocumentFreqs, q.minus, id)
      ensures forall id :: id in kept ==> kept[id] == relevance[id]
    {
      kept := relevance;
      for j := 0 to |q.minus|
        invariant forall id :: id in kept <==>
          id in relevance && !ContainsAnyOf(wordToDocumentFreqs, q.minus[..j], id)
        invariant forall id :: id in kept ==> kept[id] == relevance[id]
      {
        var w := q.minus[j];
        assert q.minus[..j + 1] == q.minus[..j] + [w];
        ContainsAnyOfSnoc(wordToDocumentFreqs, q.minus[..j], w);
        if w in wordToDocumentFreqs {
          var postings := wordToDocumentFreqs[w];
          var todo := postings.Keys;
          while todo != {}
            invariant todo <= postings.Keys
            invariant forall id :: id in kept <==>
              id in relevance && !ContainsAnyOf(wordToDocumentFreqs, q.minus[..j], id)
              && !(id in postings && id !in todo)
            invariant forall id :: id in kept ==> kept[id] == relevance[id]
            decreases |todo|
          {
            NonEmptyIds(todo);
            var id :| id in todo;
            kept := kept - {id};
            todo := todo - {id};
          }
        }
      }
      assert q.minus[..|q.minus|] == q.minus;
    }

    /** FindTopDocuments with a predicate: the query is parsed, the
        candidates are collected, ranked and cut to the first five. */
    method FindTopDocuments(rawQuery: string, pred: DocumentPredicate, ln: real -> real)
      returns (r: Result<seq<Document>>)
      requires Valid()
      ensures r == TopDocuments(stopWords, wordToDocumentFreqs, documents, rawQuery, pred, ln)
    {
      var parsed := ParseQuery(rawQuery);
      if parsed.Err? {
        return Err(parsed.error);
      }
      var matched := FindAllDocuments(parsed.value, pred, ln);
      matched := SortByRank(matched);
      if |matched| > MaxResultDocumentCount {
        matched := matched[..MaxResultDocumentCount];
      }
      r := Ok(matched);
    }

    /** FindTopDocuments with a status: the documents with that status. */
    method FindTopDocumentsByStatus(rawQuery: string, status: DocumentStatus, ln: real -> real)
      returns (r: Result<seq<Document>>)
      requires Valid()
      ensures r == TopDocuments(stopWords, wordToDocumentFreqs, documents, rawQuery, StatusIs(status), ln)
    {
      r := FindTopDocuments(rawQuery, StatusIs(status), ln);
    }

    /** FindTopDocuments with the query alone: the Actual documents. */
    method FindTopDocumentsActual(rawQuery: string, ln: real -> real)
      returns (r: Result<seq<Document>>)
      requires Valid()
      ensures r == TopDocuments(stopWords, wordToDocumentFreqs, documents, rawQuery, StatusIs(Actual), ln)
    {
      r := FindTopDocumentsByStatus(rawQuery, Actual, ln);
    }

    /** MatchDocument: a parse error first; then the plus-words indexed for
        the document, in ascending order, or none when a minus-word is
        indexed for it; an unknown id fails only after that. */
    method MatchDocument(rawQuery: string, id: int) returns (r: Result<(seq<string>, DocumentStatus)>)
      requires Valid()
      ensures ParsedQuery(rawQuery, stopWords).Err? ==>
        r == Err(ParsedQuery(rawQuery, stopWords).error)
      ensures ParsedQuery(rawQuery, stopWords).Ok? && id !in documents ==> r == Err(DocumentNotFound)
      ensures ParsedQuery(rawQuery, stopWords).Ok? && id in documents ==>
        r.Ok? && r.value.1 == documents[id].status
      ensures r.Ok? ==>
        var q := ParsedQuery(rawQuery, stopWords).value;
        var matched := r.value.0;
        && Sorted(matched)
        && (ContainsAnyOf(wordToDocumentFreqs, q.minus, id) ==> matched == [])
        && (!ContainsAnyOf(wordToDocumentFreqs, q.minus, id) ==>
              forall w :: w in matched <==> w in q.plus && Contains(wordToDocumentFreqs, w, id))
    {
      var parsed := ParseQuery(rawQuery);
      if parsed.Err? {
        return Err(parsed.error);
      }
      var q := parsed.value;
      var matched: seq<string> := [];
      for i := 0 to |q.plus|
        invariant matched == MatchedWords(wordToDocumentFreqs, q.plus[..i], id)
      {
        var w := q.plus[i];
        assert q.plus[..i + 1][..i] == q.plus[..i];
        if w in wordToDocumentFreqs && id in wordToDocumentFreqs[w] {
          matched := matched + [w];
        }
      }
      assert q.plus[..|q.plus|] == q.plus;
      MatchedWordsSorted(wordToDocumentFreqs, q.plus, id);
      var i := 0;
      while i < |q.minus|
        invariant 0 <= i <= |q.minus|
        invariant matched == MatchedWords(wordToDocumentFreqs, q.plus, id)
        invariant !ContainsAnyOf(wordToDocumentFreqs, q.minus[..i], id)
      {
        var w := q.minus[i];
        assert q.minus[..i + 1] == q.minus[..i] + [w];
        ContainsAnyOfSnoc(wordToDocumentFreqs, q.minus[..i], w);
        if w in wordToDocumentFreqs && id in wordToDocumentFreqs[w] {
          assert w in q.minus;
          matched := [];
          break;
        }
        i := i + 1;
      }
      assert i == |q.minus| ==> q.minus[..i] == q.minus;
      if id !in documents {
        return Err(DocumentNotFound);
      }
      r := Ok((matched, documents[id].status));
    }
  }

  /** The constructor from a collection of stop words: the first word with
      a control character fails it; otherwise the server starts empty with
      exactly those stop words. */
  method NewSearchServer(words: seq<string>) returns (r: Result<SearchServer>)
    ensures r.Err? <==> exists i :: 0 <= i < |words| && !IsValidWord(words[i])
    ensures r.Err? ==> r.error == InvalidStopWord(words[FirstInvalid(words)])
    ensures r.Ok? ==> fresh(r.value) && r.value.Valid()
    ensures r.Ok? ==> forall w :: w in r.value.stopWords <==> w in words
    ensures r.Ok? ==>
      r.value.wordToDocumentFreqs == map[] && r.value.documents == map[] && r.value.idIndex == []
  {
    var stops: set<string> := {};
    for i := 0 to |words|
      invariant forall j :: 0 <= j < i ==> IsValidWord(words[j])
      invariant forall w :: w in stops <==> w in words[..i]
    {
      if !IsValidWord(words[i]) {
        FirstInvalidAt(words, i);
        return Err(InvalidStopWord(words[i]));
      }
      assert words[..i + 1] == words[..i] + [words[i]];
      stops := stops + {words[i]};
    }
    assert words[..|words|] == words;
    var server := new SearchServer(stops);
    r := Ok(server);
  }

  /** The constructor from a text: its words are the stop words. */
  method NewSearchServerFromText(text: string) returns (r: Result<SearchServer>)
    ensures r.Err? <==> exists i :: 0 <= i < |Words(text)| && !IsValidWord(Words(text)[i])
    ensures r.Err? ==> r.error == InvalidStopWord(Words(text)[FirstInvalid(Words(text))])
    ensures r.Ok? ==> fresh(r.value) && r.value.Valid()
    ensures r.Ok? ==> forall w :: w in r.value.stopWords <==> w in Words(text)
    ensures r.Ok? ==>
      r.value.wordToDocumentFreqs == map[] && r.value.documents == map[] && r.value.idIndex == []
  {
    var words := SplitIntoWords(text);
    r := NewSearchServer(words);
  }
}
