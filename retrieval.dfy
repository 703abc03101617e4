/** What a search returns: the candidates of FindAllDocuments with their
    relevance, the ranked top documents of FindTopDocuments and the matched
    words of MatchDocument, as functions of the store and the query. */
module Retrieval {
  import opened Errors
  import opened StringSets
  import opened Ranking
  import opened Index
  import opened QueryParser

  /** The filter FindTopDocuments applies: (id, status, rating) -> keep? */
  type DocumentPredicate = (int, DocumentStatus, int) -> bool

  /** The predicate of the FindTopDocuments overload that takes a status. */
  function StatusIs(wanted: DocumentStatus): DocumentPredicate {
    (id: int, status: DocumentStatus, rating: int) => status == wanted
  }

  /** Word `w` is indexed for document `id`. */
  predicate Contains(index: map<string, map<int, real>>, w: string, id: int) {
    w in index && id in index[w]
  }

  /** Some word of `ws` is indexed for document `id`. */
  predicate ContainsAnyOf(index: map<string, map<int, real>>, ws: seq<string>, id: int) {
    exists w :: w in ws && Contains(index, w, id)
  }

  /** A document holds a word of `ws + [w]` when it holds one of `ws` or `w`. */
  lemma ContainsAnyOfSnoc(index: map<string, map<int, real>>, ws: seq<string>, w: string)
    ensures forall id :: ContainsAnyOf(index, ws + [w], id) <==>
      ContainsAnyOf(index, ws, id) || Contains(index, w, id)
  {
    forall id | ContainsAnyOf(index, ws + [w], id)
      ensures ContainsAnyOf(index, ws, id) || Contains(index, w, id)
    {
      var v :| v in ws + [w] && Contains(index, v, id);
      if v != w {
        assert v in ws;
      }
    }
    forall id | ContainsAnyOf(index, ws, id)
      ensures ContainsAnyOf(index, ws + [w], id)
    {
      var v :| v in ws && Contains(index, v, id);
      assert v in ws + [w];
    }
    assert w in ws + [w];
  }

  /** Every indexed word has at least one posting. */
  predicate HasPostings(index: map<string, map<int, real>>) {
    forall w :: w in index ==> index[w] != map[]
  }

  /** ComputeWordInverseDocumentFreq: `ln` of the number of documents over
      the number of documents that contain `w`. */
  function InverseDocumentFreq(index: map<string, map<int, real>>, documentCount: nat, w: string,
                               ln: real -> real): real
    requires w in index && index[w] != map[]
  {
    ln(documentCount as real / |index[w]| as real)
  }

  /** term_freq * inverse_document_freq: what one word adds to a
      document's relevance. */
  function Weight(tf: real, idf: real): real {
    tf * idf
  }

  /** The relevance a document collects from the words `ws`: the sum of
      term frequency times inverse document frequency over those of the
      words that are indexed for it. */
  function Relevance(index: map<string, map<int, real>>, documentCount: nat, ws: seq<string>,
                     id: int, ln: real -> real): real
    requires HasPostings(index)
  {
    if ws == [] then 0.0
    else
      Relevance(index, documentCount, ws[..|ws| - 1], id, ln) + Contribution(index, documentCount, ws[|ws| - 1], id, ln)
  }

  /** What word `w` adds to the relevance of document `id`: its term
      frequency times its inverse document frequency, or nothing when the
      document does not hold it. */
  function Contribution(index: map<string, map<int, real>>, documentCount: nat, w: string,
                        id: int, ln: real -> real): real
    requires HasPostings(index)
  {
    if Contains(index, w, id) then Weight(index[w][id], InverseDocumentFreq(index, documentCount, w, ln)) else 0.0
  }

  /** The relevance map while the postings of plus-word `w` are visited:
      the accepted documents holding a word of `prior` or visited so far
      (`done`), each with the relevance of `prior` plus, once visited, the
      contribution of `w`. */
  ghost predicate RelevanceSoFar(index: map<string, map<int, real>>, documents: map<int, DocumentData>,
                                 pred: DocumentPredicate, ln: real -> real, prior: seq<string>,
                                 w: string, done: set<int>, relevance: map<int, real>)
    requires HasPostings(index)
  {
    && (forall id :: id in relevance <==>
          id in documents && pred(id, documents[id].status, documents[id].rating)
          && (ContainsAnyOf(index, prior, id) || id in done))
    && (forall id :: id in relevance ==>
          relevance[id] == Relevance(index, |documents|, prior, id, ln)
            + (if id in done then Contribution(index, |documents|, w, id, ln) else 0.0))
  }

  /** Visiting one more posting of `w`: an accepted document gains the
      contribution of `w`, added to what it had or to 0. */
  lemma RelevanceSoFarStep(index: map<string, map<int, real>>, documents: map<int, DocumentData>,
                           pred: DocumentPredicate, ln: real -> real, prior: seq<string>,
                           w: string, done: set<int>, relevance: map<int, real>, id: int,
                           next: map<int, real>)
    requires HasPostings(index) && Contains(index, w, id) && id !in done && id in documents
    requires RelevanceSoFar(index, documents, pred, ln, prior, w, done, relevance)
    requires pred(id, documents[id].status, documents[id].rating) ==>
      next == relevance[id := (if id in relevance then relevance[id] else 0.0)
                             + Weight(index[w][id], InverseDocumentFreq(index, |documents|, w, ln))]
    requires !pred(id, documents[id].status, documents[id].rating) ==> next == relevance
    ensures RelevanceSoFar(index, documents, pred, ln, prior, w, done + {id}, next)
  {
    if id !in relevance && pred(id, documents[id].status, documents[id].rating) {
      RelevanceWithoutWords(index, |documents|, prior, id, ln);
    }
  }

  /** Once every posting of `w` is visited, the accepted documents holding
      a word of `prior` or `w` carry the relevance of `prior` plus that of `w`. */
  lemma RelevanceSoFarDone(index: map<string, map<int, real>>, documents: map<int, DocumentData>,
                           pred: DocumentPredicate, ln: real -> real, prior: seq<string>,
                           w: string, relevance: map<int, real>)
    requires HasPostings(index) && w in index
    requires RelevanceSoFar(index, documents, pred, ln, prior, w, index[w].Keys, relevance)
    ensures forall id :: id in relevance <==>
      id in documents && pred(id, documents[id].status, documents[id].rating)
      && (ContainsAnyOf(index, prior, id) || Contains(index, w, id))
    ensures forall id :: id in relevance ==>
      relevance[id] == Relevance(index, |documents|, prior, id, ln) + Contribution(index, |documents|, w, id, ln)
  {
  }

  /** A document none of whose words is among `ws` gets no relevance from them. */
  lemma {:induction false} RelevanceWithoutWords(index: map<string, map<int, real>>, documentCount: nat,
                                                 ws: seq<string>, id: int, ln: real -> real)
    requires HasPostings(index)
    requires !ContainsAnyOf(index, ws, id)
    ensures Relevance(index, documentCount, ws, id, ln) == 0.0
  {
    if ws != [] {
      assert forall w :: w in ws[..|ws| - 1] ==> w in ws;
      RelevanceWithoutWords(index, documentCount, ws[..|ws| - 1], id, ln);
      assert ws[|ws| - 1] in ws;
    }
  }

  /** A stored document the predicate accepts, with a plus-word and without
      a minus-word: what FindAllDocuments returns. */
  predicate IsCandidate(index: map<string, map<int, real>>, documents: map<int, DocumentData>,
                        q: Query, pred: DocumentPredicate, id: int)
  {
    && id in documents
    && pred(id, documents[id].status, documents[id].rating)
    && ContainsAnyOf(index, q.plus, id)
    && !ContainsAnyOf(index, q.minus, id)
  }

  /** The candidate set, by definition: the ids IsCandidate accepts. */
  function CandidateIds(index: map<string, map<int, real>>, documents: map<int, DocumentData>,
                        q: Query, pred: DocumentPredicate): set<int>
  {
    set id | id in documents && IsCandidate(index, documents, q, pred, id)
  }

  predicate IsMinimum(m: int, s: set<int>) {
    m in s && forall x :: x in s ==> m <= x
  }

  /** A non-empty set of ids has an element. */
  lemma NonEmptyIds(s: set<int>)
    requires s != {}
    ensures exists x :: x in s
  {
    if forall x :: x !in s {
      assert false;
    }
  }

  lemma {:induction false} MinimumExists(s: set<int>)
    requires s != {}
    ensures exists m :: IsMinimum(m, s)
    decreases |s|
  {
    NonEmptyIds(s);
    var x :| x in s;
    if s - {x} == {} {
      assert s == {x};
      assert IsMinimum(x, s);
    } else {
      MinimumExists(s - {x});
      var m :| IsMinimum(m, s - {x});
      var least := if x < m then x else m;
      forall y | y in s
        ensures least <= y
      {
        if y != x {
          assert y in s - {x};
        }
      }
      assert IsMinimum(least, s);
    }
  }

  /** The ids of `s` in ascending order: the order in which std::map visits
      its keys. */
  ghost function AscendingIds(s: set<int>): (r: seq<int>)
    ensures forall x :: x in r <==> x in s
    ensures Ascending(r)
    decreases |s|
  {
    if s == {} then []
    else
      MinimumExists(s);
      var m :| IsMinimum(m, s);
      var others := s - {m};
      var rest := AscendingIds(others);
      assert forall k :: 0 <= k < |rest| ==> m < rest[k] by {
        forall k | 0 <= k < |rest|
          ensures m < rest[k]
        {
          assert rest[k] in others;
        }
      }
      [m] + rest
  }

  /** The least id of `s`: the next key a std::map iteration visits. */
  method Least(s: set<int>) returns (m: int)
    requires s != {}
    ensures IsMinimum(m, s)
  {
    MinimumExists(s);
    m :| IsMinimum(m, s);
  }

  /** AscendingIds starts with the least id. */
  lemma AscendingIdsFirst(s: set<int>, m: int)
    requires IsMinimum(m, s)
    ensures AscendingIds(s) == [m] + AscendingIds(s - {m})
  {
    var r := AscendingIds(s);
    assert r[0] in s;
    assert m in r;
    assert forall k :: 0 <= k < |r| ==> r[0] <= r[k];
  }

  /** AscendingIds lists each id of `s` once. */
  lemma {:induction false} AscendingIdsLength(s: set<int>)
    ensures |AscendingIds(s)| == |s|
    decreases |s|
  {
    if s != {} {
      MinimumExists(s);
      var m :| IsMinimum(m, s);
      AscendingIdsFirst(s, m);
      AscendingIdsLength(s - {m});
    }
  }

  /** FindAllDocuments: every candidate, in ascending id order, with its
      relevance from the plus-words and its rating. */
  ghost function AllDocuments(index: map<string, map<int, real>>, documents: map<int, DocumentData>,
                              q: Query, pred: DocumentPredicate, ln: real -> real): seq<Document>
    requires HasPostings(index)
  {
    var ids := AscendingIds(CandidateIds(index, documents, q, pred));
    assert forall k :: 0 <= k < |ids| ==> ids[k] in ids;
    seq(|ids|, k requires 0 <= k < |ids| =>
      Document(ids[k], Relevance(index, |documents|, q.plus, ids[k], ln), documents[ids[k]].rating))
  }

  predicate Ascending(a: seq<int>) {
    forall i, j :: 0 <= i < j < |a| ==> a[i] < a[j]
  }

  /** A strictly increasing sequence starts with its least element, and its
      tail holds every other element. */
  lemma AscendingHead(a: seq<int>)
    requires Ascending(a) && a != []
    ensures forall x :: x in a ==> a[0] <= x
    ensures forall x :: x in a[1..] <==> x in a && x != a[0]
    ensures Ascending(a[1..])
  {
    forall x | x in a && x != a[0]
      ensures x in a[1..]
    {
      var i :| 0 <= i < |a| && a[i] == x;
      assert a[1..][i - 1] == x;
    }
  }

  /** Two strictly increasing sequences with the same elements are equal. */
  lemma {:induction false} AscendingUnique(a: seq<int>, b: seq<int>)
    requires Ascending(a) && Ascending(b)
    requires forall x :: x in a <==> x in b
    ensures a == b
  {
    if a != [] && b != [] {
      AscendingHead(a);
      AscendingHead(b);
      assert a[0] in b && b[0] in a;
      AscendingUnique(a[1..], b[1..]);
      assert a == [a[0]] + a[1..] && b == [b[0]] + b[1..];
    } else if a != [] {
      FirstIn(a);
      assert false;
    } else if b != [] {
      FirstIn(b);
      assert false;
    }
  }

  /** The ids of a list of documents, in order. */
  function Ids(r: seq<Document>): seq<int> {
    seq(|r|, k requires 0 <= k < |r| => r[k].id)
  }

  /** A list of the candidates in strictly ascending id order, each with
      its relevance and rating, is AllDocuments. */
  lemma CollectedAllDocuments(index: map<string, map<int, real>>, documents: map<int, DocumentData>,
                              q: Query, pred: DocumentPredicate, ln: real -> real,
                              relevance: map<int, real>, r: seq<Document>)
    requires HasPostings(index)
    requires relevance.Keys == CandidateIds(index, documents, q, pred)
    requires forall id :: id in relevance ==>
      id in documents && relevance[id] == Relevance(index, |documents|, q.plus, id, ln)
    requires Ascending(Ids(r))
    requires forall id :: id in relevance <==> id in Ids(r)
    requires forall k :: 0 <= k < |r| ==>
      r[k].id in relevance && r[k] == Document(r[k].id, relevance[r[k].id], documents[r[k].id].rating)
    ensures r == AllDocuments(index, documents, q, pred, ln)
  {
    var ids := Ids(r);
    var all := AscendingIds(CandidateIds(index, documents, q, pred));
    AscendingUnique(ids, all);
    var expected := AllDocuments(index, documents, q, pred, ln);
    assert |expected| == |r|;
    forall k | 0 <= k < |r|
      ensures expected[k] == r[k]
    {
      assert all[k] == ids[k] == r[k].id;
    }
  }

  /** FindTopDocuments: the parse error, or the candidates ranked and
      capped at MaxResultDocumentCount. */
  ghost function TopDocuments(stopWords: set<string>, index: map<string, map<int, real>>,
                              documents: map<int, DocumentData>, rawQuery: string,
                              pred: DocumentPredicate, ln: real -> real): Result<seq<Document>>
    requires HasPostings(index)
  {
    match ParsedQuery(rawQuery, stopWords)
    case Err(e) => Err(e)
    case Ok(q) => Ok(Truncate(SortByRank(AllDocuments(index, documents, q, pred, ln))))
  }

  /** Each document of AllDocuments is a candidate with its relevance and
      rating, every candidate appears, and the ids are distinct. */
  lemma AllDocumentsFacts(index: map<string, map<int, real>>, documents: map<int, DocumentData>,
                          q: Query, pred: DocumentPredicate, ln: real -> real)
    requires HasPostings(index)
    ensures var all := AllDocuments(index, documents, q, pred, ln);
      && |all| == |CandidateIds(index, documents, q, pred)|
      && DistinctIds(all)
      && (forall d :: d in all ==>
            && IsCandidate(index, documents, q, pred, d.id)
            && d.relevance == Relevance(index, |documents|, q.plus, d.id, ln)
            && d.rating == documents[d.id].rating)
      && (forall id :: IsCandidate(index, documents, q, pred, id) ==> exists d :: d in all && d.id == id)
  {
    var all := AllDocuments(index, documents, q, pred, ln);
    var ids := AscendingIds(CandidateIds(index, documents, q, pred));
    AscendingIdsLength(CandidateIds(index, documents, q, pred));
    assert |all| == |ids|;
    forall k | 0 <= k < |all|
      ensures all[k].id == ids[k] && IsCandidate(index, documents, q, pred, ids[k])
      ensures all[k].relevance == Relevance(index, |documents|, q.plus, ids[k], ln)
      ensures all[k].rating == documents[ids[k]].rating
    {
      assert ids[k] in ids;
    }
    forall d | d in all
      ensures IsCandidate(index, documents, q, pred, d.id)
      ensures d.relevance == Relevance(index, |documents|, q.plus, d.id, ln)
      ensures d.rating == documents[d.id].rating
    {
      var k :| 0 <= k < |all| && all[k] == d;
    }
    forall id | IsCandidate(index, documents, q, pred, id)
      ensures exists d :: d in all && d.id == id
    {
      assert id in CandidateIds(index, documents, q, pred);
      var k :| 0 <= k < |ids| && ids[k] == id;
      assert all[k] in all;
    }
  }

  /** What FindTopDocuments promises: at most five documents with distinct
      ids, each a stored document the predicate accepts that holds a
      plus-word and no minus-word, with its relevance and rating, no two
      neighbours in the wrong order, and every candidate when there are at
      most five of them. */
  lemma TopDocumentsProperties(stopWords: set<string>, index: map<string, map<int, real>>,
                               documents: map<int, DocumentData>, idIndex: seq<int>,
                               rawQuery: string, pred: DocumentPredicate, ln: real -> real)
    requires StoreInvariant(stopWords, index, documents, idIndex)
    requires ParsedQuery(rawQuery, stopWords).Ok?
    ensures var q := ParsedQuery(rawQuery, stopWords).value;
      var r := TopDocuments(stopWords, index, documents, rawQuery, pred, ln).value;
      var candidates := CandidateIds(index, documents, q, pred);
      && |r| == (if |candidates| < MaxResultDocumentCount then |candidates| else MaxResultDocumentCount)
      && DistinctIds(r)
      && NoInversion(r)
      && (forall d :: d in r ==>
            && IsCandidate(index, documents, q, pred, d.id)
            && d.relevance == Relevance(index, |documents|, q.plus, d.id, ln)
            && d.rating == documents[d.id].rating)
      && (|candidates| <= MaxResultDocumentCount ==>
            forall id :: id in candidates <==> exists d :: d in r && d.id == id)
  {
    var q := ParsedQuery(rawQuery, stopWords).value;
    var all := AllDocuments(index, documents, q, pred, ln);
    AllDocumentsFacts(index, documents, q, pred, ln);
    var sorted := SortByRank(all);
    SortByRankDistinct(all);
    assert forall d :: d in sorted <==> d in all by {
      forall d
        ensures d in sorted <==> d in all
      {
        assert d in sorted <==> d in multiset(sorted);
        assert d in all <==> d in multiset(all);
      }
    }
    var r := Truncate(sorted);
    assert r == TopDocuments(stopWords, index, documents, rawQuery, pred, ln).value;
    assert forall d :: d in r ==> d in sorted;
  }

  /** The top five are the best ranked: when the candidates' relevances are
      pairwise equal or at least MaximumError apart, no candidate left out
      of the result ranks before one kept in it. */
  lemma TopDocumentsBest(stopWords: set<string>, index: map<string, map<int, real>>,
                         documents: map<int, DocumentData>,
                         rawQuery: string, pred: DocumentPredicate, ln: real -> real)
    requires HasPostings(index)
    requires ParsedQuery(rawQuery, stopWords).Ok?
    requires var q := ParsedQuery(rawQuery, stopWords).value;
      forall id1, id2 :: IsCandidate(index, documents, q, pred, id1) && IsCandidate(index, documents, q, pred, id2) ==>
        var r1, r2 := Relevance(index, |documents|, q.plus, id1, ln), Relevance(index, |documents|, q.plus, id2, ln);
        r1 == r2 || Abs(r1 - r2) >= MaximumError
    ensures var q := ParsedQuery(rawQuery, stopWords).value;
      var r := TopDocuments(stopWords, index, documents, rawQuery, pred, ln).value;
      forall d, id :: d in r && IsCandidate(index, documents, q, pred, id) && id !in Ids(r) ==>
        !RanksBefore(Document(id, Relevance(index, |documents|, q.plus, id, ln), documents[id].rating), d)
  {
    var q := ParsedQuery(rawQuery, stopWords).value;
    var all := AllDocuments(index, documents, q, pred, ln);
    AllDocumentsFacts(index, documents, q, pred, ln);
    forall a, b | a in all && b in all
      ensures a.relevance == b.relevance || Abs(a.relevance - b.relevance) >= MaximumError
    {
      assert IsCandidate(index, documents, q, pred, a.id) && IsCandidate(index, documents, q, pred, b.id);
    }
    var r := Truncate(SortByRank(all));
    forall d, id | d in r && IsCandidate(index, documents, q, pred, id) && id !in Ids(r)
      ensures !RanksBefore(Document(id, Relevance(index, |documents|, q.plus, id, ln), documents[id].rating), d)
    {
      DroppedCandidate(index, documents, q, pred, ln, r, id);
      TopOfSortedIsBest(all, d, Document(id, Relevance(index, |documents|, q.plus, id, ln), documents[id].rating));
    }
  }

  /** A candidate whose id is not among those of `r` is a document of
      AllDocuments that `r` does not hold. */
  lemma DroppedCandidate(index: map<string, map<int, real>>, documents: map<int, DocumentData>,
                         q: Query, pred: DocumentPredicate, ln: real -> real, r: seq<Document>, id: int)
    requires HasPostings(index)
    requires IsCandidate(index, documents, q, pred, id) && id !in Ids(r)
    ensures var e := Document(id, Relevance(index, |documents|, q.plus, id, ln), documents[id].rating);
      e in AllDocuments(index, documents, q, pred, ln) && e !in r
  {
    AllDocumentsFacts(index, documents, q, pred, ln);
    var all := AllDocuments(index, documents, q, pred, ln);
    var e :| e in all && e.id == id;
    assert e == Document(id, Relevance(index, |documents|, q.plus, id, ln), documents[id].rating);
    forall k | 0 <= k < |r|
      ensures r[k] != e
    {
      assert Ids(r)[k] in Ids(r);
    }
  }

  /** The plus-words of `ws` indexed for document `id`, in their order. */
  function MatchedWords(index: map<string, map<int, real>>, ws: seq<string>, id: int): (r: seq<string>)
    ensures forall w :: w in r <==> w in ws && Contains(index, w, id)
  {
    if ws == [] then []
    else
      var init := MatchedWords(index, ws[..|ws| - 1], id);
      var w := ws[|ws| - 1];
      assert ws == ws[..|ws| - 1] + [w];
      if Contains(index, w, id) then init + [w] else init
  }

  /** The matched words keep the ascending order of the plus-words. */
  lemma {:induction false} MatchedWordsSorted(index: map<string, map<int, real>>, ws: seq<string>, id: int)
    requires Sorted(ws)
    ensures Sorted(MatchedWords(index, ws, id))
  {
    if ws != [] {
      var init := ws[..|ws| - 1];
      var w := ws[|ws| - 1];
      MatchedWordsSorted(index, init, id);
      var m := MatchedWords(index, init, id);
      if Contains(index, w, id) {
        forall k | 0 <= k < |m|
          ensures Less(m[k], w)
        {
          assert m[k] in m;
          var j :| 0 <= j < |init| && init[j] == m[k];
          assert ws[j] == m[k];
        }
        assert MatchedWords(index, ws, id) == m + [w];
      }
    }
  }
}
