/** The result records of a search and the ordering FindTopDocuments
    applies to them before it keeps the first five. */
module Ranking {

  /** Document: an id, the relevance the query gave it and its rating. */
  datatype Document = Document(id: int, relevance: real, rating: int)

  /** MAX_RESULT_DOCUMENT_COUNT */
  const MaxResultDocumentCount: nat := 5

  /** Relevances closer than this are treated as equal by the comparator. */
  const MaximumError: real := 0.000001

  function Abs(x: real): real {
    if x < 0.0 then -x else x
  }

  /** The comparator handed to std::sort: higher relevance first, and when
      two relevances are within MaximumError, higher rating first. */
  predicate RanksBefore(lhs: Document, rhs: Document) {
    if Abs(lhs.relevance - rhs.relevance) < MaximumError then lhs.rating > rhs.rating
    else lhs.relevance > rhs.relevance
  }

  /** The comparator never puts two documents each before the other. It is
      not transitive, so it is not a strict weak ordering. */
  lemma RanksBeforeAsymmetric(a: Document, b: Document)
    ensures !(RanksBefore(a, b) && RanksBefore(b, a))
  {
  }

  /** Equivalence under the comparator is not transitive: with equal
      ratings, relevances 0, 8e-7 and 1.6e-6 make neighbours equivalent
      while the ends are ordered. */
  lemma RanksBeforeNotWeakOrdering()
    ensures var a, b, c := Document(1, 0.0, 0), Document(2, 0.0000008, 0), Document(3, 0.0000016, 0);
      && !RanksBefore(a, b) && !RanksBefore(b, a)
      && !RanksBefore(b, c) && !RanksBefore(c, b)
      && RanksBefore(c, a)
  {
  }

  /** No document is directly followed by one the comparator ranks before it. */
  predicate NoInversion(s: seq<Document>) {
    forall k :: 0 <= k < |s| - 1 ==> !RanksBefore(s[k + 1], s[k])
  }

  /** On the documents of `s`, "not ranked before" chains: the part of a
      strict weak ordering the comparator lacks in general. */
  predicate NegativelyTransitive(s: seq<Document>) {
    forall a, b, c :: a in s && b in s && c in s && !RanksBefore(a, b) && !RanksBefore(b, c) ==> !RanksBefore(a, c)
  }

  /** Any two relevances of `s` are equal or at least MaximumError apart. */
  predicate SeparatedRelevances(s: seq<Document>) {
    forall a, b :: a in s && b in s ==> a.relevance == b.relevance || Abs(a.relevance - b.relevance) >= MaximumError
  }

  /** With separated relevances the comparator orders by relevance, then by
      rating, and so is a strict weak ordering on `s`. */
  lemma SeparatedNegativelyTransitive(s: seq<Document>)
    requires SeparatedRelevances(s)
    ensures NegativelyTransitive(s)
  {
    forall a, b, c | a in s && b in s && c in s && !RanksBefore(a, b) && !RanksBefore(b, c)
      ensures !RanksBefore(a, c)
    {
      assert a.relevance == b.relevance || Abs(a.relevance - b.relevance) >= MaximumError;
      assert b.relevance == c.relevance || Abs(b.relevance - c.relevance) >= MaximumError;
      assert a.relevance == c.relevance || Abs(a.relevance - c.relevance) >= MaximumError;
    }
  }

  /** Where the comparator is negatively transitive, a list without
      adjacent inversions has no inversion at all. */
  lemma {:induction false} NoInversionOrdered(s: seq<Document>, i: nat, j: nat)
    requires NoInversion(s) && NegativelyTransitive(s)
    requires i < j < |s|
    ensures !RanksBefore(s[j], s[i])
    decreases j - i
  {
    if j > i + 1 {
      NoInversionOrdered(s, i, j - 1);
      assert s[j] in s && s[j - 1] in s && s[i] in s;
    }
  }

  /** Insert `x` in front of the first document it ranks before. */
  function InsertByRank(s: seq<Document>, x: Document): (r: seq<Document>)
    requires NoInversion(s)
    ensures NoInversion(r)
    ensures multiset(r) == multiset(s) + multiset{x}
    ensures |r| == |s| + 1
    ensures r[0] == x || (s != [] && r[0] == s[0])
  {
    if s == [] then [x]
    else if RanksBefore(x, s[0]) then
      RanksBeforeAsymmetric(x, s[0]);
      [x] + s
    else
      var rest := InsertByRank(s[1..], x);
      assert s == [s[0]] + s[1..];
      [s[0]] + rest
  }

  /** The order std::sort leaves the candidates in. With a comparator that
      is not a strict weak ordering the C++ order is unspecified; the model
      fixes it by insertion and promises what the comparator allows: the
      same documents, and no adjacent pair in the wrong order. */
  function SortByRank(s: seq<Document>): (r: seq<Document>)
    ensures NoInversion(r)
    ensures multiset(r) == multiset(s)
    ensures |r| == |s|
  {
    if s == [] then []
    else
      assert s == [s[0]] + s[1..];
      InsertByRank(SortByRank(s[1..]), s[0])
  }

  /** The resize to MaxResultDocumentCount: the first five, or all when fewer. */
  function Truncate(s: seq<Document>): (r: seq<Document>)
    ensures |r| == if |s| < MaxResultDocumentCount then |s| else MaxResultDocumentCount
    ensures r <= s
    ensures NoInversion(s) ==> NoInversion(r)
    ensures DistinctIds(s) ==> DistinctIds(r)
  {
    if |s| > MaxResultDocumentCount then s[..MaxResultDocumentCount] else s
  }

  /** FindTopDocuments' cut keeps the best: when the relevances of `s` are
      separated, a document of `s` left out of the first five after sorting
      does not rank before one that is kept. */
  lemma TopOfSortedIsBest(s: seq<Document>, kept: Document, dropped: Document)
    requires SeparatedRelevances(s)
    requires kept in Truncate(SortByRank(s))
    requires dropped in s && dropped !in Truncate(SortByRank(s))
    ensures !RanksBefore(dropped, kept)
  {
    var sorted := SortByRank(s);
    var r := Truncate(sorted);
    forall x | x in sorted
      ensures x in s
    {
      assert x in multiset(sorted);
    }
    SeparatedNegativelyTransitive(sorted);
    assert dropped in multiset(sorted);
    var j :| 0 <= j < |sorted| && sorted[j] == dropped;
    var i :| 0 <= i < |r| && r[i] == kept;
    if j < |r| {
      assert false;
    }
    NoInversionOrdered(sorted, i, j);
  }

  /** No two documents of `s` share an id. */
  predicate DistinctIds(s: seq<Document>) {
    forall i, j :: 0 <= i < j < |s| ==> s[i].id != s[j].id
  }

  /** Inserting a document whose id is new keeps the ids distinct. */
  lemma {:induction false} InsertByRankDistinct(s: seq<Document>, x: Document)
    requires NoInversion(s) && DistinctIds(s)
    requires forall d :: d in s ==> d.id != x.id
    ensures DistinctIds(InsertByRank(s, x))
  {
    if s != [] && !RanksBefore(x, s[0]) {
      var rest := InsertByRank(s[1..], x);
      assert forall d :: d in s[1..] ==> d in s;
      InsertByRankDistinct(s[1..], x);
      forall d | d in rest
        ensures d.id != s[0].id
      {
        assert d in multiset(rest);
        if d != x {
          assert d in multiset(s[1..]);
          var k :| 0 <= k < |s[1..]| && s[1..][k] == d;
          assert s[k + 1] == d;
        }
      }
      assert InsertByRank(s, x) == [s[0]] + rest;
    }
  }

  /** Sorting keeps the ids distinct. */
  lemma {:induction false} SortByRankDistinct(s: seq<Document>)
    requires DistinctIds(s)
    ensures DistinctIds(SortByRank(s))
  {
    if s != [] {
      var sorted := SortByRank(s[1..]);
      SortByRankDistinct(s[1..]);
      forall d | d in sorted
        ensures d.id != s[0].id
      {
        assert d in multiset(sorted);
        assert d in multiset(s[1..]);
        var k :| 0 <= k < |s[1..]| && s[1..][k] == d;
        assert s[k + 1] == d;
      }
      InsertByRankDistinct(sorted, s[0]);
    }
  }
}
