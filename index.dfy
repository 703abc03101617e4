/** The store of the search server: documents, their rating and status,
    the inverted index word -> (document id -> term frequency) that
    AddDocument builds, and the invariant every operation keeps. */
module Index {
  import opened Errors
  import opened Tokenizer

  datatype DocumentStatus = Actual | Irrelevant | Banned | Removed

  /** DocumentData: what the server keeps about a document besides its words. */
  datatype DocumentData = DocumentData(rating: int, status: DocumentStatus)

  /** The number of occurrences of `x` in `s`. */
  function Count(s: seq<string>, x: string): (n: nat)
    ensures n <= |s|
    ensures n > 0 <==> x in s
  {
    if s == [] then 0
    else Count(s[..|s| - 1], x) + (if s[|s| - 1] == x then 1 else 0)
  }

  /** inv_word_count: what each occurrence of a word adds to its term
      frequency. For a document without words C++ computes 1.0 / 0 but never
      uses it; the model takes 0. */
  function Share(words: seq<string>): real {
    if |words| == 0 then 0.0 else 1.0 / (|words| as real)
  }

  /** The postings of `w`, empty when `w` is not in the index. */
  function Postings(index: map<string, map<int, real>>, w: string): map<int, real> {
    if w in index then index[w] else map[]
  }

  /** The sum of `c` copies of `share`: what `c` executions of
      `+= inv_word_count` leave in a term frequency that started at 0. */
  function Repeated(share: real, c: nat): real {
    if c == 0 then 0.0 else Repeated(share, c - 1) + share
  }

  /** The index after one more occurrence of `w` in document `id`:
      word_to_document_freqs_[w][id] += share, where a missing entry
      starts at 0. */
  function AddOccurrence(index: map<string, map<int, real>>, w: string, id: int, share: real)
    : map<string, map<int, real>>
  {
    var postings := Postings(index, w);
    var tf := if id in postings then postings[id] else 0.0;
    index[w := postings[id := tf + share]]
  }

  /** The index after each word of `words`, in turn, has added `share` to
      its entry for document `id`: the effect of AddDocument's loop. */
  function Posted(index: map<string, map<int, real>>, words: seq<string>, id: int, share: real)
    : map<string, map<int, real>>
  {
    if words == [] then index
    else AddOccurrence(Posted(index, words[..|words| - 1], id, share), words[|words| - 1], id, share)
  }

  /** Posting one more word of the document is one more AddOccurrence. */
  lemma PostedStep(index: map<string, map<int, real>>, words: seq<string>, i: nat, id: int, share: real)
    requires i < |words|
    ensures Posted(index, words[..i + 1], id, share)
      == AddOccurrence(Posted(index, words[..i], id, share), words[i], id, share)
  {
    assert words[..i + 1][..i] == words[..i];
  }

  /** The postings of `w` once the words `words` of document `id` are
      indexed, each occurrence worth `share`. */
  function PostedEntry(index: map<string, map<int, real>>, words: seq<string>, id: int, share: real,
                       w: string): map<int, real>
    requires w in index || w in words
  {
    if w in words then Postings(index, w)[id := Repeated(share, Count(words, w))] else index[w]
  }

  /** Indexing the words of a document `id` that the index does not hold
      yet: the words of the document gain an entry for `id` worth `share`
      per occurrence, and every other entry stays as it was. */
  lemma {:induction false} PostedAt(index: map<string, map<int, real>>, words: seq<string>, id: int, share: real)
    requires forall w :: w in index ==> id !in index[w]
    ensures forall w :: w in Posted(index, words, id, share) <==> w in index || w in words
    ensures forall w :: w in Posted(index, words, id, share) ==>
      Posted(index, words, id, share)[w] == PostedEntry(index, words, id, share, w)
  {
    if words != [] {
      var init := words[..|words| - 1];
      var x := words[|words| - 1];
      PostedAt(index, init, id, share);
      assert words == init + [x];
      var before := Posted(index, init, id, share);
      var after := Posted(index, words, id, share);
      assert after == AddOccurrence(before, x, id, share);
      forall w
        ensures w in after <==> w in index || w in words
      {
        assert w in words <==> w in init || w == x;
      }
      forall w | w in after
        ensures after[w] == PostedEntry(index, words, id, share, w)
      {
        CountSnoc(init, x, w);
        if w == x {
          PostedAtNewWord(index, init, x, id, share, before);
        } else {
          assert w in words <==> w in init;
          assert after[w] == before[w];
        }
      }
    }
  }

  lemma CountSnoc(s: seq<string>, x: string, w: string)
    ensures Count(s + [x], w) == Count(s, w) + (if w == x then 1 else 0)
  {
    assert (s + [x])[..|s|] == s;
  }

  /** The step of PostedAt for the word just added. */
  lemma PostedAtNewWord(index: map<string, map<int, real>>, init: seq<string>, x: string, id: int,
                        share: real, before: map<string, map<int, real>>)
    requires id !in Postings(index, x)
    requires x in before <==> x in index || x in init
    requires x in before ==> before[x] == PostedEntry(index, init, id, share, x)
    ensures AddOccurrence(before, x, id, share)[x] == PostedEntry(index, init + [x], id, share, x)
  {
    var c := Count(init, x);
    CountSnoc(init, x, x);
    var base := Postings(index, x);
    var expected := base[id := Repeated(share, c + 1)];
    assert x in init + [x];
    assert PostedEntry(index, init + [x], id, share, x) == expected;
    if x in init {
      assert x in before;
      var postings := base[id := Repeated(share, c)];
      assert Postings(before, x) == postings;
      assert AddOccurrence(before, x, id, share)[x] == postings[id := Repeated(share, c) + share];
      assert postings[id := Repeated(share, c) + share] == expected;
    } else {
      assert Postings(before, x) == base;
      assert c == 0 && id !in base;
      assert AddOccurrence(before, x, id, share)[x] == base[id := 0.0 + share];
      assert Repeated(share, 1) == 0.0 + share;
    }
  }

  /** `c` additions of `share` are `c` times `share`. */
  lemma {:induction false} RepeatedIsProduct(share: real, c: nat)
    ensures Repeated(share, c) == c as real * share
  {
    if c > 0 {
      RepeatedIsProduct(share, c - 1);
    }
  }

  /** The term frequency of word `w` in a document with the words `words`:
      the sum of one share per occurrence. */
  function TermFrequency(words: seq<string>, w: string): real {
    Repeated(Share(words), Count(words, w))
  }

  /** In "fluffy cat fluffy tail" the word "fluffy" has term frequency 1/2. */
  lemma TermFrequencyExample()
    ensures TermFrequency(["fluffy", "cat", "fluffy", "tail"], "fluffy") == 0.5
  {
    var words := ["fluffy", "cat", "fluffy", "tail"];
    assert Count(words, "fluffy") == 2 by {
      assert words[..3] == ["fluffy", "cat", "fluffy"];
      assert words[..3][..2] == ["fluffy", "cat"];
      assert words[..3][..2][..1] == ["fluffy"];
      assert words[..3][..2][..1][..0] == [];
    }
    assert Share(words) == 0.25;
  }

  lemma MulPositive(a: real, b: real)
    requires a > 0.0 && b > 0.0
    ensures a * b > 0.0
  {
  }

  lemma MulMonotone(a: real, b: real, s: real)
    requires a <= b && s > 0.0
    ensures a * s <= b * s
  {
  }

  /** c / m lies in (0, 1] when 1 <= c <= m. */
  lemma FractionBounds(c: real, m: real)
    requires 1.0 <= c <= m
    ensures 0.0 < c * (1.0 / m) <= 1.0
    ensures c * (1.0 / m) * m == c
  {
    var s := 1.0 / m;
    assert s * m == 1.0;
    MulPositive(c, s);
    MulMonotone(c, m, s);
    assert c * s * m == c * (s * m);
  }

  /** `n` shares of 1/m, for 1 <= n <= m, are n/m: in (0, 1], and m of
      them make n. */
  lemma RepeatedShareBounds(n: nat, m: real, tf: real)
    requires 1 <= n && n as real <= m && tf == Repeated(1.0 / m, n)
    ensures tf * m == n as real && 0.0 < tf <= 1.0
  {
    RepeatedIsProduct(1.0 / m, n);
    FractionBounds(n as real, m);
  }

  /** A term frequency is the word's occurrences divided by the document's
      word count, so it lies in (0, 1] for a word of the document. */
  lemma TermFrequencyInRange(words: seq<string>, w: string)
    requires w in words
    ensures TermFrequency(words, w) * (|words| as real) == Count(words, w) as real
    ensures 0.0 < TermFrequency(words, w) <= 1.0
  {
    RepeatedShareBounds(Count(words, w), |words| as real, TermFrequency(words, w));
  }

  /** The entries a new document adds to an index that has none for it: its
      own words, keyed by its id, with their term frequency, which lies in
      (0, 1]; every entry of every other document stays as it was. */
  lemma PostedEntries(index: map<string, map<int, real>>, words: seq<string>, id: int)
    requires forall w :: w in index ==> id !in index[w]
    ensures var after := Posted(index, words, id, Share(words));
      && (forall w :: w in after <==> w in index || w in words)
      && (forall w :: w in after ==> (id in after[w] <==> w in words))
      && (forall w :: w in words ==> after[w][id] == TermFrequency(words, w))
      && (forall w :: w in words ==> 0.0 < after[w][id] <= 1.0)
      && (forall w, d :: w in after && d != id ==>
            (d in after[w] <==> w in index && d in index[w]))
      && (forall w, d :: w in index && d in index[w] ==> after[w][d] == index[w][d])
  {
    var after := Posted(index, words, id, Share(words));
    PostedAt(index, words, id, Share(words));
    forall w | w in after
      ensures id in after[w] <==> w in words
      ensures w in words ==> after[w][id] == TermFrequency(words, w)
      ensures w in words ==> 0.0 < after[w][id] <= 1.0
      ensures forall d :: d != id ==> (d in after[w] <==> w in index && d in index[w])
      ensures forall d :: w in index && d in index[w] ==> after[w][d] == index[w][d]
    {
      if w in words {
        TermFrequencyInRange(words, w);
      }
    }
  }

  /** The words of `tokens` that are not stop words, in their order. */
  function WithoutStopWords(tokens: seq<string>, stopWords: set<string>): (r: seq<string>)
    ensures forall w :: w in r <==> w in tokens && w !in stopWords
    ensures forall w :: w !in stopWords ==> Count(r, w) == Count(tokens, w)
  {
    if tokens == [] then []
    else
      var init := WithoutStopWords(tokens[..|tokens| - 1], stopWords);
      var last := tokens[|tokens| - 1];
      assert tokens == tokens[..|tokens| - 1] + [last];
      var r := init + (if last in stopWords then [] else [last]);
      assert last in stopWords ==> r == init;
      assert last !in stopWords ==> r[..|r| - 1] == init;
      r
  }

  /** One more token: it is kept unless it is a stop word. */
  lemma WithoutStopWordsStep(tokens: seq<string>, i: nat, stopWords: set<string>)
    requires i < |tokens|
    ensures WithoutStopWords(tokens[..i + 1], stopWords)
      == WithoutStopWords(tokens[..i], stopWords) + (if tokens[i] in stopWords then [] else [tokens[i]])
  {
    assert tokens[..i + 1][..i] == tokens[..i];
  }

  /** The kept words stay in the order of the tokens: filtering two runs of
      tokens one after the other is filtering their concatenation. */
  lemma {:induction false} WithoutStopWordsAppend(a: seq<string>, b: seq<string>, stopWords: set<string>)
    ensures WithoutStopWords(a + b, stopWords) == WithoutStopWords(a, stopWords) + WithoutStopWords(b, stopWords)
    decreases |b|
  {
    if b == [] {
      assert a + b == a;
    } else {
      var ab := a + b;
      var n := |b| - 1;
      var wa, wb := WithoutStopWords(a, stopWords), WithoutStopWords(b[..n], stopWords);
      var tail := if b[n] in stopWords then [] else [b[n]];
      assert WithoutStopWords(ab, stopWords) == wa + wb + tail by {
        assert ab[..|ab| - 1] == a + b[..n];
        assert ab[..|ab|] == ab;
        assert ab[|ab| - 1] == b[n];
        WithoutStopWordsAppend(a, b[..n], stopWords);
        WithoutStopWordsStep(ab, |ab| - 1, stopWords);
      }
      assert WithoutStopWords(b, stopWords) == wb + tail by {
        assert b[..n + 1] == b;
        WithoutStopWordsStep(b, n, stopWords);
      }
      AppendAssociative(wa, wb, tail);
    }
  }

  /** A run of tokens without stop words is kept whole and in order. */
  lemma {:induction false} WithoutStopWordsKeepsAll(tokens: seq<string>, stopWords: set<string>)
    requires forall w :: w in tokens ==> w !in stopWords
    ensures WithoutStopWords(tokens, stopWords) == tokens
  {
    if tokens != [] {
      var n := |tokens| - 1;
      assert tokens[..n] + [tokens[n]] == tokens;
      assert tokens[..n + 1] == tokens;
      assert tokens[n] in tokens;
      assert forall w :: w in tokens[..n] ==> w in tokens;
      WithoutStopWordsKeepsAll(tokens[..n], stopWords);
      WithoutStopWordsStep(tokens, n, stopWords);
    }
  }

  /** The outcome of SplitIntoWordsNoStop: the first word with a control
      character fails, otherwise the words that are not stop words. */
  function DocumentWords(text: string, stopWords: set<string>): (r: Result<seq<string>>)
    ensures r.Err? <==> exists i :: 0 <= i < |Words(text)| && !IsValidWord(Words(text)[i])
    ensures r.Err? ==> r.error == InvalidDocumentWord(Words(text)[FirstInvalid(Words(text))])
    ensures r.Ok? ==> forall w :: w in r.value <==> w in Words(text) && w !in stopWords
    ensures r.Ok? ==> forall w :: w in r.value ==> IsValidWord(w) && w != []
  {
    var tokens := Words(text);
    var k := FirstInvalid(tokens);
    WordsWellFormed(text);
    if k < |tokens| then Err(InvalidDocumentWord(tokens[k]))
    else Ok(WithoutStopWords(tokens, stopWords))
  }

  /** Indexed words are valid, are not stop words, and have postings. */
  ghost predicate IndexWordsValid(stopWords: set<string>, index: map<string, map<int, real>>) {
    forall w :: w in index ==> IsValidWord(w) && w !in stopWords && index[w] != map[]
  }

  /** Every posting belongs to a stored document and holds a frequency in (0, 1]. */
  ghost predicate PostingsValid(index: map<string, map<int, real>>, documents: map<int, DocumentData>) {
    forall w, id :: w in index && id in index[w] ==> id in documents && 0.0 < index[w][id] <= 1.0
  }

  /** Stored ids are non-negative and the insertion order lists each once. */
  ghost predicate OrderValid(documents: map<int, DocumentData>, idIndex: seq<int>) {
    && (forall id :: id in documents ==> id >= 0)
    && |idIndex| == |documents|
    && (forall i :: 0 <= i < |idIndex| ==> idIndex[i] in documents)
    && (forall i, j :: 0 <= i < j < |idIndex| ==> idIndex[i] != idIndex[j])
  }

  /** What every public operation of the server keeps: stop words and
      indexed words are valid, no stop word is indexed, every posting belongs
      to a stored document with a frequency in (0, 1], ids are non-negative,
      and the insertion order lists each stored id once. */
  ghost predicate StoreInvariant(stopWords: set<string>, index: map<string, map<int, real>>,
                                 documents: map<int, DocumentData>, idIndex: seq<int>)
  {
    && (forall w :: w in stopWords ==> IsValidWord(w))
    && IndexWordsValid(stopWords, index)
    && PostingsValid(index, documents)
    && OrderValid(documents, idIndex)
  }

  /** Adding a document with a fresh, non-negative id and valid, non-stop
      words keeps the invariant. */
  lemma StoreInvariantAfterAdd(stopWords: set<string>, index: map<string, map<int, real>>,
                               documents: map<int, DocumentData>, idIndex: seq<int>,
                               id: int, words: seq<string>, data: DocumentData)
    requires StoreInvariant(stopWords, index, documents, idIndex)
    requires id !in documents && id >= 0
    requires forall w :: w in words ==> IsValidWord(w) && w !in stopWords
    ensures StoreInvariant(stopWords, Posted(index, words, id, Share(words)),
                           documents[id := data], idIndex + [id])
  {
    PostedEntries(index, words, id);
    var after := Posted(index, words, id, Share(words));
    IndexWordsAfterPostings(stopWords, index, after, id, words);
    PostingsAfterPostings(index, after, documents, id, words, data);
    OrderAfterAdd(documents, idIndex, id, data);
  }

  lemma IndexWordsAfterPostings(stopWords: set<string>, index: map<string, map<int, real>>,
                                after: map<string, map<int, real>>, id: int, words: seq<string>)
    requires IndexWordsValid(stopWords, index)
    requires forall w :: w in index ==> id !in index[w]
    requires forall w :: w in words ==> IsValidWord(w) && w !in stopWords
    requires forall w :: w in after <==> w in index || w in words
    requires forall w :: w in after ==> (id in after[w] <==> w in words)
    requires forall w, d :: w in after && d != id ==>
               (d in after[w] <==> w in index && d in index[w])
    ensures IndexWordsValid(stopWords, after)
  {
    forall w | w in after
      ensures IsValidWord(w) && w !in stopWords && after[w] != map[]
    {
      if w in words {
        assert id in after[w];
      } else {
        var postings := index[w];
        assert exists d :: d in postings by {
          if forall d :: d !in postings {
            assert false;
          }
        }
        var d :| d in postings;
        assert d in after[w];
      }
    }
  }

  lemma PostingsAfterPostings(index: map<string, map<int, real>>, after: map<string, map<int, real>>,
                              documents: map<int, DocumentData>, id: int, words: seq<string>,
                              data: DocumentData)
    requires PostingsValid(index, documents)
    requires forall w :: w in after <==> w in index || w in words
    requires forall w :: w in after ==> (id in after[w] <==> w in words)
    requires forall w :: w in after && id in after[w] ==> 0.0 < after[w][id] <= 1.0
    requires forall w, d :: w in after && d != id ==>
               (d in after[w] <==> w in index && d in index[w])
    requires forall w, d :: w in index && d in index[w] ==>
               w in after && d in after[w] && after[w][d] == index[w][d]
    ensures PostingsValid(after, documents[id := data])
  {
    forall w, d | w in after && d in after[w]
      ensures d in documents[id := data] && 0.0 < after[w][d] <= 1.0
    {
      if d != id {
        assert w in index && d in index[w];
      } else {
        assert w in words;
      }
    }
  }

  lemma OrderAfterAdd(documents: map<int, DocumentData>, idIndex: seq<int>, id: int, data: DocumentData)
    requires OrderValid(documents, idIndex)
    requires id !in documents && id >= 0
    ensures OrderValid(documents[id := data], idIndex + [id])
  {
    var idIndex' := idIndex + [id];
    forall i, j | 0 <= i < j < |idIndex'|
      ensures idIndex'[i] != idIndex'[j]
    {
      if j == |idIndex| {
        assert idIndex'[i] == idIndex[i] && idIndex[i] in documents;
      } else {
        assert idIndex'[i] == idIndex[i] && idIndex'[j] == idIndex[j];
      }
    }
    forall i | 0 <= i < |idIndex'|
      ensures idIndex'[i] in documents[id := data]
    {
      if i < |idIndex| {
        assert idIndex'[i] == idIndex[i];
      }
    }
    assert |documents[id := data]| == |documents| + 1;
  }

  /** A document made only of valid stop words is accepted with no words. */
  lemma StopWordsOnlyDocument(text: string, stopWords: set<string>)
    requires forall w :: w in Words(text) ==> w in stopWords && IsValidWord(w)
    ensures DocumentWords(text, stopWords) == Ok([])
  {
    assert forall i :: 0 <= i < |Words(text)| ==> Words(text)[i] in Words(text);
    var words := DocumentWords(text, stopWords).value;
    if words != [] {
      FirstIn(words);
      assert false;
    }
  }

  /** Concatenation is associative. */
  lemma AppendAssociative<T>(a: seq<T>, b: seq<T>, c: seq<T>)
    ensures a + b + c == a + (b + c)
  {
  }

  lemma FirstIn<T>(a: seq<T>)
    requires a != []
    ensures a[0] in a
  {
  }
}
