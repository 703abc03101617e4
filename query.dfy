/** Query parsing: ParseQueryWord and ParseQuery turn a query text into
    ordered, deduplicated sets of plus- and minus-words. */
module QueryParser {
  import opened Errors
  import opened Tokenizer
  import opened StringSets

  /** QueryWord: one query word with its minus marker stripped. */
  datatype QueryWord = QueryWord(data: string, isMinus: bool, isStop: bool)

  /** Query: the plus- and minus-words, each a std::set<string>, kept as a
      strictly increasing sequence (StringSets.Sorted). */
  datatype Query = Query(plus: seq<string>, minus: seq<string>)

  const EmptyQuery: Query := Query([], [])

  /** ParseQueryWord: validate a query word and strip its minus marker. */
  function ParseQueryWord(text: string, stopWords: set<string>): (r: Result<QueryWord>)
    ensures !IsValidWord(text) ==> r == Err(InvalidQueryWord(text))
    ensures IsValidWord(text) && text == "-" ==> r == Err(EmptyMinusWord)
    ensures IsValidWord(text) && |text| >= 2 && text[..2] == "--" ==> r == Err(DoubleMinus)
    ensures r.Ok? <==> IsValidWord(text) && text != "-" && !(|text| >= 2 && text[..2] == "--")
    ensures r.Ok? ==> (r.value.isMinus <==> |text| > 0 && text[0] == '-')
    ensures r.Ok? ==> text == (if r.value.isMinus then "-" else "") + r.value.data
    ensures r.Ok? && r.value.isMinus ==> r.value.data != [] && r.value.data[0] != '-'
    ensures r.Ok? ==> (r.value.isStop <==> r.value.data in stopWords)
  {
    if !IsValidWord(text) then Err(InvalidQueryWord(text))
    else if |text| > 0 && text[0] == '-' && |text| == 1 then Err(EmptyMinusWord)
    else if |text| > 0 && text[0] == '-' && text[1] == '-' then Err(DoubleMinus)
    else if |text| > 0 && text[0] == '-' then
      assert text == "-" + text[1..];
      Ok(QueryWord(text[1..], true, text[1..] in stopWords))
    else
      Ok(QueryWord(text, false, text in stopWords))
  }

  /** The query after one parsed word: a stop word changes nothing, the
      others go into the minus- or the plus-set. */
  function AddQueryWord(q: Query, qw: QueryWord): (r: Query)
    requires Sorted(q.plus) && Sorted(q.minus)
    ensures Sorted(r.plus) && Sorted(r.minus)
  {
    if qw.isStop then q
    else if qw.isMinus then q.(minus := Insert(q.minus, qw.data))
    else q.(plus := Insert(q.plus, qw.data))
  }

  /** The query built from `tokens`, starting from `q`: the first invalid
      word stops the parse with its error. */
  function ParseWords(tokens: seq<string>, q: Query, stopWords: set<string>): (r: Result<Query>)
    requires Sorted(q.plus) && Sorted(q.minus)
    ensures r.Ok? ==> Sorted(r.value.plus) && Sorted(r.value.minus)
    decreases |tokens|
  {
    if tokens == [] then Ok(q)
    else match ParseQueryWord(tokens[0], stopWords)
      case Err(e) => Err(e)
      case Ok(qw) => ParseWords(tokens[1..], AddQueryWord(q, qw), stopWords)
  }

  /** The parse of the query text `text`. */
  function ParsedQuery(text: string, stopWords: set<string>): Result<Query> {
    ParseWords(Words(text), EmptyQuery, stopWords)
  }

  /** A plus-word of a query: a word of it that has no minus marker and is
      not a stop word. */
  predicate IsPlusWord(w: string, tokens: seq<string>, stopWords: set<string>) {
    w in tokens && w !in stopWords && !(|w| > 0 && w[0] == '-')
  }

  /** A minus-word of a query: a word of it with the marker "-" in front,
      which is not a stop word. */
  predicate IsMinusWord(w: string, tokens: seq<string>, stopWords: set<string>) {
    ['-'] + w in tokens && w !in stopWords
  }

  /** Parsing fails exactly when some word fails ParseQueryWord. */
  lemma {:induction false} ParseWordsSucceeds(tokens: seq<string>, q: Query, stopWords: set<string>)
    requires Sorted(q.plus) && Sorted(q.minus)
    ensures ParseWords(tokens, q, stopWords).Ok? <==>
      forall i :: 0 <= i < |tokens| ==> ParseQueryWord(tokens[i], stopWords).Ok?
    decreases |tokens|
  {
    if tokens != [] {
      match ParseQueryWord(tokens[0], stopWords)
      case Err(e) =>
      case Ok(qw) =>
        ParseWordsSucceeds(tokens[1..], AddQueryWord(q, qw), stopWords);
        assert forall i :: 0 < i < |tokens| ==> tokens[i] == tokens[1..][i - 1];
    }
  }

  /** A failed parse carries the error of the first word that fails. */
  lemma {:induction false} ParseWordsFirstError(tokens: seq<string>, q: Query, stopWords: set<string>)
    requires Sorted(q.plus) && Sorted(q.minus)
    requires ParseWords(tokens, q, stopWords).Err?
    ensures
      exists k :: 0 <= k < |tokens|
        && (forall j :: 0 <= j < k ==> ParseQueryWord(tokens[j], stopWords).Ok?)
        && ParseQueryWord(tokens[k], stopWords) == Err(ParseWords(tokens, q, stopWords).error)
    decreases |tokens|
  {
    var e := ParseWords(tokens, q, stopWords).error;
    match ParseQueryWord(tokens[0], stopWords)
    case Err(_) =>
      assert ParseQueryWord(tokens[0], stopWords) == Err(e);
    case Ok(qw) =>
      var q' := AddQueryWord(q, qw);
      ParseWordsFirstError(tokens[1..], q', stopWords);
      var k :| 0 <= k < |tokens[1..]|
        && (forall j :: 0 <= j < k ==> ParseQueryWord(tokens[1..][j], stopWords).Ok?)
        && ParseQueryWord(tokens[1..][k], stopWords) == Err(e);
      assert forall j :: 0 < j <= k ==> tokens[j] == tokens[1..][j - 1];
      assert tokens[k + 1] == tokens[1..][k];
  }

  /** A parsed query holds exactly the plus- and minus-words of its text:
      each set deduplicated and ordered, stop words in neither. */
  lemma {:induction false} ParseWordsContents(tokens: seq<string>, q: Query, stopWords: set<string>)
    requires Sorted(q.plus) && Sorted(q.minus)
    requires ParseWords(tokens, q, stopWords).Ok?
    ensures var r := ParseWords(tokens, q, stopWords).value;
      && Sorted(r.plus) && Sorted(r.minus)
      && (forall w :: w in r.plus <==> w in q.plus || IsPlusWord(w, tokens, stopWords))
      && (forall w :: w in r.minus <==> w in q.minus || IsMinusWord(w, tokens, stopWords))
    decreases |tokens|
  {
    if tokens != [] {
      var t := tokens[0];
      var qw := ParseQueryWord(t, stopWords).value;
      var q' := AddQueryWord(q, qw);
      ParseWordsContents(tokens[1..], q', stopWords);
      var r := ParseWords(tokens, q, stopWords).value;
      assert tokens == [t] + tokens[1..];
      forall w
        ensures w in r.plus <==> w in q.plus || IsPlusWord(w, tokens, stopWords)
      {
        assert IsPlusWord(w, tokens, stopWords) <==>
          IsPlusWord(w, tokens[1..], stopWords) || (w == t && w !in stopWords && !(|w| > 0 && w[0] == '-'));
      }
      forall w
        ensures w in r.minus <==> w in q.minus || IsMinusWord(w, tokens, stopWords)
      {
        assert IsMinusWord(w, tokens, stopWords) <==>
          IsMinusWord(w, tokens[1..], stopWords) || (['-'] + w == t && w !in stopWords);
        if ['-'] + w == t {
          assert t[0] == '-' && t[1..] == w;
        }
      }
    }
  }

  /** ParseQuery: the parse fails exactly when a word of the text fails
      ParseQueryWord, with the first such word's error; otherwise the plus-
      and minus-sets hold exactly the text's plus- and minus-words, ordered
      and without repetition, and no stop word. */
  lemma ParsedQueryContents(text: string, stopWords: set<string>)
    ensures ParsedQuery(text, stopWords).Ok? <==>
      forall i :: 0 <= i < |Words(text)| ==> ParseQueryWord(Words(text)[i], stopWords).Ok?
    ensures ParsedQuery(text, stopWords).Err? ==>
      exists k :: 0 <= k < |Words(text)|
        && (forall j :: 0 <= j < k ==> ParseQueryWord(Words(text)[j], stopWords).Ok?)
        && ParseQueryWord(Words(text)[k], stopWords) == Err(ParsedQuery(text, stopWords).error)
    ensures ParsedQuery(text, stopWords).Ok? ==>
      var q := ParsedQuery(text, stopWords).value;
      && Sorted(q.plus) && Sorted(q.minus)
      && (forall w :: w in q.plus <==> IsPlusWord(w, Words(text), stopWords))
      && (forall w :: w in q.minus <==> IsMinusWord(w, Words(text), stopWords))
      && (forall w :: w in q.plus || w in q.minus ==> w !in stopWords)
  {
    ParseWordsSucceeds(Words(text), EmptyQuery, stopWords);
    if ParsedQuery(text, stopWords).Err? {
      ParseWordsFirstError(Words(text), EmptyQuery, stopWords);
    } else {
      ParseWordsContents(Words(text), EmptyQuery, stopWords);
    }
  }
}
