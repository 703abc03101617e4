/** Splitting text into words and checking words for control characters
    (SplitIntoWords and SearchServer::IsValidWord). */
module Tokenizer {

  /** A character the server refuses inside a word: codes 0x00 to 0x1F. */
  predicate IsControl(c: char) {
    c < ' '
  }

  /** IsValidWord: no character of `w` is a control character. */
  predicate IsValidWord(w: string) {
    forall i :: 0 <= i < |w| ==> !IsControl(w[i])
  }

  /** The index of the first invalid word of `ws`, or |ws| when all are valid. */
  function FirstInvalid(ws: seq<string>): (k: nat)
    ensures k <= |ws|
    ensures forall j :: 0 <= j < k ==> IsValidWord(ws[j])
    ensures k < |ws| ==> !IsValidWord(ws[k])
  {
    if ws == [] then 0
    else if !IsValidWord(ws[0]) then 0
    else 1 + FirstInvalid(ws[1..])
  }

  /** The first invalid word is the unique position with a valid prefix
      and an invalid word. */
  lemma FirstInvalidAt(ws: seq<string>, i: nat)
    requires i < |ws| && !IsValidWord(ws[i])
    requires forall j :: 0 <= j < i ==> IsValidWord(ws[j])
    ensures FirstInvalid(ws) == i
  {
  }

  /** Scanning on from a point no later than the first invalid word: the
      word there is either the first invalid one or lies before it. */
  lemma FirstInvalidStep(ws: seq<string>, i: nat)
    requires i < |ws| && FirstInvalid(ws) >= i
    ensures IsValidWord(ws[i]) ==> FirstInvalid(ws) > i
    ensures !IsValidWord(ws[i]) ==> FirstInvalid(ws) == i
  {
  }

  /** A pending word followed by a space (or the end of the text) becomes
      one word if it is not empty, and nothing otherwise. */
  function Flush(word: string): seq<string> {
    if word == [] then [] else [word]
  }

  /** The words of `rest` when the characters of `word` have already been
      read since the last space. */
  function Tokens(word: string, rest: string): seq<string>
    decreases |rest|
  {
    if rest == [] then Flush(word)
    else if rest[0] == ' ' then Flush(word) + Tokens([], rest[1..])
    else Tokens(word + [rest[0]], rest[1..])
  }

  /** The words of `text`: its maximal runs of characters other than ' '. */
  function Words(text: string): seq<string> {
    Tokens([], text)
  }

  /** SplitIntoWords: the character loop that collects the words of `text`. */
  method SplitIntoWords(text: string) returns (words: seq<string>)
    ensures words == Words(text)
    ensures forall w :: w in words ==> w != [] && ' ' !in w
    ensures Concat(words) == WithoutSpaces(text)
  {
    words := [];
    var word: string := [];
    for i := 0 to |text|
      invariant words + Tokens(word, text[i..]) == Words(text)
    {
      assert text[i..][1..] == text[i + 1..];
      if text[i] == ' ' {
        if word != [] {
          words := words + [word];
          word := [];
        }
      } else {
        word := word + [text[i]];
      }
    }
    if word != [] {
      words := words + [word];
    }
    WordsWellFormed(text);
    WordsConcat(text);
  }

  /** The characters of `text` other than ' ', in their order. */
  function WithoutSpaces(text: string): string {
    if text == [] then []
    else (if text[0] == ' ' then [] else [text[0]]) + WithoutSpaces(text[1..])
  }

  /** The words of `ws` written one after another. */
  function Concat(ws: seq<string>): string {
    if ws == [] then [] else ws[0] + Concat(ws[1..])
  }

  /** The words of `ws` separated by single spaces. */
  function Join(ws: seq<string>): string {
    if ws == [] then []
    else if |ws| == 1 then ws[0]
    else ws[0] + [' '] + Join(ws[1..])
  }

  lemma {:induction false} ConcatAppend(a: seq<string>, b: seq<string>)
    ensures Concat(a + b) == Concat(a) + Concat(b)
  {
    if a == [] {
      assert a + b == b;
    } else {
      assert (a + b)[1..] == a[1..] + b;
      ConcatAppend(a[1..], b);
    }
  }

  lemma {:induction false} TokensWellFormed(word: string, rest: string)
    requires ' ' !in word
    ensures forall w :: w in Tokens(word, rest) ==> w != [] && ' ' !in w
    decreases |rest|
  {
    if rest != [] {
      if rest[0] == ' ' {
        TokensWellFormed([], rest[1..]);
      } else {
        TokensWellFormed(word + [rest[0]], rest[1..]);
      }
    }
  }

  /** Every word is non-empty and holds no space. */
  lemma WordsWellFormed(text: string)
    ensures forall w :: w in Words(text) ==> w != [] && ' ' !in w
  {
    TokensWellFormed([], text);
  }

  lemma {:induction false} TokensConcat(word: string, rest: string)
    ensures Concat(Tokens(word, rest)) == word + WithoutSpaces(rest)
    decreases |rest|
  {
    if rest == [] {
    } else if rest[0] == ' ' {
      TokensConcat([], rest[1..]);
      ConcatAppend(Flush(word), Tokens([], rest[1..]));
    } else {
      TokensConcat(word + [rest[0]], rest[1..]);
      assert word + [rest[0]] + WithoutSpaces(rest[1..]) == word + ([rest[0]] + WithoutSpaces(rest[1..]));
    }
  }

  /** The words, written one after another, give back the text without its
      spaces: nothing is lost, reordered or invented. */
  lemma WordsConcat(text: string)
    ensures Concat(Words(text)) == WithoutSpaces(text)
  {
    TokensConcat([], text);
  }

  lemma {:induction false} TokensSkipWord(word: string, w: string, rest: string)
    requires ' ' !in w
    ensures Tokens(word, w + rest) == Tokens(word + w, rest)
    decreases |w|
  {
    if w == [] {
      assert w + rest == rest && word + w == word;
    } else {
      assert (w + rest)[0] == w[0];
      assert (w + rest)[1..] == w[1..] + rest;
      TokensSkipWord(word + [w[0]], w[1..], rest);
      assert word + [w[0]] + w[1..] == word + w;
    }
  }

  /** Splitting the space-separated join of non-empty words without spaces
      gives the words back. */
  lemma {:induction false} WordsOfJoin(ws: seq<string>)
    requires forall w :: w in ws ==> w != [] && ' ' !in w
    ensures Words(Join(ws)) == ws
  {
    if ws == [] {
    } else if |ws| == 1 {
      TokensSkipWord([], ws[0], []);
      assert ws[0] + [] == ws[0];
      assert [] + ws[0] == ws[0];
    } else {
      var rest := [' '] + Join(ws[1..]);
      assert Join(ws) == ws[0] + rest;
      TokensSkipWord([], ws[0], rest);
      assert [] + ws[0] == ws[0];
      assert rest[1..] == Join(ws[1..]);
      WordsOfJoin(ws[1..]);
      assert Tokens(ws[0], rest) == [ws[0]] + Tokens([], Join(ws[1..]));
    }
  }
}
