/** Dropping non-significant words from a token list. */
module StopWords {

  /** `xs` can be obtained from `ys` by deleting elements. */
  predicate IsSubsequence(xs: seq<string>, ys: seq<string>)
    decreases |ys|
  {
    xs == [] ||
    (ys != [] &&
     ((xs[0] == ys[0] && IsSubsequence(xs[1..], ys[1..])) || IsSubsequence(xs, ys[1..])))
  }

  /**
   * `remove_stop_word`: the tokens of `words` that are not stop words, in
   * their original order and with their repetitions.
   */
  function RemoveStopWords(words: seq<string>, stopWords: seq<string>): (kept: seq<string>)
    ensures forall i :: 0 <= i < |kept| ==> kept[i] in words && kept[i] !in stopWords
    ensures |kept| <= |words|
  {
    if words == [] then []
    else (if words[0] in stopWords then [] else [words[0]]) + RemoveStopWords(words[1..], stopWords)
  }

  /**
   * Duplicates are preserved: each non-stop word occurs in the output exactly
   * as often as in the input, and each stop word not at all.
   */
  lemma {:induction false} RemoveStopWordsCounts(words: seq<string>, stopWords: seq<string>, w: string)
    ensures multiset(RemoveStopWords(words, stopWords))[w] == if w in stopWords then 0 else multiset(words)[w]
  {
    if words != [] {
      var head := if words[0] in stopWords then [] else [words[0]];
      RemoveStopWordsCounts(words[1..], stopWords, w);
      assert words == [words[0]] + words[1..];
      assert multiset(words) == multiset([words[0]]) + multiset(words[1..]);
      assert multiset(RemoveStopWords(words, stopWords))
        == multiset(head) + multiset(RemoveStopWords(words[1..], stopWords));
    }
  }

  /** Order is preserved: the output is a subsequence of the input. */
  lemma {:induction false} RemoveStopWordsIsSubsequence(words: seq<string>, stopWords: seq<string>)
    ensures IsSubsequence(RemoveStopWords(words, stopWords), words)
  {
    if words != [] {
      var rest := RemoveStopWords(words[1..], stopWords);
      RemoveStopWordsIsSubsequence(words[1..], stopWords);
      if words[0] !in stopWords {
        assert ([words[0]] + rest)[1..] == rest;
      } else {
        assert RemoveStopWords(words, stopWords) == rest;
      }
    }
  }

  /** Filtering distributes over concatenation, so it acts token by token. */
  lemma {:induction false} RemoveStopWordsAppend(a: seq<string>, b: seq<string>, stopWords: seq<string>)
    ensures RemoveStopWords(a + b, stopWords) == RemoveStopWords(a, stopWords) + RemoveStopWords(b, stopWords)
  {
    if a == [] {
      assert a + b == b;
    } else {
      assert (a + b)[0] == a[0] && (a + b)[1..] == a[1..] + b;
      RemoveStopWordsAppend(a[1..], b, stopWords);
    }
  }

  /** A list with no stop word in it is returned unchanged. */
  lemma {:induction false} RemoveStopWordsKeepsClean(words: seq<string>, stopWords: seq<string>)
    requires forall i :: 0 <= i < |words| ==> words[i] !in stopWords
    ensures RemoveStopWords(words, stopWords) == words
  {
    if words != [] {
      RemoveStopWordsKeepsClean(words[1..], stopWords);
    }
  }

  /** Filtering twice is filtering once. */
  lemma {:induction false} RemoveStopWordsIdempotent(words: seq<string>, stopWords: seq<string>)
    ensures RemoveStopWords(RemoveStopWords(words, stopWords), stopWords) == RemoveStopWords(words, stopWords)
  {
    RemoveStopWordsKeepsClean(RemoveStopWords(words, stopWords), stopWords);
  }
}
