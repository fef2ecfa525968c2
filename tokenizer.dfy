/**
 * Turning raw text into tokens: the text is cut into maximal runs of word
 * characters and every run is passed through a normaliser. The word-character
 * test and the normaliser are parameters of the model.
 */
module Tokenizer {

  /** True when every character of `w` is a word character. */
  predicate AllWordChars(w: string, isWordChar: char -> bool) {
    forall i :: 0 <= i < |w| ==> isWordChar(w[i])
  }

  /** The word characters of `text`, in order, separators dropped. */
  function WordChars(text: string, isWordChar: char -> bool): string {
    if text == [] then []
    else (if isWordChar(text[0]) then [text[0]] else []) + WordChars(text[1..], isWordChar)
  }

  /** The concatenation of a sequence of strings. */
  function Flatten(ws: seq<string>): string {
    if ws == [] then [] else ws[0] + Flatten(ws[1..])
  }

  /** The run read so far, emitted as a token when it is not empty. */
  function Close(run: string): seq<string> {
    if run == [] then [] else [run]
  }

  /**
   * Scans `text` left to right; `run` is the word being read. Every non-word
   * character ends the current run, so consecutive separators produce no
   * empty token.
   */
  function Runs(text: string, run: string, isWordChar: char -> bool): seq<string>
    decreases |text|
  {
    if text == [] then Close(run)
    else if isWordChar(text[0]) then Runs(text[1..], run + [text[0]], isWordChar)
    else Close(run) + Runs(text[1..], [], isWordChar)
  }

  /** The maximal runs of word characters of `text`, in the order they occur. */
  function Words(text: string, isWordChar: char -> bool): seq<string> {
    Runs(text, [], isWordChar)
  }

  /** `text_to_word`: split into words, then normalise each word. */
  function TextToWords(text: string, isWordChar: char -> bool, normalize: string -> string): (tokens: seq<string>)
    ensures |tokens| == |Words(text, isWordChar)|
  {
    var words := Words(text, isWordChar);
    seq(|words|, i requires 0 <= i < |words| => normalize(words[i]))
  }

  lemma {:induction false} RunsAreWords(text: string, run: string, isWordChar: char -> bool)
    requires AllWordChars(run, isWordChar)
    ensures forall i :: 0 <= i < |Runs(text, run, isWordChar)| ==>
      Runs(text, run, isWordChar)[i] != [] && AllWordChars(Runs(text, run, isWordChar)[i], isWordChar)
    decreases |text|
  {
    if text == [] {
    } else if isWordChar(text[0]) {
      RunsAreWords(text[1..], run + [text[0]], isWordChar);
    } else {
      RunsAreWords(text[1..], [], isWordChar);
    }
  }

  /** Every token is non-empty and made of word characters only. */
  lemma {:induction false} WordsAreWords(text: string, isWordChar: char -> bool)
    ensures forall i :: 0 <= i < |Words(text, isWordChar)| ==>
      Words(text, isWordChar)[i] != [] && AllWordChars(Words(text, isWordChar)[i], isWordChar)
  {
    RunsAreWords(text, [], isWordChar);
  }

  lemma {:induction false} RunsKeepWordChars(text: string, run: string, isWordChar: char -> bool)
    ensures Flatten(Runs(text, run, isWordChar)) == run + WordChars(text, isWordChar)
    decreases |text|
  {
    if text == [] {
      assert Flatten(Close(run)) == run by {
        if run != [] { assert Flatten([run]) == run + Flatten([]); }
      }
    } else if isWordChar(text[0]) {
      RunsKeepWordChars(text[1..], run + [text[0]], isWordChar);
    } else {
      var rest := Runs(text[1..], [], isWordChar);
      RunsKeepWordChars(text[1..], [], isWordChar);
      assert WordChars(text, isWordChar) == WordChars(text[1..], isWordChar);
      if run != [] {
        assert ([run] + rest)[1..] == rest;
        assert Flatten([run] + rest) == run + Flatten(rest);
      } else {
        assert Close(run) + rest == rest;
      }
    }
  }

  /** Concatenated, the tokens are exactly the word characters of the text, in order. */
  lemma {:induction false} WordsKeepWordChars(text: string, isWordChar: char -> bool)
    ensures Flatten(Words(text, isWordChar)) == WordChars(text, isWordChar)
  {
    RunsKeepWordChars(text, [], isWordChar);
  }

  lemma {:induction false} RunsSplitAt(a: string, sep: char, b: string, run: string, isWordChar: char -> bool)
    requires !isWordChar(sep)
    ensures Runs(a + [sep] + b, run, isWordChar) == Runs(a, run, isWordChar) + Runs(b, [], isWordChar)
    decreases |a|
  {
    var text := a + [sep] + b;
    if a == [] {
      assert text[0] == sep && text[1..] == b;
    } else {
      assert text[0] == a[0] && text[1..] == a[1..] + [sep] + b;
      RunsSplitAt(a[1..], sep, b, if isWordChar(a[0]) then run + [a[0]] else [], isWordChar);
    }
  }

  /** A separator character ends a token: the words on each side are split independently. */
  lemma {:induction false} WordsSplitAt(a: string, sep: char, b: string, isWordChar: char -> bool)
    requires !isWordChar(sep)
    ensures Words(a + [sep] + b, isWordChar) == Words(a, isWordChar) + Words(b, isWordChar)
  {
    RunsSplitAt(a, sep, b, [], isWordChar);
  }

  lemma {:induction false} RunsOfOneWord(text: string, run: string, isWordChar: char -> bool)
    requires AllWordChars(text, isWordChar) && run + text != []
    ensures Runs(text, run, isWordChar) == [run + text]
    decreases |text|
  {
    if text != [] {
      assert isWordChar(text[0]);
      assert (run + [text[0]]) + text[1..] == run + text;
      assert AllWordChars(text[1..], isWordChar) by {
        forall i | 0 <= i < |text[1..]| ensures isWordChar(text[1..][i]) {
          assert text[1..][i] == text[i + 1];
        }
      }
      RunsOfOneWord(text[1..], run + [text[0]], isWordChar);
      assert Runs(text, run, isWordChar) == Runs(text[1..], run + [text[0]], isWordChar);
    } else {
      assert run + text == run;
    }
  }

  /** A non-empty run of word characters is a single token: runs are maximal. */
  lemma {:induction false} WordsOfOneWord(text: string, isWordChar: char -> bool)
    requires text != [] && AllWordChars(text, isWordChar)
    ensures Words(text, isWordChar) == [text]
  {
    RunsOfOneWord(text, [], isWordChar);
    assert [] + text == text;
  }

  /** Token order follows text order, also after normalisation. */
  lemma {:induction false} TextToWordsSplitAt(a: string, sep: char, b: string, isWordChar: char -> bool, normalize: string -> string)
    requires !isWordChar(sep)
    ensures TextToWords(a + [sep] + b, isWordChar, normalize)
      == TextToWords(a, isWordChar, normalize) + TextToWords(b, isWordChar, normalize)
  {
    WordsSplitAt(a, sep, b, isWordChar);
  }
}
