/** Sliding windows of adjacent tokens, each joined into one string. */
module NGramExtractor {

  /** `" ".join(ws)`: the strings of `ws` separated by single spaces. */
  function Join(ws: seq<string>): string {
    if ws == [] then []
    else if |ws| == 1 then ws[0]
    else ws[0] + " " + Join(ws[1..])
  }

  /** The number of iterations of `range(len - n + 1)`, zero when that bound is negative. */
  function WindowCount(len: nat, n: nat): nat {
    if len + 1 >= n then len + 1 - n else 0
  }

  /** The windows of `n` adjacent tokens, obtained by moving one token at a time. */
  function Slide(text: seq<string>, n: nat): seq<seq<string>>
    decreases |text|
  {
    if |text| < n then []
    else [text[..n]] + (if text == [] then [] else Slide(text[1..], n))
  }

  /** `n_gram`: the identity for `n == 1`, otherwise the joined windows of size `n`. */
  function NGrams(text: seq<string>, n: nat): seq<string> {
    if n == 1 then text
    else
      var windows := Slide(text, n);
      seq(|windows|, i requires 0 <= i < |windows| => Join(windows[i]))
  }

  /** There are `max(0, len - n + 1)` windows. */
  lemma {:induction false} SlideLength(text: seq<string>, n: nat)
    ensures |Slide(text, n)| == WindowCount(|text|, n)
    decreases |text|
  {
    if |text| >= n && text != [] {
      SlideLength(text[1..], n);
    }
  }

  /** Window `i` is the slice of `n` tokens starting at token `i`. */
  lemma {:induction false} SlideAt(text: seq<string>, n: nat, i: nat)
    requires i < |Slide(text, n)|
    ensures i + n <= |text| && Slide(text, n)[i] == text[i..i + n]
    decreases i
  {
    if i > 0 {
      var rest := text[1..];
      assert Slide(text, n) == [text[..n]] + Slide(rest, n);
      SlideAt(rest, n, i - 1);
      assert rest[i - 1..i - 1 + n] == text[i..i + n];
    }
  }

  /** Window `i` starts at token `i`, and there are `max(0, len - n + 1)` of them. */
  lemma {:induction false} SlideShape(text: seq<string>, n: nat)
    ensures |Slide(text, n)| == WindowCount(|text|, n)
    ensures forall i :: 0 <= i < |Slide(text, n)| ==> i + n <= |text| && Slide(text, n)[i] == text[i..i + n]
  {
    SlideLength(text, n);
    forall i | 0 <= i < |Slide(text, n)|
      ensures i + n <= |text| && Slide(text, n)[i] == text[i..i + n]
    {
      SlideAt(text, n, i);
    }
  }

  /** For `n != 1` the result has `max(0, len - n + 1)` entries, entry `i` joining tokens `i .. i + n - 1`. */
  lemma {:induction false} NGramsShape(text: seq<string>, n: nat)
    requires n != 1
    ensures |NGrams(text, n)| == WindowCount(|text|, n)
    ensures forall i :: 0 <= i < |NGrams(text, n)| ==>
      i + n <= |text| && NGrams(text, n)[i] == Join(text[i..i + n])
  {
    SlideShape(text, n);
  }

  /** With fewer than `n >= 2` tokens there is no n-gram. */
  lemma {:induction false} NGramsOfShortText(text: seq<string>, n: nat)
    requires 2 <= n && |text| < n
    ensures NGrams(text, n) == []
  {
  }

  /** The bigrams: one per adjacent pair, the two tokens joined by a single space. */
  lemma {:induction false} Bigrams(text: seq<string>)
    ensures |NGrams(text, 2)| == if |text| < 2 then 0 else |text| - 1
    ensures forall i :: 0 <= i < |NGrams(text, 2)| ==> NGrams(text, 2)[i] == text[i] + " " + text[i + 1]
  {
    NGramsShape(text, 2);
    forall i | 0 <= i < |NGrams(text, 2)|
      ensures NGrams(text, 2)[i] == text[i] + " " + text[i + 1]
    {
      var pair := text[i..i + 2];
      assert pair[0] == text[i] && pair[1..] == [text[i + 1]];
      assert Join(pair) == text[i] + " " + Join([text[i + 1]]);
      assert NGrams(text, 2)[i] == Join(pair);
    }
  }

  /** The loop of `n_gram`: collect the windows, then join each of them. */
  method NGram(text: seq<string>, n: nat) returns (output: seq<string>)
    ensures output == NGrams(text, n)
  {
    if n == 1 {
      return text;
    }
    var windows: seq<seq<string>> := [];
    for i := 0 to WindowCount(|text|, n)
      invariant |windows| == i
      invariant forall k :: 0 <= k < i ==> windows[k] == text[k..k + n]
    {
      windows := windows + [text[i..i + n]];
    }
    SlideShape(text, n);
    assert windows == Slide(text, n);
    output := seq(|windows|, k requires 0 <= k < |windows| => Join(windows[k]));
  }
}
