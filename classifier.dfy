/**
 * From a document to its bigrams, and from its bigrams to the topic whose
 * signature is most similar. Reading a file is modelled by its outcome:
 * `None` when the file cannot be read, `Some(content)` otherwise.
 */
module Classifier {
  import opened Wrappers
  import opened Tokenizer
  import opened StopWords
  import opened NGramExtractor
  import opened Signatures
  import opened Similarity

  /** The word-character test, the normaliser and the stop-word list `path_to_ngram` uses. */
  datatype Lexicon = Lexicon(isWordChar: char -> bool, normalize: string -> string, stopWords: seq<string>)

  /** What categorizing a document returns: the sentinel `-1`, or a topic name. */
  datatype Verdict = Unparsable | Detected(topic: string)

  /** The content `parse_file` returns when the file cannot be read. */
  const UNREADABLE: string := "-1"

  /** `parse_file`: the content of the file, or the sentinel when reading fails. */
  function ParseFile(read: Option<string>): (content: string)
    ensures content == UNREADABLE <==> read.None? || read.value == UNREADABLE
    ensures read.Some? ==> content == read.value
  {
    match read
    case None => UNREADABLE
    case Some(content) => content
  }

  /** The tokens of `content` that survive stop-word removal. */
  function Tokens(content: string, lex: Lexicon): seq<string> {
    RemoveStopWords(TextToWords(content, lex.isWordChar, lex.normalize), lex.stopWords)
  }

  /** `path_to_ngram`: `None` stands for the `-1` sentinel, otherwise the bigrams of the tokens. */
  function PathToNGram(read: Option<string>, lex: Lexicon): (grams: Option<seq<string>>)
    ensures grams.None? <==> read.None? || read.value == UNREADABLE
  {
    var content := ParseFile(read);
    if content == UNREADABLE then None else Some(NGrams(Tokens(content, lex), 2))
  }

  /** The n-gram list of a parsable document holds one bigram per adjacent pair of surviving tokens. */
  lemma {:induction false} PathToNGramOutcome(read: Option<string>, lex: Lexicon)
    ensures PathToNGram(read, lex).Some? ==>
      var tokens, grams := Tokens(read.value, lex), PathToNGram(read, lex).value;
      && |grams| == (if |tokens| < 2 then 0 else |tokens| - 1)
      && forall i :: 0 <= i < |grams| ==> grams[i] == tokens[i] + " " + tokens[i + 1]
  {
    if read.Some? {
      Bigrams(Tokens(read.value, lex));
    }
  }

  /** A readable document with fewer than two surviving tokens gives no bigram, not the sentinel. */
  lemma {:induction false} DegenerateDocument(content: string, lex: Lexicon)
    requires content != UNREADABLE && |Tokens(content, lex)| < 2
    ensures PathToNGram(Some(content), lex) == Some([])
  {
    NGramsOfShortText(Tokens(content, lex), 2);
  }

  /** `set(current_n_gram)`. */
  function DocSet(grams: seq<string>): set<string> {
    set g | g in grams
  }

  /**
   * The similarity of the document with every signature, in order; the first
   * signature whose union with the document is empty raises a division by zero.
   */
  function Similarities(doc: set<string>, signatures: seq<set<string>>): (r: Result<seq<Ratio>, Fault>)
    ensures r.Success? <==> forall j :: 0 <= j < |signatures| ==> doc + signatures[j] != {}
    ensures r.Failure? ==> r.error == ZeroDivision
    ensures r.Success? ==> |r.value| == |signatures|
    ensures r.Success? ==> forall j :: 0 <= j < |signatures| ==> r.value[j] == Jaccard(doc, signatures[j])
  {
    if signatures == [] then Success([])
    else if doc + signatures[0] == {} then Failure(ZeroDivision)
    else match Similarities(doc, signatures[1..])
      case Failure(e) => Failure(e)
      case Success(rest) => Success([Jaccard(doc, signatures[0])] + rest)
  }

  /** The index of the first maximal similarity, scanning from the left. */
  function FirstBest(d: seq<Ratio>): (k: nat)
    requires |d| > 0
    ensures k < |d|
  {
    if |d| == 1 then 0
    else
      var k := FirstBest(d[..|d| - 1]);
      if Below(d[k], d[|d| - 1]) then |d| - 1 else k
  }

  /** All similarities have a positive denominator. */
  predicate Proper(d: seq<Ratio>) {
    forall j :: 0 <= j < |d| ==> 0 < d[j].den
  }

  /** `k` holds a maximal value of `d`, and every earlier entry is strictly smaller. */
  ghost predicate IsFirstMaximum(d: seq<Ratio>, k: nat) {
    && k < |d|
    && (forall j :: 0 <= j < |d| ==> AtMost(d[j], d[k]))
    && (forall j :: 0 <= j < k ==> Below(d[j], d[k]))
  }

  lemma {:induction false} FirstBestIsFirstMaximum(d: seq<Ratio>)
    requires |d| > 0 && Proper(d)
    ensures IsFirstMaximum(d, FirstBest(d))
  {
    if |d| > 1 {
      var init, last := d[..|d| - 1], d[|d| - 1];
      FirstBestIsFirstMaximum(init);
      var k := FirstBest(init);
      if Below(d[k], last) {
        forall j | 0 <= j < |d| - 1 ensures Below(d[j], last) {
          AtMostBelowTransitive(d[j], d[k], last);
        }
      }
    }
  }

  /** At most one index is the first maximum, so the tie-break is deterministic. */
  lemma {:induction false} FirstMaximumUnique(d: seq<Ratio>, k1: nat, k2: nat)
    requires IsFirstMaximum(d, k1) && IsFirstMaximum(d, k2)
    ensures k1 == k2
  {
    if k1 < k2 {
      BelowExcludesAtMost(d[k1], d[k2]);
      assert false;
    } else if k2 < k1 {
      BelowExcludesAtMost(d[k2], d[k1]);
      assert false;
    }
  }

  /** `k` is the first signature of maximal Jaccard similarity with `doc`. */
  ghost predicate IsFirstBestTopic(doc: set<string>, signatures: seq<set<string>>, k: nat) {
    && k < |signatures|
    && (forall j :: 0 <= j < |signatures| ==> doc + signatures[j] != {})
    && (forall j :: 0 <= j < |signatures| ==>
          AtMost(Jaccard(doc, signatures[j]), Jaccard(doc, signatures[k])))
    && (forall j :: 0 <= j < k ==>
          Below(Jaccard(doc, signatures[j]), Jaccard(doc, signatures[k])))
  }

  /**
   * The categorization of a document given the result of `path_to_ngram`:
   * the sentinel passes through; otherwise the run ends with the topic at the
   * first index of maximal similarity, or with the error the source raises.
   */
  function Categorization(nGram: Option<seq<string>>, signatures: seq<set<string>>, topics: seq<string>)
    : (r: Result<Verdict, Fault>)
    ensures r == Success(Unparsable) <==> nGram.None?
    ensures r == Failure(ZeroDivision) <==>
      nGram.Some? && exists j :: 0 <= j < |signatures| && DocSet(nGram.value) + signatures[j] == {}
    ensures r == Failure(EmptyMax) <==>
      nGram.Some? && |signatures| == 0
    ensures r.Success? && r.value.Detected? ==> r.value.topic in topics
  {
    match nGram
    case None => Success(Unparsable)
    case Some(grams) =>
      match Similarities(DocSet(grams), signatures)
      case Failure(e) => Failure(e)
      case Success(d) =>
        if |d| == 0 then Failure(EmptyMax)
        else
          var k := FirstBest(d);
          if k < |topics| then Success(Detected(topics[k])) else Failure(IndexOutOfRange)
  }

  /** The first best topic is the first maximum of the similarity list. */
  lemma {:induction false} FirstBestTopicIsFirstMaximum(doc: set<string>, signatures: seq<set<string>>, k: nat)
    requires IsFirstBestTopic(doc, signatures, k)
    ensures Similarities(doc, signatures).Success?
    ensures IsFirstMaximum(Similarities(doc, signatures).value, k)
  {
  }

  /**
   * A document is categorized as `t` exactly when `t` is the topic name at the
   * first index of maximal similarity.
   */
  lemma {:induction false} CategorizationDetects(grams: seq<string>, signatures: seq<set<string>>, topics: seq<string>, t: string)
    ensures Categorization(Some(grams), signatures, topics) == Success(Detected(t)) <==>
      exists k: nat :: IsFirstBestTopic(DocSet(grams), signatures, k) && k < |topics| && topics[k] == t
  {
    var doc := DocSet(grams);
    var sims := Similarities(doc, signatures);
    if sims.Success? && |sims.value| > 0 {
      var d := sims.value;
      FirstBestIsFirstMaximum(d);
      var best := FirstBest(d);
      assert IsFirstBestTopic(doc, signatures, best);
      forall k | IsFirstBestTopic(doc, signatures, k) ensures k == best {
        FirstBestTopicIsFirstMaximum(doc, signatures, k);
        FirstMaximumUnique(d, k, best);
      }
    }
  }

  /** The list of topics being non-empty, some topic is always the first best. */
  lemma {:induction false} FirstBestTopicExists(doc: set<string>, signatures: seq<set<string>>)
    requires |signatures| > 0
    requires forall j :: 0 <= j < |signatures| ==> doc + signatures[j] != {}
    ensures exists k: nat :: IsFirstBestTopic(doc, signatures, k)
  {
    var d := Similarities(doc, signatures).value;
    FirstBestIsFirstMaximum(d);
    assert IsFirstBestTopic(doc, signatures, FirstBest(d));
  }

  /** `dist_list.index(max(dist_list))`: find a maximum, then the first entry equal to it. */
  method IndexOfMax(d: seq<Ratio>) returns (best: nat)
    requires |d| > 0 && Proper(d)
    ensures IsFirstMaximum(d, best)
  {
    var max := d[0];
    ghost var at := 0;
    for i := 1 to |d|
      invariant at < i && d[at] == max
      invariant forall j :: 0 <= j < i ==> AtMost(d[j], max)
    {
      BelowExcludesAtMost(max, d[i]);
      if Below(max, d[i]) {
        forall j | 0 <= j < i ensures AtMost(d[j], d[i]) {
          AtMostBelowTransitive(d[j], max, d[i]);
        }
        max, at := d[i], i;
      }
    }
    best := 0;
    while Below(d[best], max)
      invariant best <= at
      invariant forall j :: 0 <= j < best ==> Below(d[j], max)
      decreases at - best
    {
      best := best + 1;
    }
    BelowExcludesAtMost(d[best], max);
    forall j | 0 <= j < |d| ensures AtMost(d[j], d[best]) {
      AtMostTransitive(d[j], max, d[best]);
    }
    forall j | 0 <= j < best ensures Below(d[j], d[best]) {
      BelowAtMostTransitive(d[j], max, d[best]);
    }
  }

  lemma {:induction false} SimilaritiesOfComplete(doc: set<string>, signatures: seq<set<string>>, d: seq<Ratio>)
    requires |d| == |signatures|
    requires forall j :: 0 <= j < |signatures| ==> doc + signatures[j] != {} && d[j] == Jaccard(doc, signatures[j])
    ensures Similarities(doc, signatures) == Success(d)
  {
    var r := Similarities(doc, signatures);
    assert r.Success?;
    assert r.value == d;
  }

  lemma {:induction false} SimilaritiesOfEmptyUnion(doc: set<string>, signatures: seq<set<string>>, j: nat)
    requires j < |signatures| && doc + signatures[j] == {}
    ensures Similarities(doc, signatures) == Failure(ZeroDivision)
  {
  }

  /** The loop of `text_path_to_topic_categorization` that fills `dist_list`. */
  method DistList(doc: set<string>, nGramsList: seq<set<string>>) returns (r: Result<seq<Ratio>, Fault>)
    ensures r == Similarities(doc, nGramsList)
  {
    var distList: seq<Ratio> := [];
    for j := 0 to |nGramsList|
      invariant |distList| == j
      invariant forall i :: 0 <= i < j ==> doc + nGramsList[i] != {} && distList[i] == Jaccard(doc, nGramsList[i])
    {
      if doc + nGramsList[j] == {} {
        SimilaritiesOfEmptyUnion(doc, nGramsList, j);
        return Failure(ZeroDivision);
      }
      distList := distList + [Jaccard(doc, nGramsList[j])];
    }
    SimilaritiesOfComplete(doc, nGramsList, distList);
    return Success(distList);
  }

  /** `text_path_to_topic_categorization`. */
  method Categorize(read: Option<string>, lex: Lexicon, nGramsList: seq<set<string>>, topicsList: seq<string>)
    returns (r: Result<Verdict, Fault>)
    ensures r == Categorization(PathToNGram(read, lex), nGramsList, topicsList)
  {
    var nGram := PathToNGram(read, lex);
    if nGram.None? {
      return Success(Unparsable);
    }
    var dists := DistList(DocSet(nGram.value), nGramsList);
    if dists.Failure? {
      return Failure(dists.error);
    }
    var distList := dists.value;
    if |distList| == 0 {
      return Failure(EmptyMax);
    }
    var maxIndex := IndexOfMax(distList);
    FirstBestIsFirstMaximum(distList);
    FirstMaximumUnique(distList, maxIndex, FirstBest(distList));
    if maxIndex >= |topicsList| {
      return Failure(IndexOutOfRange);
    }
    return Success(Detected(topicsList[maxIndex]));
  }

  /**
   * Two topics: a document whose bigram set equals the first signature and
   * shares nothing with the second is put under the first topic.
   */
  lemma {:induction false} CategorizationOfExactMatch(grams: seq<string>, first: set<string>, second: set<string>, topicA: string, topicB: string)
    requires DocSet(grams) == first && first != {} && first * second == {}
    ensures Categorization(Some(grams), [first, second], [topicA, topicB]) == Success(Detected(topicA))
  {
    var doc, sigs := DocSet(grams), [first, second];
    var d := Similarities(doc, sigs).value;
    assert d[0] == Jaccard(doc, first) && d[0].num == d[0].den;
    assert d[1] == Jaccard(doc, second) && d[1].num == 0;
    assert d[..1] == [d[0]];
    assert !Below(d[0], d[1]);
  }

  /** The bigrams a training document contributes: none when it is unparsable. */
  function DocBigrams(read: Option<string>, lex: Lexicon): set<string> {
    match PathToNGram(read, lex)
    case None => {}
    case Some(grams) => DocSet(grams)
  }

  /** The n-gram sets of the readable training documents of a topic, in order. */
  function ReadableNGramSets(files: seq<Option<string>>, lex: Lexicon): seq<set<string>> {
    if files == [] then []
    else
      var rest := ReadableNGramSets(files[1..], lex);
      match PathToNGram(files[0], lex)
      case None => rest
      case Some(grams) => [DocSet(grams)] + rest
  }

  /** The signature of a topic: the merge of the n-gram sets of its readable documents. */
  function TopicSignature(files: seq<Option<string>>, lex: Lexicon): (sig: set<string>)
    ensures forall i :: 0 <= i < |files| ==> DocBigrams(files[i], lex) <= sig
  {
    SignatureCovers(files, lex);
    UnionAll(ReadableNGramSets(files, lex))
  }

  /** Every readable training document's bigrams are in the merge. */
  lemma {:induction false} SignatureCovers(files: seq<Option<string>>, lex: Lexicon)
    ensures forall i :: 0 <= i < |files| ==> DocBigrams(files[i], lex) <= UnionAll(ReadableNGramSets(files, lex))
  {
    forall i, x | 0 <= i < |files| && x in DocBigrams(files[i], lex)
      ensures x in UnionAll(ReadableNGramSets(files, lex))
    {
      UnionAllMembers(ReadableNGramSets(files, lex), x);
      ReadableNGramSetsMembers(files, lex, x);
    }
  }

  lemma {:induction false} ReadableNGramSetsMembers(files: seq<Option<string>>, lex: Lexicon, x: string)
    ensures (exists s :: s in ReadableNGramSets(files, lex) && x in s) <==>
      exists i :: 0 <= i < |files| && x in DocBigrams(files[i], lex)
  {
    if files != [] {
      ReadableNGramSetsMembers(files[1..], lex, x);
      if exists i :: 0 <= i < |files| && x in DocBigrams(files[i], lex) {
        var i :| 0 <= i < |files| && x in DocBigrams(files[i], lex);
        if i > 0 {
          assert files[1..][i - 1] == files[i];
        }
      }
      if exists i :: 0 <= i < |files| - 1 && x in DocBigrams(files[1..][i], lex) {
        var i :| 0 <= i < |files| - 1 && x in DocBigrams(files[1..][i], lex);
        assert files[i + 1] == files[1..][i];
      }
    }
  }

  /** An n-gram is in a topic's signature exactly when some readable document of the topic has it. */
  lemma {:induction false} TopicSignatureMembers(files: seq<Option<string>>, lex: Lexicon, x: string)
    ensures x in TopicSignature(files, lex) <==> exists i :: 0 <= i < |files| && x in DocBigrams(files[i], lex)
  {
    UnionAllMembers(ReadableNGramSets(files, lex), x);
    ReadableNGramSetsMembers(files, lex, x);
  }
}
