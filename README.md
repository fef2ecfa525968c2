# Texts-Categorizer, modelled in Dafny

Texts-Categorizer assigns a topic to a short text document. Training builds one
signature per topic: the set of word bigrams of all the documents in that topic's
folder. To classify a document, the program computes the document's own bigram set.
It compares that set with every signature by Jaccard similarity and returns the name
of the topic whose signature is most similar. The first such topic wins a tie.
Evaluation classifies every document of a labelled dataset and counts, per topic,
how many documents were classified and how many of those got the right topic.

The model covers the deterministic core of `src/main.py`:

- `tokenizer.dfy` (module `Tokenizer`): `text_to_word`. The text is cut into maximal
  runs of word characters, and each run goes through the normaliser. The
  word-character test and the normaliser are parameters (`isWordChar`, `normalize`).
- `stop_words.dfy` (module `StopWords`): `remove_stop_word`.
- `ngrams.dfy` (module `NGramExtractor`): `n_gram`. It is a method with the source's
  loop, proved against a specification function. A sliding-window definition gives
  the window count and the contents of each window.
- `signatures.dfy` (module `Signatures`): `n_grams_merge`. It is a method with the
  source's loop, proved against a left-fold union.
- `similarity.dfy` (module `Similarity`): `jaccard_dist`. Similarity is the exact
  fraction `|A & B| / |A | B|`. Two fractions are compared by cross-multiplication.
- `classifier.dfy` (module `Classifier`): `parse_file`'s `"-1"` sentinel,
  `path_to_ngram`, and `text_path_to_topic_categorization`. That covers the
  similarity loop and `dist_list.index(max(dist_list))`. The module also builds a
  topic's signature from its readable training documents.
- `evaluation.dfy` (module `Evaluation`): the `nb_files` / `nb_success` counters of
  the dataset evaluation, and the rate `nb_success / nb_files`.
- `wrappers.dfy` (module `Wrappers`): `Option`, `Result`, and the `Fault` kinds for
  the errors the source raises.

Reading a file is represented by its outcome: `None` when the file cannot be opened
or read, `Some(content)` otherwise. The source raises three kinds of exception, in
four places (src/main.py:87, :189, :192 and :288), and each becomes an explicit
`Failure`:

- `ZeroDivision`: the Jaccard similarity of two empty sets, or a rate over zero files.
- `EmptyMax`: `max` of an empty similarity list, which happens when there are no signatures.
- `IndexOutOfRange`: the winning index lies past the end of the topic list.

A precondition would have hidden these cases, so the model returns a failure instead.

Three behaviours of the code are kept as written:

- Comparing an empty document bigram set with an empty signature divides by zero in
  `jaccard_dist` (src/main.py:87); the model returns `Failure(ZeroDivision)`.
- A readable document with fewer than two surviving tokens is not rejected. It gets an
  empty bigram list, not the `-1` sentinel, and it is still compared with every
  signature.
- A file whose content is literally `-1` is treated as unreadable.

## Model

| member | source | states |
|---|---|---|
| `Tokenizer.TextToWords` | src/main.py:63-69 | one normalised token per maximal run of word characters, in text order; the runs are characterised by the four `Words*` lemmas below and the split of the normalised tokens by `TextToWordsSplitAt` |
| `Tokenizer.WordsAreWords` | src/main.py:65 | every token produced by the split is non-empty and consists of word characters only |
| `Tokenizer.WordsKeepWordChars` | src/main.py:65 | concatenated in order, the tokens are exactly the word characters of the text: nothing is lost, reordered or invented |
| `Tokenizer.WordsSplitAt` | src/main.py:65 | a non-word character separates tokens: the words of `a + [sep] + b` are the words of `a` followed by the words of `b` |
| `Tokenizer.WordsOfOneWord` | src/main.py:65 | a non-empty run of word characters yields exactly one token, so tokens are maximal runs |
| `Tokenizer.TextToWordsSplitAt` | src/main.py:63-69 | after normalisation, the tokens still follow text order and split at every separator |
| `StopWords.RemoveStopWords` | src/main.py:26-30 | no output token is a stop word, every output token comes from the input, and the output is no longer than the input |
| `StopWords.RemoveStopWordsCounts` | src/main.py:26-30 | each non-stop word occurs in the output exactly as often as in the input; each stop word occurs zero times |
| `StopWords.RemoveStopWordsIsSubsequence` | src/main.py:28 | the output is a subsequence of the input, so the order of the surviving tokens is kept |
| `StopWords.RemoveStopWordsAppend` | src/main.py:28 | filtering a concatenation is concatenating the filtered parts: the decision is made token by token |
| `StopWords.RemoveStopWordsKeepsClean` | src/main.py:28 | an input with no stop word is returned unchanged |
| `StopWords.RemoveStopWordsIdempotent` | src/main.py:28 | filtering twice gives the same list as filtering once |
| `NGramExtractor.NGram` | src/main.py:33-41 | the loop that collects the windows and then joins each one returns exactly the n-gram list of the specification |
| `NGramExtractor.SlideShape` | src/main.py:37-39 | there are `max(0, len - n + 1)` windows, and window `i` is the slice `text[i:i+n]` |
| `NGramExtractor.NGramsShape` | src/main.py:33-41 | for `n != 1` the output has `max(0, len - n + 1)` entries, and entry `i` is tokens `i .. i+n-1` joined by single spaces |
| `NGramExtractor.NGramsOfShortText` | src/main.py:38 | with `n >= 2` and fewer than `n` tokens the output is empty |
| `NGramExtractor.Bigrams` | src/main.py:37-40 | for `n == 2` there are `len - 1` bigrams (none below two tokens), and bigram `i` is `text[i] + " " + text[i+1]` |
| `Signatures.Merge` | src/main.py:72-77 | the loop that starts from the empty set and applies `\|=` to each input returns the union of all the inputs |
| `Signatures.UnionAllMembers` | src/main.py:72-77 | an n-gram is in the merge exactly when some input set contains it, so an empty input list gives the empty set |
| `Signatures.UnionAllIsLeastUpperBound` | src/main.py:72-77 | every input is a subset of the merge, and the merge is a subset of every common superset of the inputs |
| `Signatures.UnionAllOrderFree` | src/main.py:72-77 | two input lists holding the same sets give the same merge, whatever their order and repetitions |
| `Signatures.UnionAllPermutation` | src/main.py:72-77 | feeding the documents in a permuted order does not change the signature |
| `Similarity.Jaccard` | src/main.py:84-87 | for a non-empty union, the similarity is a fraction in [0, 1] with a positive denominator; it is 1 exactly when the sets are equal and 0 exactly when they are disjoint |
| `Similarity.JaccardExample` | src/main.py:86-87 | `{x, y}` and `{y, z}` have similarity 1/3 |
| `Similarity.AtMostIsQuotientOrder` | src/main.py:87 | comparing by cross-multiplication agrees with comparing the quotients the source computes |
| `Similarity.AtMostTransitive` | src/main.py:189 | the order on similarities used to take the maximum is transitive |
| `Classifier.ParseFile` | src/main.py:44-52 | the content is the `-1` sentinel exactly when the file cannot be opened or read, or its content is itself `-1`; a successful read is returned unchanged |
| `Classifier.PathToNGram` | src/main.py:156-169 | the result is the sentinel exactly when the file cannot be read or its content is `-1`; the bigrams of a parsable document are stated by `PathToNGramOutcome` |
| `Classifier.PathToNGramOutcome` | src/main.py:161-169 | a parsable document's n-gram list holds one bigram per adjacent pair of surviving tokens, and none below two tokens |
| `Classifier.DegenerateDocument` | src/main.py:161-169 | a readable document with fewer than two surviving tokens gives an empty bigram list, not the sentinel |
| `Classifier.Similarities` | src/main.py:181-186 | when every union is non-empty there is one similarity per signature, in signature order, each the Jaccard similarity with the document; otherwise the computation raises a division by zero |
| `Classifier.FirstBestIsFirstMaximum` | src/main.py:189 | the index picked is maximal, and every earlier similarity is strictly smaller |
| `Classifier.FirstMaximumUnique` | src/main.py:189 | at most one index is the first maximum, so the tie-break is deterministic |
| `Classifier.DistList` | src/main.py:181-186 | the loop that fills `dist_list` returns the specified similarity list, or the division by zero |
| `Classifier.IndexOfMax` | src/main.py:189 | taking `max` and then the index of the first entry equal to it yields the first maximum |
| `Classifier.Categorization` | src/main.py:172-194 | the sentinel passes through as "unparsable"; the division by zero is raised exactly when some signature and the document are both empty; the empty `max` is raised exactly when there are no signatures; a detected topic is one of the topic names |
| `Classifier.CategorizationDetects` | src/main.py:181-194 | a readable document is categorized as `t` exactly when `t` is the topic name at the first index of maximal similarity |
| `Classifier.FirstBestTopicExists` | src/main.py:181-189 | with at least one signature and no empty union, some index is the first best |
| `Classifier.Categorize` | src/main.py:172-194 | the method with the source's loops returns exactly the specified categorization of the document read |
| `Classifier.CategorizationOfExactMatch` | src/main.py:181-194 | with two topics, a document whose bigram set equals the first signature and is disjoint from the second is classified under the first topic |
| `Classifier.TopicSignature` | src/main.py:114-130 | the merge over a topic's training documents contains the bigrams of every readable one; the converse is `TopicSignatureMembers` |
| `Classifier.TopicSignatureMembers` | src/main.py:114-130 | an n-gram is in a topic's signature exactly when some readable training document of that topic has it |
| `Evaluation.CountTopic` | src/main.py:272-286 | `nb_files` counts the documents that got a topic, `nb_success` counts those whose topic is the folder's, and `nb_success <= nb_files` |
| `Evaluation.SuccessesAtMostAttempts` | src/main.py:281-286 | a topic never has more successes than attempts |
| `Evaluation.CountsAppend` | src/main.py:274-286 | both counters add up over consecutive runs of documents |
| `Evaluation.CountsSkipUnparsable` | src/main.py:281-282 | an unparsable document changes neither counter |
| `Evaluation.AttemptsOfDetected` | src/main.py:283-284 | when every document gets a topic, `nb_files` is the number of documents |
| `Evaluation.SuccessRate` | src/main.py:288 | the rate fails with a division by zero exactly when `nb_files == 0`; otherwise it is the fraction `nb_success / nb_files` |
| `Evaluation.TopicRateAtMostOne` | src/main.py:288 | once a topic has at least one classified document, its rate is defined and at most 1 |

## Left out

- File and directory I/O is not modelled. That covers reading the stop-word file,
  the reading inside `parse_file`, `save_data_on_disk`, `json_to_ngram`, the
  `os.walk` traversals, and `shutil.rmtree`/`os.makedirs`. Their results are given
  as values: read outcomes, stop-word lists, signature lists and topic lists.
- The pairing of the order of `topics.json` with the file order of `json_to_ngram`
  is not modelled, and neither is the `zip` of topics with per-folder results. Both
  depend on the order in which the file system lists entries. Topics and signatures
  are taken as given parallel sequences.
- Unicode handling is not modelled: `unicodedata.normalize('NFD')`, the `Mn` filter,
  `str.lower` and the regex `\w` class are library calls. The model takes a
  word-character test and a normaliser as parameters. It relies on no word character
  being whitespace, which makes `re.sub(...).split()` the same as cutting at
  non-word characters.
- `Tokenizer.TextToWords`: non-emptiness and word-character content are proved for
  the tokens before normalisation only. The normaliser is a parameter, so nothing is
  known about what it returns.
- `n_gram` with a negative `n` is not modelled: `n` is a natural number. Python's
  negative slice indices are not reproduced. The program always calls it with `n = 2`.
- Floating point is not modelled. Similarities and rates are exact fractions. When
  two different fractions round to the same float, `max` and `index` in the source
  treat them as equal, while the model still tells them apart.
- `Classifier.IndexOfMax` requires positive denominators. Every similarity it is
  given comes from `Jaccard`, which guarantees that.
- `round(... * 100, 2)` percentages, the mean of the per-topic rates, the total
  file count and the chance rate `1 / len(topics_list)` are not modelled. They are
  float reporting only.
- `Evaluation.CountTopic` counts over the verdicts of a folder's documents. A fault
  raised while categorizing ends the whole program run in the source. That abort is
  not part of the counting model.
- The `number_files` counter of training is not modelled. It is only printed.
- Console colours, `print`/`input`, argument and menu parsing, and `quit`/`sys.exit`
  are presentation and are not modelled.
