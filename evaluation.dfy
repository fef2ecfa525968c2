/** Per-topic accuracy counting over the verdicts of the documents of one topic folder. */
module Evaluation {
  import opened Wrappers
  import opened Similarity
  import opened Classifier

  /** How many verdicts name a topic (the `-1` sentinel is not an attempt). */
  function Attempts(verdicts: seq<Verdict>): nat {
    if verdicts == [] then 0
    else Attempts(verdicts[..|verdicts| - 1]) + (if verdicts[|verdicts| - 1].Detected? then 1 else 0)
  }

  /** How many verdicts name `topic`. */
  function Successes(verdicts: seq<Verdict>, topic: string): nat {
    if verdicts == [] then 0
    else
      var last := verdicts[|verdicts| - 1];
      Successes(verdicts[..|verdicts| - 1], topic) + (if last.Detected? && last.topic == topic then 1 else 0)
  }

  /** A topic can never have more successes than attempts. */
  lemma {:induction false} SuccessesAtMostAttempts(verdicts: seq<Verdict>, topic: string)
    ensures Successes(verdicts, topic) <= Attempts(verdicts)
  {
    if verdicts != [] {
      SuccessesAtMostAttempts(verdicts[..|verdicts| - 1], topic);
    }
  }

  /** Both counters add up over consecutive runs of documents. */
  lemma {:induction false} CountsAppend(a: seq<Verdict>, b: seq<Verdict>, topic: string)
    ensures Attempts(a + b) == Attempts(a) + Attempts(b)
    ensures Successes(a + b, topic) == Successes(a, topic) + Successes(b, topic)
  {
    if b == [] {
      assert a + b == a;
    } else {
      var init := b[..|b| - 1];
      CountsAppend(a, init, topic);
      assert (a + b)[..|a + b| - 1] == a + init;
    }
  }

  /** An unparsable document changes neither counter. */
  lemma {:induction false} CountsSkipUnparsable(a: seq<Verdict>, b: seq<Verdict>, topic: string)
    ensures Attempts(a + [Unparsable] + b) == Attempts(a + b)
    ensures Successes(a + [Unparsable] + b, topic) == Successes(a + b, topic)
  {
    CountsAppend(a + [Unparsable], b, topic);
    CountsAppend(a, [Unparsable], topic);
    CountsAppend(a, b, topic);
    assert [Unparsable][..0] == [];
  }

  /** When every document gets a topic, every document is an attempt. */
  lemma {:induction false} AttemptsOfDetected(verdicts: seq<Verdict>)
    requires forall i :: 0 <= i < |verdicts| ==> verdicts[i].Detected?
    ensures Attempts(verdicts) == |verdicts|
  {
    if verdicts != [] {
      AttemptsOfDetected(verdicts[..|verdicts| - 1]);
    }
  }

  /** The `nb_files` / `nb_success` loop of the dataset evaluation, for one topic folder. */
  method CountTopic(topicName: string, verdicts: seq<Verdict>) returns (nbFiles: nat, nbSuccess: nat)
    ensures nbFiles == Attempts(verdicts) && nbSuccess == Successes(verdicts, topicName)
    ensures nbSuccess <= nbFiles
  {
    nbFiles, nbSuccess := 0, 0;
    for i := 0 to |verdicts|
      invariant nbFiles == Attempts(verdicts[..i]) && nbSuccess == Successes(verdicts[..i], topicName)
    {
      assert verdicts[..i + 1][..i] == verdicts[..i];
      match verdicts[i]
      case Unparsable =>
      case Detected(detectedTopic) =>
        nbFiles := nbFiles + 1;
        if detectedTopic == topicName {
          nbSuccess := nbSuccess + 1;
        }
    }
    assert verdicts[..|verdicts|] == verdicts;
    SuccessesAtMostAttempts(verdicts, topicName);
  }

  /** `nb_success / nb_files`, which divides by zero when no document was classified. */
  function SuccessRate(nbSuccess: nat, nbFiles: nat): (r: Result<Ratio, Fault>)
    ensures r.Failure? <==> nbFiles == 0
    ensures r.Failure? ==> r.error == ZeroDivision
    ensures r.Success? ==> 0 < r.value.den && r.value.num * nbFiles == nbSuccess * r.value.den
  {
    if nbFiles == 0 then Failure(ZeroDivision) else Success(Ratio(nbSuccess, nbFiles))
  }

  /** The rate of a topic folder in which at least one document was classified lies in [0, 1]. */
  lemma {:induction false} TopicRateAtMostOne(verdicts: seq<Verdict>, topic: string)
    requires Attempts(verdicts) > 0
    ensures SuccessRate(Successes(verdicts, topic), Attempts(verdicts)).Success?
    ensures AtMost(SuccessRate(Successes(verdicts, topic), Attempts(verdicts)).value, Ratio(1, 1))
  {
    SuccessesAtMostAttempts(verdicts, topic);
  }
}
