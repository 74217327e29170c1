/** The batch evaluation of `checkErrorRate` with the classifier it really
    uses: every shard builds `new Recognizer(k, metricType, trainMatrices)`
    from the same three values, and `predict` is a function of them and the
    query, so every shard classifies as one `Predict` does. */
module Evaluation {
  import opened Java
  import opened Matrices
  import opened TreeSetModel
  import opened Streaming
  import opened Recognition
  import opened ErrorRate

  /** Every test image has the training images' shape. */
  predicate AllComparable(rec: Recognizer, tests: seq<MnistMatrix>) {
    forall i :: 0 <= i < |tests| ==> Comparable(rec, tests[i])
  }

  /** `recognize` agrees with `Predict` on every test image. */
  predicate Predicts(vote: Vote, rec: Recognizer, recognize: Classifier, tests: seq<MnistMatrix>)
    requires AllComparable(rec, tests)
  {
    forall i :: 0 <= i < |tests| ==> recognize(tests[i]) == Predict(vote, rec, tests[i])
  }

  /** `predict` returns a label for the query: k is positive and there are
      at least k distinct training distances. */
  predicate Answers(rec: Recognizer, query: MnistMatrix)
    requires Comparable(rec, query)
  {
    1 <= rec.k <= |Distances(Scored(rec, query))|
  }

  /** The prediction for `query` is a label other than its own. */
  predicate Wrong(vote: Vote, rec: Recognizer, query: MnistMatrix)
    requires Comparable(rec, query)
  {
    var p := Predict(vote, rec, query);
    p.Ok? && p.value != query.imageLabel
  }

  /** The number of test images whose predicted label is not their own. */
  function WrongPredictions(vote: Vote, rec: Recognizer, tests: seq<MnistMatrix>): nat
    requires AllComparable(rec, tests)
  {
    if |tests| == 0 then 0
    else WrongPredictions(vote, rec, tests[..|tests| - 1]) + (if Wrong(vote, rec, tests[|tests| - 1]) then 1 else 0)
  }

  /** One test image: the classifier throws exactly when `predict` does not
      answer, and mismatches exactly when the prediction is wrong. */
  lemma PredictedImage(vote: Vote, rec: Recognizer, recognize: Classifier, query: MnistMatrix)
    requires Comparable(rec, query) && recognize(query) == Predict(vote, rec, query)
    ensures recognize(query).Ok? <==> Answers(rec, query)
    ensures Mismatch(recognize, query) <==> Wrong(vote, rec, query)
  {
  }

  /** Counting the classifier's mismatches counts the wrong predictions. */
  lemma {:induction false} MismatchesArePredictions(vote: Vote, rec: Recognizer, recognize: Classifier,
                                                    tests: seq<MnistMatrix>)
    requires AllComparable(rec, tests) && Predicts(vote, rec, recognize, tests)
    ensures Mismatches(recognize, tests) == WrongPredictions(vote, rec, tests)
  {
    if |tests| > 0 {
      var front := tests[..|tests| - 1];
      assert forall i :: 0 <= i < |front| ==> front[i] == tests[i];
      MismatchesArePredictions(vote, rec, recognize, front);
      PredictedImage(vote, rec, recognize, tests[|tests| - 1]);
    }
  }

  /** The classifier never throws on the test images exactly when `predict`
      answers every one of them. */
  lemma RecognizedArePredicted(vote: Vote, rec: Recognizer, recognize: Classifier, tests: seq<MnistMatrix>)
    requires AllComparable(rec, tests) && Predicts(vote, rec, recognize, tests)
    ensures AllRecognized(recognize, tests) <==> forall i :: 0 <= i < |tests| ==> Answers(rec, tests[i])
  {
    if AllRecognized(recognize, tests) {
      forall i | 0 <= i < |tests|
        ensures Answers(rec, tests[i])
      {
        assert tests[i] in tests;
        PredictedImage(vote, rec, recognize, tests[i]);
      }
    }
    if forall i :: 0 <= i < |tests| ==> Answers(rec, tests[i]) {
      forall m | m in tests
        ensures recognize(m).Ok?
      {
        var i :| 0 <= i < |tests| && tests[i] == m;
        PredictedImage(vote, rec, recognize, tests[i]);
      }
    }
  }

  /** `checkErrorRate` of one recognizer configuration: the thread-count
      errors are those of the split; when `predict` answers every test image
      the total is the number of wrong predictions, whatever the thread
      count, and it is never more than that otherwise. */
  method CheckPredictErrorRate(vote: Vote, rec: Recognizer, recognize: Classifier,
                               testMatrices: seq<MnistMatrix>, numberOfThreads: int)
    returns (r: Result<nat>)
    requires AllComparable(rec, testMatrices) && Predicts(vote, rec, recognize, testMatrices)
    ensures numberOfThreads < 0 ==> r == Err(NegativeArraySize)
    ensures numberOfThreads == 0 ==> r == Err(Arithmetic)
    ensures numberOfThreads > 0 ==> r.Ok? && r.value <= WrongPredictions(vote, rec, testMatrices)
    ensures numberOfThreads > 0 && (forall i :: 0 <= i < |testMatrices| ==> Answers(rec, testMatrices[i])) ==>
      r == Ok(WrongPredictions(vote, rec, testMatrices))
  {
    MismatchesArePredictions(vote, rec, recognize, testMatrices);
    RecognizedArePredicted(vote, rec, recognize, testMatrices);
    r := CheckErrorRate(recognize, testMatrices, numberOfThreads);
  }
}
