/** One worker of the batch evaluation (`StreamingRecognition.recognizeLoop`):
    classifies its test images in order, counts the ones whose recognized
    label differs from the stored label, and refreshes a remaining-time
    estimate after each image. The classifier is a parameter; a thrown
    exception ends the worker with the count reached so far. */
module Streaming {
  import opened Java
  import opened Matrices

  /** What `recognizer.recognize` yields for one image: a label, or the
      exception that ends the worker thread. */
  type Classifier = MnistMatrix -> Result<int>

  /** The image is recognized, and as a label other than its own. */
  predicate Mismatch(recognize: Classifier, m: MnistMatrix) {
    recognize(m).Ok? && recognize(m).value != m.imageLabel
  }

  /** The number of mismatching images in `s`. */
  function Mismatches(recognize: Classifier, s: seq<MnistMatrix>): nat {
    if |s| == 0 then 0
    else Mismatches(recognize, s[..|s| - 1]) + (if Mismatch(recognize, s[|s| - 1]) then 1 else 0)
  }

  /** Every image of `s` is recognized without an exception. */
  predicate AllRecognized(recognize: Classifier, s: seq<MnistMatrix>) {
    forall m :: m in s ==> recognize(m).Ok?
  }

  /** Counting is additive over concatenation. */
  lemma {:induction false} MismatchesConcat(recognize: Classifier, a: seq<MnistMatrix>, b: seq<MnistMatrix>)
    ensures Mismatches(recognize, a + b) == Mismatches(recognize, a) + Mismatches(recognize, b)
  {
    if |b| == 0 {
      assert a + b == a;
    } else {
      assert (a + b)[..|a + b| - 1] == a + b[..|b| - 1];
      MismatchesConcat(recognize, a, b[..|b| - 1]);
    }
  }

  /** At most every image mismatches. */
  lemma {:induction false} MismatchesBound(recognize: Classifier, s: seq<MnistMatrix>)
    ensures Mismatches(recognize, s) <= |s|
  {
    if |s| > 0 {
      MismatchesBound(recognize, s[..|s| - 1]);
    }
  }

  /** A prefix never has more mismatches than the whole. */
  lemma MismatchesPrefix(recognize: Classifier, s: seq<MnistMatrix>, n: nat)
    requires n <= |s|
    ensures Mismatches(recognize, s[..n]) <= Mismatches(recognize, s)
  {
    assert s == s[..n] + s[n..];
    MismatchesConcat(recognize, s[..n], s[n..]);
  }

  /** `recognizeLoop`: `errorCounter` starts at 0 and is incremented exactly
      for each mismatching image; `counter` is the index of the image being
      classified. The loop stops at the end of the images or at the first
      exception, with `errorCounter` the mismatches among the images before
      it. `multipliers` records the integer factor `length - counter` of each
      remaining-time estimate, which stays in [1, length]. */
  method RecognizeLoop(recognize: Classifier, testMatrices: seq<MnistMatrix>)
    returns (errorCounter: nat, counter: nat, failure: Option<Exception>, multipliers: seq<int>)
    ensures counter <= |testMatrices|
    ensures forall i :: 0 <= i < counter ==> recognize(testMatrices[i]).Ok?
    ensures failure.None? <==> counter == |testMatrices|
    ensures failure.Some? ==> recognize(testMatrices[counter]) == Err(failure.value)
    ensures errorCounter == Mismatches(recognize, testMatrices[..counter])
    ensures errorCounter <= counter
    ensures |multipliers| == counter
    ensures forall i :: 0 <= i < counter ==> multipliers[i] == |testMatrices| - i
    ensures forall i :: 0 <= i < counter ==> 1 <= multipliers[i] <= |testMatrices|
  {
    errorCounter := 0;
    counter := 0;
    failure := None;
    multipliers := [];
    while counter < |testMatrices|
      invariant 0 <= counter <= |testMatrices|
      invariant forall i :: 0 <= i < counter ==> recognize(testMatrices[i]).Ok?
      invariant errorCounter == Mismatches(recognize, testMatrices[..counter])
      invariant |multipliers| == counter
      invariant forall i :: 0 <= i < counter ==> multipliers[i] == |testMatrices| - i
    {
      var testMatrix := testMatrices[counter];
      var recognized := recognize(testMatrix);
      if recognized.Err? {
        failure := Some(recognized.error);
        MismatchesBound(recognize, testMatrices[..counter]);
        return;
      }
      assert testMatrices[..counter + 1][..counter] == testMatrices[..counter];
      if recognized.value != testMatrix.imageLabel {
        errorCounter := errorCounter + 1;
      }
      multipliers := multipliers + [|testMatrices| - counter];
      counter := counter + 1;
    }
    MismatchesBound(recognize, testMatrices[..counter]);
  }
}
