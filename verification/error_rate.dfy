/** The batch evaluation of `Recognizer.checkErrorRate`: the test images are
    cut into one contiguous shard per thread, each shard is counted by its own
    worker with the same classifier, and the error counts are summed once all
    workers have stopped. The model runs the shards one after the other with
    one classifier; the Java threads also share the training images and
    write their `distance` fields, and that race is not modelled. */
module ErrorRate {
  import opened Java
  import opened Matrices
  import opened Streaming
  import opened Products

  /** The concatenation of the shards, in order. */
  function Flatten<T>(ss: seq<seq<T>>): seq<T> {
    if |ss| == 0 then [] else Flatten(ss[..|ss| - 1]) + ss[|ss| - 1]
  }

  /** The shard boundaries of `checkErrorRate` for n images and t threads:
      with p = n / t, boundary i < t is i * p and the last boundary is n. */
  function Bounds(n: nat, t: nat): (b: seq<nat>)
    requires t > 0
    ensures |b| == t + 1 && b[0] == 0 && b[t] == n
    ensures forall i :: 0 <= i < t ==> b[i] == i * (n / t)
  {
    seq(t + 1, i requires 0 <= i <= t => if i == t then n else i * (n / t))
  }

  /** Consecutive boundaries never decrease, so every shard is a valid slice. */
  lemma BoundsAscend(n: nat, t: nat)
    requires t > 0
    ensures forall i :: 0 <= i < t ==> Bounds(n, t)[i] <= Bounds(n, t)[i + 1]
  {
    var b := Bounds(n, t);
    forall i | 0 <= i < t
      ensures b[i] <= b[i + 1]
    {
      BoundsStep(n, t, i);
    }
  }

  lemma BoundsStep(n: nat, t: nat, i: nat)
    requires 0 <= i < t
    ensures i * (n / t) + n / t == (i + 1) * (n / t)
    ensures (i + 1) * (n / t) <= n
  {
    var p := n / t;
    DivFloor(n, t);
    MulMono(i + 1, t, p);
  }

  /** The last shard takes p + n mod t images. */
  lemma LastShardSize(n: nat, t: nat)
    requires t > 0
    ensures n - (t - 1) * (n / t) == n / t + n % t
  {
    var p := n / t;
    assert n == t * p + n % t;
    assert (t - 1) * p + p == t * p;
  }

  /** The slices of `tests` between consecutive boundaries. */
  function Slices<T>(tests: seq<T>, b: seq<nat>): (ss: seq<seq<T>>)
    requires |b| > 0 && b[|b| - 1] <= |tests|
    requires forall i :: 0 <= i < |b| - 1 ==> b[i] <= b[i + 1]
    ensures |ss| == |b| - 1
  {
    Monotone(b);
    seq(|b| - 1, i requires 0 <= i < |b| - 1 => tests[b[i]..b[i + 1]])
  }

  lemma {:induction false} Monotone(b: seq<nat>)
    requires forall i :: 0 <= i < |b| - 1 ==> b[i] <= b[i + 1]
    ensures forall i, j :: 0 <= i <= j < |b| ==> b[i] <= b[j]
  {
    if |b| > 1 {
      var front := b[..|b| - 1];
      assert forall i :: 0 <= i < |front| ==> front[i] == b[i];
      Monotone(front);
      forall i, j | 0 <= i <= j < |b|
        ensures b[i] <= b[j]
      {
        if j == |b| - 1 && i < j {
          assert front[i] <= front[j - 1];
        } else if i < j {
          assert front[i] <= front[j];
        }
      }
    }
  }

  /** Slices between consecutive boundaries tile the range they span. */
  lemma {:induction false} SlicesTile<T>(tests: seq<T>, b: seq<nat>, j: nat)
    requires |b| > 0 && b[|b| - 1] <= |tests|
    requires forall i :: 0 <= i < |b| - 1 ==> b[i] <= b[i + 1]
    requires j < |b|
    ensures b[0] <= b[j] <= |tests|
    ensures Flatten(Slices(tests, b)[..j]) == tests[b[0]..b[j]]
  {
    Monotone(b);
    var ss := Slices(tests, b);
    if j == 0 {
      assert ss[..0] == [];
    } else {
      SlicesTile(tests, b, j - 1);
      assert ss[..j][..j - 1] == ss[..j - 1];
      assert tests[b[0]..b[j]] == tests[b[0]..b[j - 1]] + tests[b[j - 1]..b[j]];
    }
  }

  /** The shards of `checkErrorRate`: with p = n / threads, shard i is the
      slice between boundaries i and i + 1. Allocating the worker array throws
      for a negative thread count, and the division throws for zero threads. */
  function Shards<T>(tests: seq<T>, numberOfThreads: int): (r: Result<seq<seq<T>>>)
    ensures numberOfThreads < 0 ==> r == Err(NegativeArraySize)
    ensures numberOfThreads == 0 ==> r == Err(Arithmetic)
    ensures numberOfThreads > 0 ==> r.Ok? && |r.value| == numberOfThreads
    ensures r.Ok? ==> Flatten(r.value) == tests
  {
    if numberOfThreads < 0 then Err(NegativeArraySize)
    else if numberOfThreads == 0 then Err(Arithmetic)
    else Ok(Split(tests, numberOfThreads))
  }

  /** The slices between the boundaries of `Bounds`. */
  function Split<T>(tests: seq<T>, t: nat): (ss: seq<seq<T>>)
    requires t > 0
    ensures |ss| == t
    ensures Flatten(ss) == tests
  {
    var b := Bounds(|tests|, t);
    BoundsAscend(|tests|, t);
    var ss := Slices(tests, b);
    SlicesTile(tests, b, t);
    assert ss[..t] == ss;
    ss
  }

  /** Shard i of the non-failing split is `tests[lo..hi]` with p = n /
      threads: lo = i * p, and hi = lo + p for every shard but the last,
      which ends at n and so holds p + n mod threads images. */
  lemma ShardLayout<T>(tests: seq<T>, numberOfThreads: int, i: nat) returns (lo: nat, hi: nat)
    requires numberOfThreads > 0 && i < numberOfThreads
    ensures Shards(tests, numberOfThreads).Ok?
    ensures lo == i * (|tests| / numberOfThreads)
    ensures i < numberOfThreads - 1 ==> hi == lo + |tests| / numberOfThreads
    ensures i == numberOfThreads - 1 ==> hi == |tests| && hi - lo == |tests| / numberOfThreads + |tests| % numberOfThreads
    ensures lo <= hi <= |tests|
    ensures Shards(tests, numberOfThreads).value[i] == tests[lo..hi]
  {
    var n := |tests|;
    var b := Bounds(n, numberOfThreads);
    BoundsAscend(n, numberOfThreads);
    BoundsStep(n, numberOfThreads, i);
    lo, hi := b[i], b[i + 1];
    assert Shards(tests, numberOfThreads).value[i] == tests[lo..hi];
    if i == numberOfThreads - 1 {
      LastShardSize(n, numberOfThreads);
    }
  }

  /** The summed error counts of shards counted in full. */
  function ShardErrors(recognize: Classifier, ss: seq<seq<MnistMatrix>>): nat {
    if |ss| == 0 then 0 else ShardErrors(recognize, ss[..|ss| - 1]) + Mismatches(recognize, ss[|ss| - 1])
  }

  /** Summing per-shard counts equals counting the concatenation in one pass. */
  lemma {:induction false} ShardErrorsAreSequential(recognize: Classifier, ss: seq<seq<MnistMatrix>>)
    ensures ShardErrors(recognize, ss) == Mismatches(recognize, Flatten(ss))
  {
    if |ss| > 0 {
      ShardErrorsAreSequential(recognize, ss[..|ss| - 1]);
      MismatchesConcat(recognize, Flatten(ss[..|ss| - 1]), ss[|ss| - 1]);
    }
  }

  /** For every thread count that does not throw, the summed shard errors
      equal the mismatch count of one sequential pass over the images. */
  lemma PartitionInvariance(recognize: Classifier, tests: seq<MnistMatrix>, numberOfThreads: int)
    requires numberOfThreads > 0
    ensures Shards(tests, numberOfThreads).Ok?
    ensures ShardErrors(recognize, Shards(tests, numberOfThreads).value) == Mismatches(recognize, tests)
  {
    ShardErrorsAreSequential(recognize, Shards(tests, numberOfThreads).value);
  }

  lemma InShard(tests: seq<MnistMatrix>, ss: seq<seq<MnistMatrix>>, i: nat, m: MnistMatrix)
    requires Flatten(ss) == tests && i < |ss| && m in ss[i]
    ensures m in tests
    decreases |ss|
  {
    if i < |ss| - 1 {
      InShard(Flatten(ss[..|ss| - 1]), ss[..|ss| - 1], i, m);
    }
  }

  /** The index of the first image of `s` whose classification throws, or
      `|s|` when none does: where a worker's loop stops. */
  function FirstFailure(recognize: Classifier, s: seq<MnistMatrix>): (n: nat)
    ensures n <= |s|
    ensures forall j :: 0 <= j < n ==> recognize(s[j]).Ok?
    ensures n < |s| ==> recognize(s[n]).Err?
  {
    if |s| == 0 || recognize(s[0]).Err? then 0
    else
      var n := 1 + FirstFailure(recognize, s[1..]);
      assert forall j :: 1 <= j < n ==> s[j] == s[1..][j - 1];
      n
  }

  /** A stop that every earlier image passes and that is the end or an
      exception is the first failure. */
  lemma {:induction false} FirstFailureUnique(recognize: Classifier, s: seq<MnistMatrix>, n: nat)
    requires n <= |s|
    requires forall j :: 0 <= j < n ==> recognize(s[j]).Ok?
    requires n < |s| ==> recognize(s[n]).Err?
    ensures FirstFailure(recognize, s) == n
  {
    if n > 0 {
      assert forall j :: 0 <= j < n - 1 ==> s[1..][j] == s[j + 1];
      FirstFailureUnique(recognize, s[1..], n - 1);
    }
  }

  /** The summed counts the workers report: each shard's mismatches before
      its first exception. */
  function PartialErrors(recognize: Classifier, ss: seq<seq<MnistMatrix>>): nat {
    if |ss| == 0 then 0
    else
      var last := ss[|ss| - 1];
      PartialErrors(recognize, ss[..|ss| - 1]) + Mismatches(recognize, last[..FirstFailure(recognize, last)])
  }

  /** What one worker adds to the total: never more than its shard's
      mismatches, and exactly those when no image of the batch throws. */
  lemma WorkerStep(recognize: Classifier, tests: seq<MnistMatrix>, ss: seq<seq<MnistMatrix>>,
                   i: nat, errors: nat, counter: nat)
    requires Flatten(ss) == tests && i < |ss| && counter <= |ss[i]|
    requires errors == Mismatches(recognize, ss[i][..counter])
    requires forall j :: 0 <= j < counter ==> recognize(ss[i][j]).Ok?
    requires counter < |ss[i]| ==> recognize(ss[i][counter]).Err?
    ensures ShardErrors(recognize, ss[..i + 1]) == ShardErrors(recognize, ss[..i]) + Mismatches(recognize, ss[i])
    ensures PartialErrors(recognize, ss[..i + 1]) == PartialErrors(recognize, ss[..i]) + errors
    ensures errors <= Mismatches(recognize, ss[i])
    ensures AllRecognized(recognize, tests) ==> errors == Mismatches(recognize, ss[i])
  {
    assert ss[..i + 1][..i] == ss[..i];
    FirstFailureUnique(recognize, ss[i], counter);
    MismatchesPrefix(recognize, ss[i], counter);
    if counter < |ss[i]| {
      InShard(tests, ss, i, ss[i][counter]);
    } else {
      assert ss[i][..counter] == ss[i];
    }
  }

  /** `checkErrorRate` with its workers run to completion and the final sum
      of `ErrorRateLogger`: the thread count is checked as the source does,
      every shard is counted by `RecognizeLoop` with the same classifier, and
      the counts are added up. The total is the sum over the shards of the
      mismatches before each shard's first exception: the sequential
      mismatch count when no classification throws, and never more. */
  method CheckErrorRate(recognize: Classifier, testMatrices: seq<MnistMatrix>, numberOfThreads: int)
    returns (r: Result<nat>)
    ensures numberOfThreads < 0 ==> r == Err(NegativeArraySize)
    ensures numberOfThreads == 0 ==> r == Err(Arithmetic)
    ensures numberOfThreads > 0 ==> r == Ok(PartialErrors(recognize, Shards(testMatrices, numberOfThreads).value))
    ensures numberOfThreads > 0 ==> r.Ok? && r.value <= Mismatches(recognize, testMatrices)
    ensures numberOfThreads > 0 && AllRecognized(recognize, testMatrices) ==>
      r == Ok(Mismatches(recognize, testMatrices))
  {
    var shards := Shards(testMatrices, numberOfThreads);
    if shards.Err? {
      return Err(shards.error);
    }
    var ss := shards.value;
    PartitionInvariance(recognize, testMatrices, numberOfThreads);
    var total: nat := 0;
    var i := 0;
    while i < |ss|
      invariant 0 <= i <= |ss|
      invariant total == PartialErrors(recognize, ss[..i])
      invariant total <= ShardErrors(recognize, ss[..i])
      invariant AllRecognized(recognize, testMatrices) ==> total == ShardErrors(recognize, ss[..i])
    {
      var errors, counter, failure, _ := RecognizeLoop(recognize, ss[i]);
      WorkerStep(recognize, testMatrices, ss, i, errors, counter);
      total := total + errors;
      i := i + 1;
    }
    assert ss[..|ss|] == ss;
    r := Ok(total);
  }
}
