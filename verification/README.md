# Digit-Recognizer in Dafny

A model of the core of Digit-Recognizer, a k-nearest-neighbour classifier for
MNIST handwritten digits. The model covers:

- **Metrics**: the two pixel-grid dissimilarities, taxicab and Euclidean. The
  Euclidean distance is modelled by its integer sum before the square root;
  the root is strictly increasing, so it orders images the same way.
- **Matrices**: the `MnistMatrix` image record. It has a fixed-size grid, a
  label and a `distance` sort key, and its `compareTo` looks only at the
  distance.
- **TreeSetModel**: the `TreeSet<MnistMatrix>` that `predict` fills. It is
  modelled by its iteration sequence. Because `compareTo` ignores the image,
  only the first image added at each distance is kept.
- **Recognition**: `predict` and `findMajority`, modelled as written.
  - Each training image gets its distance to the query.
  - The TreeSet keeps one image per distinct distance.
  - The first k survivors fill a k-slot array; the slots past the end stay
    null.
  - The vote scores the first occurrence of label L as L and each later
    occurrence as +1, in 32-bit `int` arithmetic. It returns some label of
    maximal score.
  - The plurality vote the source evidently meant is modelled alongside
    (see Findings).
- **Streaming**: `recognizeLoop`, one worker's error count over its shard.
- **ErrorRate**: `checkErrorRate`.
  - The test images are cut into one contiguous shard per thread.
  - Each shard is counted by a worker, and `ErrorRateLogger` sums the counts.
  - The classifier is a parameter: any deterministic function from an image
    to a label or an exception. The batch theorems hold for every such
    classifier.
- **Evaluation**: `checkErrorRate` with the classifier it builds. Each shard
  gets `new Recognizer(k, metricType, trainMatrices)` from the same three
  values, and `predict` is a function of them and the query. So every shard
  classifies as one `Predict` does, and the total counts wrong predictions.
- **MnistDataReader**: `readData` as a decoder over the bytes of the two IDX
  files.
  - `ReadData` follows the source's reads one by one. It is proved equal to
    the layout function `Decode`.
  - An encoder and a round-trip lemma are its partner.
- **Java**: the Java behaviour the code relies on.
  - The exceptions it can end with, carried in a `Result`.
  - 32-bit wrap-around, for the taxicab `int` accumulator and the vote's
    `Integer` scores.
  - Saturating narrowing, for `sum += Math.pow(..)` with an `int` sum.

Java exceptions are values of `Java.Exception`:

- `NegativeArraySize`: `new T[n]` with n < 0.
- `EndOfFile`: a read past the end of a file.
- `NullPointer`: a null slot in the vote.
- `NoSuchElement`: `Collections.max` of an empty map.
- `Arithmetic`: division by zero.

## Model

| member | source | states |
|---|---|---|
| Matrices.New | src/utils/mnist_data_io/MnistMatrix.java:42-46 | A negative dimension throws NegativeArraySize. Otherwise the matrix has exactly rows x cols cells, all 0, with label 0 and distance 0. |
| Matrices.GetValue | src/utils/mnist_data_io/MnistMatrix.java:53-55 | Reads one cell; a pixel of a byte image is a byte. The requires excludes indices outside the grid, where Java throws ArrayIndexOutOfBoundsException; every caller in the source stays inside the grid. |
| Matrices.SetValue | src/utils/mnist_data_io/MnistMatrix.java:91-93 | Afterwards GetValue(r, c) is v. Every other cell, the dimensions, the label and the distance are unchanged. |
| Matrices.SetLabel | src/utils/mnist_data_io/MnistMatrix.java:99-101 | Only the label changes; the grid, dimensions and distance are kept. |
| Matrices.SetDistance | src/utils/mnist_data_io/MnistMatrix.java:107-109 | Only the distance changes; the grid, dimensions and label are kept. |
| Matrices.CompareTo | src/utils/mnist_data_io/MnistMatrix.java:111-114 | The result is negative, zero or positive exactly as this distance is <, = or > the other's. It lies in [-1, 1]. |
| Matrices.CompareToIgnoresImage | src/utils/mnist_data_io/MnistMatrix.java:111-114 | Two different images can compare as 0, so the order is not consistent with equality. |
| Metrics.Distance | src/digit_recognizer/Metrics.java:45-49 | For grids of one shape, the distance is 0 exactly when every pixel matches, under both metrics. |
| Metrics.DistanceSymmetric | src/digit_recognizer/Metrics.java:45-47 | Both metrics are symmetric for grids of one shape. |
| Metrics.DistanceToSelf | src/digit_recognizer/Metrics.java:45-47 | Every shaped grid is at distance 0 from itself. |
| Metrics.DistanceBound | src/digit_recognizer/Metrics.java:24-30 | With byte pixels the sum is at most rows * cols * 255 (taxicab) or rows * cols * 255^2 (Euclidean). |
| Metrics.MnistDistanceFits | src/digit_recognizer/Metrics.java:24-28 | For 28 x 28 byte images, both sums fit in an `int`. |
| Metrics.TaxicabGeometry | src/digit_recognizer/Metrics.java:42-52 | The `int` accumulator returns the exact taxicab sum wrapped to 32 bits. It is the sum itself when rows * cols * 255 fits in an `int`. |
| Metrics.TaxicabRow | src/digit_recognizer/Metrics.java:46-48 | One pass of the column loop adds the row's absolute differences to the `int` sum with wrap-around. Wrapping after every addition gives the exact total wrapped once. |
| Metrics.EuclideanAccumulator | src/digit_recognizer/Metrics.java:23-30 | The accumulator returns the exact sum of squared differences, capped at MaxInt by the double-to-int narrowing. It is the sum itself when rows * cols * 255^2 fits. |
| Metrics.EuclideanRow | src/digit_recognizer/Metrics.java:27-29 | One pass of the column loop adds the row's squared differences to the `int` sum. Narrowing after every addition gives the exact total capped at MaxInt once. |
| TreeSetModel.Add | src/digit_recognizer/Recognizer.java:83 | Adding keeps the set ascending and adds the element's distance. The set is unchanged when that distance is already present, and grows by one element otherwise. No element other than the new one appears. |
| TreeSetModel.Build | src/digit_recognizer/Recognizer.java:75-84 | The set after all insertions is ascending and has exactly the distances of the inserted images. Each survivor is the first inserted image at its distance. |
| Recognition.Scored | src/digit_recognizer/Recognizer.java:77-82 | Each training image's distance is overwritten with its metric distance to the query. Its pixels, dimensions and label are unchanged. |
| Recognition.Nearest | src/digit_recognizer/Recognizer.java:75-84 | The TreeSet has one image per distinct training distance. |
| Recognition.TallyScores | src/digit_recognizer/Recognizer.java:57-63 | The map holds exactly the labels seen. Label L maps to L + count(L) - 1 wrapped to 32 bits as written, or to count(L) under the plurality vote. |
| Recognition.Majority | src/digit_recognizer/Recognizer.java:56-66 | A null slot throws NullPointer; an empty array throws NoSuchElement. Otherwise the result is a slot label of maximal score. |
| Recognition.BestLabel | src/digit_recognizer/Recognizer.java:65 | `Collections.max` by value over the entries: the result is one of the labels, and its score is at least every label's score. |
| Recognition.FindMajority | src/digit_recognizer/Recognizer.java:56-66 | The vote as written: a slot label L maximising L + count(L) - 1 in 32-bit arithmetic. With byte labels this is L + count(L) itself. |
| Recognition.ByteScoresDoNotWrap | src/digit_recognizer/Recognizer.java:60-62 | With labels in [0, 255] and fewer than 2^31 - 255 slots, no score wraps. |
| Recognition.FindMajorityWraps | src/digit_recognizer/Recognizer.java:60-65 | With neighbour labels MaxInt, MaxInt, 0 the second MaxInt wraps its score to MinInt, and the vote returns 0. |
| Recognition.PluralityVote | src/digit_recognizer/Recognizer.java:56-66 | The corrected vote: a slot label of maximal count. |
| Recognition.FindMajorityIsNotPlurality | src/digit_recognizer/Recognizer.java:60-62 | With neighbour labels 1, 1, 9 the vote as written returns 9, though 1 occurs more often. |
| Recognition.Predict | src/digit_recognizer/Recognizer.java:73-95 | The result is Ok exactly when 1 <= k <= the number of distinct distances. Otherwise: k < 0 gives NegativeArraySize, k = 0 NoSuchElement, and a larger k NullPointer. A label is one of the first k survivors' labels with maximal score: L + count(L) - 1 in 32-bit arithmetic as written, count(L) under the plurality vote. |
| Recognition.SuitableSlots | src/digit_recognizer/Recognizer.java:86-92 | With k no larger than the set, the k slots are its first k images. With a larger k, the slot just past the set is null. |
| Recognition.NeighboursAreNearest | src/digit_recognizer/Recognizer.java:86-92 | The selected images have the k smallest distinct distances, in ascending order. Every training distance is among them or larger than all of them. Each selected image is the lowest-index training image at its distance. |
| Recognition.PredictOneIsNearest | src/digit_recognizer/Recognizer.java:86-94 | With k = 1 and a non-empty training set, the result is the label of the lowest-index training image at minimum distance. |
| Recognition.PredictIgnoresStaleDistances | src/digit_recognizer/Recognizer.java:77-83 | Distances left in the training images by earlier calls never change the result. |
| Streaming.RecognizeLoop | src/digit_recognizer/StreamingRecognition.java:52-65 | Images are classified once each, in order. The loop stops at the end or at the first exception, which is the result at index `counter`. `errorCounter` is the number of mismatches before `counter`, and at most `counter`. Each time-estimate multiplier is length - index and lies in [1, length]. |
| Streaming.MismatchesBound | src/digit_recognizer/StreamingRecognition.java:56-64 | A batch never has more mismatches than images. |
| ErrorRate.Shards | src/digit_recognizer/Recognizer.java:117-127 | A negative thread count throws NegativeArraySize, and zero throws Arithmetic. Otherwise there is one shard per thread, and the shards concatenate to the test images. |
| ErrorRate.ShardLayout | src/digit_recognizer/Recognizer.java:120-127 | With p = n / t, shard i < t - 1 is [i*p, (i+1)*p) and has size p. The last shard is [(t-1)*p, n) and has size p + n mod t. |
| ErrorRate.LastShardSize | src/digit_recognizer/Recognizer.java:120-126 | The last shard's size is p + n mod t. |
| ErrorRate.ShardErrorsAreSequential | src/digit_recognizer/ErrorRateLogger.java:64-66 | Summing the shards' mismatch counts equals counting their concatenation in one pass. |
| ErrorRate.PartitionInvariance | src/digit_recognizer/Recognizer.java:122-129 | For every positive thread count, the summed shard errors equal the sequential mismatch count. |
| ErrorRate.FirstFailure | src/digit_recognizer/StreamingRecognition.java:52-65 | The index where a worker stops: every earlier image is classified, and the image there throws unless it is the end. |
| ErrorRate.FirstFailureUnique | src/digit_recognizer/StreamingRecognition.java:52-65 | Any index with that property is the first failure. |
| ErrorRate.CheckErrorRate | src/digit_recognizer/Recognizer.java:117-136 | The thread-count errors are those of the split. Otherwise the total is exactly the sum over the shards of the mismatches before each shard's first exception, as `ErrorRateLogger` adds the workers' counters. It equals the sequential mismatch count when no classification throws, and never exceeds it. |
| Evaluation.PredictedImage | src/digit_recognizer/Recognizer.java:104-106 | For one image, `recognize` throws exactly when `predict` has no answer, and mismatches exactly when the prediction is wrong. |
| Evaluation.MismatchesArePredictions | src/digit_recognizer/StreamingRecognition.java:56-64 | Counting a worker's mismatches with `recognize` counts the wrong predictions. |
| Evaluation.RecognizedArePredicted | src/digit_recognizer/Recognizer.java:73-95 | No test image throws exactly when `predict` answers every test image. |
| Evaluation.CheckPredictErrorRate | src/digit_recognizer/Recognizer.java:117-136 | With each shard's own `Recognizer` of the same k, metric and training images: when `predict` answers every test image, the total is the number of wrong predictions for every thread count. It is never more than that. |
| MnistDataReader.ReadInt | src/utils/mnist_data_io/MnistDataReader.java:46-53 | Fewer than four bytes left is EndOfFile. Otherwise the result is an `int`. |
| MnistDataReader.IntRoundTrip | src/utils/mnist_data_io/MnistDataReader.java:46-49 | Reading back the four big-endian bytes of any `int` gives that `int`. |
| MnistDataReader.ReadUnsignedByte | src/utils/mnist_data_io/MnistDataReader.java:70-73 | Reading past the end is EndOfFile. Otherwise the result is the byte at the position. |
| MnistDataReader.ReadPixels | src/utils/mnist_data_io/MnistDataReader.java:71-75 | The cell loops fill the grid row-major from rows * cols consecutive bytes. It is EndOfFile exactly when they are not all there. |
| MnistDataReader.ReadRow | src/utils/mnist_data_io/MnistDataReader.java:72-74 | Row r becomes the next cols bytes, in order, and nothing else in the matrix changes. It is EndOfFile exactly when fewer than cols bytes remain. |
| MnistDataReader.ReadItems | src/utils/mnist_data_io/MnistDataReader.java:64-77 | The item loop yields exactly the layout for the header's count and dimensions, including its errors. |
| MnistDataReader.ReadData | src/utils/mnist_data_io/MnistDataReader.java:43-81 | The whole read, in the source's order, returns exactly the decoded layout or the same exception. |
| MnistDataReader.Decode | src/utils/mnist_data_io/MnistDataReader.java:43-81 | Every decoded image is shaped, with byte pixels, a byte label and distance 0. |
| MnistDataReader.DecodeLayout | src/utils/mnist_data_io/MnistDataReader.java:64-76 | The number of items is the header's count. Item i has the header's dimensions and label byte 8 + i. Its pixel (r, c) is byte 16 + i*rows*cols + r*cols + c. |
| MnistDataReader.HeaderFieldsIgnored | src/utils/mnist_data_io/MnistDataReader.java:46-53 | Files that differ only in the magic numbers or the label count decode alike. |
| MnistDataReader.SurplusLabelsIgnored | src/utils/mnist_data_io/MnistDataReader.java:66-70 | Extra label bytes after a successful decode change nothing. |
| MnistDataReader.RoundTrip | src/utils/mnist_data_io/MnistDataReader.java:43-81 | Decoding the files written for any list of byte images of one shape gives the list back, whatever the magic numbers. |

## Left out

- Concurrency is not modelled. This covers `Thread.start`/`run`, `synchronized` on `predict`, and the `ErrorRateLogger` polling loop (`isAlive`, `sleep`). The workers are run one after another, each with a recognizer of the same configuration.
- The race on the training images' `distance` field is not modelled. The workers share the training images, and each one's recognizer writes their `distance` while another may be filling its TreeSet, which orders by that field. `synchronized` does not prevent this, since each shard locks its own recognizer. In the model, distances are per-call values in `Recognition.Scored`, and `Recognition.PredictIgnoresStaleDistances` shows a stored distance never affects a result of one call.
- Floating point and wall-clock time are not modelled. This covers `Math.sqrt`, the `double` distance beyond its order, the remaining-time estimate (only its integer multiplier is kept), and the float error percentage.
- Console output is not modelled: progress strings, the `showInfo` dump and `Main`.
- File opening, buffering and closing are not modelled. The decoder works on the files' bytes.
- `MetricTypes.java` has no behaviour; it is the datatype `Metrics.MetricType`.
- The getters and setters of `Recognizer`, and `recognize`, are not modelled: they only forward or store values.
- Recognition.Majority: when several labels share the maximal score, the contract promises only maximality. The `HashMap` iteration order that picks one in Java is not specified by the code.
- Recognition.Predict: requires the query to have the shape of every training image. With a smaller query the Java loops index out of bounds, and with a larger one they ignore the extra cells; neither case is modelled.
- Recognition.Predict: uses the unbounded distance sums, not the 32-bit accumulators. `Metrics.MnistDistanceFits` and the accumulator contracts show that the two agree for 28 x 28 byte images.
- Metrics.TaxicabGeometry: requires byte pixels, which is what the reader produces. The wrap-around itself is modelled for every size.
- Metrics.EuclideanAccumulator: requires byte pixels, as above.
- Metrics.TaxicabRow: requires byte pixels, as its caller does. On arbitrary `int` pixels Java's `getValue - getValue` wraps and `Math.abs(MinInt)` is negative; neither is modelled.
- Metrics.EuclideanRow: requires byte pixels, as its caller does. The wrapped `int` difference that `Math.pow` squares on arbitrary `int` pixels is not modelled.
- The Euclidean distance is not modelled as a `double`. Two integer sums below 2^31 have distinct `double` square roots in the same order, so the TreeSet classes are the same.
- `Recognizer.checkErrorRate`'s `new Recognizer(k, metricType, trainMatrices)` per shard is represented by one classifier passed to every shard. The recognizers have the same configuration, so they classify alike (`Evaluation.CheckPredictErrorRate`).
- Running out of memory is not modelled. The reader can hit it for huge header dimensions, and `Recognition.Predict` for a huge k at `new MnistMatrix[this.k]`, where the model gives NullPointer instead of `OutOfMemoryError`.
- The reader does not model the `assert numberOfItems == numberOfLabels` check. Java assertions are disabled by default, so a count mismatch is not an error; surplus labels are ignored, and missing ones end in EndOfFile.
- The vote has no deterministic tie-break, the reader does not compare the item and label counts, and the metrics do not check dimensions; the model has none of these either.

## Findings

| source | as written | input that shows it | evidently intended | confidence | as-written member | corrected member |
|---|---|---|---|---|---|---|
| src/digit_recognizer/Recognizer.java:61 | The first occurrence of label L stores L in the count map, so L scores L + count(L) - 1 and larger digits are favoured. | Neighbour labels 1, 1, 9: score(1) = 2 and score(9) = 9, so 9 is returned although 1 is the majority. | The first occurrence stores 1, so the map counts occurrences and the vote is a plurality. | high (not executed) | Recognition.FindMajority, with Recognition.FindMajorityIsNotPlurality | Recognition.PluralityVote, used by Recognition.Predict with the vote Plurality |
