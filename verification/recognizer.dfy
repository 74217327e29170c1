/** The k-nearest-neighbour classifier as `Recognizer.predict` and
    `findMajority` implement it:
    - every training image gets its distance to the query and goes into a
      TreeSet ordered by distance, where only the first image at each
      distance survives;
    - the first k survivors fill an array of k slots, the rest stay null;
    - the vote scores the first occurrence of label L as L (not 1) and every
      later occurrence as +1 in 32-bit `int` arithmetic, and returns some
      label of maximal score; the
      plurality vote it was evidently meant to be is modelled alongside.
    The distance written into each training image is a per-call value here:
    `Scored` returns updated copies instead of mutating shared images. */
module Recognition {
  import opened Java
  import opened Matrices
  import opened Metrics
  import opened TreeSetModel

  /** A recognizer's configuration: neighbour count, metric, training images. */
  datatype Recognizer = Recognizer(k: int, metricType: MetricType, trainMatrices: seq<MnistMatrix>)

  /** The query and every training image have the same dimensions. */
  predicate Comparable(rec: Recognizer, query: MnistMatrix) {
    forall i :: 0 <= i < |rec.trainMatrices| ==> SameShape(query, rec.trainMatrices[i])
  }

  function Dist(rec: Recognizer, query: MnistMatrix, i: int): nat
    requires Comparable(rec, query) && 0 <= i < |rec.trainMatrices|
  {
    Distance(rec.metricType, query, rec.trainMatrices[i])
  }

  /** The training images after the distance loop of `predict`: each one's
      distance is overwritten with its metric distance to the query, and
      nothing else about it changes. */
  function Scored(rec: Recognizer, query: MnistMatrix): (s: seq<MnistMatrix>)
    requires Comparable(rec, query)
    ensures |s| == |rec.trainMatrices|
    ensures forall i :: 0 <= i < |s| ==>
      && s[i].data == rec.trainMatrices[i].data
      && s[i].nRows == rec.trainMatrices[i].nRows && s[i].nCols == rec.trainMatrices[i].nCols
      && s[i].imageLabel == rec.trainMatrices[i].imageLabel
      && s[i].distance == Dist(rec, query, i)
  {
    seq(|rec.trainMatrices|, i requires 0 <= i < |rec.trainMatrices| =>
      SetDistance(rec.trainMatrices[i], Dist(rec, query, i)))
  }

  /** The TreeSet built by `predict`, in iteration order. */
  function Nearest(rec: Recognizer, query: MnistMatrix): (tree: seq<MnistMatrix>)
    requires Comparable(rec, query)
    ensures |tree| == |Distances(Scored(rec, query))|
  {
    AscendingCount(Build(Scored(rec, query)));
    Build(Scored(rec, query))
  }

  /** The `suitableMatrix` array: k slots, filled from the front by the
      TreeSet's iteration; slots past its end stay null (`None`). */
  function Suitable(tree: seq<MnistMatrix>, k: nat): seq<Option<MnistMatrix>> {
    seq(k, j requires 0 <= j < k => if j < |tree| then Some(tree[j]) else None)
  }

  // ---------------------------------------------------------------- the vote

  /** The vote as written (first occurrence scores the label value) and the
      plurality count it was evidently meant to be (first occurrence scores 1). */
  datatype Vote = AsWritten | Plurality

  /** The value `occurrencesNum` first stores for a label: the label itself,
      as the `int` Java holds, or 1 under the plurality vote. */
  function Initial(vote: Vote, lbl: int): int {
    match vote
    case AsWritten => Wrap(lbl)
    case Plurality => 1
  }

  /** One more occurrence. `get(..) + 1` is `int` addition, so the score as
      written wraps to 32 bits. A count never exceeds the number of slots,
      which a Java array keeps below 2^31, so the plurality count is left
      unbounded. */
  function Bump(vote: Vote, x: int): int {
    match vote
    case AsWritten => Wrap(x + 1)
    case Plurality => x + 1
  }

  /** Occurrences of `lbl` in `ls`. */
  function Count(ls: seq<int>, lbl: int): nat {
    if |ls| == 0 then 0
    else Count(ls[..|ls| - 1], lbl) + (if ls[|ls| - 1] == lbl then 1 else 0)
  }

  /** The score a label ends with, in closed form: L + count(L) - 1 wrapped
      to 32 bits as written, count(L) under the plurality vote. */
  function Score(vote: Vote, ls: seq<int>, lbl: int): int {
    match vote
    case AsWritten => Wrap(lbl + Count(ls, lbl) - 1)
    case Plurality => Count(ls, lbl)
  }

  /** `w` has a maximal score as written among the labels `ls`. */
  predicate WinsAsWritten(ls: seq<int>, w: int) {
    forall lbl :: lbl in ls ==> Wrap(lbl + Count(ls, lbl) - 1) <= Wrap(w + Count(ls, w) - 1)
  }

  /** `w` occurs at least as often as any label of `ls`. */
  predicate WinsPlurality(ls: seq<int>, w: int) {
    forall lbl :: lbl in ls ==> Count(ls, lbl) <= Count(ls, w)
  }

  /** The `occurrencesNum` map after the loop of `findMajority` over `ls`. */
  function Tally(vote: Vote, ls: seq<int>): map<int, int> {
    if |ls| == 0 then map[]
    else
      var m := Tally(vote, ls[..|ls| - 1]);
      var lbl := ls[|ls| - 1];
      if lbl !in m then m[lbl := Initial(vote, lbl)] else m[lbl := Bump(vote, m[lbl])]
  }

  /** The map holds exactly the labels seen, each with its closed-form score. */
  lemma {:induction false} TallyScores(vote: Vote, ls: seq<int>)
    ensures forall lbl :: lbl in Tally(vote, ls) <==> lbl in ls
    ensures forall lbl :: lbl in ls ==> Tally(vote, ls)[lbl] == Score(vote, ls, lbl)
  {
    if |ls| > 0 {
      var prefix := ls[..|ls| - 1];
      TallyScores(vote, prefix);
      assert ls == prefix + [ls[|ls| - 1]];
      forall lbl | lbl in ls
        ensures Tally(vote, ls)[lbl] == Score(vote, ls, lbl)
      {
        if lbl != ls[|ls| - 1] {
          assert lbl in prefix;
        } else if lbl !in prefix {
          assert Count(prefix, lbl) == 0 by {
            NotCounted(prefix, lbl);
          }
        } else {
          assert Count(ls, lbl) == Count(prefix, lbl) + 1;
          WrapAdd(lbl + Count(prefix, lbl) - 1, 1);
        }
      }
    }
  }

  lemma {:induction false} NotCounted(ls: seq<int>, lbl: int)
    requires lbl !in ls
    ensures Count(ls, lbl) == 0
  {
    if |ls| > 0 {
      assert ls[..|ls| - 1] + [ls[|ls| - 1]] == ls;
      NotCounted(ls[..|ls| - 1], lbl);
    }
  }

  /** `Collections.max` over the map's entries by value: some key of maximal
      value. Which maximal key a `HashMap` yields is left open by the source;
      this picks one, and the contract promises only maximality. */
  function BestLabel(ls: seq<int>, scores: map<int, int>): (r: int)
    requires |ls| > 0
    requires forall i :: 0 <= i < |ls| ==> ls[i] in scores
    ensures r in ls
    ensures forall i :: 0 <= i < |ls| ==> scores[ls[i]] <= scores[r]
  {
    if |ls| == 1 then ls[0]
    else
      var b := BestLabel(ls[1..], scores);
      assert forall i :: 1 <= i < |ls| ==> ls[i] == ls[1..][i - 1];
      if scores[ls[0]] >= scores[b] then ls[0] else b
  }

  /** The labels of a slot array with no null slot. */
  function SlotLabels(slots: seq<Option<MnistMatrix>>): (ls: seq<int>)
    requires forall j :: 0 <= j < |slots| ==> slots[j].Some?
    ensures |ls| == |slots|
    ensures forall j :: 0 <= j < |slots| ==> ls[j] == slots[j].value.imageLabel
  {
    seq(|slots|, j requires 0 <= j < |slots| => slots[j].value.imageLabel)
  }

  /** `findMajority` over the slot array, with the given first-occurrence
      score: a null slot throws `NullPointerException`, an empty array makes
      `Collections.max` throw `NoSuchElementException`, and otherwise the
      result is a label of the array with maximal score. */
  function Majority(vote: Vote, slots: seq<Option<MnistMatrix>>): (r: Result<int>)
    ensures r.Err? <==> |slots| == 0 || exists j :: 0 <= j < |slots| && slots[j].None?
    ensures r.Err? && |slots| > 0 ==> r.error == NullPointer
    ensures r.Err? && |slots| == 0 ==> r.error == NoSuchElement
    ensures r.Ok? ==> r.value in SlotLabels(slots)
    ensures r.Ok? ==> forall lbl :: lbl in SlotLabels(slots) ==>
                        Score(vote, SlotLabels(slots), lbl) <= Score(vote, SlotLabels(slots), r.value)
  {
    if exists j :: 0 <= j < |slots| && slots[j].None? then Err(NullPointer)
    else if |slots| == 0 then Err(NoSuchElement)
    else
      var ls := SlotLabels(slots);
      TallyScores(vote, ls);
      var best := BestLabel(ls, Tally(vote, ls));
      assert forall lbl :: lbl in ls ==> Score(vote, ls, lbl) <= Score(vote, ls, best) by {
        forall lbl | lbl in ls
          ensures Score(vote, ls, lbl) <= Score(vote, ls, best)
        {
          var i :| 0 <= i < |ls| && ls[i] == lbl;
        }
      }
      Ok(best)
  }

  /** `findMajority` as written: label L scores L + count(L) - 1 in 32-bit
      arithmetic. For digit labels the score never wraps, and the winner
      maximises L + count(L) itself. */
  function FindMajority(slots: seq<Option<MnistMatrix>>): (r: Result<int>)
    ensures r.Err? <==> |slots| == 0 || exists j :: 0 <= j < |slots| && slots[j].None?
    ensures r.Ok? ==> r.value in SlotLabels(slots)
    ensures r.Ok? ==> WinsAsWritten(SlotLabels(slots), r.value)
    ensures r.Ok? && ByteLabels(SlotLabels(slots)) ==> forall lbl :: lbl in SlotLabels(slots) ==>
      lbl + Count(SlotLabels(slots), lbl) <= r.value + Count(SlotLabels(slots), r.value)
  {
    var r := Majority(AsWritten, slots);
    if r.Ok? && ByteLabels(SlotLabels(slots)) then
      ByteScoresDoNotWrap(SlotLabels(slots));
      r
    else r
  }

  /** Labels a reader can produce, in an array of at most 2^31 - 256 slots. */
  predicate ByteLabels(ls: seq<int>) {
    |ls| <= MaxInt - 255 && forall i :: 0 <= i < |ls| ==> 0 <= ls[i] <= 255
  }

  /** With byte labels the score as written stays in the `int` range, so the
      wrap-around never changes it. */
  lemma ByteScoresDoNotWrap(ls: seq<int>)
    requires ByteLabels(ls)
    ensures forall lbl :: lbl in ls ==> Score(AsWritten, ls, lbl) == lbl + Count(ls, lbl) - 1
  {
    forall lbl | lbl in ls
      ensures Score(AsWritten, ls, lbl) == lbl + Count(ls, lbl) - 1
    {
      var i :| 0 <= i < |ls| && ls[i] == lbl;
      CountBound(ls, lbl);
      CountPositive(ls, i);
    }
  }

  lemma {:induction false} CountBound(ls: seq<int>, lbl: int)
    ensures Count(ls, lbl) <= |ls|
  {
    if |ls| > 0 {
      CountBound(ls[..|ls| - 1], lbl);
    }
  }

  lemma {:induction false} CountPositive(ls: seq<int>, i: nat)
    requires i < |ls|
    ensures Count(ls, ls[i]) >= 1
  {
    if i < |ls| - 1 {
      assert ls[..|ls| - 1][i] == ls[i];
      CountPositive(ls[..|ls| - 1], i);
    }
  }

  /** The score as written wraps: with neighbour labels MaxInt, MaxInt, 0 the
      second MaxInt makes its score MaxInt + 1, which wraps to MinInt, and
      the vote returns 0. */
  lemma FindMajorityWraps()
    ensures FindMajority([Some(LabelOnly(MaxInt)), Some(LabelOnly(MaxInt)), Some(LabelOnly(0))]) == Ok(0)
  {
    var slots := [Some(LabelOnly(MaxInt)), Some(LabelOnly(MaxInt)), Some(LabelOnly(0))];
    var ls := SlotLabels(slots);
    assert ls == [MaxInt, MaxInt, 0];
    assert [MaxInt, MaxInt, 0][..2] == [MaxInt, MaxInt] && [MaxInt, MaxInt][..1] == [MaxInt] && [MaxInt][..0] == [];
    assert Count([MaxInt], MaxInt) == 1 && Count([MaxInt], 0) == 0;
    assert Count([MaxInt, MaxInt], MaxInt) == 2 && Count([MaxInt, MaxInt], 0) == 0;
    assert Count(ls, MaxInt) == 2 && Count(ls, 0) == 1;
    assert Wrap(MaxInt + 1) == MinInt by {
      assert (MaxInt + 1 - MinInt) % Modulus == 0;
    }
    var r := FindMajority(slots);
    assert r.value == MaxInt || r.value == 0;
  }

  /** The corrected vote: a label that occurs most often among the slots. */
  function PluralityVote(slots: seq<Option<MnistMatrix>>): (r: Result<int>)
    ensures r.Err? <==> |slots| == 0 || exists j :: 0 <= j < |slots| && slots[j].None?
    ensures r.Ok? ==> r.value in SlotLabels(slots)
    ensures r.Ok? ==> WinsPlurality(SlotLabels(slots), r.value)
  {
    Majority(Plurality, slots)
  }

  /** The vote as written is not a plurality vote: with neighbour labels
      1, 1, 9 it returns 9, although 1 occurs twice and 9 once. */
  lemma FindMajorityIsNotPlurality()
    ensures var slots := [Some(LabelOnly(1)), Some(LabelOnly(1)), Some(LabelOnly(9))];
      && FindMajority(slots) == Ok(9)
      && Count(SlotLabels(slots), 1) > Count(SlotLabels(slots), 9)
  {
    var slots := [Some(LabelOnly(1)), Some(LabelOnly(1)), Some(LabelOnly(9))];
    var ls := SlotLabels(slots);
    assert ls == [1, 1, 9];
    assert [1, 1, 9][..2] == [1, 1] && [1, 1][..1] == [1] && [1][..0] == [];
    assert Count([1], 1) == 1 && Count([1], 9) == 0;
    assert Count([1, 1], 1) == 2 && Count([1, 1], 9) == 0;
    assert Count(ls, 1) == 2 && Count(ls, 9) == 1;
    var r := FindMajority(slots);
    assert r.Ok?;
    assert r.value == 1 || r.value == 9;
    assert r.value + Count(ls, r.value) >= 9 + Count(ls, 9);
  }

  /** An empty image that carries only a label. */
  function LabelOnly(lbl: int): MnistMatrix {
    MnistMatrix([], 0, 0, lbl, 0)
  }

  // -------------------------------------------------------------- predict

  /** `predict` with the given vote (`AsWritten` is the source's behaviour,
      `Plurality` the corrected count): `new MnistMatrix[k]` throws for k < 0;
      otherwise the vote runs over the first k images of the TreeSet. The
      result is a label exactly when 1 <= k <= the number of distinct
      distances; k = 0 ends in `NoSuchElementException` and a k beyond the
      distinct distances in `NullPointerException`. A returned label is one
      of the k nearest survivors' labels with maximal score. */
  function Predict(vote: Vote, rec: Recognizer, query: MnistMatrix): (r: Result<int>)
    requires Comparable(rec, query)
    ensures r.Ok? <==> 1 <= rec.k <= |Distances(Scored(rec, query))|
    ensures rec.k < 0 ==> r == Err(NegativeArraySize)
    ensures rec.k == 0 ==> r == Err(NoSuchElement)
    ensures rec.k > 0 && rec.k > |Distances(Scored(rec, query))| ==> r == Err(NullPointer)
    ensures r.Ok? ==> r.value in Labels(Nearest(rec, query)[..rec.k])
    ensures r.Ok? && vote == AsWritten ==> WinsAsWritten(Labels(Nearest(rec, query)[..rec.k]), r.value)
    ensures r.Ok? && vote == Plurality ==> WinsPlurality(Labels(Nearest(rec, query)[..rec.k]), r.value)
  {
    if rec.k < 0 then Err(NegativeArraySize)
    else
      var tree := Nearest(rec, query);
      SuitableSlots(tree, rec.k);
      VoteForms(vote, Suitable(tree, rec.k));
      Majority(vote, Suitable(tree, rec.k))
  }

  /** Majority's maximality, with the score of each vote written out. */
  lemma VoteForms(vote: Vote, slots: seq<Option<MnistMatrix>>)
    ensures Majority(vote, slots).Ok? && vote == AsWritten ==> WinsAsWritten(SlotLabels(slots), Majority(vote, slots).value)
    ensures Majority(vote, slots).Ok? && vote == Plurality ==> WinsPlurality(SlotLabels(slots), Majority(vote, slots).value)
  {
  }

  lemma SuitableSlots(tree: seq<MnistMatrix>, k: nat)
    ensures k <= |tree| ==> forall j :: 0 <= j < k ==> Suitable(tree, k)[j].Some?
    ensures k <= |tree| ==> SlotLabels(Suitable(tree, k)) == Labels(tree[..k])
    ensures k > |tree| ==> Suitable(tree, k)[|tree|].None?
  {
  }

  function Labels(s: seq<MnistMatrix>): seq<int> {
    seq(|s|, j requires 0 <= j < |s| => s[j].imageLabel)
  }

  /** The k slots hold the images of the k smallest distinct distances, in
      ascending order; every training image's distance is one of theirs or
      larger than all of them; and each selected image is the lowest-index
      training image at its distance. */
  lemma NeighboursAreNearest(rec: Recognizer, query: MnistMatrix)
    requires Comparable(rec, query)
    requires 0 <= rec.k <= |Distances(Scored(rec, query))|
    ensures var sel := Nearest(rec, query)[..rec.k];
      && |sel| == rec.k
      && Ascending(sel)
      && (forall i :: 0 <= i < |rec.trainMatrices| ==>
            Dist(rec, query, i) in Distances(sel) || forall x :: x in sel ==> x.distance < Dist(rec, query, i))
      && (forall x :: x in sel ==> First(Scored(rec, query), x.distance) == Some(x))
  {
    var s := Scored(rec, query);
    TreePrefix(s, Nearest(rec, query), rec.k);
    assert forall i :: 0 <= i < |rec.trainMatrices| ==> s[i].distance == Dist(rec, query, i);
  }

  /** The same facts for any prefix of a TreeSet built from `s`. */
  lemma TreePrefix(s: seq<MnistMatrix>, tree: seq<MnistMatrix>, k: nat)
    requires tree == Build(s) && k <= |tree|
    ensures var sel := tree[..k];
      && Ascending(sel)
      && (forall i :: 0 <= i < |s| ==>
            s[i].distance in Distances(sel) || forall x :: x in sel ==> x.distance < s[i].distance)
      && (forall x :: x in sel ==> First(s, x.distance) == Some(x))
  {
    PrefixBelow(s, tree, k);
    PrefixFirst(s, tree, k);
  }

  lemma PrefixBelow(s: seq<MnistMatrix>, tree: seq<MnistMatrix>, k: nat)
    requires Ascending(tree) && Distances(tree) == Distances(s) && k <= |tree|
    ensures forall i :: 0 <= i < |s| ==>
      s[i].distance in Distances(tree[..k]) || forall x :: x in tree[..k] ==> x.distance < s[i].distance
  {
    var sel := tree[..k];
    forall i | 0 <= i < |s|
      ensures s[i].distance in Distances(sel) || forall x :: x in sel ==> x.distance < s[i].distance
    {
      var d := s[i].distance;
      InDistances(s, d);
      InDistances(tree, d);
      var j :| 0 <= j < |tree| && tree[j].distance == d;
      if j < k {
        assert sel[j] == tree[j];
        InDistances(sel, d);
      } else {
        forall x | x in sel
          ensures x.distance < d
        {
          var m :| 0 <= m < |sel| && sel[m] == x;
          assert tree[m] == x;
        }
      }
    }
  }

  lemma PrefixFirst(s: seq<MnistMatrix>, tree: seq<MnistMatrix>, k: nat)
    requires k <= |tree|
    requires forall x {:trigger First(s, x.distance)} :: x in tree ==> First(s, x.distance) == Some(x)
    ensures forall x :: x in tree[..k] ==> First(s, x.distance) == Some(x)
  {
    forall x | x in tree[..k]
      ensures First(s, x.distance) == Some(x)
    {
      var j :| 0 <= j < k && tree[..k][j] == x;
      assert tree[j] == x;
    }
  }

  /** With k = 1, `predict` returns the label of the lowest-index training
      image at minimum distance. */
  lemma PredictOneIsNearest(vote: Vote, rec: Recognizer, query: MnistMatrix)
    requires Comparable(rec, query) && rec.k == 1 && |rec.trainMatrices| > 0
    ensures Predict(vote, rec, query).Ok?
    ensures exists i ::
      && 0 <= i < |rec.trainMatrices|
      && Predict(vote, rec, query).value == rec.trainMatrices[i].imageLabel
      && (forall j :: 0 <= j < |rec.trainMatrices| ==> Dist(rec, query, i) <= Dist(rec, query, j))
      && (forall j :: 0 <= j < i ==> Dist(rec, query, i) < Dist(rec, query, j))
  {
    var s := Scored(rec, query);
    var i := NearestOfAll(s, Nearest(rec, query));
    PredictOne(vote, rec, query);
    assert Predict(vote, rec, query).value == rec.trainMatrices[i].imageLabel;
    assert s[i].distance == Dist(rec, query, i);
    forall j | 0 <= j < |rec.trainMatrices|
      ensures Dist(rec, query, i) <= Dist(rec, query, j)
      ensures j < i ==> Dist(rec, query, i) < Dist(rec, query, j)
    {
      assert s[j].distance == Dist(rec, query, j);
    }
  }

  /** The first element of a TreeSet built from `s` is the lowest-index
      element of `s` at the minimum distance. */
  lemma NearestOfAll(s: seq<MnistMatrix>, tree: seq<MnistMatrix>) returns (i: nat)
    requires tree == Build(s) && |s| > 0
    ensures |tree| > 0 && i < |s| && s[i] == tree[0]
    ensures forall j :: 0 <= j < |s| ==> s[i].distance <= s[j].distance
    ensures forall j :: 0 <= j < i ==> s[i].distance < s[j].distance
  {
    InDistances(s, s[0].distance);
    HeadIsLeast(tree, s[0].distance);
    var x := tree[0];
    assert x in tree;
    assert First(s, x.distance) == Some(x);
    i :| 0 <= i < |s| && s[i] == x && x.distance == x.distance
         && forall j :: 0 <= j < i ==> s[j].distance != x.distance;
    forall j | 0 <= j < |s|
      ensures x.distance <= s[j].distance
    {
      InDistances(s, s[j].distance);
      HeadIsLeast(tree, s[j].distance);
    }
  }

  /** The head of an ascending sequence has the least of its distances. */
  lemma HeadIsLeast(tree: seq<MnistMatrix>, d: int)
    requires Ascending(tree) && d in Distances(tree)
    ensures |tree| > 0 && tree[0].distance <= d
  {
    InDistances(tree, d);
  }

  /** With k = 1 the vote has a single slot: the nearest survivor's label. */
  lemma PredictOne(vote: Vote, rec: Recognizer, query: MnistMatrix)
    requires Comparable(rec, query) && rec.k == 1 && |Distances(Scored(rec, query))| >= 1
    ensures Predict(vote, rec, query) == Ok(Nearest(rec, query)[0].imageLabel)
  {
    var tree := Nearest(rec, query);
    assert Labels(tree[..1]) == [tree[0].imageLabel];
  }

  /** `predict` overwrites every training image's distance before using it,
      so distances left behind by earlier calls never affect the result. */
  lemma PredictIgnoresStaleDistances(vote: Vote, rec: Recognizer, stale: Recognizer, query: MnistMatrix)
    requires Comparable(rec, query)
    requires stale.k == rec.k && stale.metricType == rec.metricType
    requires |stale.trainMatrices| == |rec.trainMatrices|
    requires forall i :: 0 <= i < |rec.trainMatrices| ==>
      stale.trainMatrices[i] == SetDistance(rec.trainMatrices[i], stale.trainMatrices[i].distance)
    ensures Comparable(stale, query)
    ensures Predict(vote, stale, query) == Predict(vote, rec, query)
  {
    assert Comparable(stale, query);
    assert Scored(stale, query) == Scored(rec, query);
  }
}
