/** `TreeSet<MnistMatrix>` as the recognizer uses it: a set ordered by
    `compareTo`, which looks only at `distance`. `add` of an element that
    compares equal to one already present leaves the set unchanged, so of all
    images at one distance only the first one added survives. The set is
    modelled by the sequence its iterator yields. */
module TreeSetModel {
  import opened Java
  import opened Matrices

  /** The iteration order of a TreeSet: strictly ascending distances. */
  predicate Ascending(s: seq<MnistMatrix>) {
    forall i, j :: 0 <= i < j < |s| ==> s[i].distance < s[j].distance
  }

  /** The distances that occur in `s`. */
  function Distances(s: seq<MnistMatrix>): set<int> {
    if |s| == 0 then {} else {s[0].distance} + Distances(s[1..])
  }

  lemma {:induction false} InDistances(s: seq<MnistMatrix>, d: int)
    ensures d in Distances(s) <==> exists i :: 0 <= i < |s| && s[i].distance == d
  {
    if |s| > 0 {
      InDistances(s[1..], d);
      if exists i :: 0 <= i < |s| && s[i].distance == d {
        var i :| 0 <= i < |s| && s[i].distance == d;
        if i > 0 {
          assert s[1..][i - 1].distance == d;
        }
      }
    }
  }

  lemma {:induction false} DistancesConcat(a: seq<MnistMatrix>, b: seq<MnistMatrix>)
    ensures Distances(a + b) == Distances(a) + Distances(b)
  {
    if |a| == 0 {
      assert a + b == b;
    } else {
      assert (a + b)[0] == a[0];
      assert (a + b)[1..] == a[1..] + b;
      DistancesConcat(a[1..], b);
      assert Distances(a + b) == {a[0].distance} + Distances(a[1..] + b);
      assert Distances(a) == {a[0].distance} + Distances(a[1..]);
    }
  }

  lemma AscendingCons(x: MnistMatrix, s: seq<MnistMatrix>)
    requires Ascending(s)
    requires forall i :: 0 <= i < |s| ==> x.distance < s[i].distance
    ensures Ascending([x] + s)
  {
    var r := [x] + s;
    forall i, j | 0 <= i < j < |r|
      ensures r[i].distance < r[j].distance
    {
      if i > 0 {
        assert r[i] == s[i - 1] && r[j] == s[j - 1];
      } else {
        assert r[j] == s[j - 1];
      }
    }
  }

  /** `TreeSet.add`: descends by `compareTo` and keeps the element already
      present when the comparison is 0. */
  function Add(tree: seq<MnistMatrix>, e: MnistMatrix): (r: seq<MnistMatrix>)
    requires Ascending(tree)
    ensures Ascending(r)
    ensures Distances(r) == Distances(tree) + {e.distance}
    ensures e.distance in Distances(tree) ==> r == tree
    ensures e.distance !in Distances(tree) ==> |r| == |tree| + 1
    ensures forall x :: x in r ==> x in tree || x == e
  {
    if |tree| == 0 then [e]
    else if CompareTo(e, tree[0]) < 0 then
      AscendingCons(e, tree);
      assert e.distance !in Distances(tree) by {
        InDistances(tree, e.distance);
      }
      [e] + tree
    else if CompareTo(e, tree[0]) == 0 then tree
    else
      var rest := Add(tree[1..], e);
      AboveHead(tree, e, rest);
      AscendingCons(tree[0], rest);
      assert ([tree[0]] + rest)[1..] == rest;
      [tree[0]] + rest
  }

  /** What is added behind the head of an ascending sequence lies above it. */
  lemma AboveHead(tree: seq<MnistMatrix>, e: MnistMatrix, rest: seq<MnistMatrix>)
    requires Ascending(tree) && |tree| > 0 && tree[0].distance < e.distance
    requires forall x :: x in rest ==> x in tree[1..] || x == e
    ensures forall i :: 0 <= i < |rest| ==> tree[0].distance < rest[i].distance
  {
    forall i | 0 <= i < |rest|
      ensures tree[0].distance < rest[i].distance
    {
      assert rest[i] in rest;
      if rest[i] != e {
        var j :| 0 <= j < |tree[1..]| && tree[1..][j] == rest[i];
        assert tree[j + 1] == rest[i];
      }
    }
  }

  /** The first (lowest-index) element of `s` at distance `d`, if any. */
  function First(s: seq<MnistMatrix>, d: int): (r: Option<MnistMatrix>)
    ensures r.Some? <==> d in Distances(s)
    ensures r.Some? ==> exists i :: 0 <= i < |s| && s[i] == r.value && d == r.value.distance
                                 && forall j :: 0 <= j < i ==> s[j].distance != d
  {
    if |s| == 0 then None
    else if s[0].distance == d then Some(s[0])
    else
      var f := First(s[1..], d);
      if f.Some? then
        var i :| 0 <= i < |s[1..]| && s[1..][i] == f.value && d == f.value.distance
                 && forall j :: 0 <= j < i ==> s[1..][j].distance != d;
        assert s[i + 1] == f.value;
        assert forall j :: 0 <= j < i + 1 ==> s[j].distance != d by {
          forall j | 0 <= j < i + 1 ensures s[j].distance != d {
            if j > 0 {
              assert s[j] == s[1..][j - 1];
            }
          }
        }
        f
      else f
  }

  /** Adding one element at the end changes `First` only for a distance that
      did not occur before. */
  lemma {:induction false} FirstSnoc(s: seq<MnistMatrix>, e: MnistMatrix, d: int)
    ensures First(s + [e], d) ==
      if First(s, d).Some? then First(s, d) else if e.distance == d then Some(e) else None
  {
    if |s| > 0 {
      assert (s + [e])[1..] == s[1..] + [e];
      FirstSnoc(s[1..], e, d);
    }
  }

  /** The set after adding the elements of `s` in order, as the iteration
      sequence: one element per distinct distance, ascending, and each the
      first element of `s` at its distance. */
  function Build(s: seq<MnistMatrix>): (r: seq<MnistMatrix>)
    ensures Ascending(r)
    ensures Distances(r) == Distances(s)
    ensures forall x {:trigger First(s, x.distance)} :: x in r ==> First(s, x.distance) == Some(x)
  {
    if |s| == 0 then []
    else
      var prefix := s[..|s| - 1];
      var e := s[|s| - 1];
      var tree := Build(prefix);
      assert s == prefix + [e];
      DistancesConcat(prefix, [e]);
      assert Distances([e]) == {e.distance};
      var r := Add(tree, e);
      forall x | x in r
        ensures First(s, x.distance) == Some(x)
      {
        FirstSnoc(prefix, e, x.distance);
        if x in tree {
          assert First(prefix, x.distance) == Some(x);
        } else {
          assert First(prefix, e.distance).None?;
        }
      }
      r
  }

  /** A sequence with strictly ascending distances has one distance per element. */
  lemma {:induction false} AscendingCount(s: seq<MnistMatrix>)
    requires Ascending(s)
    ensures |Distances(s)| == |s|
  {
    if |s| > 0 {
      AscendingCount(s[1..]);
      forall i | 0 <= i < |s| - 1
        ensures s[1..][i].distance != s[0].distance
      {
        assert s[1..][i] == s[i + 1];
      }
      InDistances(s[1..], s[0].distance);
    }
  }
}
