/** The discrete parts of the k-nearest-neighbours classifier of
    KNN_ML/knn_algorithm_main.c: the Fisher-Yates shuffle, the train/test split,
    the selection of the k nearest training points and the majority vote.

    Distances reach the selection only through `<`, so they are a parameter
    (one real per training point) instead of being computed from the four
    measurements. The pointers `&train[m]` the selection reports are the
    indices m. A call of `rand()` is a parameter too: the shuffle takes the
    sequence of values the calls would have returned. */
module Knn {

  datatype Option<T> = None | Some(value: T)

  /** The struct Iris: four measurements (float in C) and a class label. */
  datatype Iris = Iris(sepalLength: real, sepalWidth: real, petalLength: real, petalWidth: real, className: string)

  // ---------------------------------------------------------------------------
  // shuffle_data

  /** s with the elements at i and j exchanged (the same s when i == j). */
  function Swap(s: seq<Iris>, i: nat, j: nat): (r: seq<Iris>)
    requires i < |s| && j < |s|
    ensures |r| == |s| && r[i] == s[j] && r[j] == s[i]
    ensures forall k :: 0 <= k < |s| && k != i && k != j ==> r[k] == s[k]
  {
    s[i := s[j]][j := s[i]]
  }

  /** The shuffle's iterations i, i-1, ..., 1 applied to s. Iteration i is the
      (|s|-1-i)-th call of rand(), and it swaps position i with draw % (i + 1). */
  function ShuffleFrom(s: seq<Iris>, draws: seq<nat>, i: nat): seq<Iris>
    requires i < |s| && |s| - 1 <= |draws|
    decreases i
  {
    if i == 0 then s
    else ShuffleFrom(Swap(s, i, draws[|s| - 1 - i] % (i + 1)), draws, i - 1)
  }

  /** The whole shuffle; an empty array is left as it is. */
  function Shuffled(s: seq<Iris>, draws: seq<nat>): seq<Iris>
    requires |s| - 1 <= |draws|
  {
    if |s| == 0 then s else ShuffleFrom(s, draws, |s| - 1)
  }

  /** One exchange keeps the elements and their multiplicities. */
  lemma SwapPermutes(s: seq<Iris>, i: nat, j: nat)
    requires i < |s| && j < |s|
    ensures multiset(Swap(s, i, j)) == multiset(s)
  {
  }

  /** Whatever rand() returns, the shuffle only rearranges: same length, same elements
      with the same multiplicities. */
  lemma {:induction false} ShufflePermutes(s: seq<Iris>, draws: seq<nat>, i: nat)
    requires i < |s| && |s| - 1 <= |draws|
    ensures |ShuffleFrom(s, draws, i)| == |s|
    ensures multiset(ShuffleFrom(s, draws, i)) == multiset(s)
    decreases i
  {
    if i > 0 {
      var t := Swap(s, i, draws[|s| - 1 - i] % (i + 1));
      SwapPermutes(s, i, draws[|s| - 1 - i] % (i + 1));
      ShufflePermutes(t, draws, i - 1);
    }
  }

  /** shuffle_data: the Fisher-Yates loop for i from count-1 down to 1, j = rand() % (i+1). */
  method ShuffleData(data: array<Iris>, draws: seq<nat>)
    requires data.Length - 1 <= |draws|
    modifies data
    ensures data[..] == Shuffled(old(data[..]), draws)
    ensures multiset(data[..]) == multiset(old(data[..]))
  {
    ghost var s0 := data[..];
    var i := data.Length - 1;
    while i > 0
      invariant data.Length == 0 ==> i == -1
      invariant data.Length > 0 ==> 0 <= i < data.Length && ShuffleFrom(data[..], draws, i) == Shuffled(s0, draws)
    {
      var j := draws[data.Length - 1 - i] % (i + 1);
      ghost var before := data[..];
      var temp := data[i];
      data[i] := data[j];
      data[j] := temp;
      assert data[..] == Swap(before, i, j);
      i := i - 1;
    }
    if data.Length > 0 {
      ShufflePermutes(s0, draws, data.Length - 1);
    }
  }

  // ---------------------------------------------------------------------------
  // split_data

  /** split_data with the computed train_count supplied: the first train_count
      items are copied to `train`, the remaining count - train_count to `test`. */
  method SplitData(data: array<Iris>, trainCount: int) returns (train: array<Iris>, test: array<Iris>, testCount: int)
    requires 0 <= trainCount <= data.Length
    ensures fresh(train) && fresh(test)
    ensures trainCount + testCount == data.Length
    ensures train.Length == trainCount && test.Length == testCount
    ensures train[..] == data[..trainCount] && test[..] == data[trainCount..]
    ensures train[..] + test[..] == data[..]
  {
    testCount := data.Length - trainCount;
    train := new Iris[trainCount];
    test := new Iris[testCount];
    for i := 0 to trainCount
      invariant train[..i] == data[..i]
    {
      train[i] := data[i];
      assert train[..i + 1] == train[..i] + [data[i]];
    }
    for i := 0 to testCount
      invariant train[..] == data[..trainCount]
      invariant forall t :: 0 <= t < i ==> test[t] == data[t + trainCount]
    {
      test[i] := data[i + trainCount];
    }
    assert train[..] + test[..] == data[..];
  }

  // ---------------------------------------------------------------------------
  // find_k_nearest_neighbors

  /** m is the first index in [from, |d|) holding the smallest of d[from..]. */
  predicate IsFirstMin(d: seq<real>, from: nat, m: nat) {
    && from <= m < |d|
    && (forall j :: from <= j < |d| ==> d[m] <= d[j])
    && (forall j :: from <= j < m ==> d[m] < d[j])
  }

  /** The index the inner loop settles on: the first position of a minimum of d[from..]. */
  function FirstMin(d: seq<real>, from: nat): (m: nat)
    requires from < |d|
    ensures IsFirstMin(d, from, m)
    decreases |d| - from
  {
    if from == |d| - 1 then from
    else
      var m' := FirstMin(d, from + 1);
      if d[m'] < d[from] then m' else from
  }

  /** The first position of a minimum is unique. */
  lemma FirstMinUnique(d: seq<real>, from: nat, m1: nat, m2: nat)
    requires IsFirstMin(d, from, m1) && IsFirstMin(d, from, m2)
    ensures m1 == m2
  {
    assert d[m1] <= d[m2] && d[m2] <= d[m1];
  }

  /** The neighbour indices of steps i, ..., k-1 when the distance buffer holds d
      at step i: step i reports the first minimum m of d[i..] and then overwrites
      d[m] with d[i]. Step t reports an index in [t, |d|). */
  function Selection(d: seq<real>, i: nat, k: nat): (r: seq<nat>)
    requires i <= k <= |d|
    ensures |r| == k - i
    ensures forall t :: 0 <= t < |r| ==> i + t <= r[t] < |d|
    decreases k - i
  {
    if i == k then []
    else
      var m := FirstMin(d, i);
      [m] + Selection(d[m := d[i]], i + 1, k)
  }

  /** The first neighbour is the first training point at the globally smallest distance. */
  lemma FirstNeighbourIsNearest(d: seq<real>, k: nat)
    requires 1 <= k <= |d|
    ensures IsFirstMin(d, 0, Selection(d, 0, k)[0])
    ensures forall j :: 0 <= j < |d| ==> d[Selection(d, 0, k)[0]] <= d[j]
  {
  }

  /** Overwriting d[m] with d[i] instead of exchanging the two entries loses point i
      and can report the same point twice: with distances 1.0, 0.0, 2.0 and k = 2
      the neighbours are points 1 and 1, and point 0 is never reported. */
  lemma SelectionCanRepeat()
    ensures Selection([1.0, 0.0, 2.0], 0, 2) == [1, 1]
  {
    var d := [1.0, 0.0, 2.0];
    assert FirstMin(d, 2) == 2;
    assert FirstMin(d, 1) == 1;
    assert FirstMin(d, 0) == 1;
    var d' := d[1 := d[0]];
    assert d' == [1.0, 1.0, 2.0];
    assert FirstMin(d', 2) == 2;
    assert FirstMin(d', 1) == 1;
  }

  /** One step of the selection: if step i of `selected` starts from buffer d and the
      inner loop found m, then m is reported and the rest starts from d[m := d[i]]. */
  lemma SelectionStep(d: seq<real>, i: nat, k: nat, m: nat, selected: seq<nat>)
    requires i < k <= |d| && i < |selected|
    requires IsFirstMin(d, i, m) && Selection(d, i, k) == selected[i..]
    ensures selected[i] == m && selected[i + 1..] == Selection(d[m := d[i]], i + 1, k)
  {
    FirstMinUnique(d, i, m, FirstMin(d, i));
    assert selected[i..][0] == selected[i];
    assert selected[i..][1..] == selected[i + 1..];
  }

  /** find_k_nearest_neighbors: fills neighbors[0..k) with the indices the partial
      selection sort reports; the distances buffer is a local copy, so the caller's
      distances and training set are left as they were. */
  method FindKNearestNeighbors(distances: seq<real>, k: nat, neighbors: array<nat>)
    requires k <= |distances| && k <= neighbors.Length
    modifies neighbors
    ensures neighbors[..k] == Selection(distances, 0, k)
    ensures neighbors[k..] == old(neighbors[k..])
  {
    ghost var selected := Selection(distances, 0, k);
    var buffer := new real[|distances|];
    for i := 0 to |distances|
      invariant forall t :: 0 <= t < i ==> buffer[t] == distances[t]
      invariant neighbors[..] == old(neighbors[..])
    {
      buffer[i] := distances[i];
    }
    assert buffer[..] == distances;
    for i := 0 to k
      invariant forall t :: 0 <= t < i ==> neighbors[t] == selected[t]
      invariant Selection(buffer[..], i, k) == selected[i..]
      invariant forall t :: k <= t < neighbors.Length ==> neighbors[t] == old(neighbors[t])
    {
      var minIndex := i;
      for j := i + 1 to |distances|
        invariant i <= minIndex < j
        invariant forall t :: i <= t < j ==> buffer[minIndex] <= buffer[t]
        invariant forall t :: i <= t < minIndex ==> buffer[minIndex] < buffer[t]
      {
        if buffer[j] < buffer[minIndex] {
          minIndex := j;
        }
      }
      ghost var d := buffer[..];
      SelectionStep(d, i, k, minIndex, selected);
      neighbors[i] := minIndex;
      buffer[minIndex] := buffer[i];
      assert buffer[..] == d[minIndex := d[i]];
    }
    assert neighbors[..k] == selected;
  }

  // ---------------------------------------------------------------------------
  // classify

  /** How many of the labels equal c (the count classify takes with strcmp). */
  function Count(labels: seq<string>, c: string): (n: nat)
    ensures n <= |labels|
  {
    if labels == [] then 0
    else Count(labels[..|labels| - 1], c) + (if labels[|labels| - 1] == c then 1 else 0)
  }

  /** Every label counts itself, so its count is at least 1. */
  lemma {:induction false} CountOwnLabel(labels: seq<string>, j: nat)
    requires j < |labels|
    ensures Count(labels, labels[j]) >= 1
    decreases |labels|
  {
    if j < |labels| - 1 {
      var init := labels[..|labels| - 1];
      assert init[j] == labels[j];
      CountOwnLabel(init, j);
    }
  }

  /** A class absent from the labels has count 0. */
  lemma {:induction false} CountAbsent(labels: seq<string>, c: string)
    requires c !in labels
    ensures Count(labels, c) == 0
    decreases |labels|
  {
    if labels != [] {
      var init := labels[..|labels| - 1];
      assert forall x :: x in init ==> x in labels;
      CountAbsent(init, c);
    }
  }

  /** The neighbour whose label classify keeps after looking at labels[..n]: the first
      one whose count is larger than every count before it, that is the first
      position of a largest count. */
  function FirstMajority(labels: seq<string>, n: nat): (i: nat)
    requires 0 < n <= |labels|
    ensures i < n
  {
    if n == 1 then 0
    else
      var i' := FirstMajority(labels, n - 1);
      if Count(labels, labels[n - 1]) > Count(labels, labels[i']) then n - 1 else i'
  }

  /** The label FirstMajority keeps has the largest count among labels[..n], and every
      label before it has a strictly smaller count. */
  lemma {:induction false} FirstMajorityIsFirstArgmax(labels: seq<string>, n: nat)
    requires 0 < n <= |labels|
    ensures forall j :: 0 <= j < n ==> Count(labels, labels[j]) <= Count(labels, labels[FirstMajority(labels, n)])
    ensures forall j :: 0 <= j < FirstMajority(labels, n) ==>
      Count(labels, labels[j]) < Count(labels, labels[FirstMajority(labels, n)])
  {
    if n > 1 {
      FirstMajorityIsFirstArgmax(labels, n - 1);
    }
  }

  /** The class classify returns for the neighbours' labels: none (NULL) exactly when
      there are no neighbours. */
  function Vote(labels: seq<string>): (r: Option<string>)
    ensures r.None? <==> |labels| == 0
  {
    if |labels| == 0 then None else Some(labels[FirstMajority(labels, |labels|)])
  }

  /** The vote is a majority with first-wins ties: the winner is the label of some
      neighbour i, no label occurs more often, and every neighbour before i has a
      label that occurs strictly less often. */
  lemma VoteIsMajority(labels: seq<string>)
    requires |labels| > 0
    ensures Vote(labels).Some? && Vote(labels).value in labels
    ensures forall c :: Count(labels, c) <= Count(labels, Vote(labels).value)
    ensures exists i :: (
      && 0 <= i < |labels| && labels[i] == Vote(labels).value
      && forall j :: 0 <= j < i ==> Count(labels, labels[j]) < Count(labels, labels[i]))
  {
    var i := FirstMajority(labels, |labels|);
    FirstMajorityIsFirstArgmax(labels, |labels|);
    forall c
      ensures Count(labels, c) <= Count(labels, labels[i])
    {
      if c in labels {
        var j :| 0 <= j < |labels| && labels[j] == c;
      } else {
        CountAbsent(labels, c);
      }
    }
  }

  /** One pass of classify's outer loop: with maxCount the count of the label kept so
      far (0 before the first pass), the label of neighbour i is kept exactly when its
      count is larger. */
  lemma VoteStep(labels: seq<string>, i: nat, maxCount: nat, count: nat)
    requires i < |labels| && count == Count(labels, labels[i])
    requires i == 0 ==> maxCount == 0
    requires i > 0 ==> maxCount == Count(labels, labels[FirstMajority(labels, i)])
    ensures count > maxCount ==> FirstMajority(labels, i + 1) == i
    ensures count <= maxCount ==> i > 0 && FirstMajority(labels, i + 1) == FirstMajority(labels, i)
  {
    CountOwnLabel(labels, i);
  }

  /** The class labels of the training points at the given indices. */
  function Labels(train: seq<Iris>, neighbors: seq<nat>): (l: seq<string>)
    requires forall t :: 0 <= t < |neighbors| ==> neighbors[t] < |train|
    ensures |l| == |neighbors|
  {
    seq(|neighbors|, t requires 0 <= t < |neighbors| => train[neighbors[t]].className)
  }

  /** The class classify predicts from the distances of the training points to a query. */
  function Predict(train: seq<Iris>, distances: seq<real>, k: nat): Option<string>
    requires |distances| == |train| && k <= |train|
  {
    Vote(Labels(train, Selection(distances, 0, k)))
  }

  /** With at least one neighbour the prediction is the label of one of the selected
      neighbours; with none it is NULL. */
  lemma PredictIsNeighbourLabel(train: seq<Iris>, distances: seq<real>, k: nat)
    requires |distances| == |train| && k <= |train|
    ensures k == 0 <==> Predict(train, distances, k).None?
    ensures k > 0 ==> exists t :: (
      && 0 <= t < k
      && Predict(train, distances, k) == Some(train[Selection(distances, 0, k)[t]].className))
  {
    var labels := Labels(train, Selection(distances, 0, k));
    if k > 0 {
      var i := FirstMajority(labels, |labels|);
      assert Predict(train, distances, k) == Some(labels[i]);
    }
  }

  /** classify: selects the k nearest training points and returns the label of the
      first neighbour whose same-label count is strictly greater than all before it. */
  method Classify(train: array<Iris>, distances: seq<real>, k: nat) returns (cls: Option<string>)
    requires |distances| == train.Length && k <= train.Length
    ensures cls == Predict(train[..], distances, k)
  {
    var neighbors := new nat[k];
    FindKNearestNeighbors(distances, k, neighbors);
    ghost var selected := neighbors[..];
    assert selected == Selection(distances, 0, k);
    ghost var labels := Labels(train[..], selected);
    var maxCount := 0;
    cls := None;
    for i := 0 to k
      invariant neighbors[..] == selected
      invariant i == 0 ==> maxCount == 0 && cls == None
      invariant i > 0 ==> (
        && cls == Some(labels[FirstMajority(labels, i)])
        && maxCount == Count(labels, labels[FirstMajority(labels, i)]))
    {
      assert labels[i] == train[neighbors[i]].className;
      var count := 0;
      for j := 0 to k
        invariant neighbors[..] == selected
        invariant count == Count(labels[..j], labels[i])
      {
        assert labels[..j + 1][..j] == labels[..j];
        assert labels[j] == train[neighbors[j]].className;
        if train[neighbors[i]].className == train[neighbors[j]].className {
          count := count + 1;
        }
      }
      assert labels[..k] == labels;
      VoteStep(labels, i, maxCount, count);
      if count > maxCount {
        maxCount := count;
        cls := Some(train[neighbors[i]].className);
      }
    }
  }

  // ---------------------------------------------------------------------------
  // evaluate

  /** Test item i is predicted with its own label; distances[i] holds the distances
      of the training points to test item i. */
  predicate PredictedRight(train: seq<Iris>, test: seq<Iris>, distances: seq<seq<real>>, k: nat, i: nat)
    requires i < |test| == |distances| && k <= |train|
    requires forall i :: 0 <= i < |distances| ==> |distances[i]| == |train|
  {
    Predict(train, distances[i], k) == Some(test[i].className)
  }

  /** How many of the first n test items are predicted with their own label. */
  function CorrectCount(train: seq<Iris>, test: seq<Iris>, distances: seq<seq<real>>, k: nat, n: nat): (c: nat)
    requires n <= |test| == |distances| && k <= |train|
    requires forall i :: 0 <= i < |distances| ==> |distances[i]| == |train|
    ensures c <= n
  {
    if n == 0 then 0
    else
      CorrectCount(train, test, distances, k, n - 1)
      + (if PredictedRight(train, test, distances, k, n - 1) then 1 else 0)
  }

  /** Every prediction is right exactly when the count reaches the number of items. */
  lemma {:induction false} AllCorrect(train: seq<Iris>, test: seq<Iris>, distances: seq<seq<real>>, k: nat, n: nat)
    requires n <= |test| == |distances| && k <= |train|
    requires forall i :: 0 <= i < |distances| ==> |distances[i]| == |train|
    ensures CorrectCount(train, test, distances, k, n) == n
      <==> forall i :: 0 <= i < n ==> PredictedRight(train, test, distances, k, i)
  {
    if n > 0 {
      AllCorrect(train, test, distances, k, n - 1);
      var before := CorrectCount(train, test, distances, k, n - 1);
      var last := PredictedRight(train, test, distances, k, n - 1);
      assert CorrectCount(train, test, distances, k, n) == before + (if last then 1 else 0);
      assert before <= n - 1;
    }
  }

  /** The counting loop of evaluate. A strcmp against NULL is undefined, so k must be
      at least 1, which makes every prediction a label. */
  method CountCorrectPredictions(train: array<Iris>, test: array<Iris>, distances: seq<seq<real>>, k: nat)
    returns (correct: nat)
    requires |distances| == test.Length
    requires forall i :: 0 <= i < |distances| ==> |distances[i]| == train.Length
    requires 1 <= k <= train.Length
    ensures correct == CorrectCount(train[..], test[..], distances, k, test.Length)
    ensures correct <= test.Length
  {
    ghost var trainItems := train[..];
    ghost var testItems := test[..];
    correct := 0;
    for i := 0 to test.Length
      invariant correct == CorrectCount(trainItems, testItems, distances, k, i)
    {
      var predicted := Classify(train, distances[i], k);
      assert train[..] == trainItems;
      ghost var right := PredictedRight(trainItems, testItems, distances, k, i);
      assert right <==> predicted == Some(test[i].className);
      assert CorrectCount(trainItems, testItems, distances, k, i + 1)
        == CorrectCount(trainItems, testItems, distances, k, i) + (if right then 1 else 0);
      if predicted == Some(test[i].className) {
        correct := correct + 1;
      }
    }
  }
}
