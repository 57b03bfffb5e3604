/**
 * The bookkeeping around DBSCAN in clustering.py: finding the n-th occurrence of
 * a label, counting clusters and their members, deciding whether to go on after
 * clustering, routing each configuration to the trajectory file of its cluster,
 * and mapping a within-cluster centroid position back to a configuration id.
 * DBSCAN itself is a function parameter; the per-cluster argmin of the distance
 * sums is an input.
 */
module Clustering {
  import opened Results
  import opened Text

  // ------------------------------------------------------------- counting

  /** The number of times `x` occurs in `s` (`list.count`). */
  function Count(s: seq<int>, x: int): (c: nat)
    ensures c <= |s|
  {
    if |s| == 0 then 0 else Count(s[..|s| - 1], x) + (if s[|s| - 1] == x then 1 else 0)
  }

  /** `x` occurs nowhere in `s` exactly when its count is zero. */
  lemma {:induction false} CountZero(s: seq<int>, x: int)
    ensures Count(s, x) == 0 <==> x !in s
  {
    if |s| > 0 {
      CountZero(s[..|s| - 1], x);
      assert s == s[..|s| - 1] + [s[|s| - 1]];
    }
  }

  /** Counting over a longer prefix never gives less. */
  lemma {:induction false} CountMonotone(s: seq<int>, i: nat, j: nat, x: int)
    requires i <= j <= |s|
    ensures Count(s[..i], x) <= Count(s[..j], x)
    decreases j - i
  {
    if i < j {
      CountMonotone(s, i, j - 1, x);
      assert s[..j][..j - 1] == s[..j - 1];
    }
  }

  /** `find_element(n, x, array)`: the position of the occurrence of `x` that has
      exactly `n` occurrences before it, or -1 when there is none. */
  method FindElement(n: int, x: int, arr: seq<int>) returns (r: int)
    ensures r == -1 <==> !(0 <= n < Count(arr, x))
    ensures r != -1 ==> 0 <= r < |arr| && arr[r] == x && Count(arr[..r], x) == n
  {
    var c := 0;
    for i := 0 to |arr|
      invariant c == Count(arr[..i], x)
      invariant n < 0 || c <= n
    {
      assert arr[..i + 1][..i] == arr[..i];
      if arr[i] == x {
        if c == n {
          CountMonotone(arr, i + 1, |arr|, x);
          assert arr[..|arr|] == arr;
          return i;
        }
        c := c + 1;
      }
    }
    assert arr[..|arr|] == arr;
    return -1;
  }

  /** At most one position is the occurrence of `x` with `n` occurrences before it,
      so `find_element` names the only possible answer; for `n == 0` it is the
      first occurrence. */
  lemma NthOccurrenceUnique(arr: seq<int>, x: int, n: nat, r1: nat, r2: nat)
    requires r1 < |arr| && arr[r1] == x && Count(arr[..r1], x) == n
    requires r2 < |arr| && arr[r2] == x && Count(arr[..r2], x) == n
    ensures r1 == r2
  {
    if r1 < r2 {
      assert arr[..r1 + 1][..r1] == arr[..r1];
      CountMonotone(arr, r1 + 1, r2, x);
    } else if r2 < r1 {
      assert arr[..r2 + 1][..r2] == arr[..r2];
      CountMonotone(arr, r2 + 1, r1, x);
    }
  }

  // ------------------------------------------------------------- clusters

  /** `set(labels)`. */
  function Distinct(labels: seq<int>): set<int> {
    set x | x in labels
  }

  /** A sequence has at most as many distinct values as elements. */
  lemma {:induction false} DistinctBound(labels: seq<int>)
    ensures |Distinct(labels)| <= |labels|
  {
    if |labels| > 0 {
      var init := labels[..|labels| - 1];
      DistinctBound(init);
      assert labels == init + [labels[|labels| - 1]];
      assert Distinct(labels) == Distinct(init) + {labels[|labels| - 1]};
    }
  }

  /** `len(set(labels)) - (1 if -1 in labels else 0)`. */
  function NClusters(labels: seq<int>): int {
    |Distinct(labels)| - (if -1 in labels then 1 else 0)
  }

  /** The cluster count is the number of distinct labels other than the noise
      label -1, and never exceeds the number of configurations. */
  lemma NClustersCount(labels: seq<int>)
    ensures NClusters(labels) == |Distinct(labels) - {-1}|
    ensures 0 <= NClusters(labels) <= |labels|
  {
    DistinctBound(labels);
    if -1 in labels {
      assert Distinct(labels) == (Distinct(labels) - {-1}) + {-1};
    } else {
      assert Distinct(labels) - {-1} == Distinct(labels);
    }
  }

  /** `order` lists `set(labels)` once each, in the set's iteration order. */
  ghost predicate Enumerates(order: seq<int>, labels: seq<int>) {
    && (forall i, j :: 0 <= i < j < |order| ==> order[i] != order[j])
    && (forall x :: x in order <==> x in labels)
  }

  /** The member count printed for each cluster, in the set's iteration order. */
  method ClusterSizes(labels: seq<int>, order: seq<int>) returns (sizes: seq<nat>)
    ensures |sizes| == |order|
    ensures forall k :: 0 <= k < |order| ==> sizes[k] == Count(labels, order[k])
  {
    sizes := [];
    for k := 0 to |order|
      invariant |sizes| == k
      invariant forall t :: 0 <= t < k ==> sizes[t] == Count(labels, order[t])
    {
      sizes := sizes + [Count(labels, order[k])];
    }
  }

  /** The member counts of the clusters in `order`, added up. */
  function SumCounts(labels: seq<int>, order: seq<int>): nat {
    if |order| == 0 then 0 else SumCounts(labels, order[..|order| - 1]) + Count(labels, order[|order| - 1])
  }

  lemma {:induction false} SumCountsEmpty(order: seq<int>)
    ensures SumCounts([], order) == 0
  {
    if |order| > 0 {
      SumCountsEmpty(order[..|order| - 1]);
    }
  }

  lemma {:induction false} SumCountsSnoc(labels: seq<int>, y: int, order: seq<int>)
    ensures SumCounts(labels + [y], order) == SumCounts(labels, order) + Count(order, y)
  {
    assert (labels + [y])[..|labels|] == labels;
    if |order| > 0 {
      SumCountsSnoc(labels, y, order[..|order| - 1]);
    }
  }

  /** A value listed once occurs once. */
  lemma {:induction false} CountDistinct(order: seq<int>, y: int)
    requires forall i, j :: 0 <= i < j < |order| ==> order[i] != order[j]
    requires y in order
    ensures Count(order, y) == 1
  {
    var init := order[..|order| - 1];
    assert order == init + [order[|order| - 1]];
    if order[|order| - 1] == y {
      CountZero(init, y);
    } else {
      CountDistinct(init, y);
    }
  }

  lemma {:induction false} SumCountsCover(labels: seq<int>, order: seq<int>)
    requires forall i, j :: 0 <= i < j < |order| ==> order[i] != order[j]
    requires forall i :: 0 <= i < |labels| ==> labels[i] in order
    ensures SumCounts(labels, order) == |labels|
  {
    if |labels| == 0 {
      SumCountsEmpty(order);
    } else {
      var init := labels[..|labels| - 1];
      var y := labels[|labels| - 1];
      assert labels == init + [y];
      SumCountsCover(init, order);
      SumCountsSnoc(init, y, order);
      CountDistinct(order, y);
    }
  }

  /** The member counts, one per distinct label, add up to the number of
      configurations: every configuration is counted in exactly one cluster. */
  lemma SizesCoverLabels(labels: seq<int>, order: seq<int>)
    requires Enumerates(order, labels)
    ensures SumCounts(labels, order) == |labels|
  {
    forall i | 0 <= i < |labels|
      ensures labels[i] in order
    {
      var x := labels[i];
      assert x in labels;
      assert x in order <==> x in labels;
    }
    SumCountsCover(labels, order);
  }

  // --------------------------------------------------------- perform_DBSCAN

  datatype ClusterError = LengthMismatch(nconfs: nat, ops: nat)

  /** Where `perform_DBSCAN` stops: right after clustering, or after the centroid
      search and the plot, with or without splitting the trajectory first. */
  datatype Outcome =
    | EarlyReturn(labels: seq<int>)
    | Analysed(labels: seq<int>, split: bool)

  /** `perform_DBSCAN` up to the labels it returns, with `dbscan` standing for the
      clustering library call. */
  function PerformDbscan<P>(nconfs: nat, op: seq<P>, dbscan: seq<P> -> seq<int>,
                            noTraj: bool := false, minClusters: int := -1): (r: Result<Outcome, ClusterError>)
    ensures r.Err? <==> nconfs != |op|
    ensures r.Err? ==> r.error == LengthMismatch(nconfs, |op|)
    ensures r.Ok? ==> r.value.labels == dbscan(op)
    ensures r.Ok? ==> (r.value.EarlyReturn? <==> |Distinct(dbscan(op)) - {-1}| < minClusters)
    ensures r.Ok? && r.value.Analysed? ==> r.value.split == !noTraj
  {
    NClustersCount(dbscan(op));
    if nconfs != |op| then Err(LengthMismatch(nconfs, |op|))
    else
      var labels := dbscan(op);
      if NClusters(labels) < minClusters then Ok(EarlyReturn(labels))
      else Ok(Analysed(labels, !noTraj))
  }

  /** With the default `min_clusters = -1` the run never stops early. */
  lemma DefaultNeverEarly<P>(nconfs: nat, op: seq<P>, dbscan: seq<P> -> seq<int>, noTraj: bool)
    requires nconfs == |op|
    ensures PerformDbscan(nconfs, op, dbscan, noTraj).Ok?
    ensures PerformDbscan(nconfs, op, dbscan, noTraj).value == Analysed(dbscan(op), !noTraj)
  {
    NClustersCount(dbscan(op));
  }

  // ------------------------------------------------------- split_trajectory

  /** Python's `xs[v]` on a list of length `n`: the position read, negative values
      counting from the end; `None` where Python raises IndexError. */
  function PyIndex(v: int, n: nat): (r: Option<nat>)
    ensures r.Some? <==> -(n as int) <= v < n
    ensures r.Some? ==> r.value < n && r.value % n == v % n
  {
    if 0 <= v < n then Some(v) else if -(n as int) <= v < 0 then Some(v + n) else None
  }

  /** `"cluster_" + str(cluster) + ".dat"`. */
  function FileName(cluster: int): string {
    "cluster_" + IntToString(cluster) + ".dat"
  }

  /** Why the routing loop raises at configuration `conf`: the label array is
      shorter than the trajectory, or the label does not index the file list. */
  datatype SplitError =
    | LabelMissing(conf: nat)
    | NoSuchFile(conf: nat, labelValue: int)

  /** The file contents after routing the configurations `confs` in reading order
      to `n` initially empty files, or the first error. */
  function Route<C>(confs: seq<C>, labs: seq<int>, n: nat): (r: Result<seq<seq<C>>, SplitError>)
    ensures r.Ok? ==> |r.value| == n
  {
    if |confs| == 0 then Ok(seq(n, _ => []))
    else
      var i := |confs| - 1;
      match Route(confs[..i], labs, n)
      case Err(e) => Err(e)
      case Ok(files) =>
        if i >= |labs| then Err(LabelMissing(i))
        else match PyIndex(labs[i], n)
          case None => Err(NoSuchFile(i, labs[i]))
          case Some(k) => Ok(files[k := files[k] + [confs[i]]])
  }

  /** The configurations among `confs` whose label selects file `k`, in order. */
  function Selected<C>(confs: seq<C>, labs: seq<int>, n: nat, k: nat): seq<C>
    requires |confs| <= |labs|
  {
    if |confs| == 0 then []
    else
      var i := |confs| - 1;
      Selected(confs[..i], labs, n, k) + (if PyIndex(labs[i], n) == Some(k) then [confs[i]] else [])
  }

  /** Routing succeeds exactly when every configuration read has a label and the
      label indexes the file list. */
  lemma {:induction false} RouteSucceedsIff<C>(confs: seq<C>, labs: seq<int>, n: nat)
    ensures Route(confs, labs, n).Ok? <==>
      (forall i :: 0 <= i < |confs| ==> i < |labs| && -(n as int) <= labs[i] < n)
  {
    if |confs| > 0 {
      var i := |confs| - 1;
      var pre := confs[..i];
      RouteSucceedsIff(pre, labs, n);
      assert |pre| == i;
      if Route(pre, labs, n).Err? {
        RouteStep(confs, labs, n);
        var j :| 0 <= j < i && !(j < |labs| && -(n as int) <= labs[j] < n);
        assert 0 <= j < |confs| && !(j < |labs| && -(n as int) <= labs[j] < n);
      } else if i < |labs| && -(n as int) <= labs[i] < n {
        RouteStep(confs, labs, n);
        forall j | 0 <= j < |confs| ensures j < |labs| && -(n as int) <= labs[j] < n {
          if j < i {
            assert 0 <= j < |pre|;
          }
        }
      } else {
        RouteStep(confs, labs, n);
        assert 0 <= i < |confs| && !(i < |labs| && -(n as int) <= labs[i] < n);
      }
    }
  }

  /** Routing one more configuration succeeds exactly when the routing before it
      did and its label indexes the file list. */
  lemma RouteStep<C>(confs: seq<C>, labs: seq<int>, n: nat)
    requires |confs| > 0
    ensures var i := |confs| - 1;
      Route(confs, labs, n).Ok? <==>
        Route(confs[..i], labs, n).Ok? && i < |labs| && -(n as int) <= labs[i] < n
  {
  }

  /** File `k` receives exactly the configurations whose label selects it, each
      once, in reading order. */
  lemma {:induction false} RouteSelects<C>(confs: seq<C>, labs: seq<int>, n: nat)
    requires Route(confs, labs, n).Ok?
    ensures |confs| <= |labs|
    ensures forall k :: 0 <= k < n ==> Route(confs, labs, n).value[k] == Selected(confs, labs, n, k)
  {
    if |confs| > 0 {
      RouteSelects(confs[..|confs| - 1], labs, n);
    }
  }

  /** The total length of a list of buffers. */
  function TotalLength<C>(files: seq<seq<C>>): nat {
    if |files| == 0 then 0 else TotalLength(files[..|files| - 1]) + |files[|files| - 1]|
  }

  lemma {:induction false} TotalLengthEmpty<C>(n: nat)
    ensures TotalLength(seq<seq<C>>(n, _ => [])) == 0
  {
    if n > 0 {
      var files := seq<seq<C>>(n, _ => []);
      assert files[..n - 1] == seq<seq<C>>(n - 1, _ => []);
      TotalLengthEmpty<C>(n - 1);
    }
  }

  lemma {:induction false} TotalLengthGrow<C>(files: seq<seq<C>>, k: nat, c: C)
    requires k < |files|
    ensures TotalLength(files[k := files[k] + [c]]) == TotalLength(files) + 1
  {
    var after := files[k := files[k] + [c]];
    var m := |files| - 1;
    if k < m {
      assert after[..m] == files[..m][k := files[k] + [c]];
      TotalLengthGrow(files[..m], k, c);
    } else {
      assert after[..m] == files[..m];
    }
  }

  /** Every configuration read is written exactly once: the files hold as many
      configurations as were read. */
  lemma {:induction false} RouteWritesEach<C>(confs: seq<C>, labs: seq<int>, n: nat)
    requires Route(confs, labs, n).Ok?
    ensures TotalLength(Route(confs, labs, n).value) == |confs|
  {
    if |confs| == 0 {
      TotalLengthEmpty<C>(n);
    } else {
      var i := |confs| - 1;
      RouteWritesEach(confs[..i], labs, n);
      TotalLengthGrow(Route(confs[..i], labs, n).value, PyIndex(labs[i], n).value, confs[i]);
    }
  }

  /** Once routing has failed, reading more configurations does not change the error. */
  lemma {:induction false} RouteStaysFailed<C>(confs: seq<C>, labs: seq<int>, n: nat, m: nat)
    requires m <= |confs|
    requires Route(confs[..m], labs, n).Err?
    ensures Route(confs, labs, n) == Route(confs[..m], labs, n)
    decreases |confs| - m
  {
    if m < |confs| {
      assert confs[..m + 1][..m] == confs[..m];
      RouteStaysFailed(confs, labs, n, m + 1);
    } else {
      assert confs[..m] == confs;
    }
  }

  /** The set iteration order CPython gives small non-negative labels: clusters
      0, 1, … in order, with the noise label -1, when present, last. */
  predicate SmallIntOrder(order: seq<int>) {
    || (forall k :: 0 <= k < |order| ==> order[k] == k)
    || (|order| > 0 && order[|order| - 1] == -1 && forall k :: 0 <= k < |order| - 1 ==> order[k] == k)
  }

  /** In that order, indexing the file list by a label value picks the file named
      after that label. */
  lemma FileOfLabel(order: seq<int>, x: int)
    requires SmallIntOrder(order)
    requires x in order
    ensures PyIndex(x, |order|).Some?
    ensures order[PyIndex(x, |order|).value] == x
  {
  }

  /** All configurations, in the order the chunks are read. */
  function Flatten<C>(chunks: seq<seq<C>>): seq<C> {
    if |chunks| == 0 then [] else Flatten(chunks[..|chunks| - 1]) + chunks[|chunks| - 1]
  }

  /** What `split_trajectory` leaves behind: the file names, the contents written
      to each, and the counter `i` at the end. */
  datatype Split<C> = Split(names: seq<string>, files: seq<seq<C>>, count: nat)

  /** `split_trajectory`: one file per distinct label, in the set's iteration
      order `order`; each configuration read goes to `files[labs[i]]`. */
  method SplitTrajectory<C>(chunks: seq<seq<C>>, labs: seq<int>, order: seq<int>)
    returns (r: Result<Split<C>, SplitError>)
    ensures Route(Flatten(chunks), labs, |order|).Err? ==>
      r == Err(Route(Flatten(chunks), labs, |order|).error)
    ensures Route(Flatten(chunks), labs, |order|).Ok? ==> r.Ok?
    ensures r.Ok? ==> r.value.files == Route(Flatten(chunks), labs, |order|).value
    ensures r.Ok? ==> r.value.count == |Flatten(chunks)|
    ensures r.Ok? ==> |r.value.names| == |order|
    ensures r.Ok? ==> forall k :: 0 <= k < |order| ==> r.value.names[k] == FileName(order[k])
  {
    var names := seq(|order|, k requires 0 <= k < |order| => FileName(order[k]));
    var files: seq<seq<C>> := seq(|order|, _ => []);
    ghost var read: seq<C> := [];
    var i := 0;
    for j := 0 to |chunks|
      invariant read == Flatten(chunks[..j]) && i == |read|
      invariant Route(read, labs, |order|) == Ok(files)
    {
      assert chunks[..j + 1][..j] == chunks[..j];
      var failure;
      files, i, failure := WriteChunk(files, read, chunks[j], labs, i);
      read := read + chunks[j];
      if failure.Some? {
        FlattenPrefix(chunks, j + 1);
        RouteStaysFailed(Flatten(chunks), labs, |order|, |read|);
        return Err(failure.value);
      }
    }
    assert chunks[..|chunks|] == chunks;
    return Ok(Split(names, files, i));
  }

  /** The inner loop of `split_trajectory`: the configurations of one chunk, each
      written to the file its label selects while `i` counts them. */
  method WriteChunk<C>(files: seq<seq<C>>, ghost read: seq<C>, chunk: seq<C>, labs: seq<int>, i: nat)
    returns (files': seq<seq<C>>, i': nat, failure: Option<SplitError>)
    requires i == |read| && Route(read, labs, |files|) == Ok(files)
    ensures failure.None? ==> Route(read + chunk, labs, |files|) == Ok(files') && i' == |read + chunk|
    ensures failure.Some? ==> Route(read + chunk, labs, |files|) == Err(failure.value)
  {
    files', i' := files, i;
    assert read + chunk[..0] == read;
    for t := 0 to |chunk|
      invariant i' == |read| + t && |files'| == |files|
      invariant Route(read + chunk[..t], labs, |files|) == Ok(files')
    {
      assert chunk[..t + 1] == chunk[..t] + [chunk[t]];
      assert read + chunk[..t + 1] == (read + chunk[..t]) + [chunk[t]];
      files', failure := Write(files', read + chunk[..t], chunk[t], labs, i');
      if failure.Some? {
        assert (read + chunk)[..i' + 1] == read + chunk[..t + 1];
        RouteStaysFailed(read + chunk, labs, |files|, i' + 1);
        return;
      }
      i' := i' + 1;
    }
    assert chunk[..|chunk|] == chunk;
    failure := None;
  }

  /** One configuration written to the file its label selects. */
  method Write<C>(files: seq<seq<C>>, ghost read: seq<C>, conf: C, labs: seq<int>, i: nat)
    returns (files': seq<seq<C>>, failure: Option<SplitError>)
    requires i == |read| && Route(read, labs, |files|) == Ok(files)
    ensures failure.None? ==> Route(read + [conf], labs, |files|) == Ok(files')
    ensures failure.Some? ==> Route(read + [conf], labs, |files|) == Err(failure.value)
  {
    assert (read + [conf])[..i] == read;
    if i >= |labs| {
      return files, Some(LabelMissing(i));
    }
    var v := labs[i];
    if 0 <= v < |files| {
      files' := files[v := files[v] + [conf]];
    } else if -|files| <= v < 0 {
      files' := files[v + |files| := files[v + |files|] + [conf]];
    } else {
      return files, Some(NoSuchFile(i, v));
    }
    failure := None;
  }

  /** The configurations of the first `j` chunks are the first ones read. */
  lemma {:induction false} FlattenPrefix<C>(chunks: seq<seq<C>>, j: nat)
    requires j <= |chunks|
    ensures |Flatten(chunks[..j])| <= |Flatten(chunks)|
    ensures Flatten(chunks)[..|Flatten(chunks[..j])|] == Flatten(chunks[..j])
    decreases |chunks| - j
  {
    if j < |chunks| {
      FlattenPrefix(chunks, j + 1);
      assert chunks[..j + 1][..j] == chunks[..j];
      var f := Flatten(chunks);
      var a := Flatten(chunks[..j]);
      var b := Flatten(chunks[..j + 1]);
      assert b == a + chunks[j];
      assert f[..|a|] == f[..|b|][..|a|];
    } else {
      assert chunks[..j] == chunks;
    }
  }

  // ------------------------------------------------------------ centroids

  /** `get_centroid` after the distance work: for each cluster in the set's order,
      the global id of the configuration at within-cluster position `argmins[k]`. */
  method CentroidIds(labs: seq<int>, order: seq<int>, argmins: seq<int>) returns (cids: seq<int>)
    requires |argmins| == |order|
    ensures |cids| == |order|
    ensures forall k :: 0 <= k < |order| ==>
      (cids[k] == -1 <==> !(0 <= argmins[k] < Count(labs, order[k])))
    ensures forall k :: 0 <= k < |order| && cids[k] != -1 ==>
      0 <= cids[k] < |labs| && labs[cids[k]] == order[k] && Count(labs[..cids[k]], order[k]) == argmins[k]
  {
    cids := [];
    for k := 0 to |order|
      invariant |cids| == k
      invariant forall t :: 0 <= t < k ==>
        (cids[t] == -1 <==> !(0 <= argmins[t] < Count(labs, order[t])))
      invariant forall t :: 0 <= t < k && cids[t] != -1 ==>
        0 <= cids[t] < |labs| && labs[cids[t]] == order[t] && Count(labs[..cids[t]], order[t]) == argmins[t]
    {
      var id := FindElement(argmins[k], order[k], labs);
      cids := cids + [id];
    }
  }
}
