// The benchmark driver: loading the base vectors into the database, running
// one similarity query per query vector and scoring it, and copying the
// ground truth (InsertIndexVectorData, DoANNQuery and the ground-truth block
// of main in vectordb_bench.cpp).
module Bench {
  import opened FileWords
  import opened Failures
  import opened Fvecs
  import opened Recall
  import opened Backend

  /** The dimension every base and query vector must have (SIFT1M). */
  const Dimension: nat := 128
  /** The row limit of every similarity query. */
  const ResultLimit: nat := 100
  /** The width of a ground-truth row as the query loop assumes it (k). */
  const TruthWidth: nat := 100

  /** Vector `i` of the dense buffer `p` of `d`-dimensional vectors. */
  function VectorAt(p: seq<int32>, d: nat, i: nat): seq<int32>
  {
    if |p| < d then []
    else if i == 0 then p[..d]
    else VectorAt(p[d..], d, i - 1)
  }

  /** The inserts of the first `count` vectors of `p`: one per vector, in
      order, each pairing vector `i` with identifier `i`. */
  function Inserts(p: seq<int32>, d: nat, count: nat): (cs: seq<Command>)
    ensures |cs| == count
  {
    if count == 0 then []
    else Inserts(p, d, count - 1) + [Insert(VectorAt(p, d, count - 1), count - 1)]
  }

  /** Insert `i` carries vector `i` and identifier `i`. */
  lemma {:induction false} InsertsAt(p: seq<int32>, d: nat, count: nat, i: nat)
    requires i < count
    ensures Inserts(p, d, count)[i] == Insert(VectorAt(p, d, i), i)
  {
    if i < count - 1 {
      InsertsAt(p, d, count - 1, i);
    }
  }

  /** The similarity queries for the first `count` query vectors of `p`, in order. */
  function Queries(p: seq<int32>, count: nat): (cs: seq<Command>)
    ensures |cs| == count
  {
    if count == 0 then []
    else Queries(p, count - 1) + [Query(VectorAt(p, Dimension, count - 1), ResultLimit)]
  }

  /** Query `i` searches for the nearest neighbours of query vector `i`. */
  lemma {:induction false} QueriesAt(p: seq<int32>, count: nat, i: nat)
    requires i < count
    ensures Queries(p, count)[i] == Query(VectorAt(p, Dimension, i), ResultLimit)
  {
    if i < count - 1 {
      QueriesAt(p, count - 1, i);
    }
  }

  /** The positions of the rejected commands among `replies`, in order: the
      indices the insert loop reports as failed. */
  function Rejected(replies: seq<Reply>): (failed: seq<nat>)
    ensures |failed| <= |replies|
  {
    if replies == [] then []
    else
      var m := |replies| - 1;
      Rejected(replies[..m]) + (if replies[m].ok then [] else [m])
  }

  /** An index is reported exactly when its command was rejected. */
  lemma {:induction false} RejectedMembers(replies: seq<Reply>)
    ensures forall i :: i in Rejected(replies) <==> 0 <= i < |replies| && !replies[i].ok
  {
    if replies != [] {
      var m := |replies| - 1;
      RejectedMembers(replies[..m]);
      assert forall i :: 0 <= i < m ==> replies[..m][i] == replies[i];
    }
  }

  /** The reported indices are strictly increasing, so none is reported twice. */
  lemma {:induction false} RejectedIncreasing(replies: seq<Reply>)
    ensures forall a, b :: 0 <= a < b < |Rejected(replies)| ==> Rejected(replies)[a] < Rejected(replies)[b]
  {
    if replies != [] {
      var m := |replies| - 1;
      RejectedIncreasing(replies[..m]);
      RejectedMembers(replies[..m]);
      var front := Rejected(replies[..m]);
      var failed := Rejected(replies);
      assert failed == front + (if replies[m].ok then [] else [m]);
      forall a, b | 0 <= a < b < |failed|
        ensures failed[a] < failed[b]
      {
        assert failed[a] == front[a] && front[a] in front;
        if b < |front| {
          assert failed[b] == front[b] && front[a] < front[b];
        } else {
          assert failed[b] == m && front[a] < m;
        }
      }
    }
  }

  /** One more reply adds its index to the rejected ones exactly when it failed. */
  lemma RejectedSnoc(replies: seq<Reply>, r: Reply)
    ensures Rejected(replies + [r]) == Rejected(replies) + (if r.ok then [] else [|replies|])
  {
    assert (replies + [r])[..|replies|] == replies;
  }

  /** The identifiers of the result rows, field 0 of each, in row order. */
  function Ids(rows: seq<Row>, parseId: string -> int32): (ids: seq<int>)
    ensures |ids| == |rows|
  {
    if rows == [] then []
    else
      var m := |rows| - 1;
      Ids(rows[..m], parseId) + [parseId(rows[m][0]) as int]
  }

  /** Identifier `k` is the parsed first field of row `k`. */
  lemma {:induction false} IdsElements(rows: seq<Row>, parseId: string -> int32)
    ensures forall k :: 0 <= k < |rows| ==> Ids(rows, parseId)[k] == parseId(rows[k][0]) as int
  {
    if rows != [] {
      var m := |rows| - 1;
      IdsElements(rows[..m], parseId);
      assert forall k :: 0 <= k < m ==> rows[..m][k] == rows[k];
    }
  }

  /** The identifier lists of a run of query replies, one per reply. */
  function ResultIds(replies: seq<Reply>, parseId: string -> int32): (results: seq<seq<int>>)
    ensures |results| == |replies|
  {
    if replies == [] then []
    else
      var m := |replies| - 1;
      ResultIds(replies[..m], parseId) + [Ids(replies[m].rows, parseId)]
  }

  /** The nearest true neighbour of each of the first `count` queries: the
      first entry of its ground-truth row, which starts at `TruthWidth * i`. */
  function Targets(gt: seq<int>, count: nat): (targets: seq<int>)
    requires TruthWidth * count <= |gt|
    ensures |targets| == count
  {
    if count == 0 then [] else Targets(gt, count - 1) + [gt[TruthWidth * (count - 1)]]
  }

  /** Id list `j` is the identifiers of reply `j`. */
  lemma {:induction false} ResultIdsAt(replies: seq<Reply>, parseId: string -> int32, j: nat)
    requires j < |replies|
    ensures ResultIds(replies, parseId)[j] == Ids(replies[j].rows, parseId)
  {
    var m := |replies| - 1;
    if j < m {
      ResultIdsAt(replies[..m], parseId, j);
    }
  }

  /** Target `j` is the first entry of ground-truth row `j`. */
  lemma {:induction false} TargetsAt(gt: seq<int>, count: nat, j: nat)
    requires TruthWidth * count <= |gt| && j < count
    ensures Targets(gt, count)[j] == gt[TruthWidth * j]
  {
    if j < count - 1 {
      TargetsAt(gt, count - 1, j);
    }
  }

  /** Taking one more element of a sequence appends that element. */
  lemma TakeSnoc<T>(s: seq<T>, i: nat)
    requires i < |s|
    ensures s[..i + 1] == s[..i] + [s[i]]
  {
  }

  /** A slice of a prefix is the same slice of the whole sequence. */
  lemma SliceOfTake<T>(s: seq<T>, n: nat, lo: nat, hi: nat)
    requires lo <= hi <= n <= |s|
    ensures s[..n][lo..hi] == s[lo..hi]
  {
  }

  /** Vector `i` of a buffer of `n` vectors lies inside the buffer, at
      offset `i * d`. */
  lemma VectorSlot(p: seq<int32>, d: nat, n: nat, i: nat, lo: nat)
    requires n * d <= |p| && i < n && lo == i * d
    ensures lo + d <= |p| && VectorAt(p, d, i) == p[lo..lo + d]
    decreases i
  {
    RecordBounds(d, n, i);
    if i > 0 {
      assert (n - 1) * d == n * d - d && lo - d == (i - 1) * d;
      VectorSlot(p[d..], d, n - 1, i - 1, lo - d);
    }
  }

  /** One iteration of the insert loop: send base vector `i` of the first
      `nb` vectors of `xb` as row `i`. */
  method InsertOne(db: Instance, xb: array<int32>, d2: nat, nb: nat, i: nat) returns (reply: Reply)
    requires nb * d2 <= xb.Length && i < nb
    modifies db
    ensures db.log == old(db.log) + [Insert(VectorAt(xb[..nb * d2], d2, i), i)]
    ensures reply == db.answer(old(db.log), Insert(VectorAt(xb[..nb * d2], d2, i), i))
  {
    var lo := i * d2;
    var vector := xb[lo..lo + d2] by {
      VectorSlot(xb[..nb * d2], d2, nb, i, lo);
    }
    assert vector == VectorAt(xb[..nb * d2], d2, i) by {
      VectorSlot(xb[..nb * d2], d2, nb, i, lo);
      SliceOfTake(xb[..], nb * d2, lo, lo + d2);
    }
    reply := db.ExecuteSql(Insert(vector, i));
  }

  /** The insert loop of InsertIndexVectorData: one insert per base vector,
      in order, carrying on past rejected inserts, whose indices it reports. */
  method InsertRows(db: Instance, xb: array<int32>, d2: nat, nb: nat) returns (failed: seq<nat>)
    requires nb * d2 <= xb.Length
    modifies db
    ensures db.log == old(db.log) + Inserts(xb[..nb * d2], d2, nb)
    ensures failed == Rejected(Replay(db.answer, old(db.log), Inserts(xb[..nb * d2], d2, nb)))
  {
    ghost var p := xb[..nb * d2];
    ghost var log0 := db.log;
    // Everything the loop will send and receive, fixed up front.
    ghost var sends := Inserts(p, d2, nb);
    ghost var replies := Replay(db.answer, log0, sends);
    failed := [];
    var i := 0;
    while i < nb
      invariant 0 <= i <= nb
      invariant db.log == log0 + sends[..i]
      invariant failed == Rejected(replies[..i])
    {
      var reply := InsertOne(db, xb, d2, nb, i);
      assert sends[i] == Insert(VectorAt(p, d2, i), i) by {
        InsertsAt(p, d2, nb, i);
      }
      assert reply == replies[i] by {
        ReplayAt(db.answer, log0, sends, i);
      }
      assert Rejected(replies[..i + 1]) == failed + (if reply.ok then [] else [i]) by {
        TakeSnoc(replies, i);
        RejectedSnoc(replies[..i], replies[i]);
      }
      if !reply.ok {
        failed := failed + [i];
      }
      TakeSnoc(sends, i);
      i := i + 1;
    }
    assert sends[..nb] == sends;
    assert replies[..nb] == replies;
  }

  /** InsertIndexVectorData: create the vector index, load the base vectors,
      check their dimension and insert them all. */
  method InsertIndexVectorData(db: Instance, baseFile: seq<byte>) returns (r: Result<seq<nat>>)
    modifies db
    ensures !db.answer(old(db.log), CreateIndex).ok ==>
      r == Err(IndexRejected) && db.log == old(db.log) + [CreateIndex]
    ensures db.answer(old(db.log), CreateIndex).ok && Framing(baseFile).Err? ==>
      r == Err(Framing(baseFile).error) && db.log == old(db.log) + [CreateIndex]
    ensures (db.answer(old(db.log), CreateIndex).ok && Framing(baseFile).Ok?
             && Framing(baseFile).value.d != Dimension) ==>
      r == Err(DimensionMismatch(Dimension, Framing(baseFile).value.d))
      && db.log == old(db.log) + [CreateIndex]
    ensures r.Ok? <==>
      db.answer(old(db.log), CreateIndex).ok && Framing(baseFile).Ok?
      && Framing(baseFile).value.d == Dimension
    ensures r.Ok? ==>
      var log1 := old(db.log) + [CreateIndex];
      var inserts := Inserts(Vectors(baseFile), Dimension, Framing(baseFile).value.n);
      db.log == log1 + inserts && r.value == Rejected(Replay(db.answer, log1, inserts))
  {
    var created := db.ExecuteSql(CreateIndex);
    if !created.ok {
      return Err(IndexRejected);
    }
    var base := FvecsRead(baseFile);
    if base.Err? {
      return Err(base.error);
    }
    var d2, nb, xb := base.value.d, base.value.n, base.value.x;
    if d2 != Dimension {
      return Err(DimensionMismatch(Dimension, d2));
    }
    RecordStep(d2, nb, 0);
    var failed := InsertRows(db, xb, d2, nb);
    r := Ok(failed);
  }

  /** The per-query id list: field 0 of every result row, in row order. */
  method IdList(rows: seq<Row>, parseId: string -> int32) returns (ids: seq<int>)
    ensures |ids| == |rows|
    ensures forall k :: 0 <= k < |rows| ==> ids[k] == parseId(rows[k][0]) as int
  {
    ids := [];
    for k := 0 to |rows|
      invariant |ids| == k
      invariant forall j :: 0 <= j < k ==> ids[j] == parseId(rows[j][0]) as int
    {
      ids := ids + [parseId(rows[k][0]) as int];
    }
  }

  /** One iteration of the query loop of DoANNQuery: query the database
      with query vector `i`, list the identifiers of the reply's rows and
      score them against ground-truth row `i`. */
  method QueryOne(db: Instance, metric: Metric, xq: seq<int32>, nq: nat, gt: seq<int>,
                  parseId: string -> int32, i: nat)
    requires i < nq && Dimension * nq <= |xq| && TruthWidth * nq <= |gt|
    requires metric.Valid()
    modifies db, metric
    ensures metric.Valid()
    ensures db.log == old(db.log) + [Query(VectorAt(xq, Dimension, i), ResultLimit)]
    ensures metric.Counters() ==
      Record(old(metric.Counters()),
             Ids(db.answer(old(db.log), Query(VectorAt(xq, Dimension, i), ResultLimit)).rows, parseId),
             gt[TruthWidth * i])
  {
    var lo := Dimension * i;
    var vector := xq[lo..lo + Dimension] by {
      VectorSlot(xq, Dimension, nq, i, lo);
    }
    assert vector == VectorAt(xq, Dimension, i) by {
      VectorSlot(xq, Dimension, nq, i, lo);
    }
    var reply := db.ExecuteSql(Query(vector, ResultLimit));
    var ids := IdList(reply.rows, parseId);
    assert ids == Ids(reply.rows, parseId) by {
      IdsElements(reply.rows, parseId);
    }
    metric.AddQueryResult(ids, gt[TruthWidth * i..]);
  }

  /** DoANNQuery: one similarity query per query vector, in order; each
      reply's id list is scored against the ground-truth row of that query,
      whatever status the query returned. The query vectors and the ground
      truth are only read, so they are passed as values. */
  method DoANNQuery(db: Instance, xq: seq<int32>, nq: nat, gt: seq<int>, parseId: string -> int32)
    returns (metric: Metric)
    requires Dimension * nq <= |xq|
    requires TruthWidth * nq <= |gt|
    modifies db
    ensures fresh(metric) && metric.Valid()
    ensures db.log == old(db.log) + Queries(xq, nq)
    ensures metric.Counters() ==
      RecordAll(Zero, ResultIds(Replay(db.answer, old(db.log), Queries(xq, nq)), parseId), Targets(gt, nq))
  {
    metric := new Metric();
    ghost var log0 := db.log;
    // Everything the loop will send, receive and score, fixed up front.
    ghost var sends := Queries(xq, nq);
    ghost var replies := Replay(db.answer, log0, sends);
    ghost var results := ResultIds(replies, parseId);
    ghost var targets := Targets(gt, nq);
    var i := 0;
    while i < nq
      invariant 0 <= i <= nq
      invariant db.log == log0 + sends[..i]
      invariant fresh(metric) && metric.Valid()
      invariant metric.Counters() == RecordAll(Zero, results[..i], targets[..i])
    {
      QueryOne(db, metric, xq, nq, gt, parseId, i);
      assert sends[i] == Query(VectorAt(xq, Dimension, i), ResultLimit) by {
        QueriesAt(xq, nq, i);
      }
      assert results[i] == Ids(db.answer(log0 + sends[..i], sends[i]).rows, parseId) by {
        ReplayAt(db.answer, log0, sends, i);
        ResultIdsAt(replies, parseId, i);
      }
      assert targets[i] == gt[TruthWidth * i] by {
        TargetsAt(gt, nq, i);
      }
      RecordAllStep(results, targets, i);
      TakeSnoc(sends, i);
      i := i + 1;
    }
    assert sends[..nq] == sends;
    assert results[..nq] == results && targets[..nq] == targets;
  }

  /** The ground truth as the query loop reads it: `k` identifiers per query. */
  datatype GroundTruth = GroundTruth(k: nat, gt: array<int>)

  /** The copy loop of main: the first `k * nq` ground-truth words, as ints. */
  method CopyGroundTruth(gtInt: array<int32>, k: nat, nq: nat) returns (gt: array<int>)
    requires k * nq <= gtInt.Length
    ensures fresh(gt) && gt.Length == k * nq
    ensures forall t :: 0 <= t < k * nq ==> gt[t] == gtInt[t] as int
  {
    gt := new int[k * nq];
    for t := 0 to k * nq
      invariant forall s :: 0 <= s < t ==> gt[s] == gtInt[s] as int
    {
      gt[t] := gtInt[t] as int;
    }
  }

  /** The ground-truth block of main: read the ids file, require one row per
      query, and copy the rows out. */
  method LoadGroundTruth(gtFile: seq<byte>, nq: nat) returns (r: Result<GroundTruth>)
    ensures r.Ok? <==> Framing(gtFile).Ok? && Framing(gtFile).value.n == nq
    ensures r.Err? && Framing(gtFile).Err? ==> r.error == Framing(gtFile).error
    ensures r.Err? && Framing(gtFile).Ok? ==> r.error == QueryCountMismatch(nq, Framing(gtFile).value.n)
    ensures r.Ok? ==>
      fresh(r.value.gt) && r.value.k == Framing(gtFile).value.d && r.value.gt.Length == r.value.k * nq
      && forall t :: 0 <= t < r.value.k * nq ==> r.value.gt[t] == Vectors(gtFile)[t] as int
  {
    var truth := IvecsRead(gtFile);
    if truth.Err? {
      return Err(truth.error);
    }
    var k, nq2, gtInt := truth.value.d, truth.value.n, truth.value.x;
    if nq2 != nq {
      return Err(QueryCountMismatch(nq, nq2));
    }
    assert k * nq <= gtInt.Length && gtInt[..k * nq] == Vectors(gtFile) by {
      PayloadFits(k, nq);
    }
    var gt := CopyGroundTruth(gtInt, k, nq);
    forall t | 0 <= t < k * nq
      ensures gt[t] == Vectors(gtFile)[t] as int
    {
      assert gtInt[..k * nq][t] == gtInt[t];
    }
    r := Ok(GroundTruth(k, gt));
  }
}
