// The recall accumulator (class Metric in vectordb_bench.cpp).
// Every query contributes its ranked result ids and its ground-truth row;
// only the nearest true neighbour, the row's first entry, is looked for.
// The counters n1, n10 and n100 count the queries whose target was found at
// a rank below 1, 10 and 100; n counts all queries.
module Recall {

  /** The four counters of the accumulator as one value. */
  datatype Tally = Tally(n: nat, n1: nat, n10: nat, n100: nat)

  const Zero: Tally := Tally(0, 0, 0, 0)

  /** The thresholds are nested, so the counters are ordered. */
  predicate Ordered(t: Tally)
  {
    t.n1 <= t.n10 <= t.n100 <= t.n
  }

  /** The rank of the first occurrence of `target` in `res`, or `|res|` when
      it does not occur. */
  function FirstMatch(res: seq<int>, target: int): (i: nat)
    ensures i <= |res|
    ensures i < |res| ==> res[i] == target
    ensures forall k :: 0 <= k < i ==> res[k] != target
  {
    if res == [] then 0
    else if res[0] == target then 0
    else 1 + FirstMatch(res[1..], target)
  }

  /** `target` is among the first `k` results (all of them if there are fewer). */
  predicate InTop(res: seq<int>, target: int, k: nat)
  {
    target in res[..if k < |res| then k else |res|]
  }

  /** The rank scan of one query: count the query, and count a hit at each
      threshold the first occurrence of the target lies below. */
  function Record(t: Tally, res: seq<int>, target: int): Tally
  {
    var i := FirstMatch(res, target);
    var found := i < |res|;
    Tally(t.n + 1,
          t.n1 + (if found && i < 1 then 1 else 0),
          t.n10 + (if found && i < 10 then 1 else 0),
          t.n100 + (if found && i < 100 then 1 else 0))
  }

  /** Recording a query counts it, and counts a hit at threshold `k`
      exactly when the target is among the first `k` results. */
  lemma RecordCounts(t: Tally, res: seq<int>, target: int)
    ensures var u := Record(t, res, target);
      u.n == t.n + 1
      && u.n1 == t.n1 + (if InTop(res, target, 1) then 1 else 0)
      && u.n10 == t.n10 + (if InTop(res, target, 10) then 1 else 0)
      && u.n100 == t.n100 + (if InTop(res, target, 100) then 1 else 0)
  {
  }

  /** Recording a query keeps the counters ordered and lowers none of them. */
  lemma RecordKeepsOrdered(t: Tally, res: seq<int>, target: int)
    requires Ordered(t)
    ensures Ordered(Record(t, res, target))
    ensures var u := Record(t, res, target);
      t.n1 <= u.n1 && t.n10 <= u.n10 && t.n100 <= u.n100
  {
    RecordCounts(t, res, target);
    if InTop(res, target, 1) {
      assert res[..1] <= res[..if 10 < |res| then 10 else |res|];
    }
    if InTop(res, target, 10) {
      var m := if 10 < |res| then 10 else |res|;
      assert res[..m] <= res[..if 100 < |res| then 100 else |res|];
    }
  }

  /** The example of a target at rank 2: a hit at 10 and 100, not at 1. */
  lemma RankTwoExample(t: Tally)
    ensures Record(t, [7, 3, 9, 2], 9) == Tally(t.n + 1, t.n1, t.n10 + 1, t.n100 + 1)
  {
    assert FirstMatch([7, 3, 9, 2], 9) == 2;
  }

  /** A target that is not among the results changes no hit counter. */
  lemma AbsentTargetCountsOnlyQuery(t: Tally, res: seq<int>, target: int)
    requires target !in res
    ensures Record(t, res, target) == Tally(t.n + 1, t.n1, t.n10, t.n100)
  {
  }

  /** The counters after recording the queries `results[j]` with targets
      `targets[j]` in order. */
  function RecordAll(t: Tally, results: seq<seq<int>>, targets: seq<int>): Tally
    requires |results| == |targets|
  {
    if results == [] then t
    else
      var m := |results| - 1;
      Record(RecordAll(t, results[..m], targets[..m]), results[m], targets[m])
  }

  /** Recording query `i` after the first `i` is recording the first `i + 1`. */
  lemma RecordAllStep(results: seq<seq<int>>, targets: seq<int>, i: nat)
    requires i < |results| == |targets|
    ensures RecordAll(Zero, results[..i + 1], targets[..i + 1]) ==
      Record(RecordAll(Zero, results[..i], targets[..i]), results[i], targets[i])
  {
    assert results[..i + 1][..i] == results[..i];
    assert targets[..i + 1][..i] == targets[..i];
  }

  /** How many of the queries have their target among their first `k` results. */
  function Hits(results: seq<seq<int>>, targets: seq<int>, k: nat): (h: nat)
    requires |results| == |targets|
    ensures h <= |results|
  {
    if results == [] then 0
    else
      var m := |results| - 1;
      Hits(results[..m], targets[..m], k) + (if InTop(results[m], targets[m], k) then 1 else 0)
  }

  /** Starting from zero, the counters are the number of queries and, at
      each threshold k, the number of queries whose nearest true neighbour
      is among the first k results: recall@k is the latter over the former. */
  lemma {:induction false} RecordAllCounts(results: seq<seq<int>>, targets: seq<int>)
    requires |results| == |targets|
    ensures RecordAll(Zero, results, targets) ==
      Tally(|results|, Hits(results, targets, 1), Hits(results, targets, 10), Hits(results, targets, 100))
    ensures Ordered(RecordAll(Zero, results, targets))
  {
    if results != [] {
      var m := |results| - 1;
      RecordAllCounts(results[..m], targets[..m]);
      RecordCounts(RecordAll(Zero, results[..m], targets[..m]), results[m], targets[m]);
      RecordKeepsOrdered(RecordAll(Zero, results[..m], targets[..m]), results[m], targets[m]);
    }
  }

  class Metric {
    /** Queries recorded (n_). */
    var n: nat
    /** Queries whose target was the first result (n_1_). */
    var n1: nat
    /** Queries whose target was among the first 10 results (n_10_). */
    var n10: nat
    /** Queries whose target was among the first 100 results (n_100_). */
    var n100: nat

    function Counters(): Tally
      reads this
    {
      Tally(n, n1, n10, n100)
    }

    ghost predicate Valid()
      reads this
    {
      Ordered(Counters())
    }

    constructor ()
      ensures Valid() && Counters() == Zero
    {
      n, n1, n10, n100 := 0, 0, 0, 0;
    }

    /** AddQueryResult: count the query, then scan the results in rank order
        for the ground truth's first entry and stop at its first occurrence. */
    method AddQueryResult(res: seq<int>, gt: seq<int>)
      requires Valid() && |gt| > 0
      modifies this
      ensures Valid()
      ensures Counters() == Record(old(Counters()), res, gt[0])
    {
      n := n + 1;
      var target := gt[0];
      var i := 0;
      while i < |res|
        invariant 0 <= i <= |res|
        invariant forall k :: 0 <= k < i ==> res[k] != target
        invariant n == old(n) + 1 && n1 == old(n1) && n10 == old(n10) && n100 == old(n100)
      {
        if res[i] == target {
          if i < 1 {
            n1 := n1 + 1;
          }
          if i < 10 {
            n10 := n10 + 1;
          }
          if i < 100 {
            n100 := n100 + 1;
          }
          break;
        }
        i := i + 1;
      }
      RecordKeepsOrdered(old(Counters()), res, target);
    }
  }
}
