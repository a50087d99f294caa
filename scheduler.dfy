/**
 * Scatter/gather over a vector of entities: one task per index works on its own
 * copy, the results come back in an arbitrary completion order, and the merge
 * writes them into the vector. The completion order is an explicit argument.
 */
module Scheduler {

  /** The task indices 0, 1, ..., n - 1. */
  function Indices(n: nat): (s: seq<nat>)
    ensures |s| == n
    ensures forall i :: 0 <= i < n ==> s[i] == i
  {
    seq(n, i => i)
  }

  /** `order` hands back every one of the `n` tasks exactly once. */
  ghost predicate IsCompletionOrder(order: seq<nat>, n: nat) {
    multiset(order) == multiset(Indices(n))
  }

  predicate AllBelow(idx: seq<nat>, n: nat) {
    forall k :: 0 <= k < |idx| ==> idx[k] < n
  }

  /** A completion order has one entry per task, only valid indices, and every index. */
  lemma CompletionOrderCovers(order: seq<nat>, n: nat)
    requires IsCompletionOrder(order, n)
    ensures |order| == n
    ensures AllBelow(order, n)
    ensures forall i :: 0 <= i < n ==> i in order
  {
    assert |multiset(order)| == |order|;
    assert |multiset(Indices(n))| == n;
    forall k | 0 <= k < |order|
      ensures order[k] < n
    {
      assert order[k] in multiset(order);
      assert order[k] in Indices(n);
    }
    forall i | 0 <= i < n
      ensures i in order
    {
      assert Indices(n)[i] == i;
      assert i in multiset(Indices(n));
    }
  }

  /**
   * The index-tagged merge: for each result `(i, updated)` in completion order,
   * slot `i` receives `updated`; a failed task leaves its slot unchanged. Slot i
   * always ends holding the update of input i, whatever the completion order.
   */
  method GatherByIndex<T>(items: seq<T>, step: T -> T, order: seq<nat>, failed: set<nat>)
    returns (merged: seq<T>)
    requires IsCompletionOrder(order, |items|)
    ensures |merged| == |items|
    ensures forall i :: 0 <= i < |items| ==> merged[i] == if i in failed then items[i] else step(items[i])
  {
    CompletionOrderCovers(order, |items|);
    merged := items;
    var k := 0;
    while k < |order|
      invariant 0 <= k <= |order|
      invariant |merged| == |items|
      invariant forall i :: 0 <= i < |items| ==>
        merged[i] == if i in order[..k] && i !in failed then step(items[i]) else items[i]
    {
      var i := order[k];
      if i !in failed {
        merged := merged[i := step(items[i])];
      }
      k := k + 1;
    }
    assert order[..k] == order;
  }

  /** Each item after its own task. */
  function Mapped<T>(items: seq<T>, step: T -> T): (r: seq<T>)
    ensures |r| == |items|
    ensures forall i :: 0 <= i < |items| ==> r[i] == step(items[i])
  {
    seq(|items|, i requires 0 <= i < |items| => step(items[i]))
  }

  /** The results of the first k tasks to finish that succeeded, in completion order. */
  function Completed<T>(items: seq<T>, step: T -> T, order: seq<nat>, k: nat, failed: set<nat>): (r: seq<T>)
    requires AllBelow(order, |items|) && k <= |order|
    ensures |r| <= k
  {
    if k == 0 then []
    else
      var last := order[k - 1];
      Completed(items, step, order, k - 1, failed) + (if last in failed then [] else [step(items[last])])
  }

  /**
   * The counter merge: a running counter fills slots 0, 1, ... with the
   * successful results in completion order; slots past the counter keep their
   * old item.
   */
  function CounterMerge<T>(items: seq<T>, step: T -> T, order: seq<nat>, failed: set<nat>): (r: seq<T>)
    requires AllBelow(order, |items|) && |order| <= |items|
    ensures |r| == |items|
  {
    var done := Completed(items, step, order, |order|, failed);
    done + items[|done|..]
  }

  /**
   * The counter merge as a loop over the results in completion order: a task
   * in `failed` yields nothing, a result is written to the slot the counter
   * points at, and the counter never runs past the end.
   */
  method GatherByCounter<T>(items: seq<T>, step: T -> T, order: seq<nat>, failed: set<nat>)
    returns (merged: seq<T>)
    requires IsCompletionOrder(order, |items|)
    ensures AllBelow(order, |items|) && |order| == |items|
    ensures merged == CounterMerge(items, step, order, failed)
  {
    CompletionOrderCovers(order, |items|);
    merged := items;
    var i := 0;
    var k := 0;
    while k < |order|
      invariant 0 <= k <= |order|
      invariant |merged| == |items|
      invariant i == |Completed(items, step, order, k, failed)| <= k
      invariant merged == Completed(items, step, order, k, failed) + items[i..]
    {
      var index := order[k];
      if index !in failed {
        var result := step(items[index]);
        if i < |merged| {
          OverwriteNext(Completed(items, step, order, k, failed), items, result);
          merged := merged[i := result];
          i := i + 1;
        }
      }
      k := k + 1;
    }
  }

  /** Writing the next counter slot moves one item from the old tail to the merged head. */
  lemma OverwriteNext<T>(done: seq<T>, items: seq<T>, x: T)
    requires |done| < |items|
    ensures (done + items[|done|..])[|done| := x] == (done + [x]) + items[|done| + 1..]
  {
  }

  /** Without failures, the finished results are the stepped items picked in completion order. */
  lemma {:induction false} CompletedWithoutFailures<T>(items: seq<T>, step: T -> T, order: seq<nat>,
                                                      k: nat, failed: set<nat>)
    requires AllBelow(order, |items|) && k <= |order|
    requires forall m :: 0 <= m < |order| ==> order[m] !in failed
    ensures AllBelow(order[..k], |items|)
    ensures Completed(items, step, order, k, failed) == Permute(Mapped(items, step), order[..k])
  {
    if k > 0 {
      CompletedWithoutFailures(items, step, order, k - 1, failed);
      assert order[..k] == order[..k - 1] + [order[k - 1]];
      PermuteAppend(Mapped(items, step), order[..k - 1], [order[k - 1]]);
    }
  }

  /**
   * If every task succeeds, slot k holds the result of the task that finished
   * k-th (not of task k), and the merged vector is a permutation of the
   * individually stepped items.
   */
  lemma CounterMergeWithoutFailures<T>(items: seq<T>, step: T -> T, order: seq<nat>, failed: set<nat>)
    requires IsCompletionOrder(order, |items|)
    requires forall k :: 0 <= k < |order| ==> order[k] !in failed
    ensures AllBelow(order, |items|) && |order| == |items|
    ensures forall k :: 0 <= k < |items| ==> CounterMerge(items, step, order, failed)[k] == step(items[order[k]])
    ensures multiset(CounterMerge(items, step, order, failed)) == multiset(Mapped(items, step))
  {
    CompletionOrderCovers(order, |items|);
    CompletedWithoutFailures(items, step, order, |order|, failed);
    assert order[..|order|] == order;
    CompletionOrderPermutes(Mapped(items, step), order);
    assert CounterMerge(items, step, order, failed) == Permute(Mapped(items, step), order);
  }

  /** The entries of `s` picked in the order `idx` gives. */
  function Permute<T>(s: seq<T>, idx: seq<nat>): (r: seq<T>)
    requires AllBelow(idx, |s|)
    ensures |r| == |idx|
    ensures forall k :: 0 <= k < |idx| ==> r[k] == s[idx[k]]
  {
    seq(|idx|, k requires 0 <= k < |idx| => s[idx[k]])
  }

  lemma PermuteAppend<T>(s: seq<T>, u: seq<nat>, v: seq<nat>)
    requires AllBelow(u, |s|) && AllBelow(v, |s|)
    ensures AllBelow(u + v, |s|)
    ensures Permute(s, u + v) == Permute(s, u) + Permute(s, v)
  {
  }

  /** Indices with the same multiset as in-range ones are in range themselves. */
  lemma SameIndicesBelow(a: seq<nat>, b: seq<nat>, n: nat)
    requires AllBelow(a, n)
    requires multiset(a) == multiset(b)
    ensures AllBelow(b, n)
  {
    forall k | 0 <= k < |b|
      ensures b[k] < n
    {
      assert b[k] in multiset(b);
      assert b[k] in a;
    }
  }

  /** Picking entries by two orderings of the same indices gives the same multiset. */
  lemma {:induction false} PermuteSameIndices<T>(s: seq<T>, a: seq<nat>, b: seq<nat>)
    requires AllBelow(a, |s|)
    requires multiset(a) == multiset(b)
    ensures AllBelow(b, |s|)
    ensures multiset(Permute(s, a)) == multiset(Permute(s, b))
    decreases |a|
  {
    SameIndicesBelow(a, b, |s|);
    if |a| > 0 {
      var j := IndexOf(b, a[0]);
      var a', b' := a[1..], b[..j] + b[j + 1..];
      RemoveMatching(a, b, j);
      PermuteHead(s, a);
      PermuteSplit(s, b, j);
      PermuteSameIndices(s, a', b');
      calc {
        multiset(Permute(s, a));
        multiset(Permute(s, a')) + multiset{s[a[0]]};
        multiset(Permute(s, b')) + multiset{s[b[j]]};
        multiset(Permute(s, b));
      }
    } else {
      assert |b| == |multiset(b)| == 0;
      assert Permute(s, a) == [] == Permute(s, b);
    }
  }

  /** A position at which `x` occurs in `b`. */
  lemma IndexOf(b: seq<nat>, x: nat) returns (j: nat)
    requires x in multiset(b)
    ensures j < |b| && b[j] == x
  {
    assert x in b;
    j :| 0 <= j < |b| && b[j] == x;
  }

  /** Picking by `idx` is picking its first index, then the rest. */
  lemma PermuteHead<T>(s: seq<T>, idx: seq<nat>)
    requires AllBelow(idx, |s|) && 0 < |idx|
    ensures AllBelow(idx[1..], |s|)
    ensures multiset(Permute(s, idx)) == multiset(Permute(s, idx[1..])) + multiset{s[idx[0]]}
  {
    assert Permute(s, idx) == [s[idx[0]]] + Permute(s, idx[1..]);
  }

  /** Picking by `idx` is picking by the indices around position j, plus the one at j. */
  lemma PermuteSplit<T>(s: seq<T>, idx: seq<nat>, j: nat)
    requires AllBelow(idx, |s|) && j < |idx|
    ensures AllBelow(idx[..j] + idx[j + 1..], |s|)
    ensures multiset(Permute(s, idx))
         == multiset(Permute(s, idx[..j] + idx[j + 1..])) + multiset{s[idx[j]]}
  {
    var p := Permute(s, idx);
    var q := Permute(s, idx[..j] + idx[j + 1..]);
    assert p == q[..j] + [s[idx[j]]] + q[j..];
    assert q == q[..j] + q[j..];
  }

  /** Removing one occurrence of the same index from two equal multisets leaves them equal. */
  lemma RemoveMatching(a: seq<nat>, b: seq<nat>, j: nat)
    requires multiset(a) == multiset(b)
    requires 0 < |a| && j < |b| && b[j] == a[0]
    ensures multiset(a[1..]) == multiset(b[..j] + b[j + 1..])
  {
    assert a == [a[0]] + a[1..];
    RemoveAt(b, j);
  }

  /** Dropping the entry at position j removes one occurrence of it from the multiset. */
  lemma RemoveAt(s: seq<nat>, j: nat)
    requires j < |s|
    ensures multiset(s[..j] + s[j + 1..]) == multiset(s) - multiset{s[j]}
  {
    assert s == s[..j] + [s[j]] + s[j + 1..];
  }

  /** Reordering by a completion order is a permutation: the same entries, each as often. */
  lemma CompletionOrderPermutes<T>(s: seq<T>, order: seq<nat>)
    requires IsCompletionOrder(order, |s|)
    ensures AllBelow(order, |s|)
    ensures multiset(Permute(s, order)) == multiset(s)
  {
    CompletionOrderCovers(order, |s|);
    PermuteSameIndices(s, order, Indices(|s|));
    assert Permute(s, Indices(|s|)) == s;
  }
}
