/**
 Entry-range arithmetic of the pool worker.

 A tree of nEntries entries is cut into nWorkers ranges of nEntries / nWorkers
 entries each, the last range taking the remainder; the message a worker
 receives counts the ranges handed out so far, which names both the file and
 the range within it. A global maximum of entries is shared out among the
 workers the same way, and each worker clamps its range so that it never
 processes more than its share. A share of 0 stands for "no limit".
 */
module PoolRanges {

  /** Codes of the messages a worker receives. */
  datatype PoolCode = ProcFile | ProcRange | ProcTree | SendResult | Unknown(code: nat)

  /** 2^32: the values of the C++ `unsigned` the worker counts entries with. */
  const U32: nat := 0x1_0000_0000

  /** An entry count stored into a 32-bit unsigned variable. */
  function ToU32(x: nat): (r: nat)
    ensures r < U32
    ensures x < U32 ==> r == x
  {
    x % U32
  }

  /** Index of the file to read, from the number of ranges processed so far. */
  function FileIndex(nProcessed: nat, nWorkers: nat): (fileN: nat)
    requires nWorkers > 0
    ensures fileN * nWorkers <= nProcessed < fileN * nWorkers + nWorkers
  {
    nProcessed / nWorkers
  }

  /** Index of the range within the file, from the same count. */
  function RangeIndex(nProcessed: nat, nWorkers: nat): (rangeN: nat)
    requires nWorkers > 0
    ensures rangeN < nWorkers
  {
    nProcessed % nWorkers
  }

  /** The count of ranges processed splits into a file index and a range
      index below nWorkers; the next count moves to the next range of the same
      file, or from the last range to the first range of the next file. */
  lemma FileRangeCycle(nProcessed: nat, nWorkers: nat)
    requires nWorkers > 0
    ensures RangeIndex(nProcessed, nWorkers) < nWorkers
    ensures FileIndex(nProcessed, nWorkers) * nWorkers + RangeIndex(nProcessed, nWorkers) == nProcessed
    ensures RangeIndex(nProcessed, nWorkers) < nWorkers - 1 ==>
              FileIndex(nProcessed + 1, nWorkers) == FileIndex(nProcessed, nWorkers)
              && RangeIndex(nProcessed + 1, nWorkers) == RangeIndex(nProcessed, nWorkers) + 1
    ensures RangeIndex(nProcessed, nWorkers) == nWorkers - 1 ==>
              FileIndex(nProcessed + 1, nWorkers) == FileIndex(nProcessed, nWorkers) + 1
              && RangeIndex(nProcessed + 1, nWorkers) == 0
  {
    var f, r := nProcessed / nWorkers, nProcessed % nWorkers;
    assert nProcessed == f * nWorkers + r;
    if r < nWorkers - 1 {
      DivModUnique(nProcessed + 1, nWorkers, f, r + 1);
    } else {
      assert nProcessed + 1 == (f + 1) * nWorkers + 0;
      DivModUnique(nProcessed + 1, nWorkers, f + 1, 0);
    }
  }

  /** Distinct counts name distinct (file, range) pairs. */
  lemma FileRangeInjective(n: nat, m: nat, nWorkers: nat)
    requires nWorkers > 0
    requires FileIndex(n, nWorkers) == FileIndex(m, nWorkers)
    requires RangeIndex(n, nWorkers) == RangeIndex(m, nWorkers)
    ensures n == m
  {
    assert n == FileIndex(n, nWorkers) * nWorkers + RangeIndex(n, nWorkers);
    assert m == FileIndex(m, nWorkers) * nWorkers + RangeIndex(m, nWorkers);
  }

  lemma DivModUnique(x: nat, d: nat, q: nat, r: nat)
    requires d > 0 && r < d && x == q * d + r
    ensures x / d == q && x % d == r
  {
    var q', r' := x / d, x % d;
    assert x == q' * d + r';
    if q' < q {
      MulGap(q', q, d);
    } else if q' > q {
      MulGap(q, q', d);
    }
  }

  /** A larger factor adds at least one more d. */
  lemma MulGap(a: nat, b: nat, d: nat)
    requires a < b
    ensures a * d + d <= b * d
  {
    assert b * d == a * d + (b - a) * d;
    MulMonotone(1, b - a, d);
  }

  /** Entries of one worker's share of a tree: nEntries / nWorkers. */
  function Bunch(nEntries: nat, nWorkers: nat): nat
    requires nWorkers > 0
  {
    nEntries / nWorkers
  }

  /** First entry of range rangeN. */
  function RangeStart(rangeN: nat, nEntries: nat, nWorkers: nat): (start: nat)
    requires nWorkers > 0
    ensures rangeN < nWorkers ==> start <= nEntries
  {
    BunchBound(if rangeN < nWorkers then rangeN else 0, nEntries, nWorkers);
    rangeN * Bunch(nEntries, nWorkers)
  }

  /** End (exclusive) of range rangeN: the next range's start, or nEntries
      for the last range. */
  function RangeFinish(rangeN: nat, nEntries: nat, nWorkers: nat): (finish: nat)
    requires nWorkers > 0
    ensures rangeN < nWorkers ==> RangeStart(rangeN, nEntries, nWorkers) <= finish <= nEntries
    ensures rangeN >= nWorkers - 1 ==> finish == nEntries
  {
    if rangeN < nWorkers - 1 then
      BunchBound(rangeN + 1, nEntries, nWorkers);
      MulMonotone(rangeN, rangeN + 1, Bunch(nEntries, nWorkers));
      (rangeN + 1) * Bunch(nEntries, nWorkers)
    else nEntries
  }

  lemma MulMonotone(a: nat, b: nat, c: nat)
    requires a <= b
    ensures a * c <= b * c
  {
  }

  lemma BunchBound(k: nat, nEntries: nat, nWorkers: nat)
    requires nWorkers > 0 && k <= nWorkers
    ensures k * Bunch(nEntries, nWorkers) <= nEntries
  {
    MulMonotone(k, nWorkers, Bunch(nEntries, nWorkers));
    assert nWorkers * (nEntries / nWorkers) <= nEntries;
  }

  /** The ranges are contiguous and lie within the tree: the first starts at
      0, each ends where the next starts, the last ends at nEntries, and none
      ends before it starts. */
  lemma RangesContiguous(rangeN: nat, nEntries: nat, nWorkers: nat)
    requires nWorkers > 0 && rangeN < nWorkers
    ensures RangeStart(0, nEntries, nWorkers) == 0
    ensures RangeStart(rangeN, nEntries, nWorkers) <= RangeFinish(rangeN, nEntries, nWorkers) <= nEntries
    ensures rangeN < nWorkers - 1 ==> RangeFinish(rangeN, nEntries, nWorkers) == RangeStart(rangeN + 1, nEntries, nWorkers)
    ensures RangeFinish(nWorkers - 1, nEntries, nWorkers) == nEntries
  {
    BunchBound(rangeN, nEntries, nWorkers);
    if rangeN < nWorkers - 1 {
      BunchBound(rangeN + 1, nEntries, nWorkers);
      MulMonotone(rangeN, rangeN + 1, Bunch(nEntries, nWorkers));
    }
  }

  /** Every entry of the tree lies in exactly one range. */
  lemma RangesPartition(e: nat, nEntries: nat, nWorkers: nat)
    requires nWorkers > 0 && e < nEntries
    ensures exists r :: 0 <= r < nWorkers && RangeStart(r, nEntries, nWorkers) <= e < RangeFinish(r, nEntries, nWorkers)
    ensures forall r, r' :: 0 <= r < nWorkers && 0 <= r' < nWorkers
              && RangeStart(r, nEntries, nWorkers) <= e < RangeFinish(r, nEntries, nWorkers)
              && RangeStart(r', nEntries, nWorkers) <= e < RangeFinish(r', nEntries, nWorkers)
              ==> r == r'
  {
    var b := Bunch(nEntries, nWorkers);
    var owner: nat := if b == 0 || e / b >= nWorkers - 1 then nWorkers - 1 else e / b;
    if owner < nWorkers - 1 {
      assert e / b * b <= e < (e / b + 1) * b;
    } else {
      if b > 0 {
        assert (nWorkers - 1) * b <= e / b * b <= e;
      }
    }
    assert RangeStart(owner, nEntries, nWorkers) <= e < RangeFinish(owner, nEntries, nWorkers);
    forall r, r' | 0 <= r < nWorkers && 0 <= r' < nWorkers
              && RangeStart(r, nEntries, nWorkers) <= e < RangeFinish(r, nEntries, nWorkers)
              && RangeStart(r', nEntries, nWorkers) <= e < RangeFinish(r', nEntries, nWorkers)
      ensures r == r'
    {
      if r < r' {
        RangesOrdered(r, r', nEntries, nWorkers);
      } else if r' < r {
        RangesOrdered(r', r, nEntries, nWorkers);
      }
    }
  }

  /** An earlier range ends no later than a later one starts. */
  lemma RangesOrdered(r: nat, r': nat, nEntries: nat, nWorkers: nat)
    requires nWorkers > 0 && r < r' < nWorkers
    ensures RangeFinish(r, nEntries, nWorkers) <= RangeStart(r', nEntries, nWorkers)
  {
    MulMonotone(r + 1, r', Bunch(nEntries, nWorkers));
  }

  /** Sum of the lengths of ranges 0 .. k-1. */
  function RangesLength(k: nat, nEntries: nat, nWorkers: nat): int
    requires nWorkers > 0
  {
    if k == 0 then 0
    else RangesLength(k - 1, nEntries, nWorkers)
         + (RangeFinish(k - 1, nEntries, nWorkers) - RangeStart(k - 1, nEntries, nWorkers))
  }

  /** The first k ranges together hold exactly the entries before the k-th
      range's start; all nWorkers ranges hold the whole tree. */
  lemma {:induction false} RangesCoverAll(k: nat, nEntries: nat, nWorkers: nat)
    requires nWorkers > 0 && k <= nWorkers
    ensures k < nWorkers ==> RangesLength(k, nEntries, nWorkers) == RangeStart(k, nEntries, nWorkers)
    ensures k == nWorkers ==> RangesLength(k, nEntries, nWorkers) == nEntries
  {
    if k > 0 {
      RangesCoverAll(k - 1, nEntries, nWorkers);
      RangesContiguous(k - 1, nEntries, nWorkers);
    }
  }

  /** The entries [start, finish) one message asks for. For a file, the
      whole tree. For a range of a file or of the in-memory tree, the range
      named by the count of ranges processed so far, over the tree's entry
      count as a 32-bit unsigned value. */
  function EntryRange(code: PoolCode, nProcessed: nat, nWorkers: nat, treeEntries: nat): (r: (nat, nat))
    requires nWorkers > 0
    requires code.ProcFile? || code.ProcRange? || code.ProcTree?
    ensures r.0 <= r.1
    ensures code.ProcFile? ==> r == (0, treeEntries)
    ensures !code.ProcFile? ==> r.1 <= ToU32(treeEntries)
  {
    if code.ProcFile? then (0, treeEntries)
    else
      var nEntries := ToU32(treeEntries);
      var rangeN := RangeIndex(nProcessed, nWorkers);
      RangesContiguous(rangeN, nEntries, nWorkers);
      (RangeStart(rangeN, nEntries, nWorkers), RangeFinish(rangeN, nEntries, nWorkers))
  }

  /** The clamped end of a range. With a limit (maxN != 0) that has not been
      passed yet, the range is cut so that the entries processed, counting
      this range, reach the limit at most; it is only ever shortened. With
      no limit, or when the range fits, it is kept whole. */
  function ClampFinish(maxN: nat, processed: nat, start: nat, finish: nat): (f: int)
    requires start <= finish
    ensures maxN == 0 || processed + (finish - start) <= maxN ==> f == finish
    ensures maxN != 0 && processed <= maxN ==> start <= f <= finish && processed + (f - start) <= maxN
    ensures maxN != 0 && processed + (finish - start) > maxN ==> processed + (f - start) == maxN
  {
    if maxN != 0 && processed + (finish - start) > maxN then start + maxN - processed else finish
  }

  /** A worker's share of the global maximum: the quotient for every worker
      but the last, which also takes the remainder. */
  function EvalMaxEntries(workerN: nat, nWorkers: nat, maxEntries: nat): (share: nat)
    requires nWorkers > 0
    ensures share <= maxEntries
    ensures workerN >= nWorkers - 1 ==> share == maxEntries / nWorkers + maxEntries % nWorkers
  {
    BunchBound(nWorkers - 1, maxEntries, nWorkers);
    if workerN < nWorkers - 1 then maxEntries / nWorkers
    else maxEntries - (nWorkers - 1) * (maxEntries / nWorkers)
  }

  /** Sum of the shares of workers 0 .. k-1. */
  function SharesSum(k: nat, nWorkers: nat, maxEntries: nat): nat
    requires nWorkers > 0
  {
    if k == 0 then 0 else SharesSum(k - 1, nWorkers, maxEntries) + EvalMaxEntries(k - 1, nWorkers, maxEntries)
  }

  /** The shares of the first k workers but the last add up to k quotients;
      the shares of all workers add up to the global maximum. */
  lemma {:induction false} SharesSumToMax(k: nat, nWorkers: nat, maxEntries: nat)
    requires nWorkers > 0 && k <= nWorkers
    ensures k < nWorkers ==> SharesSum(k, nWorkers, maxEntries) == k * (maxEntries / nWorkers)
    ensures k == nWorkers ==> SharesSum(k, nWorkers, maxEntries) == maxEntries
  {
    if k > 0 {
      SharesSumToMax(k - 1, nWorkers, maxEntries);
    }
  }

  /** With fewer entries allowed than workers, every worker but the last gets
      a share of 0, and a share of 0 does not clamp: such a worker processes
      its whole range. For 2 entries, 3 workers and a tree of 30 entries,
      worker 0 processes 10 entries. */
  lemma ZeroShareUnlimited(processed: nat)
    ensures EvalMaxEntries(0, 3, 2) == 0 && EvalMaxEntries(1, 3, 2) == 0 && EvalMaxEntries(2, 3, 2) == 2
    ensures EntryRange(ProcRange, 0, 3, 30) == (0, 10)
    ensures ClampFinish(EvalMaxEntries(0, 3, 2), processed, 0, 10) == 10
  {
  }

  /** A worker's limit, with "no limit" kept apart from a limit of 0. */
  datatype Limit = NoLimit | AtMost(n: nat)

  /** A worker's limit as a global maximum of 0 ("no limit") or its share. */
  function EvalLimit(workerN: nat, nWorkers: nat, maxEntries: nat): (l: Limit)
    requires nWorkers > 0
    ensures maxEntries == 0 <==> l == NoLimit
  {
    if maxEntries == 0 then NoLimit else AtMost(EvalMaxEntries(workerN, nWorkers, maxEntries))
  }

  ghost predicate Within(l: Limit, processed: nat)
  {
    l.AtMost? ==> processed <= l.n
  }

  /** The clamp against a limit: a range is cut so that the entries processed
      stay within the limit, a limit of 0 included. */
  function ClampToLimit(l: Limit, processed: nat, start: nat, finish: nat): (f: int)
    requires start <= finish
    ensures l.NoLimit? ==> f == finish
    ensures Within(l, processed) ==> start <= f <= finish && Within(l, processed + (f - start))
  {
    if l.AtMost? && processed + (finish - start) > l.n then start + l.n - processed else finish
  }

  function Sum(xs: seq<nat>): nat
  {
    if xs == [] then 0 else Sum(xs[..|xs| - 1]) + xs[|xs| - 1]
  }

  /** With limits from EvalLimit, the workers together never process more
      than the global maximum. */
  lemma LimitedTotalBounded(nWorkers: nat, maxEntries: nat, processed: seq<nat>)
    requires nWorkers > 0 && maxEntries > 0 && |processed| == nWorkers
    requires forall w :: 0 <= w < nWorkers ==> Within(EvalLimit(w, nWorkers, maxEntries), processed[w])
    ensures Sum(processed) <= maxEntries
  {
    SumBelowShares(nWorkers, nWorkers, maxEntries, processed);
    assert processed[..nWorkers] == processed;
    SharesSumToMax(nWorkers, nWorkers, maxEntries);
  }

  lemma {:induction false} SumBelowShares(k: nat, nWorkers: nat, maxEntries: nat, processed: seq<nat>)
    requires nWorkers > 0 && maxEntries > 0 && k <= |processed| == nWorkers
    requires forall w :: 0 <= w < nWorkers ==> Within(EvalLimit(w, nWorkers, maxEntries), processed[w])
    ensures Sum(processed[..k]) <= SharesSum(k, nWorkers, maxEntries)
  {
    if k > 0 {
      SumBelowShares(k - 1, nWorkers, maxEntries, processed);
      assert processed[..k][..k - 1] == processed[..k - 1];
      assert Within(EvalLimit(k - 1, nWorkers, maxEntries), processed[k - 1]);
    }
  }

  /** With the limits as the worker computes them, workers whose share is 0
      run unclamped, and together the three workers of the example above
      process 22 entries against a maximum of 2. */
  lemma AsWrittenTotalUnbounded()
    ensures var processed := [ClampFinish(EvalMaxEntries(0, 3, 2), 0, 0, 10),
                              ClampFinish(EvalMaxEntries(1, 3, 2), 0, 10, 20) - 10,
                              ClampFinish(EvalMaxEntries(2, 3, 2), 0, 20, 30) - 20];
            processed == [10, 10, 2]
  {
  }
}
