/**
 The pool worker: it receives messages naming a file or a range of entries,
 runs the user's function over those entries, folds each result into the
 ones it already has, and answers with the folded result, an idle notice or
 an error.
 */
module PoolProcessor {
  import opened PoolRanges

  /** The answers a worker sends back; NoReply where it sends none of its own. */
  datatype Reply<R> =
    | ProcResult(result: R)
    | Idling
    | ProcError(worker: nat, start: nat, finish: nat)
    | UnknownCode(worker: nat, code: nat)
    | NoReply

  /** What the worker finds when it looks for the tree of one message: whether
      the in-memory tree comes from a file, whether the file opens, whether
      the tree is found in it, the tree's entry count, and whether the entry
      reader accepts the range. */
  datatype Input = Input(treeInFile: bool, fileOpened: bool, treeRetrieved: bool, entries: nat, readerOk: bool)

  /** The fold of all results so far, newest result first in each reduction. */
  function Reduced<R>(reduce: (R, R) -> R, rs: seq<R>): R
    requires rs != []
  {
    if |rs| == 1 then rs[0] else reduce(rs[|rs| - 1], Reduced(reduce, rs[..|rs| - 1]))
  }

  /** Whether a message needs a file opened: every message but one for the
      in-memory tree when that tree has no file. */
  predicate OpensFile(code: PoolCode, input: Input)
  {
    !code.ProcTree? || input.treeInFile
  }

  /** Whether the message ends without a range processed and without an
      answer: an in-memory tree is asked for but there is none, or the file
      does not open, or the tree is not in it. */
  predicate Dropped(code: PoolCode, hasTree: bool, input: Input)
  {
    (code.ProcTree? && !hasTree)
    || (OpensFile(code, input) && !(input.fileOpened && input.treeRetrieved))
  }

  /** Index of the file a message names: the payload itself for a file,
      the file of the count of ranges processed otherwise. */
  function FileOf(code: PoolCode, payload: nat, nWorkers: nat): (fileN: nat)
    requires nWorkers > 0
    ensures code.ProcFile? ==> fileN == payload
    ensures !code.ProcFile? ==> fileN == payload / nWorkers && fileN * nWorkers <= payload
  {
    if code.ProcFile? then payload
    else
      FileRangeCycle(payload, nWorkers);
      FileIndex(payload, nWorkers)
  }

  class TPoolProcessor<R> {
    /** The user's function, over the file index and the entry range [start, finish). */
    const procFunc: (nat, nat, nat) -> R
    /** The merge of two results. */
    const reduce: (R, R) -> R
    const nWorkers: nat
    /** Whether the worker was given a tree in memory. */
    const hasTree: bool

    var workerN: nat
    /** Maximum of entries to process; 0 for no limit. */
    var maxNEntries: nat
    var processedEntries: nat
    var reducedResult: R
    var canReduce: bool
    /** Every result produced so far, oldest first. */
    ghost var results: seq<R>

    ghost predicate Valid()
      reads this
    {
      && nWorkers > 0
      && (maxNEntries == 0 || processedEntries <= maxNEntries)
      && (canReduce <==> results != [])
      && (canReduce ==> reducedResult == Reduced(reduce, results))
    }

    constructor (procFunc: (nat, nat, nat) -> R, reduce: (R, R) -> R, hasTree: bool,
                 nWorkers: nat, maxEntries: nat, empty: R)
      requires nWorkers > 0
      ensures Valid()
      ensures this.procFunc == procFunc && this.reduce == reduce && this.hasTree == hasTree
      ensures this.nWorkers == nWorkers && maxNEntries == maxEntries
      ensures workerN == 0 && processedEntries == 0 && !canReduce && results == []
    {
      this.procFunc := procFunc;
      this.reduce := reduce;
      this.hasTree := hasTree;
      this.nWorkers := nWorkers;
      workerN := 0;
      maxNEntries := maxEntries;
      processedEntries := 0;
      reducedResult := empty;
      canReduce := false;
      results := [];
    }

    /** Takes the worker's number and replaces the global maximum by this
        worker's share of it. Runs once, before any message. */
    method Init(workerN: nat)
      requires Valid() && processedEntries == 0
      modifies this`workerN, this`maxNEntries
      ensures Valid()
      ensures this.workerN == workerN
      ensures maxNEntries == EvalMaxEntries(workerN, nWorkers, old(maxNEntries))
      ensures maxNEntries <= old(maxNEntries)
    {
      this.workerN := workerN;
      maxNEntries := EvalMaxEntries(workerN, nWorkers, maxNEntries);
    }

    /** The effect of one processing message, from the state before it
        (processed0, results0, reduced0, canReduce0) to the current state. */
    ghost predicate Processed(code: PoolCode, payload: nat, input: Input,
                              processed0: nat, results0: seq<R>, reduced0: R, canReduce0: bool,
                              reply: Reply<R>)
      reads this
      requires nWorkers > 0 && (maxNEntries == 0 || processed0 <= maxNEntries)
      requires code.ProcFile? || code.ProcRange? || code.ProcTree?
    {
      var range := EntryRange(code, payload, nWorkers, input.entries);
      var start := range.0;
      var finish := ClampFinish(maxNEntries, processed0, range.0, range.1);
      if Dropped(code, hasTree, input) then
        reply == NoReply && processedEntries == processed0 && results == results0
        && reducedResult == reduced0 && canReduce == canReduce0
      else if !input.readerOk then
        reply == ProcError(workerN, start, finish) && processedEntries == processed0
        && results == results0 && reducedResult == reduced0 && canReduce == canReduce0
      else
        var res := procFunc(FileOf(code, payload, nWorkers), start, finish);
        && processedEntries == processed0 + (finish - start)
        && results == results0 + [res]
        && reducedResult == (if canReduce0 then reduce(res, reduced0) else res)
        && canReduce
        && reply == (if maxNEntries == processedEntries then ProcResult(reducedResult) else Idling)
    }

    /** Processes the file or range a message names, clamped to the entries
        left under the limit, and folds the result in. The worker answers
        with its folded result once the limit is reached, and idles
        otherwise. */
    method Process(code: PoolCode, payload: nat, input: Input) returns (reply: Reply<R>)
      requires Valid()
      requires code.ProcFile? || code.ProcRange? || code.ProcTree?
      modifies this`processedEntries, this`reducedResult, this`canReduce, this`results
      ensures Valid()
      ensures Processed(code, payload, input, old(processedEntries), old(results),
                        old(reducedResult), old(canReduce), reply)
      ensures old(canReduce) ==> canReduce
      ensures maxNEntries != 0 && !Dropped(code, hasTree, input) && input.readerOk
              && old(processedEntries) + (EntryRange(code, payload, nWorkers, input.entries).1
                                           - EntryRange(code, payload, nWorkers, input.entries).0) >= maxNEntries
              ==> reply == ProcResult(reducedResult) && processedEntries == maxNEntries
    {
      if code.ProcTree? && !hasTree {
        return NoReply;
      }
      var fileN := FileOf(code, payload, nWorkers);
      if OpensFile(code, input) {
        if !input.fileOpened {
          return NoReply;
        }
        if !input.treeRetrieved {
          return NoReply;
        }
      }
      var range := EntryRange(code, payload, nWorkers, input.entries);
      var start := range.0;
      var finish := range.1;
      if maxNEntries != 0 {
        if processedEntries + finish - start > maxNEntries {
          finish := start + maxNEntries - processedEntries;
        }
      }
      if !input.readerOk {
        return ProcError(workerN, start, finish);
      }
      var res := procFunc(fileN, start, finish);
      ReducedStep(reduce, results, res);
      processedEntries := processedEntries + (finish - start);
      if canReduce {
        reducedResult := reduce(res, reducedResult);
      } else {
        canReduce := true;
        reducedResult := res;
      }
      results := results + [res];
      if maxNEntries == processedEntries {
        reply := ProcResult(reducedResult);
      } else {
        reply := Idling;
      }
    }

    /** Dispatches a message: processing codes go to Process, a request for
        the result is answered with the folded result, and any other code
        with an error naming the worker and the code. */
    method HandleInput(code: PoolCode, payload: nat, input: Input) returns (reply: Reply<R>)
      requires Valid()
      modifies this`processedEntries, this`reducedResult, this`canReduce, this`results
      ensures Valid()
      ensures code.ProcFile? || code.ProcRange? || code.ProcTree? ==>
                Processed(code, payload, input, old(processedEntries), old(results),
                          old(reducedResult), old(canReduce), reply)
      ensures code.SendResult? ==> reply == ProcResult(reducedResult)
      ensures code.Unknown? ==> reply == UnknownCode(workerN, code.code)
      ensures code.SendResult? || code.Unknown? ==>
                processedEntries == old(processedEntries) && results == old(results)
                && reducedResult == old(reducedResult) && canReduce == old(canReduce)
    {
      match code
      case ProcRange => reply := Process(code, payload, input);
      case ProcFile => reply := Process(code, payload, input);
      case ProcTree => reply := Process(code, payload, input);
      case SendResult => reply := ProcResult(reducedResult);
      case Unknown(c) => reply := UnknownCode(workerN, c);
    }
  }

  /** Folding in one more result reduces it with the fold of the earlier ones. */
  lemma ReducedStep<R>(reduce: (R, R) -> R, rs: seq<R>, r: R)
    ensures rs == [] ==> Reduced(reduce, rs + [r]) == r
    ensures rs != [] ==> Reduced(reduce, rs + [r]) == reduce(r, Reduced(reduce, rs))
  {
    assert (rs + [r])[..|rs|] == rs;
  }
}
