# SQL buffer array codec and pool worker ranges

This project models two self-contained pieces of ROOT's logic.

**The SQL buffer (`TBufferSQL2`).** When ROOT streams an object into SQL tables, the buffer works on a few kinds of state:

- a stack of structure nodes;
- a map from written objects to object ids;
- a sticky error flag;
- a one-shot version buffer;
- a cursor over the values of the object being read.

Integer arrays are written run-length compressed. The writer emits one value per maximal run of equal elements, tagged with the run's index range `[first..last]`. The reader checks each run's prefix against the next index and the array size, reads the value, and copies it through the range.

- Module `SqlArrayCodec` (`sql_array_codec.dfy`) gives the pure specification: run lists, stored prefixes, the reader as a function of the cursor, and the round trip.
- Module `SqlBuffer` (`sql_buffer.dfy`) models the buffer itself as a class. Its writer and reader loops work in place on an `array<int>` and are proved against those functions.

**The pool worker (`TPoolProcessor`).** A worker is given the count of entry ranges handed out so far. From it, the worker derives the file and the range within that file. It clamps the range to its share of a global maximum, runs the user's function over the range, and folds the result into the ones it already has.

- Module `PoolRanges` (`pool_ranges.dfy`) holds the pure range and quota arithmetic.
- Module `PoolProcessor` (`pool_processor.dfy`) holds the worker as a class.

## Model

| member | source | states |
|---|---|---|
| SqlArrayCodec.RunEndFrom | io/sql/src/TBufferSQL2.cxx:1674-1675 | The inner scan stops at the first element that differs from the run's first element, or at the end of the array. Every element it passes equals the run's first element. |
| SqlArrayCodec.Runs | io/sql/src/TBufferSQL2.cxx:1671-1677 | The runs the writer emits from index i: none exactly when i is the array size, at most one per remaining element, and the first one holds s[i], starts at i and covers at least one element within the array. |
| SqlArrayCodec.RunsStep | io/sql/src/TBufferSQL2.cxx:1672-1676 | A maximal run [i, e) of elements equal to s[i] is the first item emitted from i, tagged (i, e - i), and the writer goes on from e. |
| SqlArrayCodec.Compress | io/sql/src/TBufferSQL2.cxx:1669-1678 | The compressed writer's output has at most as many items as the array has elements, and is empty exactly for an empty array. CompressProperties and CompressRoundTrip state the rest. |
| SqlArrayCodec.CompressProperties | io/sql/src/TBufferSQL2.cxx:1669-1678 | The compressed writer's runs tile the array in order, each run starting where the previous one ended with count ≥ 1 and every element equal to the run's value. The counts sum to the array size, adjacent runs have different values, and there are at most as many runs as elements. |
| SqlArrayCodec.RunsTile | io/sql/src/TBufferSQL2.cxx:1669-1678 | The runs emitted from index i tile the array from i. |
| SqlArrayCodec.RunsMaximal | io/sql/src/TBufferSQL2.cxx:1674-1676 | Neighbouring runs carry different values, so every run is maximal. |
| SqlArrayCodec.TilesCountSum | io/sql/src/TBufferSQL2.cxx:1672-1677 | The counts of a tiling from i sum to the number of elements from i. |
| SqlArrayCodec.TilesCover | io/sql/src/TBufferSQL2.cxx:1672-1677 | Every element lies in some run, and equals the value of every run it lies in. |
| SqlArrayCodec.Uncompressed | io/sql/src/TBufferSQL2.cxx:1660-1666 | The uncompressed writer emits exactly one value per element, in index order, tagged with the element's index and count 1. |
| SqlArrayCodec.UncompressedTiles | io/sql/src/TBufferSQL2.cxx:1660-1666 | The uncompressed output is also a tiling of the array, one element per run. |
| SqlArrayCodec.Bounds | io/sql/src/TBufferSQL2.cxx:1020-1024 | The bounds start at the prefix's first index, and a prefix `[first` without a last index names first..first. |
| SqlArrayCodec.ReadValue | io/sql/src/TBufferSQL2.cxx:2675-2699 | One read of the next value: a raised flag blocks it, missing data or a tag mismatch (unless verification is ignored) raises the flag, and a success advances the cursor by one. SqlBuffer.BufferSql2.SqlReadValue is proved equal to it. |
| SqlArrayCodec.ReadCompressedFrom | io/sql/src/TBufferSQL2.cxx:1017-1035 | The compressed reader run by run. An exhausted cursor or a rejected prefix sets the flag and stops; otherwise one value is read and copied over the prefix's range. It never shrinks what was filled and never fills past n. |
| SqlArrayCodec.ReadUncompressedFrom | io/sql/src/TBufferSQL2.cxx:1010-1014 | The uncompressed reader: one read per element, a failed read filling 0; it always fills exactly n elements. |
| SqlArrayCodec.PrefixOf | io/sql/src/TBufferSQL2.cxx:1020-1024 | The stored prefix of a run with index i and count c reads back as the bounds (i, i+c-1). |
| SqlArrayCodec.ReadCompressedFacts | io/sql/src/TBufferSQL2.cxx:1017-1035 | The compressed reader keeps what was already filled and never fills past the array size. Either it fills the whole array or it leaves the error flag at 1. It never changes the stored values. |
| SqlArrayCodec.RejectedPrefixStops | io/sql/src/TBufferSQL2.cxx:1026-1030 | A prefix whose first index is not the next index to fill, whose last index is before its first, or whose last index is at or past the array size sets the error flag to 1. The read stops with nothing more filled and the cursor unmoved. |
| SqlArrayCodec.ReadUncompressedFacts | io/sql/src/TBufferSQL2.cxx:1010-1014 | The uncompressed reader keeps what was already filled and never changes the stored values. |
| SqlArrayCodec.ReadUncompressedSticky | io/sql/src/TBufferSQL2.cxx:1010-1014 | Once the error flag is up, every remaining element reads as 0 and the cursor does not move. |
| SqlArrayCodec.ReadArray | io/sql/src/TBufferSQL2.cxx:1039-1050 | Blob data is read compressed, other data uncompressed. Non-blob data always fills the whole array. Blob data either fills it or raises the error flag. |
| SqlArrayCodec.ReadTiles | io/sql/src/TBufferSQL2.cxx:1017-1035 | Reading the stored values of any tiling of an array, from a clear error flag, rebuilds exactly that array and moves the cursor past those values. |
| SqlArrayCodec.CompressRoundTrip | io/sql/src/TBufferSQL2.cxx:1017-1035 | Reading back what the compressed writer stored rebuilds the original array exactly, consumes every stored value and leaves the error flag clear. |
| SqlArrayCodec.UncompressedRoundTrip | io/sql/src/TBufferSQL2.cxx:1660-1666 | The compressed reader also rebuilds the array from the uncompressed writer's one-element runs. |
| SqlArrayCodec.ReadUncompressedValues | io/sql/src/TBufferSQL2.cxx:1010-1014 | The uncompressed reader, over int values whose payloads are the array, rebuilds the array and moves the cursor past them. |
| SqlBuffer.Short | io/sql/src/TBufferSQL2.cxx:953-955 | A version read as a number is brought into the 16-bit range, keeps its value modulo 2^16, and is unchanged when it already fits. |
| SqlBuffer.SqlStructure.AddArrayValue | io/sql/src/TBufferSQL2.cxx:1664-1676 | A written array value is appended to the top node together with its index range. |
| SqlBuffer.BufferSql2.constructor | io/sql/src/TBufferSQL2.cxx:93-115 | A fresh buffer has an empty stack, no object map, error flag 0, id counter 1, first id 0 and version buffer -1. |
| SqlBuffer.BufferSql2.PushStack | io/sql/src/TBufferSQL2.cxx:2723-2734 | The new node becomes the top as a child of the previous top. On an empty stack it becomes the root structure. The previous top gains the child and nothing else changes in it. The parent-chain invariant is kept. |
| SqlBuffer.BufferSql2.PopStack | io/sql/src/TBufferSQL2.cxx:2739-2745 | The top moves to its parent, which is returned. On an empty stack it returns null and changes nothing. |
| SqlBuffer.BufferSql2.Stack | io/sql/src/TBufferSQL2.cxx:2749-2754 | Returns the depth-th node below the top (a negative depth counts as 0), or null when the stack is not that deep. |
| SqlBuffer.BufferSql2.SqlWriteObject | io/sql/src/TBufferSQL2.cxx:343-393 | A null object or no class gives id 0. A recorded object gives back first id + recorded value - 1, with counter and map unchanged. A new object gets the current counter, the counter moves on by one, and the object is recorded. Recorded ids stay distinct, and a new id exceeds every earlier one. The stack is restored and its top keeps its kind and items. |
| SqlBuffer.BufferSql2.SqlWriteAny | io/sql/src/TBufferSQL2.cxx:181-194 | Clears the error flag and the root, and starts the counter and the first id at the given id. A new object gets that id, moves the counter on by one and is recorded with value 1. A null object, no class or a recorded object leaves the counter at the given id and the map unchanged. On an empty stack the root built records the object's id as SqlWriteObject decides it. A non-empty stack's top keeps its kind and items. |
| SqlBuffer.BufferSql2.ReadVersion | io/sql/src/TBufferSQL2.cxx:939-965 | A buffered version ≥ 0 is returned once and the buffer reset to -1. Otherwise a blob version value is consumed, as a 16-bit number. Failing both, the error flag is set to 1 and 0 returned. |
| SqlBuffer.BufferSql2.SqlReadValue | io/sql/src/TBufferSQL2.cxx:2675-2699 | With the flag raised it returns nothing and changes nothing. Missing data, or a type mismatch unless verification is ignored, raises the flag. It returns a value exactly when the read succeeds, and a success moves the cursor by exactly one. |
| SqlBuffer.BufferSql2.SqlReadBasicInt | io/sql/src/TBufferSQL2.cxx:2541-2548 | Reads one int value; a failed read gives 0. |
| SqlBuffer.BufferSql2.WriteArrayCompress | io/sql/src/TBufferSQL2.cxx:1669-1678 | The loop appends exactly the run list of the array to the top node. |
| SqlBuffer.BufferSql2.WriteArrayNoncompress | io/sql/src/TBufferSQL2.cxx:1660-1666 | The loop appends one item per element, with index and count 1. |
| SqlBuffer.BufferSql2.WriteArrayContent | io/sql/src/TBufferSQL2.cxx:1680-1689 | Writes under a new array node marked with the size (or -1), compressed exactly when the compression level is positive. The stack is restored and its top keeps its kind and items. |
| SqlBuffer.BufferSql2.ReadArrayCompress | io/sql/src/TBufferSQL2.cxx:1017-1035 | The in-place loop leaves in the array what the compressed reader specification fills, and the rest of the array untouched. The cursor and flag end as the specification says. |
| SqlBuffer.BufferSql2.ReadRun | io/sql/src/TBufferSQL2.cxx:1020-1033 | One pass of the compressed reader's loop: a missing or rejected prefix raises the flag and stops with the array untouched; otherwise the run is read and copied, the next index is past it, later elements are untouched, and the reader specification goes on from the new state. |
| SqlBuffer.BufferSql2.CopyRun | io/sql/src/TBufferSQL2.cxx:1032-1033 | Copies the run's first element through its last index and changes nothing else. |
| SqlBuffer.BufferSql2.ReadArrayUncompress | io/sql/src/TBufferSQL2.cxx:1010-1014 | The in-place loop fills the array as the uncompressed reader specification says. |
| SqlBuffer.BufferSql2.ReadArrayContent | io/sql/src/TBufferSQL2.cxx:1039-1050 | Reads under a new array node, compressed for blob data and uncompressed otherwise. It matches the reader specification and restores the stack, whose top keeps its kind and items. |
| SqlBuffer.BufferSql2.SqlObjectInfo | io/sql/src/TBufferSQL2.cxx:233-261 | Finds an entry exactly when the id is not negative, descriptions are loaded and some entry carries the id. The entry found carries the id. When the entry at the id's offset from the first id carries it, that entry is returned; otherwise the first entry with the id is. |
| PoolRanges.ToU32 | core/multiproc/inc/TPoolProcessor.h:193 | An entry count stored as unsigned is below 2^32 and unchanged when it fits. |
| PoolRanges.FileIndex | core/multiproc/inc/TPoolProcessor.h:151 | The file to read is the one whose block of nWorkers counts holds the count of ranges processed: fileN * nWorkers <= count < (fileN + 1) * nWorkers. |
| PoolRanges.RangeIndex | core/multiproc/inc/TPoolProcessor.h:196 | The range within the file is below the worker count; FileRangeCycle ties it to the file index. |
| PoolRanges.RangeStart | core/multiproc/inc/TPoolProcessor.h:195-197 | The start of any of the nWorkers ranges lies within the tree. |
| PoolRanges.RangeFinish | core/multiproc/inc/TPoolProcessor.h:198-201 | A range ends no earlier than it starts and within the tree, and the last range ends at nEntries. |
| PoolRanges.FileRangeCycle | core/multiproc/inc/TPoolProcessor.h:149-151 | The count splits into a file index and a range index below the worker count. The next count moves to the next range of the same file, or from the last range to the first range of the next file. |
| PoolRanges.FileRangeInjective | core/multiproc/inc/TPoolProcessor.h:149-151 | Two counts that name the same file and the same range are equal. |
| PoolRanges.RangesContiguous | core/multiproc/inc/TPoolProcessor.h:191-201 | The first range starts at 0, each range ends where the next starts, the last ends at nEntries, and no range ends before it starts or past nEntries. |
| PoolRanges.RangesPartition | core/multiproc/inc/TPoolProcessor.h:191-201 | Every entry below nEntries lies in exactly one range. |
| PoolRanges.RangesOrdered | core/multiproc/inc/TPoolProcessor.h:197-201 | An earlier range ends no later than a later one starts. |
| PoolRanges.RangesCoverAll | core/multiproc/inc/TPoolProcessor.h:191-201 | The lengths of all the ranges add up to nEntries. |
| PoolRanges.EntryRange | core/multiproc/inc/TPoolProcessor.h:191-205 | For a file the range is the whole tree. For a range message it lies within the tree's entry count taken as a 32-bit unsigned value, and its start is never past its end. |
| PoolRanges.ClampFinish | core/multiproc/inc/TPoolProcessor.h:209-211 | With no limit, or when the range fits, the range is kept whole. Under a limit not yet passed, the range is only shortened, and the processed count including it stays within the limit, reaching it exactly when the range was too long. |
| PoolRanges.EvalMaxEntries | core/multiproc/inc/TPoolProcessor.h:249-258 | A share never exceeds the maximum. The last worker gets the quotient plus the remainder. |
| PoolRanges.SharesSumToMax | core/multiproc/inc/TPoolProcessor.h:249-258 | The shares of all the workers add up to the global maximum. |
| PoolRanges.ZeroShareUnlimited | core/multiproc/inc/TPoolProcessor.h:209-211 | With 2 entries allowed among 3 workers, workers 0 and 1 get share 0. A share of 0 leaves worker 0's range of a 30-entry tree whole (10 entries). |
| PoolRanges.AsWrittenTotalUnbounded | core/multiproc/inc/TPoolProcessor.h:249-258 | In that example the three workers process 10, 10 and 2 entries against a maximum of 2. |
| PoolRanges.EvalLimit | core/multiproc/inc/TPoolProcessor.h:131 | A worker has no limit exactly when the global maximum is 0, and otherwise a limit of its share, possibly 0. |
| PoolRanges.ClampToLimit | core/multiproc/inc/TPoolProcessor.h:209-211 | The clamp against such a limit keeps the processed count within it, a limit of 0 included. |
| PoolRanges.LimitedTotalBounded | core/multiproc/inc/TPoolProcessor.h:249-258 | With those limits, the entries all workers process together never exceed the global maximum. |
| PoolProcessor.FileOf | core/multiproc/inc/TPoolProcessor.h:140-155 | The file of a file message is its payload. The file of a range message is the payload divided by the worker count, so it never names ranges beyond the payload. |
| PoolProcessor.ReducedStep | core/multiproc/inc/TPoolProcessor.h:232-238 | The first result is the fold itself. Each later result is reduced with the fold of the earlier ones, the new result first. |
| PoolProcessor.TPoolProcessor.constructor | core/multiproc/inc/TPoolProcessor.h:98-102 | A new worker has nothing processed and no result, and keeps the global maximum. |
| PoolProcessor.TPoolProcessor.Init | core/multiproc/inc/TPoolProcessor.h:128-132 | Records the worker's number and replaces the global maximum by the worker's share of it, which is never larger. |
| PoolProcessor.TPoolProcessor.Process | core/multiproc/inc/TPoolProcessor.h:136-246 | A missing in-memory tree, a file that does not open or a tree not found gives no reply and no change. A rejected range gives an error naming the worker and the clamped range, with no change. Otherwise the clamped range's length is added to the processed count and the result folded in; the reply is the folded result when the count equals the maximum, and idle otherwise. The count stays within a nonzero maximum, and a range that reaches the limit always ends with the result sent. |
| PoolProcessor.TPoolProcessor.HandleInput | core/multiproc/inc/TPoolProcessor.h:106-124 | Process codes go to Process with its effect. A result request answers with the folded result. Any other code answers with an error naming the worker and the code. The last two change nothing. |

## Left out

- The ROOT reflection and streaming machinery is not modelled. This covers `TClass::Streamer`, streamer infos and elements, `ApplySequence`, and the recursive streamer call inside `SqlWriteObject`. These are calls into code outside these files. `SqlWriteObject` is modelled up to the point where the object's node kind is set.
- SQL access is not modelled: queries, `SqlObjectData`, blob statements, class-data tables and long strings. The current object data is an abstract sequence of (type tag, index prefix, integer value) entries.
- Decimal text is not modelled. Values are already-parsed integers, and `sscanf`/`strtol` parsing and `%d` formatting are not part of the model.
- TSQLStructure is not part of this model. A run of count 1 is taken to be stored as prefix `[i` and any other run as `[i..last`; the code that writes these prefixes sits in TSQLStructure.
- An exhausted data cursor is treated like missing data, and a prefix that cannot be read is treated like a rejected one. The source dereferences the current data object there, and that object's behaviour is not shown.
- Float and double formatting and parsing are left out, and only integer arrays are modelled. The other element types go through the same macros.
- The pool worker's fork/pipe IPC is not modelled: `MPSend`, sockets, `OpenFile`, `RetrieveTree`, `SetupTreeCache`, `TTreeReader` and `DetachRes`. Whether the file opens, whether the tree is found, the tree's entry count and whether the reader accepts the range are inputs to `Process`. The replies are values, not socket writes.
- The text of error replies is not modelled. An error reply carries the worker number and the range or code, not the formatted string.
- `procFunc` and `PoolUtils::ReduceObjects` are opaque functions given to the worker.
- `TMPWorker` (the base class holding the worker number, the maximum and the processed count) is not part of this model; its fields are fields of the worker class here.
- The in-memory tree with no file of its own is a case of `Input`. A tree read from a file is reopened by the file's name.
- PoolProcessor.TPoolProcessor.Process: a message for the in-memory tree when there is none returns without a reply. This is modelled as `NoReply`, since the local error log is not a message to the pool.
- PoolProcessor.TPoolProcessor.Init: requires that nothing has been processed yet. The worker initialises once, before its first message.
- PoolProcessor.TPoolProcessor.Process: an index into the file-name list is not checked against the list's length. The list is not modelled.
- PoolProcessor.TPoolProcessor.Process: the 64-bit wrap-around of the unsigned clamp is not modelled. It could only happen with more entries processed than the maximum, which the class invariant excludes.
- SqlBuffer.BufferSql2.SqlWriteObject: 64-bit wrap-around of the id counter is not modelled.
- SqlBuffer.BufferSql2.SqlWriteObject: the returned id is not narrowed to the 32-bit `Int_t` the function returns. The callers ignore the returned value.
- Debug printing (`gDebug`), `Error` logging, destructors and memory management are not modelled.
- graf2d/gpad/inc/TGroupButton.h declares a widget with no logic and is not modelled.

## Findings

| source | as written | input that shows it | evidently intended | confidence | as-written member | corrected member |
|---|---|---|---|---|---|---|
| core/multiproc/inc/TPoolProcessor.h:249-258, 209-211 | When the global maximum is below the number of workers, every worker but the last gets a share of 0. The clamp reads 0 as "no limit", so those workers process their whole ranges. | Maximum 2 entries, 3 workers, a tree of 30 entries: the workers process 10, 10 and 2 entries, 22 in all. | A share of 0 is a limit of 0, kept apart from "no limit", so the workers together process at most the global maximum. | medium, not executed | PoolRanges.AsWrittenTotalUnbounded | PoolRanges.LimitedTotalBounded |

`PoolRanges.EvalLimit` and `PoolRanges.ClampToLimit` are the corrected definitions. `PoolRanges.LimitedTotalBounded` proves the intended bound for them. The worker class keeps the code's own clamp, so that it describes the worker as it behaves.
