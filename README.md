# Storage I/O microbenchmark, modelled in Dafny

The repository is a small storage benchmark in three variants:

- `python/measure.py`: the current Python benchmark, plus a driver that runs one experiment per line of an experiment file;
- `c/main.c`: a C port with its own command line;
- `measure.py`: an older Python variant.

Each variant's `perform_io_test` opens a file or block device. It then issues fixed-size reads or writes at offsets it computes one after another, either sequentially with a stride or at random slots. Writes are synced. At the end it reports throughput and cleans up.

The model keeps the parts of this that are integer arithmetic and ordering:

- the offset each operation is issued at;
- how many operations a run issues;
- when a run fails, and how;
- the order of the calls it makes on its target;
- whether what it acquires is released.

Real I/O is replaced by a trace of events: `Open`, `Alloc`, `Seek(offset)`, `Transfer(dir, size)`, `Flush`, `Fsync`, `Free`, `Close`, `Unlink`. Every issued operation is also summarised as an `Op(offset, dir, synced)`. Random draws and the results of system calls are inputs.

Files:

- `wrappers.dfy`: `Option` and `Result`.
- `arith.dfy`: facts about multiplication, division and remainder.
- `io.dfy` (module `Io`): the shared trace vocabulary, the ceiling division that counts operations, and lemmas about the order and balance of traces.
- `text.dfy` (module `Text`): decimal spelling, Python's `int()` on a token, and Python's `str.split()`.
- `py_measure.dfy` (module `PyMeasure`): `python/measure.py`.
- `c_main.dfy` (module `CMain`): `c/main.c`.
- `legacy_measure.dfy` (module `LegacyMeasure`): `measure.py`.

The loops are methods with loop invariants. Each is proved against specification functions such as `Offsets`, `Events`, `CeilDiv` and `DataLines`, and the properties of those functions are lemmas.

Behaviour worth knowing, all of it proved below:

- **`python/measure.py`:**
  - the cursor starts at `-io_size`;
  - every offset is wrapped below a fixed 512 MiB ceiling and rounded down to 4096 bytes;
  - the wrap only bounds where an operation starts, so an operation can still end past the ceiling;
  - a plain file is deleted but its descriptor is never closed, so a finished run's trace is balanced exactly when the target is a device.
- **`c/main.c`:**
  - the first sequential offset is `io_size + stride`, not 0;
  - `rand() % slots` never picks the top slot;
  - with work to do, zero slots (random mode) or a `total_size` of 0 (sequential mode) divides by zero; in random mode a `total_size` below `io_size` wraps to a huge slot count instead.
- **`measure.py`:** random mode with `total_size >= io_size > 0` never leaves its loop; with `io_size` 0 the `//` raises, and with `total_size < io_size` randint raises, and the handler catches either.

## Model

| member | source | states |
|---|---|---|
| `Io.CeilDivLeast` | python/measure.py:33-65 | CeilDiv(a, b) is the least number of b-byte steps that brings a counter from 0 to a: k steps reach a exactly when k >= CeilDiv(a, b) |
| `Io.CeilDivTotal` | python/measure.py:33-65 | after CeilDiv(a, b) steps of b bytes the counter lies in [a, a + b) |
| `Io.CeilDiv` | python/measure.py:33-65 | the least n >= 0 with n * b >= a: n steps of b bytes reach a, and n - 1 steps do not |
| `Io.IsDevicePath` | python/measure.py:76 | no ensures: whether the path starts with "/dev/"; what follows from it is stated by `PyMeasure.PerformIoTest` and `CMain.PerformIoTest` |
| `Io.Events` | python/measure.py:32-65 | no ensures: the calls of the operations one after the other; its properties are `Io.TransferFollowsSeek`, `Io.BarrierFollowsWritesOnly` and `Io.EventsHoldNoResources` |
| `Io.TransferFollowsSeek` | measure.py:35-41 | every transfer in a trace belongs to one of the operations: it moves exactly io_size bytes in that operation's direction, right after the seek to that operation's offset |
| `Io.BarrierFollowsWritesOnly` | measure.py:38-50 | when exactly the writes are synced, every write transfer is followed at once by the barrier, and every read transfer is followed by the next seek or ends the trace |
| `Io.EventsHoldNoResources` | c/main.c:47-90 | issuing operations never opens, allocates, frees or closes anything |
| `Io.CountAppend` | c/main.c:21-107 | the occurrences of a call in two traces laid end to end add up |
| `Io.BracketedBalanced` | c/main.c:28-101 | acquiring, issuing operations, making other calls that hold nothing, then releasing gives a trace in which opens match closes and allocations match frees |
| `Io.OpenedThenBalanced` | python/measure.py:28-79 | a trace that opens, issues operations and ends in one more call is balanced exactly when that call is Close |
| `Io.AllocatedRunBalanced` | c/main.c:28-106 | open, allocate, operations, at most one failed step, free, close and an optional unlink is balanced |
| `Text.DecimalValue` | python/measure.py:91-96 | reading back the decimal spelling of a natural number gives the number |
| `Text.ParseInt` | python/measure.py:91-96 | `int(tok)` succeeds exactly on an optional sign followed by one or more digits |
| `Text.ParseIntSigned` | python/measure.py:91-96 | `int()` reads back the spelling of every integer |
| `Text.Split` | python/measure.py:88 | no ensures: Python's `str.split()`; its properties are `Text.SplitGivesWords`, `Text.SplitUnwords` and `Text.SplitThenSpace` |
| `Text.SplitGivesWords` | python/measure.py:88 | every piece `split()` returns is non-empty and holds no whitespace |
| `Text.SplitUnwords` | python/measure.py:88 | `split()` takes words joined by single spaces back apart, word for word |
| `Text.SplitThenSpace` | python/measure.py:85-88 | a trailing newline adds no token |
| `PyMeasure.Wrap` | python/measure.py:40-42 | an offset whose operation would cross 512 MiB becomes a value in [0, 512 MiB) congruent to it, and any other offset is kept |
| `PyMeasure.AlignDown` | python/measure.py:44-45 | rounding gives a multiple of 4096 at most 4095 below the offset, and never below 0 for a non-negative offset |
| `PyMeasure.RandomHigh` | python/measure.py:36 | no ensures: randint's upper bound `(total_size - io_size) // io_size`; `PyMeasure.RandomCandidateInSlot` states what a draw up to it gives |
| `PyMeasure.Candidate` | python/measure.py:34-38 | no ensures: a draw times io_size, or the previous offset plus io_size + stride; `PyMeasure.RandomCandidateInSlot` and `PyMeasure.StepInWindow` state its properties |
| `PyMeasure.NextOffset` | python/measure.py:34-45 | no ensures: the candidate wrapped and rounded; `PyMeasure.StepInWindow`, `PyMeasure.NegativeOnlyBackwards` and `PyMeasure.SequentialStepExact` state its properties |
| `PyMeasure.Offsets` | python/measure.py:32-45 | n offsets, one per operation; `PyMeasure.OffsetsStep`, `PyMeasure.OffsetsAligned`, `PyMeasure.OffsetsBelowCeiling` and `PyMeasure.SequentialClosedForm` state their properties |
| `PyMeasure.OffsetsStep` | python/measure.py:32-45 | the first offset is computed from the cursor -io_size, and each later one from the offset issued before it |
| `PyMeasure.OpsAtStep` | python/measure.py:32-60 | issuing the offset computed from the previous one extends the operations at the first n offsets to those at the first n + 1 |
| `PyMeasure.OffsetsAligned` | python/measure.py:44-45 | every offset the loop computes is a multiple of 4096 |
| `PyMeasure.OffsetsBelowCeiling` | python/measure.py:32-45 | with a non-negative stride, or draws in range, every offset lies in [0, 512 MiB) |
| `PyMeasure.StepInWindow` | python/measure.py:40-45 | a non-negative candidate ends up in [0, 512 MiB) after the wrap and the rounding |
| `PyMeasure.NegativeOnlyBackwards` | python/measure.py:34-45 | only a sequential run with a negative stride can compute a negative offset |
| `PyMeasure.RandomCandidateInSlot` | python/measure.py:36 | a draw in randint's range gives a multiple of io_size in [0, total_size - io_size] |
| `PyMeasure.SequentialOffsets` | python/measure.py:32-45 | the first sequential offset is the stride wrapped and rounded (0 for stride 0), and each later one is align(wrap(prev + io_size + stride)) |
| `PyMeasure.SequentialStepExact` | python/measure.py:37-45 | an aligned advance that stays below the ceiling is neither wrapped nor rounded |
| `PyMeasure.SequentialClosedForm` | python/measure.py:32-45 | with block-multiple sizes and no operation reaching the ceiling, the k-th offset is stride + k * (io_size + stride) |
| `PyMeasure.SequentialMegabyteRun` | python/measure.py:32-65 | a 4 KiB sequential run over 1 MiB issues 256 operations, at 0, 4096, ..., 1044480 |
| `PyMeasure.OperationCanCrossCeiling` | python/measure.py:40-42 | with 12 KiB operations the 43691st starts at 536862720 and ends past the 512 MiB ceiling |
| `PyMeasure.IssueOps` | python/measure.py:32-65 | the issued operations are exactly those at Offsets, one per io_size counted, all non-negative and 4096-aligned; a finished loop issued CeilDiv(desired, io_size) of them and counted [desired, desired + io_size) bytes; a raise comes before that many; randint raises exactly when random mode has work and total_size < io_size, and then before any operation; a negative seek needs a negative stride |
| `PyMeasure.PerformIoTest` | python/measure.py:9-80 | the operations are those at Offsets, CeilDiv(desired, io_size) of them when the loop finishes and fewer after a raise; randint's raise comes exactly when random mode has work and an empty range, and leaves no operation; a negative-seek raise needs sequential mode, a negative stride and a negative next offset, so a sequential run with stride >= 0 finishes; the trace is Open, the operations' seeks, transfers and fsyncs, then Close for a device or Unlink for a plain file (nothing after a raise); a finished run is balanced exactly when the target is a device |
| `PyMeasure.OffsetsPrefix` | python/measure.py:32-45 | earlier offsets do not depend on how many are computed |
| `PyMeasure.IsComment` | python/measure.py:86 | no ensures: a line starting with `#`; `PyMeasure.DataLines` and `PyMeasure.DecodeEncode` use it |
| `PyMeasure.KiBField` | python/measure.py:91-96 | no ensures: token i read by `int()` and times 1024, or the missing or non-integer token; `PyMeasure.DecodeLine` and `PyMeasure.EncodedTokens` state its properties |
| `PyMeasure.DecodeLine` | python/measure.py:88-96 | a line decodes exactly when its first six tokens are present and tokens 0, 1, 4 and 5 are integers; fields 0, 1, 4, 5 are then those integers times 1024, random iff token 2 is "random", write iff token 3 is "write"; a failure names the first field that fails, in the call's evaluation order |
| `PyMeasure.DecodeEncode` | python/measure.py:86-96 | a line spelling a whole-KiB experiment, with or without its newline, is not a comment and decodes to that experiment |
| `PyMeasure.EncodedTokens` | python/measure.py:88-96 | the tokens of an encoded line read back as the experiment's six fields, and the line does not start with `#` |
| `PyMeasure.DataLines` | python/measure.py:85-87 | the indices picked are of non-comment lines, in increasing order |
| `PyMeasure.DataLinesComplete` | python/measure.py:85-87 | every non-comment line is picked |
| `PyMeasure.DataLinesPrefix` | python/measure.py:85-87 | the lines picked from a prefix of the file are a prefix of those picked from the file |
| `PyMeasure.ScanLines` | python/measure.py:82-99 | over the lines scanned, the results written are for exactly the data lines, each run decoded from its line and none raised; a stop is at a data line that failed to decode or whose run raised |
| `PyMeasure.RunExperiments` | python/measure.py:82-99 | comment lines start no run; the k-th run is the decoding of the k-th data line; a results line is written per finished run, in input order; all data lines are written exactly when the driver runs to the end; a bad line or a raising run stops it there |
| `PyMeasure.OneDataLineAmongComments` | python/measure.py:85-96 | a file of two comments and `4 0 random read 1024 1024` runs one experiment: 4 KiB random reads over 1 MiB |
| `CMain.SizeSub` | c/main.c:50 | `total_size - io_size` on size_t is the difference, plus 2^64 when it is negative |
| `CMain.Slots` | c/main.c:50 | no ensures: `(total_size - io_size) / io_size` on size_t; `CMain.RandomOffsetInSlot` states what a slot below it gives |
| `CMain.StepDefined` | c/main.c:50-56 | no ensures: zero slots (random) or a total_size of 0 (sequential) make the step divide by zero; `CMain.IssueOps` ends in DivideByZero exactly when it fails with work to do |
| `CMain.NextOffset` | c/main.c:48-58 | every offset fits a size_t, and a sequential offset is below total_size |
| `CMain.OffsetsStep` | c/main.c:42-58 | the first offset is computed from the cursor 0, and each later one from the offset before it |
| `CMain.Offsets` | c/main.c:42-58 | n offsets, each below 2^64, and each sequential one below total_size |
| `CMain.OpsAtStep` | c/main.c:42-90 | issuing the offset computed from the previous one extends the operations at the first n offsets to those at the first n + 1 |
| `CMain.RandomOffsetInSlot` | c/main.c:50 | a random offset is a multiple of io_size and its operation ends by slots * io_size, so the top slot is never picked |
| `CMain.SequentialFirstOffset` | c/main.c:43-57 | the first sequential offset is io_size + stride (modulo total_size when that operation does not fit), not 0 |
| `CMain.SequentialStep` | c/main.c:52-57 | a sequential offset lets its operation end by total_size, or else is the advance taken modulo total_size; either way it is below total_size |
| `CMain.SequentialClosedForm` | c/main.c:43-57 | until the first wrap, the k-th sequential offset is (k + 1) * (io_size + stride) |
| `CMain.IssueOps` | c/main.c:42-90 | the operations completed are those at Offsets, each with an accepted seek and a full io_size transfer; a loop that runs out issued CeilDiv(desired, io_size) operations and counted [desired, desired + io_size) bytes; it divides by zero exactly when there is work and no slot (random) or total_size 0 (sequential); a short transfer or a failed seek stops it at that operation |
| `CMain.PerformIoTest` | c/main.c:21-107 | a failed open exits with an empty trace and a failed allocation closes the descriptor, each with no operation; the operations are those at Offsets, each with an accepted seek and a full transfer, at most CeilDiv(desired, io_size) of them, exactly that many on return and fewer on any other way out of the loop; the run divides by zero exactly when open and allocation succeed with work and no defined step; it stops at a failed seek exactly at the reply that refuses it, and at a short transfer at the reply whose seek succeeds and whose count is not io_size; it overruns the buffer exactly when io_size exceeds 1 MiB and the first seek succeeds; a run whose open, allocation and every seek and transfer succeed, with a defined step and io_size within the buffer, returns; a failed seek, read or write frees the buffer and closes the descriptor, a failed transfer after the seek to the next offset; a completed run frees, closes and unlinks only a path outside "/dev/"; every run without undefined behaviour is balanced |
| `CMain.AtoiSigned` | c/main.c:117-122 | `atoi` reads back the spelling of every integer, whatever non-digit text follows |
| `CMain.Atoi` | c/main.c:117-122 | no ensures: white space, an optional sign, then the longest run of digits; `CMain.AtoiSigned`, `CMain.AtoiNatural` and `CMain.AtoiNegative` state what it reads back |
| `CMain.AtoiNatural` | c/main.c:117-122 | `atoi` reads back the digits of a natural number followed by a non-digit |
| `CMain.AtoiNegative` | c/main.c:117-122 | `atoi` reads back a minus sign and the digits of a natural number as the negated number |
| `CMain.ToSize` | c/main.c:117-122 | converting an int to size_t keeps a non-negative value and adds 2^64 to a negative one |
| `CMain.ParseArgs` | c/main.c:110-124 | fewer than 7 strings give the usage error; exactly 7 reach undefined behaviour; a start carries the path, io_size and stride times 1024, random and write as nonzero tests, and total and desired times 1048576 |
| `CMain.ParseArgsChecked` | c/main.c:110-124 | the usage error exactly when fewer than 8 strings are given, and otherwise what `main` does |
| `CMain.SixArgumentsReadPastArgv` | c/main.c:111-122 | a command line with six arguments passes the check as written and reads past argv; the corrected check rejects it |
| `CMain.ArgvRoundTrip` | c/main.c:110-124 | eight strings whose arguments 2 to 7 spell a run's io_size and stride in KiB, random and write as 1 or 0, and total and desired sizes in MiB, all fitting an int, start that run with its sizes in bytes |
| `LegacyMeasure.RandomOffsetInRange` | measure.py:32 | a random offset is a multiple of io_size in [0, total_size - io_size], so it is below total_size |
| `LegacyMeasure.IssuedOffset` | measure.py:28-45 | no ensures: draw k times io_size, or k steps of io_size + stride; `LegacyMeasure.RandomOffsetInRange` and `LegacyMeasure.IssueOps` state its properties |
| `LegacyMeasure.IssueOps` | measure.py:28-50 | the k-th operation is at k * (io_size + stride) (sequential) or at draw k times io_size (random), and every one is in [0, total_size); the loop ends exactly when total_size <= 0 or, sequentially with a positive step, the fuel covers CeilDiv(total_size, io_size + stride) operations, which is then the count; random mode with a valid range never ends; the three caught errors happen exactly when stated |
| `LegacyMeasure.PerformIoTest` | measure.py:7-64 | a negative io_size raises before anything is opened; a failed open is caught, as a permission error or another OSError, exactly when the open fails, with an empty trace; after a successful open the division by zero is caught exactly when random mode has io_size 0 and work, the empty randint range exactly when random mode has io_size > 0, a negative bound and work, and the negative seek exactly when a sequential step is negative, there is work and the fuel reaches the second operation; otherwise the k-th operation is at k * (io_size + stride) or draw k times io_size, the run completes exactly when total_size <= 0 or a sequential step is positive and the fuel covers CeilDiv(total_size, step) operations, which is then the count, and random mode never ends; the trace is Open, the operations with flush and fsync after each write, and Close on every way out of the loop; every run that ends is balanced |
| `LegacyMeasure.ClosedRunBalanced` | measure.py:25-50 | opening, issuing operations and closing gives a balanced trace |
| `LegacyMeasure.WritesThenFlushAndSync` | measure.py:38-50 | in a run's trace, every write is followed at once by a flush and an fsync, and a read never is |

## Left out

- Real I/O is not modelled: `open` with `O_DIRECT`, `lseek`, `read`/`write`, `mmap` buffers, `fsync`, `unlink`/`os.remove`. Their effects are trace events. Their results are inputs: `Env` in C, `OpenResult` in the older Python variant.
- Timing and throughput are not modelled, including the value `perform_io_test` returns in `python/measure.py`. They are floating point and read the clock.
- Printing is not modelled: the usage line, `perror`, the offset printed on every iteration and the result lines. `RunExperiments` returns the indices of the lines whose results line it writes.
- `random.randint` and `rand()` are inputs. In Python a draw is randint's result, in [0, hi]. In C it is the raw `rand()` value, and the model applies `% slots` itself.
- `argparse` in both Python variants is not modelled. The older variant never passes `total_size`, so its command line always runs over the 1 GiB default.
- The root `main.c` is not part of this model. It is an unrelated command-line stub for a multi-threaded cache simulator that does not compile.
- PyMeasure.PerformIoTest: a failed `os.open` (python/measure.py:28) is not modelled; the trace always starts with `Open`. An OSError from `lseek`, `write`, `readinto` or `fsync` is not modelled either; it would leave the descriptor open and a plain file undeleted. Only randint's empty range and a negative seek are modelled as raises.
- LegacyMeasure.PerformIoTest: of the I/O errors, only a failed open (a permission error or another OSError) is modelled. A failed `seek`, `read`, `write`, `flush` or `fsync` is not; the handler at measure.py:63-64 would catch it after the `with` block had closed the file.
- PyMeasure.IssueOps: requires io_size > 0 and a draw for every operation. An io_size of 0 divides by zero in random mode and never advances `total_iops` in sequential mode; both are left out.
- PyMeasure.PerformIoTest: requires io_size > 0, as `PyMeasure.IssueOps` does.
- PyMeasure.RunExperiments: whether each run raises is an input (`raised`). A raising run stops the driver, as the uncaught exception would.
- Text.ParseInt: does not accept the underscores, surrounding whitespace or non-ASCII digits that Python's `int()` also accepts.
- CMain.IssueOps: requires io_size > 0 and that no sum of sizes wraps past 2^64 (`NoWrap`). Only the subtraction `total_size - io_size` wraps, as size_t does. This excludes every negative `stride_kb`: c/main.c:118 stores `atoi(argv[3]) * 1024` in a size_t, so a negative stride becomes a value close to 2^64, and c/main.c:52 then moves the cursor backwards by wrapping around. The model does not cover that backward sequential run.
- CMain.PerformIoTest: has the same requirements as `CMain.IssueOps`. A run that reaches undefined behaviour has no promised trace. That covers a division by zero and a transfer longer than the 1 MiB buffer.
- CMain.ParseArgs: `atoi` outside the int range, and the int products `* 1024` and `* 1024 * 1024` overflowing, are reported as undefined behaviour rather than modelled further.
- CMain.PerformIoTest: a failed `read` or `write` leaves no transfer event in the trace, only the seek before it.
- LegacyMeasure.IssueOps: a fuel bound counts the iterations observed. A run that would go on, such as random mode or a sequential step of 0, ends as `OutOfFuel`. Its trace then has no `Close`, because the `with` block has not been left.
- LegacyMeasure.IssueOps: requires io_size >= 0; `LegacyMeasure.PerformIoTest` handles a negative io_size before calling it.

## Findings

| source | as written | input that shows it | evidently intended | confidence | as-written member | corrected member |
|---|---|---|---|---|---|---|
| c/main.c:111 | `argc < 7` lets argc == 7 through, and line 122 then passes `argv[7]`, the null pointer ending argv, to `atoi` | `bench /dev/sdb 4 0 1 0 512` (six arguments) | the usage line names seven arguments, so `argc < 8` | not executed | `CMain.SixArgumentsReadPastArgv` | `CMain.ParseArgsChecked` |
