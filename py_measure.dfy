/**
  python/measure.py: the benchmark loop `perform_io_test` and the
  experiment-file driver `run_experiments`.

  The loop starts its cursor one operation before 0 and, until `desired`
  bytes have been transferred, computes the next offset (sequential: advance
  by io_size + stride; random: a draw times io_size), wraps it below a fixed
  512 MiB ceiling when the operation would cross it, rounds it down to a
  4096-byte boundary, seeks there and reads or writes io_size bytes, syncing
  after each write.  Random draws are inputs here.
 */
module PyMeasure {
  import opened Wrappers
  import opened Io
  import opened Text
  import opened Arith

  /** The fixed device size the offsets are kept below (512 MiB). */
  const Ceiling: int := 512 * 1024 * 1024
  /** The boundary every offset is rounded down to. */
  const Block: int := 4096

  datatype Config = Config(
    path: string,
    ioSize: int,
    stride: int,
    isRandom: bool,
    isWrite: bool,
    totalSize: int,
    desired: int)

  /** Why a run raised: `random.randint(0, hi)` with hi < 0 raises ValueError,
      and `os.lseek` to a negative offset raises OSError. */
  datatype Error = EmptyRandomRange | NegativeSeek

  datatype Outcome = Finished | Raised(error: Error)

  /** Lines 41-42: an offset whose operation would cross the ceiling is taken
      modulo the ceiling; any other offset is kept. */
  function Wrap(offset: int, ioSize: int): (r: int)
    ensures offset + ioSize > Ceiling ==> 0 <= r < Ceiling && (offset - r) % Ceiling == 0
    ensures offset + ioSize <= Ceiling ==> r == offset
  {
    if offset + ioSize > Ceiling then offset % Ceiling else offset
  }

  /** Line 45: the offset rounded down to the block boundary. */
  function AlignDown(offset: int): (r: int)
    ensures r % Block == 0
    ensures r <= offset < r + Block
    ensures offset >= 0 ==> r >= 0
  {
    offset - offset % Block
  }

  /** The upper bound `(total_size - io_size) // io_size` handed to randint. */
  function RandomHigh(c: Config): int
    requires c.ioSize > 0
  {
    (c.totalSize - c.ioSize) / c.ioSize
  }

  /** Lines 34-38: the offset before wrapping and rounding. */
  function Candidate(c: Config, prev: int, draw: int): int
  {
    if c.isRandom then draw * c.ioSize else prev + c.ioSize + c.stride
  }

  /** Lines 34-45: the offset of the next operation, from the previous one. */
  function NextOffset(c: Config, prev: int, draw: int): int
  {
    AlignDown(Wrap(Candidate(c, prev, draw), c.ioSize))
  }

  /** The offsets of the first n operations; the cursor starts at -io_size. */
  function Offsets(c: Config, draws: seq<int>, n: nat): (r: seq<int>)
    ensures |r| == n
  {
    if n == 0 then []
    else
      var before := Offsets(c, draws, n - 1);
      before + [NextOffset(c, if n == 1 then -c.ioSize else before[n - 2], Draw(draws, n - 1))]
  }

  /** Each offset is computed from the one before it (the first from -io_size). */
  lemma {:induction false} OffsetsStep(c: Config, draws: seq<int>, n: nat)
    ensures n > 0 ==> Offsets(c, draws, n)[0] == NextOffset(c, -c.ioSize, Draw(draws, 0))
    ensures forall k :: 0 < k < n ==>
              Offsets(c, draws, n)[k] == NextOffset(c, Offsets(c, draws, n)[k - 1], Draw(draws, k))
  {
    if n > 0 {
      OffsetsStep(c, draws, n - 1);
    }
  }

  /** Issuing the next offset extends the operations at the first n
      offsets to the operations at the first n + 1. */
  lemma OpsAtStep(c: Config, draws: seq<int>, ops: seq<Op>, prev: int, dir: Direction, synced: bool)
    requires ops == OpsAt(Offsets(c, draws, |ops|), dir, synced)
    requires prev == if |ops| == 0 then -c.ioSize else ops[|ops| - 1].offset
    ensures ops + [Op(NextOffset(c, prev, Draw(draws, |ops|)), dir, synced)] ==
            OpsAt(Offsets(c, draws, |ops| + 1), dir, synced)
  {
    var n := |ops|;
    var before := Offsets(c, draws, n);
    var next := NextOffset(c, prev, Draw(draws, n));
    assert n > 0 ==> prev == before[n - 1];
    assert Offsets(c, draws, n + 1) == before + [next];
    var extended := ops + [Op(next, dir, synced)];
    var issued := OpsAt(before + [next], dir, synced);
    forall k | 0 <= k < n + 1
      ensures extended[k] == issued[k]
    {
      if k < n {
        assert extended[k] == ops[k];
      }
    }
  }

  /** Every offset the loop computes lies on a 4096-byte boundary. */
  lemma OffsetsAligned(c: Config, draws: seq<int>, n: nat)
    ensures forall k :: 0 <= k < n ==> Offsets(c, draws, n)[k] % Block == 0
  {
    OffsetsStep(c, draws, n);
  }

  /** With a non-negative stride (sequential) or non-negative draws (random),
      every offset lies in [0, 512 MiB). */
  lemma {:induction false} OffsetsBelowCeiling(c: Config, draws: seq<int>, n: nat)
    requires c.ioSize > 0
    requires c.isRandom ==> forall k :: 0 <= k < |draws| ==> draws[k] >= 0
    requires !c.isRandom ==> c.stride >= 0
    ensures forall k :: 0 <= k < n ==> 0 <= Offsets(c, draws, n)[k] < Ceiling
  {
    if n > 0 {
      OffsetsBelowCeiling(c, draws, n - 1);
      var before := Offsets(c, draws, n - 1);
      var prev := if n == 1 then -c.ioSize else before[n - 2];
      var d := Draw(draws, n - 1);
      if c.isRandom {
        ProductNonNegative(d, c.ioSize);
      }
      StepInWindow(c, prev, d);
    }
  }

  /** A non-negative candidate ends up in [0, 512 MiB) after wrapping and rounding. */
  lemma StepInWindow(c: Config, prev: int, draw: int)
    requires c.ioSize > 0
    requires Candidate(c, prev, draw) >= 0
    ensures 0 <= NextOffset(c, prev, draw) < Ceiling
  {
  }

  /** Only a sequential run with a negative stride can reach a negative offset:
      from a cursor at -io_size or beyond, a forward step or a non-negative
      draw lands in [0, 512 MiB). */
  lemma NegativeOnlyBackwards(c: Config, prev: int, draw: int)
    requires c.ioSize > 0 && prev >= -c.ioSize
    requires c.isRandom ==> draw >= 0
    ensures NextOffset(c, prev, draw) < 0 ==> !c.isRandom && c.stride < 0
  {
    if c.isRandom {
      ProductNonNegative(draw, c.ioSize);
      StepInWindow(c, prev, draw);
    } else if c.stride >= 0 {
      StepInWindow(c, prev, draw);
    }
  }

  /** Line 36: a draw in randint's range picks the start of an io_size slot that
      fits wholly inside total_size. */
  lemma RandomCandidateInSlot(c: Config, prev: int, draw: int)
    requires c.isRandom && c.ioSize > 0
    requires 0 <= draw <= RandomHigh(c)
    ensures Candidate(c, prev, draw) % c.ioSize == 0
    ensures 0 <= Candidate(c, prev, draw) <= c.totalSize - c.ioSize
  {
    DivMulBound(c.totalSize - c.ioSize, c.ioSize);
    MulMono(draw, RandomHigh(c), c.ioSize);
    MulMod(draw, c.ioSize);
    ProductNonNegative(draw, c.ioSize);
  }

  /** Sequential mode: the first offset is the stride, wrapped and rounded
      (0 for stride 0), and every later offset is the previous one advanced
      by io_size + stride, wrapped and rounded. */
  lemma SequentialOffsets(c: Config, draws: seq<int>, n: nat)
    requires !c.isRandom && n > 0
    ensures Offsets(c, draws, n)[0] == AlignDown(Wrap(c.stride, c.ioSize))
    ensures c.stride == 0 ==> Offsets(c, draws, n)[0] == 0
    ensures forall k :: 0 < k < n ==>
              Offsets(c, draws, n)[k] == AlignDown(Wrap(Offsets(c, draws, n)[k - 1] + c.ioSize + c.stride, c.ioSize))
  {
    OffsetsStep(c, draws, n);
  }

  /** Sequential mode: a block-aligned advance that stays below the ceiling is
      neither wrapped nor rounded. */
  lemma SequentialStepExact(c: Config, prev: int, draw: int)
    requires !c.isRandom && c.ioSize > 0
    requires prev + c.ioSize + c.stride + c.ioSize <= Ceiling
    requires (prev + c.ioSize + c.stride) % Block == 0
    ensures NextOffset(c, prev, draw) == prev + c.ioSize + c.stride
  {
  }

  /** Sequential mode: when the advance from the last offset lands on a block
      boundary and its operation stays below the ceiling, the next offset is
      that advance. */
  lemma SequentialAppend(c: Config, draws: seq<int>, m: nat, y: int)
    requires !c.isRandom && c.ioSize > 0
    requires (if m == 0 then -c.ioSize else Offsets(c, draws, m)[m - 1]) + c.ioSize + c.stride == y
    requires y + c.ioSize <= Ceiling && y % Block == 0
    ensures Offsets(c, draws, m + 1) == Offsets(c, draws, m) + [y]
  {
    var prev := if m == 0 then -c.ioSize else Offsets(c, draws, m)[m - 1];
    SequentialStepExact(c, prev, Draw(draws, m));
  }

  /** Sequential mode with block-multiple sizes: as long as no operation
      reaches the ceiling, the k-th offset is stride + k * (io_size + stride). */
  lemma {:induction false} SequentialClosedForm(c: Config, draws: seq<int>, n: nat)
    requires !c.isRandom && c.ioSize > 0 && c.stride >= 0
    requires c.ioSize % Block == 0 && c.stride % Block == 0
    requires n > 0 ==> c.stride + (n - 1) * (c.ioSize + c.stride) + c.ioSize <= Ceiling
    ensures forall k :: 0 <= k < n ==> Offsets(c, draws, n)[k] == c.stride + k * (c.ioSize + c.stride)
  {
    if n > 0 {
      var s := c.ioSize + c.stride;
      var m := n - 1;
      if m > 0 {
        MulMono(m - 1, m, s);
        SequentialClosedForm(c, draws, m);
        MulSucc(m - 1, s);
      }
      var before := Offsets(c, draws, m);
      var y := c.stride + m * s;
      MultipleOfMultiple(m, s, Block);
      SumOfMultiples(c.stride, m * s, Block);
      SequentialAppend(c, draws, m, y);
      var r := Offsets(c, draws, n);
      forall k | 0 <= k < n ensures r[k] == c.stride + k * s {
        if k < m {
          assert r[k] == before[k];
        }
      }
    }
  }

  /** A 4 KiB sequential run over 1 MiB issues 256 operations at 0, 4096, ...,
      1044480. */
  lemma SequentialMegabyteRun(c: Config, draws: seq<int>)
    requires c.ioSize == 4096 && c.stride == 0 && !c.isRandom && c.desired == 1024 * 1024
    ensures CeilDiv(c.desired, c.ioSize) == 256
    ensures forall k :: 0 <= k < 256 ==> Offsets(c, draws, 256)[k] == 4096 * k
    ensures Offsets(c, draws, 256)[255] == 1044480
  {
    SequentialClosedForm(c, draws, 256);
  }

  /** The wrap bounds where an operation starts, not where it ends: with 12 KiB
      sequential operations the 43691st starts at 536862720 and ends past the
      512 MiB ceiling. */
  lemma OperationCanCrossCeiling(c: Config, draws: seq<int>, n: nat)
    requires c.ioSize == 12288 && c.stride == 0 && !c.isRandom
    requires n == 43691
    ensures Offsets(c, draws, n)[n - 1] == 536862720
    ensures Offsets(c, draws, n)[n - 1] + c.ioSize > Ceiling
  {
    SequentialClosedForm(c, draws, n - 1);
    var before := Offsets(c, draws, n - 1);
    assert before[n - 2] == 536850432;
    assert Offsets(c, draws, n) == before + [NextOffset(c, before[n - 2], Draw(draws, n - 1))];
  }

  /** Lines 32-65: the loop of one run.  Returns how the loop ended, the
      operations it issued and the byte counter `total_iops`. */
  method IssueOps(c: Config, draws: seq<int>) returns (outcome: Outcome, ops: seq<Op>, total: int)
    requires c.ioSize > 0
    requires c.isRandom && RandomHigh(c) >= 0 ==>
               |draws| >= CeilDiv(c.desired, c.ioSize) && forall k :: 0 <= k < |draws| ==> 0 <= draws[k] <= RandomHigh(c)
    ensures total == |ops| * c.ioSize
    ensures |ops| <= CeilDiv(c.desired, c.ioSize)
    ensures ops == OpsAt(Offsets(c, draws, |ops|), DirectionOf(c.isWrite), c.isWrite)
    ensures forall k :: 0 <= k < |ops| ==> 0 <= ops[k].offset && ops[k].offset % Block == 0
    ensures outcome == Finished ==> |ops| == CeilDiv(c.desired, c.ioSize)
    ensures outcome == Finished && c.desired > 0 ==> c.desired <= total < c.desired + c.ioSize
    ensures outcome == Raised(EmptyRandomRange) <==> c.isRandom && c.desired > 0 && RandomHigh(c) < 0
    ensures outcome == Raised(EmptyRandomRange) ==> ops == []
    ensures outcome.Raised? ==> |ops| < CeilDiv(c.desired, c.ioSize)
    ensures outcome == Raised(NegativeSeek) ==>
              !c.isRandom && c.stride < 0 && Offsets(c, draws, |ops| + 1)[|ops|] < 0
  {
    var dir := DirectionOf(c.isWrite);
    ops, total := [], 0;
    var offset := -c.ioSize;
    ghost var n := CeilDiv(c.desired, c.ioSize);
    while total < c.desired
      invariant total == |ops| * c.ioSize
      invariant |ops| <= n
      invariant ops == OpsAt(Offsets(c, draws, |ops|), dir, c.isWrite)
      invariant offset == if |ops| == 0 then -c.ioSize else ops[|ops| - 1].offset
      invariant forall k :: 0 <= k < |ops| ==> 0 <= ops[k].offset && ops[k].offset % Block == 0
      invariant c.isRandom && RandomHigh(c) < 0 ==> ops == []
      decreases c.desired - total
    {
      CeilDivLeast(c.desired, c.ioSize, |ops|);
      if c.isRandom && RandomHigh(c) < 0 {
        outcome := Raised(EmptyRandomRange);
        return;
      }
      var draw := Draw(draws, |ops|);
      var prev := offset;
      NegativeOnlyBackwards(c, offset, draw);
      offset := NextOffset(c, offset, draw);
      if offset < 0 {
        outcome := Raised(NegativeSeek);
        return;
      }
      // seek to `offset`, read or write io_size bytes, fsync after a write
      var op := Op(offset, dir, c.isWrite);
      assert 0 <= op.offset && op.offset % Block == 0;
      OpsAtStep(c, draws, ops, prev, dir, c.isWrite);
      MulSucc(|ops|, c.ioSize);
      ops := ops + [op];
      total := total + c.ioSize;
    }
    CeilDivLeast(c.desired, c.ioSize, |ops|);
    if c.desired > 0 {
      CeilDivTotal(c.desired, c.ioSize);
    }
    outcome := Finished;
  }

  /** Lines 9-80: one run.  Opens the target, runs the loop, then closes a
      device or deletes a plain file (without closing it); a raised error
      skips that last step.  `events` are the calls made on the target, in
      order.  Timing and the returned throughput are not modelled. */
  method PerformIoTest(c: Config, draws: seq<int>) returns (outcome: Outcome, ops: seq<Op>, events: seq<Event>)
    requires c.ioSize > 0
    requires c.isRandom && RandomHigh(c) >= 0 ==>
               |draws| >= CeilDiv(c.desired, c.ioSize) && forall k :: 0 <= k < |draws| ==> 0 <= draws[k] <= RandomHigh(c)
    ensures ops == OpsAt(Offsets(c, draws, |ops|), DirectionOf(c.isWrite), c.isWrite)
    ensures outcome == Finished ==> |ops| == CeilDiv(c.desired, c.ioSize)
    ensures outcome.Raised? ==> |ops| < CeilDiv(c.desired, c.ioSize)
    ensures outcome == Raised(EmptyRandomRange) <==> c.isRandom && c.desired > 0 && RandomHigh(c) < 0
    ensures outcome == Raised(EmptyRandomRange) ==> ops == []
    ensures outcome == Raised(NegativeSeek) ==>
              !c.isRandom && c.stride < 0 && Offsets(c, draws, |ops| + 1)[|ops|] < 0
    ensures events == [Open] + Events(ops, c.ioSize, false) +
                      (if outcome.Raised? then [] else if IsDevicePath(c.path) then [Close] else [Unlink])
    ensures outcome == Finished ==> (Balanced(events) <==> IsDevicePath(c.path))
  {
    var total;
    outcome, ops, total := IssueOps(c, draws);
    var issued := Events(ops, c.ioSize, false);
    if outcome.Raised? {
      events := [Open] + issued;
    } else if IsDevicePath(c.path) {
      events := [Open] + issued + [Close];
      OpenedThenBalanced(ops, c.ioSize, false, Close);
    } else {
      events := [Open] + issued + [Unlink];
      OpenedThenBalanced(ops, c.ioSize, false, Unlink);
    }
  }

  /** Earlier offsets do not depend on how many are computed. */
  lemma {:induction false} OffsetsPrefix(c: Config, draws: seq<int>, m: nat, n: nat)
    requires m <= n
    ensures Offsets(c, draws, n)[..m] == Offsets(c, draws, m)
    decreases n
  {
    if m < n {
      OffsetsPrefix(c, draws, m, n - 1);
      assert Offsets(c, draws, n)[..n - 1] == Offsets(c, draws, n - 1);
    }
  }

  // ---------------------------------------------------------------------
  // The experiment file (lines 82-99)
  // ---------------------------------------------------------------------

  /** One decoded experiment line, sizes in bytes. */
  datatype Experiment = Experiment(
    ioSize: int,
    stride: int,
    isRandom: bool,
    isWrite: bool,
    totalSize: int,
    desired: int)

  /** `args[i]` past the end raises IndexError; `int(args[i])` on a token that
      is not an integer raises ValueError. */
  datatype LineError = MissingToken(index: nat) | NotAnInteger(index: nat)

  /** Line 86: lines starting with '#' are skipped. */
  predicate IsComment(line: string)
  {
    |line| > 0 && line[0] == '#'
  }

  /** Token i is present and, for the four numeric fields, an integer. */
  predicate FieldOk(tokens: seq<string>, i: nat)
  {
    i < |tokens| && (i == 2 || i == 3 || ParseInt(tokens[i]).Some?)
  }

  /** Lines 91-96: `int(args[i]) * 1024`. */
  function KiBField(tokens: seq<string>, i: nat): Result<int, LineError>
  {
    if i >= |tokens| then Failure(MissingToken(i))
    else match ParseInt(tokens[i])
      case None => Failure(NotAnInteger(i))
      case Some(v) => Success(v * 1024)
  }

  /** Lines 88-96: split the line on whitespace and decode its six fields in the
      order the call evaluates them; tokens past the sixth are ignored. */
  function DecodeLine(line: string): (r: Result<Experiment, LineError>)
    ensures var t := Split(line);
            r.Success? <==> FieldOk(t, 0) && FieldOk(t, 1) && FieldOk(t, 2) && FieldOk(t, 3) && FieldOk(t, 4) && FieldOk(t, 5)
    ensures var t := Split(line);
            r.Success? ==>
              |t| >= 6 &&
              ParseInt(t[0]).Some? && r.value.ioSize == ParseInt(t[0]).value * 1024 &&
              ParseInt(t[1]).Some? && r.value.stride == ParseInt(t[1]).value * 1024 &&
              (r.value.isRandom <==> t[2] == "random") &&
              (r.value.isWrite <==> t[3] == "write") &&
              ParseInt(t[4]).Some? && r.value.totalSize == ParseInt(t[4]).value * 1024 &&
              ParseInt(t[5]).Some? && r.value.desired == ParseInt(t[5]).value * 1024
    ensures var t := Split(line);
            r.Failure? ==>
              r.error.index < 6 && !FieldOk(t, r.error.index) &&
              (r.error.MissingToken? <==> r.error.index >= |t|) &&
              forall i :: 0 <= i < r.error.index ==> FieldOk(t, i)
  {
    var t := Split(line);
    match KiBField(t, 0)
    case Failure(e) => Failure(e)
    case Success(ioSize) =>
      match KiBField(t, 1)
      case Failure(e) => Failure(e)
      case Success(stride) =>
        if |t| <= 2 then Failure(MissingToken(2))
        else if |t| <= 3 then Failure(MissingToken(3))
        else
          match KiBField(t, 4)
          case Failure(e) => Failure(e)
          case Success(totalSize) =>
            match KiBField(t, 5)
            case Failure(e) => Failure(e)
            case Success(desired) =>
              Success(Experiment(ioSize, stride, t[2] == "random", t[3] == "write", totalSize, desired))
  }

  /** An experiment written back as a line of the file. */
  function EncodeLine(e: Experiment): string
  {
    Unwords([Signed(e.ioSize / 1024), Signed(e.stride / 1024),
             if e.isRandom then "random" else "sequential",
             if e.isWrite then "write" else "read",
             Signed(e.totalSize / 1024), Signed(e.desired / 1024)])
  }

  lemma SignedIsWord(n: int)
    ensures IsWord(Signed(n))
  {
    var s := Signed(n);
    forall i | 0 <= i < |s| ensures !IsPySpace(s[i]) {
      if n < 0 && i > 0 {
        assert s[i] == Decimal(-n)[i - 1];
      }
    }
  }

  /** Decoding reads back every experiment whose sizes are whole KiB, and the
      line it reads is not a comment. */
  lemma DecodeEncode(e: Experiment)
    requires e.ioSize % 1024 == 0 && e.stride % 1024 == 0
    requires e.totalSize % 1024 == 0 && e.desired % 1024 == 0
    ensures DecodeLine(EncodeLine(e)) == Success(e)
    ensures DecodeLine(EncodeLine(e) + "\n") == Success(e)
    ensures !IsComment(EncodeLine(e)) && !IsComment(EncodeLine(e) + "\n")
  {
    var line := EncodeLine(e);
    EncodedTokens(e);
    DecodeTokens(line, e);
    SplitThenSpace(line, '\n');
    DecodeTokens(line + "\n", e);
    assert (line + "\n")[0] == line[0];
  }

  /** The tokens of an encoded line are the six words it was joined from,
      and the line starts with the first of them. */
  lemma EncodedTokens(e: Experiment)
    requires e.ioSize % 1024 == 0 && e.stride % 1024 == 0
    requires e.totalSize % 1024 == 0 && e.desired % 1024 == 0
    ensures var t := Split(EncodeLine(e));
            |t| == 6 &&
            KiBField(t, 0) == Success(e.ioSize) && KiBField(t, 1) == Success(e.stride) &&
            (t[2] == "random") == e.isRandom && (t[3] == "write") == e.isWrite &&
            KiBField(t, 4) == Success(e.totalSize) && KiBField(t, 5) == Success(e.desired)
    ensures |EncodeLine(e)| > 0 && EncodeLine(e)[0] != '#'
  {
    var words := [Signed(e.ioSize / 1024), Signed(e.stride / 1024),
                  if e.isRandom then "random" else "sequential",
                  if e.isWrite then "write" else "read",
                  Signed(e.totalSize / 1024), Signed(e.desired / 1024)];
    EncodedWords(e, words);
    WordFields(e, words);
  }

  /** An encoded line splits back into the words it was joined from. */
  lemma EncodedWords(e: Experiment, words: seq<string>)
    requires words == [Signed(e.ioSize / 1024), Signed(e.stride / 1024),
                       if e.isRandom then "random" else "sequential",
                       if e.isWrite then "write" else "read",
                       Signed(e.totalSize / 1024), Signed(e.desired / 1024)]
    ensures Split(EncodeLine(e)) == words
    ensures |EncodeLine(e)| > 0 && EncodeLine(e)[0] != '#'
  {
    SignedIsWord(e.ioSize / 1024);
    SignedIsWord(e.stride / 1024);
    SignedIsWord(e.totalSize / 1024);
    SignedIsWord(e.desired / 1024);
    assert IsWord(words[2]) && IsWord(words[3]);
    SplitUnwords(words);
    assert EncodeLine(e)[0] == words[0][0];
  }

  /** The six words spelling an experiment read back as its fields. */
  lemma WordFields(e: Experiment, t: seq<string>)
    requires e.ioSize % 1024 == 0 && e.stride % 1024 == 0
    requires e.totalSize % 1024 == 0 && e.desired % 1024 == 0
    requires t == [Signed(e.ioSize / 1024), Signed(e.stride / 1024),
                   if e.isRandom then "random" else "sequential",
                   if e.isWrite then "write" else "read",
                   Signed(e.totalSize / 1024), Signed(e.desired / 1024)]
    ensures KiBField(t, 0) == Success(e.ioSize) && KiBField(t, 1) == Success(e.stride)
    ensures (t[2] == "random") == e.isRandom && (t[3] == "write") == e.isWrite
    ensures KiBField(t, 4) == Success(e.totalSize) && KiBField(t, 5) == Success(e.desired)
  {
    KiBFieldSigned(t, 0, e.ioSize);
    KiBFieldSigned(t, 1, e.stride);
    KiBFieldSigned(t, 4, e.totalSize);
    KiBFieldSigned(t, 5, e.desired);
  }

  /** A line whose six tokens read as the fields of `e` decodes to `e`. */
  lemma DecodeTokens(line: string, e: Experiment)
    requires var t := Split(line);
             |t| >= 6 &&
             KiBField(t, 0) == Success(e.ioSize) && KiBField(t, 1) == Success(e.stride) &&
             (t[2] == "random") == e.isRandom && (t[3] == "write") == e.isWrite &&
             KiBField(t, 4) == Success(e.totalSize) && KiBField(t, 5) == Success(e.desired)
    ensures DecodeLine(line) == Success(e)
  {
  }

  /** A token spelling v / 1024, for v a whole number of KiB, decodes to v. */
  lemma KiBFieldSigned(t: seq<string>, i: nat, v: int)
    requires v % 1024 == 0 && i < |t| && t[i] == Signed(v / 1024)
    ensures KiBField(t, i) == Success(v)
  {
    ParseIntSigned(v / 1024);
  }

  /** The indices of the lines that are not comments, in order. */
  function DataLines(lines: seq<string>): (idx: seq<nat>)
    ensures forall k :: 0 <= k < |idx| ==> idx[k] < |lines| && !IsComment(lines[idx[k]])
    ensures forall k, m :: 0 <= k < m < |idx| ==> idx[k] < idx[m]
  {
    if lines == [] then []
    else
      var last := |lines| - 1;
      var before := DataLines(lines[..last]);
      assert forall k :: 0 <= k < |before| ==> lines[..last][before[k]] == lines[before[k]];
      before + (if IsComment(lines[last]) then [] else [last])
  }

  /** Every line that is not a comment has its place in DataLines. */
  lemma {:induction false} DataLinesComplete(lines: seq<string>)
    ensures forall i :: 0 <= i < |lines| && !IsComment(lines[i]) ==> i in DataLines(lines)
  {
    if lines != [] {
      var last := |lines| - 1;
      DataLinesComplete(lines[..last]);
      forall i | 0 <= i < last && !IsComment(lines[i]) ensures i in DataLines(lines) {
        assert lines[..last][i] == lines[i];
      }
    }
  }

  /** The data lines of a prefix of the file are a prefix of its data lines. */
  lemma {:induction false} DataLinesPrefix(lines: seq<string>, i: nat)
    requires i <= |lines|
    ensures DataLines(lines[..i]) <= DataLines(lines)
    decreases |lines|
  {
    if i < |lines| {
      var last := |lines| - 1;
      DataLinesPrefix(lines[..last], i);
      assert lines[..last][..i] == lines[..i];
    } else {
      assert lines[..i] == lines;
    }
  }

  /** Taking one more line of the file adds its index to the data lines
      unless it is a comment. */
  lemma DataLinesStep(lines: seq<string>, i: nat)
    requires i < |lines|
    ensures DataLines(lines[..i + 1]) == DataLines(lines[..i]) + (if IsComment(lines[i]) then [] else [i])
    ensures DataLines(lines[..i + 1]) <= DataLines(lines)
    ensures !IsComment(lines[i]) ==>
              |DataLines(lines[..i])| < |DataLines(lines)| && DataLines(lines)[|DataLines(lines[..i])|] == i
  {
    DataLinesPrefix(lines, i + 1);
    assert lines[..i + 1][..i] == lines[..i];
    if !IsComment(lines[i]) {
      var before := DataLines(lines[..i]);
      assert DataLines(lines[..i + 1])[|before|] == i;
    }
  }

  /** Whether the k-th run raised (past the end of `raised`: it did not). */
  predicate RaisedAt(raised: seq<bool>, k: nat)
  {
    k < |raised| && raised[k]
  }

  /** How the driver stopped: after the last line, at a line that failed to
      decode, or at a run that raised. */
  datatype Stop = AllRun | BadLine(line: nat, error: LineError) | RunRaised(line: nat)

  /** A finished run extends the runs written, each decoded from its line
      and none of them raised. */
  lemma RunWritten(lines: seq<string>, raised: seq<bool>, written: seq<nat>, runs: seq<Experiment>, i: nat, e: Experiment)
    requires |runs| == |written| && i < |lines|
    requires forall k :: 0 <= k < |written| ==> written[k] < |lines| && DecodeLine(lines[written[k]]) == Success(runs[k])
    requires forall k :: 0 <= k < |written| ==> !RaisedAt(raised, k)
    requires DecodeLine(lines[i]) == Success(e) && !RaisedAt(raised, |written|)
    ensures forall k :: 0 <= k < |written| + 1 ==> DecodeLine(lines[(written + [i])[k]]) == Success((runs + [e])[k])
    ensures forall k :: 0 <= k < |written| + 1 ==> !RaisedAt(raised, k)
  {
  }

  /** Lines 82-99, the loop: the lines are scanned until the end or until one
      stops the driver; `i` is the line reached.  Everything is stated over
      the scanned prefix `lines[..i]`. */
  method ScanLines(lines: seq<string>, raised: seq<bool>)
    returns (stop: Stop, runs: seq<Experiment>, written: seq<nat>, i: nat)
    ensures i <= |lines|
    ensures written == DataLines(lines[..i])
    ensures |runs| == |written| + (if stop.RunRaised? then 1 else 0)
    ensures forall k :: 0 <= k < |written| ==> DecodeLine(lines[written[k]]) == Success(runs[k])
    ensures forall k :: 0 <= k < |written| ==> !RaisedAt(raised, k)
    ensures stop == AllRun ==> i == |lines|
    ensures !stop.AllRun? ==> i < |lines| && stop.line == i && !IsComment(lines[i])
    ensures stop.BadLine? ==> DecodeLine(lines[i]) == Failure(stop.error)
    ensures stop.RunRaised? ==> DecodeLine(lines[i]) == Success(runs[|written|]) && RaisedAt(raised, |written|)
  {
    stop, runs, written := AllRun, [], [];
    i := 0;
    while i < |lines|
      invariant i <= |lines|
      invariant written == DataLines(lines[..i])
      invariant |runs| == |written|
      invariant forall k :: 0 <= k < |written| ==> DecodeLine(lines[written[k]]) == Success(runs[k])
      invariant forall k :: 0 <= k < |written| ==> !RaisedAt(raised, k)
    {
      DataLinesStep(lines, i);
      var line := lines[i];
      if !IsComment(line) {
        match DecodeLine(line)
        case Failure(err) =>
          stop := BadLine(i, err);
          return;
        case Success(e) =>
          runs := runs + [e];
          if RaisedAt(raised, |written|) {
            stop := RunRaised(i);
            return;
          }
          RunWritten(lines, raised, written, runs[..|written|], i, e);
          assert runs == runs[..|written|] + [e];
          written := written + [i];
      }
      i := i + 1;
    }
  }

  /** Lines 82-99: run one experiment per data line and write one results line
      per finished run.  The k-th run raises iff `RaisedAt(raised, k)` (the
      device and the clock decide that).  `runs` are the experiments started;
      `written` are the indices of the lines whose results line was written. */
  method RunExperiments(lines: seq<string>, raised: seq<bool>) returns (stop: Stop, runs: seq<Experiment>, written: seq<nat>)
    ensures written <= DataLines(lines)
    ensures stop == AllRun <==> written == DataLines(lines)
    ensures |runs| == |written| + (if stop.RunRaised? then 1 else 0)
    ensures forall k :: 0 <= k < |runs| ==> DecodeLine(lines[DataLines(lines)[k]]) == Success(runs[k])
    ensures forall k :: 0 <= k < |written| ==> !RaisedAt(raised, k)
    ensures stop.BadLine? ==>
              stop.line == DataLines(lines)[|written|] && DecodeLine(lines[stop.line]) == Failure(stop.error)
    ensures stop.RunRaised? ==>
              stop.line == DataLines(lines)[|written|] && RaisedAt(raised, |written|)
  {
    var i;
    stop, runs, written, i := ScanLines(lines, raised);
    var all := DataLines(lines);
    if stop == AllRun {
      assert lines[..i] == lines;
    } else {
      DataLinesStep(lines, i);
    }
    assert written <= all;
    forall k | 0 <= k < |runs|
      ensures DecodeLine(lines[all[k]]) == Success(runs[k])
    {
      if k < |written| {
        assert all[k] == written[k];
      }
    }
  }

  /** The data line `4 0 random read 1024 1024` asks for 4 KiB random reads
      over 1 MiB. */
  lemma DecodeSampleLine()
    ensures DecodeLine(Unwords(["4", "0", "random", "read", "1024", "1024"]) + "\n") ==
            Success(Experiment(4096, 0, true, false, 1048576, 1048576))
  {
    var e := Experiment(4096, 0, true, false, 1048576, 1048576);
    assert Signed(4) == "4" && Signed(0) == "0" && Signed(1024) == "1024" by {
      assert Decimal(1024) == Decimal(102) + "4" && Decimal(102) == Decimal(10) + "2";
    }
    assert EncodeLine(e) == Unwords(["4", "0", "random", "read", "1024", "1024"]) by {
      assert 4096 / 1024 == 4 && 0 / 1024 == 0 && 1048576 / 1024 == 1024;
    }
    DecodeEncode(e);
  }

  /** A file with two comment lines and then that data line runs one
      experiment. */
  lemma OneDataLineAmongComments(lines: seq<string>)
    requires |lines| == 3 && IsComment(lines[0]) && IsComment(lines[1])
    requires lines[2] == Unwords(["4", "0", "random", "read", "1024", "1024"]) + "\n"
    ensures DataLines(lines) == [2]
    ensures DecodeLine(lines[DataLines(lines)[0]]) == Success(Experiment(4096, 0, true, false, 1048576, 1048576))
  {
    DecodeSampleLine();
    assert lines[..1][..0] == [];
    assert DataLines(lines[..1]) == [];
    assert lines[..2][..1] == lines[..1];
    assert DataLines(lines[..2]) == [];
    assert lines[..2] == lines[..|lines| - 1];
  }
}
