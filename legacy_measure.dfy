/**
  measure.py (the older variant): `perform_io_test` opens the target through
  a buffered file object and, while the cursor is below `total_size`, seeks to
  it, reads or writes one `io_size` buffer and, after a write, flushes and
  fsyncs.  Sequential mode starts at 0 and advances by io_size + stride;
  random mode seeks to a drawn slot times io_size, which always lies below
  `total_size`, so the loop never ends.  Random draws are inputs here, and a
  fuel bound stands for the number of iterations observed.
 */
module LegacyMeasure {
  import opened Io
  import opened Arith

  datatype Config = Config(
    path: string,
    ioSize: int,
    stride: int,
    isRandom: bool,
    isWrite: bool,
    totalSize: int)

  /** What `os.open` did: opened the target, refused with PermissionError, or
      raised another OSError. */
  datatype OpenResult = Opened | Denied | OpenError

  /** The exceptions the two handlers of lines 61-64 catch: the failed open,
      `//` by an io_size of 0, `random.randint(0, hi)` with hi < 0, and a seek
      to a negative position. */
  datatype Error = PermissionDenied | OpenFailed | DivisionByZero | EmptyRandomRange | NegativeSeek

  /** How a call ends: the loop ran out, an exception was caught and
      reported, `bytearray(io_size)` raised before the `try` (a negative
      io_size), or the fuel was spent with the loop still running. */
  datatype Outcome = Completed | Caught(error: Error) | NegativeBuffer | OutOfFuel

  /** The slot bound `(total_size - io_size) // io_size` handed to randint. */
  function RandomHigh(c: Config): int
    requires c.ioSize > 0
  {
    (c.totalSize - c.ioSize) / c.ioSize
  }

  /** The offset of the k-th operation: a drawn slot times io_size, or k
      steps of io_size + stride from 0. */
  function IssuedOffset(c: Config, draws: seq<int>, k: nat): int
  {
    if c.isRandom then Draw(draws, k) * c.ioSize else k * (c.ioSize + c.stride)
  }

  /** randint's draws lie in [0, hi] whenever the bound can be computed. */
  predicate DrawsInRange(c: Config, draws: seq<int>)
  {
    c.isRandom && c.ioSize > 0 ==> forall k :: 0 <= k < |draws| ==> 0 <= draws[k] <= RandomHigh(c)
  }

  /** Line 32: a drawn slot times io_size is a multiple of io_size in
      [0, total_size - io_size], so it is below total_size. */
  lemma RandomOffsetInRange(c: Config, draw: int)
    requires c.ioSize > 0 && 0 <= draw <= RandomHigh(c)
    ensures (draw * c.ioSize) % c.ioSize == 0
    ensures 0 <= draw * c.ioSize <= c.totalSize - c.ioSize < c.totalSize
  {
    MulMod(draw, c.ioSize);
    ProductNonNegative(draw, c.ioSize);
    MulMono(draw, RandomHigh(c), c.ioSize);
    DivMulBound(c.totalSize - c.ioSize, c.ioSize);
  }

  /** The random offset of every operation is in range, past the end of the
      draws included. */
  lemma RandomIssuedInRange(c: Config, draws: seq<int>, k: nat)
    requires c.isRandom && c.ioSize > 0 && RandomHigh(c) >= 0
    requires DrawsInRange(c, draws)
    ensures 0 <= IssuedOffset(c, draws, k) < c.totalSize
  {
    RandomOffsetInRange(c, Draw(draws, k));
  }

  /** A sequential cursor that has taken n > 0 steps of b <= 0 bytes is not
      above 0, so it cannot have left [0, total_size) upwards. */
  lemma NonPositiveSteps(n: nat, b: int)
    requires b <= 0
    ensures n * b <= 0
  {
    MulMono(0, n, -b);
  }

  /** Lines 28-50: the loop, up to `fuel` iterations.  `ops` are the
      operations completed, in order. */
  method IssueOps(c: Config, draws: seq<int>, fuel: nat) returns (outcome: Outcome, ops: seq<Op>)
    requires c.ioSize >= 0
    requires DrawsInRange(c, draws)
    ensures |ops| <= fuel
    ensures forall k :: 0 <= k < |ops| ==> ops[k] == Op(IssuedOffset(c, draws, k), DirectionOf(c.isWrite), c.isWrite)
    ensures forall k :: 0 <= k < |ops| ==> 0 <= ops[k].offset < c.totalSize
    ensures outcome == Completed <==>
              c.totalSize <= 0 ||
              (!c.isRandom && c.ioSize + c.stride > 0 && fuel >= CeilDiv(c.totalSize, c.ioSize + c.stride))
    ensures outcome == Completed && !c.isRandom && c.ioSize + c.stride > 0 ==>
              |ops| == CeilDiv(c.totalSize, c.ioSize + c.stride)
    ensures c.isRandom && c.ioSize > 0 && RandomHigh(c) >= 0 ==> outcome == OutOfFuel && |ops| == fuel
    ensures outcome == Caught(DivisionByZero) <==> c.isRandom && c.ioSize == 0 && c.totalSize > 0 && fuel > 0
    ensures outcome == Caught(EmptyRandomRange) <==>
              c.isRandom && c.ioSize > 0 && RandomHigh(c) < 0 && c.totalSize > 0 && fuel > 0
    ensures outcome == Caught(NegativeSeek) <==>
              !c.isRandom && c.ioSize + c.stride < 0 && c.totalSize > 0 && fuel >= 2
    ensures outcome == Caught(NegativeSeek) ==> |ops| == 1
    ensures outcome in {Completed, OutOfFuel, Caught(DivisionByZero), Caught(EmptyRandomRange), Caught(NegativeSeek)}
  {
    var dir := DirectionOf(c.isWrite);
    var b := c.ioSize + c.stride;
    ops := [];
    var offset := 0;
    while offset < c.totalSize
      invariant |ops| <= fuel
      invariant forall k :: 0 <= k < |ops| ==> ops[k] == Op(IssuedOffset(c, draws, k), dir, c.isWrite)
      invariant forall k :: 0 <= k < |ops| ==> 0 <= ops[k].offset < c.totalSize
      invariant ops != [] ==> c.totalSize > 0
      invariant !c.isRandom ==> offset == |ops| * b
      invariant !c.isRandom && b < 0 ==> |ops| <= 1
      invariant c.isRandom && ops != [] ==> c.ioSize > 0 && RandomHigh(c) >= 0 && offset < c.totalSize
      invariant c.isRandom && ops == [] ==> offset == 0
      decreases fuel - |ops|
    {
      if !c.isRandom && b > 0 {
        CeilDivLeast(c.totalSize, b, |ops|);
      }
      if |ops| == fuel {
        outcome := OutOfFuel;
        return;
      }
      if c.isRandom {
        if c.ioSize == 0 {
          // (total_size - 0) // 0
          outcome := Caught(DivisionByZero);
          return;
        }
        if RandomHigh(c) < 0 {
          outcome := Caught(EmptyRandomRange);
          return;
        }
        RandomIssuedInRange(c, draws, |ops|);
        offset := Draw(draws, |ops|) * c.ioSize;
      }
      if offset < 0 {
        if !c.isRandom && b >= 0 {
          ProductNonNegative(|ops|, b);
        }
        outcome := Caught(NegativeSeek);
        return;
      }
      ops := ops + [Op(offset, dir, c.isWrite)];
      if !c.isRandom {
        MulSucc(|ops| - 1, b);
        offset := offset + c.ioSize + c.stride;
        if b < 0 {
          NonPositiveSteps(|ops|, b);
        }
      }
    }
    if !c.isRandom {
      if b > 0 {
        CeilDivLeast(c.totalSize, b, |ops|);
        if ops != [] {
          assert ops[|ops| - 1].offset == (|ops| - 1) * b;
          CeilDivLeast(c.totalSize, b, |ops| - 1);
        }
      } else {
        NonPositiveSteps(|ops|, b);
      }
    }
    outcome := Completed;
  }

  /** Lines 7-64: one call.  `events` are the calls made on the target, in
      order: the `with` block closes the file on every way out of the loop,
      and nothing is opened before `os.open` succeeds. */
  method PerformIoTest(c: Config, open: OpenResult, draws: seq<int>, fuel: nat)
    returns (outcome: Outcome, ops: seq<Op>, events: seq<Event>)
    requires DrawsInRange(c, draws)
    ensures outcome == NegativeBuffer <==> c.ioSize < 0
    ensures outcome == Caught(PermissionDenied) <==> c.ioSize >= 0 && open == Denied
    ensures outcome == Caught(OpenFailed) <==> c.ioSize >= 0 && open == OpenError
    ensures outcome == Caught(DivisionByZero) <==>
              c.ioSize >= 0 && open == Opened && c.isRandom && c.ioSize == 0 && c.totalSize > 0 && fuel > 0
    ensures outcome == Caught(EmptyRandomRange) <==>
              c.ioSize >= 0 && open == Opened && c.isRandom && c.ioSize > 0 && RandomHigh(c) < 0 &&
              c.totalSize > 0 && fuel > 0
    ensures outcome == Caught(NegativeSeek) <==>
              c.ioSize >= 0 && open == Opened && !c.isRandom && c.ioSize + c.stride < 0 && c.totalSize > 0 && fuel >= 2
    ensures c.ioSize < 0 || open != Opened ==> ops == [] && events == []
    ensures forall k :: 0 <= k < |ops| ==> ops[k] == Op(IssuedOffset(c, draws, k), DirectionOf(c.isWrite), c.isWrite)
    ensures |ops| <= fuel
    ensures c.ioSize >= 0 && open == Opened ==>
              (outcome == Completed <==>
                 c.totalSize <= 0 ||
                 (!c.isRandom && c.ioSize + c.stride > 0 && fuel >= CeilDiv(c.totalSize, c.ioSize + c.stride)))
    ensures outcome == Completed && !c.isRandom && c.ioSize + c.stride > 0 ==>
              |ops| == CeilDiv(c.totalSize, c.ioSize + c.stride)
    ensures c.ioSize >= 0 && open == Opened && c.isRandom && c.ioSize > 0 && RandomHigh(c) >= 0 ==>
              outcome == OutOfFuel && |ops| == fuel
    ensures c.ioSize >= 0 && open == Opened ==>
              events == [Open] + Events(ops, c.ioSize, true) + (if outcome == OutOfFuel then [] else [Close])
    ensures outcome != OutOfFuel ==> Balanced(events)
  {
    if c.ioSize < 0 {
      // bytearray(io_size) raises ValueError outside the try
      outcome, ops, events := NegativeBuffer, [], [];
      return;
    }
    if open == Denied {
      outcome, ops, events := Caught(PermissionDenied), [], [];
      return;
    }
    if open == OpenError {
      outcome, ops, events := Caught(OpenFailed), [], [];
      return;
    }
    outcome, ops := IssueOps(c, draws, fuel);
    var issued := Events(ops, c.ioSize, true);
    if outcome == OutOfFuel {
      events := [Open] + issued;
      assert events == [Open] + issued + [];
    } else {
      events := [Open] + issued + [Close];
      ClosedRunBalanced(ops, c.ioSize);
    }
  }

  /** A run that opens the target, issues operations and closes it again is
      balanced. */
  lemma ClosedRunBalanced(ops: seq<Op>, size: int)
    ensures Balanced([Open] + Events(ops, size, true) + [Close])
  {
    CountPair(Open, Close);
    assert [Open] + [Close] == [Open, Close];
    BracketedBalanced([Open], ops, size, true, [], [Close]);
    assert [Open] + Events(ops, size, true) + [] + [Close] == [Open] + Events(ops, size, true) + [Close];
  }

  /** Lines 38-50: every operation is synced exactly when it writes, so in
      the trace of a run every write is followed at once by a flush and an
      fsync, and a read never is. */
  lemma WritesThenFlushAndSync(c: Config, draws: seq<int>, ops: seq<Op>)
    requires forall k :: 0 <= k < |ops| ==> ops[k] == Op(IssuedOffset(c, draws, k), DirectionOf(c.isWrite), c.isWrite)
    ensures forall i :: 0 <= i < |Events(ops, c.ioSize, true)| && Events(ops, c.ioSize, true)[i] == Transfer(Write, c.ioSize) ==>
              i + 2 < |Events(ops, c.ioSize, true)| &&
              Events(ops, c.ioSize, true)[i + 1..i + 3] == [Flush, Fsync]
    ensures forall i :: 0 <= i < |Events(ops, c.ioSize, true)| && Events(ops, c.ioSize, true)[i] == Transfer(Read, c.ioSize) ==>
              i + 1 == |Events(ops, c.ioSize, true)| || Events(ops, c.ioSize, true)[i + 1].Seek?
  {
    assert WritesSynced(ops);
    BarrierFollowsWritesOnly(ops, c.ioSize, true);
  }
}
