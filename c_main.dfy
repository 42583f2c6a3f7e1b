/**
  c/main.c: the benchmark loop `perform_io_test` and the argument handling of
  `main`.

  The C loop keeps its cursor in a `size_t` starting at 0.  Sequential mode
  advances it by io_size + stride and, when the next operation would run past
  total_size, takes it modulo total_size; random mode picks the slot
  `rand() % ((total_size - io_size) / io_size)`.  There is no rounding to a
  block boundary.  Every failure releases what was acquired and exits.

  `size_t` values are naturals below 2^64.  The subtraction
  `total_size - io_size` wraps as C's unsigned arithmetic does; the other
  sums are kept below 2^64 by `NoWrap`.  The results of `open`,
  `aligned_alloc`, `rand`, `lseek`, `read` and `write` are inputs (`Env`).
 */
module CMain {
  import opened Io
  import opened Text
  import opened Arith

  /** size_t is 64 bits wide. */
  const SizeModulus: int := 0x1_0000_0000_0000_0000
  /** The size of the transfer buffer (line 11). */
  const BufferSize: int := 1024 * 1024
  /** The range of a 32-bit int. */
  const IntMin: int := -0x8000_0000
  const IntMax: int := 0x7fff_ffff

  type SizeT = n: int | 0 <= n < SizeModulus

  datatype Config = Config(
    path: string,
    ioSize: SizeT,
    stride: SizeT,
    isRandom: bool,
    isWrite: bool,
    totalSize: SizeT,
    desired: SizeT)

  /** The sums the loop forms stay below 2^64, so none of them wraps. */
  predicate NoWrap(c: Config)
  {
    c.totalSize + 2 * c.ioSize + c.stride < SizeModulus && c.desired + c.ioSize < SizeModulus
  }

  /** `a - b` on size_t: wraps below zero. */
  function SizeSub(a: SizeT, b: SizeT): (r: SizeT)
    ensures a >= b ==> r == a - b
    ensures a < b ==> r == a - b + SizeModulus
  {
    (a - b) % SizeModulus
  }

  /** Line 50: the number of slots `(total_size - io_size) / io_size`. */
  function Slots(c: Config): nat
    requires c.ioSize > 0
  {
    SizeSub(c.totalSize, c.ioSize) / c.ioSize
  }

  /** Whether one step of the cursor is defined: random mode divides by the
      slot count (line 50), and sequential mode, whose wrap test always holds
      when total_size is 0, divides by total_size (lines 55-56). */
  predicate StepDefined(c: Config)
    requires c.ioSize > 0
  {
    if c.isRandom then Slots(c) > 0 else c.totalSize > 0
  }

  /** Lines 48-58: the next offset, from the previous one and the value of
      `rand()`. */
  function NextOffset(c: Config, prev: int, draw: int): (r: int)
    requires c.ioSize > 0 && StepDefined(c) && NoWrap(c)
    requires !c.isRandom ==> 0 <= prev < c.totalSize
    ensures 0 <= r < SizeModulus
    ensures !c.isRandom ==> r < c.totalSize
  {
    if c.isRandom then
      var slot := draw % Slots(c);
      MulMono(slot, Slots(c) - 1, c.ioSize);
      DivMulBound(SizeSub(c.totalSize, c.ioSize), c.ioSize);
      ProductNonNegative(slot, c.ioSize);
      MulSucc(Slots(c) - 1, c.ioSize);
      slot * c.ioSize
    else
      var o := prev + c.ioSize + c.stride;
      if o + c.ioSize > c.totalSize then o % c.totalSize else o
  }

  /** The offsets of the first n operations; the cursor starts at 0. */
  function Offsets(c: Config, draws: seq<int>, n: nat): (r: seq<int>)
    requires c.ioSize > 0 && StepDefined(c) && NoWrap(c)
    ensures |r| == n
    ensures forall k :: 0 <= k < n ==> 0 <= r[k] < SizeModulus
    ensures !c.isRandom ==> forall k :: 0 <= k < n ==> r[k] < c.totalSize
  {
    if n == 0 then []
    else
      var before := Offsets(c, draws, n - 1);
      before + [NextOffset(c, if n == 1 then 0 else before[n - 2], Draw(draws, n - 1))]
  }

  /** Each offset is computed from the one before it (the first from 0). */
  lemma {:induction false} OffsetsStep(c: Config, draws: seq<int>, n: nat)
    requires c.ioSize > 0 && StepDefined(c) && NoWrap(c)
    ensures n > 0 ==> Offsets(c, draws, n)[0] == NextOffset(c, 0, Draw(draws, 0))
    ensures forall k :: 0 < k < n ==>
              Offsets(c, draws, n)[k] == NextOffset(c, Offsets(c, draws, n)[k - 1], Draw(draws, k))
  {
    if n > 0 {
      OffsetsStep(c, draws, n - 1);
    }
  }

  /** Issuing the next offset extends the operations at the first n
      offsets to the operations at the first n + 1. */
  lemma OpsAtStep(c: Config, draws: seq<int>, ops: seq<Op>, prev: int, dir: Direction, synced: bool)
    requires c.ioSize > 0 && StepDefined(c) && NoWrap(c)
    requires ops == OpsAt(Offsets(c, draws, |ops|), dir, synced)
    requires prev == if |ops| == 0 then 0 else ops[|ops| - 1].offset
    ensures !c.isRandom ==> 0 <= prev < c.totalSize
    ensures ops + [Op(NextOffset(c, prev, Draw(draws, |ops|)), dir, synced)] ==
            OpsAt(Offsets(c, draws, |ops| + 1), dir, synced)
  {
    var n := |ops|;
    var before := Offsets(c, draws, n);
    var next := NextOffset(c, prev, Draw(draws, n));
    assert n > 0 ==> prev == before[n - 1];
    assert Offsets(c, draws, n + 1) == before + [next];
    var extended := ops + [Op(next, dir, synced)];
    var issued := OpsAt(before + [next], dir, synced);
    forall k | 0 <= k < n + 1
      ensures extended[k] == issued[k]
    {
      if k < n {
        assert extended[k] == ops[k];
      }
    }
  }

  /** Line 50: a random offset starts an io_size slot, and `% slots` leaves
      out the top slot: the offset is below slots * io_size, so with
      total_size >= io_size the last io_size bytes before total_size - io_size
      are never the start of an operation. */
  lemma RandomOffsetInSlot(c: Config, prev: int, draw: int)
    requires c.ioSize > 0 && StepDefined(c) && NoWrap(c) && c.isRandom
    ensures NextOffset(c, prev, draw) % c.ioSize == 0
    ensures NextOffset(c, prev, draw) + c.ioSize <= Slots(c) * c.ioSize
    ensures c.totalSize >= c.ioSize ==> NextOffset(c, prev, draw) + 2 * c.ioSize <= c.totalSize
  {
    var s := Slots(c);
    var slot := draw % s;
    MulMod(slot, c.ioSize);
    MulMono(slot, s - 1, c.ioSize);
    MulSucc(s - 1, c.ioSize);
    DivMulBound(SizeSub(c.totalSize, c.ioSize), c.ioSize);
  }

  /** Lines 43 and 52: the first sequential offset is io_size + stride (taken
      modulo total_size when that operation would not fit), never 0 unless it
      wraps. */
  lemma SequentialFirstOffset(c: Config, draws: seq<int>)
    requires c.ioSize > 0 && StepDefined(c) && NoWrap(c) && !c.isRandom
    ensures 2 * c.ioSize + c.stride <= c.totalSize ==> Offsets(c, draws, 1)[0] == c.ioSize + c.stride
    ensures 2 * c.ioSize + c.stride > c.totalSize ==> Offsets(c, draws, 1)[0] == (c.ioSize + c.stride) % c.totalSize
  {
  }

  /** Lines 52-57: a sequential offset either lets its operation end by
      total_size or was taken modulo total_size; either way it is below
      total_size. */
  lemma SequentialStep(c: Config, prev: int, draw: int)
    requires c.ioSize > 0 && StepDefined(c) && NoWrap(c) && !c.isRandom
    requires 0 <= prev < c.totalSize
    ensures NextOffset(c, prev, draw) < c.totalSize
    ensures prev + 2 * c.ioSize + c.stride <= c.totalSize ==> NextOffset(c, prev, draw) == prev + c.ioSize + c.stride
    ensures prev + 2 * c.ioSize + c.stride > c.totalSize ==>
              NextOffset(c, prev, draw) == (prev + c.ioSize + c.stride) % c.totalSize
  {
  }

  /** Sequential mode, until the first wrap: the k-th offset is
      (k + 1) * (io_size + stride). */
  lemma {:induction false} SequentialClosedForm(c: Config, draws: seq<int>, n: nat)
    requires c.ioSize > 0 && StepDefined(c) && NoWrap(c) && !c.isRandom
    requires n * (c.ioSize + c.stride) + c.ioSize <= c.totalSize
    ensures forall k :: 0 <= k < n ==> Offsets(c, draws, n)[k] == (k + 1) * (c.ioSize + c.stride)
  {
    if n > 0 {
      var s := c.ioSize + c.stride;
      var m := n - 1;
      MulMono(m, n, s);
      SequentialClosedForm(c, draws, m);
      var before := Offsets(c, draws, m);
      var prev := if m == 0 then 0 else before[m - 1];
      assert prev == m * s;
      MulSucc(m, s);
      var r := Offsets(c, draws, n);
      assert r == before + [NextOffset(c, prev, Draw(draws, m))];
      forall k | 0 <= k < n ensures r[k] == (k + 1) * s {
        if k < m {
          assert r[k] == before[k];
        }
      }
    }
  }

  /** What `lseek` and then `read` or `write` reported for one operation. */
  datatype Reply = Reply(seekOk: bool, count: int)

  /** The environment of one run: whether `open` and `aligned_alloc` succeed,
      the values `rand()` returns, and one reply per operation. */
  datatype Env = Env(openOk: bool, allocOk: bool, draws: seq<nat>, replies: seq<Reply>)

  /** How a run ends: `perform_io_test` returns, or it calls `exit` after one
      of four failures, or its behaviour is undefined (a division by zero, or
      an io_size larger than the buffer handed to `read`/`write`). */
  datatype Outcome =
    | Returned
    | OpenFailed
    | AllocFailed
    | SeekFailed
    | TransferFailed(offset: nat)
    | DivideByZero
    | BufferOverrun(offset: nat)

  predicate IsUndefined(o: Outcome)
  {
    o.DivideByZero? || o.BufferOverrun?
  }

  /** Lines 42-90: the loop.  Returns how it ended (Returned when it ran to
      the end), the operations completed, and the byte counter `total_iops`. */
  method IssueOps(c: Config, env: Env) returns (outcome: Outcome, ops: seq<Op>, total: nat)
    requires c.ioSize > 0 && NoWrap(c)
    requires |env.replies| >= CeilDiv(c.desired, c.ioSize)
    ensures total == |ops| * c.ioSize
    ensures |ops| <= CeilDiv(c.desired, c.ioSize)
    ensures outcome in {Returned, SeekFailed, DivideByZero} || outcome.TransferFailed? || outcome.BufferOverrun?
    ensures ops != [] ==> StepDefined(c)
    ensures StepDefined(c) ==> ops == OpsAt(Offsets(c, env.draws, |ops|), DirectionOf(c.isWrite), c.isWrite)
    ensures forall k :: 0 <= k < |ops| ==> env.replies[k].seekOk && env.replies[k].count == c.ioSize
    ensures outcome == Returned ==> |ops| == CeilDiv(c.desired, c.ioSize)
    ensures outcome != Returned ==> |ops| < CeilDiv(c.desired, c.ioSize)
    ensures outcome == Returned && c.desired > 0 ==> c.desired <= total < c.desired + c.ioSize
    ensures outcome == DivideByZero <==> c.desired > 0 && !StepDefined(c)
    ensures outcome == SeekFailed ==> |ops| < |env.replies| && !env.replies[|ops|].seekOk
    ensures outcome.TransferFailed? ==>
              StepDefined(c) && |ops| < |env.replies| && env.replies[|ops|].seekOk &&
              env.replies[|ops|].count != c.ioSize && c.ioSize <= BufferSize &&
              outcome.offset == Offsets(c, env.draws, |ops| + 1)[|ops|]
    ensures outcome.BufferOverrun? <==>
              c.desired > 0 && StepDefined(c) && c.ioSize > BufferSize && env.replies[0].seekOk
    ensures outcome.BufferOverrun? ==> ops == [] && outcome.offset == Offsets(c, env.draws, 1)[0]
  {
    var dir := DirectionOf(c.isWrite);
    ops, total := [], 0;
    var offset := 0;
    ghost var n := CeilDiv(c.desired, c.ioSize);
    while total < c.desired
      invariant total == |ops| * c.ioSize
      invariant |ops| <= n
      invariant ops != [] ==> StepDefined(c)
      invariant StepDefined(c) ==> ops == OpsAt(Offsets(c, env.draws, |ops|), dir, c.isWrite)
      invariant offset == if |ops| == 0 then 0 else ops[|ops| - 1].offset
      invariant forall k :: 0 <= k < |ops| ==> env.replies[k].seekOk && env.replies[k].count == c.ioSize
      invariant ops != [] ==> c.ioSize <= BufferSize
      decreases c.desired - total
    {
      CeilDivLeast(c.desired, c.ioSize, |ops|);
      if c.isRandom && Slots(c) == 0 {
        // rand() % 0
        outcome := DivideByZero;
        return;
      }
      if !c.isRandom && c.totalSize == 0 {
        // offset % 0: with total_size 0 every operation fails the fit test
        outcome := DivideByZero;
        return;
      }
      OpsAtStep(c, env.draws, ops, offset, dir, c.isWrite);
      offset := NextOffset(c, offset, Draw(env.draws, |ops|));
      var reply := env.replies[|ops|];
      if !reply.seekOk {
        // free(buffer); close(fd); exit(EXIT_FAILURE)
        outcome := SeekFailed;
        return;
      }
      if c.ioSize > BufferSize {
        outcome := BufferOverrun(offset);
        return;
      }
      if reply.count != c.ioSize {
        // free(buffer); close(fd); exit(EXIT_FAILURE)
        outcome := TransferFailed(offset);
        return;
      }
      MulSucc(|ops|, c.ioSize);
      ops := ops + [Op(offset, dir, c.isWrite)];
      total := total + c.ioSize;
    }
    CeilDivLeast(c.desired, c.ioSize, |ops|);
    if c.desired > 0 {
      CeilDivTotal(c.desired, c.ioSize);
    }
    outcome := Returned;
  }

  /** Lines 21-107: one run.  `events` are the calls made on the descriptor
      and the buffer, in order.  Every way out but undefined behaviour
      releases what was acquired; only a completed run on a path outside
      "/dev/" unlinks it. */
  method PerformIoTest(c: Config, env: Env) returns (outcome: Outcome, ops: seq<Op>, events: seq<Event>)
    requires c.ioSize > 0 && NoWrap(c)
    requires |env.replies| >= CeilDiv(c.desired, c.ioSize)
    ensures outcome == OpenFailed <==> !env.openOk
    ensures outcome == OpenFailed ==> events == []
    ensures outcome == AllocFailed <==> env.openOk && !env.allocOk
    ensures outcome == AllocFailed ==> events == [Open, Close]
    ensures outcome == OpenFailed || outcome == AllocFailed ==> ops == []
    ensures StepDefined(c) ==> ops == OpsAt(Offsets(c, env.draws, |ops|), DirectionOf(c.isWrite), c.isWrite)
    ensures ops != [] ==> StepDefined(c)
    ensures |ops| <= CeilDiv(c.desired, c.ioSize)
    ensures forall k :: 0 <= k < |ops| ==> env.replies[k].seekOk && env.replies[k].count == c.ioSize
    ensures outcome == DivideByZero <==> env.openOk && env.allocOk && c.desired > 0 && !StepDefined(c)
    ensures outcome == SeekFailed ==> |ops| < |env.replies| && !env.replies[|ops|].seekOk
    ensures outcome.TransferFailed? ==>
              |ops| < |env.replies| && env.replies[|ops|].seekOk &&
              env.replies[|ops|].count != c.ioSize && c.ioSize <= BufferSize
    ensures outcome.BufferOverrun? <==>
              env.openOk && env.allocOk && c.desired > 0 && StepDefined(c) && c.ioSize > BufferSize &&
              env.replies[0].seekOk
    ensures env.openOk && env.allocOk && (c.desired > 0 ==> StepDefined(c) && c.ioSize <= BufferSize) &&
            (forall k :: 0 <= k < CeilDiv(c.desired, c.ioSize) ==>
               env.replies[k].seekOk && env.replies[k].count == c.ioSize) ==>
              outcome == Returned
    ensures outcome == Returned ==> |ops| == CeilDiv(c.desired, c.ioSize)
    ensures outcome != Returned ==> |ops| < CeilDiv(c.desired, c.ioSize) || ops == []
    ensures outcome == Returned ==>
              events == [Open, Alloc] + Events(ops, c.ioSize, false) + [Free, Close] +
                        (if IsDevicePath(c.path) then [] else [Unlink])
    ensures outcome == SeekFailed ==> events == [Open, Alloc] + Events(ops, c.ioSize, false) + [Free, Close]
    ensures outcome.TransferFailed? ==>
              StepDefined(c) && outcome.offset == Offsets(c, env.draws, |ops| + 1)[|ops|] &&
              events == [Open, Alloc] + Events(ops, c.ioSize, false) + [Seek(outcome.offset), Free, Close]
    ensures !IsUndefined(outcome) ==> Balanced(events)
    ensures IsUndefined(outcome) ==> c.desired > 0 && (!StepDefined(c) || c.ioSize > BufferSize)
  {
    ops := [];
    if !env.openOk {
      // perror; exit(EXIT_FAILURE)
      outcome, events := OpenFailed, [];
      return;
    }
    if !env.allocOk {
      // perror; close(fd); exit(EXIT_FAILURE)
      outcome, events := AllocFailed, [Open, Close];
      return;
    }
    var total;
    outcome, ops, total := IssueOps(c, env);
    var issued := Events(ops, c.ioSize, false);
    if outcome == Returned {
      // free(buffer); close(fd); unlink unless the path starts with "/dev/"
      var tail := if IsDevicePath(c.path) then [] else [Unlink];
      events := [Open, Alloc] + issued + [Free, Close] + tail;
      var middle := [];
      AllocatedRunBalanced(ops, c.ioSize, false, middle, tail);
      assert events == [Open, Alloc] + issued + middle + [Free, Close] + tail;
    } else if outcome == SeekFailed {
      events := [Open, Alloc] + issued + [Free, Close];
      var middle, tail := [], [];
      AllocatedRunBalanced(ops, c.ioSize, false, middle, tail);
      assert events == [Open, Alloc] + issued + middle + [Free, Close] + tail;
    } else if outcome.TransferFailed? {
      events := [Open, Alloc] + issued + [Seek(outcome.offset), Free, Close];
      var middle, tail := [Seek(outcome.offset)], [];
      AllocatedRunBalanced(ops, c.ioSize, false, middle, tail);
      assert events == [Open, Alloc] + issued + middle + [Free, Close] + tail;
    } else {
      events := [Open, Alloc] + issued;
    }
  }

  // ---------------------------------------------------------------------
  // main (lines 110-127)
  // ---------------------------------------------------------------------

  /** C's isspace in the "C" locale. */
  predicate IsCSpace(ch: char)
  {
    ch == ' ' || ('\t' <= ch <= '\r')
  }

  /** The length of the longest prefix of decimal digits. */
  function LeadingDigits(s: string): (n: nat)
    ensures n <= |s|
    ensures forall i :: 0 <= i < n ==> IsDigit(s[i])
    ensures n == |s| || !IsDigit(s[n])
  {
    if s == [] || !IsDigit(s[0]) then 0 else 1 + LeadingDigits(s[1..])
  }

  /** What `atoi` reads once the white space is skipped: an optional sign,
      then the longest run of digits (0 when there is none). */
  function SignedDigits(t: string): int
  {
    var signed := |t| > 0 && (t[0] == '-' || t[0] == '+');
    var body := if signed then t[1..] else t;
    var digits := body[..LeadingDigits(body)];
    assert AllDigits(digits);
    var v := DigitsValue(digits);
    if signed && t[0] == '-' then 0 - v else v
  }

  /** The value `atoi` reads: leading white space, an optional sign, then the
      longest run of digits.  Out of the int range the C standard leaves the
      result undefined; that is decided by the caller. */
  function Atoi(s: string): int
    decreases |s|
  {
    if |s| > 0 && IsCSpace(s[0]) then Atoi(s[1..]) else SignedDigits(s)
  }

  lemma LeadingDigitsOfDigitsThen(d: string, rest: string)
    requires AllDigits(d)
    requires rest == [] || !IsDigit(rest[0])
    ensures LeadingDigits(d + rest) == |d|
    decreases |d|
  {
    if d != [] {
      assert (d + rest)[1..] == d[1..] + rest;
      LeadingDigitsOfDigitsThen(d[1..], rest);
    }
  }

  /** Text that does not start with white space is read from its start. */
  lemma AtoiNoSpace(s: string)
    requires s == [] || !IsCSpace(s[0])
    ensures Atoi(s) == SignedDigits(s)
  {
  }

  /** Unsigned text is read as the value of its leading digits. */
  lemma SignedDigitsUnsigned(t: string, v: int)
    requires t != [] && IsDigit(t[0])
    requires DigitsValue(t[..LeadingDigits(t)]) == v
    ensures SignedDigits(t) == v
  {
  }

  /** Text after a minus sign is read as the negated value of the digits
      that follow the sign. */
  lemma SignedDigitsMinus(t: string, v: int)
    requires t != [] && t[0] == '-'
    requires DigitsValue(t[1..][..LeadingDigits(t[1..])]) == v
    ensures SignedDigits(t) == -v
  {
  }

  /** `atoi` reads back the spelling of a natural number followed by a
      non-digit. */
  lemma AtoiNatural(n: nat, rest: string)
    requires rest == [] || !IsDigit(rest[0])
    ensures Atoi(Decimal(n) + rest) == n
  {
    var d := Decimal(n);
    var t := d + rest;
    DecimalValue(n);
    LeadingDigitsOfDigitsThen(d, rest);
    assert t[..|d|] == d;
    assert t[0] == d[0];
    SignedDigitsUnsigned(t, n);
    AtoiNoSpace(t);
  }

  /** `atoi` reads back a minus sign and the spelling of a natural number,
      followed by a non-digit, as the negated number. */
  lemma AtoiNegative(m: nat, rest: string)
    requires rest == [] || !IsDigit(rest[0])
    ensures Atoi("-" + Decimal(m) + rest) == -(m as int)
  {
    var d := Decimal(m);
    var t := d + rest;
    var s := "-" + d + rest;
    DecimalValue(m);
    LeadingDigitsOfDigitsThen(d, rest);
    assert t[..|d|] == d;
    assert s[1..] == t;
    SignedDigitsMinus(s, m);
    AtoiNoSpace(s);
  }

  /** `atoi` reads back an integer's spelling, whatever non-digit text
      follows it. */
  lemma AtoiSigned(n: int, rest: string)
    requires rest == [] || !IsDigit(rest[0])
    ensures Atoi(Signed(n) + rest) == n
  {
    if n < 0 {
      var m: nat := -n;
      assert Signed(n) == "-" + Decimal(m);
      AtoiNegative(m, rest);
    } else {
      assert Signed(n) == Decimal(n);
      AtoiNatural(n, rest);
    }
  }

  predicate IsInt(v: int)
  {
    IntMin <= v <= IntMax
  }

  /** The conversion of an int to size_t: modulo 2^64. */
  function ToSize(v: int): (r: SizeT)
    ensures 0 <= v < SizeModulus ==> r == v
    ensures v < 0 && v >= -SizeModulus ==> r == v + SizeModulus
  {
    v % SizeModulus
  }

  /** What `main` does with its arguments: print the usage line and fail,
      reach undefined behaviour, or start a run. */
  datatype Args = Usage | ArgsUndefined | Start(config: Config)

  /** Lines 111-122 as written: `argv` holds argc strings, argv[0] being the
      program.  The check lets argc == 7 through although line 122 then reads
      argv[7], the terminating null pointer.  `atoi` out of the int range and
      the int products `* 1024` and `* 1024 * 1024` overflowing are undefined;
      the products are then converted to size_t. */
  function ParseArgs(argv: seq<string>): (r: Args)
    ensures r == Usage <==> |argv| < 7
    ensures |argv| == 7 ==> r == ArgsUndefined
    ensures r.Start? ==>
              |argv| >= 8 && r.config.path == argv[1] &&
              IsInt(Atoi(argv[2]) * 1024) && r.config.ioSize == ToSize(Atoi(argv[2]) * 1024) &&
              IsInt(Atoi(argv[3]) * 1024) && r.config.stride == ToSize(Atoi(argv[3]) * 1024) &&
              (r.config.isRandom <==> Atoi(argv[4]) != 0) &&
              (r.config.isWrite <==> Atoi(argv[5]) != 0) &&
              IsInt(Atoi(argv[6]) * 1048576) && r.config.totalSize == ToSize(Atoi(argv[6]) * 1048576) &&
              IsInt(Atoi(argv[7]) * 1048576) && r.config.desired == ToSize(Atoi(argv[7]) * 1048576)
  {
    if |argv| < 7 then Usage
    else if |argv| == 7 then ArgsUndefined
    else
      var io, stride, random, write, total, desired :=
        Atoi(argv[2]), Atoi(argv[3]), Atoi(argv[4]), Atoi(argv[5]), Atoi(argv[6]), Atoi(argv[7]);
      if !(IsInt(io) && IsInt(stride) && IsInt(random) && IsInt(write) && IsInt(total) && IsInt(desired)) then
        ArgsUndefined
      else if !(IsInt(io * 1024) && IsInt(stride * 1024) && IsInt(total * 1048576) && IsInt(desired * 1048576)) then
        ArgsUndefined
      else
        Start(Config(argv[1], ToSize(io * 1024), ToSize(stride * 1024), random != 0, write != 0,
                     ToSize(total * 1048576), ToSize(desired * 1048576)))
  }

  /** The check the usage line calls for: seven arguments after the program
      name, so argc must be at least 8. */
  function ParseArgsChecked(argv: seq<string>): (r: Args)
    ensures r == Usage <==> |argv| < 8
    ensures |argv| >= 8 ==> r == ParseArgs(argv)
  {
    if |argv| < 8 then Usage else ParseArgs(argv)
  }

  /** As written, six arguments pass the check and the missing seventh is
      read through a null pointer. */
  lemma SixArgumentsReadPastArgv()
    ensures ParseArgs(["bench", "/dev/sdb", "4", "0", "1", "0", "512"]) == ArgsUndefined
    ensures ParseArgsChecked(["bench", "/dev/sdb", "4", "0", "1", "0", "512"]) == Usage
  {
  }

  /** The command line spelling a run's settings in KiB and MiB starts that
      run, its sizes in bytes. */
  lemma ArgvRoundTrip(argv: seq<string>, path: string, ioKiB: int, strideKiB: int, random: bool, write: bool,
                      totalMiB: int, desiredMiB: int)
    requires |argv| == 8 && argv[1] == path
    requires argv[2] == Signed(ioKiB) && argv[3] == Signed(strideKiB)
    requires argv[4] == Signed(if random then 1 else 0) && argv[5] == Signed(if write then 1 else 0)
    requires argv[6] == Signed(totalMiB) && argv[7] == Signed(desiredMiB)
    requires 0 <= ioKiB && ioKiB * 1024 <= IntMax && 0 <= strideKiB && strideKiB * 1024 <= IntMax
    requires 0 <= totalMiB && totalMiB * 1048576 <= IntMax && 0 <= desiredMiB && desiredMiB * 1048576 <= IntMax
    ensures ParseArgsChecked(argv) ==
            Start(Config(path, ioKiB * 1024, strideKiB * 1024, random, write, totalMiB * 1048576, desiredMiB * 1048576))
  {
    AtoiSpelling(ioKiB);
    AtoiSpelling(strideKiB);
    AtoiSpelling(if random then 1 else 0);
    AtoiSpelling(if write then 1 else 0);
    AtoiSpelling(totalMiB);
    AtoiSpelling(desiredMiB);
    ArgumentsInRange(argv, path, ioKiB, strideKiB, random, write, totalMiB, desiredMiB);
  }

  /** Eight strings whose numbers and products fit an int start the run
      they spell. */
  lemma ArgumentsInRange(argv: seq<string>, path: string, ioKiB: int, strideKiB: int, random: bool, write: bool,
                         totalMiB: int, desiredMiB: int)
    requires |argv| == 8 && argv[1] == path
    requires Atoi(argv[2]) == ioKiB && Atoi(argv[3]) == strideKiB && Atoi(argv[4]) == (if random then 1 else 0)
    requires Atoi(argv[5]) == (if write then 1 else 0) && Atoi(argv[6]) == totalMiB && Atoi(argv[7]) == desiredMiB
    requires 0 <= ioKiB && ioKiB * 1024 <= IntMax && 0 <= strideKiB && strideKiB * 1024 <= IntMax
    requires 0 <= totalMiB && totalMiB * 1048576 <= IntMax && 0 <= desiredMiB && desiredMiB * 1048576 <= IntMax
    ensures ParseArgsChecked(argv) ==
            Start(Config(path, ioKiB * 1024, strideKiB * 1024, random, write, totalMiB * 1048576, desiredMiB * 1048576))
  {
  }

  lemma AtoiSpelling(n: int)
    ensures Atoi(Signed(n)) == n
  {
    AtoiSigned(n, []);
    assert Signed(n) + [] == Signed(n);
  }
}
