/**
  The vocabulary shared by the three benchmark variants.  The variants never
  touch a real device here: each run records, in order, the calls it makes on
  its target (open, seek, read/write, flush, fsync, close, ...) as a trace of
  events, and summarises every issued operation as an `Op`.
 */
module Io {
  import opened Arith

  datatype Direction = Read | Write

  /** One issued operation: its offset, its direction, and whether a durability
      barrier followed it. */
  datatype Op = Op(offset: int, dir: Direction, synced: bool)

  /** The calls a run makes on its target and its memory, in order. */
  datatype Event =
    | Open                                // the target's descriptor is acquired
    | Alloc                               // the transfer buffer is acquired
    | Seek(offset: int)                   // the file position is set
    | Transfer(dir: Direction, size: int) // one read or write of `size` bytes
    | Flush                               // user-space buffers are flushed
    | Fsync                               // the device is synced
    | Free                                // the transfer buffer is released
    | Close                               // the descriptor is released
    | Unlink                              // the target file is deleted

  function DirectionOf(isWrite: bool): (d: Direction)
    ensures d == Write <==> isWrite
  {
    if isWrite then Write else Read
  }

  /** The number of `b`-byte steps a counter starting at 0 takes to reach `a`:
      the least n with n * b >= a. */
  function CeilDiv(a: int, b: int): (n: nat)
    requires b > 0
    ensures n * b >= a
    ensures n == 0 || (n - 1) * b < a
  {
    if a <= 0 then 0
    else
      var n := (a + b - 1) / b;
      assert n * b <= a + b - 1 < n * b + b;
      n
  }

  /** CeilDiv(a, b) is the least count of b-byte steps that reaches a. */
  lemma CeilDivLeast(a: int, b: int, k: nat)
    requires b > 0
    ensures k * b >= a ==> CeilDiv(a, b) <= k
    ensures k * b < a ==> k < CeilDiv(a, b)
  {
    var n := CeilDiv(a, b);
    if k * b >= a && k < n {
      MulMono(k, n - 1, b);
    }
    if k * b < a && k >= n {
      MulMono(n, k, b);
    }
  }

  /** A counter advanced CeilDiv(a, b) times by b ends in [a, a + b). */
  lemma CeilDivTotal(a: int, b: int)
    requires b > 0 && a > 0
    ensures a <= CeilDiv(a, b) * b < a + b
  {
    MulSucc(CeilDiv(a, b) - 1, b);
  }

  /** The k-th random draw of a run (0 past the end; sequential runs draw none). */
  function Draw(draws: seq<int>, k: nat): int
  {
    if k < |draws| then draws[k] else 0
  }

  /** A device path is one whose first five characters are "/dev/". */
  predicate IsDevicePath(path: string)
  {
    |path| >= 5 && path[..5] == "/dev/"
  }

  /** The issued operations for the offsets `offsets`, all in one direction. */
  function OpsAt(offsets: seq<int>, dir: Direction, synced: bool): (ops: seq<Op>)
    ensures |ops| == |offsets|
    ensures forall k :: 0 <= k < |ops| ==> ops[k] == Op(offsets[k], dir, synced)
  {
    seq(|offsets|, k requires 0 <= k < |offsets| => Op(offsets[k], dir, synced))
  }

  /** The barrier that follows a synced operation: fsync alone, or a flush of
      user-space buffers and then fsync. */
  function Barrier(flushFirst: bool): seq<Event>
  {
    if flushFirst then [Flush, Fsync] else [Fsync]
  }

  /** The calls that issue one operation of `size` bytes. */
  function OpEvents(op: Op, size: int, flushFirst: bool): seq<Event>
  {
    [Seek(op.offset), Transfer(op.dir, size)] + (if op.synced then Barrier(flushFirst) else [])
  }

  /** The calls that issue `ops` one after the other. */
  function Events(ops: seq<Op>, size: int, flushFirst: bool): seq<Event>
  {
    if ops == [] then []
    else Events(ops[..|ops| - 1], size, flushFirst) + OpEvents(ops[|ops| - 1], size, flushFirst)
  }

  /** Each operation is synced exactly when it is a write. */
  predicate WritesSynced(ops: seq<Op>)
  {
    forall k :: 0 <= k < |ops| ==> (ops[k].synced <==> ops[k].dir == Write)
  }

  /** Every transfer in the trace is one operation's: it moves exactly `size`
      bytes in that operation's direction and comes right after the seek to
      that operation's offset. */
  lemma {:induction false} TransferFollowsSeek(ops: seq<Op>, size: int, flushFirst: bool)
    ensures forall i :: 0 <= i < |Events(ops, size, flushFirst)| && Events(ops, size, flushFirst)[i].Transfer? ==>
              0 < i &&
              exists k :: 0 <= k < |ops| &&
                Events(ops, size, flushFirst)[i - 1] == Seek(ops[k].offset) &&
                Events(ops, size, flushFirst)[i] == Transfer(ops[k].dir, size)
  {
    if ops != [] {
      var last := |ops| - 1;
      var init := ops[..last];
      TransferFollowsSeek(init, size, flushFirst);
      var head := Events(init, size, flushFirst);
      var tail := OpEvents(ops[last], size, flushFirst);
      var es := Events(ops, size, flushFirst);
      assert es == head + tail;
      forall i | 0 <= i < |es| && es[i].Transfer?
        ensures 0 < i && exists k :: 0 <= k < |ops| && es[i - 1] == Seek(ops[k].offset) && es[i] == Transfer(ops[k].dir, size)
      {
        if i < |head| {
          assert es[i] == head[i] && es[i - 1] == head[i - 1];
          var k :| 0 <= k < |init| && head[i - 1] == Seek(init[k].offset) && head[i] == Transfer(init[k].dir, size);
          assert ops[k] == init[k];
        } else {
          assert es[i] == tail[i - |head|];
          assert i - |head| == 1;
          assert es[i - 1] == tail[0];
          assert es[i - 1] == Seek(ops[last].offset) && es[i] == Transfer(ops[last].dir, size);
        }
      }
    }
  }

  /** When writes and only writes are synced, every write transfer is followed
      at once by the barrier, and every read transfer is followed by the next
      seek or ends the trace. */
  lemma BarrierFollowsWritesOnly(ops: seq<Op>, size: int, flushFirst: bool)
    requires WritesSynced(ops)
    ensures forall i :: 0 <= i < |Events(ops, size, flushFirst)| && Events(ops, size, flushFirst)[i] == Transfer(Write, size) ==>
              i + |Barrier(flushFirst)| < |Events(ops, size, flushFirst)| &&
              Events(ops, size, flushFirst)[i + 1..i + 1 + |Barrier(flushFirst)|] == Barrier(flushFirst)
    ensures forall i :: 0 <= i < |Events(ops, size, flushFirst)| && Events(ops, size, flushFirst)[i] == Transfer(Read, size) ==>
              i + 1 == |Events(ops, size, flushFirst)| || Events(ops, size, flushFirst)[i + 1].Seek?
  {
    WriteThenBarrier(ops, size, flushFirst);
    ReadThenSeek(ops, size, flushFirst);
  }

  /** In the calls of one operation, a write transfer is the second call and
      the barrier follows it to the end. */
  lemma OpWriteThenBarrier(op: Op, size: int, flushFirst: bool, j: nat)
    requires op.synced <==> op.dir == Write
    requires j < |OpEvents(op, size, flushFirst)| && OpEvents(op, size, flushFirst)[j] == Transfer(Write, size)
    ensures j == 1 && OpEvents(op, size, flushFirst)[2..] == Barrier(flushFirst)
  {
    var b := Barrier(flushFirst);
    var tail := OpEvents(op, size, flushFirst);
    assert tail[0].Seek?;
    assert forall m :: 2 <= m < |tail| ==> !tail[m].Transfer?;
    assert op.synced;
    assert tail[2..] == b;
  }

  lemma {:induction false} WriteThenBarrier(ops: seq<Op>, size: int, flushFirst: bool)
    requires WritesSynced(ops)
    ensures forall i :: 0 <= i < |Events(ops, size, flushFirst)| && Events(ops, size, flushFirst)[i] == Transfer(Write, size) ==>
              i + |Barrier(flushFirst)| < |Events(ops, size, flushFirst)| &&
              Events(ops, size, flushFirst)[i + 1..i + 1 + |Barrier(flushFirst)|] == Barrier(flushFirst)
  {
    if ops != [] {
      var init := ops[..|ops| - 1];
      var last := ops[|ops| - 1];
      WriteThenBarrier(init, size, flushFirst);
      var head := Events(init, size, flushFirst);
      var tail := OpEvents(last, size, flushFirst);
      var es := Events(ops, size, flushFirst);
      var b := Barrier(flushFirst);
      assert es == head + tail;
      forall i | 0 <= i < |es| && es[i] == Transfer(Write, size)
        ensures i + |b| < |es| && es[i + 1..i + 1 + |b|] == b
      {
        if i < |head| {
          assert head[i] == es[i];
          assert head[i + 1..i + 1 + |b|] == b;
        } else {
          assert es[i] == tail[i - |head|];
          OpWriteThenBarrier(last, size, flushFirst, i - |head|);
          assert es[i + 1..i + 1 + |b|] == tail[2..];
        }
      }
    }
  }

  lemma {:induction false} ReadThenSeek(ops: seq<Op>, size: int, flushFirst: bool)
    requires WritesSynced(ops)
    ensures forall i :: 0 <= i < |Events(ops, size, flushFirst)| && Events(ops, size, flushFirst)[i] == Transfer(Read, size) ==>
              i + 1 == |Events(ops, size, flushFirst)| || Events(ops, size, flushFirst)[i + 1].Seek?
  {
    if ops != [] {
      var init := ops[..|ops| - 1];
      var last := ops[|ops| - 1];
      ReadThenSeek(init, size, flushFirst);
      var head := Events(init, size, flushFirst);
      var tail := OpEvents(last, size, flushFirst);
      var es := Events(ops, size, flushFirst);
      assert es == head + tail;
      assert last.synced <==> last.dir == Write;
      forall i | 0 <= i < |es| && es[i] == Transfer(Read, size)
        ensures i + 1 == |es| || es[i + 1].Seek?
      {
        if i < |head| {
          assert head[i] == es[i];
          if i + 1 == |head| {
            assert es[i + 1] == tail[0];
          } else {
            assert es[i + 1] == head[i + 1];
          }
        } else {
          assert es[i] == tail[i - |head|];
          assert tail == [Seek(last.offset), Transfer(Read, size)];
        }
      }
    }
  }

  /** Open, Alloc, Free and Close are the calls that acquire or release something. */
  predicate IsResourceEvent(e: Event)
  {
    e.Open? || e.Alloc? || e.Free? || e.Close?
  }

  /** Issuing operations acquires and releases nothing. */
  lemma {:induction false} EventsHoldNoResources(ops: seq<Op>, size: int, flushFirst: bool)
    ensures forall i :: 0 <= i < |Events(ops, size, flushFirst)| ==> !IsResourceEvent(Events(ops, size, flushFirst)[i])
  {
    if ops != [] {
      EventsHoldNoResources(ops[..|ops| - 1], size, flushFirst);
    }
  }

  /** How many times `e` occurs in `events`. */
  function Count(events: seq<Event>, e: Event): (n: nat)
    ensures n <= |events|
  {
    if events == [] then 0
    else Count(events[..|events| - 1], e) + (if events[|events| - 1] == e then 1 else 0)
  }

  lemma {:induction false} CountAppend(a: seq<Event>, b: seq<Event>, e: Event)
    ensures Count(a + b, e) == Count(a, e) + Count(b, e)
  {
    if b == [] {
      assert a + b == a;
    } else {
      var init := b[..|b| - 1];
      CountAppend(a, init, e);
      assert (a + b)[..|a + b| - 1] == a + init;
    }
  }

  /** A call that acquires or releases nothing occurs nowhere in a stretch
      of calls that acquire and release nothing. */
  lemma {:induction false} CountNoResources(s: seq<Event>, e: Event)
    requires forall i :: 0 <= i < |s| ==> !IsResourceEvent(s[i])
    requires IsResourceEvent(e)
    ensures Count(s, e) == 0
  {
    if s != [] {
      CountNoResources(s[..|s| - 1], e);
    }
  }

  /** Every descriptor opened is closed and every buffer allocated is freed. */
  predicate Balanced(events: seq<Event>)
  {
    Count(events, Open) == Count(events, Close) && Count(events, Alloc) == Count(events, Free)
  }

  /** Issuing operations opens, closes, allocates and frees nothing. */
  lemma EventsCountNoResources(ops: seq<Op>, size: int, flushFirst: bool)
    ensures var es := Events(ops, size, flushFirst);
            Count(es, Open) == 0 && Count(es, Close) == 0 && Count(es, Alloc) == 0 && Count(es, Free) == 0
  {
    EventsHoldNoResources(ops, size, flushFirst);
    var es := Events(ops, size, flushFirst);
    CountNoResources(es, Open);
    CountNoResources(es, Close);
    CountNoResources(es, Alloc);
    CountNoResources(es, Free);
  }

  lemma CountPair(x: Event, y: Event)
    ensures forall e :: Count([x, y], e) == (if x == e then 1 else 0) + (if y == e then 1 else 0)
  {
    assert [x, y][..1] == [x];
  }

  /** The occurrences of `e` in four stretches laid end to end. */
  lemma CountAppend4(a: seq<Event>, b: seq<Event>, c: seq<Event>, d: seq<Event>, e: Event)
    ensures Count(a + b + c + d, e) == Count(a, e) + Count(b, e) + Count(c, e) + Count(d, e)
  {
    CountAppend(a, b, e);
    CountAppend(a + b, c, e);
    CountAppend(a + b + c, d, e);
  }

  /** A trace that acquires, issues operations, then releases is balanced. */
  lemma BracketedBalanced(acquire: seq<Event>, ops: seq<Op>, size: int, flushFirst: bool, middle: seq<Event>, release: seq<Event>)
    requires Balanced(acquire + release)
    requires forall i :: 0 <= i < |middle| ==> !IsResourceEvent(middle[i])
    ensures Balanced(acquire + Events(ops, size, flushFirst) + middle + release)
  {
    EventsCountNoResources(ops, size, flushFirst);
    var es := Events(ops, size, flushFirst);
    forall e | IsResourceEvent(e)
      ensures Count(acquire + es + middle + release, e) == Count(acquire + release, e)
    {
      CountNoResources(middle, e);
      CountAppend4(acquire, es, middle, release, e);
      CountAppend(acquire, release, e);
    }
  }

  /** A trace that only opens the target, issues operations and ends with one
      more call that is not Open, Alloc or Free is balanced exactly when that
      call is Close. */
  lemma OpenedThenBalanced(ops: seq<Op>, size: int, flushFirst: bool, last: Event)
    requires !last.Open? && !last.Alloc? && !last.Free?
    ensures Balanced([Open] + Events(ops, size, flushFirst) + [last]) <==> last == Close
  {
    EventsCountNoResources(ops, size, flushFirst);
    var es := Events(ops, size, flushFirst);
    forall e | IsResourceEvent(e)
      ensures Count([Open] + es + [last], e) == Count([Open], e) + Count(es, e) + Count([last], e)
    {
      CountAppend([Open], es, e);
      CountAppend([Open] + es, [last], e);
    }
    assert Count([Open], Open) == 1 && Count([last], Close) == (if last == Close then 1 else 0);
  }

  /** A trace that opens the target, allocates the buffer, issues operations
      and perhaps one more call that acquires nothing, then frees and closes,
      and perhaps unlinks, is balanced. */
  lemma AllocatedRunBalanced(ops: seq<Op>, size: int, flushFirst: bool, middle: seq<Event>, tail: seq<Event>)
    requires forall i :: 0 <= i < |middle| ==> !IsResourceEvent(middle[i])
    requires forall i :: 0 <= i < |tail| ==> !IsResourceEvent(tail[i])
    ensures Balanced([Open, Alloc] + Events(ops, size, flushFirst) + middle + [Free, Close] + tail)
  {
    var es := Events(ops, size, flushFirst);
    var trace := [Open, Alloc] + es + middle + [Free, Close] + tail;
    EventsCountNoResources(ops, size, flushFirst);
    forall e | IsResourceEvent(e)
      ensures Count(trace, e) == Count([Open, Alloc], e) + Count([Free, Close], e)
    {
      CountNoResources(middle, e);
      CountNoResources(tail, e);
      CountAppend4([Open, Alloc], es, middle, [Free, Close], e);
      CountAppend([Open, Alloc] + es + middle + [Free, Close], tail, e);
    }
    CountPair(Open, Alloc);
    CountPair(Free, Close);
  }
}
