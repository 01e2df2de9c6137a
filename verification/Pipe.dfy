/** Pipes: the ring buffer behind `pipewrite`, `piperead` and `pipeclose`.

A call into the pipe code holds the pipe's lock except while it sleeps, so what other processes can see are the states
between the stretches of code from one acquisition of the lock to the next release. Each method here is such a stretch:
`WriteSection` and `ReadSection` run until the call returns or goes to sleep, and a sleeping call is resumed by calling
the method again. Any interleaving of readers and writers is a sequence of these calls.
 */
module Pipe {

  type Byte = b: int | 0 <= b < 256

  const PIPESIZE := 512
  const UINT_RANGE := 0x1_0000_0000

  /** `next` is the number of bytes of the call's buffer in the ring so far; a failed call tells its caller only -1. */
  datatype WriteOutcome = Wrote(next: nat) | WriteFailed(next: nat) | WriteAsleep(next: nat)

  datatype ReadOutcome = Read(bytes: seq<Byte>) | ReadFailed | ReadAsleep

  /** Counters that wrap at 2^32 still index the ring, because `PIPESIZE` divides 2^32. */
  lemma WrapKeepsRingIndex(k: nat)
    ensures (k % UINT_RANGE) % PIPESIZE == k % PIPESIZE
  {
    var q := k / UINT_RANGE;
    assert k == k % UINT_RANGE + PIPESIZE * (8388608 * q);
    AddMultiple(k % UINT_RANGE, 8388608 * q);
  }

  lemma WrapAfterIncrement(k: nat)
    ensures (k % UINT_RANGE + 1) % UINT_RANGE == (k + 1) % UINT_RANGE
  {
  }

  lemma {:induction false} AddMultiple(a: nat, q: nat)
    ensures (a + PIPESIZE * q) % PIPESIZE == a % PIPESIZE
  {
    if q > 0 {
      AddMultiple(a, q - 1);
      assert a + PIPESIZE * q == (a + PIPESIZE * (q - 1)) + PIPESIZE;
    }
  }

  /** Equality of wrapped counters is equality of counts, as long as no more than `PIPESIZE` bytes are in flight. */
  lemma WrappedDifference(read: nat, written: nat, d: nat)
    requires read <= written <= read + PIPESIZE && d <= PIPESIZE
    ensures written % UINT_RANGE == (read % UINT_RANGE + d) % UINT_RANGE <==> written == read + d
  {
  }

  lemma DistinctSlots(j: nat, k: nat)
    requires j < k < j + PIPESIZE
    ensures j % PIPESIZE != k % PIPESIZE
  {
  }

  ghost predicate InRing(ring: seq<Byte>, produced: seq<Byte>, k: nat)
    requires |ring| == PIPESIZE && k < |produced|
  {
    ring[k % PIPESIZE] == produced[k]
  }

  /** The bytes numbered `lo` and up are found at their number modulo `PIPESIZE`. */
  ghost predicate RingHolds(ring: seq<Byte>, produced: seq<Byte>, lo: nat)
    requires |ring| == PIPESIZE
  {
    forall k: nat :: lo <= k < |produced| ==> InRing(ring, produced, k)
  }

  lemma RingHoldsOneMore(ring: seq<Byte>, produced: seq<Byte>, lo: nat, b: Byte)
    requires |ring| == PIPESIZE && RingHolds(ring, produced, lo) && lo <= |produced| < lo + PIPESIZE
    ensures RingHolds(ring[|produced| % PIPESIZE := b], produced + [b], lo)
  {
    var ring', produced' := ring[|produced| % PIPESIZE := b], produced + [b];
    forall k: nat | lo <= k < |produced'|
      ensures InRing(ring', produced', k)
    {
      if k < |produced| {
        assert InRing(ring, produced, k);
        DistinctSlots(k, |produced|);
      }
    }
  }

  /** A writer that gives up on a full ring, as it does when killed or without a reader, has bytes that do not fit. */
  predicate Strands(killed: bool, src: seq<Byte>, start: nat, inFlight: int, readopen: bool) {
    (killed || !readopen) && inFlight + |src| - start > PIPESIZE
  }

  class RingBuffer {
    var data: array<Byte>
    var nread: int
    var nwrite: int
    var readopen: bool
    var writeopen: bool
    // Processes asleep on the channels &nread and &nwrite.
    var sleepingReaders: set<nat>
    var sleepingWriters: set<nat>
    // All bytes ever put into and taken out of the ring.
    ghost var produced: seq<Byte>
    ghost var consumed: seq<Byte>

    ghost predicate RingValid()
      reads this, data
    {
      && data.Length == PIPESIZE
      && consumed <= produced
      && |produced| - |consumed| <= PIPESIZE
      && nread == |consumed| % UINT_RANGE
      && nwrite == |produced| % UINT_RANGE
      && RingHolds(data[..], produced, |consumed|)
    }

    ghost predicate Valid()
      reads this, data
    {
      && RingValid()
      // a writer sleeps only on a full pipe that can still be read
      && (sleepingWriters != {} ==> |produced| - |consumed| == PIPESIZE && readopen)
    }

    /** A reader sleeps only on an empty pipe that can still be written. */
    ghost predicate NoReaderOversleeps()
      reads this
    {
      sleepingReaders != {} ==> produced == consumed && writeopen
    }

    ghost function InFlight(): int
      reads this
    {
      |produced| - |consumed|
    }

    constructor ()
      ensures Valid() && fresh(data) && readopen && writeopen
      ensures produced == consumed == [] && sleepingReaders == sleepingWriters == {}
    {
      data := new Byte[PIPESIZE];
      nread, nwrite := 0, 0;
      readopen, writeopen := true, true;
      sleepingReaders, sleepingWriters := {}, {};
      produced, consumed := [], [];
    }

    method PutByte(b: Byte)
      requires RingValid() && |produced| - |consumed| < PIPESIZE
      modifies this`nwrite, this`produced, data
      ensures RingValid() && produced == old(produced) + [b]
    {
      WrapKeepsRingIndex(|produced|);
      WrapAfterIncrement(|produced|);
      RingHoldsOneMore(data[..], produced, |consumed|, b);
      data[nwrite % PIPESIZE] := b;
      nwrite := (nwrite + 1) % UINT_RANGE;
      produced := produced + [b];
    }

    method GetByte() returns (b: Byte)
      requires RingValid() && consumed != produced
      modifies this`nread, this`consumed
      ensures RingValid() && b == produced[|old(consumed)|] && consumed == old(consumed) + [b]
    {
      ghost var c := |consumed|;
      WrapKeepsRingIndex(c);
      WrapAfterIncrement(c);
      assert InRing(data[..], produced, c);
      assert consumed + [produced[c]] <= produced;
      b := data[nread % PIPESIZE];
      nread := (nread + 1) % UINT_RANGE;
      consumed := consumed + [b];
    }

    /** One stretch of `pipewrite(p, src, |src|)`, entered with `start` bytes already in the ring. */
    method WriteSection(pid: nat, killed: bool, src: seq<Byte>, start: nat) returns (r: WriteOutcome)
      requires Valid() && start <= |src|
      modifies this`nwrite, this`produced, this`sleepingReaders, this`sleepingWriters, data
      ensures Valid()
      ensures start <= r.next <= |src| && produced == old(produced) + src[start..r.next]
      // the call stops early only when the ring is full
      ensures r.Wrote? <==> r.next == |src|
      ensures !r.Wrote? ==> |produced| - |consumed| == PIPESIZE && (r.WriteFailed? <==> !readopen || killed)
      ensures sleepingWriters == if r.WriteAsleep? then old(sleepingWriters) + {pid} else old(sleepingWriters)
      ensures sleepingReaders == if r.WriteFailed? then old(sleepingReaders) else {}
      ensures r.Wrote? <==> old(InFlight()) + |src| - start <= PIPESIZE
      // a killed writer, or one without a reader, that fills the ring leaves the readers asleep
      ensures NoReaderOversleeps() <==>
                !(old(sleepingReaders) != {} && Strands(killed, src, start, old(InFlight()), old(readopen)))
    {
      var i := start;
      while i < |src|
        invariant start <= i <= |src| && Valid()
        invariant produced == old(produced) + src[start..i]
        invariant unchanged(`sleepingReaders) && unchanged(`sleepingWriters)
      {
        WrappedDifference(|consumed|, |produced|, PIPESIZE);
        if nwrite == (nread + PIPESIZE) % UINT_RANGE {
          if !readopen || killed {
            return WriteFailed(i);
          }
          sleepingReaders := {};
          sleepingWriters := sleepingWriters + {pid};
          return WriteAsleep(i);
        }
        PutByte(src[i]);
        i := i + 1;
      }
      sleepingReaders := {};
      return Wrote(i);
    }

    /** One stretch of `piperead(p, addr, n)`. */
    method ReadSection(pid: nat, killed: bool, n: int) returns (r: ReadOutcome)
      requires Valid()
      modifies this`nread, this`consumed, this`sleepingReaders, this`sleepingWriters
      ensures Valid()
      ensures r.Read? <==> old(consumed) != produced || !writeopen
      ensures r.Read? ==> consumed == old(consumed) + r.bytes
      ensures r.Read? ==> |r.bytes| == if n <= 0 then 0 else if n <= |produced| - |old(consumed)| then n
                else |produced| - |old(consumed)|
      ensures r.Read? ==> sleepingWriters == {} && sleepingReaders == old(sleepingReaders)
      ensures r == ReadFailed ==> killed && unchanged(this)
      ensures r == ReadAsleep ==> !killed && sleepingReaders == old(sleepingReaders) + {pid}
      ensures r == ReadAsleep ==> unchanged(`nread) && unchanged(`consumed) && unchanged(`sleepingWriters)
      // end of file is reported only on an empty pipe whose write end is closed
      ensures r.Read? && n > 0 && r.bytes == [] ==> produced == consumed && !writeopen
      ensures old(NoReaderOversleeps()) ==> NoReaderOversleeps()
    {
      WrappedDifference(|consumed|, |produced|, 0);
      if nread == nwrite && writeopen {
        if killed {
          return ReadFailed;
        }
        sleepingReaders := sleepingReaders + {pid};
        return ReadAsleep;
      }
      var bytes: seq<Byte> := [];
      var i := 0;
      while i < n
        invariant 0 <= i && |bytes| == i && (n <= 0 ==> i == 0) && (n > 0 ==> i <= n)
        invariant |consumed| == |old(consumed)| + i <= |produced|
        invariant RingValid() && consumed == old(consumed) + bytes
        invariant unchanged(`sleepingReaders) && unchanged(`sleepingWriters)
      {
        WrappedDifference(|consumed|, |produced|, 0);
        if nread == nwrite {
          break;
        }
        var b := GetByte();
        bytes := bytes + [b];
        i := i + 1;
      }
      sleepingWriters := {};
      return Read(bytes);
    }

    /** `pipeclose`; the page goes back to the allocator when both ends are closed. */
    method Close(writable: bool) returns (freed: bool)
      requires Valid()
      modifies this`readopen, this`writeopen, this`sleepingReaders, this`sleepingWriters
      ensures Valid()
      ensures writeopen == (old(writeopen) && !writable) && readopen == (old(readopen) && writable)
      ensures sleepingReaders == if writable then {} else old(sleepingReaders)
      ensures sleepingWriters == if writable then old(sleepingWriters) else {}
      ensures freed <==> !readopen && !writeopen
      ensures old(NoReaderOversleeps()) ==> NoReaderOversleeps()
      // nobody is left asleep on a pipe that is given up
      ensures freed && NoReaderOversleeps() ==> sleepingReaders == sleepingWriters == {}
    {
      if writable {
        writeopen := false;
        sleepingReaders := {};
      } else {
        readopen := false;
        sleepingWriters := {};
      }
      freed := !readopen && !writeopen;
    }

    /** `kill` wakes its victim wherever it sleeps. */
    method WakeKilled(pid: nat)
      requires Valid()
      modifies this`sleepingReaders, this`sleepingWriters
      ensures Valid()
      ensures sleepingReaders == old(sleepingReaders) - {pid} && sleepingWriters == old(sleepingWriters) - {pid}
      ensures old(NoReaderOversleeps()) ==> NoReaderOversleeps()
    {
      sleepingReaders, sleepingWriters := sleepingReaders - {pid}, sleepingWriters - {pid};
    }
  }

  // ---------- every interleaving ----------

  datatype Section =
    | Writing(pid: nat, killed: bool, src: seq<Byte>, start: nat)
    | Reading(pid: nat, killed: bool, n: int)
    | Closing(writable: bool)
    | Killing(pid: nat)

  /** One such run: a reader sleeps on a new pipe, and a writer that was killed puts in all bytes that fit and returns
      without waking it. */
  method ReaderLeftAsleep() returns (p: RingBuffer)
    ensures p.Valid() && !p.NoReaderOversleeps()
    ensures p.sleepingReaders != {} && p.readopen && p.writeopen && |p.produced| == PIPESIZE && p.consumed == []
  {
    p := new RingBuffer();
    var asleep := p.ReadSection(1, false, 1);
    assert p.sleepingReaders == {1} && p.InFlight() == 0;
    var r := p.WriteSection(2, true, seq(PIPESIZE + 1, _ => 0), 0);
  }

  /** No section of the script is of a killed writer, and none closes the read end. */
  predicate KeepsReading(script: seq<Section>) {
    forall i :: 0 <= i < |script| ==>
      !(script[i].Writing? && script[i].killed) && !(script[i].Closing? && !script[i].writable)
  }

  /** Runs any sequence of sections of any processes: what the readers receive, in the order they receive it, is
      always a prefix of what the writers have put in, and at most `PIPESIZE` bytes behind. Unless a writer is killed
      or the read end closed, no reader sleeps beside bytes. */
  method Interleave(p: RingBuffer, script: seq<Section>) returns (accepted: seq<Byte>, received: seq<Byte>)
    requires p.Valid() && p.produced == p.consumed == []
    requires forall i :: 0 <= i < |script| && script[i].Writing? ==> script[i].start <= |script[i].src|
    modifies p, p.data
    ensures p.Valid() && p.produced == accepted && p.consumed == received
    ensures received <= accepted && |accepted| - |received| <= PIPESIZE
    ensures old(p.NoReaderOversleeps() && p.readopen) && KeepsReading(script) ==> p.NoReaderOversleeps()
  {
    accepted, received := [], [];
    for i := 0 to |script|
      invariant p.Valid() && p.produced == accepted && p.consumed == received && p.data == old(p.data)
      invariant old(p.NoReaderOversleeps() && p.readopen) && KeepsReading(script) ==>
                p.NoReaderOversleeps() && p.readopen
    {
      match script[i]
      case Writing(pid, killed, src, start) =>
        var r := p.WriteSection(pid, killed, src, start);
        accepted := accepted + src[start..r.next];
      case Reading(pid, killed, n) =>
        var r := p.ReadSection(pid, killed, n);
        if r.Read? {
          received := received + r.bytes;
        }
      case Closing(writable) =>
        var _ := p.Close(writable);
      case Killing(pid) =>
        p.WakeKilled(pid);
    }
  }
}
