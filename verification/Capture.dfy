/**
 * The capture path: server chunks of any size go into a byte ring, reads take whole samples out. What the
 * reader hears does not depend on how the server cut its data.
 */
module Capture {
  import opened Bytes
  import opened Wrappers
  import opened Chunks
  import opened Numbers

  // ---- sizes ----

  const USIZE_MAX: nat := 0xFFFF_FFFF_FFFF_FFFF
  const MIN_PERIOD: nat := 32
  const MAX_PERIOD: nat := 65_536
  const DEFAULT_PERIOD: nat := 1024
  const MAX_PERIODS: nat := 8

  function PeriodFrames(bufferSize: Option<U32>): nat {
    var n := if bufferSize.Some? then bufferSize.value else DEFAULT_PERIOD;
    Max(MIN_PERIOD, Min(n, MAX_PERIOD))
  }

  /** Seconds that are missing, not finite or not positive fall back to two. */
  function CapacitySecs(secs: Option<real>): real {
    if secs.Some? && secs.value > 0.0 then secs.value else 2.0
  }

  function Ceil(x: real): int {
    if x.Floor as real == x then x.Floor else x.Floor + 1
  }

  function FrameSize(width: nat, channels: U16): nat {
    width * Max(channels, 1)
  }

  /** The capacity before the multiplication saturates. */
  function WantedCapacity(bufferSize: Option<U32>, secs: Option<real>, rate: U32, channels: U16, width: nat): nat {
    WantedFrames(bufferSize, secs, rate) * FrameSize(width, channels)
  }

  /** Frames for the seconds asked for, in the source's saturating arithmetic, and for eight periods at least. */
  function WantedFrames(bufferSize: Option<U32>, secs: Option<real>, rate: U32): nat {
    var frames := Ceil(rate as real * CapacitySecs(secs));
    var whole := if frames < 0 then 0 else Min(frames, USIZE_MAX);
    Max(whole, PeriodFrames(bufferSize) * MAX_PERIODS)
  }

  function RingCapacity(bufferSize: Option<U32>, secs: Option<real>, rate: U32, channels: U16, width: nat): nat {
    Min(WantedCapacity(bufferSize, secs, rate, channels, width), USIZE_MAX)
  }

  /**
   * The ring holds a whole number of samples exactly when its capacity did not saturate, or when the samples
   * are one or three bytes wide: the saturated capacity is a multiple of both.
   */
  lemma CapacityIsWholeExactly(bufferSize: Option<U32>, secs: Option<real>, rate: U32, channels: U16, width: nat)
    requires 1 <= width <= 4
    ensures RingCapacity(bufferSize, secs, rate, channels, width) % width == 0
       <==> WantedCapacity(bufferSize, secs, rate, channels, width) <= USIZE_MAX || width == 1 || width == 3
  {
    hide Ceil, CapacitySecs, PeriodFrames;
    hide WantedFrames;
    if WantedCapacity(bufferSize, secs, rate, channels, width) <= USIZE_MAX {
      var n := WantedFrames(bufferSize, secs, rate);
      Regroup(n, width, Max(channels, 1));
      MultipleOf(n * Max(channels, 1), width);
    }
  }

  /** A saturated capacity, in arithmetic at least: no machine could allocate a ring of this size. */
  lemma CapacitySaturates()
    ensures RingCapacity(None, Some(10_000_000_000_000_000_000.0), 48_000, 2, 2) == USIZE_MAX && !Multiple(USIZE_MAX, 2)
  {
    var frames := Ceil(48_000 as real * CapacitySecs(Some(10_000_000_000_000_000_000.0)));
    assert frames == 480_000_000_000_000_000_000_000;
    assert WantedCapacity(None, Some(10_000_000_000_000_000_000.0), 48_000, 2, 2) == USIZE_MAX * 4;
  }

  lemma Regroup(n: nat, w: nat, c: nat)
    ensures n * (w * c) == n * c * w
  {
  }

  /** Without saturation the ring holds the seconds asked for, two if that makes no sense, and eight periods. */
  lemma CapacityIsLeast(bufferSize: Option<U32>, secs: Option<real>, rate: U32, channels: U16, width: nat)
    requires 1 <= width <= 4 && WantedCapacity(bufferSize, secs, rate, channels, width) <= USIZE_MAX
    requires rate as real * (if secs.Some? && secs.value > 0.0 then secs.value else 2.0) <= USIZE_MAX as real
    ensures var seconds := if secs.Some? && secs.value > 0.0 then secs.value else 2.0;
            var asked := if bufferSize.Some? then bufferSize.value else 1024;
            var period := if asked < 32 then 32 else if asked > 65_536 then 65_536 else asked;
            var frames := WantedFrames(bufferSize, secs, rate);
            && RingCapacity(bufferSize, secs, rate, channels, width)
               == frames * (width * if channels == 0 then 1 else channels as int)
            && frames as real >= rate as real * seconds && frames >= 8 * period
            && (frames == 8 * period || (frames - 1) as real < rate as real * seconds)
  {
    hide WantedFrames;
    FramesAreLeast(bufferSize, secs, rate);
    ClampedPeriod(bufferSize);
    hide PeriodFrames;
  }

  lemma ClampedPeriod(bufferSize: Option<U32>)
    ensures var asked := if bufferSize.Some? then bufferSize.value else 1024;
            PeriodFrames(bufferSize) == if asked < 32 then 32 else if asked > 65_536 then 65_536 else asked
  {
  }

  lemma FramesAreLeast(bufferSize: Option<U32>, secs: Option<real>, rate: U32)
    requires rate as real * CapacitySecs(secs) <= USIZE_MAX as real
    ensures var frames := WantedFrames(bufferSize, secs, rate);
            && frames as real >= rate as real * CapacitySecs(secs) && frames >= 8 * PeriodFrames(bufferSize)
            && (frames == 8 * PeriodFrames(bufferSize) || (frames - 1) as real < rate as real * CapacitySecs(secs))
  {
    hide CapacitySecs, PeriodFrames;
    var x := rate as real * CapacitySecs(secs);
    assert x >= 0.0 by { Positive(rate, secs); }
    CeilIsLeast(x);
    hide Ceil;
  }

  lemma Positive(rate: U32, secs: Option<real>)
    ensures rate as real * CapacitySecs(secs) >= 0.0
  {
    assert CapacitySecs(secs) > 0.0;
  }

  lemma CeilIsLeast(x: real)
    requires x >= 0.0
    ensures 0 <= Ceil(x) && (Ceil(x) - 1) as real < x <= Ceil(x) as real
  {
  }

  // ---- the stream, as values ----

  datatype State = State(ring: seq<Byte>, capacity: nat, overruns: nat, received: nat)

  /** How much of a chunk finds room. */
  function Accepted(st: State, data: seq<Byte>): (n: nat)
    ensures n <= |data|
  {
    Min(|data|, if |st.ring| <= st.capacity then st.capacity - |st.ring| else 0)
  }

  /** A server chunk: what does not fit is dropped and counted once. */
  function Deliver(st: State, data: seq<Byte>): State {
    var n := Accepted(st, data);
    st.(ring := st.ring + data[..n],
        overruns := st.overruns + (if n < |data| then 1 else 0),
        received := st.received + n)
  }

  /** How many bytes a read for `wanted` samples takes. */
  function Take(st: State, wanted: nat, width: nat): (n: nat)
    requires width > 0
    ensures n <= |st.ring| && Multiple(n, width)
  {
    WholeSamples(Min(|st.ring|, wanted * width), width)
  }

  datatype Op = Chunk(data: seq<Byte>) | Read(wanted: nat)

  function Apply(st: State, op: Op, width: nat): State
    requires width > 0
  {
    match op
    case Chunk(data) => Deliver(st, data)
    case Read(wanted) => st.(ring := st.ring[Take(st, wanted, width)..])
  }

  function Run(st: State, ops: seq<Op>, width: nat): State
    requires width > 0
    decreases |ops|
  {
    if ops == [] then st else Run(Apply(st, ops[0], width), ops[1..], width)
  }

  /** Everything the reads of a run return, in order. */
  function Heard<S>(st: State, ops: seq<Op>, width: nat, dec: seq<Byte> -> S): seq<S>
    requires width > 0
    decreases |ops|
  {
    if ops == [] then []
    else
      (if ops[0].Read? then Samples(st.ring[..Take(st, ops[0].wanted, width)], width, dec) else [])
      + Heard(Apply(st, ops[0], width), ops[1..], width, dec)
  }

  /** Everything the server sent during a run, however it was cut. */
  function Sent(ops: seq<Op>): seq<Byte>
    decreases |ops|
  {
    if ops == [] then [] else (if ops[0].Chunk? then ops[0].data else []) + Sent(ops[1..])
  }

  /** A read takes all it can: another sample would be more than is wanted or more than is there. */
  lemma ReadTakesAllItCan<S>(st: State, wanted: nat, width: nat, dec: seq<Byte> -> S)
    requires width > 0
    ensures var n := Take(st, wanted, width);
            && n <= |st.ring| && n <= wanted * width && (n + width > |st.ring| || n + width > wanted * width)
            && |Samples(st.ring[..n], width, dec)| * width == n
  {
    var n := Take(st, wanted, width);
    SamplesCount(st.ring[..n], width, dec);
    var count := |Samples(st.ring[..n], width, dec)|;
    assert n == count * width by {
      assert n == n / width * width + n % width;
    }
  }

  /** How many chunks of a run find too little room, and how many bytes of all of them find some. */
  function CutChunks(st: State, ops: seq<Op>, width: nat): nat
    requires width > 0
    decreases |ops|
  {
    if ops == [] then 0
    else
      (if ops[0].Chunk? && |st.ring| + |ops[0].data| > st.capacity && ops[0].data != [] then 1 else 0)
      + CutChunks(Apply(st, ops[0], width), ops[1..], width)
  }

  function BytesAccepted(st: State, ops: seq<Op>, width: nat): nat
    requires width > 0
    decreases |ops|
  {
    if ops == [] then 0
    else
      (if ops[0].Chunk? then |Apply(st, ops[0], width).ring| - |st.ring| else 0)
      + BytesAccepted(Apply(st, ops[0], width), ops[1..], width)
  }

  /** Both counters are exact: a cut chunk counts once, however much of it is lost, and every byte kept counts. */
  lemma {:induction false} CountersAreExact(st: State, ops: seq<Op>, width: nat)
    requires width > 0 && |st.ring| <= st.capacity
    ensures Run(st, ops, width).overruns == st.overruns + CutChunks(st, ops, width)
    ensures Run(st, ops, width).received == st.received + BytesAccepted(st, ops, width)
    decreases |ops|
  {
    hide Take;
    if ops != [] {
      CountersAreExact(Apply(st, ops[0], width), ops[1..], width);
    }
  }

  // ---- chunking does not matter ----

  lemma {:induction false} OverrunsGrow(st: State, ops: seq<Op>, width: nat)
    requires width > 0
    ensures Run(st, ops, width).overruns >= st.overruns
    decreases |ops|
  {
    if ops != [] {
      OverrunsGrow(Apply(st, ops[0], width), ops[1..], width);
    }
  }

  /** The same with bytes still to come: reading them later or all at once gives the same samples. */
  lemma {:induction false} HeardThenComing<S>(st: State, ops: seq<Op>, coming: seq<Byte>, width: nat,
                                              dec: seq<Byte> -> S)
    requires width > 0 && Run(st, ops, width).overruns == st.overruns
    ensures Samples(st.ring + (Sent(ops) + coming), width, dec)
         == Heard(st, ops, width, dec) + Samples(Run(st, ops, width).ring + coming, width, dec)
    decreases |ops|
  {
    hide Samples, Take;
    if ops == [] {
      assert Sent(ops) + coming == coming;
    } else {
      var next, rest := Apply(st, ops[0], width), ops[1..];
      OverrunsGrow(next, rest, width);
      HeardThenComing(next, rest, coming, width, dec);
      if ops[0].Chunk? {
        ChunkKept(st, ops[0].data, Sent(rest) + coming);
        Assoc(ops[0].data, Sent(rest), coming);
        assert [] + Heard(next, rest, width, dec) == Heard(next, rest, width, dec);
      } else {
        ReadSplits(st, ops[0].wanted, Sent(rest) + coming, width, dec);
        assert [] + Sent(rest) == Sent(rest);
        Assoc(Samples(st.ring[..Take(st, ops[0].wanted, width)], width, dec), Heard(next, rest, width, dec),
              Samples(Run(next, rest, width).ring + coming, width, dec));
      }
    }
  }

  /**
   * Whatever the chunks and whatever the reads, as long as nothing overran: the samples heard, then those
   * still in the ring, are the samples of everything that came in, read as one string of bytes. No popped
   * sample is lost and none is ever put together from the wrong bytes.
   */
  lemma HeardThenQueued<S>(st: State, ops: seq<Op>, width: nat, dec: seq<Byte> -> S)
    requires width > 0 && Run(st, ops, width).overruns == st.overruns
    ensures Samples(st.ring + Sent(ops), width, dec)
         == Heard(st, ops, width, dec) + Samples(Run(st, ops, width).ring, width, dec)
  {
    HeardThenComing(st, ops, [], width, dec);
    assert Sent(ops) + [] == Sent(ops) && Run(st, ops, width).ring + [] == Run(st, ops, width).ring;
  }

  lemma ChunkKept(st: State, data: seq<Byte>, later: seq<Byte>)
    requires Deliver(st, data).overruns == st.overruns
    ensures st.ring + (data + later) == Deliver(st, data).ring + later
  {
    assert data[..|data|] == data;
  }

  lemma ReadSplits<S>(st: State, wanted: nat, later: seq<Byte>, width: nat, dec: seq<Byte> -> S)
    requires width > 0
    ensures var n := Take(st, wanted, width);
            Samples(st.ring + later, width, dec)
            == Samples(st.ring[..n], width, dec) + Samples(st.ring[n..] + later, width, dec)
  {
    var n := Take(st, wanted, width);
    assert st.ring + later == st.ring[..n] + (st.ring[n..] + later);
    SamplesSplit(st.ring[..n], st.ring[n..] + later, width, dec);
  }

  /** Two ways of cutting and reading the same data hear the same samples, one perhaps further than the other. */
  lemma ChunkingIsInaudible<S>(capacity: nat, a: seq<Op>, b: seq<Op>, width: nat, dec: seq<Byte> -> S)
    requires width > 0 && Sent(a) == Sent(b)
    requires Run(State([], capacity, 0, 0), a, width).overruns == 0
    requires Run(State([], capacity, 0, 0), b, width).overruns == 0
    ensures var st := State([], capacity, 0, 0);
            Heard(st, a, width, dec) <= Heard(st, b, width, dec) || Heard(st, b, width, dec) <= Heard(st, a, width, dec)
  {
    var st := State([], capacity, 0, 0);
    HeardThenQueued(st, a, width, dec);
    HeardThenQueued(st, b, width, dec);
    var all, x, y := Samples(st.ring + Sent(a), width, dec), Heard(st, a, width, dec), Heard(st, b, width, dec);
    assert x == all[..|x|] && y == all[..|y|];
  }

  // ---- what an overrun costs ----

  /** What was accepted and is no longer in the ring was taken out in whole samples. */
  predicate Aligned(st: State, width: nat)
    requires width > 0
  {
    |st.ring| <= st.capacity && |st.ring| <= st.received && Multiple(st.received - |st.ring|, width)
  }

  lemma ApplyAligned(st: State, op: Op, width: nat)
    requires width > 0 && Aligned(st, width)
    ensures Aligned(Apply(st, op, width), width)
  {
    hide Take;
    if op.Read? {
      AddMultiple(st.received - |st.ring|, Take(st, op.wanted, width), width);
    }
  }

  lemma {:induction false} RunAligned(st: State, ops: seq<Op>, width: nat)
    requires width > 0 && Aligned(st, width)
    ensures Aligned(Run(st, ops, width), width) && Run(st, ops, width).capacity == st.capacity
    decreases |ops|
  {
    if ops != [] {
      ApplyAligned(st, ops[0], width);
      RunAligned(Apply(st, ops[0], width), ops[1..], width);
    }
  }

  /**
   * Over any run, whenever a chunk is cut short, everything accepted so far adds up to whole samples: what is
   * accepted later starts a sample of its own. That this is also one of the server's samples does not follow.
   */
  lemma TruncationIsWhole(capacity: nat, ops: seq<Op>, data: seq<Byte>, width: nat)
    requires width > 0 && Multiple(capacity, width)
    ensures var st := Run(State([], capacity, 0, 0), ops, width);
            var after := Deliver(st, data);
            after.overruns > st.overruns ==> Multiple(after.received, width)
  {
    var st := Run(State([], capacity, 0, 0), ops, width);
    assert 0 % width == 0 by {
      RemainderIs(0, 0, width, 0);
    }
    RunAligned(State([], capacity, 0, 0), ops, width);
    var after := Deliver(st, data);
    if after.overruns > st.overruns {
      AddMultiple(st.received - |st.ring|, capacity, width);
    }
  }

  /** One stretch of a list, maybe empty, left out and nothing else changed. */
  ghost predicate Spliced<T>(all: seq<T>, part: seq<T>) {
    exists i, j :: 0 <= i <= j <= |all| && part == all[..i] + all[j..]
  }

  /** Samples as their bytes. */
  function Raw(bytes: seq<Byte>): seq<Byte> {
    bytes
  }

  function Empty(capacity: nat): State {
    State([], capacity, 0, 0)
  }

  /** Everything heard, or waiting to be, when a chunk comes between two runs. */
  function HeardAround(capacity: nat, ops: seq<Op>, data: seq<Byte>, more: seq<Op>, width: nat): seq<seq<Byte>>
    requires width > 0
  {
    var after := Deliver(Run(Empty(capacity), ops, width), data);
    Heard(Empty(capacity), ops, width, Raw)
    + (Heard(after, more, width, Raw) + Samples(Run(after, more, width).ring, width, Raw))
  }

  /** With one chunk cut, the samples are those of the bytes accepted, joined over the gap. */
  lemma JoinedOverTheGap(capacity: nat, ops: seq<Op>, data: seq<Byte>, more: seq<Op>, width: nat)
    requires width > 0 && Run(Empty(capacity), ops, width).overruns == 0
    requires var after := Deliver(Run(Empty(capacity), ops, width), data);
             Run(after, more, width).overruns == after.overruns
    ensures HeardAround(capacity, ops, data, more, width)
         == Samples(Sent(ops) + data[..Accepted(Run(Empty(capacity), ops, width), data)] + Sent(more), width, Raw)
  {
    hide Samples, Run, Sent, Heard;
    var st := Run(Empty(capacity), ops, width);
    var after, kept := Deliver(st, data), data[..Accepted(st, data)];
    HeardThenComing(Empty(capacity), ops, kept + Sent(more), width, Raw);
    HeardThenQueued(after, more, width, Raw);
    assert [] + (Sent(ops) + (kept + Sent(more))) == Sent(ops) + kept + Sent(more);
    Assoc(st.ring, kept, Sent(more));
  }

  lemma {:induction false} AllReceived(st: State, ops: seq<Op>, width: nat)
    requires width > 0 && Run(st, ops, width).overruns == st.overruns
    ensures Run(st, ops, width).received == st.received + |Sent(ops)|
    decreases |ops|
  {
    hide Take;
    if ops != [] {
      OverrunsGrow(Apply(st, ops[0], width), ops[1..], width);
      AllReceived(Apply(st, ops[0], width), ops[1..], width);
    }
  }

  /** Whole samples dropped: what is heard is the rest. */
  lemma WholeGap(kept: seq<Byte>, dropped: seq<Byte>, later: seq<Byte>, width: nat)
    requires width > 0 && Multiple(|kept|, width) && Multiple(|dropped|, width)
    ensures Spliced(Samples(kept + dropped + later, width, Raw), Samples(kept + later, width, Raw))
  {
    var a, b, c := Samples(kept, width, Raw), Samples(dropped, width, Raw), Samples(later, width, Raw);
    SamplesSplit(kept, later, width, Raw);
    SamplesSplit(kept, dropped + later, width, Raw);
    SamplesSplit(dropped, later, width, Raw);
    Assoc(kept, dropped, later);
    hide Samples, Multiple;
    var all := a + (b + c);
    assert all[..|a|] == a && all[|a| + |b|..] == c;
  }

  /** A byte that is neither of two. */
  function Other(a: Byte, b: Byte): (r: Byte)
    ensures r != a && r != b
  {
    if a != 0 && b != 0 then 0 else if a != 1 && b != 1 then 1 else 2
  }

  /** A sample that tells a broken gap: one of a byte that neither starts the gap nor what is left over of it. */
  function Telltale(dropped: seq<Byte>, width: nat): (r: seq<Byte>)
    requires width > 0 && !Multiple(|dropped|, width)
    ensures |r| == width
  {
    var left := |dropped| % width;
    seq(width, _ => Other(dropped[0], dropped[|dropped| - left]))
  }

  /** Part of a sample dropped: what comes next is put together from halves. */
  lemma BrokenGap(kept: seq<Byte>, dropped: seq<Byte>, width: nat)
    requires width > 0 && Multiple(|kept|, width) && !Multiple(|dropped|, width)
    ensures var later := Telltale(dropped, width);
            !Spliced(Samples(kept + dropped + later, width, Raw), Samples(kept + later, width, Raw))
  {
    hide Samples, Spliced, Multiple;
    var later, whole := Telltale(dropped, width), |dropped| - |dropped| % width;
    LeftOver(dropped, width);
    var head, left := dropped[..whole], dropped[whole..];
    assert head + left == dropped;
    var a, b, last := Samples(kept, width, Raw), Samples(head, width, Raw), (left + later)[..width];
    GapSamples(kept, head, left, later, width);
    assert last[0] == left[0] == dropped[whole] != later[0];
    if b != [] {
      FirstSample(head, width);
      assert b[0][0] == head[0] == dropped[0] != later[0];
    }
    NotSpliced(a, b, last, later);
  }

  lemma FirstSample(bytes: seq<Byte>, width: nat)
    requires width > 0 && Samples(bytes, width, Raw) != []
    ensures |bytes| >= width && Samples(bytes, width, Raw)[0] == bytes[..width]
  {
  }

  lemma LeftOver(dropped: seq<Byte>, width: nat)
    requires width > 0 && !Multiple(|dropped|, width)
    ensures var whole := |dropped| - |dropped| % width; 0 <= whole < |dropped| < whole + width && Multiple(whole, width)
  {
    assert WholeSamples(|dropped|, width) == |dropped| - |dropped| % width;
  }

  lemma GapSamples(kept: seq<Byte>, head: seq<Byte>, left: seq<Byte>, later: seq<Byte>, width: nat)
    requires width > 0 && Multiple(|kept|, width) && Multiple(|head|, width) && |left| < width == |later|
    ensures Samples(kept + later, width, Raw) == Samples(kept, width, Raw) + [later]
    ensures Samples(kept + (head + left) + later, width, Raw)
         == Samples(kept, width, Raw) + (Samples(head, width, Raw) + [(left + later)[..width]])
  {
    OneSample(later, width);
    OneSample(left + later, width);
    assert later[..width] == later;
    hide Samples, Multiple;
    SamplesSplit(kept, later, width, Raw);
    SamplesSplit(kept, head + (left + later), width, Raw);
    SamplesSplit(head, left + later, width, Raw);
    assert kept + (head + left) + later == kept + (head + (left + later));
  }

  lemma OneSample(bytes: seq<Byte>, width: nat)
    requires 0 < width <= |bytes| < 2 * width
    ensures Samples(bytes, width, Raw) == [bytes[..width]]
  {
    assert Samples(bytes[width..], width, Raw) == [];
  }

  lemma NotSpliced<T>(a: seq<T>, b: seq<T>, last: T, heard: T)
    requires last != heard && (b != [] ==> b[0] != heard)
    ensures !Spliced(a + (b + [last]), a + [heard])
  {
    var all, part := a + (b + [last]), a + [heard];
    forall i, j | 0 <= i <= j <= |all|
      ensures part != all[..i] + all[j..]
    {
      var cut := all[..i] + all[j..];
      if j < |all| {
        assert cut[|cut| - 1] == all[|all| - 1] == last;
      } else {
        assert cut == all[..i];
        assert all[|a|] == (b + [last])[0];
      }
      assert part[|part| - 1] == heard;
    }
  }

  /** After the cut: read everything, then take one more sample from the server. */
  lemma ReadAllThenOne(after: State, sample: seq<Byte>, width: nat)
    requires width > 0 && |after.ring| == after.capacity && Multiple(after.capacity, width)
    requires |sample| == width <= after.capacity
    ensures var more := [Op.Read(after.capacity), Chunk(sample)];
            Run(after, more, width).overruns == after.overruns && Sent(more) == sample
  {
    var more := [Op.Read(after.capacity), Chunk(sample)];
    TakesAll(after, width);
    RunTwo(after, more[0], more[1], width);
    hide Take, Run;
    assert Apply(after, more[0], width).ring == [];
  }

  lemma TakesAll(st: State, width: nat)
    requires width > 0 && Multiple(|st.ring|, width)
    ensures Take(st, |st.ring|, width) == |st.ring|
  {
    ScaledAtLeast(|st.ring|, width);
  }

  lemma ScaledAtLeast(n: nat, w: nat)
    requires w > 0
    ensures n * w >= n
  {
  }

  /** Unless another chunk is cut, what is heard is the server's samples with one stretch of them left out. */
  ghost predicate HeardAsSent(capacity: nat, ops: seq<Op>, data: seq<Byte>, more: seq<Op>, width: nat)
    requires width > 0
  {
    var after := Deliver(Run(Empty(capacity), ops, width), data);
    Run(after, more, width).overruns == after.overruns ==>
      Spliced(Samples(Sent(ops) + data + Sent(more), width, Raw), HeardAround(capacity, ops, data, more, width))
  }

  /**
   * What an overrun really costs. After the first chunk that is cut short, whatever follows is heard as the
   * server's samples with one stretch of them left out if and only if the bytes dropped add up to whole
   * samples; otherwise later samples are put together from halves of two of the server's.
   */
  lemma CutIsWholeExactly(capacity: nat, ops: seq<Op>, data: seq<Byte>, width: nat)
    requires 0 < width && 0 < capacity && Multiple(capacity, width)
    requires var st := Run(Empty(capacity), ops, width); st.overruns == 0 && Accepted(st, data) < |data|
    ensures (forall more: seq<Op> :: HeardAsSent(capacity, ops, data, more, width))
       <==> Multiple(|data| - Accepted(Run(Empty(capacity), ops, width), data), width)
  {
    hide Run, HeardAsSent, Multiple;
    var dropped := data[Accepted(Run(Empty(capacity), ops, width), data)..];
    if Multiple(|dropped|, width) {
      forall more: seq<Op>
        ensures HeardAsSent(capacity, ops, data, more, width)
      {
        WholeCut(capacity, ops, data, more, width);
      }
    } else {
      var more := BrokenCut(capacity, ops, data, width);
      assert !HeardAsSent(capacity, ops, data, more, width);
    }
  }

  lemma WholeCut(capacity: nat, ops: seq<Op>, data: seq<Byte>, more: seq<Op>, width: nat)
    requires 0 < width && 0 < capacity && Multiple(capacity, width)
    requires var st := Run(Empty(capacity), ops, width); st.overruns == 0 && Accepted(st, data) < |data|
    requires Multiple(|data[Accepted(Run(Empty(capacity), ops, width), data)..]|, width)
    ensures HeardAsSent(capacity, ops, data, more, width)
  {
    hide Samples, Run, Sent, Heard, Spliced, HeardAround, Multiple;
    var st := Run(Empty(capacity), ops, width);
    var n, after := Accepted(st, data), Deliver(st, data);
    CutState(capacity, ops, data, width);
    if Run(after, more, width).overruns == after.overruns {
      JoinedOverTheGap(capacity, ops, data, more, width);
      WholeGap(Sent(ops) + data[..n], data[n..], Sent(more), width);
      assert Sent(ops) + data == Sent(ops) + data[..n] + data[n..];
    }
  }

  lemma BrokenCut(capacity: nat, ops: seq<Op>, data: seq<Byte>, width: nat) returns (more: seq<Op>)
    requires 0 < width && 0 < capacity && Multiple(capacity, width)
    requires var st := Run(Empty(capacity), ops, width); st.overruns == 0 && Accepted(st, data) < |data|
    requires !Multiple(|data[Accepted(Run(Empty(capacity), ops, width), data)..]|, width)
    ensures !HeardAsSent(capacity, ops, data, more, width)
  {
    hide Samples, Run, Sent, Heard, Spliced, HeardAround, Multiple, Telltale;
    var st := Run(Empty(capacity), ops, width);
    var n, after := Accepted(st, data), Deliver(st, data);
    var sample := Telltale(data[n..], width);
    more := [Op.Read(after.capacity), Chunk(sample)];
    CutState(capacity, ops, data, width);
    ReadAllThenOne(after, sample, width);
    JoinedOverTheGap(capacity, ops, data, more, width);
    BrokenGap(Sent(ops) + data[..n], data[n..], width);
    assert Sent(ops) + data == Sent(ops) + data[..n] + data[n..];
  }

  /** A chunk is cut only by a full ring, and then everything accepted is whole. */
  lemma CutState(capacity: nat, ops: seq<Op>, data: seq<Byte>, width: nat)
    requires 0 < width && 0 < capacity && Multiple(capacity, width)
    requires var st := Run(Empty(capacity), ops, width); st.overruns == 0 && Accepted(st, data) < |data|
    ensures var st := Run(Empty(capacity), ops, width);
            var after := Deliver(st, data);
            && |after.ring| == after.capacity == capacity && width <= capacity
            && Multiple(|Sent(ops) + data[..Accepted(st, data)]|, width)
  {
    TruncationIsWhole(capacity, ops, data, width);
    AllReceived(Empty(capacity), ops, width);
    assert 0 % width == 0 by {
      RemainderIs(0, 0, width, 0);
    }
    RunAligned(Empty(capacity), ops, width);
    if capacity < width {
      ShortMultiple(capacity, width);
    }
  }

  /** The smallest case: two-byte samples 1 2 and 3 4 and half of the next, cut after the third byte. */
  lemma CutThroughASample()
    ensures var more := [Op.Read(2), Chunk([4, 5])];
            && Samples([1, 2, 3] + Sent(more), 2, Raw) == [[1, 2], [3, 4]]
            && HeardAround(2, [], [1, 2, 3], more, 2) == [[1, 2], [4, 5]]
  {
    hide Run, Sent, HeardAround, Samples, Deliver;
    var more := [Op.Read(2), Chunk([4, 5])];
    CutOfThree();
    ReadAllThenOne(Deliver(Empty(2), [1, 2, 3]), [4, 5], 2);
    JoinedOverTheGap(2, [], [1, 2, 3], more, 2);
    assert [] + [1, 2, 3][..2] + [4, 5] == [1, 2] + [4, 5];
    GapSamples([1, 2], [], [3], [4, 5], 2);
    assert [1, 2] + ([] + [3]) + [4, 5] == [1, 2, 3] + [4, 5];
    OneSample([1, 2], 2);
    NoSample(2);
    assert [1, 2][..2] == [1, 2] && ([3] + [4, 5])[..2] == [3, 4];
  }

  lemma CutOfThree()
    ensures Run(Empty(2), [], 2) == Empty(2) && Sent([]) == []
    ensures Deliver(Empty(2), [1, 2, 3]) == State([1, 2], 2, 1, 2)
  {
    assert [] + [1, 2, 3][..2] == [1, 2];
  }

  lemma NoSample(width: nat)
    requires width > 0
    ensures Samples([], width, Raw) == []
  {
  }

  lemma RunTwo(st: State, a: Op, b: Op, width: nat)
    requires width > 0 && a.Read? && b.Chunk?
    ensures Run(st, [a, b], width) == Apply(Apply(st, a, width), b, width)
    ensures Heard(st, [a, b], width, Raw) == Samples(st.ring[..Take(st, a.wanted, width)], width, Raw)
    ensures Sent([a, b]) == b.data
  {
    hide Apply, Take, Samples;
    assert [a, b][1..] == [b] && [b][1..] == [];
    var last := Apply(Apply(st, a, width), b, width);
    assert Run(last, [], width) == last && Heard(last, [], width, Raw) == [] && Sent([]) == [];
    assert Run(Apply(st, a, width), [b], width) == last && Heard(Apply(st, a, width), [b], width, Raw) == [];
    assert Sent([b]) == b.data;
  }

  // ---- the stream, as it runs ----

  datatype ReadResult = Gone | Count(samples: nat)

  class Stream<S> {
    const width: nat
    const capacity: nat
    const dec: seq<Byte> -> S
    var ring: seq<Byte>
    var overruns: nat
    var received: nat
    var disconnected: bool

    function View(): State
      reads this
    {
      State(ring, capacity, overruns, received)
    }

    constructor (width: nat, capacity: nat, dec: seq<Byte> -> S)
      requires width > 0
      ensures View() == State([], capacity, 0, 0) && this.width == width && this.dec == dec && !disconnected
    {
      this.width, this.capacity, this.dec := width, capacity, dec;
      ring, overruns, received, disconnected := [], 0, 0, false;
    }

    method Write(data: seq<Byte>)
      requires |ring| <= capacity
      modifies this`ring, this`overruns, this`received
      ensures View() == Deliver(old(View()), data) && |ring| <= capacity
    {
      var n := Min(|data|, capacity - |ring|);
      ring := ring + data[..n];
      if n < |data| {
        overruns := overruns + 1;
      }
      received := received + n;
    }

    /** Fills the front of the output with the samples popped and leaves the rest of it alone. */
    method Read(out: array<S>) returns (r: ReadResult)
      requires width > 0
      modifies this`ring, out
      ensures disconnected ==> r.Gone? && View() == old(View()) && out[..] == old(out[..])
      ensures !disconnected ==>
                var heard := Samples(old(ring)[..Take(old(View()), out.Length, width)], width, dec);
                && View() == Apply(old(View()), Op.Read(out.Length), width)
                && r == Count(|heard|) && |heard| <= out.Length
                && out[..] == heard + old(out[..])[|heard|..]
    {
      if disconnected {
        return Gone;
      }
      ghost var st := View();
      var take := WholeSamples(Min(|ring|, out.Length * width), width);
      assert take == Take(st, out.Length, width);
      var scratch := ring[..take];
      ring := ring[take..];
      HeardFits(st, out.Length, width, dec);
      var count := DecodeInto(scratch, width, dec, out);
      r := Count(count);
    }
  }

  /** A read never takes more samples than its output holds. */
  lemma HeardFits<S>(st: State, wanted: nat, width: nat, dec: seq<Byte> -> S)
    requires width > 0
    ensures |Samples(st.ring[..Take(st, wanted, width)], width, dec)| <= wanted
  {
    var heard := Samples(st.ring[..Take(st, wanted, width)], width, dec);
    SamplesCount(st.ring[..Take(st, wanted, width)], width, dec);
    if |heard| > wanted {
      ScaledLess(wanted, |heard|, width);
    }
  }
}
