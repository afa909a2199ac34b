/**
 * The drift-compensating resampler: a smoothed clock ratio, a fractional phase carried between calls and
 * linear interpolation between two bounded rings of interleaved samples, in exact arithmetic.
 */
module Resampler {
  import opened Numbers

  const ALPHA: real := 0.05
  const RATIO_MIN: real := 0.5
  const RATIO_MAX: real := 2.0

  function ClampRatio(x: real): real {
    if x < RATIO_MIN then RATIO_MIN else if x > RATIO_MAX then RATIO_MAX else x
  }

  /** The smoothed ratio after one measurement; none is taken before the first input frame. */
  function Smoothed(ema: real, inFrames: nat, outFrames: nat): real {
    if inFrames == 0 then ema
    else (1.0 - ALPHA) * ema + ALPHA * ClampRatio(outFrames as real / inFrames as real)
  }

  lemma SmoothedStaysBounded(ema: real, inFrames: nat, outFrames: nat)
    requires RATIO_MIN <= ema <= RATIO_MAX
    ensures RATIO_MIN <= Smoothed(ema, inFrames, outFrames) <= RATIO_MAX
  {
  }

  /** How far one output frame moves through the input. */
  function StepOf(ema: real): real
    requires ema > 0.0
  {
    1.0 / ema
  }

  /** Output frames one call makes: as many as the input reaches, and no more than there is room for. */
  function Planned(available: nat, room: nat, phase: real, step: real): nat
    requires 0.0 <= phase < 1.0 && step > 0.0
  {
    if available == 0 || room == 0 then 0
    else
      FloorNonNegative((available as real - phase) / step, available as real - phase, step);
      Min(((available as real - phase) / step).Floor, room)
  }

  lemma FloorNonNegative(q: real, num: real, den: real)
    requires num >= 0.0 && den > 0.0 && q == num / den
    ensures q >= 0.0 && q.Floor >= 0
  {
  }

  /** Where the next call would read: the position after the last output frame. */
  function Final(phase: real, frames: nat, step: real): real {
    phase + frames as real * step
  }

  /** Input frames one call takes: up to the final position and one more to interpolate with. */
  function Needed(available: nat, phase: real, frames: nat, step: real): nat
    requires 0.0 <= phase && step > 0.0
  {
    FinalNonNegative(phase, frames, step);
    Min(Final(phase, frames, step).Floor + 1, available)
  }

  lemma FinalNonNegative(phase: real, frames: nat, step: real)
    requires 0.0 <= phase && step > 0.0
    ensures Final(phase, frames, step) >= phase
  {
  }

  function Fract(x: real): real {
    x - x.Floor as real
  }

  // ---- reading stays inside what was popped ----

  lemma ProductMonotone(a: real, b: real, k: real)
    requires a <= b && k >= 0.0
    ensures a * k <= b * k
  {
  }

  /** The planned frames never reach past the available input. */
  lemma FinalWithinAvailable(available: nat, room: nat, phase: real, step: real)
    requires 0.0 <= phase < 1.0 && step > 0.0 && available > 0
    ensures Final(phase, Planned(available, room, phase, step), step) <= available as real
  {
    if room > 0 {
      var q := (available as real - phase) / step;
      FloorNonNegative(q, available as real - phase, step);
      ProductMonotone(Planned(available, room, phase, step) as real, q, step);
      assert q * step == available as real - phase;
    }
  }

  /** Frame `k` of a call reads a whole frame at the front of what the call pops. */
  lemma ReadsInside(available: nat, room: nat, phase: real, step: real, k: nat)
    requires 0.0 <= phase < 1.0 && step > 0.0 && available > 0
    requires k < Planned(available, room, phase, step)
    ensures var frames := Planned(available, room, phase, step);
            0 <= Final(phase, k, step).Floor < Needed(available, phase, frames, step)
  {
    var frames := Planned(available, room, phase, step);
    FinalWithinAvailable(available, room, phase, step);
    FinalNonNegative(phase, k, step);
    hide Planned;
    FinalGrows(phase, k, frames, step);
    hide Final;
    FloorBelow(Final(phase, k, step), Final(phase, frames, step), available);
  }

  lemma {:induction false} FinalGrows(phase: real, k: nat, n: nat, step: real)
    requires k < n && step > 0.0
    ensures Final(phase, k, step) < Final(phase, n, step)
    decreases n
  {
    NextPosition(phase, n - 1, step);
    if k < n - 1 {
      FinalGrows(phase, k, n - 1, step);
    }
  }

  lemma NextPosition(phase: real, k: nat, step: real)
    ensures Final(phase, k + 1, step) == Final(phase, k, step) + step
  {
    assert (k + 1) as real * step == k as real * step + step;
  }

  lemma FloorBelow(x: real, y: real, n: nat)
    requires x < y <= n as real
    ensures x.Floor <= y.Floor && x.Floor < n
  {
  }

  /** A productive call pops at least one frame. */
  lemma FirstFramePops(available: nat, room: nat, phase: real, step: real)
    requires 0.0 <= phase < 1.0 && step > 0.0 && available > 0 && Planned(available, room, phase, step) > 0
    ensures 0 < Needed(available, phase, Planned(available, room, phase, step), step) <= available
    ensures Planned(available, room, phase, step) <= room
  {
    ReadsInside(available, room, phase, step, 0);
  }

  // ---- interpolation ----

  /** Between two samples, a fraction of the way. */
  function Lerp(s0: real, s1: real, frac: real): real {
    s0 + (s1 - s0) * frac
  }

  predicate Within(x: real, a: real, b: real) {
    (a <= x <= b) || (b <= x <= a)
  }

  lemma LerpWithin(s0: real, s1: real, frac: real)
    requires 0.0 <= frac <= 1.0
    ensures Within(Lerp(s0, s1, frac), s0, s1)
    decreases s0 > s1
  {
    if s0 <= s1 {
      var d := s1 - s0;
      ProductMonotone(0.0, frac, d);
      ProductMonotone(frac, 1.0, d);
      assert 0.0 <= d * frac <= d;
    } else {
      assert Lerp(s0, s1, frac) == Lerp(s1, s0, 1.0 - frac);
      LerpWithin(s1, s0, 1.0 - frac);
    }
  }

  /** The two input frames an output frame lies between: the last one stands in for a missing next. */
  function NextFrame(index: nat, popped: nat): nat
    requires popped > 0
  {
    Min(index + 1, popped - 1)
  }

  /** The input channel an output channel plays: repeated or left out where the counts differ. */
  function SourceChannel(c: nat, inCh: nat): nat
    requires inCh > 0
  {
    Min(c, inCh - 1)
  }

  /** Reading past the popped samples gives silence; no call ever does. */
  function SampleAt(buf: seq<real>, i: int): real {
    if 0 <= i < |buf| then buf[i] else 0.0
  }

  /** Channel `c` of the output frame read at position `x` of `popped` input frames. */
  function ValueAt(buf: seq<real>, popped: nat, inCh: nat, x: real, c: nat): real
    requires inCh > 0 && popped > 0 && x >= 0.0
  {
    var i0 := x.Floor;
    var i1, ch := NextFrame(i0, popped), SourceChannel(c, inCh);
    Lerp(SampleAt(buf, i0 * inCh + ch), SampleAt(buf, i1 * inCh + ch), Fract(x))
  }

  /**
   * Every value of a call lies between two samples of its own channel among those popped: the silent fallback
   * is never read.
   */
  lemma ValueInterpolates(buf: seq<real>, popped: nat, inCh: nat, x: real, c: nat)
    requires inCh > 0 && |buf| == popped * inCh && 0.0 <= x && x.Floor < popped
    ensures var i0, ch := x.Floor, SourceChannel(c, inCh);
            var i1 := NextFrame(i0, popped);
            && i0 * inCh + ch < |buf| && i1 * inCh + ch < |buf|
            && Within(ValueAt(buf, popped, inCh, x, c), buf[i0 * inCh + ch], buf[i1 * inCh + ch])
  {
    var i0 := x.Floor;
    ScaledLess(i0, popped, inCh);
    ScaledLess(NextFrame(i0, popped), popped, inCh);
    var ch := SourceChannel(c, inCh);
    LerpWithin(SampleAt(buf, i0 * inCh + ch), SampleAt(buf, NextFrame(i0, popped) * inCh + ch), Fract(x));
    assert i0 * inCh >= 0 && NextFrame(i0, popped) * inCh >= 0;
  }

  function FrameAt(buf: seq<real>, popped: nat, inCh: nat, outCh: nat, x: real): (r: seq<real>)
    requires inCh > 0 && popped > 0 && x >= 0.0
    ensures |r| == outCh
  {
    seq(outCh, c requires 0 <= c < outCh => ValueAt(buf, popped, inCh, x, c))
  }

  /** The first `n` output frames of a call, interleaved. */
  function Frames(buf: seq<real>, popped: nat, inCh: nat, outCh: nat, phase: real, step: real, n: nat): (r: seq<real>)
    requires inCh > 0 && popped > 0 && phase >= 0.0 && step > 0.0
    ensures |r| == n * outCh
  {
    if n == 0 then []
    else
      FinalNonNegative(phase, n - 1, step);
      assert (n - 1) * outCh + outCh == n * outCh;
      Frames(buf, popped, inCh, outCh, phase, step, n - 1)
      + FrameAt(buf, popped, inCh, outCh, Final(phase, n - 1, step))
  }

  // ---- one call ----

  datatype Call = Call(available: nat, room: nat, step: real)

  predicate CallOk(call: Call) {
    call.step > 0.0
  }

  function Made(phase: real, call: Call): nat
    requires 0.0 <= phase < 1.0 && CallOk(call)
  {
    Planned(call.available, call.room, phase, call.step)
  }

  function Popped(phase: real, call: Call): nat
    requires 0.0 <= phase < 1.0 && CallOk(call)
  {
    if Made(phase, call) == 0 then 0 else Needed(call.available, phase, Made(phase, call), call.step)
  }

  function NextPhase(phase: real, call: Call): (next: real)
    requires 0.0 <= phase < 1.0 && CallOk(call)
    ensures 0.0 <= next < 1.0
  {
    if Made(phase, call) == 0 then phase else Fract(Final(phase, Made(phase, call), call.step))
  }

  /** Frames popped minus input played in one call. */
  function CallImbalance(phase: real, call: Call): real
    requires 0.0 <= phase < 1.0 && CallOk(call)
  {
    Popped(phase, call) as real - Made(phase, call) as real * call.step
  }

  /**
   * Input taken, minus input played: nothing or one lookahead frame, and the change of phase. The lookahead frame
   * is lost unless the call made nothing or its phase ended on the frame after the last one available.
   */
  lemma CallBalance(phase: real, call: Call)
    requires 0.0 <= phase < 1.0 && CallOk(call)
    ensures var off := CallImbalance(phase, call) - phase + NextPhase(phase, call);
            && (off == 0.0 || (off == 1.0 && Made(phase, call) > 0))
            && (off == 0.0
                <==> Made(phase, call) == 0 || Final(phase, Made(phase, call), call.step).Floor == call.available)
  {
    if Made(phase, call) > 0 {
      FinalWithinAvailable(call.available, call.room, phase, call.step);
      FinalNonNegative(phase, Made(phase, call), call.step);
    }
  }

  /**
   * A call never overfills the output, and every value it makes lies between two samples of one channel among
   * the frames it pops.
   */
  lemma CallInterpolates(phase: real, call: Call, buf: seq<real>, inCh: nat, k: nat, c: nat)
    requires 0.0 <= phase < 1.0 && CallOk(call) && inCh > 0 && k < Made(phase, call)
    requires |buf| == Popped(phase, call) * inCh
    ensures Made(phase, call) <= call.room && 0 < Popped(phase, call) <= call.available
    ensures var x := Final(phase, k, call.step);
            var i0, ch := x.Floor, SourceChannel(c, inCh);
            && 0 <= i0 < Popped(phase, call)
            && var i1 := NextFrame(i0, Popped(phase, call));
            && i0 * inCh + ch < |buf| && i1 * inCh + ch < |buf|
            && Within(ValueAt(buf, Popped(phase, call), inCh, x, c), buf[i0 * inCh + ch], buf[i1 * inCh + ch])
  {
    FirstFramePops(call.available, call.room, phase, call.step);
    ReadsInside(call.available, call.room, phase, call.step, k);
    FinalNonNegative(phase, k, call.step);
    hide Final, ValueAt, Made;
    ValueInterpolates(buf, Popped(phase, call), inCh, Final(phase, k, call.step), c);
  }

  // ---- whole runs ----

  function FinalPhase(phase: real, calls: seq<Call>): (r: real)
    requires 0.0 <= phase < 1.0 && forall i :: 0 <= i < |calls| ==> CallOk(calls[i])
    ensures 0.0 <= r < 1.0
    decreases |calls|
  {
    if calls == [] then phase else FinalPhase(NextPhase(phase, calls[0]), calls[1..])
  }

  /** Frames popped minus input played over a run. */
  function Imbalance(phase: real, calls: seq<Call>): real
    requires 0.0 <= phase < 1.0 && forall i :: 0 <= i < |calls| ==> CallOk(calls[i])
    decreases |calls|
  {
    if calls == [] then 0.0
    else
      CallImbalance(phase, calls[0]) + Imbalance(NextPhase(phase, calls[0]), calls[1..])
  }

  function Productive(phase: real, calls: seq<Call>): nat
    requires 0.0 <= phase < 1.0 && forall i :: 0 <= i < |calls| ==> CallOk(calls[i])
    decreases |calls|
  {
    if calls == [] then 0
    else (if Made(phase, calls[0]) > 0 then 1 else 0) + Productive(NextPhase(phase, calls[0]), calls[1..])
  }

  lemma {:induction false} ImbalanceTelescopes(phase: real, calls: seq<Call>)
    requires 0.0 <= phase < 1.0 && forall i :: 0 <= i < |calls| ==> CallOk(calls[i])
    ensures 0.0 <= Imbalance(phase, calls) - phase + FinalPhase(phase, calls) <= Productive(phase, calls) as real
    decreases |calls|
  {
    hide CallImbalance, Made, NextPhase, CallOk;
    if calls != [] {
      var next, rest := NextPhase(phase, calls[0]), calls[1..];
      CallBalance(phase, calls[0]);
      ImbalanceTelescopes(next, rest);
      Telescope(CallImbalance(phase, calls[0]), Imbalance(next, rest), phase, next, FinalPhase(next, rest),
                if Made(phase, calls[0]) > 0 then 1 else 0, Productive(next, rest));
    }
  }

  lemma Telescope(one: real, more: real, phase: real, next: real, last: real, made: nat, others: nat)
    requires one - phase + next == 0.0 || (one - phase + next == 1.0 && made == 1)
    requires 0.0 <= more - next + last <= others as real
    ensures 0.0 <= one + more - phase + last <= (made + others) as real
  {
  }

  /**
   * Over any run, with any input, any room and any drift, the input taken and the input played differ by less
   * than one frame on one side and less than one more than the number of productive calls on the other.
   */
  lemma RunStaysBalanced(phase: real, calls: seq<Call>)
    requires 0.0 <= phase < 1.0 && forall i :: 0 <= i < |calls| ==> CallOk(calls[i])
    ensures -1.0 < Imbalance(phase, calls) < Productive(phase, calls) as real + 1.0
  {
    ImbalanceTelescopes(phase, calls);
  }

  // ---- the duplex stream ----

  class Duplex {
    const inCh: nat
    const outCh: nat
    const outCapacity: nat
    // Interleaved samples captured and not yet read, and samples queued for playback.
    var inRing: seq<real>
    var outRing: seq<real>
    var inFrames: nat
    var outFrames: nat
    var driftEma: real
    var phase: real

    predicate Valid()
      reads this
    {
      RATIO_MIN <= driftEma <= RATIO_MAX && 0.0 <= phase < 1.0 && |outRing| <= outCapacity
    }

    constructor (inCh: nat, outCh: nat, outCapacity: nat)
      ensures Valid() && this.inCh == inCh && this.outCh == outCh && this.outCapacity == outCapacity
      ensures inRing == [] && outRing == [] && driftEma == 1.0 && phase == 0.0
    {
      this.inCh, this.outCh, this.outCapacity := inCh, outCh, outCapacity;
      inRing, outRing, inFrames, outFrames, driftEma, phase := [], [], 0, 0, 1.0, 0.0;
    }

    method UpdateDrift()
      requires Valid()
      modifies this`driftEma
      ensures Valid() && driftEma == Smoothed(old(driftEma), inFrames, outFrames)
    {
      SmoothedStaysBounded(driftEma, inFrames, outFrames);
      if inFrames != 0 {
        var clamped := ClampRatio(outFrames as real / inFrames as real);
        driftEma := (1.0 - ALPHA) * driftEma + ALPHA * clamped;
      }
    }

    /** The call this pump amounts to, once the drift has been updated. */
    function Pending(): (call: Call)
      requires Valid() && inCh > 0 && outCh > 0
      reads this
      ensures CallOk(call)
    {
      Call(|inRing| / inCh, (outCapacity - |outRing|) / outCh, StepOf(Smoothed(driftEma, inFrames, outFrames)))
    }

    /** Pops exactly the frames needed, queues exactly the frames planned, and carries the phase. */
    method Pump() returns (made: nat)
      requires Valid()
      modifies this
      ensures Valid() && driftEma == Smoothed(old(driftEma), inFrames, outFrames)
      ensures inFrames == old(inFrames) && outFrames == old(outFrames)
      ensures inCh == 0 || outCh == 0 ==>
                made == 0 && inRing == old(inRing) && outRing == old(outRing) && phase == old(phase)
      ensures inCh > 0 && outCh > 0 ==>
                var call, before := old(Pending()), old(phase);
                && made == Made(before, call)
                && phase == NextPhase(before, call)
                && Popped(before, call) * inCh <= |old(inRing)|
                && inRing == old(inRing)[Popped(before, call) * inCh..]
                && (made == 0 ==> outRing == old(outRing))
                && (made > 0 ==>
                      Popped(before, call) > 0
                      && outRing == old(outRing)
                                    + Frames(old(inRing)[..Popped(before, call) * inCh], Popped(before, call),
                                             inCh, outCh, before, call.step, made))
    {
      UpdateDrift();
      if inCh == 0 || outCh == 0 {
        return 0;
      }
      // The ratio is at least one half, so the step is positive and the source's test for it never fails.
      var step := StepOf(driftEma);
      var available := |inRing| / inCh;
      var room := (outCapacity - |outRing|) / outCh;
      ghost var call := Call(available, room, step);
      if available == 0 || room == 0 {
        return 0;
      }
      made := Planned(available, room, phase, step);
      if made == 0 {
        return;
      }
      var needed := Needed(available, phase, made, step);
      FirstFramePops(available, room, phase, step);
      QuotientFits(|inRing|, inCh, needed);
      QuotientFits(outCapacity - |outRing|, outCh, made);
      var inBuf := inRing[..needed * inCh];
      inRing := inRing[needed * inCh..];
      var outBuf := Interpolate(inBuf, needed, step, made);
      phase := Fract(Final(phase, made, step));
      outRing := outRing + outBuf;
    }

    /** The two nested loops of the pump: every channel of every planned frame, the position moving by one step each. */
    method Interpolate(inBuf: seq<real>, popped: nat, step: real, made: nat) returns (outBuf: seq<real>)
      requires Valid() && inCh > 0 && popped > 0 && step > 0.0
      ensures outBuf == Frames(inBuf, popped, inCh, outCh, phase, step, made)
    {
      hide FrameAt, Final;
      outBuf := [];
      var cur := phase;
      StartPosition(phase, step);
      for frame := 0 to made
        invariant cur == Final(phase, frame, step) && cur >= 0.0
        invariant outBuf == Frames(inBuf, popped, inCh, outCh, phase, step, frame)
      {
        var one := InterpolateFrame(inBuf, popped, cur);
        outBuf := outBuf + one;
        NextPosition(phase, frame, step);
        cur := cur + step;
      }
    }

    method InterpolateFrame(inBuf: seq<real>, popped: nat, cur: real) returns (frame: seq<real>)
      requires inCh > 0 && popped > 0 && cur >= 0.0
      ensures frame == FrameAt(inBuf, popped, inCh, outCh, cur)
    {
      frame := [];
      for c := 0 to outCh
        invariant |frame| == c && forall k :: 0 <= k < c ==> frame[k] == ValueAt(inBuf, popped, inCh, cur, k)
      {
        var idx0 := cur.Floor;
        var frac := cur - cur.Floor as real;
        var idx1 := Min(idx0 + 1, popped - 1);
        var ch := Min(c, inCh - 1);
        var s0 := SampleAt(inBuf, idx0 * inCh + ch);
        var s1 := SampleAt(inBuf, idx1 * inCh + ch);
        var value := s0 + (s1 - s0) * frac;
        assert value == ValueAt(inBuf, popped, inCh, cur, c);
        frame := frame + [value];
      }
    }
  }

  lemma StartPosition(phase: real, step: real)
    ensures Final(phase, 0, step) == phase
  {
  }
}
