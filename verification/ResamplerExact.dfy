/** What the resampler plays, and how much: interpolation is linear, calls are as large as they can be, drift decays. */
module ResamplerExact {
  import opened Numbers
  import opened Resampler

  // ---- values ----

  /** The channel an output channel is taken from: its own or, past the last input channel, that one. */
  function From(c: nat, inCh: nat): nat
    requires inCh > 0
  {
    if c < inCh then c else inCh - 1
  }

  /** At a whole position the output is that input frame's own sample. */
  lemma WholePositionIsExact(buf: seq<real>, popped: nat, inCh: nat, i: nat, c: nat)
    requires inCh > 0 && |buf| == popped * inCh && i < popped
    ensures i * inCh + From(c, inCh) < |buf|
    ensures ValueAt(buf, popped, inCh, i as real, c) == buf[i * inCh + From(c, inCh)]
  {
    ValueInterpolates(buf, popped, inCh, i as real, c);
    assert (i as real).Floor == i && Fract(i as real) == 0.0;
    var s0, s1 := buf[i * inCh + From(c, inCh)], SampleAt(buf, NextFrame(i, popped) * inCh + From(c, inCh));
    assert s0 + (s1 - s0) * 0.0 == s0;
  }

  /** Between two popped frames the output is linear in the position: a ramp comes out as the same ramp. */
  lemma RampStaysRamp(buf: seq<real>, popped: nat, inCh: nat, x: real, c: nat, a: real, b: real)
    requires inCh > 0 && |buf| == popped * inCh && 0.0 <= x && x.Floor + 1 < popped
    requires RampOn(buf, popped, inCh, From(c, inCh), a, b)
    ensures ValueAt(buf, popped, inCh, x, c) == a * x + b
  {
    hide ValueAt, SampleAt;
    var i := x.Floor;
    Unfolds(buf, popped, inCh, x, c);
    OnLine(a, b, i as real, Fract(x));
    assert (i + 1) as real == i as real + 1.0 && x == i as real + Fract(x);
  }

  /** Between two points of a line is the line. */
  lemma OnLine(a: real, b: real, x: real, frac: real)
    ensures Lerp(a * x + b, a * (x + 1.0) + b, frac) == a * (x + frac) + b
  {
    assert a * (x + 1.0) == a * x + a;
    assert a * (x + frac) == a * x + a * frac;
  }

  ghost predicate RampOn(buf: seq<real>, popped: nat, inCh: nat, ch: nat, a: real, b: real)
    requires ch < inCh && |buf| == popped * inCh
  {
    forall i: nat :: i < popped ==> SampleAt(buf, i * inCh + ch) == a * i as real + b
  }

  lemma Unfolds(buf: seq<real>, popped: nat, inCh: nat, x: real, c: nat)
    requires inCh > 0 && 0.0 <= x && x.Floor + 1 < popped
    ensures ValueAt(buf, popped, inCh, x, c)
         == Lerp(SampleAt(buf, x.Floor * inCh + From(c, inCh)), SampleAt(buf, (x.Floor + 1) * inCh + From(c, inCh)),
                 Fract(x))
  {
  }

  /** On the last popped frame there is no next one, and its sample is held. */
  lemma LastFrameIsHeld(buf: seq<real>, popped: nat, inCh: nat, x: real, c: nat)
    requires inCh > 0 && |buf| == popped * inCh && 0.0 <= x && x.Floor + 1 == popped
    ensures (popped - 1) * inCh + From(c, inCh) < |buf|
    ensures ValueAt(buf, popped, inCh, x, c) == buf[(popped - 1) * inCh + From(c, inCh)]
  {
    ValueInterpolates(buf, popped, inCh, x, c);
    assert NextFrame(x.Floor, popped) == popped - 1;
  }

  /** Frame `f`, channel `c` of a call is the value at the position `f` steps on. */
  lemma {:induction false} FramesAt(buf: seq<real>, popped: nat, inCh: nat, outCh: nat, phase: real, step: real, n: nat,
                                    f: nat, c: nat)
    requires inCh > 0 && popped > 0 && phase >= 0.0 && step > 0.0 && f < n && c < outCh
    ensures f * outCh + c < n * outCh && f as real * step >= 0.0
    ensures Frames(buf, popped, inCh, outCh, phase, step, n)[f * outCh + c]
         == ValueAt(buf, popped, inCh, phase + f as real * step, c)
    decreases n
  {
    hide ValueAt;
    ScaledLess(f, n, outCh);
    FinalNonNegative(phase, f, step);
    FinalNonNegative(0.0, f, step);
    if f < n - 1 {
      FramesAt(buf, popped, inCh, outCh, phase, step, n - 1, f, c);
    } else {
      assert (n - 1) * outCh + outCh == n * outCh;
    }
  }

  /** At equal clocks, in phase and with equal channels, what is played is the input itself. */
  lemma UnitStepPassesThrough(buf: seq<real>, popped: nat, ch: nat, n: nat)
    requires ch > 0 && |buf| == popped * ch && 0 < n <= popped
    ensures n * ch <= |buf|
    ensures Frames(buf, popped, ch, ch, 0.0, 1.0, n) == buf[..n * ch]
  {
    hide Frames, ValueAt;
    Covers(n, popped, ch);
    var out := Frames(buf, popped, ch, ch, 0.0, 1.0, n);
    forall k | 0 <= k < n * ch
      ensures out[k] == buf[k]
    {
      var f, c := k / ch, k % ch;
      Place(k, n, ch);
      FramesAt(buf, popped, ch, ch, 0.0, 1.0, n, f, c);
      WholePositionIsExact(buf, popped, ch, f, c);
      UnitPosition(f);
    }
  }

  lemma UnitPosition(f: nat)
    ensures 0.0 + f as real * 1.0 == f as real
  {
  }

  lemma Covers(n: nat, popped: nat, ch: nat)
    requires n <= popped
    ensures n * ch <= popped * ch
  {
  }

  lemma Place(k: nat, n: nat, ch: nat)
    requires ch > 0 && k < n * ch
    ensures k == k / ch * ch + k % ch && k / ch < n && k % ch < ch
  {
    if k / ch >= n {
      Covers(n, k / ch, ch);
    }
  }

  // ---- amounts ----

  /** A call makes as many frames as it can: one more would not fit, or would read past the input. */
  lemma PlannedIsMost(available: nat, room: nat, phase: real, step: real)
    requires 0.0 <= phase < 1.0 && step > 0.0
    ensures var n := Planned(available, room, phase, step);
            && n <= room && (n > 0 ==> phase + n as real * step <= available as real)
            && (n == room || phase + (n + 1) as real * step > available as real)
  {
    var n := Planned(available, room, phase, step);
    if available == 0 {
      assert 1.0 * step == step;
    } else if room > 0 {
      FinalWithinAvailable(available, room, phase, step);
      if n < room {
        var q := (available as real - phase) / step;
        assert q < (n + 1) as real;
        Scaled(q, (n + 1) as real, step);
        assert q * step == available as real - phase;
      }
    }
  }

  lemma Scaled(a: real, b: real, k: real)
    requires a < b && k > 0.0
    ensures a * k < b * k
  {
  }

  /** One output frame moves the input on by the inverse of the smoothed ratio. */
  lemma StepInvertsRatio(ema: real)
    requires ema > 0.0
    ensures StepOf(ema) * ema == 1.0
  {
  }

  // ---- drift ----

  function Power(x: real, n: nat): real {
    if n == 0 then 1.0 else x * Power(x, n - 1)
  }

  /** The smoothed ratio after `n` measurements of the same counters. */
  function SmoothedTimes(ema: real, inFrames: nat, outFrames: nat, n: nat): real {
    if n == 0 then ema else Smoothed(SmoothedTimes(ema, inFrames, outFrames, n - 1), inFrames, outFrames)
  }

  /** Output frames for each input frame, kept between one half and two. */
  function Target(inFrames: nat, outFrames: nat): real
    requires inFrames > 0
  {
    if 2 * outFrames < inFrames then 0.5
    else if outFrames > 2 * inFrames then 2.0
    else outFrames as real / inFrames as real
  }

  lemma TargetIsClamped(inFrames: nat, outFrames: nat)
    requires inFrames > 0
    ensures Target(inFrames, outFrames) == ClampRatio(outFrames as real / inFrames as real)
  {
    Compare(outFrames as real, inFrames as real, 0.5);
    Compare(outFrames as real, inFrames as real, 2.0);
  }

  lemma Compare(n: real, d: real, b: real)
    requires d > 0.0
    ensures n / d < b <==> n < b * d
    ensures n / d > b <==> n > b * d
  {
    var q := n / d;
    assert q * d == n;
    if q < b {
      Scaled(q, b, d);
    } else if q > b {
      Scaled(b, q, d);
    }
  }

  /** Each measurement takes one twentieth off the distance to the measured ratio, so steady clocks are approached. */
  lemma {:induction false} DriftDecays(ema: real, inFrames: nat, outFrames: nat, n: nat)
    requires inFrames > 0
    ensures SmoothedTimes(ema, inFrames, outFrames, n) - Target(inFrames, outFrames)
         == Power(0.95, n) * (ema - Target(inFrames, outFrames))
  {
    if n > 0 {
      var t, before := Target(inFrames, outFrames), SmoothedTimes(ema, inFrames, outFrames, n - 1);
      DriftDecays(ema, inFrames, outFrames, n - 1);
      TargetIsClamped(inFrames, outFrames);
      assert Smoothed(before, inFrames, outFrames) == 0.95 * before + 0.05 * t;
      hide Smoothed, Target;
      Regroup(Power(0.95, n - 1), ema - t);
    }
  }

  lemma Regroup(p: real, d: real)
    ensures 0.95 * (p * d) == 0.95 * p * d
  {
  }
}
