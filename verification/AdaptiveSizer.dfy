/** The adaptive buffer-size policy: grow on an underrun, shrink back after enough stable periods. */
module AdaptiveSizer {
  import opened Bytes
  import opened Numbers

  datatype State = State(initial: nat, min: nat, max: nat, current: nat, threshold: nat, stable: nat, changed: bool)

  const U32_MAX: nat := 0xFFFF_FFFF

  /** Inconsistent bounds are put right here, once and for all. */
  function New(initial: U32, min: U32, max: U32, threshold: U32): State {
    var lo := Max(min, 1);
    var hi := Max(max, lo);
    var start := Max(lo, Min(initial, hi));
    State(start, lo, hi, start, Max(threshold, 1), 0, false)
  }

  function Underrun(st: State): State {
    var grown := Min(Min(st.current * 2, U32_MAX), st.max);
    st.(stable := 0, changed := grown != st.current, current := grown)
  }

  function Stable(st: State): State {
    if st.current <= st.initial then
      st.(changed := false, stable := 0)
    else if st.stable + 1 >= st.threshold then
      var shrunk := Max(st.current / 2, Max(st.min, st.initial));
      st.(stable := 0, changed := shrunk != st.current, current := shrunk)
    else
      st.(stable := st.stable + 1, changed := false)
  }

  function Reset(st: State): State {
    st.(current := st.initial, stable := 0, changed := false)
  }

  predicate Valid(st: State) {
    && 1 <= st.min <= st.initial <= st.current <= st.max <= U32_MAX
    && 1 <= st.threshold <= U32_MAX
    && st.stable < st.threshold
    && (st.current <= st.initial ==> st.stable == 0)
  }

  class Sizer {
    var initial: U32
    var min: U32
    var max: U32
    var current: U32
    var threshold: U32
    var stable: U32
    var changed: bool

    function View(): State
      reads this
    {
      State(initial, min, max, current, threshold, stable, changed)
    }

    constructor (initial: U32, min: U32, max: U32, threshold: U32)
      ensures View() == New(initial, min, max, threshold) && Valid(View())
    {
      var lo := Max(min, 1);
      var hi := Max(max, lo);
      var start := Max(lo, Min(initial, hi));
      this.initial, this.min, this.max, this.current := start, lo, hi, start;
      this.threshold, this.stable, this.changed := Max(threshold, 1), 0, false;
    }

    method RecordUnderrun() returns (size: U32)
      requires Valid(View())
      modifies this
      ensures View() == Underrun(old(View())) && Valid(View()) && size == current
    {
      stable := 0;
      var grown: U32 := Min(Min(current as int * 2, U32_MAX), max);
      changed := grown != current;
      current := grown;
      size := current;
    }

    /** The counter is below the threshold whenever it grows, so it never overflows its 32 bits. */
    method RecordStablePeriod() returns (size: U32)
      requires Valid(View())
      modifies this
      ensures View() == Stable(old(View())) && Valid(View()) && size == current
    {
      if current <= initial {
        changed := false;
        stable := 0;
        return current;
      }
      stable := stable + 1;
      if stable >= threshold {
        stable := 0;
        var floor := Max(min, initial);
        var shrunk := Max(current / 2, floor);
        changed := shrunk != current;
        current := shrunk;
      } else {
        changed := false;
      }
      size := current;
    }

    method ResetAll()
      requires Valid(View())
      modifies this
      ensures View() == Reset(old(View())) && Valid(View())
    {
      current := initial;
      stable := 0;
      changed := false;
    }
  }

  // ---- histories ----

  datatype Op = AnUnderrun | AStablePeriod | AReset

  function Apply(st: State, op: Op): State {
    match op
    case AnUnderrun => Underrun(st)
    case AStablePeriod => Stable(st)
    case AReset => Reset(st)
  }

  function Run(st: State, ops: seq<Op>): State
    decreases |ops|
  {
    if ops == [] then st else Apply(Run(st, ops[..|ops| - 1]), ops[|ops| - 1])
  }

  /** Underruns since the last reset. */
  function Underruns(ops: seq<Op>): nat
    decreases |ops|
  {
    if ops == [] then 0
    else
      var before := Underruns(ops[..|ops| - 1]);
      match ops[|ops| - 1]
      case AnUnderrun => before + 1
      case AStablePeriod => before
      case AReset => 0
  }

  /**
   * In every reachable state the bounds hold, and the flag says whether the last call was a record call that
   * changed the size.
   */
  lemma {:induction false} ReachableIsValid(st: State, ops: seq<Op>)
    requires Valid(st)
    ensures Valid(Run(st, ops))
    ensures ops != [] ==>
              (Run(st, ops).changed
               <==> !ops[|ops| - 1].AReset? && Run(st, ops).current != Run(st, ops[..|ops| - 1]).current)
    decreases |ops|
  {
    if ops != [] {
      ReachableIsValid(st, ops[..|ops| - 1]);
    }
  }

  /** Whether the last record call, with only resets after it, changed the size. */
  function LastRecordChanged(st: State, ops: seq<Op>): bool
    decreases |ops|
  {
    if ops == [] then false
    else if ops[|ops| - 1].AReset? then LastRecordChanged(st, ops[..|ops| - 1])
    else Run(st, ops).current != Run(st, ops[..|ops| - 1]).current
  }

  /** The flag is what it is documented to be, unless a reset has come after a record call that changed the size. */
  lemma FlagIsLastRecordExactly(st: State, ops: seq<Op>)
    requires Valid(st) && !st.changed
    ensures Run(st, ops).changed == LastRecordChanged(st, ops)
       <==> ops == [] || !ops[|ops| - 1].AReset? || !LastRecordChanged(st, ops)
  {
    if ops != [] {
      ReachableIsValid(st, ops);
    }
  }

  /** Such a history: grown by an underrun, then reset. */
  lemma ResetForgetsTheChange()
    ensures var st, ops := New(256, 128, 2048, 4), [AnUnderrun, AReset];
            Run(st, ops[..1]).current == 512 && LastRecordChanged(st, ops) && !Run(st, ops).changed
  {
    var st, ops := New(256, 128, 2048, 4), [AnUnderrun, AReset];
    assert ops[..1] == [AnUnderrun] && ops[..1][..0] == [];
    assert Run(st, ops[..1]) == Underrun(st);
  }

  /** A size doubled `k` times. */
  function Doubled(size: nat, k: nat): (r: nat)
    ensures r >= size
  {
    if k == 0 then size else 2 * Doubled(size, k - 1)
  }

  lemma GrowsOnce(st: State, op: Op, bound: nat)
    requires Valid(st) && st.current <= bound
    ensures Apply(st, op).initial == st.initial && Apply(st, op).current <= if op.AnUnderrun? then 2 * bound else bound
    ensures op.AReset? ==> Apply(st, op).current == st.initial
  {
  }

  function Glitches(k: nat): seq<Op> {
    seq(k, _ => AnUnderrun)
  }

  /** Underruns in a row double the size exactly, up to the upper bound. */
  lemma {:induction false} UnderrunsDouble(st: State, k: nat)
    requires Valid(st)
    ensures Run(st, Glitches(k)).current == Min(Doubled(st.current, k), st.max)
    ensures Run(st, Glitches(k)).max == st.max
    decreases k
  {
    if k > 0 {
      assert Glitches(k)[..k - 1] == Glitches(k - 1);
      UnderrunsDouble(st, k - 1);
    }
  }

  /** Each underrun at most doubles the size, and nothing else grows it. */
  lemma {:induction false} GrowthBounded(st: State, ops: seq<Op>)
    requires Valid(st) && st.current == st.initial
    ensures Run(st, ops).initial == st.initial
    ensures Run(st, ops).current <= Doubled(st.initial, Underruns(ops))
    decreases |ops|
  {
    hide Apply, Valid;
    if ops != [] {
      var prefix := ops[..|ops| - 1];
      GrowthBounded(st, prefix);
      ReachableIsValid(st, prefix);
      GrowsOnce(Run(st, prefix), ops[|ops| - 1], Doubled(st.initial, Underruns(prefix)));
    }
  }

  function Periods(n: nat): seq<Op> {
    seq(n, _ => AStablePeriod)
  }

  lemma {:induction false} RunAppend(st: State, a: seq<Op>, b: seq<Op>)
    ensures Run(st, a + b) == Run(Run(st, a), b)
    decreases |b|
  {
    if b == [] {
      assert a + b == a;
    } else {
      assert (a + b)[..|a + b| - 1] == a + b[..|b| - 1];
      RunAppend(st, a, b[..|b| - 1]);
    }
  }

  /** Stable periods short of the threshold only count. */
  lemma {:induction false} Counting(st: State, n: nat)
    requires Valid(st) && st.current > st.initial && st.stable + n < st.threshold
    ensures var t := Run(st, Periods(n));
            Valid(t) && t.current == st.current && t.stable == st.stable + n && t.initial == st.initial
            && t.threshold == st.threshold && t.min == st.min && t.max == st.max
    decreases n
  {
    if n > 0 {
      assert Periods(n)[..n - 1] == Periods(n - 1);
      Counting(st, n - 1);
    }
  }

  lemma {:induction false} SettledStays(st: State, n: nat)
    requires Valid(st) && st.current == st.initial
    ensures Run(st, Periods(n)).current == st.initial && Run(st, Periods(n)).initial == st.initial
    ensures Valid(Run(st, Periods(n)))
    decreases n
  {
    if n > 0 {
      assert Periods(n)[..n - 1] == Periods(n - 1);
      SettledStays(st, n - 1);
    }
  }

  /**
   * A whole threshold of stable periods halves the size, down to the initial one, whatever was counted before:
   * it shrinks exactly once, unless it was as small already.
   */
  lemma ThresholdHalves(st: State)
    requires Valid(st)
    ensures var t := Run(st, Periods(st.threshold));
            && Valid(t) && t.initial == st.initial && t.threshold == st.threshold
            && t.current == Max(st.current / 2, st.initial)
  {
    if st.current == st.initial {
      SettledStays(st, st.threshold);
      SameThreshold(st, st.threshold);
    } else {
      var first := st.threshold - 1 - st.stable;
      Counting(st, first);
      var full := Run(st, Periods(first));
      assert Periods(first + 1)[..first] == Periods(first);
      var halved := Run(st, Periods(first + 1));
      assert halved == Stable(full);
      var rest := st.threshold - first - 1;
      assert Periods(st.threshold) == Periods(first + 1) + Periods(rest);
      RunAppend(st, Periods(first + 1), Periods(rest));
      if halved.current == halved.initial {
        SettledStays(halved, rest);
        SameThreshold(halved, rest);
      } else {
        Counting(halved, rest);
      }
    }
  }

  lemma {:induction false} SameThreshold(st: State, n: nat)
    ensures Run(st, Periods(n)).threshold == st.threshold
    decreases n
  {
    if n > 0 {
      assert Periods(n)[..n - 1] == Periods(n - 1);
      SameThreshold(st, n - 1);
    }
  }

  lemma PeriodsSplit(k: nat, n: nat)
    requires k > 0
    ensures Periods(k * n) == Periods(n) + Periods((k - 1) * n)
  {
    assert k * n == n + (k - 1) * n;
  }

  /** Halving as often as the size was doubled brings it back. */
  lemma {:induction false} Settles(st: State, k: nat)
    requires Valid(st) && st.current <= Doubled(st.initial, k)
    ensures Run(st, Periods(k * st.threshold)).current == st.initial
    decreases k
  {
    hide Run, Periods, Valid;
    if k == 0 {
      NothingToSettle(st, k * st.threshold);
    } else {
      ThresholdHalves(st);
      var n := st.threshold;
      Settles(Run(st, Periods(n)), k - 1);
      PeriodsSplit(k, n);
      RunAppend(st, Periods(n), Periods((k - 1) * n));
    }
  }

  lemma NothingToSettle(st: State, n: nat)
    requires Valid(st) && st.current <= st.initial && n == 0
    ensures Run(st, Periods(n)).current == st.initial
  {
  }

  /**
   * Convergence: from any parameters, after any history with `k` underruns since its last reset, `k` times the
   * threshold of consecutive stable periods bring the size back to the initial one.
   */
  lemma ConvergesToInitial(initial: U32, min: U32, max: U32, threshold: U32, ops: seq<Op>)
    ensures var st := New(initial, min, max, threshold);
            var calm := Periods(Underruns(ops) * st.threshold);
            Run(st, ops + calm).current == st.initial
  {
    var st := New(initial, min, max, threshold);
    hide New, Valid, Run, Doubled, Underruns, Periods;
    var after := Run(st, ops);
    NewIsValid(initial, min, max, threshold);
    ReachableIsValid(st, ops);
    GrowthBounded(st, ops);
    ThresholdFixed(st, ops);
    Settles(after, Underruns(ops));
    RunAppend(st, ops, Periods(Underruns(ops) * st.threshold));
  }

  lemma NewIsValid(initial: U32, min: U32, max: U32, threshold: U32)
    ensures Valid(New(initial, min, max, threshold))
    ensures New(initial, min, max, threshold).current == New(initial, min, max, threshold).initial
  {
  }

  lemma {:induction false} ThresholdFixed(st: State, ops: seq<Op>)
    ensures Run(st, ops).threshold == st.threshold
    decreases |ops|
  {
    if ops != [] {
      ThresholdFixed(st, ops[..|ops| - 1]);
    }
  }

  /** Bounds that make sense are taken as they are; others give way to the lower bound, and the start to both. */
  lemma NewPutsRight(initial: U32, min: U32, max: U32, threshold: U32)
    ensures 1 <= min <= initial <= max && threshold >= 1 ==>
              New(initial, min, max, threshold) == State(initial, min, max, initial, threshold, 0, false)
    ensures var st := New(initial, min, max, threshold);
            && Valid(st) && st.current == st.initial && st.stable == 0 && !st.changed
            && (min > 0 ==> st.min == min) && (min == 0 ==> st.min == 1)
            && (max >= st.min ==> st.max == max) && (max < st.min ==> st.max == st.min)
            && (st.min <= initial <= st.max ==> st.initial == initial)
            && (initial < st.min ==> st.initial == st.min) && (initial > st.max ==> st.initial == st.max)
            && (threshold > 0 ==> st.threshold == threshold) && (threshold == 0 ==> st.threshold == 1)
  {
  }

  /** An underrun starts the count over: until a whole threshold of stable periods has passed, nothing shrinks. */
  lemma UnderrunStartsOver(st: State, n: nat)
    requires Valid(st) && n < st.threshold
    ensures Run(Underrun(st), Periods(n)).current == Underrun(st).current
  {
    ReachableIsValid(st, [AnUnderrun]);
    assert [AnUnderrun][..0] == [];
    assert Run(st, [AnUnderrun]) == Underrun(st);
    if Underrun(st).current == st.initial {
      SettledStays(Underrun(st), n);
    } else {
      Counting(Underrun(st), n);
    }
  }
}
