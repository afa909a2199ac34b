/** The tempo map: how it is built, and that walking its segments is integrating the tempo tick by tick. */
module Tempo {
  import opened SmfFile
  import opened Wrappers
  import opened Sorting

  datatype Change = Change(tick: nat, us: nat)

  const DEFAULT_US: nat := 500_000

  function TickKey(): Change -> real {
    (c: Change) => c.tick as real
  }

  // ---- the reference: the tempo in force at each tick ----

  /** The tempo changes of a track whose clock stands at `tick`, in order. */
  function TrackChanges(events: seq<TrackEvent>, tick: nat): seq<Change> {
    if events == [] then []
    else
      var now := tick + events[0].delta;
      (if events[0].event.Tempo? then [Change(now, events[0].event.us)] else []) + TrackChanges(events[1..], now)
  }

  function FileChanges(tracks: seq<Track>): seq<Change> {
    if tracks == [] then [] else TrackChanges(tracks[0].events, 0) + FileChanges(tracks[1..])
  }

  /** Of the changes at or before `t`: the one of greatest tick, and among those the last in file order. */
  function Latest(raw: seq<Change>, t: nat): Option<Change> {
    if raw == [] then None else Later(raw[0], Latest(raw[1..], t), t)
  }

  function Later(c: Change, rest: Option<Change>, t: nat): Option<Change> {
    if c.tick <= t && (rest.None? || rest.value.tick < c.tick) then Some(c) else rest
  }

  function TempoAt(raw: seq<Change>, t: nat): nat {
    var c := Latest(raw, t);
    if c.Some? then c.value.us else DEFAULT_US
  }

  /** Microseconds times ticks per beat, summed tick by tick. */
  function Integral(raw: seq<Change>, n: nat): nat {
    if n == 0 then 0 else Integral(raw, n - 1) + TempoAt(raw, n - 1)
  }

  // ---- building the map ----

  datatype TempoMap = TempoMap(entries: seq<Change>, tpb: nat)

  predicate Increasing(s: seq<Change>) {
    forall i, j :: 0 <= i < j < |s| ==> s[i].tick < s[j].tick
  }

  /** Either the sentinel of a file without beats, or entries rising strictly from tick 0. */
  predicate Valid(m: TempoMap) {
    (m.tpb == 0 && m.entries == []) || (m.entries != [] && m.entries[0].tick == 0 && Increasing(m.entries))
  }

  /** Of each run of equal ticks only the last element. */
  function Dedup(s: seq<Change>): seq<Change> {
    if |s| <= 1 then s
    else if s[0].tick == s[1].tick then Dedup(s[1..])
    else [s[0]] + Dedup(s[1..])
  }

  function Started(s: seq<Change>): seq<Change> {
    if s == [] || s[0].tick != 0 then [Change(0, DEFAULT_US)] + s else s
  }

  function MapOf(file: File): TempoMap {
    if file.division.Smpte? then TempoMap([], 0)
    else TempoMap(Started(Dedup(StableSort(FileChanges(file.tracks), TickKey()))), file.division.tpb)
  }

  /** The builder's loops: absolute ticks per track, the library's stable sort, in-place removal of duplicates. */
  method FromFile(file: File) returns (m: TempoMap)
    ensures m == MapOf(file)
  {
    hide StableSort, Dedup, Integral, TempoAt;
    if file.division.Smpte? {
      return TempoMap([], 0);
    }
    var raw: seq<Change> := [];
    for k := 0 to |file.tracks|
      invariant FileChanges(file.tracks) == raw + FileChanges(file.tracks[k..])
    {
      assert file.tracks[k..][1..] == file.tracks[k + 1..];
      Assoc(raw, TrackChanges(file.tracks[k].events, 0), FileChanges(file.tracks[k + 1..]));
      raw := CollectTrack(file.tracks[k].events, raw);
    }
    assert file.tracks[|file.tracks|..] == [] && raw + [] == raw;
    var sorted := StableSort(raw, TickKey());
    var deduped := RemoveDuplicates(sorted);
    var entries: seq<Change> := [];
    if |deduped| == 0 || deduped[0].tick != 0 {
      entries := [Change(0, DEFAULT_US)];
    }
    m := TempoMap(entries + deduped, file.division.tpb);
    assert entries == [] ==> entries + deduped == deduped;
  }

  /** The inner loop: the tempo changes of one track, each at the clock its own delta brings it to. */
  method CollectTrack(events: seq<TrackEvent>, before: seq<Change>) returns (raw: seq<Change>)
    ensures raw == before + TrackChanges(events, 0)
  {
    raw := before;
    var tick: nat := 0;
    for i := 0 to |events|
      invariant before + TrackChanges(events, 0) == raw + TrackChanges(events[i..], tick)
    {
      tick := tick + events[i].delta;
      assert events[i..][1..] == events[i + 1..];
      if events[i].event.Tempo? {
        Assoc(raw, [Change(tick, events[i].event.us)], TrackChanges(events[i + 1..], tick));
        raw := raw + [Change(tick, events[i].event.us)];
      }
    }
    assert events[|events|..] == [] && raw + [] == raw;
  }

  /** Keeps the element before it and takes over the later tempo where the ticks agree. */
  method RemoveDuplicates(s: seq<Change>) returns (r: seq<Change>)
    ensures r == Dedup(s)
  {
    r := [];
    for k := 0 to |s|
      invariant k == 0 ==> r == []
      invariant k > 0 ==> r != [] && Dedup(s) == r[..|r| - 1] + Dedup([r[|r| - 1]] + s[k..])
    {
      if r != [] && r[|r| - 1].tick == s[k].tick {
        ghost var last := r[|r| - 1];
        assert ([last] + s[k..])[1..] == s[k..] == [s[k]] + s[k + 1..];
        r := r[|r| - 1 := r[|r| - 1].(us := s[k].us)];
        assert r[|r| - 1] == s[k];
      } else {
        ghost var was := r;
        r := r + [s[k]];
        assert r[..|r| - 1] == was;
        if k == 0 {
          assert s == [s[0]] + s[1..];
        } else {
          ghost var last := was[|was| - 1];
          assert ([last] + s[k..])[1..] == s[k..] == [s[k]] + s[k + 1..];
          assert was == was[..|was| - 1] + [last];
        }
      }
    }
    if |s| > 0 {
      assert s[|s|..] == [];
      assert r == r[..|r| - 1] + [r[|r| - 1]];
    }
  }

  // ---- the map means the reference ----

  lemma {:induction false} LatestInsert(x: Change, s: seq<Change>, t: nat)
    ensures Latest(Insert(x, s, TickKey()), t) == Latest([x] + s, t)
    decreases |s|
  {
    assert ([x] + s)[1..] == s;
    if s != [] && x.tick > s[0].tick {
      LatestInsert(x, s[1..], t);
      assert ([x] + s[1..])[1..] == s[1..];
      var r := Insert(x, s[1..], TickKey());
      assert ([s[0]] + r)[1..] == r;
    }
  }

  /** Stable sorting changes no tempo: ties keep their order and only the last of them counts. */
  lemma {:induction false} LatestSorted(s: seq<Change>, t: nat)
    ensures Latest(StableSort(s, TickKey()), t) == Latest(s, t)
    decreases |s|
  {
    if s != [] {
      LatestSorted(s[1..], t);
      var r := StableSort(s[1..], TickKey());
      LatestInsert(s[0], r, t);
      assert ([s[0]] + r)[1..] == r;
    }
  }

  lemma {:induction false} LatestReaches(s: seq<Change>, t: nat)
    requires s != [] && s[0].tick <= t
    ensures Latest(s, t).Some? && s[0].tick <= Latest(s, t).value.tick
  {
  }

  lemma {:induction false} LatestDedup(s: seq<Change>, t: nat)
    ensures Latest(Dedup(s), t) == Latest(s, t)
    decreases |s|
  {
    if |s| > 1 {
      LatestDedup(s[1..], t);
      if s[0].tick == s[1].tick {
        if s[0].tick <= t {
          LatestReaches(s[1..], t);
        }
      } else {
        assert ([s[0]] + Dedup(s[1..]))[1..] == Dedup(s[1..]);
      }
    }
  }

  lemma {:induction false} LatestIn(s: seq<Change>, t: nat)
    ensures Latest(s, t).Some? ==> Latest(s, t).value in s && Latest(s, t).value.tick <= t
    decreases |s|
  {
    if s != [] {
      LatestIn(s[1..], t);
    }
  }

  lemma TempoStarted(s: seq<Change>, t: nat)
    requires Increasing(s)
    ensures TempoAt(Started(s), t) == TempoAt(s, t)
  {
    if s == [] || s[0].tick != 0 {
      assert ([Change(0, DEFAULT_US)] + s)[1..] == s;
      LatestIn(s, t);
    }
  }

  lemma {:induction false} DedupIncreasing(s: seq<Change>)
    requires Sorted(s, TickKey())
    ensures Increasing(Dedup(s)) && (s == [] <==> Dedup(s) == [])
    ensures s != [] ==> Dedup(s)[0].tick == s[0].tick
    decreases |s|
  {
    if |s| > 1 {
      assert TickKey()(s[0]) <= TickKey()(s[1]);
      DedupIncreasing(s[1..]);
    }
  }

  /**
   * The map is well formed and carries exactly the tempo of the file: at every tick, the last change at or
   * before it in (tick, track, position) order, or 120 beats per minute before the first.
   */
  lemma MapCarriesTempo(file: File, t: nat)
    requires file.division.TicksPerBeat?
    ensures Valid(MapOf(file)) && TempoAt(MapOf(file).entries, t) == TempoAt(FileChanges(file.tracks), t)
  {
    var raw := FileChanges(file.tracks);
    var sorted := StableSort(raw, TickKey());
    StableSortSorts(raw, TickKey());
    DedupIncreasing(sorted);
    LatestSorted(raw, t);
    LatestDedup(sorted, t);
    TempoStarted(Dedup(sorted), t);
  }

  lemma {:induction false} IntegralSame(a: seq<Change>, b: seq<Change>, n: nat)
    requires forall t: nat :: t < n ==> TempoAt(a, t) == TempoAt(b, t)
    ensures Integral(a, n) == Integral(b, n)
  {
    if n > 0 {
      IntegralSame(a, b, n - 1);
    }
  }

  lemma {:induction false} IntegralConst(s: seq<Change>, lo: nat, hi: nat, us: nat)
    requires lo <= hi && forall t: nat :: lo <= t < hi ==> TempoAt(s, t) == us
    ensures Integral(s, hi) == Integral(s, lo) + (hi - lo) * us
    decreases hi
  {
    if lo < hi {
      IntegralConst(s, lo, hi - 1, us);
    }
  }

  lemma {:induction false} IntegralMonotone(s: seq<Change>, m: nat, n: nat)
    requires m <= n
    ensures Integral(s, m) <= Integral(s, n)
    decreases n
  {
    if m < n {
      IntegralMonotone(s, m, n - 1);
    }
  }

  /** Between two entries of an increasing list the tempo is the earlier one's. */
  lemma {:induction false} TempoBetween(s: seq<Change>, k: nat, t: nat)
    requires Increasing(s) && k < |s| && s[k].tick <= t && (k + 1 < |s| ==> t < s[k + 1].tick)
    ensures Latest(s, t) == Some(s[k])
    decreases k
  {
    if k == 0 {
      LatestIn(s[1..], t);
      forall i | 0 <= i < |s[1..]|
        ensures s[1..][i].tick > t
      {
        if i > 0 {
          assert s[1].tick < s[i + 1].tick;
        }
      }
    } else {
      TempoBetween(s[1..], k - 1, t);
    }
  }

  // ---- converting ticks ----

  /** Exact arithmetic: the source's floating-point quotient without its rounding. */
  function TicksToSeconds(ticks: nat, us: nat, tpb: nat): real {
    if tpb == 0 then 0.0 else (ticks * us) as real / (tpb as real * 1_000_000.0)
  }

  function SecondsAt(m: TempoMap, tick: nat): real {
    if m.tpb == 0 then 0.0 else Integral(m.entries, tick) as real / (m.tpb as real * 1_000_000.0)
  }

  /** The segment walk gives the exact integral, at whatever tick it stops. */
  method TickToSecs(m: TempoMap, tick: nat) returns (secs: real)
    requires Valid(m)
    ensures secs == SecondsAt(m, tick)
  {
    if m.tpb == 0 || |m.entries| == 0 {
      return 0.0;
    }
    secs := 0.0;
    var prevTick: nat, prevUs := 0, DEFAULT_US;
    var k := 0;
    while k < |m.entries|
      invariant 0 <= k <= |m.entries|
      invariant k == 0 ==> prevTick == 0
      invariant k > 0 ==> prevTick == m.entries[k - 1].tick < tick && prevUs == m.entries[k - 1].us
      invariant prevTick <= tick
      invariant secs == Integral(m.entries, prevTick) as real / (m.tpb as real * 1_000_000.0)
    {
      var entry := m.entries[k];
      if entry.tick >= tick {
        break;
      }
      if k > 0 {
        SegmentSum(m, k - 1, entry.tick);
      }
      secs := secs + TicksToSeconds(entry.tick - prevTick, prevUs, m.tpb);
      prevTick, prevUs := entry.tick, entry.us;
      k := k + 1;
    }
    if k > 0 {
      SegmentSum(m, k - 1, tick);
    }
    secs := secs + TicksToSeconds(tick - prevTick, prevUs, m.tpb);
  }

  /** Within one segment the integral grows linearly, so adding the segment's seconds keeps it exact. */
  lemma SegmentSum(m: TempoMap, k: nat, hi: nat)
    requires Valid(m) && m.tpb > 0 && k < |m.entries|
    requires m.entries[k].tick <= hi && (k + 1 < |m.entries| ==> hi <= m.entries[k + 1].tick)
    ensures var lo, per := m.entries[k].tick, m.tpb as real * 1_000_000.0;
            Integral(m.entries, hi) as real / per
            == Integral(m.entries, lo) as real / per + TicksToSeconds(hi - lo, m.entries[k].us, m.tpb)
  {
    var lo, us, per := m.entries[k].tick, m.entries[k].us, m.tpb as real * 1_000_000.0;
    forall t: nat | lo <= t < hi
      ensures TempoAt(m.entries, t) == us
    {
      TempoBetween(m.entries, k, t);
    }
    IntegralConst(m.entries, lo, hi, us);
    DivideSum(Integral(m.entries, lo) as real, ((hi - lo) * us) as real, per);
  }

  lemma DivideSum(a: real, b: real, per: real)
    requires per > 0.0
    ensures (a + b) / per == a / per + b / per
  {
  }

  /**
   * The time of a tick is the naive integral of the file's tempo over every tick before it, and so never runs
   * backwards.
   */
  lemma SecondsAreIntegral(file: File, tick: nat)
    ensures file.division.Smpte? || file.division.tpb == 0 ==> SecondsAt(MapOf(file), tick) == 0.0
    ensures file.division.TicksPerBeat? && file.division.tpb > 0 ==>
              SecondsAt(MapOf(file), tick)
              == Integral(FileChanges(file.tracks), tick) as real / (file.division.tpb as real * 1_000_000.0)
    ensures Valid(MapOf(file))
  {
    if file.division.TicksPerBeat? {
      MapCarriesTempo(file, 0);
      forall t: nat
        ensures TempoAt(MapOf(file).entries, t) == TempoAt(FileChanges(file.tracks), t)
      {
        MapCarriesTempo(file, t);
      }
      IntegralSame(MapOf(file).entries, FileChanges(file.tracks), tick);
    }
  }

  lemma SecondsMonotone(m: TempoMap, a: nat, b: nat)
    requires a <= b
    ensures SecondsAt(m, a) <= SecondsAt(m, b)
  {
    IntegralMonotone(m.entries, a, b);
    if m.tpb > 0 {
      DivideMonotone(Integral(m.entries, a) as real, Integral(m.entries, b) as real, m.tpb as real * 1_000_000.0);
    }
  }

  lemma DivideMonotone(a: real, b: real, per: real)
    requires per > 0.0 && a <= b
    ensures a / per <= b / per
  {
  }
}
