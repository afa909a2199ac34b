/** The tempo in force at every tick, said of the tempo events themselves. */
module TempoOrder {
  import opened SmfFile
  import opened Wrappers
  import opened Tempo

  /** The clock after a stretch of events: the sum of their deltas. */
  function Clock(events: seq<TrackEvent>): nat
    decreases |events|
  {
    if events == [] then 0 else Clock(events[..|events| - 1]) + events[|events| - 1].delta
  }

  lemma {:induction false} ClockFront(te: TrackEvent, rest: seq<TrackEvent>)
    ensures Clock([te] + rest) == te.delta + Clock(rest)
    decreases |rest|
  {
    if rest != [] {
      assert ([te] + rest)[..|rest|] == [te] + rest[..|rest| - 1];
      ClockFront(te, rest[..|rest| - 1]);
    } else {
      assert [te][..0] == [];
    }
  }

  lemma ClockAt(events: seq<TrackEvent>, k: nat)
    requires 0 < k < |events|
    ensures Clock(events[..k + 1]) == events[0].delta + Clock(events[1..][..k])
  {
    assert events[..k + 1] == [events[0]] + events[1..][..k];
    ClockFront(events[0], events[1..][..k]);
  }

  lemma ClockFirst(events: seq<TrackEvent>)
    requires events != []
    ensures Clock(events[..1]) == events[0].delta
  {
    assert events[..1] == [events[0]] && [events[0]][..0] == [];
  }

  /** The `k`th event of track `i` sets the tempo, at tick `at`. */
  predicate SetsTempo(tracks: seq<Track>, i: nat, k: nat, at: nat) {
    && i < |tracks| && k < |tracks[i].events| && tracks[i].events[k].event.Tempo?
    && at == Clock(tracks[i].events[..k + 1])
  }

  predicate InOrder(at: nat, i: nat, k: nat, at': nat, i': nat, k': nat) {
    at < at' || (at == at' && (i < i' || (i == i' && k <= k')))
  }

  /** The changes of a track are its tempo events, each at its own clock. */
  lemma {:induction false} ChangeHasEvent(events: seq<TrackEvent>, tick: nat, c: Change) returns (k: nat)
    requires c in TrackChanges(events, tick)
    ensures k < |events| && events[k].event.Tempo? && events[k].event.us == c.us
    ensures c.tick == tick + Clock(events[..k + 1])
    decreases |events|
  {
    var now := tick + events[0].delta;
    ClockFirst(events);
    if events[0].event.Tempo? && c == Change(now, events[0].event.us) {
      k := 0;
    } else {
      var rest := ChangeHasEvent(events[1..], now, c);
      k := rest + 1;
      ClockAt(events, k);
    }
  }

  lemma {:induction false} ChangeHasPlace(tracks: seq<Track>, c: Change) returns (i: nat, k: nat)
    requires c in FileChanges(tracks)
    ensures SetsTempo(tracks, i, k, c.tick) && tracks[i].events[k].event.us == c.us
    decreases |tracks|
  {
    if c in TrackChanges(tracks[0].events, 0) {
      i := 0;
      k := ChangeHasEvent(tracks[0].events, 0, c);
    } else {
      i, k := ChangeHasPlace(tracks[1..], c);
      i := i + 1;
    }
  }

  lemma {:induction false} LatestAppend(a: seq<Change>, b: seq<Change>, t: nat)
    ensures Latest(a + b, t)
         == if Latest(a, t).Some? && (Latest(b, t).None? || Latest(b, t).value.tick < Latest(a, t).value.tick)
            then Latest(a, t) else Latest(b, t)
    decreases |a|
  {
    if a == [] {
      assert a + b == b;
    } else {
      assert (a + b)[1..] == a[1..] + b;
      LatestAppend(a[1..], b, t);
    }
  }

  /** Within a track: the last tempo event that is not too late. */
  lemma {:induction false} LatestOfTrack(events: seq<TrackEvent>, tick: nat, t: nat, k: nat)
    requires k < |events| && events[k].event.Tempo? && tick + Clock(events[..k + 1]) <= t
    requires forall l :: k < l < |events| && events[l].event.Tempo? ==> tick + Clock(events[..l + 1]) > t
    ensures Latest(TrackChanges(events, tick), t) == Some(Change(tick + Clock(events[..k + 1]), events[k].event.us))
    decreases |events|
  {
    hide Clock;
    var now, rest := tick + events[0].delta, events[1..];
    ClockFirst(events);
    var head := if events[0].event.Tempo? then [Change(now, events[0].event.us)] else [];
    LatestAppend(head, TrackChanges(rest, now), t);
    if k == 0 {
      var c := Latest(TrackChanges(rest, now), t);
      LatestIn(TrackChanges(rest, now), t);
      if c.Some? {
        var l := ChangeHasEvent(rest, now, c.value);
        ClockAt(events, l + 1);
        assert false;
      }
    } else {
      ClockAt(events, k);
      forall l | k - 1 < l < |rest| && rest[l].event.Tempo?
        ensures now + Clock(rest[..l + 1]) > t
      {
        ClockAt(events, l + 1);
        assert events[l + 1].event.Tempo?;
      }
      LatestOfTrack(rest, now, t, k - 1);
    }
  }

  lemma {:induction false} ClockMonotone(events: seq<TrackEvent>, k: nat, l: nat)
    requires k <= l <= |events|
    ensures Clock(events[..k]) <= Clock(events[..l])
    decreases l
  {
    if k < l {
      assert events[..l][..l - 1] == events[..l - 1];
      ClockMonotone(events, k, l - 1);
    }
  }

  /** Across tracks: the greatest in (tick, track, position) order of those that are not too late. */
  lemma {:induction false} LatestOfFile(tracks: seq<Track>, t: nat, i: nat, k: nat, at: nat)
    requires SetsTempo(tracks, i, k, at) && at <= t
    requires forall j: nat, l: nat, at': nat :: SetsTempo(tracks, j, l, at') && at' <= t ==>
               InOrder(at', j, l, at, i, k)
    ensures Latest(FileChanges(tracks), t) == Some(Change(at, tracks[i].events[k].event.us))
    decreases |tracks|
  {
    hide Clock;
    var first, rest := TrackChanges(tracks[0].events, 0), FileChanges(tracks[1..]);
    LatestAppend(first, rest, t);
    LatestIn(first, t);
    LatestIn(rest, t);
    if i == 0 {
      var events := tracks[0].events;
      forall l | k < l < |events| && events[l].event.Tempo?
        ensures Clock(events[..l + 1]) > t
      {
        assert SetsTempo(tracks, 0, l, Clock(events[..l + 1]));
        ClockMonotone(events, k + 1, l + 1);
      }
      LatestOfTrack(events, 0, t, k);
      if Latest(rest, t).Some? {
        var j, l := ChangeHasPlace(tracks[1..], Latest(rest, t).value);
        assert SetsTempo(tracks, j + 1, l, Latest(rest, t).value.tick);
      }
    } else {
      forall j: nat, l: nat, at': nat | SetsTempo(tracks[1..], j, l, at') && at' <= t
        ensures InOrder(at', j, l, at, i - 1, k)
      {
        assert SetsTempo(tracks, j + 1, l, at');
      }
      LatestOfFile(tracks[1..], t, i - 1, k, at);
      if Latest(first, t).Some? {
        var l := ChangeHasEvent(tracks[0].events, 0, Latest(first, t).value);
        assert SetsTempo(tracks, 0, l, Latest(first, t).value.tick);
      }
    }
  }

  /**
   * The tempo at a tick is that of the tempo event which is greatest in (tick, track, position) order among
   * those at or before it, an event's tick being the sum of the deltas up to it; with no such event, 120 beats
   * per minute.
   */
  lemma TempoIsLatest(tracks: seq<Track>, t: nat)
    ensures forall i: nat, k: nat, at: nat ::
              SetsTempo(tracks, i, k, at) && at <= t
              && (forall j: nat, l: nat, at': nat :: SetsTempo(tracks, j, l, at') && at' <= t ==>
                    InOrder(at', j, l, at, i, k))
              ==> TempoAt(FileChanges(tracks), t) == tracks[i].events[k].event.us
    ensures (forall i: nat, k: nat, at: nat :: SetsTempo(tracks, i, k, at) ==> at > t) ==>
              TempoAt(FileChanges(tracks), t) == 500_000
  {
    hide SetsTempo, InOrder;
    forall i: nat, k: nat, at: nat |
      SetsTempo(tracks, i, k, at) && at <= t
      && forall j: nat, l: nat, at': nat :: SetsTempo(tracks, j, l, at') && at' <= t ==> InOrder(at', j, l, at, i, k)
      ensures i < |tracks| && k < |tracks[i].events| && tracks[i].events[k].event.Tempo?
      ensures TempoAt(FileChanges(tracks), t) == tracks[i].events[k].event.us
    {
      Sets(tracks, i, k, at);
      LatestOfFile(tracks, t, i, k, at);
    }
    var c := Latest(FileChanges(tracks), t);
    LatestIn(FileChanges(tracks), t);
    if c.Some? {
      var i, k := ChangeHasPlace(tracks, c.value);
    }
  }

  lemma Sets(tracks: seq<Track>, i: nat, k: nat, at: nat)
    requires SetsTempo(tracks, i, k, at)
    ensures i < |tracks| && k < |tracks[i].events| && tracks[i].events[k].event.Tempo?
  {
  }
}
