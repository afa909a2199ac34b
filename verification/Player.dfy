/** The player's merge of all tracks into one stream of timed events. */
module Player {
  import opened SmfFile
  import opened Sorting
  import opened Tempo
  import opened TempoOrder
  import opened Wrappers

  datatype Cue = Cue(time: real, event: Event)

  /** A cue that still knows which track it came from and its position there. */
  datatype Tagged = Tagged(cue: Cue, track: nat, index: nat)

  function Time(): Cue -> real {
    (c: Cue) => c.time
  }

  function TaggedTime(): Tagged -> real {
    (g: Tagged) => g.cue.time
  }

  function CueOf(): Tagged -> Cue {
    (g: Tagged) => g.cue
  }

  function OfTrack(track: nat): Tagged -> bool {
    (g: Tagged) => g.track == track
  }

  // ---- the unmerged stream ----

  /** The cues of a track from position `index` on, its clock standing at `tick`. */
  function TrackCues(m: TempoMap, events: seq<TrackEvent>, tick: nat, track: nat, index: nat): seq<Tagged> {
    if events == [] then []
    else
      var now := tick + events[0].delta;
      [Tagged(Cue(SecondsAt(m, now), events[0].event), track, index)] + TrackCues(m, events[1..], now, track, index + 1)
  }

  /** All cues, track after track. */
  function AllCues(m: TempoMap, tracks: seq<Track>, track: nat): seq<Tagged> {
    if tracks == [] then []
    else TrackCues(m, tracks[0].events, 0, track, 0) + AllCues(m, tracks[1..], track + 1)
  }

  function FileCues(file: File): seq<Tagged> {
    AllCues(MapOf(file), file.tracks, 0)
  }

  function MergedCues(file: File): seq<Tagged> {
    StableSort(FileCues(file), TaggedTime())
  }

  class SmfPlayer {
    var events: seq<Cue>

    /** The player's stream is the merged one, with the provenance of each event forgotten. */
    constructor (file: File)
      ensures events == Map(MergedCues(file), CueOf())
    {
      hide SecondsAt, MapOf, Insert;
      var m := FromFile(file);
      var all: seq<Cue> := [];
      ghost var tagged: seq<Tagged> := [];
      for k := 0 to |file.tracks|
        invariant all == Map(tagged, CueOf())
        invariant FileCues(file) == tagged + AllCues(m, file.tracks[k..], k)
      {
        var tick: nat := 0;
        var track := file.tracks[k].events;
        ghost var before := tagged;
        for i := 0 to |track|
          invariant all == Map(tagged, CueOf())
          invariant before + TrackCues(m, track, 0, k, 0) == tagged + TrackCues(m, track[i..], tick, k, i)
        {
          tick := tick + track[i].delta;
          SecondsAreIntegral(file, tick);
          var t := TickToSecs(m, tick);
          ghost var g := Tagged(Cue(t, track[i].event), k, i);
          assert track[i..][1..] == track[i + 1..];
          assert TrackCues(m, track[i..], tick - track[i].delta, k, i)
              == [g] + TrackCues(m, track[i + 1..], tick, k, i + 1);
          Assoc(tagged, [g], TrackCues(m, track[i + 1..], tick, k, i + 1));
          MapLast(tagged, g, CueOf());
          all := all + [Cue(t, track[i].event)];
          tagged := tagged + [g];
        }
        assert track[|track|..] == [] && tagged + [] == tagged;
        assert file.tracks[k..][1..] == file.tracks[k + 1..];
        Assoc(before, TrackCues(m, track, 0, k, 0), AllCues(m, file.tracks[k + 1..], k + 1));
      }
      assert file.tracks[|file.tracks|..] == [] && tagged + [] == tagged;
      MapSorts(tagged, TaggedTime(), CueOf(), Time());
      events := StableSort(all, Time());
    }
  }

  lemma MapLast<T, U>(s: seq<T>, x: T, f: T -> U)
    ensures Map(s + [x], f) == Map(s, f) + [f(x)]
  {
  }

  // ---- what the merge keeps ----

  lemma {:induction false} TrackCuesOwn(m: TempoMap, events: seq<TrackEvent>, tick: nat, track: nat, index: nat,
                                        other: nat)
    ensures var cues := TrackCues(m, events, tick, track, index);
            Filter(cues, OfTrack(other)) == if other == track then cues else []
    decreases |events|
  {
    if events != [] {
      TrackCuesOwn(m, events[1..], tick + events[0].delta, track, index + 1, other);
    }
  }

  /** Selecting one track's cues from the unmerged stream gives that track's own. */
  lemma {:induction false} AllCuesOwn(m: TempoMap, tracks: seq<Track>, first: nat, other: nat)
    ensures Filter(AllCues(m, tracks, first), OfTrack(other))
         == if first <= other < first + |tracks| then TrackCues(m, tracks[other - first].events, 0, other, 0) else []
    decreases |tracks|
  {
    hide TrackCues, Filter;
    if tracks == [] {
      NothingOwn(other);
    } else {
      var own, rest := TrackCues(m, tracks[0].events, 0, first, 0), AllCues(m, tracks[1..], first + 1);
      TrackCuesOwn(m, tracks[0].events, 0, first, 0, other);
      AllCuesOwn(m, tracks[1..], first + 1, other);
      FilterAppend(own, rest, OfTrack(other));
      assert own + [] == own;
    }
  }

  lemma NothingOwn(other: nat)
    ensures Filter([], OfTrack(other)) == []
  {
  }

  /** Inside a track time never runs backwards, because ticks only grow and seconds grow with them. */
  lemma {:induction false} TrackCuesSorted(m: TempoMap, events: seq<TrackEvent>, tick: nat, track: nat, index: nat)
    ensures var cues := TrackCues(m, events, tick, track, index);
            Sorted(cues, TaggedTime()) && forall i :: 0 <= i < |cues| ==> SecondsAt(m, tick) <= cues[i].cue.time
    decreases |events|
  {
    hide SecondsAt;
    if events != [] {
      var now := tick + events[0].delta;
      TrackCuesSorted(m, events[1..], now, track, index + 1);
      SecondsMonotone(m, tick, now);
    }
  }

  /** In file order: an earlier track first, and within a track the earlier position. */
  predicate Before(a: Tagged, b: Tagged) {
    a.track < b.track || (a.track == b.track && a.index < b.index)
  }

  ghost predicate InFileOrder(s: seq<Tagged>) {
    forall i, j :: 0 <= i < j < |s| ==> Before(s[i], s[j])
  }

  lemma {:induction false} TrackCuesOrder(m: TempoMap, events: seq<TrackEvent>, tick: nat, track: nat, index: nat)
    ensures var cues := TrackCues(m, events, tick, track, index);
            InFileOrder(cues) && forall i :: 0 <= i < |cues| ==> cues[i].track == track && cues[i].index >= index
    decreases |events|
  {
    if events != [] {
      TrackCuesOrder(m, events[1..], tick + events[0].delta, track, index + 1);
    }
  }

  lemma {:induction false} AllCuesOrder(m: TempoMap, tracks: seq<Track>, first: nat)
    ensures var cues := AllCues(m, tracks, first);
            InFileOrder(cues) && forall i :: 0 <= i < |cues| ==> cues[i].track >= first
    decreases |tracks|
  {
    if tracks != [] {
      TrackCuesOrder(m, tracks[0].events, 0, first, 0);
      AllCuesOrder(m, tracks[1..], first + 1);
    }
  }

  /** Equal times: the merged stream keeps file order among them. */
  ghost predicate TiesInFileOrder(s: seq<Tagged>) {
    forall i, j :: 0 <= i < j < |s| && s[i].cue.time == s[j].cue.time ==> Before(s[i], s[j])
  }

  lemma {:induction false} InsertTies(x: Tagged, s: seq<Tagged>)
    requires TiesInFileOrder(s) && Sorted(s, TaggedTime())
    requires forall i :: 0 <= i < |s| ==> Before(x, s[i])
    ensures TiesInFileOrder(Insert(x, s, TaggedTime()))
    decreases |s|
  {
    if s != [] && x.cue.time > s[0].cue.time {
      InsertTies(x, s[1..]);
      var r := Insert(x, s[1..], TaggedTime());
      forall j | 0 <= j < |r| && s[0].cue.time == r[j].cue.time
        ensures Before(s[0], r[j])
      {
        InsertedFrom(x, s[1..], TaggedTime(), j);
      }
    }
  }

  lemma {:induction false} SortTies(s: seq<Tagged>)
    requires InFileOrder(s)
    ensures TiesInFileOrder(StableSort(s, TaggedTime()))
    decreases |s|
  {
    if s != [] {
      SortTies(s[1..]);
      StableSortSorts(s[1..], TaggedTime());
      var r := StableSort(s[1..], TaggedTime());
      forall i | 0 <= i < |r|
        ensures Before(s[0], r[i])
      {
        assert r[i] in multiset(r);
        assert r[i] in s[1..];
      }
      InsertTies(s[0], r);
    }
  }

  /**
   * The merge loses, invents and reorders nothing within a track: the stream is a permutation of all tracks'
   * cues in non-decreasing time; each track's cues appear in it in their original order and simultaneous
   * cues of different tracks in track order.
   */
  lemma MergeIsFaithful(file: File)
    ensures multiset(MergedCues(file)) == multiset(FileCues(file))
    ensures Sorted(MergedCues(file), TaggedTime())
    ensures forall track: nat :: track < |file.tracks| ==>
              Filter(MergedCues(file), OfTrack(track)) == TrackCues(MapOf(file), file.tracks[track].events, 0, track, 0)
    ensures TiesInFileOrder(MergedCues(file))
  {
    hide MapOf;
    var m := MapOf(file);
    StableSortSorts(FileCues(file), TaggedTime());
    forall track: nat | track < |file.tracks|
      ensures Filter(MergedCues(file), OfTrack(track)) == TrackCues(m, file.tracks[track].events, 0, track, 0)
    {
      AllCuesOwn(m, file.tracks, 0, track);
      TrackCuesSorted(m, file.tracks[track].events, 0, track, 0);
      SelectionKept(FileCues(file), TaggedTime(), OfTrack(track));
    }
    AllCuesOrder(m, file.tracks, 0);
    SortTies(FileCues(file));
  }

  lemma {:induction false} TrackCueAt(m: TempoMap, events: seq<TrackEvent>, tick: nat, track: nat, index: nat, k: nat)
    requires k < |events|
    ensures var cues := TrackCues(m, events, tick, track, index);
            && |cues| == |events|
            && cues[k] == Tagged(Cue(SecondsAt(m, tick + Clock(events[..k + 1])), events[k].event), track, index + k)
    decreases |events|
  {
    hide SecondsAt, Clock;
    ClockFirst(events);
    if k > 0 {
      ClockAt(events, k);
    }
    if |events| > 1 {
      TrackCueAt(m, events[1..], tick + events[0].delta, track, index + 1, if k > 0 then k - 1 else 0);
    }
  }

  /**
   * When each event plays. The cues of a track are its events, one each and in order, and each plays at the
   * integral of the file's tempo up to the sum of the deltas up to and including its own; at zero without beats.
   */
  lemma PlaysOnTime(file: File, track: nat, k: nat)
    requires track < |file.tracks| && k < |file.tracks[track].events|
    ensures var events := file.tracks[track].events;
            var cues := Filter(MergedCues(file), OfTrack(track));
            && |cues| == |events| && cues[k].index == k && cues[k].cue.event == events[k].event
            && (file.division.Smpte? || file.division.tpb == 0 ==> cues[k].cue.time == 0.0)
            && (file.division.TicksPerBeat? && file.division.tpb > 0 ==>
                  cues[k].cue.time == Integral(FileChanges(file.tracks), Clock(events[..k + 1])) as real
                                      / (file.division.tpb as real * 1_000_000.0))
  {
    hide MergedCues, SecondsAt, Clock, Integral, MapOf, Filter, TrackCues, FileChanges, TiesInFileOrder;
    MergeIsFaithful(file);
    TrackCueAt(MapOf(file), file.tracks[track].events, 0, track, 0, k);
    SecondsAreIntegral(file, Clock(file.tracks[track].events[..k + 1]));
  }

  lemma {:induction false} AllCuesAtZero(m: TempoMap, tracks: seq<Track>, first: nat)
    requires m.tpb == 0
    ensures AtZero(AllCues(m, tracks, first))
    decreases |tracks|
  {
    if tracks != [] {
      TrackCuesAtZero(m, tracks[0].events, 0, first, 0);
      AllCuesAtZero(m, tracks[1..], first + 1);
    }
  }

  predicate AtZero(s: seq<Tagged>) {
    forall i :: 0 <= i < |s| ==> s[i].cue.time == 0.0
  }

  lemma {:induction false} TrackCuesAtZero(m: TempoMap, events: seq<TrackEvent>, tick: nat, track: nat, index: nat)
    requires m.tpb == 0
    ensures AtZero(TrackCues(m, events, tick, track, index))
    decreases |events|
  {
    if events != [] {
      TrackCuesAtZero(m, events[1..], tick + events[0].delta, track, index + 1);
    }
  }

  /** Without beats every time is zero, and the stream is one track after the other. */
  lemma TimelessIsConcatenation(file: File)
    requires file.division.Smpte? || file.division.tpb == 0
    ensures MergedCues(file) == FileCues(file)
  {
    AllCuesAtZero(MapOf(file), file.tracks, 0);
    SortedStays(FileCues(file), TaggedTime());
  }
}
