/** Tracks written with running status: whichever repeated status bytes are left out, the same events come back. */
module SmfElision {
  import opened Bytes
  import opened Wrappers
  import opened SmfFile
  import opened SmfDecode
  import opened SmfRoundTrip
  import opened SmfFidelity
  import opened SmfGrammar

  /** A channel message under its own status may leave it out; its data must not look like one. */
  predicate Elidable(e: Event, running: Option<Byte>) {
    e.Midi? && 0x80 <= e.msg.status < 0xF0 && running == Some(e.msg.status) && e.msg.data != [] && e.msg.data[0] < 0x80
  }

  /** One event, without its status byte when that is wanted and allowed. */
  function ShortTimed(te: TrackEvent, elide: bool, running: Option<Byte>): seq<Byte> {
    VlqBytes(te.delta) + if elide && Elidable(te.event, running) then te.event.msg.data else EventBytes(te.event)
  }

  /** A track up to its end, closed if need be, with the wanted status bytes left out. */
  function ShortTrack(events: seq<TrackEvent>, elide: seq<bool>, running: Option<Byte>): seq<Byte>
    requires |elide| == |events|
  {
    if events == [] then TimedBytes(END)
    else
      ShortTimed(events[0], elide[0], running)
      + if events[0].event.EndOfTrack? then []
        else ShortTrack(events[1..], elide[1..], RunningAfter(running, events[0].event))
  }

  lemma ReadsElided(data: seq<Byte>, pos: nat, end: nat, running: Option<Byte>, te: TrackEvent)
    requires te.delta < VLQ_LIMIT && EventOk(te.event) && Elidable(te.event, running)
    requires At(data, pos, VlqBytes(te.delta) + te.event.msg.data)
    requires pos + |VlqBytes(te.delta)| + |te.event.msg.data| <= end <= |data|
    ensures ParseTimed(data, pos, end, running)
         == Got((PlainTimed(te), StatusOf(te.event)), pos + |VlqBytes(te.delta)| + |te.event.msg.data|)
  {
    hide VlqBytes, ReadVlq, ParseChannel;
    var start, msg := pos + |VlqBytes(te.delta)|, te.event.msg;
    AtSplit(data, pos, VlqBytes(te.delta), msg.data);
    ReadsVlq(data, pos, te.delta);
    assert data[start] == data[start..start + |msg.data|][0];
    ChannelIs(data, start, end, msg.status, Plain(te.event), start + |msg.data|);
  }

  lemma ReadsShort(data: seq<Byte>, pos: nat, end: nat, running: Option<Byte>, te: TrackEvent, elide: bool)
    requires te.delta < VLQ_LIMIT && EventOk(te.event)
    requires At(data, pos, ShortTimed(te, elide, running)) && pos + |ShortTimed(te, elide, running)| <= end <= |data|
    ensures ParseTimed(data, pos, end, running)
         == Got((PlainTimed(te), StatusOf(te.event)), pos + |ShortTimed(te, elide, running)|)
    ensures |ShortTimed(te, elide, running)| >= 2
  {
    hide VlqBytes, EventBytes, EventOk, Plain, StatusOf, ParseTimed;
    if elide && Elidable(te.event, running) {
      ReadsElided(data, pos, end, running, te);
    } else {
      ReadsTimed(data, pos, end, running, te);
    }
  }

  /** Any choice of statuses to leave out, under any running status at the start, parses to the track's cut. */
  lemma {:induction false} ElisionIsInvisible(data: seq<Byte>, pos: nat, end: nat, running: Option<Byte>,
                                              events: seq<TrackEvent>, elide: seq<bool>)
    requires |elide| == |events| && EventsOk(events)
    requires At(data, pos, ShortTrack(events, elide, running))
    requires pos + |ShortTrack(events, elide, running)| <= end <= |data|
    ensures ParseEvents(data, pos, end, running) == Ok(Cut(events))
    decreases |events|
  {
    hide ShortTimed, TimedBytes, ParseTimed, EventOk, Plain, StatusOf, RunningAfter, At;
    if events == [] {
      PlainEnd(END);
      ReadsTimed(data, pos, end, running, END);
      TimedNonEmpty(END);
    } else {
      var te, now := events[0], RunningAfter(running, events[0].event);
      var first := ShortTimed(te, elide[0], running);
      RunningIs(running, te.event);
      PlainKind(te.event);
      if te.event.EndOfTrack? {
        assert first + [] == first;
        ReadsShort(data, pos, end, running, te, elide[0]);
        PlainEnd(te);
      } else {
        AtSplit(data, pos, first, ShortTrack(events[1..], elide[1..], now));
        ReadsShort(data, pos, end, running, te, elide[0]);
        ElisionIsInvisible(data, pos + |first|, end, now, events[1..], elide[1..]);
      }
    }
  }

  /** With nothing left out these are the writer's own bytes, up to the first end of track. */
  lemma {:induction false} NothingElided(events: seq<TrackEvent>, elide: seq<bool>, running: Option<Byte>)
    requires |elide| == |events| && forall i :: 0 <= i < |elide| ==> !elide[i]
    ensures ShortTrack(events, elide, running) <= TrackBytes(events)
    decreases |events|
  {
    hide TimedBytes, TrackBytes;
    if events == [] {
      EmptyTrack();
    } else {
      TrackBytesSplit(events);
      assert ShortTimed(events[0], elide[0], running) == TimedBytes(events[0]) by { NotShort(events[0], running); }
      if events[0].event.EndOfTrack? {
        assert TimedBytes(events[0]) + [] == TimedBytes(events[0]);
      } else {
        NothingElided(events[1..], elide[1..], RunningAfter(running, events[0].event));
      }
    }
  }

  lemma NotShort(te: TrackEvent, running: Option<Byte>)
    ensures ShortTimed(te, false, running) == TimedBytes(te)
  {
  }
}
