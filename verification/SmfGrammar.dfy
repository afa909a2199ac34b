/**
 * Which bytes are a Standard MIDI File and which file they are, after RP-001 and with everything the parser
 * forgives: the parser returns a file if and only if the bytes are that file.
 */
module SmfGrammar {
  import opened Bytes
  import opened Wrappers
  import opened SmfFile
  import opened SmfDecode
  import opened SmfRoundTrip
  import opened SmfFidelity
  import Utf8

  // ---- quantities ----

  /** The number seven bits a byte spell, most significant first. */
  function SevenBits(s: seq<Byte>): nat {
    if s == [] then 0 else SevenBits(s[..|s| - 1]) * 128 + s[|s| - 1] % 128
  }

  /** One to four bytes, all but the last with their top bit set; leading zero groups are allowed. */
  predicate VlqAt(data: seq<Byte>, pos: nat, v: nat, next: nat) {
    && pos < next <= |data| && next <= pos + 4
    && (forall i :: pos <= i < next - 1 ==> data[i] >= 0x80) && data[next - 1] < 0x80
    && v == SevenBits(data[pos..next])
  }

  lemma SevenBitsStep(data: seq<Byte>, pos: nat, next: nat)
    requires pos < next <= |data|
    ensures SevenBits(data[pos..next]) == SevenBits(data[pos..next - 1]) * 128 + data[next - 1] % 128
  {
    assert data[pos..next][..next - pos - 1] == data[pos..next - 1];
  }

  /** With the groups from `start` to `pos` read, the reader goes on exactly as the grammar does. */
  lemma {:induction false} VlqFromIs(data: seq<Byte>, start: nat, pos: nat, v: nat, next: nat)
    requires start <= pos <= start + 4 && pos <= |data|
    requires forall i :: start <= i < pos ==> data[i] >= 0x80
    ensures VlqFrom(data, pos, SevenBits(data[start..pos]), start + 4 - pos) == Got(v, next)
       <==> VlqAt(data, start, v, next) && next > pos
    decreases start + 4 - pos
  {
    if pos < start + 4 && pos < |data| {
      SevenBitsStep(data, start, pos + 1);
      if data[pos] >= 0x80 {
        VlqFromIs(data, start, pos + 1, v, next);
      }
    }
  }

  lemma VlqIs(data: seq<Byte>, pos: nat, v: nat, next: nat)
    ensures ReadVlq(data, pos) == Got(v, next) <==> VlqAt(data, pos, v, next)
  {
    if pos <= |data| {
      assert data[pos..pos] == [];
      VlqFromIs(data, pos, pos, v, next);
    }
  }

  // ---- events ----

  /** A quantity and that many bytes, inside the track. */
  predicate PayloadAt(data: seq<Byte>, pos: nat, end: nat, payload: seq<Byte>, next: nat) {
    && |payload| <= next <= end <= |data|
    && VlqAt(data, pos, |payload|, next - |payload|) && data[next - |payload|..next] == payload
  }

  function Text(s: string): seq<Byte> {
    seq(|s|, i requires 0 <= i < |s| => if s[i] as int < 128 then s[i] as int else 0)
  }

  /** What a meta event of a type and a payload means; longer payloads than needed are cut. */
  predicate Means(t: Byte, payload: seq<Byte>, e: Event) {
    match e
    case Midi(_) => false
    case TrackName(name) => t == 0x03 && name == if Utf8.Valid(payload) then payload else Text("<invalid UTF-8>")
    case EndOfTrack => t == 0x2F
    case Tempo(us) =>
      t == 0x51 && |payload| >= 3 && us == payload[0] as int * 0x1_0000 + payload[1] as int * 0x100 + payload[2]
    case TimeSignature(n, d, c, b) => t == 0x58 && |payload| >= 4 && payload[..4] == [n, d, c, b]
    case KeySignature(sf, minor) =>
      t == 0x59 && |payload| >= 2 && (sf - payload[0] == 0 || sf - payload[0] == -256) && (minor <==> payload[1] != 0)
    case UnknownMeta(metaType, data) => metaType == t && data == payload && t !in {0x03, 0x2F, 0x51, 0x58, 0x59}
  }

  /** How many data bytes a channel message has. */
  function DataBytes(status: Byte): nat {
    if 0xC0 <= status < 0xE0 then 1 else 2
  }

  /** The type of a meta event and a payload that means the event. */
  ghost predicate MetaAt(data: seq<Byte>, pos: nat, end: nat, e: Event, next: nat) {
    pos < |data| && exists payload :: PayloadAt(data, pos + 1, end, payload, next) && Means(data[pos], payload, e)
  }

  /**
   * An event from `pos` to `next`: SysEx and meta events with their lengths, channel messages with their status
   * or, when it is the running one and the data does not look like a status, without.
   */
  ghost predicate EventAt(data: seq<Byte>, pos: nat, end: nat, running: Option<Byte>, e: Event, next: nat)
    requires pos < |data|
  {
    if e.Midi? then
      var msg := e.msg;
      && msg.timestamp == 0
      && if msg.status == 0xF0 || msg.status == 0xF7 then
           data[pos] == msg.status && PayloadAt(data, pos + 1, end, msg.data, next)
         else
           && 0x80 <= msg.status < 0xF0 && |msg.data| == DataBytes(msg.status) && next <= end
           && ((At(data, pos, [msg.status] + msg.data) && next == pos + 1 + |msg.data|)
               || (At(data, pos, msg.data) && next == pos + |msg.data|
                   && running == Some(msg.status) && data[pos] < 0x80))
    else
      data[pos] == 0xFF && MetaAt(data, pos + 1, end, e, next)
  }

  lemma PayloadIs(data: seq<Byte>, pos: nat, end: nat, pastEnd: SmfError, payload: seq<Byte>, next: nat)
    requires end <= |data|
    ensures ReadPayload(data, pos, end, pastEnd) == Got(payload, next) <==> PayloadAt(data, pos, end, payload, next)
  {
    hide ReadVlq, VlqAt;
    var r := ReadVlq(data, pos);
    if r.Got? {
      VlqIs(data, pos, r.value, r.next);
      VlqIs(data, pos, |payload|, if next >= |payload| then next - |payload| else 0);
    } else if next >= |payload| {
      VlqIs(data, pos, |payload|, next - |payload|);
    }
  }

  lemma MetaIs(t: Byte, payload: seq<Byte>, e: Event)
    ensures DecodeMeta(t, payload) == Ok(e) <==> Means(t, payload, e)
  {
    assert Text("<invalid UTF-8>") == INVALID_NAME;
    hide Utf8.Valid, Text, INVALID_NAME;
    if |payload| >= 4 {
      assert payload[..4] == [payload[0], payload[1], payload[2], payload[3]];
    }
  }

  /** A channel message whose data starts at `pos`. */
  ghost predicate DataAt(data: seq<Byte>, pos: nat, end: nat, status: Byte, e: Event, next: nat) {
    && e.Midi? && e.msg.timestamp == 0 && e.msg.status == status && 0x80 <= status < 0xF0
    && |e.msg.data| == DataBytes(status) && At(data, pos, e.msg.data) && next == pos + |e.msg.data| <= end
  }

  lemma ChannelIs(data: seq<Byte>, pos: nat, end: nat, status: Byte, e: Event, next: nat)
    requires end <= |data|
    ensures ParseChannel(data, pos, end, status) == Got((e, Some(status)), next)
       <==> DataAt(data, pos, end, status, e, next)
    ensures ParseChannel(data, pos, end, status).Got? ==> ParseChannel(data, pos, end, status).value.1 == Some(status)
  {
    var r := ParseChannel(data, pos, end, status);
    if r.Got? {
      var n := DataBytes(status);
      assert data[pos..pos + n] == r.value.0.msg.data;
    }
    if DataAt(data, pos, end, status, e, next) {
      assert data[pos] == e.msg.data[0];
      assert |e.msg.data| == 2 ==> data[pos + 1] == e.msg.data[1];
    }
  }

  /** The parser's event is the grammar's, with the status of a channel message as the running one. */
  lemma EventIs(data: seq<Byte>, pos: nat, end: nat, running: Option<Byte>, e: Event, next: nat)
    requires pos < end <= |data|
    ensures ParseEvent(data, pos, end, running) == Got((e, StatusOf(e)), next)
       <==> EventAt(data, pos, end, running, e, next)
    ensures ParseEvent(data, pos, end, running).Got? ==>
              ParseEvent(data, pos, end, running).value.1 == StatusOf(ParseEvent(data, pos, end, running).value.0)
  {
    hide ReadPayload, PayloadAt, DecodeMeta, Means, ParseChannel, DataBytes;
    var first := data[pos];
    if first == 0xFF {
      MetaEventIs(data, pos, end, e, next);
    } else if first == 0xF0 || first == 0xF7 {
      var r := ReadPayload(data, pos + 1, end, SysExPastEnd);
      if r.Got? {
        PayloadIs(data, pos + 1, end, SysExPastEnd, r.value, r.next);
      }
      if e.Midi? {
        PayloadIs(data, pos + 1, end, SysExPastEnd, e.msg.data, next);
        FirstByte(data, pos, e.msg);
      }
    } else {
      var status := if first >= 0x80 then first else if running.Some? then running.value else 0;
      var dataPos := if first >= 0x80 then pos + 1 else pos;
      ChannelIs(data, dataPos, end, status, e, next);
      var r := ParseChannel(data, dataPos, end, status);
      if r.Got? {
        ChannelIs(data, dataPos, end, status, r.value.0, r.next);
      }
      if e.Midi? {
        FirstByte(data, pos, e.msg);
      }
    }
  }

  lemma MetaEventIs(data: seq<Byte>, pos: nat, end: nat, e: Event, next: nat)
    requires pos < end <= |data|
    ensures ParseMeta(data, pos + 1, end) == Got((e, None), next)
       <==> !e.Midi? && MetaAt(data, pos + 1, end, e, next)
    ensures ParseMeta(data, pos + 1, end).Got? ==>
              ParseMeta(data, pos + 1, end).value.1 == None && !ParseMeta(data, pos + 1, end).value.0.Midi?
  {
    hide ReadPayload, PayloadAt, DecodeMeta, Means;
    if pos + 1 < |data| {
      var r := ReadPayload(data, pos + 2, end, MetaPastEnd);
      if r.Got? {
        PayloadIs(data, pos + 2, end, MetaPastEnd, r.value, r.next);
        MetaIs(data[pos + 1], r.value, e);
        NotMidi(data[pos + 1], r.value);
      }
      if ParseMeta(data, pos + 1, end) == Got((e, None), next) {
        assert PayloadAt(data, pos + 1 + 1, end, r.value, next) && Means(data[pos + 1], r.value, e);
      }
      if MetaAt(data, pos + 1, end, e, next) {
        var payload :| PayloadAt(data, pos + 1 + 1, end, payload, next) && Means(data[pos + 1], payload, e);
        PayloadIs(data, pos + 2, end, MetaPastEnd, payload, next);
        MetaIs(data[pos + 1], payload, e);
        NeverMidi(data[pos + 1], payload, e);
      }
    }
  }

  lemma NotMidi(t: Byte, payload: seq<Byte>)
    ensures DecodeMeta(t, payload).Ok? ==> !DecodeMeta(t, payload).value.Midi?
  {
  }

  lemma NeverMidi(t: Byte, payload: seq<Byte>, e: Event)
    ensures Means(t, payload, e) ==> !e.Midi?
  {
  }

  lemma FirstByte(data: seq<Byte>, pos: nat, msg: MidiMessage)
    requires pos < |data|
    ensures At(data, pos, [msg.status] + msg.data) ==> data[pos] == msg.status && At(data, pos + 1, msg.data)
    ensures data[pos] == msg.status && At(data, pos + 1, msg.data) ==> At(data, pos, [msg.status] + msg.data)
  {
    var s := [msg.status] + msg.data;
    if At(data, pos, s) {
      AtSplit(data, pos, [msg.status], msg.data);
      assert data[pos] == data[pos..pos + |s|][0];
    }
    if data[pos] == msg.status && At(data, pos + 1, msg.data) {
      assert data[pos..pos + |s|] == [data[pos]] + data[pos + 1..pos + 1 + |msg.data|];
    }
  }

  // ---- tracks ----

  /** A delta time, and an event that starts inside the track. */
  ghost predicate TimedAt(data: seq<Byte>, pos: nat, end: nat, running: Option<Byte>, te: TrackEvent, next: nat) {
    exists start: nat ::
      && VlqAt(data, pos, te.delta, start) && start < end && start < |data|
      && EventAt(data, start, end, running, te.event, next)
  }

  lemma TimedIs(data: seq<Byte>, pos: nat, end: nat, running: Option<Byte>, te: TrackEvent, next: nat)
    requires end <= |data|
    ensures ParseTimed(data, pos, end, running) == Got((te, StatusOf(te.event)), next)
       <==> TimedAt(data, pos, end, running, te, next)
    ensures ParseTimed(data, pos, end, running).Got? ==>
              ParseTimed(data, pos, end, running).value.1 == StatusOf(ParseTimed(data, pos, end, running).value.0.event)
  {
    hide ReadVlq, VlqAt, ParseEvent, EventAt, StatusOf;
    var delta := ReadVlq(data, pos);
    if delta.Got? {
      VlqIs(data, pos, delta.value, delta.next);
      if delta.next < end {
        EventIs(data, delta.next, end, running, te.event, next);
      }
    }
    forall start: nat | VlqAt(data, pos, te.delta, start)
      ensures delta == Got(te.delta as nat, start)
    {
      VlqIs(data, pos, te.delta, start);
    }
  }

  /** The running status is that of the last channel message, whatever metas and SysEx come between. */
  function RunningAfter(running: Option<Byte>, e: Event): Option<Byte> {
    if e.Midi? && 0x80 <= e.msg.status < 0xF0 then Some(e.msg.status) else running
  }

  lemma RunningIs(running: Option<Byte>, e: Event)
    ensures Kept(running, StatusOf(e)) == RunningAfter(running, e)
  {
  }

  /** Events one after the other: to the end of the chunk, or to the first end of track and no further. */
  ghost predicate EventsAt(data: seq<Byte>, pos: nat, end: nat, running: Option<Byte>, events: seq<TrackEvent>)
    decreases |events|
  {
    if events == [] then pos >= end
    else
      pos < end && exists next: nat ::
        && TimedAt(data, pos, end, running, events[0], next)
        && if events[0].event.EndOfTrack? then |events| == 1
           else EventsAt(data, next, end, RunningAfter(running, events[0].event), events[1..])
  }

  lemma {:induction false} ParsedAreThere(data: seq<Byte>, pos: nat, end: nat, running: Option<Byte>)
    requires end <= |data| && ParseEvents(data, pos, end, running).Ok?
    ensures EventsAt(data, pos, end, running, ParseEvents(data, pos, end, running).value)
    decreases end - pos
  {
    hide ParseTimed, TimedAt, StatusOf;
    if pos < end {
      var r := ParseTimed(data, pos, end, running);
      TimedConfined(data, pos, end, running);
      TimedIs(data, pos, end, running, r.value.0, r.next);
      RunningIs(running, r.value.0.event);
      var events := ParseEvents(data, pos, end, running).value;
      assert r.value.1 == StatusOf(r.value.0.event) && events[0] == r.value.0;
      if !r.value.0.event.EndOfTrack? {
        ParsedAreThere(data, r.next, end, Kept(running, r.value.1));
        assert events[1..] == ParseEvents(data, r.next, end, Kept(running, r.value.1)).value;
      }
      assert TimedAt(data, pos, end, running, events[0], r.next);
    }
  }

  lemma {:induction false} ThereIsParsed(data: seq<Byte>, pos: nat, end: nat, running: Option<Byte>,
                                         events: seq<TrackEvent>)
    requires end <= |data| && EventsAt(data, pos, end, running, events)
    ensures ParseEvents(data, pos, end, running) == Ok(events)
    decreases |events|
  {
    hide ParseTimed, TimedAt, StatusOf;
    if events != [] {
      var te := events[0];
      var next: nat :| TimedAt(data, pos, end, running, te, next)
        && if te.event.EndOfTrack? then |events| == 1
           else EventsAt(data, next, end, RunningAfter(running, te.event), events[1..]);
      TimedIs(data, pos, end, running, te, next);
      RunningIs(running, te.event);
      if !te.event.EndOfTrack? {
        ThereIsParsed(data, next, end, Kept(running, StatusOf(te.event)), events[1..]);
        assert [te] + events[1..] == events;
      } else {
        assert events == [te];
      }
    }
  }

  /** The event loop, on every input: it returns the events if and only if the bytes are those events. */
  lemma EventsExactly(data: seq<Byte>, pos: nat, end: nat, running: Option<Byte>, events: seq<TrackEvent>)
    requires end <= |data|
    ensures ParseEvents(data, pos, end, running) == Ok(events) <==> EventsAt(data, pos, end, running, events)
  {
    if ParseEvents(data, pos, end, running).Ok? {
      ParsedAreThere(data, pos, end, running);
    }
    if EventsAt(data, pos, end, running, events) {
      ThereIsParsed(data, pos, end, running, events);
    }
  }

  // ---- files ----

  predicate ShortAt(data: seq<Byte>, pos: nat, v: nat) {
    pos + 2 <= |data| && v == data[pos] as int * 0x100 + data[pos + 1]
  }

  predicate LongAt(data: seq<Byte>, pos: nat, v: nat) {
    && pos + 4 <= |data|
    && v == data[pos] as int * 0x100_0000 + data[pos + 1] as int * 0x1_0000
            + data[pos + 2] as int * 0x100 + data[pos + 3]
  }

  /** The name of a track: that of its last name event. */
  predicate NamedBy(name: Option<seq<Byte>>, events: seq<TrackEvent>) {
    match name
    case None => forall i :: 0 <= i < |events| ==> !events[i].event.TrackName?
    case Some(n) =>
      exists i :: 0 <= i < |events| && events[i].event == TrackName(n)
                  && forall j :: i < j < |events| ==> !events[j].event.TrackName?
  }

  lemma {:induction false} NameIs(name: Option<seq<Byte>>, events: seq<TrackEvent>)
    ensures LastName(events) == name <==> NamedBy(name, events)
    decreases |events|
  {
    if events != [] {
      var n := |events| - 1;
      if events[n].event.TrackName? {
        if name == Some(events[n].event.name) {
          assert events[n].event == TrackName(name.value);
        }
      } else {
        NameIs(name, events[..n]);
        if name.Some? {
          if NamedBy(name, events[..n]) {
            var i :| 0 <= i < n && events[..n][i].event == TrackName(name.value)
                     && forall j :: i < j < n ==> !events[..n][j].event.TrackName?;
            forall j | i < j < |events|
              ensures !events[j].event.TrackName?
            {
              assert j < n ==> events[j] == events[..n][j];
            }
            assert events[i].event == TrackName(name.value);
          }
          if NamedBy(name, events) {
            var i :| 0 <= i < |events| && events[i].event == TrackName(name.value)
                     && forall j :: i < j < |events| ==> !events[j].event.TrackName?;
            assert events[..n][i].event == TrackName(name.value);
          }
        } else {
          assert forall i :: 0 <= i < n ==> events[..n][i] == events[i];
        }
      }
    }
  }

  /** Chunks one after the other, each as long as it says, whatever follows the last event in it. */
  ghost predicate TracksAt(data: seq<Byte>, pos: nat, tracks: seq<Track>)
    decreases |tracks|
  {
    tracks != [] ==>
      exists n: nat :: TrackAt(data, pos, n, tracks[0]) && TracksAt(data, pos + 8 + n, tracks[1..])
  }

  ghost predicate TrackAt(data: seq<Byte>, pos: nat, n: nat, track: Track) {
    && At(data, pos, Text("MTrk")) && LongAt(data, pos + 4, n) && pos + 8 + n <= |data|
    && EventsAt(data, pos + 8, pos + 8 + n, None, track.events) && NamedBy(track.name, track.events)
  }

  lemma TrackIs(data: seq<Byte>, pos: nat, n: nat, track: Track)
    ensures ParseTrack(data, pos) == Got(track, pos + 8 + n) <==> TrackAt(data, pos, n, track)
  {
    hide ParseEvents, EventsAt, LastName, NamedBy;
    assert Text("MTrk") == MTRK;
    hide Text, MTRK;
    NameIs(track.name, track.events);
    if pos + 8 <= |data| {
      var len := FromBe32(data[pos + 4..pos + 8]);
      LongIs(data, pos + 4);
      hide FromBe32, LongAt;
      if pos + 8 + len <= |data| {
        EventsExactly(data, pos + 8, pos + 8 + len, None, track.events);
      }
      if LongAt(data, pos + 4, n) {
        LongUnique(data, pos + 4, n, len);
      }
    }
  }

  lemma LongIs(data: seq<Byte>, pos: nat)
    requires pos + 4 <= |data|
    ensures LongAt(data, pos, FromBe32(data[pos..pos + 4]))
  {
  }

  lemma LongUnique(data: seq<Byte>, pos: nat, v: nat, w: nat)
    requires LongAt(data, pos, v) && LongAt(data, pos, w)
    ensures v == w
  {
  }

  lemma TrackPlace(data: seq<Byte>, pos: nat)
    requires ParseTrack(data, pos).Got?
    ensures pos + 8 <= ParseTrack(data, pos).next
  {
    hide ParseEvents, LastName;
  }

  lemma {:induction false} TracksAre(data: seq<Byte>, pos: nat, tracks: seq<Track>)
    ensures (exists next :: ParseTracks(data, pos, |tracks|) == Got(tracks, next)) <==> TracksAt(data, pos, tracks)
    decreases |tracks|
  {
    hide ParseTrack, TrackAt;
    if tracks == [] {
      assert ParseTracks(data, pos, 0) == Got(tracks, pos);
    } else {
      var r := ParseTrack(data, pos);
      if r.Got? {
        TrackPlace(data, pos);
        TrackIs(data, pos, r.next - pos - 8, r.value);
        TracksAre(data, r.next, tracks[1..]);
        var p, rest := ParseTracks(data, pos, |tracks|), ParseTracks(data, r.next, |tracks| - 1);
        if p.Got? {
          assert p.value[0] == r.value && p.value[1..] == rest.value;
        }
        if r.value == tracks[0] && rest.Got? && rest.value == tracks[1..] {
          assert [tracks[0]] + tracks[1..] == tracks;
          assert p == Got(tracks, rest.next);
        }
      }
      forall n: nat | TrackAt(data, pos, n, tracks[0])
        ensures r == Got(tracks[0], pos + 8 + n)
      {
        TrackIs(data, pos, n, tracks[0]);
      }
    }
  }

  /** Ticks per beat below 2^15, or the two bytes of a frame rate with the top bit taken off the first. */
  predicate DivisionAt(data: seq<Byte>, pos: nat, d: Division) {
    match d
    case TicksPerBeat(tpb) => tpb < 0x8000 && ShortAt(data, pos, tpb)
    case Smpte(fps, subframes) => fps < 0x80 && ShortAt(data, pos, (0x80 + fps) * 0x100 + subframes)
  }

  /** A header of six bytes and as many chunks as it announces; anything may follow. */
  ghost predicate FileAt(data: seq<Byte>, file: File) {
    && At(data, 0, Text("MThd")) && LongAt(data, 4, 6)
    && ShortAt(data, 8, match file.format case SingleTrack => 0 case MultiTrack => 1 case MultiSong => 2)
    && ShortAt(data, 10, |file.tracks|)
    && DivisionAt(data, 12, file.division)
    && TracksAt(data, 14, file.tracks)
  }

  lemma HeaderIs(data: seq<Byte>, file: File)
    ensures ParseHeader(data).Ok? && ParseHeader(data).value.format == file.format
            && ParseHeader(data).value.count == |file.tracks| && ParseHeader(data).value.division == file.division
       <==> At(data, 0, Text("MThd")) && LongAt(data, 4, 6)
            && ShortAt(data, 8, match file.format case SingleTrack => 0 case MultiTrack => 1 case MultiSong => 2)
            && ShortAt(data, 10, |file.tracks|) && DivisionAt(data, 12, file.division)
  {
    assert Text("MThd") == MTHD;
    hide Text, MTHD;
    if |data| >= 14 {
      LongIs(data, 4);
      hide LongAt;
      if LongAt(data, 4, 6) {
        LongUnique(data, 4, 6, FromBe32(data[4..8]));
      }
      hide FromBe32;
      assert data[..4] == data[0..4];
      assert data[8..10] == [data[8], data[9]] && data[10..12] == [data[10], data[11]];
    }
  }

  /** The parser, on every input: it returns a file if and only if the bytes are that file. */
  lemma ParsesExactly(data: seq<Byte>, file: File)
    ensures Parse(data) == Ok(file) <==> FileAt(data, file)
  {
    hide ParseHeader, ParseTracks, TracksAt, LongAt, ShortAt, DivisionAt, Text;
    HeaderIs(data, file);
    TracksAre(data, 14, file.tracks);
    if Parse(data).Ok? {
      ChunksConsumed(data, 14, ParseHeader(data).value.count) by { HeaderFits(data); }
      assert ParseTracks(data, 14, ParseHeader(data).value.count)
          == Got(Parse(data).value.tracks, ParseTracks(data, 14, ParseHeader(data).value.count).next);
    }
  }

  lemma HeaderFits(data: seq<Byte>)
    requires ParseHeader(data).Ok?
    ensures 14 <= |data|
  {
  }
}
