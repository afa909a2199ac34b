/** Whole files: what parsing a written file gives, and what writing a parsed file keeps. */
module SmfFidelity {
  import opened Bytes
  import opened Wrappers
  import opened SmfFile
  import opened SmfDecode
  import opened SmfRoundTrip
  import Utf8

  // ---- tracks ----

  const END: TrackEvent := TrackEvent(0, EndOfTrack)

  function PlainTimed(te: TrackEvent): TrackEvent {
    TrackEvent(te.delta, Plain(te.event))
  }

  /** A track's events up to its first end-of-track event, or closed by one of delta 0. */
  function Cut(events: seq<TrackEvent>): seq<TrackEvent> {
    if events == [] then [END]
    else if events[0].event.EndOfTrack? then [events[0]]
    else [PlainTimed(events[0])] + Cut(events[1..])
  }

  /** Everything up to the first end-of-track event can be carried by the format. */
  predicate EventsOk(events: seq<TrackEvent>) {
    events != [] ==>
      && events[0].delta < VLQ_LIMIT && EventOk(events[0].event)
      && (events[0].event.EndOfTrack? || EventsOk(events[1..]))
  }

  /** No SysEx message before the track's first end. */
  predicate NoSysEx(events: seq<TrackEvent>) {
    events != [] ==>
      !IsSysEx(events[0].event) && (events[0].event.EndOfTrack? || NoSysEx(events[1..]))
  }

  predicate FileNoSysEx(file: File) {
    forall i :: 0 <= i < |file.tracks| ==> NoSysEx(file.tracks[i].events)
  }

  function NormalTrack(track: Track): Track {
    Track(LastName(Cut(track.events)), Cut(track.events))
  }

  predicate TrackOk(track: Track) {
    EventsOk(track.events) && |TrackBytes(track.events)| < CHUNK_LIMIT
  }

  lemma ReadsTimed(data: seq<Byte>, pos: nat, end: nat, running: Option<Byte>, te: TrackEvent)
    requires te.delta < VLQ_LIMIT && EventOk(te.event)
    requires At(data, pos, TimedBytes(te)) && pos + |TimedBytes(te)| <= end <= |data|
    ensures ParseTimed(data, pos, end, running) == Got((PlainTimed(te), StatusOf(te.event)), pos + |TimedBytes(te)|)
  {
    hide VlqBytes, EventBytes, ReadVlq, ParseEvent, EventOk, Plain, StatusOf;
    AtSplit(data, pos, VlqBytes(te.delta), EventBytes(te.event));
    ReadsVlq(data, pos, te.delta);
    ReadsEvent(data, pos + |VlqBytes(te.delta)|, end, running, te.event);
  }

  /** The closing event the writer adds is an end-of-track event of delta 0. */
  lemma ClosingIsEnd()
    ensures Closing([]) == TimedBytes(END)
  {
    VlqShape(0);
  }

  lemma TrackBytesSplit(events: seq<TrackEvent>)
    requires events != []
    ensures events[0].event.EndOfTrack? ==> TrackBytes(events) == TimedBytes(events[0]) + EventsBytes(events[1..])
    ensures !events[0].event.EndOfTrack? ==> TrackBytes(events) == TimedBytes(events[0]) + TrackBytes(events[1..])
  {
    hide TimedBytes;
    Assoc(TimedBytes(events[0]), EventsBytes(events[1..]), Closing(events));
  }

  /** Under any running status, a written track parses to its cut. */
  lemma {:induction false} EventsRoundTrip(data: seq<Byte>, pos: nat, end: nat, running: Option<Byte>,
                                           events: seq<TrackEvent>)
    requires EventsOk(events)
    requires At(data, pos, TrackBytes(events)) && pos + |TrackBytes(events)| <= end <= |data|
    ensures ParseEvents(data, pos, end, running) == Ok(Cut(events))
    decreases |events|
  {
    hide TimedBytes, TrackBytes, ParseTimed, EventOk, Plain, StatusOf;
    if events == [] {
      EmptyTrack();
      PlainEnd(END);
      ReadsTimed(data, pos, end, running, END);
      TimedNonEmpty(END);
    } else {
      var te, rest := events[0], events[1..];
      TrackBytesSplit(events);
      TimedNonEmpty(te);
      if te.event.EndOfTrack? {
        AtSplit(data, pos, TimedBytes(te), EventsBytes(rest));
        ReadsTimed(data, pos, end, running, te);
        PlainEnd(te);
      } else {
        AtSplit(data, pos, TimedBytes(te), TrackBytes(rest));
        ReadsTimed(data, pos, end, running, te);
        PlainKind(te.event);
        EventsRoundTrip(data, pos + |TimedBytes(te)|, end, Kept(running, StatusOf(te.event)), rest);
      }
    }
  }

  /** SysEx apart, an event that comes back was carried, wherever the parser then stops. */
  lemma TimedReadBack(data: seq<Byte>, pos: nat, end: nat, running: Option<Byte>, te: TrackEvent)
    requires te.delta < VLQ_LIMIT && EventFits(te.event) && !IsSysEx(te.event)
    requires At(data, pos, TimedBytes(te)) && pos + |TimedBytes(te)| <= end <= |data|
    requires ParseTimed(data, pos, end, running).Got? && ParseTimed(data, pos, end, running).value.0 == PlainTimed(te)
    ensures EventOk(te.event)
  {
    hide VlqBytes, EventBytes, ReadVlq, ParseEvent, EventOk, Plain, EventFits, IsSysEx;
    AtSplit(data, pos, VlqBytes(te.delta), EventBytes(te.event));
    ReadsVlq(data, pos, te.delta);
    ReadBackIsOk(data, pos + |VlqBytes(te.delta)|, end, running, te.event);
  }

  /** Where the first event of a track stands among its bytes. */
  lemma FirstAt(data: seq<Byte>, pos: nat, end: nat, events: seq<TrackEvent>)
    requires events != [] && At(data, pos, TrackBytes(events)) && pos + |TrackBytes(events)| <= end
    ensures At(data, pos, TimedBytes(events[0])) && pos + |TimedBytes(events[0])| <= end
    ensures !events[0].event.EndOfTrack? ==>
              && At(data, pos + |TimedBytes(events[0])|, TrackBytes(events[1..]))
              && pos + |TimedBytes(events[0])| + |TrackBytes(events[1..])| <= end
  {
    hide TimedBytes, TrackBytes;
    TrackBytesSplit(events);
    if events[0].event.EndOfTrack? {
      AtSplit(data, pos, TimedBytes(events[0]), EventsBytes(events[1..]));
    } else {
      AtSplit(data, pos, TimedBytes(events[0]), TrackBytes(events[1..]));
    }
  }

  /**
   * Without SysEx before its end, a written track parses to its cut, under any running status, if and only if
   * the format can carry every event up to that end.
   */
  lemma {:induction false} EventsSurviveExactly(data: seq<Byte>, pos: nat, end: nat, running: Option<Byte>,
                                                events: seq<TrackEvent>)
    requires EventsFit(events) && NoSysEx(events)
    requires At(data, pos, TrackBytes(events)) && pos + |TrackBytes(events)| <= end <= |data|
    ensures ParseEvents(data, pos, end, running) == Ok(Cut(events)) <==> EventsOk(events)
    decreases |events|
  {
    hide TimedBytes, TrackBytes, ParseTimed, EventOk, Plain, StatusOf, IsSysEx, EventFits;
    if EventsOk(events) {
      EventsRoundTrip(data, pos, end, running, events);
    } else if ParseEvents(data, pos, end, running) == Ok(Cut(events)) {
      var te, rest := events[0], events[1..];
      FirstAt(data, pos, end, events);
      TimedNonEmpty(te);
      PlainKind(te.event);
      if te.event.EndOfTrack? {
        PlainEnd(te);
      } else {
        assert ParseTimed(data, pos, end, running).value.0 == Cut(events)[0] == PlainTimed(te);
        TimedReadBack(data, pos, end, running, te);
        ReadsTimed(data, pos, end, running, te);
        assert Cut(events)[1..] == Cut(rest);
        EventsSurviveExactly(data, pos + |TimedBytes(te)|, end, Kept(running, StatusOf(te.event)), rest);
      }
    }
  }

  /** A track that comes back as it is, not just cut, is one that cutting leaves alone. */
  lemma {:induction false} LosslessIsCut(data: seq<Byte>, pos: nat, end: nat, running: Option<Byte>,
                                         events: seq<TrackEvent>)
    requires EventsFit(events) && NoSysEx(events)
    requires At(data, pos, TrackBytes(events)) && pos + |TrackBytes(events)| <= end <= |data|
    requires ParseEvents(data, pos, end, running) == Ok(events)
    ensures Cut(events) == events
    decreases |events|
  {
    hide TimedBytes, TrackBytes, ParseTimed, EventOk, Plain, StatusOf, IsSysEx, EventFits;
    if events == [] {
      EmptyTrack();
      TimedNonEmpty(END);
    } else {
      var te, rest := events[0], events[1..];
      FirstAt(data, pos, end, events);
      TimedNonEmpty(te);
      ParsedIsPlain(data, pos, end, running);
      assert ParseTimed(data, pos, end, running).value.0 == te;
      if te.event.EndOfTrack? {
        assert events == [te];
      } else {
        TimedReadBack(data, pos, end, running, te);
        ReadsTimed(data, pos, end, running, te);
        assert ParseEvents(data, pos, end, running).value[1..] == rest;
        LosslessIsCut(data, pos + |TimedBytes(te)|, end, Kept(running, StatusOf(te.event)), rest);
      }
    }
  }

  lemma ParsedIsPlain(data: seq<Byte>, pos: nat, end: nat, running: Option<Byte>)
    requires pos < end <= |data| && ParseTimed(data, pos, end, running).Got?
    ensures var te := ParseTimed(data, pos, end, running).value.0; PlainTimed(te) == te
  {
    hide ReadVlq, DecodeMeta;
    var start := ReadVlq(data, pos).next;
    if data[start] == META {
      MetasAreShort(data, start + 1, end);
    }
  }

  /** Where the parser finds the delta time of each event. */
  function Places(data: seq<Byte>, pos: nat, end: nat, running: Option<Byte>): seq<nat>
    requires end <= |data|
    decreases end - pos
  {
    if pos >= end || ParseTimed(data, pos, end, running).Bad? then
      []
    else
      var r := ParseTimed(data, pos, end, running);
      TimedConfined(data, pos, end, running);
      [pos] + if r.value.0.event.EndOfTrack? then [] else Places(data, r.next, end, Kept(running, r.value.1))
  }

  /** Where the writer put the delta time of each event up to the track's end. */
  function WrittenPlaces(pos: nat, events: seq<TrackEvent>): seq<nat>
    decreases |events|
  {
    [pos]
    + if events == [] || events[0].event.EndOfTrack? then []
      else WrittenPlaces(pos + |TimedBytes(events[0])|, events[1..])
  }

  /** The parser reads every event of a written track up to its end as it was, and where it was written. */
  predicate InStep(data: seq<Byte>, pos: nat, end: nat, running: Option<Byte>, events: seq<TrackEvent>)
    requires end <= |data|
  {
    && ParseEvents(data, pos, end, running) == Ok(Cut(events))
    && Places(data, pos, end, running) == WrittenPlaces(pos, events)
  }

  /** With SysEx or without, the parser reads a written track in step if and only if the format can carry it. */
  lemma {:induction false} InStepExactly(data: seq<Byte>, pos: nat, end: nat, running: Option<Byte>,
                                         events: seq<TrackEvent>)
    requires EventsFit(events)
    requires At(data, pos, TrackBytes(events)) && pos + |TrackBytes(events)| <= end <= |data|
    ensures InStep(data, pos, end, running, events) <==> EventsOk(events)
    decreases |events|
  {
    hide TimedBytes, TrackBytes, ParseTimed, EventOk, StatusOf, EventFits, InStep, Places, WrittenPlaces, Cut;
    if events == [] {
      EmptyTrack();
      InStepLast(data, pos, end, running, events);
    } else {
      FirstAt(data, pos, end, events);
      if events[0].event.EndOfTrack? {
        PlainEnd(events[0]);
        InStepLast(data, pos, end, running, events);
      } else if EventOk(events[0].event) {
        ReadsTimed(data, pos, end, running, events[0]);
        InStepTail(data, pos, end, running, events);
        InStepExactly(data, pos + |TimedBytes(events[0])|, end, Kept(running, StatusOf(events[0].event)), events[1..]);
      } else {
        NeverInStep(data, pos, end, running, events);
      }
    }
  }

  lemma InStepLast(data: seq<Byte>, pos: nat, end: nat, running: Option<Byte>, events: seq<TrackEvent>)
    requires events == [] || (events[0].event.EndOfTrack? && events[0].delta < VLQ_LIMIT)
    requires var last := if events == [] then END else events[0];
             At(data, pos, TimedBytes(last)) && pos + |TimedBytes(last)| <= end <= |data|
    ensures InStep(data, pos, end, running, events)
  {
    hide TimedBytes, ParseTimed, EventOk;
    var last := if events == [] then END else events[0];
    PlainEnd(last);
    TimedNonEmpty(last);
    ReadsTimed(data, pos, end, running, last);
  }

  lemma InStepTail(data: seq<Byte>, pos: nat, end: nat, running: Option<Byte>, events: seq<TrackEvent>)
    requires end <= |data| && events != [] && !events[0].event.EndOfTrack? && pos + |TimedBytes(events[0])| <= end
    requires var te := events[0];
             ParseTimed(data, pos, end, running) == Got((PlainTimed(te), StatusOf(te.event)), pos + |TimedBytes(te)|)
    ensures InStep(data, pos, end, running, events)
       <==> InStep(data, pos + |TimedBytes(events[0])|, end, Kept(running, StatusOf(events[0].event)), events[1..])
  {
    hide TimedBytes, ParseTimed, Plain, StatusOf;
    TimedNonEmpty(events[0]);
    PlainKind(events[0].event);
    var next, status := pos + |TimedBytes(events[0])|, Kept(running, StatusOf(events[0].event));
    assert Cut(events)[1..] == Cut(events[1..]);
    assert WrittenPlaces(pos, events)[1..] == WrittenPlaces(next, events[1..]);
    assert Places(data, pos, end, running)[1..] == Places(data, next, end, status);
  }

  /** An event the format cannot carry does not come back, or it is SysEx and throws the parser out of step. */
  lemma NeverInStep(data: seq<Byte>, pos: nat, end: nat, running: Option<Byte>, events: seq<TrackEvent>)
    requires events != [] && !EventOk(events[0].event) && events[0].delta < VLQ_LIMIT && EventFits(events[0].event)
    requires At(data, pos, TimedBytes(events[0])) && pos + |TimedBytes(events[0])| <= end <= |data|
    ensures !InStep(data, pos, end, running, events)
  {
    hide TimedBytes, ParseTimed, EventOk, Plain, IsSysEx, EventFits;
    if InStep(data, pos, end, running, events) {
      var te, r := events[0], ParseTimed(data, pos, end, running);
      TimedNonEmpty(te);
      PlainKind(te.event);
      if te.event.EndOfTrack? {
        PlainEnd(te);
      }
      assert r.value.0 == Cut(events)[0] == PlainTimed(te);
      if IsSysEx(te.event) {
        var status := Kept(running, r.value.1);
        assert ParseEvents(data, r.next, end, status).value == Cut(events)[1..] == Cut(events[1..]);
        assert Places(data, pos, end, running) == [pos] + Places(data, r.next, end, status);
        assert r.next == Places(data, r.next, end, status)[0] == WrittenPlaces(pos, events)[1];
        assert WrittenPlaces(pos, events)[1] == pos + |TimedBytes(te)|;
        SysExTimedOutOfStep(data, pos, end, running, te);
      } else {
        TimedReadBack(data, pos, end, running, te);
      }
    }
  }

  lemma SysExTimedOutOfStep(data: seq<Byte>, pos: nat, end: nat, running: Option<Byte>, te: TrackEvent)
    requires te.delta < VLQ_LIMIT && IsSysEx(te.event)
    requires At(data, pos, TimedBytes(te)) && pos + |TimedBytes(te)| <= end <= |data|
    ensures var r := ParseTimed(data, pos, end, running);
            r.Got? && r.value.0 == PlainTimed(te) ==> r.next != pos + |TimedBytes(te)|
  {
    hide VlqBytes, MidiBytes, ReadVlq, ParseEvent;
    AtSplit(data, pos, VlqBytes(te.delta), EventBytes(te.event));
    ReadsVlq(data, pos, te.delta);
    SysExOutOfStep(data, pos + |VlqBytes(te.delta)|, end, running, te.event.msg);
  }

  const PROGRAM: TrackEvent := TrackEvent(0, Midi(MidiMessage(0xC0, [5], 0)))
  const SYSEX: TrackEvent := TrackEvent(0, Midi(MidiMessage(0xF7, [1], 0)))
  const LATE_END: TrackEvent := TrackEvent(1, EndOfTrack)

  /** A SysEx message can come back, at the price of what follows it: here, the end of the track. */
  lemma SysExSwallowsTheEnd()
    ensures var b := TrackBytes([PROGRAM, SYSEX, LATE_END]);
            ParseEvents(b, 0, |b|, None) == Ok([PROGRAM, SYSEX, TrackEvent(0x3FAF, Midi(MidiMessage(0xC0, [0], 0)))])
  {
    var b := TrackBytes([PROGRAM, SYSEX, LATE_END]);
    SwallowedBytes();
    hide TrackBytes;
    OneGroup(b, 0);
    OneGroup(b, 3);
    OneGroup(b, 5);
    TwoGroups(b, 7);
    hide ReadVlq;
    assert b[6..7] == [1];
    assert ParseTimed(b, 0, |b|, None) == Got((PROGRAM, Some(0xC0)), 3);
    assert ParseTimed(b, 3, |b|, Some(0xC0)) == Got((SYSEX, None), 7);
    var last := TrackEvent(0x3FAF, Midi(MidiMessage(0xC0, [0], 0)));
    assert ParseTimed(b, 7, |b|, Some(0xC0)) == Got((last, Some(0xC0)), 10);
    hide ParseTimed;
    assert ParseEvents(b, 10, |b|, Some(0xC0)) == Ok([]);
    assert ParseEvents(b, 7, |b|, Some(0xC0)) == Ok([last] + []);
    assert [last] + [] == [last];
    assert ParseEvents(b, 3, |b|, Some(0xC0)) == Ok([SYSEX] + [last]);
    assert ParseEvents(b, 0, |b|, None) == Ok([PROGRAM] + ([SYSEX] + [last]));
    assert [PROGRAM] + ([SYSEX] + [last]) == [PROGRAM, SYSEX, last];
  }

  lemma SwallowedBytes()
    ensures TrackBytes([PROGRAM, SYSEX, LATE_END]) == [0, 0xC0, 5, 0, 0xF7, 1, 1, META, META_END, 0]
  {
    SwallowedEvents();
    hide TimedBytes;
    assert EventsBytes([]) == [] && [LATE_END][1..] == [];
    assert EventsBytes([LATE_END]) == TimedBytes(LATE_END) + EventsBytes([]);
    assert [SYSEX, LATE_END][1..] == [LATE_END];
    assert EventsBytes([SYSEX, LATE_END]) == TimedBytes(SYSEX) + EventsBytes([LATE_END]);
    assert [PROGRAM, SYSEX, LATE_END][1..] == [SYSEX, LATE_END];
    assert EventsBytes([PROGRAM, SYSEX, LATE_END]) == TimedBytes(PROGRAM) + EventsBytes([SYSEX, LATE_END]);
    assert HasEnd([LATE_END]) && HasEnd([SYSEX, LATE_END]) && HasEnd([PROGRAM, SYSEX, LATE_END]);
  }

  lemma SwallowedEvents()
    ensures TimedBytes(PROGRAM) == [0, 0xC0, 5]
    ensures TimedBytes(SYSEX) == [0, 0xF7, 1]
    ensures TimedBytes(LATE_END) == [1, META, META_END, 0]
  {
    VlqShape(0);
    VlqShape(1);
    hide VlqBytes;
  }

  lemma EmptyTrack()
    ensures TrackBytes([]) == TimedBytes(END)
  {
    ClosingIsEnd();
  }

  lemma TimedNonEmpty(te: TrackEvent)
    ensures |TimedBytes(te)| >= 2
  {
  }

  lemma PlainEnd(te: TrackEvent)
    requires te.event.EndOfTrack?
    ensures PlainTimed(te) == te && EventOk(te.event)
  {
  }

  lemma PlainKind(e: Event)
    ensures Plain(e).EndOfTrack? <==> e.EndOfTrack?
  {
  }

  lemma TrackRoundTrip(data: seq<Byte>, pos: nat, track: Track)
    requires TrackOk(track) && At(data, pos, ChunkBytes(track))
    ensures ParseTrack(data, pos) == Got(NormalTrack(track), pos + |ChunkBytes(track)|)
  {
    hide TrackBytes, EventsOk, Be32, FromBe32, Cut, LastName, ParseEvents;
    var body := TrackBytes(track.events);
    AtSplit(data, pos, MTRK + Be32(|body|), body);
    AtSplit(data, pos, MTRK, Be32(|body|));
    Be32RoundTrip(|body|);
    EventsRoundTrip(data, pos + 8, pos + 8 + |body|, None, track.events);
  }

  // ---- files ----

  function NormalTracks(tracks: seq<Track>): seq<Track> {
    if tracks == [] then [] else [NormalTrack(tracks[0])] + NormalTracks(tracks[1..])
  }

  predicate TracksOk(tracks: seq<Track>) {
    tracks != [] ==> TrackOk(tracks[0]) && TracksOk(tracks[1..])
  }

  function NormalFile(file: File): File {
    file.(tracks := NormalTracks(file.tracks))
  }

  lemma {:induction false} TracksRoundTrip(data: seq<Byte>, pos: nat, tracks: seq<Track>)
    requires TracksOk(tracks) && At(data, pos, TracksBytes(tracks))
    ensures ParseTracks(data, pos, |tracks|) == Got(NormalTracks(tracks), pos + |TracksBytes(tracks)|)
    decreases |tracks|
  {
    hide ChunkBytes, ParseTrack, TrackOk, NormalTrack;
    if tracks != [] {
      AtSplit(data, pos, ChunkBytes(tracks[0]), TracksBytes(tracks[1..]));
      TrackRoundTrip(data, pos, tracks[0]);
      TracksRoundTrip(data, pos + |ChunkBytes(tracks[0])|, tracks[1..]);
    }
  }

  predicate DivisionOk(d: Division) {
    match d
    case TicksPerBeat(tpb) => tpb < 0x8000
    case Smpte(fps, _) => fps == 0 || fps == 64
  }

  function ReadBack(d: Division): Division {
    DecodeDivision(DivisionBytes(d)[0], DivisionBytes(d)[1])
  }

  /** The writer negates the frame rate and the parser does not: only 0 and 64 are their own negation in 7 bits. */
  lemma DivisionSurvivesExactly(d: Division)
    ensures ReadBack(d) == d <==> DivisionOk(d)
  {
    match d
    case TicksPerBeat(tpb) => BeatsSurvive(tpb);
    case Smpte(_, _) =>
  }

  /** A frame rate comes back negated in its seven bits. */
  lemma FrameRateNegated(fps: Byte, subframes: Byte)
    ensures ReadBack(Smpte(fps, subframes)) == Smpte((128 - fps % 128) % 128, subframes)
  {
  }

  lemma BeatsSurvive(tpb: U16)
    ensures Be16(tpb)[0] as int * 256 + Be16(tpb)[1] == tpb && (Be16(tpb)[0] < 128 <==> tpb < 0x8000)
  {
    var hi := tpb / 256;
    assert hi < 256 && tpb == hi * 256 + tpb % 256;
  }

  lemma TruncatedCount(n: nat)
    ensures FromBe16(Be16(n)) == n % 0x1_0000
  {
  }

  lemma HeaderRoundTrip(file: File, data: seq<Byte>)
    requires At(data, 0, HeaderBytes(file))
    ensures ParseHeader(data) == Ok(Header(file.format, |file.tracks| % 0x1_0000, ReadBack(file.division)))
  {
    hide Be16, Be32, FromBe16, FromBe32, DivisionBytes, DecodeDivision;
    var a, b, c, d := MTHD, Be32(6), Be16(FormatWord(file.format)), Be16(|file.tracks|);
    var e := DivisionBytes(file.division);
    AtSplit(data, 0, a + b + c + d, e);
    AtSplit(data, 0, a + b + c, d);
    AtSplit(data, 0, a + b, c);
    AtSplit(data, 0, a, b);
    assert data[12] == data[12..14][0] && data[13] == data[12..14][1];
    Be32RoundTrip(6);
    Be16RoundTrip(FormatWord(file.format));
    TruncatedCount(|file.tracks|);
  }

  /**
   * Parsing a written file always succeeds: every track comes back cut and renamed, and the file comes back as
   * a whole if and only if its time division survives.
   */
  lemma WrittenFileParses(file: File)
    requires |file.tracks| < 0x1_0000 && TracksOk(file.tracks)
    ensures Parse(FileBytes(file)) == Ok(NormalFile(file).(division := ReadBack(file.division)))
    ensures Parse(FileBytes(file)) == Ok(NormalFile(file)) <==> DivisionOk(file.division)
  {
    hide HeaderBytes, TracksBytes, ParseHeader, ParseTracks, TracksOk, NormalTracks, ReadBack, DivisionOk;
    var data := FileBytes(file);
    assert At(data, 0, HeaderBytes(file) + TracksBytes(file.tracks));
    AtSplit(data, 0, HeaderBytes(file), TracksBytes(file.tracks));
    HeaderRoundTrip(file, data);
    TracksRoundTrip(data, 14, file.tracks);
    DivisionSurvivesExactly(file.division);
  }

  /** Every track is one the writer takes, has no SysEx before its end, and fits a chunk. */
  predicate TracksPlain(tracks: seq<Track>) {
    forall i :: 0 <= i < |tracks| ==>
      EventsFit(tracks[i].events) && NoSysEx(tracks[i].events) && |TrackBytes(tracks[i].events)| < CHUNK_LIMIT
  }

  lemma PlainSplit(tracks: seq<Track>)
    requires TracksPlain(tracks) && tracks != []
    ensures TracksPlain([tracks[0]]) && TracksPlain(tracks[1..])
  {
  }

  lemma TrackSurvivesExactly(data: seq<Byte>, pos: nat, track: Track)
    requires TracksPlain([track]) && At(data, pos, ChunkBytes(track))
    ensures var r := ParseTrack(data, pos);
            && (r.Got? ==> r.next == pos + |ChunkBytes(track)|)
            && (r.Got? && r.value == NormalTrack(track) <==> TrackOk(track))
  {
    hide TrackBytes, EventsOk, EventsFit, NoSysEx, Be32, FromBe32, Cut, ParseEvents;
    assert [track][0] == track;
    var body := TrackBytes(track.events);
    AtSplit(data, pos, MTRK + Be32(|body|), body);
    AtSplit(data, pos, MTRK, Be32(|body|));
    Be32RoundTrip(|body|);
    EventsSurviveExactly(data, pos + 8, pos + 8 + |body|, None, track.events);
  }

  lemma {:induction false} TracksSurviveExactly(data: seq<Byte>, pos: nat, tracks: seq<Track>)
    requires TracksPlain(tracks) && At(data, pos, TracksBytes(tracks))
    ensures var r := ParseTracks(data, pos, |tracks|);
            r.Got? && r.value == NormalTracks(tracks) <==> TracksOk(tracks)
    decreases |tracks|
  {
    hide ChunkBytes, ParseTrack, TrackOk, NormalTrack, TracksPlain;
    if tracks != [] {
      PlainSplit(tracks);
      var first, rest := tracks[0], tracks[1..];
      AtSplit(data, pos, ChunkBytes(first), TracksBytes(rest));
      TrackSurvivesExactly(data, pos, first);
      TracksSurviveExactly(data, pos + |ChunkBytes(first)|, rest);
      var all, others := ParseTracks(data, pos, |tracks|), ParseTracks(data, pos + |ChunkBytes(first)|, |rest|);
      if all.Got? {
        assert all.value[0] == ParseTrack(data, pos).value && all.value[1..] == others.value;
      }
      assert NormalTracks(tracks)[0] == NormalTrack(first) && NormalTracks(tracks)[1..] == NormalTracks(rest);
    }
  }

  lemma LosslessTrack(data: seq<Byte>, pos: nat, track: Track)
    requires TracksPlain([track]) && At(data, pos, ChunkBytes(track))
    requires ParseTrack(data, pos).Got? && ParseTrack(data, pos).value == track
    ensures NormalTrack(track) == track
  {
    hide TrackBytes, EventsFit, NoSysEx, Be32, FromBe32, Cut, ParseEvents, LastName;
    assert [track][0] == track;
    var body := TrackBytes(track.events);
    AtSplit(data, pos, MTRK + Be32(|body|), body);
    AtSplit(data, pos, MTRK, Be32(|body|));
    Be32RoundTrip(|body|);
    LosslessIsCut(data, pos + 8, pos + 8 + |body|, None, track.events);
  }

  lemma {:induction false} LosslessTracks(data: seq<Byte>, pos: nat, tracks: seq<Track>)
    requires TracksPlain(tracks) && At(data, pos, TracksBytes(tracks))
    requires ParseTracks(data, pos, |tracks|).Got? && ParseTracks(data, pos, |tracks|).value == tracks
    ensures NormalTracks(tracks) == tracks
    decreases |tracks|
  {
    hide ChunkBytes, ParseTrack, TrackOk, NormalTrack, TracksPlain;
    if tracks != [] {
      PlainSplit(tracks);
      var first, rest := tracks[0], tracks[1..];
      AtSplit(data, pos, ChunkBytes(first), TracksBytes(rest));
      TrackSurvivesExactly(data, pos, first);
      var all := ParseTracks(data, pos, |tracks|).value;
      assert all[0] == ParseTrack(data, pos).value;
      assert all[1..] == ParseTracks(data, pos + |ChunkBytes(first)|, |rest|).value;
      LosslessTrack(data, pos, first);
      LosslessTracks(data, pos + |ChunkBytes(first)|, rest);
    }
  }

  lemma NormalCount(tracks: seq<Track>)
    ensures |NormalTracks(tracks)| == |tracks|
  {
  }

  /**
   * What the writer's promise of no loss comes to with this repository's own parser: of a file the writer
   * takes, without SysEx before the end of a track and with chunks below 4 GiB, exactly those come back, cut
   * and renamed, that have fewer than 2^16 tracks, a division that survives and, up to each track's end, only
   * events the format can carry; and exactly those of them come back as they were that cutting leaves alone.
   */
  lemma FileSurvivesExactly(file: File)
    requires TracksPlain(file.tracks)
    ensures Parse(FileBytes(file)) == Ok(NormalFile(file))
       <==> |file.tracks| < 0x1_0000 && DivisionOk(file.division) && TracksOk(file.tracks)
    ensures Parse(FileBytes(file)) == Ok(file)
       <==> |file.tracks| < 0x1_0000 && DivisionOk(file.division) && TracksOk(file.tracks) && NormalFile(file) == file
  {
    hide HeaderBytes, TracksBytes, ParseHeader, ParseTracks, TracksOk, TracksPlain, NormalTracks, ReadBack, DivisionOk;
    var data := FileBytes(file);
    assert At(data, 0, HeaderBytes(file) + TracksBytes(file.tracks));
    AtSplit(data, 0, HeaderBytes(file), TracksBytes(file.tracks));
    HeaderRoundTrip(file, data);
    NormalCount(file.tracks);
    DivisionSurvivesExactly(file.division);
    TracksSurviveExactly(data, 14, file.tracks);
    if Parse(data).Ok? {
      ChunksConsumed(data, 14, ParseHeader(data).value.count);
      if Parse(data) == Ok(file) {
        LosslessTracks(data, 14, file.tracks);
      }
    }
  }

  /** Cutting twice is cutting once. */
  lemma {:induction false} CutTwice(events: seq<TrackEvent>)
    ensures Cut(Cut(events)) == Cut(events)
    decreases |events|
  {
    if events != [] && !events[0].event.EndOfTrack? {
      CutTwice(events[1..]);
      assert Cut(events)[1..] == Cut(events[1..]);
    }
  }

  lemma {:induction false} NormalTwice(tracks: seq<Track>)
    ensures NormalTracks(NormalTracks(tracks)) == NormalTracks(tracks)
    decreases |tracks|
  {
    hide Cut, LastName;
    if tracks != [] {
      CutTwice(tracks[0].events);
      NormalTwice(tracks[1..]);
      assert NormalTracks(tracks)[1..] == NormalTracks(tracks[1..]);
    }
  }

  // ---- what parsed files hold ----

  lemma VlqShort(v: nat)
    requires v < VLQ_LIMIT
    ensures |VlqBytes(v)| <= 4
  {
    VlqShape(v);
  }

  /** A decoded meta is one the format can carry, and little longer than what it was read from. */
  lemma MetaInverts(t: Byte, payload: seq<Byte>)
    requires |payload| < VLQ_LIMIT && DecodeMeta(t, payload).Ok?
    ensures var e := DecodeMeta(t, payload).value;
            !e.Midi? && EventOk(e) && |EventBytes(e)| <= 5 * |payload| + 16
  {
    hide Utf8.Valid, INVALID_NAME, VlqBytes;
    var e := DecodeMeta(t, payload).value;
    if t == META_NAME {
      InvalidNameIsText();
      NameLength(payload);
      VlqShort(|e.name|);
    } else if e.UnknownMeta? {
      VlqShort(|payload|);
    }
  }

  lemma NameLength(payload: seq<Byte>)
    ensures |INVALID_NAME| == 15 && (payload == [] ==> Utf8.Valid(payload))
  {
  }

  /** A parsed event, SysEx apart, is one the format can carry, at most five times longer than where it was read. */
  lemma TimedInverts(data: seq<Byte>, pos: nat, end: nat, running: Option<Byte>)
    requires pos < end <= |data| && ParseTimed(data, pos, end, running).Got?
    ensures var r := ParseTimed(data, pos, end, running);
            var te := r.value.0;
            !IsSysEx(te.event) ==>
            te.delta < VLQ_LIMIT && EventOk(te.event) && |TimedBytes(te)| <= 5 * (r.next - pos)
  {
    hide ReadVlq, DecodeMeta, VlqBytes;
    DeltaFits(data, pos);
    var delta := ReadVlq(data, pos);
    VlqShort(delta.value);
    EventInverts(data, delta.next, end, running);
  }

  lemma EventInverts(data: seq<Byte>, pos: nat, end: nat, running: Option<Byte>)
    requires pos < end <= |data| && ParseEvent(data, pos, end, running).Got?
    ensures var r := ParseEvent(data, pos, end, running);
            var e := r.value.0;
            !IsSysEx(e) ==> EventOk(e) && |EventBytes(e)| + 4 <= 5 * (r.next - pos + 1)
  {
    hide DecodeMeta, ReadVlq, EventOk;
    var first := data[pos];
    if first == META {
      DeltaFits(data, pos + 2);
      MetaInverts(data[pos + 1], ReadPayload(data, pos + 2, end, MetaPastEnd).value);
    } else if first >= 0x80 && first != 0xF0 && first != 0xF7 {
      ChannelInverts(data, pos + 1, end, first);
    } else if first < 0x80 {
      ChannelInverts(data, pos, end, running.value);
    }
  }

  lemma ChannelInverts(data: seq<Byte>, pos: nat, end: nat, status: Byte)
    requires end <= |data| && ParseChannel(data, pos, end, status).Got?
    ensures var r := ParseChannel(data, pos, end, status);
            EventOk(r.value.0) && |EventBytes(r.value.0)| <= 3 && r.next >= pos + 1
  {
  }

  lemma {:induction false} EventsInvert(data: seq<Byte>, pos: nat, end: nat, running: Option<Byte>)
    requires pos <= end <= |data| && ParseEvents(data, pos, end, running).Ok?
    requires NoSysEx(ParseEvents(data, pos, end, running).value)
    ensures var events := ParseEvents(data, pos, end, running).value;
            EventsOk(events) && |TrackBytes(events)| <= 5 * (end - pos) + 4
    decreases end - pos
  {
    hide ParseTimed, TimedBytes, EventOk;
    if pos < end {
      var r := ParseTimed(data, pos, end, running);
      var te := r.value.0;
      TimedConfined(data, pos, end, running);
      TimedInverts(data, pos, end, running);
      assert ParseEvents(data, pos, end, running).value[0] == te;
      if !te.event.EndOfTrack? {
        var rest := ParseEvents(data, r.next, end, Kept(running, r.value.1));
        assert ParseEvents(data, pos, end, running).value[1..] == rest.value;
        EventsInvert(data, r.next, end, Kept(running, r.value.1));
        TrackBytesSplit([te] + rest.value);
      } else {
        TrackBytesSplit([te]);
      }
    }
  }

  lemma TrackInverts(data: seq<Byte>, pos: nat)
    requires ParseTrack(data, pos).Got? && NoSysEx(ParseTrack(data, pos).value.events) && |data| < 0x3000_0000
    ensures TrackOk(ParseTrack(data, pos).value)
  {
    hide ParseEvents, EventsOk, TrackBytes, LastName;
    var header := ParseChunkHeader(data, pos);
    EventsInvert(data, header.next, header.value, None);
  }

  lemma {:induction false} TracksInvert(data: seq<Byte>, pos: nat, count: nat)
    requires ParseTracks(data, pos, count).Got? && |data| < 0x3000_0000
    requires forall i :: 0 <= i < |ParseTracks(data, pos, count).value| ==>
               NoSysEx(ParseTracks(data, pos, count).value[i].events)
    ensures |ParseTracks(data, pos, count).value| == count && TracksOk(ParseTracks(data, pos, count).value)
    decreases count
  {
    hide ParseTrack, TrackOk, NoSysEx;
    if count > 0 {
      var track := ParseTrack(data, pos);
      var all, rest := ParseTracks(data, pos, count).value, ParseTracks(data, track.next, count - 1).value;
      assert all[0] == track.value && all[1..] == rest;
      forall i | 0 <= i < |rest|
        ensures NoSysEx(rest[i].events)
      {
        assert rest[i] == all[i + 1];
      }
      TrackInverts(data, pos);
      TracksInvert(data, track.next, count - 1);
    }
  }

  /** No event after the first end of the track. */
  predicate EndsOnce(events: seq<TrackEvent>) {
    events != [] ==> if events[0].event.EndOfTrack? then |events| == 1 else EndsOnce(events[1..])
  }

  lemma {:induction false} ParsedEndsOnce(data: seq<Byte>, pos: nat, end: nat, running: Option<Byte>)
    requires end <= |data| && ParseEvents(data, pos, end, running).Ok?
    ensures EndsOnce(ParseEvents(data, pos, end, running).value)
    decreases end - pos
  {
    hide ParseTimed;
    if pos < end {
      var r := ParseTimed(data, pos, end, running);
      TimedConfined(data, pos, end, running);
      if !r.value.0.event.EndOfTrack? {
        var status := Kept(running, r.value.1);
        ParsedEndsOnce(data, r.next, end, status);
        assert ParseEvents(data, pos, end, running).value[1..] == ParseEvents(data, r.next, end, status).value;
      }
    }
  }

  lemma {:induction false} ParsedTracksEndOnce(data: seq<Byte>, pos: nat, count: nat)
    requires ParseTracks(data, pos, count).Got?
    ensures forall i :: 0 <= i < |ParseTracks(data, pos, count).value| ==>
              EndsOnce(ParseTracks(data, pos, count).value[i].events)
    decreases count
  {
    hide ParseEvents, EndsOnce, LastName;
    if count > 0 {
      var header := ParseChunkHeader(data, pos);
      ParsedEndsOnce(data, header.next, header.value, None);
      ParsedTracksEndOnce(data, header.value, count - 1);
    }
  }

  /** What cutting changes about such a track the writer writes anyway. */
  lemma {:induction false} CutBytes(events: seq<TrackEvent>)
    requires EndsOnce(events)
    ensures TrackBytes(Cut(events)) == TrackBytes(events)
    decreases |events|
  {
    hide TimedBytes, TrackBytes, Plain;
    if events == [] {
      EmptyTrack();
      TrackBytesSplit([END]);
    } else if events[0].event.EndOfTrack? {
      assert Cut(events) == events;
    } else {
      PlainKind(events[0].event);
      PlainBytes(events[0]);
      CutBytes(events[1..]);
      TrackBytesSplit(events);
      TrackBytesSplit(Cut(events));
      assert Cut(events)[1..] == Cut(events[1..]);
    }
  }

  lemma PlainBytes(te: TrackEvent)
    ensures TimedBytes(PlainTimed(te)) == TimedBytes(te)
  {
  }

  lemma {:induction false} NormalBytes(tracks: seq<Track>)
    requires forall i :: 0 <= i < |tracks| ==> EndsOnce(tracks[i].events)
    ensures TracksBytes(NormalTracks(tracks)) == TracksBytes(tracks) && |NormalTracks(tracks)| == |tracks|
    decreases |tracks|
  {
    hide EndsOnce, TrackBytes, Cut, LastName;
    if tracks != [] {
      CutBytes(tracks[0].events);
      NormalBytes(tracks[1..]);
      assert NormalTracks(tracks)[1..] == NormalTracks(tracks[1..]);
    }
  }

  /**
   * Parse, write, parse: any file below 768 MiB that parses and holds no SysEx message is written back without
   * loss, its running statuses spelt out, and from then on the bytes do not change: writing what they parse to
   * gives them again, and parsing them again gives the same file.
   */
  lemma RewritingIsStable(data: seq<Byte>)
    requires |data| < 0x3000_0000 && Parse(data).Ok? && FileNoSysEx(Parse(data).value)
    requires DivisionOk(Parse(data).value.division)
    ensures var file := Parse(data).value;
            && Parse(FileBytes(file)) == Ok(NormalFile(file))
            && FileBytes(NormalFile(file)) == FileBytes(file)
            && NormalFile(NormalFile(file)) == NormalFile(file)
  {
    hide ParseHeader, ParseTracks, NoSysEx, TracksOk, NormalTracks, DivisionOk, EndsOnce, TracksBytes, DivisionBytes;
    var count := ParseHeader(data).value.count;
    TracksInvert(data, 14, count);
    WrittenFileParses(Parse(data).value);
    NormalTwice(Parse(data).value.tracks);
    ParsedTracksEndOnce(data, 14, count);
    NormalBytes(Parse(data).value.tracks);
  }

  // ---- consumption ----

  /** Where a run of chunks ends, by their lengths alone. */
  function ChunksEnd(data: seq<Byte>, pos: nat, count: nat): nat
    decreases count
  {
    if count == 0 || pos + 8 > |data| then pos
    else ChunksEnd(data, pos + 8 + FromBe32(data[pos + 4..pos + 8]), count - 1)
  }

  /** A successful parse of chunks ends exactly where their lengths say, inside the file. */
  lemma {:induction false} ChunksConsumed(data: seq<Byte>, pos: nat, count: nat)
    requires ParseTracks(data, pos, count).Got? && pos <= |data|
    ensures ParseTracks(data, pos, count).next == ChunksEnd(data, pos, count) <= |data|
    ensures |ParseTracks(data, pos, count).value| == count
    decreases count
  {
    hide ParseEvents, FromBe32, LastName;
    if count > 0 {
      ChunksConsumed(data, ParseTrack(data, pos).next, count - 1);
    }
  }

  // ---- running status ----

  /** Where the first byte of each parsed event is. */
  function Starts(data: seq<Byte>, pos: nat, end: nat, running: Option<Byte>): seq<nat>
    requires end <= |data|
    decreases end - pos
  {
    if pos >= end || ParseTimed(data, pos, end, running).Bad? then
      []
    else
      var r := ParseTimed(data, pos, end, running);
      TimedConfined(data, pos, end, running);
      [ReadVlq(data, pos).next]
      + if r.value.0.event.EndOfTrack? then [] else Starts(data, r.next, end, Kept(running, r.value.1))
  }

  /** The latest channel status spelt out at any of the given offsets. */
  function Latest(data: seq<Byte>, starts: seq<nat>): Option<Byte> {
    if starts == [] then None
    else
      var last := starts[|starts| - 1];
      if last < |data| && IsChannel(data[last]) then Some(data[last]) else Latest(data, starts[..|starts| - 1])
  }

  /** A channel message carries the status byte it starts with or, where that was elided, the latest one before it. */
  predicate Explained(data: seq<Byte>, te: TrackEvent, start: nat, before: seq<nat>) {
    te.event.Midi? && IsChannel(te.event.msg.status) ==>
      start < |data| &&
      Some(te.event.msg.status) == if data[start] >= 0x80 then Some(data[start]) else Latest(data, before)
  }

  predicate AllExplained(data: seq<Byte>, events: seq<TrackEvent>, starts: seq<nat>, before: seq<nat>) {
    && |starts| == |events|
    && forall i :: 0 <= i < |events| ==> Explained(data, events[i], starts[i], before + starts[..i])
  }

  lemma ExplainedOnto(data: seq<Byte>, te: TrackEvent, start: nat, events: seq<TrackEvent>, starts: seq<nat>,
                      before: seq<nat>)
    requires Explained(data, te, start, before) && AllExplained(data, events, starts, before + [start])
    ensures AllExplained(data, [te] + events, [start] + starts, before)
  {
    hide Explained;
    assert before + ([start] + starts)[..0] == before;
    forall i | 0 < i < |events| + 1
      ensures Explained(data, events[i - 1], starts[i - 1], before + ([start] + starts)[..i])
    {
      assert before + ([start] + starts)[..i] == before + [start] + starts[..i - 1];
    }
  }

  /**
   * Every channel message of a track carries the status byte it starts with, or, where that byte was elided,
   * the latest channel status spelt out before it in the same track; metas and SysEx in between change nothing.
   */
  lemma {:induction false} ElidedStatusIsLatest(data: seq<Byte>, pos: nat, end: nat, running: Option<Byte>,
                                                before: seq<nat>)
    requires end <= |data| && ParseEvents(data, pos, end, running).Ok? && running == Latest(data, before)
    ensures AllExplained(data, ParseEvents(data, pos, end, running).value, Starts(data, pos, end, running), before)
    decreases end - pos
  {
    hide ReadVlq, ParseTimed, Explained, Latest, AllExplained;
    if pos >= end {
      NoneExplained(data, before);
    } else {
      HasDelta(data, pos, end, running);
      TimedConfined(data, pos, end, running);
      StatusLeft(data, pos, end, running, before);
      var r, start := ParseTimed(data, pos, end, running), ReadVlq(data, pos).next;
      var status := Kept(running, r.value.1);
      if r.value.0.event.EndOfTrack? {
        NoneExplained(data, before + [start]);
        ExplainedOnto(data, r.value.0, start, [], [], before);
        assert [r.value.0] + [] == [r.value.0];
      } else {
        ElidedStatusIsLatest(data, r.next, end, status, before + [start]);
        ExplainedOnto(data, r.value.0, start, ParseEvents(data, r.next, end, status).value,
                      Starts(data, r.next, end, status), before);
      }
    }
  }

  lemma NoneExplained(data: seq<Byte>, before: seq<nat>)
    ensures AllExplained(data, [], [], before)
  {
  }

  lemma HasDelta(data: seq<Byte>, pos: nat, end: nat, running: Option<Byte>)
    requires end <= |data| && ParseTimed(data, pos, end, running).Got?
    ensures ReadVlq(data, pos).Got?
  {
  }

  /** One event: its own status explained, and the running status it leaves for the next. */
  lemma StatusLeft(data: seq<Byte>, pos: nat, end: nat, running: Option<Byte>, before: seq<nat>)
    requires pos < end <= |data| && ParseTimed(data, pos, end, running).Got? && running == Latest(data, before)
    ensures var r, start := ParseTimed(data, pos, end, running), ReadVlq(data, pos).next;
            Explained(data, r.value.0, start, before) && Kept(running, r.value.1) == Latest(data, before + [start])
  {
    hide ReadVlq;
    var start := ReadVlq(data, pos).next;
    assert (before + [start])[..|before|] == before;
  }
}
