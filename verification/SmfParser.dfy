/** The parser as it runs: one cursor over the file, loops over chunks and events with running status. */
module SmfParser {
  import opened Bytes
  import opened Wrappers
  import opened SmfFile
  import opened SmfDecode

  /** A parser method does what its function says: same value and cursor, or the same error. */
  ghost predicate Agrees<T>(r: Result<T, SmfError>, pos: nat, spec: Read<T>) {
    match spec
    case Got(v, next) => r == Ok(v) && pos == next
    case Bad(e) => r == Err(e)
  }

  class Cursor {
    const data: seq<Byte>
    var pos: nat

    constructor (data: seq<Byte>)
      ensures this.data == data && pos == 0
    {
      this.data := data;
      pos := 0;
    }

    /** Four turns at most: a fifth group is an error. */
    method Vlq() returns (r: Result<nat, SmfError>)
      modifies this
      ensures Agrees(r, pos, ReadVlq(data, old(pos)))
    {
      var val: nat := 0;
      for k := 0 to 4
        invariant ReadVlq(data, old(pos)) == VlqFrom(data, pos, val, 4 - k)
      {
        if pos >= |data| {
          return Err(VlqEof);
        }
        var b := data[pos];
        pos := pos + 1;
        val := val * 128 + if b < 128 then b as int else b as int - 128;
        if b < 128 {
          return Ok(val);
        }
      }
      r := Err(VlqTooLong);
    }

    method OneByte() returns (r: Result<Byte, SmfError>)
      modifies this
      ensures Agrees(r, pos, ReadByte(data, old(pos)))
    {
      if pos >= |data| {
        return Err(Truncated);
      }
      r := Ok(data[pos]);
      pos := pos + 1;
    }

    method DataByte(end: nat) returns (r: Result<Byte, SmfError>)
      modifies this
      ensures Agrees(r, pos, ReadDataByte(data, old(pos), end))
    {
      if pos >= end {
        return Err(DataTruncated);
      }
      r := OneByte();
    }

    method Word16() returns (r: Result<U16, SmfError>)
      modifies this
      ensures Agrees(r, pos, ReadBe16(data, old(pos)))
    {
      if pos + 2 > |data| {
        return Err(Truncated);
      }
      r := Ok(FromBe16(data[pos..pos + 2]));
      pos := pos + 2;
    }

    method Word32() returns (r: Result<U32, SmfError>)
      modifies this
      ensures Agrees(r, pos, ReadBe32(data, old(pos)))
    {
      if pos + 4 > |data| {
        return Err(Truncated);
      }
      r := Ok(FromBe32(data[pos..pos + 4]));
      pos := pos + 4;
    }

    method Payload(end: nat, pastEnd: SmfError) returns (r: Result<seq<Byte>, SmfError>)
      requires end <= |data|
      modifies this
      ensures Agrees(r, pos, ReadPayload(data, old(pos), end, pastEnd))
    {
      var len := Vlq();
      if len.Err? {
        return Err(len.error);
      }
      if pos + len.value > end {
        return Err(pastEnd);
      }
      r := Ok(data[pos..pos + len.value]);
      pos := pos + len.value;
    }

    method OneEvent(end: nat, running: Option<Byte>) returns (r: Result<(Event, Option<Byte>), SmfError>)
      requires pos < end <= |data|
      modifies this
      ensures Agrees(r, pos, ParseEvent(data, old(pos), end, running))
    {
      hide ReadVlq, DecodeMeta;
      var first := data[pos];
      pos := pos + 1;
      if first == META {
        var metaType := OneByte();
        if metaType.Err? {
          return Err(metaType.error);
        }
        var payload := Payload(end, MetaPastEnd);
        if payload.Err? {
          return Err(payload.error);
        }
        var event := DecodeMeta(metaType.value, payload.value);
        return match event case Err(e) => Err(e) case Ok(v) => Ok((v, None));
      }
      if first == 0xF0 || first == 0xF7 {
        var payload := Payload(end, SysExPastEnd);
        return match payload case Err(e) => Err(e) case Ok(v) => Ok((Midi(MidiMessage(first, v, 0)), None));
      }
      if first >= 0x80 {
        r := ChannelMessage(end, first, None);
      } else if running.None? {
        r := Err(NoRunningStatus);
      } else {
        r := ChannelMessage(end, running.value, Some(first));
      }
    }

    /** `first` is the data byte already taken where running status applies. */
    method ChannelMessage(end: nat, status: Byte, first: Option<Byte>)
      returns (r: Result<(Event, Option<Byte>), SmfError>)
      requires end <= |data|
      requires first.Some? ==> 0 < pos <= end && data[pos - 1] == first.value
      modifies this
      ensures Agrees(r, pos, ParseChannel(data, if first.Some? then old(pos) - 1 else old(pos), end, status))
    {
      var b1: Byte;
      if first.Some? {
        b1 := first.value;
      } else {
        var b := DataByte(end);
        if b.Err? {
          return Err(b.error);
        }
        b1 := b.value;
      }
      if TwoDataBytes(status) {
        var b2 := DataByte(end);
        if b2.Err? {
          return Err(b2.error);
        }
        r := Ok((Midi(MidiMessage(status, [b1, b2.value], 0)), Some(status)));
      } else if OneDataByte(status) {
        r := Ok((Midi(MidiMessage(status, [b1], 0)), Some(status)));
      } else {
        r := Err(BadMessageType);
      }
    }

    method OneTrack() returns (r: Result<Track, SmfError>)
      modifies this
      ensures Agrees(r, pos, ParseTrack(data, old(pos)))
    {
      hide ParseTimed, FromBe32;
      var start := pos + 8;
      if start > |data| {
        return Err(Truncated);
      }
      if data[pos..pos + 4] != MTRK {
        return Err(BadTrackMagic);
      }
      pos := pos + 4;
      var len := Word32();
      if pos + len.value > |data| {
        return Err(ChunkPastEnd);
      }
      var end := pos + len.value;
      assert ParseChunkHeader(data, old(pos)) == Got(end, start);
      var events: seq<TrackEvent> := [];
      var name: Option<seq<Byte>> := None;
      var running: Option<Byte> := None;
      ghost var all := ParseEvents(data, start, end, None);
      OntoNothing(all);
      var atEnd := false;
      while pos < end && !atEnd
        invariant pos <= end
        invariant name == LastName(events)
        invariant all == Onto(events, if atEnd then Ok([]) else ParseEvents(data, pos, end, running))
        decreases end - pos
      {
        ghost var before := pos;
        ghost var done, kept := events, running;
        var te := Timed(end, running);
        if te.Err? {
          return Err(te.error);
        }
        TimedConfined(data, before, end, kept);
        OntoTwice(done, te.value.0, ParseEvents(data, pos, end, Kept(kept, te.value.1)));
        OntoEnd<TrackEvent, SmfError>(done + [te.value.0]);
        if te.value.1.Some? {
          running := te.value.1;
        }
        if te.value.0.event.TrackName? {
          name := Some(te.value.0.event.name);
        }
        events := events + [te.value.0];
        assert events[..|events| - 1] == done;
        atEnd := te.value.0.event.EndOfTrack?;
      }
      OntoEnd<TrackEvent, SmfError>(events);
      pos := end;
      r := Ok(Track(name, events));
    }

    method Timed(end: nat, running: Option<Byte>) returns (r: Result<(TrackEvent, Option<Byte>), SmfError>)
      requires end <= |data|
      modifies this
      ensures Agrees(r, pos, ParseTimed(data, old(pos), end, running))
    {
      hide ReadVlq, ParseEvent;
      var delta := Vlq();
      if delta.Err? {
        return Err(delta.error);
      }
      if pos >= end {
        return Err(EventTruncated);
      }
      DeltaFits(data, old(pos));
      var event := OneEvent(end, running);
      if event.Err? {
        return Err(event.error);
      }
      r := Ok((TrackEvent(delta.value, event.value.0), event.value.1));
    }

    method HeaderChunk() returns (r: Result<Header, SmfError>)
      requires pos == 0
      modifies this
      ensures r == ParseHeader(data)
      ensures r.Ok? ==> pos == 14
    {
      hide FromBe16, FromBe32;
      if pos + 14 > |data| {
        return Err(Truncated);
      }
      if data[pos..pos + 4] != MTHD {
        return Err(BadHeaderMagic);
      }
      pos := pos + 4;
      var length := Word32();
      if length.value != 6 {
        return Err(BadHeaderLength);
      }
      var word := Word16();
      var format := DecodeFormat(word.value);
      if format.Err? {
        return Err(format.error);
      }
      var count := Word16();
      r := Ok(Header(format.value, count.value, DecodeDivision(data[pos], data[pos + 1])));
      pos := pos + 2;
    }
  }

  method ParseFile(data: seq<Byte>) returns (r: Result<File, SmfError>)
    ensures r == Parse(data)
  {
    hide ParseHeader, ParseTrack;
    var c := new Cursor(data);
    var header := c.HeaderChunk();
    if header.Err? {
      return Err(header.error);
    }
    var tracks: seq<Track> := [];
    ghost var all := ParseTracks(data, 14, header.value.count);
    BeforeNothing(all);
    for k := 0 to header.value.count
      invariant all == Before(tracks, ParseTracks(data, c.pos, header.value.count - k))
    {
      var track := c.OneTrack();
      if track.Err? {
        return Err(track.error);
      }
      BeforeTwice(tracks, track.value, ParseTracks(data, c.pos, header.value.count - k - 1));
      tracks := tracks + [track.value];
    }
    assert tracks + [] == tracks;
    r := Ok(File(header.value.format, header.value.division, tracks));
  }

  // ---- accumulating lists ----

  /** Tracks already parsed, in front of those still to come. */
  ghost function Before(done: seq<Track>, r: Read<seq<Track>>): Read<seq<Track>> {
    match r
    case Bad(e) => Bad(e)
    case Got(rest, next) => Got(done + rest, next)
  }

  lemma BeforeNothing(r: Read<seq<Track>>)
    ensures Before([], r) == r
  {
    assert r.Got? ==> [] + r.value == r.value;
  }

  lemma BeforeTwice(done: seq<Track>, track: Track, r: Read<seq<Track>>)
    ensures Before(done, Before([track], r)) == Before(done + [track], r)
  {
    assert r.Got? ==> done + ([track] + r.value) == done + [track] + r.value;
  }
}
