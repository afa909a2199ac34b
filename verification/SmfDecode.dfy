/** What the parser computes, as functions of the whole file and an offset into it. */
module SmfDecode {
  import opened Bytes
  import opened Wrappers
  import opened SmfFile
  import Utf8

  datatype SmfError =
    | Truncated
    | BadHeaderMagic
    | BadHeaderLength
    | UnknownFormat
    | BadTrackMagic
    | ChunkPastEnd
    | VlqEof
    | VlqTooLong
    | EventTruncated
    | MetaPastEnd
    | SysExPastEnd
    | NoRunningStatus
    | DataTruncated
    | BadMessageType
    | MetaTooShort

  type Read<+T> = Parsed<T, SmfError>

  // What a track name that is not UTF-8 is replaced by: "<invalid UTF-8>".
  const INVALID_NAME: seq<Byte> :=
    [0x3C, 0x69, 0x6E, 0x76, 0x61, 0x6C, 0x69, 0x64, 0x20, 0x55, 0x54, 0x46, 0x2D, 0x38, 0x3E]

  /** At most `left` more groups: the flag of each says whether another follows. */
  function VlqFrom(data: seq<Byte>, pos: nat, val: nat, left: nat): (r: Read<nat>)
    ensures r.Got? ==> pos < r.next <= |data|
    decreases left
  {
    if left == 0 then Bad(VlqTooLong)
    else if pos >= |data| then Bad(VlqEof)
    else
      var b := data[pos];
      if b < 128 then Got(val * 128 + b, pos + 1) else VlqFrom(data, pos + 1, val * 128 + (b - 128), left - 1)
  }

  function ReadVlq(data: seq<Byte>, pos: nat): (r: Read<nat>)
    ensures r.Got? ==> pos < r.next <= |data|
  {
    VlqFrom(data, pos, 0, 4)
  }

  function ReadByte(data: seq<Byte>, pos: nat): (r: Read<Byte>) {
    if pos >= |data| then Bad(Truncated) else Got(data[pos], pos + 1)
  }

  /** A data byte is also bounded by its own track. */
  function ReadDataByte(data: seq<Byte>, pos: nat, end: nat): (r: Read<Byte>) {
    if pos >= end then Bad(DataTruncated) else ReadByte(data, pos)
  }

  function DecodeMeta(metaType: Byte, data: seq<Byte>): Result<Event, SmfError> {
    if metaType == META_NAME then
      Ok(TrackName(if Utf8.Valid(data) then data else INVALID_NAME))
    else if metaType == META_TEMPO then
      if |data| < 3 then Err(MetaTooShort) else Ok(Tempo(FromBe32([0] + data[..3])))
    else if metaType == META_TIME then
      if |data| < 4 then Err(MetaTooShort) else Ok(TimeSignature(data[0], data[1], data[2], data[3]))
    else if metaType == META_KEY then
      if |data| < 2 then Err(MetaTooShort) else Ok(KeySignature(FromByte(data[0]), data[1] != 0))
    else if metaType == META_END then
      Ok(EndOfTrack)
    else
      Ok(UnknownMeta(metaType, data))
  }

  /** A length-prefixed payload that must end inside its track. */
  function ReadPayload(data: seq<Byte>, pos: nat, end: nat, pastEnd: SmfError): (r: Read<seq<Byte>>)
    requires end <= |data|
    ensures r.Got? ==> pos < r.next <= end && |r.value| < r.next - pos
  {
    match ReadVlq(data, pos)
    case Bad(e) => Bad(e)
    case Got(len, start) =>
      if start + len > end then Bad(pastEnd) else Got(data[start..start + len], start + len)
  }

  /** An event, and the status byte it leaves as running status: none for meta and SysEx events. */
  function ParseEvent(data: seq<Byte>, pos: nat, end: nat, running: Option<Byte>): Read<(Event, Option<Byte>)>
    requires pos < end <= |data|
  {
    var first := data[pos];
    if first == META then
      ParseMeta(data, pos + 1, end)
    else if first == 0xF0 || first == 0xF7 then
      match ReadPayload(data, pos + 1, end, SysExPastEnd)
      case Bad(e) => Bad(e)
      case Got(payload, next) => Got((Midi(MidiMessage(first, payload, 0)), None), next)
    else if first >= 0x80 then
      ParseChannel(data, pos + 1, end, first)
    else if running.None? then
      Bad(NoRunningStatus)
    else
      ParseChannel(data, pos, end, running.value)
  }

  function ParseMeta(data: seq<Byte>, pos: nat, end: nat): Read<(Event, Option<Byte>)>
    requires end <= |data|
  {
    match ReadByte(data, pos)
    case Bad(e) => Bad(e)
    case Got(metaType, p1) =>
      match ReadPayload(data, p1, end, MetaPastEnd)
      case Bad(e) => Bad(e)
      case Got(payload, next) =>
        match DecodeMeta(metaType, payload)
        case Err(e) => Bad(e)
        case Ok(event) => Got((event, None), next)
  }

  /** The data bytes of a channel message start at `pos`, whether its status was read or carried over. */
  function ParseChannel(data: seq<Byte>, pos: nat, end: nat, status: Byte): Read<(Event, Option<Byte>)>
    requires end <= |data|
  {
    match ReadDataByte(data, pos, end)
    case Bad(e) => Bad(e)
    case Got(b1, p1) =>
      if TwoDataBytes(status) then
        match ReadDataByte(data, p1, end)
        case Bad(e) => Bad(e)
        case Got(b2, p2) => Got((Midi(MidiMessage(status, [b1, b2], 0)), Some(status)), p2)
      else if OneDataByte(status) then
        Got((Midi(MidiMessage(status, [b1], 0)), Some(status)), p1)
      else
        Bad(BadMessageType)
  }

  /** Note off, note on, poly pressure, control change and pitch bend. */
  predicate TwoDataBytes(status: Byte) {
    0x80 <= status < 0xC0 || 0xE0 <= status < 0xF0
  }

  /** Program change and channel pressure. */
  predicate OneDataByte(status: Byte) {
    0xC0 <= status < 0xE0
  }

  /**
   * Confinement: an event that parses moves forward and stays inside its track, although the readers of
   * quantities and bytes stop only at the end of the whole file.
   */
  lemma EventConfined(data: seq<Byte>, pos: nat, end: nat, running: Option<Byte>)
    requires pos < end <= |data| && ParseEvent(data, pos, end, running).Got?
    ensures pos < ParseEvent(data, pos, end, running).next <= end
  {
  }

  // ---- tracks ----

  /** One delta time and its event. */
  function ParseTimed(data: seq<Byte>, pos: nat, end: nat, running: Option<Byte>): Read<(TrackEvent, Option<Byte>)>
    requires end <= |data|
  {
    match ReadVlq(data, pos)
    case Bad(e) => Bad(e)
    case Got(delta, start) =>
      if start >= end then Bad(EventTruncated)
      else
        match ParseEvent(data, start, end, running)
        case Bad(e) => Bad(e)
        case Got((event, status), next) =>
          DeltaFits(data, pos);
          Got((TrackEvent(delta, event), status), next)
  }

  lemma DeltaFits(data: seq<Byte>, pos: nat)
    ensures ReadVlq(data, pos).Got? ==> ReadVlq(data, pos).value < VLQ_LIMIT
  {
    VlqBound(data, pos, 0, 4);
  }

  lemma {:induction false} VlqBound(data: seq<Byte>, pos: nat, val: nat, left: nat)
    requires left <= 4
    requires left == 3 ==> val < 0x80
    requires left == 2 ==> val < 0x4000
    requires left == 1 ==> val < 0x20_0000
    requires left == 4 ==> val == 0
    ensures VlqFrom(data, pos, val, left).Got? ==> VlqFrom(data, pos, val, left).value < VLQ_LIMIT
    decreases left
  {
    if left > 0 && pos < |data| && data[pos] >= 128 {
      VlqBound(data, pos + 1, val * 128 + (data[pos] - 128), left - 1);
    }
  }

  function Kept(before: Option<Byte>, status: Option<Byte>): Option<Byte> {
    if status.Some? then status else before
  }

  /** The events of a track up to its end, or up to and including its first end-of-track event. */
  function ParseEvents(data: seq<Byte>, pos: nat, end: nat, running: Option<Byte>): Result<seq<TrackEvent>, SmfError>
    requires end <= |data|
    decreases end - pos
  {
    if pos >= end then
      Ok([])
    else
      match ParseTimed(data, pos, end, running)
      case Bad(e) => Err(e)
      case Got((te, status), next) =>
        TimedConfined(data, pos, end, running);
        if te.event.EndOfTrack? then Ok([te])
        else Onto([te], ParseEvents(data, next, end, Kept(running, status)))
  }

  lemma TimedConfined(data: seq<Byte>, pos: nat, end: nat, running: Option<Byte>)
    requires pos < end <= |data| && ParseTimed(data, pos, end, running).Got?
    ensures pos < ParseTimed(data, pos, end, running).next <= end
  {
    EventConfined(data, ReadVlq(data, pos).next, end, running);
  }

  /** The last track name among the events, if any. */
  function LastName(events: seq<TrackEvent>): Option<seq<Byte>> {
    if events == [] then None
    else
      var last := events[|events| - 1].event;
      if last.TrackName? then Some(last.name) else LastName(events[..|events| - 1])
  }

  function ReadBe16(data: seq<Byte>, pos: nat): Read<U16> {
    if pos + 2 > |data| then Bad(Truncated) else Got(FromBe16(data[pos..pos + 2]), pos + 2)
  }

  function ReadBe32(data: seq<Byte>, pos: nat): Read<U32> {
    if pos + 4 > |data| then Bad(Truncated) else Got(FromBe32(data[pos..pos + 4]), pos + 4)
  }

  /** The header of a chunk: where its body starts and ends. */
  function ParseChunkHeader(data: seq<Byte>, pos: nat): (r: Read<nat>)
    ensures r.Got? ==> r.next == pos + 8 <= r.value <= |data|
  {
    if pos + 8 > |data| then Bad(Truncated)
    else if data[pos..pos + 4] != MTRK then Bad(BadTrackMagic)
    else
      match ReadBe32(data, pos + 4)
      case Bad(e) => Bad(e)
      case Got(len, start) => if start + len > |data| then Bad(ChunkPastEnd) else Got(start + len, start)
  }

  /** A track takes exactly its chunk, wherever its events stop. */
  function ParseTrack(data: seq<Byte>, pos: nat): Read<Track> {
    match ParseChunkHeader(data, pos)
    case Bad(e) => Bad(e)
    case Got(end, start) =>
      match ParseEvents(data, start, end, None)
      case Err(e) => Bad(e)
      case Ok(events) => Got(Track(LastName(events), events), end)
  }

  function ParseTracks(data: seq<Byte>, pos: nat, count: nat): Read<seq<Track>>
    decreases count
  {
    if count == 0 then
      Got([], pos)
    else
      match ParseTrack(data, pos)
      case Bad(e) => Bad(e)
      case Got(track, next) =>
        match ParseTracks(data, next, count - 1)
        case Bad(e) => Bad(e)
        case Got(rest, end) => Got([track] + rest, end)
  }

  // ---- files ----

  function DecodeDivision(hi: Byte, lo: Byte): Division {
    if hi < 128 then TicksPerBeat(hi as int * 256 + lo) else Smpte(hi - 128, lo)
  }

  function DecodeFormat(word: U16): Result<Format, SmfError> {
    if word == 0 then Ok(SingleTrack)
    else if word == 1 then Ok(MultiTrack)
    else if word == 2 then Ok(MultiSong)
    else Err(UnknownFormat)
  }

  datatype Header = Header(format: Format, count: U16, division: Division)

  function ParseHeader(data: seq<Byte>): Result<Header, SmfError> {
    if |data| < 14 then Err(Truncated)
    else if data[..4] != MTHD then Err(BadHeaderMagic)
    else if FromBe32(data[4..8]) != 6 then Err(BadHeaderLength)
    else
      match DecodeFormat(FromBe16(data[8..10]))
      case Err(e) => Err(e)
      case Ok(format) => Ok(Header(format, FromBe16(data[10..12]), DecodeDivision(data[12], data[13])))
  }

  function Parse(data: seq<Byte>): Result<File, SmfError> {
    match ParseHeader(data)
    case Err(e) => Err(e)
    case Ok(h) =>
      match ParseTracks(data, 14, h.count)
      case Bad(e) => Err(e)
      case Got(tracks, _) => Ok(File(h.format, h.division, tracks))
  }
}
