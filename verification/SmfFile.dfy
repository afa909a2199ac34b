/** Standard MIDI Files: the parsed model and the bytes the writer gives it, as pure functions. */
module SmfFile {
  import opened Bytes
  import opened Wrappers

  datatype MidiMessage = MidiMessage(status: Byte, data: seq<Byte>, timestamp: nat)

  type I8 = x: int | -128 <= x < 128

  datatype Event =
    | Midi(msg: MidiMessage)
    | Tempo(us: U32)
    | TimeSignature(numerator: Byte, denominatorPow2: Byte, clocksPerClick: Byte, thirtySeconds: Byte)
    | KeySignature(sharpsFlats: I8, isMinor: bool)
    | TrackName(name: seq<Byte>)
    | EndOfTrack
    | UnknownMeta(metaType: Byte, data: seq<Byte>)

  datatype TrackEvent = TrackEvent(delta: U32, event: Event)

  datatype Track = Track(name: Option<seq<Byte>>, events: seq<TrackEvent>)

  datatype Division = TicksPerBeat(tpb: U16) | Smpte(fps: Byte, subframes: Byte)

  datatype Format = SingleTrack | MultiTrack | MultiSong

  datatype File = File(format: Format, division: Division, tracks: seq<Track>)

  const META: Byte := 0xFF
  const META_NAME: Byte := 0x03
  const META_END: Byte := 0x2F
  const META_TEMPO: Byte := 0x51
  const META_TIME: Byte := 0x58
  const META_KEY: Byte := 0x59

  const MTHD: seq<Byte> := [0x4D, 0x54, 0x68, 0x64]
  const MTRK: seq<Byte> := [0x4D, 0x54, 0x72, 0x6B]

  // Values a variable-length quantity can hold, and lengths a chunk can.
  const VLQ_LIMIT: nat := 0x1000_0000
  const CHUNK_LIMIT: nat := 0x1_0000_0000

  /** A length as the writer casts it, to 32 bits. */
  function Length32(n: nat): U32 {
    n % CHUNK_LIMIT
  }

  // ---- the bytes ----

  /** 7-bit groups with the continuation flag on each. */
  function VlqMore(v: nat): seq<Byte> {
    if v == 0 then [] else VlqMore(v / 128) + [v % 128 + 128]
  }

  /** A variable-length quantity: most significant group first, the last one unflagged. */
  function VlqBytes(v: nat): (r: seq<Byte>)
    ensures |r| >= 1
  {
    VlqMore(v / 128) + [v % 128]
  }

  function MidiBytes(msg: MidiMessage): (r: seq<Byte>)
    ensures |r| >= 1
  {
    if msg.status == 0xF0 then [0xF0] + msg.data + [0xF7] else [msg.status] + msg.data
  }

  function ToByte(i: I8): Byte {
    if i < 0 then i + 256 else i
  }

  function FromByte(b: Byte): I8 {
    if b < 128 then b else b - 256
  }

  function PayloadBytes(metaType: Byte, data: seq<Byte>): (r: seq<Byte>)
    ensures |r| >= 1
  {
    [META, metaType] + VlqBytes(Length32(|data|)) + data
  }

  function EventBytes(e: Event): (r: seq<Byte>)
    ensures |r| >= 1
  {
    match e
    case Midi(msg) => MidiBytes(msg)
    case Tempo(us) => [META, META_TEMPO, 3] + Be32(us)[1..]
    case TimeSignature(n, d, c, t) => [META, META_TIME, 4, n, d, c, t]
    case KeySignature(sf, minor) => [META, META_KEY, 2, ToByte(sf), if minor then 1 else 0]
    case TrackName(name) => PayloadBytes(META_NAME, name)
    case EndOfTrack => [META, META_END, 0]
    case UnknownMeta(metaType, data) => PayloadBytes(metaType, data)
  }

  function TimedBytes(te: TrackEvent): seq<Byte> {
    VlqBytes(te.delta) + EventBytes(te.event)
  }

  function EventsBytes(events: seq<TrackEvent>): seq<Byte> {
    if events == [] then [] else TimedBytes(events[0]) + EventsBytes(events[1..])
  }

  predicate HasEnd(events: seq<TrackEvent>) {
    events != [] && (events[0].event.EndOfTrack? || HasEnd(events[1..]))
  }

  /** What the writer appends so that every track ends. */
  function Closing(events: seq<TrackEvent>): seq<Byte> {
    if HasEnd(events) then [] else [0, META, META_END, 0]
  }

  function TrackBytes(events: seq<TrackEvent>): seq<Byte> {
    EventsBytes(events) + Closing(events)
  }

  function ChunkBytes(track: Track): seq<Byte> {
    var body := TrackBytes(track.events);
    MTRK + Be32(|body|) + body
  }

  function TracksBytes(tracks: seq<Track>): seq<Byte> {
    if tracks == [] then [] else ChunkBytes(tracks[0]) + TracksBytes(tracks[1..])
  }

  function FormatWord(f: Format): U16 {
    match f
    case SingleTrack => 0
    case MultiTrack => 1
    case MultiSong => 2
  }

  /** The writer negates fps within a byte and forces the top bit. */
  function DivisionBytes(d: Division): (r: seq<Byte>)
    ensures |r| == 2
  {
    match d
    case TicksPerBeat(tpb) => Be16(tpb)
    case Smpte(fps, subframes) =>
      var negated := (256 - fps) % 256;
      [if negated < 128 then negated + 128 else negated, subframes]
  }

  function HeaderBytes(file: File): (r: seq<Byte>)
    ensures |r| == 14
  {
    MTHD + Be32(6) + Be16(FormatWord(file.format)) + Be16(|file.tracks|) + DivisionBytes(file.division)
  }

  function FileBytes(file: File): seq<Byte> {
    HeaderBytes(file) + TracksBytes(file.tracks)
  }

  // ---- what the writer accepts ----

  /** Every quantity fits the writer's four 7-bit groups; a larger one runs off the end of its array. */
  predicate EventFits(e: Event) {
    match e
    case TrackName(name) => Length32(|name|) < VLQ_LIMIT
    case UnknownMeta(_, data) => Length32(|data|) < VLQ_LIMIT
    case _ => true
  }

  predicate EventsFit(events: seq<TrackEvent>) {
    forall i :: 0 <= i < |events| ==> events[i].delta < VLQ_LIMIT && EventFits(events[i].event)
  }

  predicate FileFits(file: File) {
    forall i :: 0 <= i < |file.tracks| ==> EventsFit(file.tracks[i].events)
  }

  // ---- lists grow at their end ----

  lemma {:induction false} EventsBytesAppend(a: seq<TrackEvent>, b: seq<TrackEvent>)
    ensures EventsBytes(a + b) == EventsBytes(a) + EventsBytes(b)
    ensures HasEnd(a + b) <==> HasEnd(a) || HasEnd(b)
    decreases |a|
  {
    if a == [] {
      assert a + b == b;
    } else {
      assert (a + b)[1..] == a[1..] + b;
      EventsBytesAppend(a[1..], b);
    }
  }

  lemma EventsBytesStep(events: seq<TrackEvent>, k: nat)
    requires k < |events|
    ensures EventsBytes(events[..k + 1]) == EventsBytes(events[..k]) + TimedBytes(events[k])
    ensures HasEnd(events[..k + 1]) <==> HasEnd(events[..k]) || events[k].event.EndOfTrack?
  {
    assert events[..k + 1] == events[..k] + [events[k]];
    EventsBytesAppend(events[..k], [events[k]]);
  }

  lemma {:induction false} TracksBytesAppend(a: seq<Track>, b: seq<Track>)
    ensures TracksBytes(a + b) == TracksBytes(a) + TracksBytes(b)
    decreases |a|
  {
    if a == [] {
      assert a + b == b;
    } else {
      assert (a + b)[1..] == a[1..] + b;
      TracksBytesAppend(a[1..], b);
    }
  }

  lemma TracksBytesStep(tracks: seq<Track>, k: nat)
    requires k < |tracks|
    ensures TracksBytes(tracks[..k + 1]) == TracksBytes(tracks[..k]) + ChunkBytes(tracks[k])
  {
    assert tracks[..k + 1] == tracks[..k] + [tracks[k]];
    TracksBytesAppend(tracks[..k], [tracks[k]]);
  }
}
