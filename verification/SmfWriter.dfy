/** The writer as it runs: byte vectors extended in loops, quantities collected backwards in a small array. */
module SmfWriter {
  import opened Bytes
  import opened Wrappers
  import opened SmfFile

  method Write(file: File) returns (out: seq<Byte>)
    requires FileFits(file)
    ensures out == FileBytes(file)
  {
    var buf := new Buffer();
    hide Be32, TrackBytes, DivisionBytes;
    buf.Extend(MTHD);
    buf.Extend(Be32(6));
    buf.Extend(Be16(FormatWord(file.format)));
    buf.Extend(Be16(|file.tracks|));
    buf.Extend(DivisionBytes(file.division));
    assert buf.bytes == HeaderBytes(file);
    for k := 0 to |file.tracks|
      invariant buf.bytes == HeaderBytes(file) + TracksBytes(file.tracks[..k])
    {
      var body := EncodeTrack(file.tracks[k].events);
      buf.Extend(MTRK);
      buf.Extend(Be32(|body|));
      buf.Extend(body);
      Chunked(HeaderBytes(file), TracksBytes(file.tracks[..k]), body);
      TracksBytesStep(file.tracks, k);
    }
    assert file.tracks[..|file.tracks|] == file.tracks;
    out := buf.bytes;
  }

  lemma Chunked(header: seq<Byte>, done: seq<Byte>, body: seq<Byte>)
    ensures header + done + MTRK + Be32(|body|) + body == header + (done + (MTRK + Be32(|body|) + body))
  {
  }

  method EncodeTrack(events: seq<TrackEvent>) returns (body: seq<Byte>)
    requires EventsFit(events)
    ensures body == TrackBytes(events)
  {
    hide TimedBytes;
    var buf := new Buffer();
    var hasEnd := false;
    for k := 0 to |events|
      invariant buf.bytes == EventsBytes(events[..k])
      invariant hasEnd == HasEnd(events[..k])
    {
      WriteTimed(events[k], buf);
      if events[k].event.EndOfTrack? {
        hasEnd := true;
      }
      EventsBytesStep(events, k);
    }
    assert events[..|events|] == events;
    if !hasEnd {
      buf.Extend([0, META, META_END, 0]);
    }
    body := buf.bytes;
  }

  method WriteTimed(te: TrackEvent, buf: Buffer)
    requires te.delta < VLQ_LIMIT && EventFits(te.event)
    modifies buf
    ensures buf.bytes == old(buf.bytes) + TimedBytes(te)
  {
    hide VlqBytes, Be32;
    WriteVlq(te.delta, buf);
    ghost var head := buf.bytes;
    Assoc(old(buf.bytes), VlqBytes(te.delta), EventBytes(te.event));
    match te.event
    case Midi(msg) => buf.Extend(MidiBytes(msg));
    case Tempo(us) =>
      buf.Extend([META, META_TEMPO, 3]);
      buf.Extend(Be32(us)[1..]);
      assert buf.bytes == head + EventBytes(te.event);
    case TimeSignature(n, d, c, t) => buf.Extend([META, META_TIME, 4, n, d, c, t]);
    case KeySignature(sf, minor) => buf.Extend([META, META_KEY, 2, ToByte(sf), if minor then 1 else 0]);
    case TrackName(name) =>
      buf.Extend([META, META_NAME]);
      WriteVlq(Length32(|name|), buf);
      buf.Extend(name);
      assert buf.bytes == head + PayloadBytes(META_NAME, name);
    case EndOfTrack => buf.Extend([META, META_END, 0]);
    case UnknownMeta(metaType, data) =>
      buf.Push(META);
      buf.Push(metaType);
      WriteVlq(Length32(|data|), buf);
      buf.Extend(data);
      assert buf.bytes == head + PayloadBytes(metaType, data);
  }

  type Group = x: int | 0 <= x < 128

  /** The 7-bit groups of a value, least significant first; zero still has one. */
  function Groups(v: nat): (r: seq<Group>)
    ensures |r| >= 1
  {
    [v % 128] + if v / 128 == 0 then [] else Groups(v / 128)
  }

  /** A quantity fits the writer's four places, and its loop stays inside them, if and only if it is below 2^28. */
  lemma FourPlacesExactly(v: nat)
    ensures |Groups(v)| <= 4 <==> v < VLQ_LIMIT
  {
    var a, b, c, d := v / 128, v / 0x4000, v / 0x20_0000, v / VLQ_LIMIT;
    assert a / 128 == b && b / 128 == c && c / 128 == d;
    GroupsSplit([], v);
    GroupsSplit([], a);
    GroupsSplit([], b);
    GroupsSplit([], c);
  }

  /** Groups read backwards, each with its continuation flag. */
  function Flagged(groups: seq<Group>): seq<Byte> {
    if groups == [] then [] else Flagged(groups[1..]) + [groups[0] as int + 128]
  }

  /** Groups read backwards, flagged except the one at index 0. */
  function Emitted(groups: seq<Group>): seq<Byte> {
    if groups == [] then [] else Flagged(groups[1..]) + [groups[0]]
  }

  lemma {:induction false} FlaggedLast(groups: seq<Group>, g: Group)
    ensures Flagged(groups + [g]) == [g as int + 128] + Flagged(groups)
    decreases |groups|
  {
    if groups == [] {
      assert [g] == [] + [g];
    } else {
      assert (groups + [g])[1..] == groups[1..] + [g];
      FlaggedLast(groups[1..], g);
    }
  }

  /** One turn of the emitting loop: the byte written at index `i` comes off what is left to write. */
  lemma EmitStep(out: seq<Byte>, total: seq<Byte>, groups: seq<Group>, i: nat, b: Byte)
    requires i < |groups| && b as int == if i > 0 then groups[i] as int + 128 else groups[i]
    requires out + Emitted(groups[..i + 1]) == total
    ensures out + [b] + Emitted(groups[..i]) == total
  {
    EmittedLast(groups, i);
    Assoc(out, [b], Emitted(groups[..i]));
  }

  lemma EmittedLast(groups: seq<Group>, i: nat)
    requires i < |groups|
    ensures Emitted(groups[..i + 1]) == [if i > 0 then groups[i] as int + 128 else groups[i]] + Emitted(groups[..i])
  {
    if i > 0 {
      assert groups[..i + 1][1..] == groups[1..i] + [groups[i]];
      FlaggedLast(groups[1..i], groups[i]);
      assert groups[..i][1..] == groups[1..i];
    }
  }

  /** Collecting upwards and emitting downwards spells the quantity most significant group first. */
  lemma EmittedIsVlq(v: nat)
    ensures Emitted(Groups(v)) == VlqBytes(v)
  {
    assert Groups(v)[1..] == if v / 128 == 0 then [] else Groups(v / 128);
    FlaggedIsMore(v / 128);
  }

  lemma {:induction false} FlaggedIsMore(v: nat)
    ensures v > 0 ==> Flagged(Groups(v)) == VlqMore(v)
  {
    if v > 0 {
      var rest := v / 128;
      assert Groups(v)[1..] == if rest == 0 then [] else Groups(rest);
      FlaggedIsMore(rest);
      hide Groups;
      assert Flagged(Groups(v)) == Flagged(Groups(v)[1..]) + [v % 128 + 128];
    }
  }

  method WriteVlq(val: nat, buf: Buffer)
    requires val < VLQ_LIMIT
    modifies buf
    ensures buf.bytes == old(buf.bytes) + VlqBytes(val)
  {
    hide VlqBytes, Emitted, Groups;
    var bytes, len := CollectGroups(val);
    ghost var all := bytes[..len];
    assert all[..len] == all;
    EmittedNothing();
    ghost var total := old(buf.bytes) + Emitted(all);
    var i := len;
    while i > 0
      invariant 0 <= i <= len && all == bytes[..len]
      invariant buf.bytes + Emitted(all[..i]) == total
    {
      i := i - 1;
      var b := if i > 0 then bytes[i] as int + 128 else bytes[i];
      EmitStep(buf.bytes, total, all, i, b);
      buf.Push(b);
    }
    EmittedIsVlq(val);
  }

  /** The first half: the groups go into a four-place array, least significant first. */
  method CollectGroups(val: nat) returns (bytes: array<Group>, len: nat)
    requires val < VLQ_LIMIT
    ensures fresh(bytes) && len <= bytes.Length && bytes[..len] == Groups(val)
  {
    hide Groups;
    bytes := new Group[4];
    len := 0;
    var rest := val;
    ghost var all := Groups(val);
    FourPlacesExactly(val);
    while true
      invariant 0 <= len <= 4 && len + |Groups(rest)| == |all|
      invariant all == bytes[..len] + Groups(rest)
      decreases rest
    {
      GroupsSplit(bytes[..len], rest);
      ghost var done := bytes[..len];
      bytes[len] := rest % 128;
      len := len + 1;
      assert bytes[..len] == done + [rest % 128];
      rest := rest / 128;
      if rest == 0 {
        break;
      }
    }
    assert all == bytes[..len];
  }

  /** One turn of the collecting loop: the next group moves from the value to the array. */
  lemma GroupsSplit(done: seq<Group>, rest: nat)
    ensures done + Groups(rest) == done + [rest % 128] + if rest / 128 == 0 then [] else Groups(rest / 128)
    ensures |Groups(rest)| == 1 + if rest / 128 == 0 then 0 else |Groups(rest / 128)|
  {
  }

  lemma EmittedNothing()
    ensures Emitted([]) == []
  {
  }
}
