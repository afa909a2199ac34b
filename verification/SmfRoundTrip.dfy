/** Parsing what was written: quantities, events, tracks, files, and exactly where fidelity ends. */
module SmfRoundTrip {
  import opened Bytes
  import opened Wrappers
  import opened SmfFile
  import opened SmfDecode
  import Utf8

  // ---- quantities ----

  lemma VlqShape(v: nat)
    requires v < VLQ_LIMIT
    ensures VlqBytes(v) ==
            if v < 0x80 then [v]
            else if v < 0x4000 then [v / 0x80 + 128, v % 0x80]
            else if v < 0x20_0000 then [v / 0x4000 + 128, v / 0x80 % 0x80 + 128, v % 0x80]
            else [v / 0x20_0000 + 128, v / 0x4000 % 0x80 + 128, v / 0x80 % 0x80 + 128, v % 0x80]
  {
    var a, b, c := v / 0x80, v / 0x4000, v / 0x20_0000;
    assert a / 128 == b && b / 128 == c && c / 128 == 0;
    assert VlqMore(c) == if c == 0 then [] else [c % 128 + 128];
    assert VlqMore(b) == if b == 0 then [] else VlqMore(c) + [b % 128 + 128];
    assert VlqMore(a) == if a == 0 then [] else VlqMore(b) + [a % 128 + 128];
  }

  lemma ReadsVlq(data: seq<Byte>, pos: nat, v: nat)
    requires v < VLQ_LIMIT && At(data, pos, VlqBytes(v))
    ensures ReadVlq(data, pos) == Got(v, pos + |VlqBytes(v)|)
  {
    VlqShape(v);
    GroupsAddUp(v);
    hide VlqBytes, ReadVlq;
    var s := VlqBytes(v);
    assert data[pos..pos + |s|] == s;
    assert data[pos] == data[pos..pos + |s|][0];
    if v < 0x80 {
      OneGroup(data, pos);
    } else if v < 0x4000 {
      assert data[pos + 1] == data[pos..pos + |s|][1];
      TwoGroups(data, pos);
    } else if v < 0x20_0000 {
      assert data[pos + 1] == data[pos..pos + |s|][1] && data[pos + 2] == data[pos..pos + |s|][2];
      ThreeGroups(data, pos);
    } else {
      assert data[pos + 1] == data[pos..pos + |s|][1] && data[pos + 2] == data[pos..pos + |s|][2];
      assert data[pos + 3] == data[pos..pos + |s|][3];
      FourGroups(data, pos);
    }
  }

  /** The groups of a value, put together again. */
  lemma GroupsAddUp(v: nat)
    ensures v / 0x80 * 128 + v % 0x80 == v
    ensures (v / 0x4000 * 128 + v / 0x80 % 0x80) * 128 + v % 0x80 == v
    ensures ((v / 0x20_0000 * 128 + v / 0x4000 % 0x80) * 128 + v / 0x80 % 0x80) * 128 + v % 0x80 == v
  {
    var a, b := v / 0x80, v / 0x4000;
    assert b == a / 0x80 && v / 0x20_0000 == b / 0x80;
  }

  lemma OneGroup(data: seq<Byte>, pos: nat)
    requires pos < |data| && data[pos] < 128
    ensures ReadVlq(data, pos) == Got(data[pos], pos + 1)
  {
  }

  lemma TwoGroups(data: seq<Byte>, pos: nat)
    requires pos + 1 < |data| && data[pos] >= 128 && data[pos + 1] < 128
    ensures ReadVlq(data, pos) == Got((data[pos] as int - 128) * 128 + data[pos + 1], pos + 2)
  {
  }

  lemma ThreeGroups(data: seq<Byte>, pos: nat)
    requires pos + 2 < |data| && data[pos] >= 128 && data[pos + 1] >= 128 && data[pos + 2] < 128
    ensures ReadVlq(data, pos)
         == Got(((data[pos] as int - 128) * 128 + (data[pos + 1] as int - 128)) * 128 + data[pos + 2], pos + 3)
  {
    assert VlqFrom(data, pos + 1, data[pos] as int - 128, 3)
        == VlqFrom(data, pos + 2, (data[pos] as int - 128) * 128 + (data[pos + 1] as int - 128), 2);
  }

  lemma FourGroups(data: seq<Byte>, pos: nat)
    requires pos + 3 < |data| && data[pos] >= 128 && data[pos + 1] >= 128 && data[pos + 2] >= 128 && data[pos + 3] < 128
    ensures ReadVlq(data, pos)
         == Got((((data[pos] as int - 128) * 128 + (data[pos + 1] as int - 128)) * 128
                 + (data[pos + 2] as int - 128)) * 128 + data[pos + 3], pos + 4)
  {
    var a := data[pos] as int - 128;
    var b := a * 128 + (data[pos + 1] as int - 128);
    assert VlqFrom(data, pos + 1, a, 3) == VlqFrom(data, pos + 2, b, 2);
    assert VlqFrom(data, pos + 2, b, 2) == VlqFrom(data, pos + 3, b * 128 + (data[pos + 2] as int - 128), 1);
  }

  // ---- events ----

  /** What parsing leaves of an event: the format has no place for a message's timestamp. */
  function Plain(e: Event): Event {
    if e.Midi? then Midi(e.msg.(timestamp := 0)) else e
  }

  predicate IsChannel(status: Byte) {
    0x80 <= status < 0xF0
  }

  /** The running status an event leaves behind. */
  function StatusOf(e: Event): Option<Byte> {
    if e.Midi? && IsChannel(e.msg.status) then Some(e.msg.status) else None
  }

  /**
   * Events the format can carry: channel messages with their own number of data bytes, 24-bit tempos, names
   * that are UTF-8, and metas of a type the parser does not take apart. No SysEx message is among them.
   */
  predicate EventOk(e: Event) {
    match e
    case Midi(msg) => (TwoDataBytes(msg.status) && |msg.data| == 2) || (OneDataByte(msg.status) && |msg.data| == 1)
    case Tempo(us) => us < 0x100_0000
    case TrackName(name) => |name| < VLQ_LIMIT && Utf8.Valid(name)
    case UnknownMeta(t, data) =>
      |data| < VLQ_LIMIT && t != META_NAME && t != META_TEMPO && t != META_TIME && t != META_KEY && t != META_END
    case _ => true
  }

  lemma ReadsPayload(data: seq<Byte>, pos: nat, end: nat, payload: seq<Byte>, pastEnd: SmfError)
    requires |payload| < VLQ_LIMIT && At(data, pos, VlqBytes(|payload|) + payload)
    requires pos + |VlqBytes(|payload|)| + |payload| <= end <= |data|
    ensures ReadPayload(data, pos, end, pastEnd) == Got(payload, pos + |VlqBytes(|payload|)| + |payload|)
  {
    hide VlqBytes;
    AtSplit(data, pos, VlqBytes(|payload|), payload);
    ReadsVlq(data, pos, |payload|);
  }

  /** The bytes of a meta event: its payload comes back whole. */
  lemma ReadsMeta(data: seq<Byte>, pos: nat, end: nat, t: Byte, payload: seq<Byte>)
    requires |payload| < VLQ_LIMIT && At(data, pos, PayloadBytes(t, payload))
    requires pos + |PayloadBytes(t, payload)| <= end <= |data|
    ensures data[pos] == META
    ensures var m := DecodeMeta(t, payload);
            (ParseMeta(data, pos + 1, end)
             == if m.Ok? then Got((m.value, None), pos + |PayloadBytes(t, payload)|) else Bad(m.error))
  {
    hide VlqBytes, DecodeMeta, ReadPayload;
    var size := VlqBytes(|payload|);
    Assoc([META, t], size, payload);
    AtSplit(data, pos, [META, t], size + payload);
    assert data[pos] == data[pos..pos + 2][0] && data[pos + 1] == data[pos..pos + 2][1];
    ReadsPayload(data, pos + 2, end, payload, MetaPastEnd);
  }

  /** Short metas are spelt out by the writer, but they are payloads like any other. */
  lemma ShortMeta(t: Byte, payload: seq<Byte>)
    requires |payload| < 128
    ensures PayloadBytes(t, payload) == [META, t, |payload|] + payload
  {
    VlqShape(|payload|);
  }

  function MetaType(e: Event): Byte
    requires !e.Midi?
  {
    match e
    case Tempo(_) => META_TEMPO
    case TimeSignature(_, _, _, _) => META_TIME
    case KeySignature(_, _) => META_KEY
    case TrackName(_) => META_NAME
    case EndOfTrack => META_END
    case UnknownMeta(t, _) => t
  }

  function MetaPayload(e: Event): seq<Byte>
    requires !e.Midi?
  {
    match e
    case Tempo(us) => Be32(us)[1..]
    case TimeSignature(n, d, c, t) => [n, d, c, t]
    case KeySignature(sf, minor) => [ToByte(sf), if minor then 1 else 0]
    case TrackName(name) => name
    case EndOfTrack => []
    case UnknownMeta(_, data) => data
  }

  lemma MetaBytes(e: Event)
    requires !e.Midi?
    ensures EventBytes(e) == PayloadBytes(MetaType(e), MetaPayload(e))
    ensures EventFits(e) ==> Length32(|MetaPayload(e)|) < VLQ_LIMIT
  {
    hide PayloadBytes, Be32;
    if !e.TrackName? && !e.UnknownMeta? {
      ShortMeta(MetaType(e), MetaPayload(e));
    }
  }

  /** A meta payload decodes back to its event exactly when the format can carry the event. */
  lemma MetaDecodes(e: Event)
    requires !e.Midi? && |MetaPayload(e)| < VLQ_LIMIT
    ensures DecodeMeta(MetaType(e), MetaPayload(e)) == Ok(e) <==> EventOk(e)
  {
    hide Utf8.Valid, Be32, FromBe32, INVALID_NAME;
    match e
    case Tempo(us) => TempoDecodes(us);
    case TrackName(name) => InvalidNameIsText();
    case _ =>
  }

  lemma InvalidNameIsText()
    ensures Utf8.Valid(INVALID_NAME)
  {
    hide Utf8.Chars;
    Utf8.AsciiChars(INVALID_NAME);
  }

  lemma TempoDecodes(us: U32)
    ensures FromBe32([0] + Be32(us)[1..][..3]) == us <==> us < 0x100_0000
  {
    Be32RoundTrip(us);
  }

  lemma ReadsMidi(data: seq<Byte>, pos: nat, end: nat, running: Option<Byte>, msg: MidiMessage)
    requires EventOk(Midi(msg)) && At(data, pos, MidiBytes(msg)) && pos + |MidiBytes(msg)| <= end <= |data|
    ensures ParseEvent(data, pos, end, running)
         == Got((Plain(Midi(msg)), StatusOf(Midi(msg))), pos + |MidiBytes(msg)|)
  {
    var s := [msg.status] + msg.data;
    assert data[pos] == data[pos..pos + |s|][0] && data[pos + 1] == data[pos..pos + |s|][1];
    if |msg.data| == 2 {
      assert data[pos + 2] == data[pos..pos + |s|][2];
      assert msg.data == [msg.data[0], msg.data[1]];
    } else {
      assert msg.data == [msg.data[0]];
    }
  }

  /** In any context, under any running status, an event the format can carry is read back from its bytes. */
  lemma ReadsEvent(data: seq<Byte>, pos: nat, end: nat, running: Option<Byte>, e: Event)
    requires EventOk(e) && At(data, pos, EventBytes(e)) && pos + |EventBytes(e)| <= end <= |data|
    ensures ParseEvent(data, pos, end, running) == Got((Plain(e), StatusOf(e)), pos + |EventBytes(e)|)
  {
    hide PayloadBytes, DecodeMeta, ParseMeta;
    if e.Midi? {
      ReadsMidi(data, pos, end, running, e.msg);
    } else {
      MetaBytes(e);
      MetaDecodes(e);
      ReadsMeta(data, pos, end, MetaType(e), MetaPayload(e));
    }
  }

  // ---- and no others ----

  /** The messages the parser expects a length in front of, and the writer gives none. */
  predicate IsSysEx(e: Event) {
    e.Midi? && (e.msg.status == 0xF0 || e.msg.status == 0xF7)
  }

  /**
   * The exact reach of the event codec, in any data, at any offset, in any track and under any running status:
   * from the bytes written for an event the parser gives the event back and stops where they end if and only
   * if the format can carry the event.
   */
  lemma EventSurvivesExactly(data: seq<Byte>, pos: nat, end: nat, running: Option<Byte>, e: Event)
    requires EventFits(e) && At(data, pos, EventBytes(e)) && pos + |EventBytes(e)| <= end <= |data|
    ensures ParseEvent(data, pos, end, running) == Got((Plain(e), StatusOf(e)), pos + |EventBytes(e)|) <==> EventOk(e)
  {
    hide PayloadBytes, EventFits, EventOk, ParseEvent, Plain, StatusOf;
    if EventOk(e) {
      ReadsEvent(data, pos, end, running, e);
    } else if IsSysEx(e) {
      SysExOutOfStep(data, pos, end, running, e.msg);
    } else if ParseEvent(data, pos, end, running) == Got((Plain(e), StatusOf(e)), pos + |EventBytes(e)|) {
      ReadBackIsOk(data, pos, end, running, e);
    }
  }

  /** SysEx apart, an event that comes back at all, wherever the parser then stops, is one the format can carry. */
  lemma ReadBackIsOk(data: seq<Byte>, pos: nat, end: nat, running: Option<Byte>, e: Event)
    requires EventFits(e) && !IsSysEx(e) && At(data, pos, EventBytes(e)) && pos + |EventBytes(e)| <= end <= |data|
    requires ParseEvent(data, pos, end, running).Got? && ParseEvent(data, pos, end, running).value.0 == Plain(e)
    ensures EventOk(e)
  {
    hide PayloadBytes, DecodeMeta, ParseMeta, ParseChannel;
    if e.Midi? {
      assert data[pos] == data[pos..pos + |EventBytes(e)|][0];
      MidiReadBackIsOk(data, pos, end, running, e.msg);
    } else {
      MetaBytes(e);
      if |MetaPayload(e)| < VLQ_LIMIT {
        MetaDecodes(e);
        ReadsMeta(data, pos, end, MetaType(e), MetaPayload(e));
      } else {
        PayloadAt(data, pos, MetaType(e), MetaPayload(e));
        MetasAreShort(data, pos + 1, end);
      }
    }
  }

  lemma MidiReadBackIsOk(data: seq<Byte>, pos: nat, end: nat, running: Option<Byte>, msg: MidiMessage)
    requires pos < end <= |data| && data[pos] == msg.status && msg.status != 0xF0 && msg.status != 0xF7
    requires ParseEvent(data, pos, end, running).Got?
    requires ParseEvent(data, pos, end, running).value.0 == Plain(Midi(msg))
    ensures EventOk(Midi(msg))
  {
    hide ReadPayload, DecodeMeta, ParseChannel;
    if msg.status == META {
      MetasAreShort(data, pos + 1, end);
    } else {
      ChannelShape(data, if msg.status >= 0x80 then pos + 1 else pos, end,
                   if msg.status >= 0x80 then msg.status else running.value);
    }
  }

  lemma ChannelShape(data: seq<Byte>, pos: nat, end: nat, status: Byte)
    requires end <= |data|
    ensures var r := ParseChannel(data, pos, end, status);
            r.Got? ==>
            var e := r.value.0;
            && e.Midi? && e.msg.status == status >= 0x80
            && ((TwoDataBytes(status) && |e.msg.data| == 2) || (OneDataByte(status) && |e.msg.data| == 1))
  {
  }

  lemma PayloadAt(data: seq<Byte>, pos: nat, t: Byte, payload: seq<Byte>)
    requires At(data, pos, PayloadBytes(t, payload))
    ensures data[pos] == META
  {
    assert data[pos] == data[pos..pos + |PayloadBytes(t, payload)|][0];
  }

  /** What a quantity can count is all a meta event can hold. */
  lemma MetasAreShort(data: seq<Byte>, pos: nat, end: nat)
    requires end <= |data| && ParseMeta(data, pos, end).Got?
    ensures var e := ParseMeta(data, pos, end).value.0; !e.Midi? && |MetaPayload(e)| < VLQ_LIMIT
  {
    hide ReadVlq, Be32, FromBe32, Utf8.Valid;
    DeltaFits(data, pos + 1);
  }

  /**
   * A SysEx message is written without a length, so the parser reads one out of its payload: even where the
   * message comes back as it was, the parser has not stopped at its end.
   */
  lemma SysExOutOfStep(data: seq<Byte>, pos: nat, end: nat, running: Option<Byte>, msg: MidiMessage)
    requires IsSysEx(Midi(msg))
    requires At(data, pos, MidiBytes(msg)) && pos + |MidiBytes(msg)| <= end <= |data|
    ensures var r := ParseEvent(data, pos, end, running);
            r.Got? && r.value.0 == Plain(Midi(msg)) ==> r.next != pos + |MidiBytes(msg)|
  {
    hide ReadVlq;
    var s := MidiBytes(msg);
    assert data[pos] == data[pos..pos + |s|][0];
    var r := ReadPayload(data, pos + 1, end, SysExPastEnd);
    if r.Got? && r.value == msg.data && r.next == pos + |s| {
      PayloadPlace(data, pos + 1, end, SysExPastEnd);
      assert msg.status == 0xF0 && ReadVlq(data, pos + 1).next == pos + 2;
      OneByteSize(data, pos + 1);
      ShiftedByOne(data, pos, msg.data);
    }
  }

  lemma PayloadPlace(data: seq<Byte>, pos: nat, end: nat, pastEnd: SmfError)
    requires end <= |data| && ReadPayload(data, pos, end, pastEnd).Got?
    ensures var r, size := ReadPayload(data, pos, end, pastEnd), ReadVlq(data, pos);
            && size.Got? && r.next == size.next + |r.value| <= |data|
            && r.value == data[size.next..r.next]
  {
    hide ReadVlq;
  }

  /** A framed payload that is read back one byte late would be one byte repeated, and that byte the closing one. */
  lemma ShiftedByOne(data: seq<Byte>, pos: nat, payload: seq<Byte>)
    requires At(data, pos, [0xF0] + payload + [0xF7]) && data[pos + 1] < 128
    ensures data[pos + 2..pos + 2 + |payload|] != payload
  {
    var n := |payload|;
    AtSplit(data, pos, [0xF0] + payload, [0xF7]);
    AtSplit(data, pos, [0xF0], payload);
    assert data[pos + 1 + n] == data[pos + 1 + n..pos + 2 + n][0] == 0xF7;
    if data[pos + 2..pos + 2 + n] == payload && n > 0 {
      forall i | 0 <= i < n - 1
        ensures payload[i + 1] == payload[i]
      {
        assert data[pos + 1..pos + 1 + n][i + 1] == data[pos + 2 + i];
        assert data[pos + 2..pos + 2 + n][i] == data[pos + 2 + i];
      }
      assert payload[0] == data[pos + 1..pos + 1 + n][0] == data[pos + 1];
      assert payload[n - 1] == data[pos + 2..pos + 2 + n][n - 1] == data[pos + 1 + n];
      AllSame(payload, n - 1);
    }
  }

  lemma OneByteSize(data: seq<Byte>, pos: nat)
    requires ReadVlq(data, pos).Got? && ReadVlq(data, pos).next == pos + 1
    ensures data[pos] < 128
  {
  }

  lemma {:induction false} AllSame(s: seq<Byte>, k: nat)
    requires k < |s| && forall i :: 0 <= i < |s| - 1 ==> s[i + 1] == s[i]
    ensures s[k] == s[0]
  {
    if k > 0 {
      AllSame(s, k - 1);
      assert s[k - 1 + 1] == s[k - 1];
    }
  }
}
