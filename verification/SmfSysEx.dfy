/**
 * A track with SysEx messages that the parser reads back exactly although it is out of step: why the exact
 * results about written tracks either leave SysEx out or look at places too.
 */
module SmfSysEx {
  import opened Bytes
  import opened Wrappers
  import opened Numbers
  import opened SmfFile
  import opened SmfDecode
  import opened SmfRoundTrip
  import opened SmfFidelity

  // ---- payloads that repeat ----

  /** The first `n` bytes of a pattern repeated for ever. */
  function Repeat(p: seq<Byte>, n: nat): (r: seq<Byte>)
    requires p != []
    ensures |r| == n
  {
    seq(n, i requires 0 <= i < n => p[i % |p|])
  }

  /** What a repeated pattern is followed by, if it is to go on. */
  lemma GoesOn(p: seq<Byte>, n: nat, more: seq<Byte>)
    requires p != [] && |more| == |p| && forall i :: 0 <= i < |p| ==> more[i] == p[(n + i) % |p|]
    ensures Repeat(p, n) + more == Repeat(p, n + |p|)
  {
    forall i | n <= i < n + |p|
      ensures (Repeat(p, n) + more)[i] == Repeat(p, n + |p|)[i]
    {
      assert more[i - n] == p[(n + (i - n)) % |p|];
    }
  }

  /** Starting one pattern later gives the same bytes. */
  lemma Slides(p: seq<Byte>, n: nat)
    requires p != []
    ensures Repeat(p, n + |p|)[|p|..] == Repeat(p, n)
  {
    forall i | 0 <= i < n
      ensures Repeat(p, n + |p|)[i + |p|] == Repeat(p, n)[i]
    {
      MultipleOf(1, |p|);
      AddMultiple(i, |p|, |p|);
    }
  }

  lemma ByteAt(data: seq<Byte>, pos: nat, part: seq<Byte>, i: nat)
    requires At(data, pos, part) && i < |part|
    ensures data[pos + i] == part[i]
  {
    assert data[pos..pos + |part|][i] == data[pos + i];
  }

  function Continuation(payload: seq<Byte>): Event {
    Midi(MidiMessage(0xF7, payload, 0))
  }

  /** A payload read one pattern late, past its own end, is the payload. */
  lemma ReadsLate(data: seq<Byte>, pos: nat, end: nat, running: Option<Byte>, delta: U32, start: nat,
                  p: seq<Byte>, n: nat, at: nat)
    requires p != [] && start < end <= |data| && at + |p| + n <= end
    requires ReadVlq(data, pos) == Got(delta, start) && data[start] == 0xF7
    requires ReadVlq(data, start + 1) == Got(n, at + |p|) && At(data, at, Repeat(p, n + |p|))
    ensures ParseTimed(data, pos, end, running)
         == Got((TrackEvent(delta, Continuation(Repeat(p, n))), None), at + |p| + n)
  {
    hide ReadVlq, Repeat;
    Slides(p, n);
    var whole := Repeat(p, n + |p|);
    assert data[at + |p|..at + |p| + n] == data[at..at + |whole|][|p|..];
  }

  // ---- the track ----

  const A: seq<Byte> := [0xF7, 0x04]
  const B: seq<Byte> := [0x04, 0xF7, 0xFF, 0x58]
  const C: seq<Byte> := [0xFF, 0x58, 0x04, 0xF7, 0x81, 0x80, 0x02]
  const AN: nat := 15236
  const BN: nat := 16344
  const CN: nat := 16386
  const AFTER: seq<Byte> := [0xFF, 0x58, 0x80, 0x09, 0xF7, 0x81, 0x80, 0x02, 0xFF, 0x2F, 0x00]

  const FIRST: TrackEvent := TrackEvent(0, Continuation(Repeat(A, AN)))
  const SECOND: TrackEvent := TrackEvent(AN, Continuation(Repeat(B, BN)))
  const THIRD: TrackEvent := TrackEvent(4, Continuation(Repeat(C, CN)))
  const METER: TrackEvent := TrackEvent(2, TimeSignature(0xF7, 0x81, 0x80, 0x02))
  const NOTE: TrackEvent := TrackEvent(BN, Midi(MidiMessage(0x80, [0x09, 0xF7], 0)))
  const CLOSE: TrackEvent := TrackEvent(CN, EndOfTrack)
  const BEYOND: TrackEvent := TrackEvent(0, Continuation(AFTER))

  // The track, from its end.
  const FROM_CLOSE: seq<TrackEvent> := [CLOSE] + [BEYOND]
  const FROM_METER: seq<TrackEvent> := [METER] + ([NOTE] + FROM_CLOSE)
  const TRACK: seq<TrackEvent> := [FIRST] + ([SECOND] + ([THIRD] + FROM_METER))

  // What follows the third payload.
  const REST: seq<Byte> :=
    [0x02, 0xFF, 0x58, 0x04, 0xF7, 0x81, 0x80, 0x02,
     0xFF, 0x58, 0x80, 0x09, 0xF7,
     0x81, 0x80, 0x02, 0xFF, 0x2F, 0x00,
     0x00, 0xF7, 0xFF, 0x58, 0x80, 0x09, 0xF7, 0x81, 0x80, 0x02, 0xFF, 0x2F, 0x00]

  /** The bytes from each payload on. */
  function FromThird(): seq<Byte> {
    Repeat(C, CN) + REST
  }

  function FromSecond(): seq<Byte> {
    Repeat(B, BN) + ([0x04, 0xF7] + FromThird())
  }

  function FromFirst(): seq<Byte> {
    Repeat(A, AN) + ([0xF7, 0x04, 0xF7] + FromSecond())
  }

  lemma Written()
    ensures TrackBytes(TRACK) == [0x00, 0xF7] + FromFirst()
  {
    hide Repeat, TimedBytes, EventsBytes, HasEnd;
    LongEvents();
    WrittenFromMeter();
    Prepends(THIRD, FROM_METER);
    Prepends(SECOND, [THIRD] + FROM_METER);
    Prepends(FIRST, [SECOND] + ([THIRD] + FROM_METER));
    var third, second, first := Repeat(C, CN), Repeat(B, BN), Repeat(A, AN);
    Assoc([0x04, 0xF7], third, REST);
    Assoc([0xF7, 0x04, 0xF7], second, [0x04, 0xF7] + FromThird());
    Assoc([0x00, 0xF7], first, [0xF7, 0x04, 0xF7] + FromSecond());
    assert TrackBytes(TRACK) == EventsBytes(TRACK) + [] == EventsBytes(TRACK);
  }

  lemma Prepends(te: TrackEvent, rest: seq<TrackEvent>)
    ensures EventsBytes([te] + rest) == TimedBytes(te) + EventsBytes(rest)
    ensures HasEnd([te] + rest) <==> te.event.EndOfTrack? || HasEnd(rest)
  {
    assert ([te] + rest)[1..] == rest;
  }

  lemma WrittenFromMeter()
    ensures EventsBytes(FROM_METER) == REST && HasEnd(FROM_METER)
  {
    ShortEvents();
    hide TimedBytes;
    assert [BEYOND] + [] == [BEYOND] && EventsBytes([]) == [];
    hide EventsBytes, HasEnd;
    Prepends(BEYOND, []);
    Prepends(CLOSE, [BEYOND]);
    Prepends(NOTE, FROM_CLOSE);
    Prepends(METER, [NOTE] + FROM_CLOSE);
  }

  lemma ShortEvents()
    ensures TimedBytes(METER) == [0x02, 0xFF, 0x58, 0x04, 0xF7, 0x81, 0x80, 0x02]
    ensures TimedBytes(NOTE) == [0xFF, 0x58, 0x80, 0x09, 0xF7]
    ensures TimedBytes(CLOSE) == [0x81, 0x80, 0x02, 0xFF, 0x2F, 0x00]
    ensures TimedBytes(BEYOND) == [0x00, 0xF7, 0xFF, 0x58, 0x80, 0x09, 0xF7, 0x81, 0x80, 0x02, 0xFF, 0x2F, 0x00]
  {
    Quantities();
    hide VlqBytes;
  }

  lemma LongEvents()
    ensures TimedBytes(FIRST) == [0x00, 0xF7] + Repeat(A, AN)
    ensures TimedBytes(SECOND) == [0xF7, 0x04, 0xF7] + Repeat(B, BN)
    ensures TimedBytes(THIRD) == [0x04, 0xF7] + Repeat(C, CN)
  {
    Quantities();
    hide VlqBytes, Repeat;
    Assoc([0x00], [0xF7], Repeat(A, AN));
    Assoc(A, [0xF7], Repeat(B, BN));
    Assoc([0x04], [0xF7], Repeat(C, CN));
  }

  lemma Quantities()
    ensures VlqBytes(0) == [0x00] && VlqBytes(2) == [0x02] && VlqBytes(4) == [0x04]
    ensures VlqBytes(AN) == A && VlqBytes(BN) == [0xFF, 0x58] && VlqBytes(CN) == [0x81, 0x80, 0x02]
  {
    VlqShape(0);
    VlqShape(2);
    VlqShape(4);
    VlqShape(AN);
    VlqShape(BN);
    VlqShape(CN);
  }

  // ---- what the parser makes of it ----

  /** Each payload stands with its own continuation behind it, taken from what follows. */
  lemma Stands(data: seq<Byte>)
    requires data == [0x00, 0xF7] + FromFirst()
    ensures |data| == 48005 && At(data, 0, [0x00, 0xF7]) && At(data, 2, Repeat(A, AN + 2))
    ensures At(data, 15238, [0xF7, 0x04, 0xF7]) && At(data, 15241, Repeat(B, BN + 4))
    ensures At(data, 31587, Repeat(C, CN + 7)) && At(data, 47973, REST)
  {
    hide Repeat;
    var first, second, third := Repeat(A, AN), Repeat(B, BN), Repeat(C, CN);
    assert At(data, 0, [0x00, 0xF7] + (first + ([0xF7, 0x04, 0xF7] + FromSecond())));
    AtSplit(data, 0, [0x00, 0xF7], FromFirst());
    Behind(data, 2, A, AN, [0xF7, 0x04], [0xF7] + FromSecond()) by {
      GoesOnA();
      assert [0xF7, 0x04] + ([0xF7] + FromSecond()) == [0xF7, 0x04, 0xF7] + FromSecond();
    }
    AtSplit(data, 2, first, [0xF7, 0x04, 0xF7] + FromSecond());
    AtSplit(data, 15238, [0xF7, 0x04, 0xF7], FromSecond());
    Behind(data, 15241, B, BN, [0x04, 0xF7, 0xFF, 0x58], FromThird()[2..]) by {
      GoesOnB();
      ThirdStarts();
      assert [0x04, 0xF7, 0xFF, 0x58] + FromThird()[2..] == [0x04, 0xF7] + FromThird();
    }
    AtSplit(data, 15241, second, [0x04, 0xF7] + FromThird());
    AtSplit(data, 31585, [0x04, 0xF7], FromThird());
    Behind(data, 31587, C, CN, REST[..7], REST[7..]) by {
      GoesOnC();
      assert REST[..7] + REST[7..] == REST;
    }
    AtSplit(data, 31587, third, REST);
  }

  lemma ThirdStarts()
    ensures FromThird()[..2] == [0xFF, 0x58]
  {
  }

  lemma GoesOnA()
    ensures Repeat(A, AN) + [0xF7, 0x04] == Repeat(A, AN + 2)
  {
    hide Repeat;
    GoesOn(A, AN, [0xF7, 0x04]);
  }

  lemma GoesOnB()
    ensures Repeat(B, BN) + [0x04, 0xF7, 0xFF, 0x58] == Repeat(B, BN + 4)
  {
    hide Repeat;
    GoesOn(B, BN, [0x04, 0xF7, 0xFF, 0x58]);
  }

  lemma GoesOnC()
    ensures Repeat(C, CN) + REST[..7] == Repeat(C, CN + 7)
  {
    hide Repeat;
    GoesOn(C, CN, REST[..7]);
  }

  lemma Behind(data: seq<Byte>, pos: nat, p: seq<Byte>, n: nat, more: seq<Byte>, rest: seq<Byte>)
    requires p != [] && At(data, pos, Repeat(p, n) + (more + rest))
    requires Repeat(p, n) + more == Repeat(p, n + |p|)
    ensures At(data, pos, Repeat(p, n + |p|))
  {
    hide Repeat;
    Assoc(Repeat(p, n), more, rest);
    AtSplit(data, pos, Repeat(p, n) + more, rest);
  }

  lemma RepeatStarts(data: seq<Byte>, pos: nat, p: seq<Byte>, n: nat, i: nat)
    requires p != [] && i < |p| <= n && At(data, pos, Repeat(p, n))
    ensures data[pos + i] == p[i]
  {
    ByteAt(data, pos, Repeat(p, n), i);
    RemainderIs(i, 0, |p|, i);
  }

  lemma ReadsFirst(data: seq<Byte>)
    requires data == [0x00, 0xF7] + FromFirst()
    ensures |data| == 48005 && ParseTimed(data, 0, 48005, None) == Got((FIRST, None), 15240)
  {
    Stands(data);
    hide Repeat, FromFirst;
    ByteAt(data, 0, [0x00, 0xF7], 0);
    ByteAt(data, 0, [0x00, 0xF7], 1);
    RepeatStarts(data, 2, A, AN + 2, 0);
    RepeatStarts(data, 2, A, AN + 2, 1);
    OneGroup(data, 0);
    TwoGroups(data, 2);
    ReadsLate(data, 0, 48005, None, 0, 1, A, AN, 2);
  }

  lemma ReadsSecond(data: seq<Byte>)
    requires data == [0x00, 0xF7] + FromFirst()
    ensures |data| == 48005 && ParseTimed(data, 15240, 48005, None) == Got((SECOND, None), 31589)
  {
    Stands(data);
    hide Repeat, FromFirst;
    ByteAt(data, 15238, [0xF7, 0x04, 0xF7], 2);
    RepeatStarts(data, 15241, B, BN + 4, 0);
    RepeatStarts(data, 15241, B, BN + 4, 1);
    RepeatStarts(data, 15241, B, BN + 4, 2);
    RepeatStarts(data, 15241, B, BN + 4, 3);
    TwoGroups(data, 15240);
    TwoGroups(data, 15243);
    ReadsLate(data, 15240, 48005, None, AN, 15242, B, BN, 15241);
  }

  lemma ReadsThird(data: seq<Byte>)
    requires data == [0x00, 0xF7] + FromFirst()
    ensures |data| == 48005 && ParseTimed(data, 31589, 48005, None) == Got((THIRD, None), 47980)
  {
    Stands(data);
    hide Repeat, FromFirst;
    RepeatStarts(data, 31587, C, CN + 7, 2);
    RepeatStarts(data, 31587, C, CN + 7, 3);
    RepeatStarts(data, 31587, C, CN + 7, 4);
    RepeatStarts(data, 31587, C, CN + 7, 5);
    RepeatStarts(data, 31587, C, CN + 7, 6);
    OneGroup(data, 31589);
    ThreeGroups(data, 31591);
    ReadsLate(data, 31589, 48005, None, 4, 31590, C, CN, 31587);
  }

  /** After the third payload the parser reads the rest of the file seven bytes on. */
  lemma ReadsRest(data: seq<Byte>)
    requires |data| == 48005 && data[47973..] == REST
    ensures ParseTimed(data, 47980, 48005, None) == Got((METER, None), 47994)
    ensures ParseTimed(data, 47994, 48005, None) == Got((NOTE, Some(0x80)), 47999)
    ensures ParseTimed(data, 47999, 48005, Some(0x80)) == Got((CLOSE, None), 48005)
  {
    hide ReadVlq, ParseTimed;
    ReadsMeter(data);
    ReadsNote(data);
    ReadsClose(data);
  }

  lemma RestBytes(data: seq<Byte>)
    requires |data| == 48005 && data[47973..] == REST
    ensures forall i :: 47973 <= i < 48005 ==> data[i] == REST[i - 47973]
  {
    forall i | 47973 <= i < 48005
      ensures data[i] == REST[i - 47973]
    {
      assert data[47973..][i - 47973] == data[i];
    }
  }

  lemma ReadsMeter(data: seq<Byte>)
    requires |data| == 48005 && data[47973..] == REST
    ensures ParseTimed(data, 47980, 48005, None) == Got((METER, None), 47994)
  {
    RestBytes(data);
    OneGroup(data, 47980);
    TwoGroups(data, 47983);
    hide ReadVlq;
    assert data[47981] == META && data[47982] == META_TIME;
    var payload := data[47985..47994];
    assert data[47985] == REST[12] && data[47986] == REST[13] && data[47987] == REST[14] && data[47988] == REST[15];
    assert payload[0] == 0xF7 && payload[1] == 0x81 && payload[2] == 0x80 && payload[3] == 0x02;
    assert ReadPayload(data, 47983, 48005, MetaPastEnd) == Got(payload, 47994);
    assert DecodeMeta(META_TIME, payload) == Ok(METER.event);
    hide ReadPayload, DecodeMeta;
    assert ParseMeta(data, 47982, 48005) == Got((METER.event, None), 47994);
  }

  lemma ReadsNote(data: seq<Byte>)
    requires |data| == 48005 && data[47973..] == REST
    ensures ParseTimed(data, 47994, 48005, None) == Got((NOTE, Some(0x80)), 47999)
  {
    RestBytes(data);
    TwoGroups(data, 47994);
    hide ReadVlq;
  }

  lemma ReadsClose(data: seq<Byte>)
    requires |data| == 48005 && data[47973..] == REST
    ensures ParseTimed(data, 47999, 48005, Some(0x80)) == Got((CLOSE, None), 48005)
  {
    RestBytes(data);
    ThreeGroups(data, 47999);
    OneGroup(data, 48004);
    hide ReadVlq;
    assert data[48005..48005] == [];
  }

  /**
   * The exact results about values cannot do without their condition on SysEx: here is a track the writer
   * takes, with three SysEx messages before its end, that parses to exactly its cut, although from its second
   * event on the parser is out of step.
   */
  lemma SysExComesBackOutOfStep()
    ensures var b := TrackBytes(TRACK);
            && EventsFit(TRACK) && !NoSysEx(TRACK) && !EventsOk(TRACK)
            && ParseEvents(b, 0, |b|, None) == Ok(Cut(TRACK))
            && Places(b, 0, |b|, None) != WrittenPlaces(0, TRACK)
  {
    var b := TrackBytes(TRACK);
    Written();
    ReadsFirst(b);
    ReadsSecond(b);
    ReadsThird(b);
    Stands(b);
    ReadsRest(b);
    CutIs();
    NotCarried();
    InStepExactly(b, 0, |b|, None, TRACK);
    hide TrackBytes, ParseTimed, Repeat, Cut, EventsOk, Places, WrittenPlaces, NoSysEx, EventsFit;
    assert ParseEvents(b, 47999, |b|, Some(0x80)) == Ok([CLOSE]);
    assert ParseEvents(b, 47994, |b|, None) == Ok([NOTE] + [CLOSE]);
    assert ParseEvents(b, 47980, |b|, None) == Ok([METER] + ([NOTE] + [CLOSE]));
    assert ParseEvents(b, 31589, |b|, None) == Ok([THIRD] + ([METER] + ([NOTE] + [CLOSE])));
    assert ParseEvents(b, 15240, |b|, None) == Ok([SECOND] + ([THIRD] + ([METER] + ([NOTE] + [CLOSE]))));
  }

  lemma CutIs()
    ensures Cut(TRACK) == [FIRST] + ([SECOND] + ([THIRD] + ([METER] + ([NOTE] + [CLOSE]))))
  {
    CutPrepends(FIRST, [SECOND] + ([THIRD] + FROM_METER));
    CutPrepends(SECOND, [THIRD] + FROM_METER);
    CutPrepends(THIRD, FROM_METER);
    CutPrepends(METER, [NOTE] + FROM_CLOSE);
    CutPrepends(NOTE, FROM_CLOSE);
    assert Cut(FROM_CLOSE) == [CLOSE];
    hide Cut, Repeat;
  }

  lemma CutPrepends(te: TrackEvent, rest: seq<TrackEvent>)
    requires !te.event.EndOfTrack?
    ensures Cut([te] + rest) == [PlainTimed(te)] + Cut(rest)
  {
    assert ([te] + rest)[1..] == rest;
  }

  lemma NotCarried()
    ensures EventsFit(TRACK) && !NoSysEx(TRACK) && !EventsOk(TRACK)
  {
    hide Repeat;
    assert TRACK[0] == FIRST;
    assert TRACK == [FIRST, SECOND, THIRD, METER, NOTE, CLOSE, BEYOND];
  }
}
