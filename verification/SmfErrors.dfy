/** What the file parser refuses and what it says: each kind of error, for every input of its kind. */
module SmfErrors {
  import opened Bytes
  import opened Wrappers
  import opened SmfFile
  import opened SmfDecode
  import opened SmfRoundTrip
  import opened SmfGrammar
  import Utf8

  lemma BadHeaders(data: seq<Byte>, format: nat)
    ensures |data| < 14 ==> Parse(data) == Err(Truncated)
    ensures |data| >= 14 && !At(data, 0, Text("MThd")) ==> Parse(data) == Err(BadHeaderMagic)
    ensures |data| >= 14 && At(data, 0, Text("MThd")) && !LongAt(data, 4, 6) ==> Parse(data) == Err(BadHeaderLength)
    ensures |data| >= 14 && At(data, 0, Text("MThd")) && LongAt(data, 4, 6)
            && ShortAt(data, 8, format) && format > 2 ==>
              Parse(data) == Err(UnknownFormat)
  {
    assert Text("MThd") == MTHD;
    hide Text, MTHD;
    if |data| >= 14 {
      LongIs(data, 4);
      hide LongAt;
      if LongAt(data, 4, 6) {
        LongUnique(data, 4, 6, FromBe32(data[4..8]));
      }
      hide FromBe32;
      assert data[..4] == data[0..4] && data[8..10] == [data[8], data[9]];
    }
  }

  lemma BadChunks(data: seq<Byte>, pos: nat, n: nat)
    ensures pos + 8 > |data| ==> ParseTrack(data, pos) == Bad(Truncated)
    ensures pos + 8 <= |data| && !At(data, pos, Text("MTrk")) ==> ParseTrack(data, pos) == Bad(BadTrackMagic)
    ensures pos + 8 <= |data| && At(data, pos, Text("MTrk")) && LongAt(data, pos + 4, n) && pos + 8 + n > |data| ==>
              ParseTrack(data, pos) == Bad(ChunkPastEnd)
  {
    hide ParseEvents, LastName;
    assert Text("MTrk") == MTRK;
    hide Text, MTRK;
    if pos + 8 <= |data| {
      LongIs(data, pos + 4);
      hide LongAt;
      if LongAt(data, pos + 4, n) {
        LongUnique(data, pos + 4, n, FromBe32(data[pos + 4..pos + 8]));
      }
      hide FromBe32;
    }
  }

  /** More than four groups, or the end of the file before the last one. */
  lemma BadQuantities(data: seq<Byte>, pos: nat)
    ensures pos + 4 <= |data| && (forall i :: pos <= i < pos + 4 ==> data[i] >= 0x80) ==>
              ReadVlq(data, pos) == Bad(VlqTooLong)
    ensures pos <= |data| < pos + 4 && (forall i :: pos <= i < |data| ==> data[i] >= 0x80) ==>
              ReadVlq(data, pos) == Bad(VlqEof)
  {
    BadGroups(data, pos, 0, 4);
  }

  lemma {:induction false} BadGroups(data: seq<Byte>, pos: nat, val: nat, left: nat)
    ensures pos + left <= |data| && (forall i :: pos <= i < pos + left ==> data[i] >= 0x80) ==>
              VlqFrom(data, pos, val, left) == Bad(VlqTooLong)
    ensures pos <= |data| < pos + left && (forall i :: pos <= i < |data| ==> data[i] >= 0x80) ==>
              VlqFrom(data, pos, val, left) == Bad(VlqEof)
    decreases left
  {
    if left > 0 && pos < |data| && data[pos] >= 0x80 {
      BadGroups(data, pos + 1, val * 128 + (data[pos] - 128), left - 1);
    }
  }

  /** A delta time with nothing left of its track behind it. */
  lemma DeltaAlone(data: seq<Byte>, pos: nat, end: nat, running: Option<Byte>, delta: nat, start: nat)
    requires end <= |data| && VlqAt(data, pos, delta, start) && start >= end
    ensures ParseTimed(data, pos, end, running) == Bad(EventTruncated)
  {
    VlqIs(data, pos, delta, start);
  }

  /** Data without a status, a status that is none, and data that the track does not hold. */
  lemma BadMessages(data: seq<Byte>, pos: nat, end: nat, running: Option<Byte>)
    requires pos < end <= |data|
    ensures data[pos] < 0x80 && running.None? ==> ParseEvent(data, pos, end, running) == Bad(NoRunningStatus)
    ensures 0xF1 <= data[pos] < 0xFF && data[pos] != 0xF7 && pos + 1 < end ==>
              ParseEvent(data, pos, end, running) == Bad(BadMessageType)
    ensures 0x80 <= data[pos] < 0xF0 && pos + 1 + DataBytes(data[pos]) > end ==>
              ParseEvent(data, pos, end, running) == Bad(DataTruncated)
    ensures data[pos] < 0x80 && running.Some? && 0x80 <= running.value < 0xF0
            && pos + DataBytes(running.value) > end ==>
              ParseEvent(data, pos, end, running) == Bad(DataTruncated)
  {
  }

  /** SysEx events longer than their track. */
  lemma BadSysEx(data: seq<Byte>, pos: nat, end: nat, running: Option<Byte>, n: nat, start: nat)
    requires pos < end <= |data| && (data[pos] == 0xF0 || data[pos] == 0xF7)
    requires VlqAt(data, pos + 1, n, start) && start + n > end
    ensures ParseEvent(data, pos, end, running) == Bad(SysExPastEnd)
  {
    VlqIs(data, pos + 1, n, start);
    hide ReadVlq, VlqAt;
  }

  /** Meta events without a type, longer than their track, or too short for their type. */
  lemma BadMetas(data: seq<Byte>, pos: nat, end: nat, running: Option<Byte>, n: nat, start: nat)
    requires pos < end <= |data| && data[pos] == 0xFF
    ensures pos + 1 == |data| ==> ParseEvent(data, pos, end, running) == Bad(Truncated)
    ensures VlqAt(data, pos + 2, n, start) && start + n > end ==>
              ParseEvent(data, pos, end, running) == Bad(MetaPastEnd)
    ensures VlqAt(data, pos + 2, n, start) && start + n <= end
            && ((data[pos + 1] == 0x51 && n < 3) || (data[pos + 1] == 0x58 && n < 4)
                || (data[pos + 1] == 0x59 && n < 2)) ==>
              ParseEvent(data, pos, end, running) == Bad(MetaTooShort)
  {
    hide ReadVlq, VlqAt, FromBe32, Utf8.Valid;
    VlqIs(data, pos + 2, n, start);
    if VlqAt(data, pos + 2, n, start) {
      assert ReadPayload(data, pos + 2, end, MetaPastEnd)
          == if start + n > end then Bad(MetaPastEnd) else Got(data[start..start + n], start + n);
      hide ReadPayload;
    }
  }

  /** An error after an event that is there is the error of the whole track. */
  lemma ErrorAfter(data: seq<Byte>, pos: nat, end: nat, running: Option<Byte>, te: TrackEvent, next: nat, e: SmfError)
    requires pos < end <= |data| && TimedAt(data, pos, end, running, te, next) && !te.event.EndOfTrack?
    requires ParseEvents(data, next, end, RunningAfter(running, te.event)) == Err(e)
    ensures ParseEvents(data, pos, end, running) == Err(e)
  {
    hide ParseTimed, TimedAt, StatusOf, RunningAfter;
    TimedIs(data, pos, end, running, te, next);
    RunningIs(running, te.event);
  }

  lemma ErrorAtOnce(data: seq<Byte>, pos: nat, end: nat, running: Option<Byte>, e: SmfError)
    requires pos < end <= |data| && ParseTimed(data, pos, end, running) == Bad(e)
    ensures ParseEvents(data, pos, end, running) == Err(e)
  {
  }
}
