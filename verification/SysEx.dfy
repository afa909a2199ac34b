/**
 * SysEx through the JACK rings: cut into fixed-size entries on the way out, put together again on the way in,
 * with realtime bytes slipping through in between.
 */
module SysEx {
  import opened Bytes
  import opened Wrappers

  const ENTRY_MAX: nat := 16
  const SYSEX: Byte := 0xF0
  const END_OF_SYSEX: Byte := 0xF7

  datatype SysExEvent = Complete(bytes: seq<Byte>) | Realtime(b: Byte)

  predicate IsRealtime(b: Byte) {
    b >= 0xF8
  }

  // ---- the reassembler, byte by byte ----

  datatype State = State(buffer: seq<Byte>, inSysEx: bool)

  const IDLE: State := State([], false)

  function FeedByte(st: State, b: Byte): (State, seq<SysExEvent>) {
    if !st.inSysEx then
      if b == SYSEX then (State([SYSEX], true), []) else (st, [])
    else if b == END_OF_SYSEX then
      (IDLE, [Complete(st.buffer + [END_OF_SYSEX])])
    else if IsRealtime(b) then
      (st, [Realtime(b)])
    else if b >= 0x80 then
      if b == SYSEX then (State([SYSEX], true), []) else (IDLE, [])
    else
      (State(st.buffer + [b], true), [])
  }

  function Feed(st: State, bytes: seq<Byte>): (State, seq<SysExEvent>)
    decreases |bytes|
  {
    if bytes == [] then (st, [])
    else
      var (mid, first) := FeedByte(st, bytes[0]);
      var (end, rest) := Feed(mid, bytes[1..]);
      (end, first + rest)
  }

  /** The buffer is empty when idle, and otherwise the opening byte followed by data bytes. */
  predicate Valid(st: State) {
    if st.inSysEx then
      st.buffer != [] && st.buffer[0] == SYSEX && forall i :: 1 <= i < |st.buffer| ==> st.buffer[i] < 0x80
    else
      st.buffer == []
  }

  /** A message as the reassembler hands it out: framed, with nothing but data bytes inside. */
  predicate IsMessage(m: seq<Byte>) {
    |m| >= 2 && m[0] == SYSEX && m[|m| - 1] == END_OF_SYSEX && forall i :: 1 <= i < |m| - 1 ==> m[i] < 0x80
  }

  predicate EventOk(e: SysExEvent) {
    match e
    case Complete(m) => IsMessage(m)
    case Realtime(b) => IsRealtime(b)
  }

  /** Over any bytes whatsoever the buffer keeps its shape and only well-formed events come out. */
  lemma {:induction false} FeedKeepsShape(st: State, bytes: seq<Byte>)
    requires Valid(st)
    ensures Valid(Feed(st, bytes).0)
    ensures forall i :: 0 <= i < |Feed(st, bytes).1| ==> EventOk(Feed(st, bytes).1[i])
    decreases |bytes|
  {
    if bytes != [] {
      FeedKeepsShape(FeedByte(st, bytes[0]).0, bytes[1..]);
    }
  }

  /** Where a stream of bytes is cut into calls makes no difference. */
  lemma {:induction false} FeedSplits(st: State, a: seq<Byte>, b: seq<Byte>)
    ensures var (mid, first) := Feed(st, a);
            var (end, rest) := Feed(mid, b);
            Feed(st, a + b) == (end, first + rest)
    decreases |a|
  {
    if a == [] {
      assert a + b == b && [] + Feed(st, b).1 == Feed(st, b).1;
    } else {
      assert (a + b)[1..] == a[1..] + b;
      var (one, e) := FeedByte(st, a[0]);
      var (mid, first) := Feed(one, a[1..]);
      FeedSplits(one, a[1..], b);
      Assoc(e, first, Feed(mid, b).1);
    }
  }

  class Reassembler {
    var buffer: seq<Byte>
    var inSysEx: bool

    function View(): State
      reads this
    {
      State(buffer, inSysEx)
    }

    constructor ()
      ensures View() == IDLE
    {
      buffer, inSysEx := [], false;
    }

    method FeedAll(bytes: seq<Byte>) returns (events: seq<SysExEvent>)
      modifies this
      ensures (View(), events) == Feed(old(View()), bytes)
    {
      events := [];
      ghost var spec := Feed(View(), bytes);
      assert [] + spec.1 == spec.1;
      for k := 0 to |bytes|
        invariant spec == (Feed(View(), bytes[k..]).0, events + Feed(View(), bytes[k..]).1)
      {
        var byte := bytes[k];
        ghost var before, done := View(), events;
        assert bytes[k..][1..] == bytes[k + 1..];
        if !inSysEx {
          if byte == SYSEX {
            buffer := [SYSEX];
            inSysEx := true;
          }
        } else if byte == END_OF_SYSEX {
          buffer := buffer + [END_OF_SYSEX];
          inSysEx := false;
          events := events + [Complete(buffer)];
          buffer := [];
        } else if byte >= 0xF8 {
          events := events + [Realtime(byte)];
        } else if byte >= 0x80 {
          buffer := [];
          inSysEx := false;
          if byte == SYSEX {
            buffer := [SYSEX];
            inSysEx := true;
          }
        } else {
          buffer := buffer + [byte];
        }
        FedOne(before, byte, bytes[k + 1..], done);
        assert (View(), events) == (FeedByte(before, byte).0, done + FeedByte(before, byte).1);
      }
      assert events + [] == events;
    }

    method Reset()
      modifies this
      ensures View() == IDLE
    {
      buffer := [];
      inSysEx := false;
    }
  }

  lemma FedOne(st: State, b: Byte, rest: seq<Byte>, done: seq<SysExEvent>)
    ensures var (mid, first) := FeedByte(st, b);
            done + (first + Feed(mid, rest).1) == (done + first) + Feed(mid, rest).1
    ensures done + [] == done
  {
    Assoc(done, FeedByte(st, b).1, Feed(FeedByte(st, b).0, rest).1);
  }

  // ---- entries ----

  /** One ring entry: a timestamp, a fixed block of bytes and how many of them count. */
  datatype Entry = Entry(time: U32, len: Byte, data: seq<Byte>)

  predicate EntryOk(e: Entry) {
    |e.data| == ENTRY_MAX && e.len <= ENTRY_MAX
  }

  predicate AllOk(entries: seq<Entry>) {
    forall i :: 0 <= i < |entries| ==> EntryOk(entries[i])
  }

  function Payload(e: Entry): seq<Byte>
    requires EntryOk(e)
  {
    e.data[..e.len]
  }

  function EntryOf(time: U32, chunk: seq<Byte>): (e: Entry)
    requires |chunk| <= ENTRY_MAX
    ensures EntryOk(e) && Payload(e) == chunk
  {
    Entry(time, |chunk|, chunk + Zeros(ENTRY_MAX - |chunk|))
  }

  function Cut(time: U32, bytes: seq<Byte>): (r: seq<Entry>)
    ensures AllOk(r)
    decreases |bytes|
  {
    if bytes == [] then []
    else if |bytes| <= ENTRY_MAX then [EntryOf(time, bytes)]
    else [EntryOf(time, bytes[..ENTRY_MAX])] + Cut(time, bytes[ENTRY_MAX..])
  }

  class Output {
    const capacity: nat
    var ring: seq<Entry>

    constructor (capacity: nat)
      ensures ring == [] && this.capacity == capacity
    {
      this.capacity := capacity;
      ring := [];
    }

    /** Succeeds exactly when every entry fits; a failed call leaves the entries pushed before the ring was full. */
    method SendRaw(time: U32, bytes: seq<Byte>) returns (ok: bool)
      requires |ring| <= capacity
      modifies this`ring
      ensures ok <==> |old(ring)| + |Cut(time, bytes)| <= capacity
      ensures ok ==> ring == old(ring) + Cut(time, bytes)
      ensures !ok ==> |ring| == capacity && old(ring) <= ring && ring <= old(ring) + Cut(time, bytes)
    {
      hide EntryOf, Cut;
      var rest := bytes;
      assert [] + Cut(time, bytes) == Cut(time, bytes);
      ghost var sent: seq<Entry> := [];
      while |rest| > 0
        invariant |ring| <= capacity
        invariant ring == old(ring) + sent && Cut(time, bytes) == sent + Cut(time, rest)
        decreases |rest|
      {
        var n := if |rest| < ENTRY_MAX then |rest| else ENTRY_MAX;
        var entry := EntryOf(time, rest[..n]);
        CutOne(time, rest, n);
        Assoc(sent, [entry], Cut(time, rest[n..]));
        if |ring| == capacity {
          Assoc(old(ring), sent, Cut(time, rest));
          return false;
        }
        Assoc(old(ring), sent, [entry]);
        ring := ring + [entry];
        sent := sent + [entry];
        rest := rest[n..];
      }
      CutNothing(time, rest);
      assert sent + [] == sent;
      ok := true;
    }
  }

  lemma CutNothing(time: U32, bytes: seq<Byte>)
    requires |bytes| == 0
    ensures Cut(time, bytes) == []
  {
  }

  lemma CutOne(time: U32, rest: seq<Byte>, n: nat)
    requires |rest| > 0 && n == if |rest| < ENTRY_MAX then |rest| else ENTRY_MAX
    ensures Cut(time, rest) == [EntryOf(time, rest[..n])] + Cut(time, rest[n..])
  {
    if |rest| <= ENTRY_MAX {
      assert rest[..n] == rest && rest[n..] == [];
      assert [EntryOf(time, rest)] + [] == [EntryOf(time, rest)];
    }
  }

  // ---- receiving ----

  datatype Received = Received(regular: seq<Entry>, events: seq<SysExEvent>)

  /** An entry goes to the reassembler when it opens a SysEx or one is open; otherwise to the caller. */
  predicate ForReassembler(st: State, e: Entry)
    requires EntryOk(e)
  {
    Payload(e) != [] && (Payload(e)[0] == SYSEX || st.inSysEx)
  }

  function Drain(st: State, ring: seq<Entry>): (State, Received)
    requires AllOk(ring)
    decreases |ring|
  {
    if ring == [] then (st, Received([], []))
    else if ForReassembler(st, ring[0]) then
      var (mid, events) := Feed(st, Payload(ring[0]));
      var (end, rest) := Drain(mid, ring[1..]);
      (end, Received(rest.regular, events + rest.events))
    else
      var (end, rest) := Drain(st, ring[1..]);
      (end, Received([ring[0]] + rest.regular, rest.events))
  }

  class Input {
    var ring: seq<Entry>
    const sysex: Reassembler

    constructor ()
      ensures ring == [] && sysex.View() == IDLE && fresh(sysex)
    {
      ring := [];
      sysex := new Reassembler();
    }

    /** Drains the ring: every pending entry goes one way or the other, in order. */
    method RecvWithSysEx() returns (regular: seq<Entry>, events: seq<SysExEvent>)
      requires AllOk(ring)
      modifies this`ring, sysex
      ensures ring == []
      ensures (sysex.View(), Received(regular, events)) == Drain(old(sysex.View()), old(ring))
    {
      regular, events := [], [];
      ghost var spec := Drain(sysex.View(), ring);
      assert [] + spec.1.regular == spec.1.regular && [] + spec.1.events == spec.1.events;
      while |ring| > 0
        invariant AllOk(ring)
        invariant spec.0 == Drain(sysex.View(), ring).0
        invariant spec.1.regular == regular + Drain(sysex.View(), ring).1.regular
        invariant spec.1.events == events + Drain(sysex.View(), ring).1.events
        decreases |ring|
      {
        var entry := ring[0];
        ring := ring[1..];
        var bytes := entry.data[..entry.len];
        if |bytes| > 0 && (bytes[0] == SYSEX || sysex.inSysEx) {
          var more := sysex.FeedAll(bytes);
          Assoc(events, more, Drain(sysex.View(), ring).1.events);
          events := events + more;
        } else {
          Assoc(regular, [entry], Drain(sysex.View(), ring).1.regular);
          regular := regular + [entry];
        }
      }
      assert regular + [] == regular && events + [] == events;
    }
  }

  // ---- end to end ----

  /** A realtime byte travelling in an entry of its own. */
  predicate IsTick(e: Entry)
    requires EntryOk(e)
  {
    |Payload(e)| == 1 && IsRealtime(Payload(e)[0])
  }

  predicate AllTicks(entries: seq<Entry>) {
    AllOk(entries) && forall i :: 0 <= i < |entries| ==> IsTick(entries[i])
  }

  function TickByte(e: Entry): Byte
    requires EntryOk(e) && IsTick(e)
  {
    Payload(e)[0]
  }

  function Ticks(ring: seq<Entry>): seq<Entry>
    requires AllOk(ring)
  {
    if ring == [] then [] else if IsTick(ring[0]) then [ring[0]] + Ticks(ring[1..]) else Ticks(ring[1..])
  }

  function Others(ring: seq<Entry>): (r: seq<Entry>)
    requires AllOk(ring)
    ensures AllOk(r)
  {
    if ring == [] then [] else if IsTick(ring[0]) then Others(ring[1..]) else [ring[0]] + Others(ring[1..])
  }

  /** The bytes of a run of entries, put end to end. */
  function Text(ring: seq<Entry>): seq<Byte>
    requires AllOk(ring)
  {
    if ring == [] then [] else Payload(ring[0]) + Text(ring[1..])
  }

  predicate NoneEmpty(ring: seq<Entry>)
    requires AllOk(ring)
  {
    forall i :: 0 <= i < |ring| ==> Payload(ring[i]) != []
  }

  /** The realtime events that ticks inside a message turn into. */
  function TickEvents(ticks: seq<Entry>): (r: seq<SysExEvent>)
    requires AllTicks(ticks)
    ensures |r| == |ticks| && forall i :: 0 <= i < |r| ==> r[i] == Realtime(TickByte(ticks[i]))
  {
    if ticks == [] then [] else [Realtime(TickByte(ticks[0]))] + TickEvents(ticks[1..])
  }

  lemma {:induction false} TicksAre(ring: seq<Entry>)
    requires AllOk(ring)
    ensures AllTicks(Ticks(ring))
    decreases |ring|
  {
    if ring != [] {
      TicksAre(ring[1..]);
    }
  }

  lemma {:induction false} CutSpells(time: U32, m: seq<Byte>)
    ensures Text(Cut(time, m)) == m && NoneEmpty(Cut(time, m))
    decreases |m|
  {
    if |m| > ENTRY_MAX {
      CutSpells(time, m[ENTRY_MAX..]);
      assert m[..ENTRY_MAX] + m[ENTRY_MAX..] == m;
      assert ([EntryOf(time, m[..ENTRY_MAX])] + Cut(time, m[ENTRY_MAX..]))[1..] == Cut(time, m[ENTRY_MAX..]);
    } else if m != [] {
      assert m + [] == m;
    }
  }

  lemma {:induction false} FeedsData(st: State, bytes: seq<Byte>)
    requires st.inSysEx && forall i :: 0 <= i < |bytes| ==> bytes[i] < 0x80
    ensures Feed(st, bytes) == (State(st.buffer + bytes, true), [])
    decreases |bytes|
  {
    if bytes == [] {
      assert st.buffer + bytes == st.buffer;
    } else {
      FeedsData(State(st.buffer + [bytes[0]], true), bytes[1..]);
      assert st.buffer + [bytes[0]] + bytes[1..] == st.buffer + bytes;
      assert FeedByte(st, bytes[0]) == (State(st.buffer + [bytes[0]], true), []);
      EventsOnly([]);
    }
  }

  /** Data bytes and the terminator: the message completes. */
  lemma FeedsEnd(st: State, bytes: seq<Byte>)
    requires st.inSysEx && bytes != [] && bytes[|bytes| - 1] == END_OF_SYSEX
    requires forall i :: 0 <= i < |bytes| - 1 ==> bytes[i] < 0x80
    ensures Feed(st, bytes) == (IDLE, [Complete(st.buffer + bytes)])
  {
    var data := bytes[..|bytes| - 1];
    assert bytes == data + [END_OF_SYSEX];
    hide Feed;
    FeedsData(st, data);
    FeedSplits(st, data, [END_OF_SYSEX]);
    FeedsOne(State(st.buffer + data, true), END_OF_SYSEX);
    assert st.buffer + data + [END_OF_SYSEX] == st.buffer + bytes;
    EventsOnly([Complete(st.buffer + bytes)]);
  }

  lemma FeedsOne(st: State, b: Byte)
    ensures Feed(st, [b]) == FeedByte(st, b)
  {
    assert FeedByte(st, b).1 + [] == FeedByte(st, b).1;
  }

  /** Outside a message ticks pass to the caller untouched. */
  lemma {:induction false} IdlePasses(ring: seq<Entry>)
    requires AllOk(ring) && Others(ring) == []
    ensures Drain(IDLE, ring) == (IDLE, Received(Ticks(ring), []))
    decreases |ring|
  {
    if ring != [] {
      IdlePasses(ring[1..]);
    }
  }

  /** What is left of a message inside the reassembler's reach: data bytes and the terminator. */
  predicate IsRest(r: seq<Byte>) {
    r != [] && r[|r| - 1] == END_OF_SYSEX && forall i :: 0 <= i < |r| - 1 ==> r[i] < 0x80
  }

  /**
   * Inside a message: however the rest of it is spread over entries and whatever ticks fall between them, it
   * completes once; the ticks before that come out as events and those after it as entries.
   */
  lemma {:induction false} RestReassembles(st: State, ring: seq<Entry>) returns (k: nat)
    requires st.inSysEx && AllOk(ring) && NoneEmpty(Others(ring)) && IsRest(Text(Others(ring)))
    ensures k <= |Ticks(ring)| && AllTicks(Ticks(ring))
    ensures Drain(st, ring)
         == (IDLE, Received(Ticks(ring)[k..],
                            TickEvents(Ticks(ring)[..k]) + [Complete(st.buffer + Text(Others(ring)))]))
    decreases |ring|, 1
  {
    hide IsTick, Payload, Feed, EntryOk;
    var first, rest := ring[0], ring[1..];
    TicksAre(ring);
    if IsTick(first) {
      TickFeeds(st, first);
      k := RestReassembles(st, rest);
      TickOnto(first, Ticks(rest), k, Complete(st.buffer + Text(Others(ring))));
      k := k + 1;
      assert Drain(st, ring).0 == IDLE;
      assert Drain(st, ring).1.regular == Ticks(ring)[k..];
      assert Drain(st, ring).1.events == TickEvents(Ticks(ring)[..k]) + [Complete(st.buffer + Text(Others(ring)))];
    } else {
      k := MessagePart(st, ring);
    }
  }

  /** An entry of the message, when the message is open: it ends it or leaves the rest of it to come. */
  lemma MessagePart(st: State, ring: seq<Entry>) returns (k: nat)
    requires st.inSysEx && AllOk(ring) && NoneEmpty(Others(ring)) && IsRest(Text(Others(ring)))
    requires ring != [] && !IsTick(ring[0])
    ensures k <= |Ticks(ring)| && AllTicks(Ticks(ring))
    ensures Drain(st, ring)
         == (IDLE, Received(Ticks(ring)[k..],
                            TickEvents(Ticks(ring)[..k]) + [Complete(st.buffer + Text(Others(ring)))]))
    decreases |ring|, 0
  {
    hide IsTick, Payload, Feed, EntryOk, Drain, Text, Ticks, Others, NoneEmpty;
    var first, rest := ring[0], ring[1..];
    var p, more := Payload(first), Text(Others(rest));
    TicksAre(ring);
    PartSplits(ring);
    if more == [] {
      assert p + more == p;
      FeedsEnd(st, p);
      LastPart(st, ring, Complete(st.buffer + p));
      k := 0;
      EventsOnly([Complete(st.buffer + p)]);
      assert Ticks(ring)[..0] == [] && Ticks(ring)[0..] == Ticks(rest);
    } else {
      RestSplits(p, more);
      FeedsData(st, p);
      var mid := State(st.buffer + p, true);
      MidPart(st, ring, mid);
      k := RestReassembles(mid, rest);
      Assoc(st.buffer, p, more);
    }
  }

  /** An entry that is no tick belongs to the message and to nothing else. */
  lemma PartSplits(ring: seq<Entry>)
    requires AllOk(ring) && NoneEmpty(Others(ring)) && ring != [] && !IsTick(ring[0])
    ensures Payload(ring[0]) != [] && NoneEmpty(Others(ring[1..])) && Ticks(ring) == Ticks(ring[1..])
    ensures Text(Others(ring)) == Payload(ring[0]) + Text(Others(ring[1..]))
  {
    hide IsTick, Payload, EntryOk;
    var all, tail := Others(ring), Others(ring[1..]);
    assert all == [ring[0]] + tail && Ticks(ring) == Ticks(ring[1..]);
    hide Others, Ticks;
    assert all[0] == ring[0] && all[1..] == tail;
    forall i | 0 <= i < |tail|
      ensures Payload(tail[i]) != []
    {
      assert tail[i] == all[i + 1];
    }
  }

  /** The part that ends the message leaves only ticks, outside it. */
  lemma LastPart(st: State, ring: seq<Entry>, e: SysExEvent)
    requires AllOk(ring) && ring != [] && ForReassembler(st, ring[0]) && Feed(st, Payload(ring[0])) == (IDLE, [e])
    requires NoneEmpty(Others(ring[1..])) && Text(Others(ring[1..])) == []
    ensures Drain(st, ring) == (IDLE, Received(Ticks(ring[1..]), [e]))
  {
    NothingLeft(Others(ring[1..]));
    IdlePasses(ring[1..]);
    hide IsTick, Payload, Feed, EntryOk;
    assert [e] + [] == [e];
  }

  lemma MidPart(st: State, ring: seq<Entry>, mid: State)
    requires AllOk(ring) && ring != [] && ForReassembler(st, ring[0]) && Feed(st, Payload(ring[0])) == (mid, [])
    ensures Drain(st, ring) == Drain(mid, ring[1..])
  {
    EventsOnly(Drain(mid, ring[1..]).1.events);
  }

  lemma EndsMessage(st: State, r: seq<Byte>)
    requires st.inSysEx && IsRest(r)
    ensures Feed(st, r) == (IDLE, [Complete(st.buffer + r)])
  {
    FeedsEnd(st, r);
  }

  lemma EventsOnly(events: seq<SysExEvent>)
    ensures [] + events == events
  {
  }

  lemma TickFeeds(st: State, e: Entry)
    requires st.inSysEx && EntryOk(e) && IsTick(e)
    ensures Feed(st, Payload(e)) == (st, [Realtime(TickByte(e))]) && ForReassembler(st, e)
  {
    assert Payload(e) == [Payload(e)[0]];
    FeedsOne(st, Payload(e)[0]);
  }

  lemma TickOnto(e: Entry, ticks: seq<Entry>, k: nat, last: SysExEvent)
    requires EntryOk(e) && IsTick(e) && AllTicks(ticks) && AllTicks([e] + ticks) && k <= |ticks|
    ensures TickEvents(([e] + ticks)[..k + 1]) + [last] == [Realtime(TickByte(e))] + (TickEvents(ticks[..k]) + [last])
    ensures ([e] + ticks)[k + 1..] == ticks[k..]
  {
    var some := [e] + ticks[..k];
    assert ([e] + ticks)[..k + 1] == some;
    assert some[1..] == ticks[..k] && some[0] == e;
    assert TickEvents(some) == [Realtime(TickByte(e))] + TickEvents(ticks[..k]);
    Assoc([Realtime(TickByte(e))], TickEvents(ticks[..k]), [last]);
  }

  lemma NothingLeft(entries: seq<Entry>)
    requires AllOk(entries) && NoneEmpty(entries) && Text(entries) == []
    ensures entries == []
  {
  }

  lemma RestSplits(p: seq<Byte>, more: seq<Byte>)
    requires IsRest(p + more) && more != []
    ensures IsRest(more) && forall i :: 0 <= i < |p| ==> p[i] < 0x80
  {
    var r := p + more;
    forall i | 0 <= i < |p|
      ensures p[i] < 0x80
    {
      assert p[i] == r[i];
    }
    forall i | 0 <= i < |more| - 1
      ensures more[i] < 0x80
    {
      assert more[i] == r[|p| + i];
    }
    assert more[|more| - 1] == r[|r| - 1];
  }

  /** What a whole message comes out as: ticks outside it stay entries, ticks inside it become events. */
  predicate Delivers(r: (State, Received), ticks: seq<Entry>, m: seq<Byte>, j: nat, k: nat) {
    && j <= k <= |ticks| && AllTicks(ticks)
    && r.0 == IDLE
    && r.1.regular == ticks[..j] + ticks[k..]
    && r.1.events == TickEvents(ticks[j..k]) + [Complete(m)]
  }

  lemma {:induction false} MessageReassembles(ring: seq<Entry>) returns (j: nat, k: nat)
    requires AllOk(ring) && NoneEmpty(Others(ring)) && IsMessage(Text(Others(ring)))
    ensures Delivers(Drain(IDLE, ring), Ticks(ring), Text(Others(ring)), j, k)
    decreases |ring|
  {
    hide Payload, Feed, EntryOk, IsTick;
    var first, rest := ring[0], ring[1..];
    TicksAre(ring);
    if IsTick(first) {
      TickPasses(first);
      j, k := MessageReassembles(rest);
      TickBefore(first, Ticks(rest), j, k);
      j, k := j + 1, k + 1;
    } else {
      k := FirstEntry(ring);
      j := 0;
      assert Ticks(ring)[..0] + Ticks(ring)[k..] == Ticks(ring)[k..];
    }
  }

  lemma TickPasses(e: Entry)
    requires EntryOk(e) && IsTick(e)
    ensures !ForReassembler(IDLE, e)
  {
  }

  lemma TickBefore(e: Entry, ticks: seq<Entry>, j: nat, k: nat)
    requires j <= k <= |ticks|
    ensures ([e] + ticks)[..j + 1] + ([e] + ticks)[k + 1..] == [e] + (ticks[..j] + ticks[k..])
    ensures ([e] + ticks)[j + 1..k + 1] == ticks[j..k]
  {
  }

  lemma Opens(p: seq<Byte>)
    requires p != [] && p[0] == SYSEX
    ensures Feed(IDLE, p) == Feed(State([SYSEX], true), p[1..])
  {
    EventsOnly(Feed(State([SYSEX], true), p[1..]).1);
  }

  lemma RestOf(m: seq<Byte>)
    requires IsMessage(m)
    ensures IsRest(m[1..])
  {
  }

  /** The entry that opens the message: it may even hold all of it. */
  lemma FirstEntry(ring: seq<Entry>) returns (k: nat)
    requires AllOk(ring) && NoneEmpty(Others(ring)) && IsMessage(Text(Others(ring))) && ring != [] && !IsTick(ring[0])
    ensures k <= |Ticks(ring)| && AllTicks(Ticks(ring))
    ensures Drain(IDLE, ring)
         == (IDLE, Received(Ticks(ring)[k..], TickEvents(Ticks(ring)[..k]) + [Complete(Text(Others(ring)))]))
  {
    hide IsTick, Payload, EntryOk, Drain, Text, Ticks, Others, NoneEmpty;
    var first, rest := ring[0], ring[1..];
    var p, more := Payload(first), Text(Others(rest));
    var m := p + more;
    TicksAre(ring);
    PartSplits(ring);
    assert p[0] == m[0] == SYSEX && [SYSEX] + p[1..] == p;
    var open := State([SYSEX], true);
    Opens(p);
    RestOf(m);
    assert m[1..] == p[1..] + more;
    hide Feed, FeedByte, IsMessage, IsRest;
    if more == [] {
      assert p[1..] + more == p[1..];
      EndsMessage(open, p[1..]);
      LastPart(IDLE, ring, Complete(p));
      k := 0;
      EventsOnly([Complete(p)]);
      assert m == p && Ticks(ring)[..0] == [] && Ticks(ring)[0..] == Ticks(rest);
    } else {
      RestSplits(p[1..], more);
      FeedsData(open, p[1..]);
      var mid := State([SYSEX] + p[1..], true);
      MidPart(IDLE, ring, mid);
      k := RestReassembles(mid, rest);
    }
  }

  // ---- draining in several calls ----

  function Both(a: Received, b: Received): Received {
    Received(a.regular + b.regular, a.events + b.events)
  }

  lemma {:induction false} DrainSplits(st: State, a: seq<Entry>, b: seq<Entry>)
    requires AllOk(a) && AllOk(b)
    ensures AllOk(a + b)
    ensures var (mid, first) := Drain(st, a);
            var (end, rest) := Drain(mid, b);
            Drain(st, a + b) == (end, Both(first, rest))
    decreases |a|
  {
    hide ForReassembler, Feed;
    if a == [] {
      assert a + b == b;
      var rest := Drain(st, b).1;
      assert [] + rest.regular == rest.regular && [] + rest.events == rest.events;
    } else {
      assert (a + b)[1..] == a[1..] + b;
      if ForReassembler(st, a[0]) {
        var (mid, events) := Feed(st, Payload(a[0]));
        DrainSplits(mid, a[1..], b);
        var (next, first) := Drain(mid, a[1..]);
        Assoc(events, first.events, Drain(next, b).1.events);
      } else {
        DrainSplits(st, a[1..], b);
        var (next, first) := Drain(st, a[1..]);
        Assoc([a[0]], first.regular, Drain(next, b).1.regular);
      }
    }
  }

  function Concat(calls: seq<seq<Entry>>): seq<Entry> {
    if calls == [] then [] else calls[0] + Concat(calls[1..])
  }

  /** What a series of calls returns, put together: each drains the entries that arrived since the one before. */
  function DrainCalls(st: State, calls: seq<seq<Entry>>): (State, Received)
    requires forall i :: 0 <= i < |calls| ==> AllOk(calls[i])
    decreases |calls|
  {
    if calls == [] then (st, Received([], []))
    else
      var (mid, first) := Drain(st, calls[0]);
      var (end, rest) := DrainCalls(mid, calls[1..]);
      (end, Both(first, rest))
  }

  lemma {:induction false} CallsDoNotMatter(st: State, calls: seq<seq<Entry>>)
    requires forall i :: 0 <= i < |calls| ==> AllOk(calls[i])
    ensures AllOk(Concat(calls)) && DrainCalls(st, calls) == Drain(st, Concat(calls))
    decreases |calls|
  {
    hide Drain;
    if calls == [] {
      DrainsNothing(st);
    } else {
      CallsDoNotMatter(Drain(st, calls[0]).0, calls[1..]);
      DrainSplits(st, calls[0], Concat(calls[1..]));
    }
  }

  lemma DrainsNothing(st: State)
    ensures Drain(st, []) == (st, Received([], []))
  {
  }

  /** Entries of which none opens a message: note-ons, control changes, realtime bytes, even empty ones. */
  predicate NoneOpens(entries: seq<Entry>)
    requires AllOk(entries)
  {
    forall i :: 0 <= i < |entries| ==> Payload(entries[i]) == [] || Payload(entries[i])[0] != 0xF0
  }

  /** With no message open they all go to the caller, untouched and in order. */
  lemma {:induction false} OrdinaryEntriesPass(ring: seq<Entry>)
    requires AllOk(ring) && NoneOpens(ring)
    ensures Drain(IDLE, ring) == (IDLE, Received(ring, []))
    decreases |ring|
  {
    hide Payload, EntryOk;
    if ring != [] {
      OrdinaryEntriesPass(ring[1..]);
      assert [ring[0]] + ring[1..] == ring;
    }
  }

  /** A message with ordinary entries before and after it: they pass, and it completes once between them. */
  lemma MessageAmongOthers(before: seq<Entry>, mid: seq<Entry>, after: seq<Entry>) returns (j: nat, k: nat)
    requires AllOk(before) && AllOk(mid) && AllOk(after) && NoneOpens(before) && NoneOpens(after)
    requires NoneEmpty(Others(mid)) && IsMessage(Text(Others(mid)))
    ensures Delivers(Drain(IDLE, mid), Ticks(mid), Text(Others(mid)), j, k)
    ensures AllOk(before + mid + after)
    ensures Drain(IDLE, before + mid + after)
         == (IDLE, Received(before + Drain(IDLE, mid).1.regular + after, Drain(IDLE, mid).1.events))
  {
    hide Drain, Others, Ticks, Text, NoneEmpty, NoneOpens, IsMessage;
    j, k := MessageReassembles(mid);
    OrdinaryEntriesPass(before);
    OrdinaryEntriesPass(after);
    DrainSplits(IDLE, before, mid);
    DrainSplits(IDLE, before + mid, after);
    EventsOnly(Drain(IDLE, mid).1.events);
    assert Drain(IDLE, mid).1.events + [] == Drain(IDLE, mid).1.events;
  }

  /**
   * End to end: a message of any length, cut into entries by the sender, with realtime entries falling anywhere
   * between them, ordinary entries before and after, and the receiver draining whenever it likes, comes out as
   * exactly one complete message; every realtime byte comes out once and in order, as an event inside the
   * message and as an entry outside it; and every ordinary entry comes out as it went in.
   */
  lemma SysExEndToEnd(time: U32, m: seq<Byte>, before: seq<Entry>, mid: seq<Entry>, after: seq<Entry>,
                      calls: seq<seq<Entry>>) returns (j: nat, k: nat)
    requires IsMessage(m) && forall i :: 0 <= i < |calls| ==> AllOk(calls[i])
    requires AllOk(before) && AllOk(mid) && AllOk(after) && NoneOpens(before) && NoneOpens(after)
    requires Concat(calls) == before + mid + after && Others(mid) == Cut(time, m)
    ensures j <= k <= |Ticks(mid)| && AllTicks(Ticks(mid))
    ensures DrainCalls(IDLE, calls)
         == (IDLE, Received(before + (Ticks(mid)[..j] + Ticks(mid)[k..]) + after,
                            TickEvents(Ticks(mid)[j..k]) + [Complete(m)]))
  {
    hide Drain, DrainCalls, Others, Ticks, NoneOpens, IsMessage;
    CutSpells(time, m);
    CallsDoNotMatter(IDLE, calls);
    j, k := MessageAmongOthers(before, mid, after);
  }

  /** No entry of a cut message is mistaken for a realtime byte, so the sender's own entries are such a stream. */
  lemma {:induction false} CutHasNoTicks(time: U32, bytes: seq<Byte>)
    requires forall i :: 0 <= i < |bytes| ==> bytes[i] < 0xF8
    ensures Others(Cut(time, bytes)) == Cut(time, bytes) && Ticks(Cut(time, bytes)) == []
    decreases |bytes|
  {
    if |bytes| > ENTRY_MAX {
      CutHasNoTicks(time, bytes[ENTRY_MAX..]);
      var first := EntryOf(time, bytes[..ENTRY_MAX]);
      assert Cut(time, bytes)[0] == first && Cut(time, bytes)[1..] == Cut(time, bytes[ENTRY_MAX..]);
    } else if bytes != [] {
      assert Cut(time, bytes)[1..] == [];
      assert Payload(Cut(time, bytes)[0]) == bytes;
    }
  }

  /** The sender's own entries, drained in one call with nothing between them. */
  lemma SentAlone(time: U32, m: seq<Byte>)
    requires IsMessage(m)
    ensures DrainCalls(IDLE, [Cut(time, m)]) == (IDLE, Received([], [Complete(m)]))
  {
    hide Drain, DrainCalls, NoneOpens;
    CutHasNoTicks(time, m);
    assert Concat([Cut(time, m)]) == [] + Cut(time, m) + [];
    assert NoneOpens([]) by { NothingOpens(); }
    var j, k := SysExEndToEnd(time, m, [], Cut(time, m), [], [Cut(time, m)]);
    assert Ticks(Cut(time, m)) == [] && j == k == 0;
    hide Ticks, Others, Cut;
    var none: seq<Entry> := [];
    assert none + (none[..0] + none[0..]) + none == none;
    assert TickEvents(none[0..0]) == [];
    EventsOnly([Complete(m)]);
  }

  lemma NothingOpens()
    ensures NoneOpens([])
  {
  }

  /**
   * How the sender cuts: entries of sixteen bytes and one for what is left, all with the message's own time, the
   * unused places zero.
   */
  lemma {:induction false} CutIsTight(time: U32, bytes: seq<Byte>)
    ensures var entries := Cut(time, bytes);
            && |entries| == (|bytes| + 15) / 16
            && forall i :: 0 <= i < |entries| ==>
                 && entries[i].time == time && |entries[i].data| == 16
                 && entries[i].len == (if i < |entries| - 1 then 16 else |bytes| - 16 * i)
                 && forall x :: entries[i].len <= x < 16 ==> entries[i].data[x] == 0
    decreases |bytes|
  {
    if |bytes| > ENTRY_MAX {
      var first, rest := EntryOf(time, bytes[..ENTRY_MAX]), Cut(time, bytes[ENTRY_MAX..]);
      CutIsTight(time, bytes[ENTRY_MAX..]);
      var entries := [first] + rest;
      assert (|bytes| - 16 + 15) / 16 + 1 == (|bytes| + 15) / 16;
      forall i | 0 <= i < |entries|
        ensures entries[i].time == time && |entries[i].data| == 16
        ensures entries[i].len == if i < |entries| - 1 then 16 else |bytes| - 16 * i
        ensures forall x :: entries[i].len <= x < 16 ==> entries[i].data[x] == 0
      {
        if i > 0 {
          assert entries[i] == rest[i - 1];
        }
      }
    } else if bytes != [] {
      assert (|bytes| + 15) / 16 == 1;
    }
  }
}
