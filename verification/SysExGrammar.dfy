/**
 * What the reassembler and the receiver do with any stream whatsoever, said of the bytes and the entries
 * themselves.
 */
module SysExGrammar {
  import opened Bytes
  import opened Wrappers
  import opened SysEx

  // ---- bytes ----

  /** Where the message open after these bytes began: at the last status that is no realtime byte, if it is 0xF0. */
  function Opening(bytes: seq<Byte>): (r: Option<nat>)
    ensures r.Some? ==> r.value < |bytes|
    decreases |bytes|
  {
    if bytes == [] then None
    else
      var b := bytes[|bytes| - 1];
      if b < 0x80 || b >= 0xF8 then Opening(bytes[..|bytes| - 1])
      else if b == 0xF0 then Some(|bytes| - 1)
      else None
  }

  function WithoutRealtime(bytes: seq<Byte>): seq<Byte>
    decreases |bytes|
  {
    if bytes == [] then []
    else WithoutRealtime(bytes[..|bytes| - 1]) + if bytes[|bytes| - 1] >= 0xF8 then [] else [bytes[|bytes| - 1]]
  }

  /** Byte by byte: 0xF7 completes the open message, realtime bytes inside one come through at once. */
  function EventsOf(bytes: seq<Byte>): seq<SysExEvent>
    decreases |bytes|
  {
    if bytes == [] then []
    else
      var before, b := bytes[..|bytes| - 1], bytes[|bytes| - 1];
      EventsOf(before)
      + if Opening(before).None? then []
        else if b == 0xF7 then [Complete(WithoutRealtime(before[Opening(before).value..]) + [0xF7])]
        else if b >= 0xF8 then [Realtime(b)]
        else []
  }

  function StateAfter(bytes: seq<Byte>): State {
    match Opening(bytes)
    case None => State([], false)
    case Some(i) => State(WithoutRealtime(bytes[i..]), true)
  }

  /** The reassembler, on any stream from its start: its events and its buffer are those of the bytes so far. */
  lemma {:induction false} FeedExactly(bytes: seq<Byte>)
    ensures Feed(IDLE, bytes) == (StateAfter(bytes), EventsOf(bytes))
    decreases |bytes|
  {
    hide Feed;
    if bytes == [] {
      FeedsNothing(IDLE);
    } else {
      var before, b := bytes[..|bytes| - 1], bytes[|bytes| - 1];
      assert before + [b] == bytes;
      FeedExactly(before);
      FeedSplits(IDLE, before, [b]);
      FeedsOne(StateAfter(before), b);
      if Opening(before).None? {
        FedIdle(before, b);
      } else {
        FedOpen(before, b, Opening(before).value);
      }
      hide FeedByte, StateAfter, Opening, WithoutRealtime;
    }
  }

  lemma FeedsNothing(st: State)
    ensures Feed(st, []) == (st, [])
  {
  }

  lemma OneMore(bytes: seq<Byte>, b: Byte)
    ensures WithoutRealtime(bytes + [b]) == WithoutRealtime(bytes) + if b >= 0xF8 then [] else [b]
  {
    assert (bytes + [b])[..|bytes|] == bytes;
  }

  lemma OpensWith(bytes: seq<Byte>, b: Byte)
    ensures Opening(bytes + [b])
         == if b < 0x80 || b >= 0xF8 then Opening(bytes) else if b == 0xF0 then Some(|bytes|) else None
  {
    assert (bytes + [b])[..|bytes|] == bytes;
  }

  lemma FedIdle(before: seq<Byte>, b: Byte)
    requires Opening(before).None?
    ensures FeedByte(StateAfter(before), b) == (StateAfter(before + [b]), [])
  {
    hide WithoutRealtime, Opening;
    OpensWith(before, b);
    Begins(before, b);
  }

  lemma Begins(before: seq<Byte>, b: Byte)
    ensures b == 0xF0 ==> WithoutRealtime((before + [b])[|before|..]) == [0xF0]
  {
    assert (before + [b])[|before|..] == [b];
    OneMore([], b);
    assert [] + [b] == [b] && WithoutRealtime([]) == [];
  }

  lemma FedOpen(before: seq<Byte>, b: Byte, i: nat)
    requires Opening(before) == Some(i)
    ensures FeedByte(StateAfter(before), b).0 == StateAfter(before + [b])
    ensures FeedByte(StateAfter(before), b).1
         == if b == 0xF7 then [Complete(WithoutRealtime(before[i..]) + [0xF7])]
            else if b >= 0xF8 then [Realtime(b)]
            else []
  {
    hide WithoutRealtime, Opening;
    OpensWith(before, b);
    Begins(before, b);
    var bytes, buffer := before + [b], WithoutRealtime(before[i..]);
    assert bytes[i..] == before[i..] + [b];
    OneMore(before[i..], b);
    assert buffer + [] == buffer;
  }

  // ---- entries ----

  /** Whether a message is open after more bytes have been fed. */
  function OpenAfter(open: bool, bytes: seq<Byte>): bool
    decreases |bytes|
  {
    if bytes == [] then open
    else
      var b := bytes[|bytes| - 1];
      if b < 0x80 || b >= 0xF8 then OpenAfter(open, bytes[..|bytes| - 1]) else b == 0xF0
  }

  /** An entry belongs to the reassembler if it begins a message, or is not empty while one is open. */
  predicate Belongs(open: bool, e: Entry)
    requires EntryOk(e)
  {
    Payload(e) != [] && (open || Payload(e)[0] == 0xF0)
  }

  predicate OpenBefore(open: bool, ring: seq<Entry>, i: nat)
    requires AllOk(ring) && i <= |ring|
    decreases i
  {
    if i == 0 then open
    else
      var o := OpenBefore(open, ring, i - 1);
      if Belongs(o, ring[i - 1]) then OpenAfter(o, Payload(ring[i - 1])) else o
  }

  /** The entries that belong to the caller among the first `n`, and the bytes of all the others. */
  function Passed(open: bool, ring: seq<Entry>, n: nat): seq<Entry>
    requires AllOk(ring) && n <= |ring|
    decreases n
  {
    if n == 0 then []
    else Passed(open, ring, n - 1) + if Belongs(OpenBefore(open, ring, n - 1), ring[n - 1]) then [] else [ring[n - 1]]
  }

  function Fed(open: bool, ring: seq<Entry>, n: nat): seq<Byte>
    requires AllOk(ring) && n <= |ring|
    decreases n
  {
    if n == 0 then []
    else
      Fed(open, ring, n - 1) + if Belongs(OpenBefore(open, ring, n - 1), ring[n - 1]) then Payload(ring[n - 1]) else []
  }

  lemma {:induction false} FeedOpens(st: State, bytes: seq<Byte>)
    ensures Feed(st, bytes).0.inSysEx == OpenAfter(st.inSysEx, bytes)
    decreases |bytes|
  {
    hide Feed;
    if bytes == [] {
      FeedsNothing(st);
    } else {
      var before, b := bytes[..|bytes| - 1], bytes[|bytes| - 1];
      assert before + [b] == bytes;
      FeedOpens(st, before);
      FeedSplits(st, before, [b]);
      FeedsOne(Feed(st, before).0, b);
    }
  }

  lemma {:induction false} DrainSelectsFirst(st: State, ring: seq<Entry>, n: nat)
    requires AllOk(ring) && n <= |ring|
    ensures var (end, events) := Feed(st, Fed(st.inSysEx, ring, n));
            && Drain(st, ring[..n]) == (end, Received(Passed(st.inSysEx, ring, n), events))
            && end.inSysEx == OpenBefore(st.inSysEx, ring, n)
    decreases n
  {
    hide Feed, Payload, EntryOk, Drain;
    if n == 0 {
      FeedsNothing(st);
      DrainsNothing(st);
      assert ring[..0] == [];
    } else {
      var e, fed := ring[n - 1], Fed(st.inSysEx, ring, n - 1);
      DrainSelectsFirst(st, ring, n - 1);
      assert ring[..n] == ring[..n - 1] + [e];
      DrainSplits(st, ring[..n - 1], [e]);
      var mid := Feed(st, fed).0;
      DrainsOne(mid, e);
      if Belongs(mid.inSysEx, e) {
        FeedOpens(mid, Payload(e));
        FeedSplits(st, fed, Payload(e));
        assert Passed(st.inSysEx, ring, n - 1) + [] == Passed(st.inSysEx, ring, n - 1);
      } else {
        assert fed + [] == fed && Feed(st, fed).1 + [] == Feed(st, fed).1;
      }
    }
  }

  lemma DrainsOne(st: State, e: Entry)
    requires EntryOk(e)
    ensures Drain(st, [e]) == if Belongs(st.inSysEx, e)
                              then (Feed(st, Payload(e)).0, Received([], Feed(st, Payload(e)).1))
                              else (st, Received([e], []))
  {
    hide Feed, Payload;
    DrainsNothing(st);
    assert [e][1..] == [];
    assert Feed(st, Payload(e)).1 + [] == Feed(st, Payload(e)).1 && [e] + [] == [e];
  }

  /**
   * The receiver, on any ring: an entry met while no message is open and not beginning with 0xF0, or an empty
   * one, goes to the caller, once and in order; the bytes of all others go to the reassembler as one stream.
   */
  lemma DrainExactly(st: State, ring: seq<Entry>)
    requires AllOk(ring)
    ensures var (end, events) := Feed(st, Fed(st.inSysEx, ring, |ring|));
            Drain(st, ring) == (end, Received(Passed(st.inSysEx, ring, |ring|), events))
  {
    DrainSelectsFirst(st, ring, |ring|);
    assert ring[..|ring|] == ring;
  }
}
