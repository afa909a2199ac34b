/**
 * The playback handoff: what each side does to the shared state in one step, and the two sides as they run,
 * the writer handle and the reactor's source, when each call is left undisturbed.
 */
module Playback {
  import opened Bytes
  import opened Wrappers
  import opened Numbers
  import opened SampleFormat

  /** The byte ring with its capacity, the waker slot and the counters both threads see. */
  datatype Shared = Shared(ring: seq<Byte>, capacity: nat, waker: bool, starved: bool, underruns: nat, sent: nat,
                           discard: nat)

  function Fresh(capacity: nat): Shared {
    Shared([], capacity, false, true, 0, 0, 0)
  }

  /** What a push leaves: as much of the data as there is room for. */
  function PushSlice(sh: Shared, data: seq<Byte>): Shared {
    sh.(ring := sh.ring + data[..Min(|data|, Vacant(sh))])
  }

  function Vacant(sh: Shared): nat {
    if |sh.ring| <= sh.capacity then sh.capacity - |sh.ring| else 0
  }

  /** The bytes a pop into a buffer of `room` bytes takes. */
  function Popped(sh: Shared, room: nat): seq<Byte> {
    sh.ring[..Min(room, |sh.ring|)]
  }

  /** Serving pops what there is; an empty pop serves nothing and touches nothing. */
  function Serve(sh: Shared, room: nat): (r: (Shared, Option<seq<Byte>>))
    ensures r.1.Some? ==> r.1.value != [] && r.1.value + r.0.ring == sh.ring && |r.1.value| <= room
    ensures r.1.None? ==> r.0 == sh && (room == 0 || sh.ring == [])
  {
    var bytes := Popped(sh, room);
    if bytes == [] then (sh, None)
    else (sh.(ring := sh.ring[|bytes|..], starved := false, sent := sh.sent + |bytes|), Some(bytes))
  }

  function SkipQueued(sh: Shared, n: nat): Shared {
    sh.(ring := sh.ring[Min(n, |sh.ring|)..])
  }

  function MarkStarved(sh: Shared): Shared {
    if sh.starved then sh else sh.(starved := true, underruns := sh.underruns + 1)
  }

  /** A whole poll with nothing interleaved: the discard request, then serve, else register and park. */
  function Poll(sh: Shared, room: nat): (Shared, Option<seq<Byte>>) {
    var cleared := SkipQueued(sh, sh.discard).(discard := 0);
    var (served, bytes) := Serve(cleared, room);
    if bytes.Some? then (served, bytes) else (MarkStarved(cleared.(waker := true)), None)
  }

  function RequestDiscard(sh: Shared): Shared {
    sh.(discard := |sh.ring|)
  }

  /**
   * A discard drops exactly the backlog of its own moment: whatever was written between the request and the
   * next poll is served by that poll or still queued after it, in order.
   */
  lemma DiscardDropsItsSnapshot(sh: Shared, later: seq<Byte>, room: nat)
    ensures var queued := RequestDiscard(sh).(ring := sh.ring + later);
            var (after, bytes) := Poll(queued, room);
            && (if bytes.Some? then bytes.value + after.ring == later else after.ring == later)
            && after.discard == 0
            && after.sent == sh.sent + if bytes.Some? then |bytes.value| else 0
  {
    assert (sh.ring + later)[|sh.ring|..] == later;
  }

  /** A poll fills its buffer: it brings all that is left after the discard or as much as fits, and it is the oldest. */
  lemma PollBringsAllItCan(sh: Shared, room: nat)
    ensures var kept := sh.ring[Min(sh.discard, |sh.ring|)..];
            var (after, bytes) := Poll(sh, room);
            && (bytes.Some? <==> room > 0 && kept != [])
            && (bytes.Some? ==> |bytes.value| == Min(room, |kept|) && bytes.value + after.ring == kept)
            && (bytes.None? ==> after.ring == kept && after.waker)
  {
  }

  datatype WriteResult = Written | Overrun | Disconnected

  class Stream {
    const format: Format
    const capacity: nat
    var ring: seq<Byte>
    var waker: bool
    var starved: bool
    var underruns: nat
    var sent: nat
    var discard: nat
    var disconnected: bool
    // Whether a wake is waiting for the reactor.
    var woken: bool

    function View(): Shared
      reads this
    {
      Shared(ring, capacity, waker, starved, underruns, sent, discard)
    }

    predicate Valid()
      reads this
    {
      |ring| <= capacity
    }

    constructor (format: Format, capacity: nat)
      ensures Valid() && View() == Fresh(capacity) && !woken && !disconnected && this.format == format
    {
      this.format, this.capacity := format, capacity;
      ring, waker, starved, underruns, sent, discard := [], false, true, 0, 0, 0;
      disconnected, woken := false, false;
    }

    // ---- the reactor's side ----

    method ServeInto(room: nat) returns (bytes: Option<seq<Byte>>)
      requires Valid()
      modifies this`ring, this`starved, this`sent
      ensures Valid() && (View(), bytes) == Serve(old(View()), room)
    {
      var n := Min(room, |ring|);
      var taken := ring[..n];
      ring := ring[n..];
      if n == 0 {
        return None;
      }
      starved := false;
      sent := sent + n;
      bytes := Some(taken);
    }

    /** None is Pending; a Ready poll always brings at least one byte. */
    method PollRead(room: nat) returns (bytes: Option<seq<Byte>>)
      requires Valid()
      modifies this
      ensures Valid() && (View(), bytes) == Poll(old(View()), room)
      ensures bytes.Some? ==> bytes.value != []
      ensures woken == old(woken) && disconnected == old(disconnected)
    {
      hide Serve;
      ghost var cleared := SkipQueued(View(), discard).(discard := 0);
      var n := discard;
      discard := 0;
      if n > 0 {
        ring := ring[Min(n, |ring|)..];
      }
      assert View() == cleared;
      bytes := ServeInto(room);
      if bytes.Some? {
        return;
      }
      assert View() == cleared && (room == 0 || ring == []);
      waker := true;
      // Nothing was pushed in between here, so the second look finds what the first did.
      bytes := ServeInto(room);
      assert bytes.None? && View() == cleared.(waker := true);
      if !starved {
        starved := true;
        underruns := underruns + 1;
      }
    }

    // ---- the handle's side ----

    method WakeReactor()
      modifies this`waker, this`woken
      ensures !waker && woken == (old(woken) || old(waker))
    {
      if waker {
        waker := false;
        woken := true;
      }
    }

    /** All or nothing: a write that does not fit changes nothing, and one that fits is never cut short. */
    method Write(samples: seq<U32>, scratch: Buffer) returns (r: WriteResult)
      requires Valid()
      modifies this, scratch
      ensures Valid()
      ensures r == if disconnected then Disconnected
                   else if |EncodeAll(format, samples)| <= capacity - |old(ring)| then Written
                   else Overrun
      ensures r.Written? ==> ring == old(ring) + EncodeAll(format, samples)
      ensures r.Written? && samples != [] ==> !waker && woken == (old(woken) || old(waker))
      ensures !r.Written? || samples == [] ==> View() == old(View()) && woken == old(woken)
      ensures View() == old(View()).(ring := ring, waker := waker) && disconnected == old(disconnected)
    {
      EncodedLength(format, samples);
      assert samples == [] ==> EncodeAll(format, samples) == [];
      hide EncodeAll;
      if disconnected {
        return Disconnected;
      }
      if |samples| == 0 {
        return Written;
      }
      var needed := |samples| * format.Width();
      if capacity - |ring| < needed {
        return Overrun;
      }
      scratch.bytes := [];
      EncodeSamples(format, samples, scratch);
      var encoded := scratch.bytes;
      assert encoded == EncodeAll(format, samples);
      var pushed := Min(|encoded|, capacity - |ring|);
      // The room check leaves no partial write to report.
      assert pushed == |encoded| && encoded[..pushed] == encoded;
      ring := ring + encoded[..pushed];
      WakeReactor();
      r := Written;
    }

    method DiscardBuffered()
      requires Valid()
      modifies this`discard, this`waker, this`woken
      ensures Valid() && View() == RequestDiscard(old(View())).(waker := false)
      ensures woken == (old(woken) || old(waker))
    {
      discard := |ring|;
      WakeReactor();
    }
  }

  lemma {:induction false} EncodedLength(f: Format, samples: seq<U32>)
    ensures |EncodeAll(f, samples)| == |samples| * f.Width()
    decreases |samples|
  {
    hide EncodeOne;
    if samples != [] {
      EncodedLength(f, samples[1..]);
      var n := |samples| - 1;
      assert (n + 1) * f.Width() == n * f.Width() + f.Width();
    }
  }
}
