/**
 * Every interleaving of the writer and the reactor, one atomic step at a time: no queued audio is ever left
 * behind a sleeping reactor, and no byte is lost, duplicated or reordered.
 */
module Handoff {
  import opened Bytes
  import opened Wrappers
  import opened Numbers
  import opened Playback

  /** Where the handle's thread stands inside a call. */
  datatype Writer =
    | Idle
    | Checked(data: seq<Byte>)
    | Pushed
    | Cut
    | Snapshot(queued: nat)
    | Nudging
    | Took(had: bool)

  /** Where the reactor stands; `room` is the size of the buffer of the current or latest poll. */
  datatype Reactor =
    | Awake
    | Polling(room: nat)
    | Skipping(room: nat, n: nat)
    | First(room: nat)
    | Registering(room: nat)
    | Registered(room: nat)
    | Found
    | Starving(room: nat)
    | Parked(room: nat)

  /** What became of a byte that left the ring. */
  datatype Fate = Delivered(b: Byte) | Dropped(b: Byte)

  datatype Answer = Ready | Pending

  /** The shared state, a wake waiting for the reactor, both threads, and the history of bytes and of polls. */
  datatype System = System(sh: Shared, woken: bool, writer: Writer, reactor: Reactor,
                           written: seq<Byte>, fates: seq<Fate>, polls: seq<Answer>)

  datatype Action =
    | BeginWrite(data: seq<Byte>)
    | Push
    | BeginNudge
    | LoadBacklog
    | StoreDiscard
    | TakeWaker
    | Wake
    | BeginPoll(buf: nat)
    | SwapDiscard
    | Skip
    | ServeFirst
    | StoreWaker
    | ServeAgain
    | PutBack
    | Park

  function Start(capacity: nat): System {
    System(Fresh(capacity), false, Idle, Awake, [], [], [])
  }

  function AllDelivered(bytes: seq<Byte>): seq<Fate> {
    seq(|bytes|, i requires 0 <= i < |bytes| => Delivered(bytes[i]))
  }

  function AllDropped(bytes: seq<Byte>): seq<Fate> {
    seq(|bytes|, i requires 0 <= i < |bytes| => Dropped(bytes[i]))
  }

  /** A serve at the point `found` or, failing that, `missed`. */
  function Served(s: System, room: nat, found: Reactor, missed: Reactor): System {
    var (sh, bytes) := Serve(s.sh, room);
    if bytes.Some? then
      s.(sh := sh, reactor := found, fates := s.fates + AllDelivered(bytes.value), polls := s.polls + [Ready])
    else
      s.(reactor := missed)
  }

  /** One atomic step; an action that is not the next of its thread does nothing. */
  function Act(s: System, a: Action): System {
    match a
    case BeginWrite(data) =>
      if s.writer.Idle? && data != [] && |data| <= Vacant(s.sh) then s.(writer := Checked(data)) else s
    case Push =>
      if s.writer.Checked? then
        var sh := PushSlice(s.sh, s.writer.data);
        var n := |sh.ring| - |s.sh.ring|;
        s.(sh := sh, written := s.written + s.writer.data[..n], writer := if n < |s.writer.data| then Cut else Pushed)
      else s
    case BeginNudge => if s.writer.Idle? then s.(writer := Nudging) else s
    case LoadBacklog => if s.writer.Idle? then s.(writer := Snapshot(|s.sh.ring|)) else s
    case StoreDiscard =>
      if s.writer.Snapshot? then s.(sh := s.sh.(discard := s.writer.queued), writer := Nudging) else s
    case TakeWaker =>
      if s.writer.Pushed? || s.writer.Nudging? then s.(sh := s.sh.(waker := false), writer := Took(s.sh.waker)) else s
    case Wake => if s.writer.Took? then s.(woken := s.woken || s.writer.had, writer := Idle) else s
    case BeginPoll(room) =>
      if s.reactor.Awake? || s.reactor.Parked? then s.(woken := false, reactor := Polling(room)) else s
    case SwapDiscard =>
      if s.reactor.Polling? then s.(sh := s.sh.(discard := 0), reactor := Skipping(s.reactor.room, s.sh.discard)) else s
    case Skip =>
      if s.reactor.Skipping? then
        var n := Min(s.reactor.n, |s.sh.ring|);
        s.(sh := SkipQueued(s.sh, s.reactor.n),
           fates := s.fates + AllDropped(s.sh.ring[..n]),
           reactor := First(s.reactor.room))
      else s
    case ServeFirst => if s.reactor.First? then Served(s, s.reactor.room, Awake, Registering(s.reactor.room)) else s
    case StoreWaker =>
      if s.reactor.Registering? then s.(sh := s.sh.(waker := true), reactor := Registered(s.reactor.room)) else s
    case ServeAgain => if s.reactor.Registered? then Served(s, s.reactor.room, Found, Starving(s.reactor.room)) else s
    case PutBack => if s.reactor.Found? then s.(sh := s.sh.(waker := false), reactor := Awake) else s
    case Park =>
      if s.reactor.Starving? then
        s.(sh := MarkStarved(s.sh), reactor := Parked(s.reactor.room), polls := s.polls + [Pending])
      else s
  }

  // ---- the history ----

  function FateBytes(fates: seq<Fate>): (r: seq<Byte>)
    ensures |r| == |fates|
  {
    seq(|fates|, i requires 0 <= i < |fates| => fates[i].b)
  }

  function DeliveredCount(fates: seq<Fate>): nat {
    if fates == [] then 0
    else DeliveredCount(fates[..|fates| - 1]) + if fates[|fates| - 1].Delivered? then 1 else 0
  }

  lemma {:induction false} DeliveredCountAppend(a: seq<Fate>, b: seq<Fate>)
    ensures DeliveredCount(a + b) == DeliveredCount(a) + DeliveredCount(b)
    decreases |b|
  {
    if b == [] {
      assert a + b == a;
    } else {
      assert (a + b)[..|a + b| - 1] == a + b[..|b| - 1];
      DeliveredCountAppend(a, b[..|b| - 1]);
    }
  }

  lemma {:induction false} CountsServed(bytes: seq<Byte>)
    ensures DeliveredCount(AllDelivered(bytes)) == |bytes| && FateBytes(AllDelivered(bytes)) == bytes
    decreases |bytes|
  {
    if bytes != [] {
      assert AllDelivered(bytes)[..|bytes| - 1] == AllDelivered(bytes[..|bytes| - 1]);
      CountsServed(bytes[..|bytes| - 1]);
    }
  }

  lemma {:induction false} CountsDropped(bytes: seq<Byte>)
    ensures DeliveredCount(AllDropped(bytes)) == 0 && FateBytes(AllDropped(bytes)) == bytes
    decreases |bytes|
  {
    if bytes != [] {
      assert AllDropped(bytes)[..|bytes| - 1] == AllDropped(bytes[..|bytes| - 1]);
      CountsDropped(bytes[..|bytes| - 1]);
    }
  }

  // ---- the invariant ----

  predicate Asleep(r: Reactor) {
    (r.Starving? || r.Parked?) && r.room > 0
  }

  /** Conservation: what left the ring, in order, then what is in it, is what was written. */
  predicate Conserved(s: System) {
    && s.written == FateBytes(s.fates) + s.sh.ring
    && s.sh.sent == DeliveredCount(s.fates)
  }

  /** How often a pending poll follows a ready one. */
  function Falls(polls: seq<Answer>): nat
    decreases |polls|
  {
    if |polls| <= 1 then 0
    else
      Falls(polls[..|polls| - 1]) + if polls[|polls| - 1].Pending? && polls[|polls| - 2].Ready? then 1 else 0
  }

  /** Underruns are counted on the rising edge exactly, and the pre-roll before the first data is not one. */
  predicate RisingEdges(s: System) {
    && s.sh.underruns == Falls(s.polls)
    && s.sh.starved == (s.polls == [] || s.polls[|s.polls| - 1].Pending?)
  }

  predicate Wakeable(s: System) {
    // Once registered, the waker is in the slot unless somebody took it to wake the reactor.
    && (s.reactor.Registered? || s.reactor.Starving? || s.reactor.Parked? ==>
          s.sh.waker || s.woken || s.writer == Took(true))
    // A reactor that sleeps over data is about to be woken.
    && (Asleep(s.reactor) && s.sh.ring != [] ==>
          s.woken || s.writer == Took(true) || (s.sh.waker && s.writer == Pushed))
  }

  /** The room found by the check is still there at the push: the reactor only ever makes more. */
  predicate Roomy(s: System) {
    && |s.sh.ring| <= s.sh.capacity
    && (s.writer.Checked? ==> s.writer.data != [] && |s.writer.data| <= s.sh.capacity - |s.sh.ring|)
    && !s.writer.Cut?
  }

  predicate Inv(s: System) {
    Roomy(s) && Conserved(s) && RisingEdges(s) && Wakeable(s)
  }

  lemma ServedConserves(s: System, room: nat, found: Reactor, missed: Reactor)
    requires Conserved(s) && RisingEdges(s)
    ensures Conserved(Served(s, room, found, missed)) && RisingEdges(Served(s, room, found, missed))
  {
    var (sh, bytes) := Serve(s.sh, room);
    if bytes.Some? {
      CountsServed(bytes.value);
      DeliveredCountAppend(s.fates, AllDelivered(bytes.value));
      assert FateBytes(s.fates + AllDelivered(bytes.value)) == FateBytes(s.fates) + bytes.value;
      Assoc(FateBytes(s.fates), bytes.value, sh.ring);
      assert (s.polls + [Ready])[..|s.polls|] == s.polls;
    }
  }

  /** Before every fall there is a ready poll, and another one after it unless the last poll was pending. */
  lemma {:induction false} FallsBounded(polls: seq<Answer>)
    ensures Falls(polls) + (if polls == [] || polls[|polls| - 1].Pending? then 0 else 1) <= ReadyCount(polls)
    decreases |polls|
  {
    if polls != [] {
      FallsBounded(polls[..|polls| - 1]);
    }
  }

  function ReadyCount(polls: seq<Answer>): nat
    decreases |polls|
  {
    if polls == [] then 0 else ReadyCount(polls[..|polls| - 1]) + if polls[|polls| - 1].Ready? then 1 else 0
  }

  lemma SkipConserves(s: System, n: nat)
    requires Conserved(s) && n <= |s.sh.ring|
    ensures s.written == FateBytes(s.fates + AllDropped(s.sh.ring[..n])) + s.sh.ring[n..]
    ensures DeliveredCount(s.fates + AllDropped(s.sh.ring[..n])) == s.sh.sent
  {
    var gone := s.sh.ring[..n];
    CountsDropped(gone);
    DeliveredCountAppend(s.fates, AllDropped(gone));
    assert FateBytes(s.fates + AllDropped(gone)) == FateBytes(s.fates) + gone;
    Assoc(FateBytes(s.fates), gone, s.sh.ring[n..]);
    assert gone + s.sh.ring[n..] == s.sh.ring;
  }

  lemma PushConserves(s: System)
    requires Conserved(s) && Roomy(s)
    ensures Conserved(Act(s, Push))
  {
    hide FateBytes, DeliveredCount;
    if s.writer.Checked? {
      assert s.writer.data[..|s.writer.data|] == s.writer.data;
      Assoc(FateBytes(s.fates), s.sh.ring, s.writer.data);
    }
  }

  lemma ParkKeepsEdges(s: System)
    requires RisingEdges(s)
    ensures RisingEdges(Act(s, Park))
  {
    assert (s.polls + [Pending])[..|s.polls|] == s.polls;
  }

  lemma ActConserves(s: System, a: Action)
    requires Inv(s)
    ensures Conserved(Act(s, a)) && RisingEdges(Act(s, a))
  {
    hide FateBytes, DeliveredCount, Falls, Serve, Wakeable;
    match a
    case ServeFirst => if s.reactor.First? { ServedConserves(s, s.reactor.room, Awake, Registering(s.reactor.room)); }
    case ServeAgain => if s.reactor.Registered? { ServedConserves(s, s.reactor.room, Found, Starving(s.reactor.room)); }
    case Skip => if s.reactor.Skipping? { SkipConserves(s, Min(s.reactor.n, |s.sh.ring|)); }
    case Push => PushConserves(s);
    case Park => ParkKeepsEdges(s);
    case _ =>
  }

  lemma ActStaysWakeable(s: System, a: Action)
    requires Inv(s)
    ensures Roomy(Act(s, a)) && Wakeable(Act(s, a)) && Act(s, a).sh.capacity == s.sh.capacity
  {
    hide FateBytes, DeliveredCount, Conserved, AllDelivered, AllDropped, Falls;
  }

  function Run(s: System, actions: seq<Action>): System
    decreases |actions|
  {
    if actions == [] then s else Run(Act(s, actions[0]), actions[1..])
  }

  lemma {:induction false} RunKeepsInv(s: System, actions: seq<Action>)
    requires Inv(s)
    ensures Inv(Run(s, actions)) && Run(s, actions).sh.capacity == s.sh.capacity
    decreases |actions|
  {
    hide Act, Conserved, RisingEdges, Wakeable, Roomy;
    if actions != [] {
      ActConserves(s, actions[0]);
      ActStaysWakeable(s, actions[0]);
      RunKeepsInv(Act(s, actions[0]), actions[1..]);
    }
  }

  /**
   * No lost wakeup, under every interleaving: when the reactor is parked after a poll that could take data and
   * the ring is not empty, a wake is waiting or in the writer's hand, or the waker is still in its slot and the
   * writer stands between its push and its take. So once a write has returned, a wake is waiting.
   */
  lemma NoLostWakeup(capacity: nat, actions: seq<Action>)
    ensures var s := Run(Start(capacity), actions);
            Asleep(s.reactor) && s.sh.ring != [] ==>
            && (s.woken || s.writer == Took(true) || (s.sh.waker && s.writer == Pushed))
            && (s.writer.Idle? ==> s.woken)
  {
    RunKeepsInv(Start(capacity), actions);
  }

  /** A writer that finishes its call from wherever it pushed leaves a wake for a reactor sleeping over its data. */
  lemma WriterFinishes(s: System)
    requires Inv(s) && Asleep(s.reactor) && s.sh.ring != [] && (s.writer == Pushed || s.writer.Took?)
    ensures var t := Act(Act(s, TakeWaker), Wake);
            t.woken && t.writer.Idle? && t.sh.ring == s.sh.ring
  {
  }

  /**
   * No byte is lost, duplicated or reordered, under every interleaving and any discards: the bytes that left
   * the ring, delivered or dropped, followed by those in it are the bytes written; both counters are exact; and
   * the write that passed its room check is never cut short.
   */
  lemma EveryByteAccountedFor(capacity: nat, actions: seq<Action>)
    ensures var s := Run(Start(capacity), actions);
            && s.written == FateBytes(s.fates) + s.sh.ring
            && s.sh.sent == DeliveredCount(s.fates)
            && s.sh.underruns == Falls(s.polls)
            && |s.sh.ring| <= capacity
            && !s.writer.Cut?
  {
    RunKeepsInv(Start(capacity), actions);
  }

  /**
   * Under every interleaving a stream counts at most as many underruns as polls that brought data, and one
   * fewer while it is not starved.
   */
  lemma UnderrunsBounded(capacity: nat, actions: seq<Action>)
    ensures var s := Run(Start(capacity), actions);
            s.sh.underruns + (if s.sh.starved then 0 else 1) <= ReadyCount(s.polls)
  {
    RunKeepsInv(Start(capacity), actions);
    FallsBounded(Run(Start(capacity), actions).polls);
  }

  // ---- undisturbed calls ----

  /** The reactor's steps taken one after the other are the whole poll, and end it. */
  lemma PollIsItsSteps(s: System, buf: nat)
    requires s.reactor.Awake? || s.reactor.Parked?
    ensures var t := Run(s, [BeginPoll(buf), SwapDiscard, Skip, ServeFirst, StoreWaker, ServeAgain, Park]);
            t.sh == Poll(s.sh, buf).0 && t.reactor == if Poll(s.sh, buf).1.Some? then Awake else Parked(buf)
  {
    var begin, rest := [BeginPoll(buf), SwapDiscard, Skip], [ServeFirst, StoreWaker, ServeAgain, Park];
    RunAppend(s, begin, rest);
    assert begin + rest == [BeginPoll(buf), SwapDiscard, Skip, ServeFirst, StoreWaker, ServeAgain, Park];
    Discards(s, buf);
    Serves(Run(s, begin), buf);
  }

  lemma {:induction false} RunAppend(s: System, a: seq<Action>, b: seq<Action>)
    ensures Run(s, a + b) == Run(Run(s, a), b)
    decreases |a|
  {
    hide Act;
    if a == [] {
      assert a + b == b;
    } else {
      assert (a + b)[1..] == a[1..] + b;
      RunAppend(Act(s, a[0]), a[1..], b);
    }
  }

  lemma Discards(s: System, buf: nat)
    requires s.reactor.Awake? || s.reactor.Parked?
    ensures var t := Run(s, [BeginPoll(buf), SwapDiscard, Skip]);
            && t.sh == SkipQueued(s.sh, s.sh.discard).(discard := 0) && t.reactor == First(buf)
            && t.writer == s.writer && !t.woken
  {
    hide Run, AllDropped;
    RunThree(s, BeginPoll(buf), SwapDiscard, Skip);
  }

  lemma RunThree(s: System, a: Action, b: Action, c: Action)
    ensures Run(s, [a, b, c]) == Act(Act(Act(s, a), b), c)
  {
    hide Act;
    var s1 := Act(s, a);
    var s2 := Act(s1, b);
    assert [a, b, c][1..] == [b, c] && [b, c][1..] == [c] && [c][1..] == [];
    assert Run(s2, [c]) == Act(s2, c);
    assert Run(s1, [b, c]) == Run(s2, [c]);
  }

  lemma RunFour(s: System, a: Action, b: Action, c: Action, d: Action)
    ensures Run(s, [a, b, c, d]) == Act(Act(Act(Act(s, a), b), c), d)
  {
    hide Act;
    RunThree(Act(s, a), b, c, d);
    assert [a, b, c, d][1..] == [b, c, d];
  }

  lemma Serves(s: System, buf: nat)
    requires s.reactor == First(buf)
    ensures var t := Run(s, [ServeFirst, StoreWaker, ServeAgain, Park]);
            var (served, bytes) := Serve(s.sh, buf);
            && t.sh == (if bytes.Some? then served else MarkStarved(s.sh.(waker := true)))
            && t.reactor == (if bytes.Some? then Awake else Parked(buf))
            && t.writer == s.writer && t.woken == s.woken
  {
    hide Run, AllDelivered;
    RunFour(s, ServeFirst, StoreWaker, ServeAgain, Park);
  }

  /** The handle's steps taken one after the other are the whole write, and end it. */
  lemma WriteIsItsSteps(s: System, data: seq<Byte>)
    requires s.writer.Idle? && data != [] && |data| <= Vacant(s.sh)
    ensures var t := Run(s, [BeginWrite(data), Push, TakeWaker, Wake]);
            && t.sh == s.sh.(ring := s.sh.ring + data, waker := false) && t.written == s.written + data
            && t.woken == (s.woken || s.sh.waker) && t.writer.Idle? && t.reactor == s.reactor
  {
    hide Run;
    RunFour(s, BeginWrite(data), Push, TakeWaker, Wake);
    assert data[..|data|] == data;
  }

  /**
   * Exactly when an undisturbed poll falls asleep over queued data, with no wake waiting: when its own buffer is
   * empty and the ring holds more than is to be discarded.
   */
  lemma SleepsOverDataExactly(s: System, buf: nat)
    requires s.reactor.Awake? || s.reactor.Parked?
    ensures var t := Run(s, [BeginPoll(buf), SwapDiscard, Skip, ServeFirst, StoreWaker, ServeAgain, Park]);
            t.reactor == Parked(buf) && t.sh.ring != [] && !t.woken <==> buf == 0 && |s.sh.ring| > s.sh.discard
  {
    var begin, rest := [BeginPoll(buf), SwapDiscard, Skip], [ServeFirst, StoreWaker, ServeAgain, Park];
    RunAppend(s, begin, rest);
    assert begin + rest == [BeginPoll(buf), SwapDiscard, Skip, ServeFirst, StoreWaker, ServeAgain, Park];
    hide Run, Act;
    Discards(s, buf);
    Serves(Run(s, begin), buf);
  }

  /** Such a state is reached: by a write, and a poll with an empty buffer. */
  lemma EmptyBufferSleepsOverData()
    ensures var s := Run(Start(1), [BeginWrite([7]), Push, TakeWaker, Wake]);
            var t := Run(Run(s, [BeginPoll(0), SwapDiscard, Skip]), [ServeFirst, StoreWaker, ServeAgain, Park]);
            t.reactor == Parked(0) && t.sh.ring == [7] && t.writer.Idle? && !t.woken
  {
    RunFour(Start(1), BeginWrite([7]), Push, TakeWaker, Wake);
    var s := Run(Start(1), [BeginWrite([7]), Push, TakeWaker, Wake]);
    assert s.sh.ring == [7] && s.sh.discard == 0 && s.writer.Idle? && s.reactor.Awake?;
    hide Run, Act;
    Discards(s, 0);
    Serves(Run(s, [BeginPoll(0), SwapDiscard, Skip]), 0);
  }
}
