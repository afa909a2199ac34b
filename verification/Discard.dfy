/**
 * What a discard request promises the audio written after it, under every interleaving, and exactly when the
 * promise holds.
 */
module Discard {
  import opened Bytes
  import opened Playback
  import opened Handoff

  /** No byte was dropped but the first `mark` ever written: the history runs in the order of writing. */
  predicate Spared(s: System, mark: nat) {
    forall i :: mark <= i < |s.fates| ==> s.fates[i].Delivered?
  }

  predicate NoRequest(actions: seq<Action>) {
    LoadBacklog !in actions
  }

  /** A whole request, with whatever comes between its snapshot and its store. */
  function Requested(s: System, between: seq<Action>): System {
    Act(Run(Act(s, LoadBacklog), between), StoreDiscard)
  }

  /** A reactor that takes nothing out of a ring of `queued` bytes, or of what is added to it, before its next swap. */
  predicate Harmless(r: Reactor, queued: nat) {
    && (r.Skipping? ==> r.n == 0)
    && (r.Skipping? || r.First? || r.Registering? || r.Registered? ==> r.room == 0 || queued == 0)
  }

  // ---- the request as the states after it see it ----

  /** Not swapped out yet, and nothing has left the ring. */
  predicate Waiting(s: System, x: System) {
    && x.sh.discard == |s.sh.ring| && x.fates == s.fates && s.sh.ring <= x.sh.ring
    && Harmless(x.reactor, |s.sh.ring|) && s.sh.ring != []
  }

  /** Swapped out and about to be carried out. */
  predicate Firing(s: System, x: System) {
    && x.sh.discard == 0 && x.fates == s.fates && s.sh.ring <= x.sh.ring
    && x.reactor.Skipping? && x.reactor.n == |s.sh.ring|
  }

  /** Carried out: exactly the backlog is gone, and nothing more is to be dropped. */
  predicate Done(s: System, x: System) {
    && x.sh.discard == 0 && (x.reactor.Skipping? ==> x.reactor.n == 0)
    && s.fates + AllDropped(s.sh.ring) <= x.fates && Spared(x, |s.fates| + |s.sh.ring|)
  }

  predicate OnTrack(s: System, x: System) {
    !x.writer.Snapshot? && (Waiting(s, x) || Firing(s, x) || Done(s, x))
  }

  lemma ServedSpares(s: System, x: System, room: nat, found: Reactor, missed: Reactor)
    requires Done(s, x) && !found.Skipping? && !missed.Skipping?
    ensures Done(s, Served(x, room, found, missed))
  {
    hide AllDropped;
    var (sh, bytes) := Serve(x.sh, room);
    assert sh.discard == x.sh.discard;
    hide Serve;
  }

  lemma ServeNothing(x: System, found: Reactor, missed: Reactor)
    ensures Served(x, 0, found, missed) == x.(reactor := missed)
  {
  }

  lemma SkipFires(s: System, x: System)
    requires Firing(s, x)
    ensures Done(s, Act(x, Skip))
  {
    var gone := x.sh.ring[..|s.sh.ring|];
    assert gone == s.sh.ring;
    assert Act(x, Skip).fates == s.fates + AllDropped(s.sh.ring);
  }

  lemma SkipNothing(x: System)
    requires x.reactor.Skipping? && x.reactor.n == 0
    ensures Act(x, Skip) == x.(reactor := First(x.reactor.room))
  {
    assert AllDropped(x.sh.ring[..0]) == [] && x.sh.ring[0..] == x.sh.ring;
  }

  lemma StepStaysOnTrack(s: System, x: System, a: Action)
    requires OnTrack(s, x) && a != LoadBacklog
    ensures OnTrack(s, Act(x, a))
  {
    hide Serve, AllDropped, Served, OnTrack, Spared;
    match a
    case Skip => StepSkips(s, x);
    case ServeFirst => if x.reactor.First? { StepServes(s, x, Awake, Registering(x.reactor.room)); }
    case ServeAgain => if x.reactor.Registered? { StepServes(s, x, Found, Starving(x.reactor.room)); }
    case _ => StepElsewhere(s, x, a);
  }

  lemma StepSkips(s: System, x: System)
    requires OnTrack(s, x)
    ensures OnTrack(s, Act(x, Skip))
  {
    hide Act, AllDropped, Spared;
    if Firing(s, x) {
      SkipFires(s, x);
      SkipKeepsWriter(x);
    } else if x.reactor.Skipping? {
      SkipNothing(x);
      SparedToo(s, x);
    } else {
      SkipElsewhere(x);
    }
  }

  lemma SkipKeepsWriter(x: System)
    ensures Act(x, Skip).writer == x.writer
  {
  }

  lemma SkipElsewhere(x: System)
    requires !x.reactor.Skipping?
    ensures Act(x, Skip) == x
  {
  }

  lemma SparedToo(s: System, x: System)
    ensures Spared(x, |s.fates| + |s.sh.ring|)
        ==> Spared(x.(reactor := First(if x.reactor.Skipping? then x.reactor.room else 0)), |s.fates| + |s.sh.ring|)
  {
  }

  lemma StepServes(s: System, x: System, found: Reactor, missed: Reactor)
    requires OnTrack(s, x) && (x.reactor.First? || x.reactor.Registered?)
    requires found == Awake || found == Found
    requires missed == Registering(x.reactor.room) || missed == Starving(x.reactor.room)
    ensures OnTrack(s, Served(x, x.reactor.room, found, missed))
  {
    hide Serve, AllDropped, Spared;
    if Waiting(s, x) {
      ServeNothing(x, found, missed);
    } else {
      ServedSpares(s, x, x.reactor.room, found, missed);
    }
  }

  lemma StepElsewhere(s: System, x: System, a: Action)
    requires OnTrack(s, x) && !a.LoadBacklog? && !a.Skip? && !a.ServeFirst? && !a.ServeAgain?
    ensures OnTrack(s, Act(x, a))
  {
    hide AllDropped;
  }

  lemma {:induction false} RunStaysOnTrack(s: System, x: System, actions: seq<Action>)
    requires OnTrack(s, x) && NoRequest(actions)
    ensures OnTrack(s, Run(x, actions))
    decreases |actions|
  {
    hide Act, OnTrack;
    if actions != [] {
      StepStaysOnTrack(s, x, actions[0]);
      RunStaysOnTrack(s, Act(x, actions[0]), actions[1..]);
    }
  }

  // ---- reachable states ----

  /** No count of bytes exceeds the ring. */
  predicate CountsFit(s: System) {
    && |s.sh.ring| <= s.sh.capacity && s.sh.discard <= s.sh.capacity
    && (s.reactor.Skipping? ==> s.reactor.n <= s.sh.capacity)
    && (s.writer.Snapshot? ==> s.writer.queued <= s.sh.capacity)
  }

  lemma {:induction false} RunKeepsCounts(s: System, actions: seq<Action>)
    requires CountsFit(s)
    ensures CountsFit(Run(s, actions))
    decreases |actions|
  {
    hide Act, CountsFit;
    if actions != [] {
      ActKeepsCounts(s, actions[0]);
      RunKeepsCounts(Act(s, actions[0]), actions[1..]);
    }
  }

  lemma ActKeepsCounts(s: System, a: Action)
    requires CountsFit(s)
    ensures CountsFit(Act(s, a))
  {
    hide AllDelivered, AllDropped;
  }

  /** The history only grows, and while the snapshot waits for its store nothing is written. */
  lemma {:induction false} SnapshotWaits(s: System, actions: seq<Action>)
    requires s.writer.Snapshot? && StoreDiscard !in actions
    ensures var t := Run(s, actions);
            && t.writer == s.writer && t.written == s.written && s.fates <= t.fates && t.sh.capacity == s.sh.capacity
    decreases |actions|
  {
    hide Act;
    if actions != [] {
      ActWaits(s, actions[0]);
      SnapshotWaits(Act(s, actions[0]), actions[1..]);
    }
  }

  lemma ActWaits(s: System, a: Action)
    requires s.writer.Snapshot? && a != StoreDiscard
    ensures var t := Act(s, a);
            t.writer == s.writer && t.written == s.written && s.fates <= t.fates && t.sh.capacity == s.sh.capacity
  {
    hide AllDelivered, AllDropped;
  }

  /** By conservation, how much has left the ring is how much is written and not in it. */
  lemma LengthsConserved(s: System)
    requires Inv(s)
    ensures |s.fates| + |s.sh.ring| == |s.written| && |s.sh.ring| <= s.sh.capacity
  {
    hide DeliveredCount;
  }

  /** The state a request leaves behind. */
  lemma RequestStored(capacity: nat, before: seq<Action>, between: seq<Action>)
    requires Run(Start(capacity), before).writer.Idle? && StoreDiscard !in between
    ensures var s := Run(Start(capacity), before);
            var r := Requested(s, between);
            && Inv(s) && Inv(r) && CountsFit(r)
            && r.writer.Nudging? && r.written == s.written && s.fates <= r.fates && r.sh.discard == |s.sh.ring|
            && |s.fates| + |s.sh.ring| == |s.written| == |r.fates| + |r.sh.ring|
            && |s.sh.ring| <= r.sh.capacity == capacity
  {
    hide Run, Inv, CountsFit;
    var s := Run(Start(capacity), before);
    var mid := Run(Act(s, LoadBacklog), between);
    RunKeepsInv(Start(capacity), before) by { StartOk(capacity); }
    RunKeepsCounts(Start(capacity), before) by { StartOk(capacity); }
    StepOk(s, LoadBacklog);
    RunKeepsInv(Act(s, LoadBacklog), between);
    RunKeepsCounts(Act(s, LoadBacklog), between);
    SnapshotWaits(Act(s, LoadBacklog), between);
    StepOk(mid, StoreDiscard);
    LengthsConserved(s);
    LengthsConserved(Act(mid, StoreDiscard));
  }

  lemma StartOk(capacity: nat)
    ensures Inv(Start(capacity)) && CountsFit(Start(capacity))
  {
  }

  lemma StepOk(s: System, a: Action)
    requires Inv(s) && CountsFit(s)
    ensures Inv(Act(s, a)) && CountsFit(Act(s, a)) && Act(s, a).sh.capacity == s.sh.capacity
  {
    hide Act, Conserved, RisingEdges, Wakeable, Roomy, CountsFit;
    ActConserves(s, a);
    ActStaysWakeable(s, a);
    ActKeepsCounts(s, a);
  }

  // ---- how newer audio gets swallowed ----

  const ONE_MORE: seq<Action> := [TakeWaker, Wake, BeginWrite([0]), Push]
  const POP_OUT: seq<Action> := [Skip, ServeFirst, StoreWaker]
  const NEXT_POLL: seq<Action> := [ServeAgain, PutBack, Park, BeginPoll(1)]
  const FIRE: seq<Action> := [SwapDiscard, Skip]

  /** The handle finishes its request and writes one byte. */
  lemma WritesOne(s: System)
    requires s.writer.Nudging? && |s.sh.ring| < s.sh.capacity
    ensures var t := Run(s, ONE_MORE);
            && t.sh.ring == s.sh.ring + [0] && t.sh.discard == s.sh.discard
            && t.reactor == s.reactor && t.fates == s.fates && t.written == s.written + [0]
  {
    hide Run;
    RunFour(s, TakeWaker, Wake, BeginWrite([0]), Push);
    assert [0][..1] == [0];
  }

  lemma RunTwo(s: System, a: Action, b: Action)
    ensures Run(s, [a, b]) == Act(Act(s, a), b)
  {
    hide Act;
    assert [a, b][1..] == [b] && [b][1..] == [];
    assert Run(Act(s, a), [b]) == Act(Act(s, a), b);
  }

  lemma FiresAll(s: System)
    requires s.reactor.Polling? && |s.sh.ring| <= s.sh.discard
    ensures Run(s, FIRE).fates == s.fates + AllDropped(s.sh.ring)
  {
    hide Run, AllDropped;
    RunTwo(s, SwapDiscard, Skip);
    assert s.sh.ring[..|s.sh.ring|] == s.sh.ring;
  }

  /** The first half of the way to the next poll: what can leave the ring here leaves it. */
  lemma PopsOut(s: System)
    ensures var t := Run(s, POP_OUT);
            && !t.reactor.Skipping? && !t.reactor.First? && !t.reactor.Registering?
            && t.writer == s.writer && t.sh.discard == s.sh.discard && t.written == s.written && s.fates <= t.fates
            && (s.sh.ring != [] && !Harmless(s.reactor, |s.sh.ring|) ==>
                  |t.fates| > |s.fates| || (t.reactor.Registered? && t.reactor.room > 0 && t.sh.ring == s.sh.ring))
  {
    hide Run;
    RunThree(s, Skip, ServeFirst, StoreWaker);
    hide Act;
    SkipGrows(s);
    ServeFirstGrows(Act(s, Skip));
    StoreGrows(Act(Act(s, Skip), ServeFirst));
  }

  lemma SkipGrows(s: System)
    ensures var t := Act(s, Skip);
            && t.writer == s.writer && t.sh.discard == s.sh.discard && t.written == s.written && s.fates <= t.fates
            && (if s.reactor.Skipping? then
                  && t.reactor == First(s.reactor.room)
                  && (if s.reactor.n == 0 then t.sh.ring == s.sh.ring else s.sh.ring != [] ==> |t.fates| > |s.fates|)
                else t == s)
  {
  }

  lemma ServeFirstGrows(s: System)
    ensures var t := Act(s, ServeFirst);
            && t.writer == s.writer && t.sh.discard == s.sh.discard && t.written == s.written && s.fates <= t.fates
            && (if s.reactor.First? then
                  && (t.reactor == Awake || t.reactor == Registering(s.reactor.room))
                  && (s.reactor.room > 0 && s.sh.ring != [] ==> |t.fates| > |s.fates|)
                else t == s)
  {
  }

  lemma StoreGrows(s: System)
    ensures var t := Act(s, StoreWaker);
            && t.writer == s.writer && t.sh.discard == s.sh.discard && t.written == s.written && t.fates == s.fates
            && t.sh.ring == s.sh.ring
            && t.reactor == if s.reactor.Registering? then Registered(s.reactor.room) else s.reactor
  {
  }

  /** The second half ends at the start of a poll. */
  lemma NextPolls(s: System)
    requires !s.reactor.Skipping? && !s.reactor.First? && !s.reactor.Registering?
    ensures var t := Run(s, NEXT_POLL);
            && t.reactor.Polling?
            && t.writer == s.writer && t.sh.discard == s.sh.discard && t.written == s.written && s.fates <= t.fates
            && (s.reactor.Registered? && s.reactor.room > 0 && s.sh.ring != [] ==> |t.fates| > |s.fates|)
  {
    hide Run, Act;
    RunFour(s, ServeAgain, PutBack, Park, BeginPoll(1));
    ServeAgainGrows(s);
    BeginsAgain(Act(s, ServeAgain));
  }

  lemma BeginsAgain(s: System)
    requires !s.reactor.Skipping? && !s.reactor.First? && !s.reactor.Registering? && !s.reactor.Registered?
    ensures var t := Act(Act(Act(s, PutBack), Park), BeginPoll(1));
            && t.reactor.Polling? && t.fates == s.fates
            && t.writer == s.writer && t.sh.discard == s.sh.discard && t.written == s.written
  {
  }

  lemma ServeAgainGrows(s: System)
    ensures var t := Act(s, ServeAgain);
            && t.writer == s.writer && t.sh.discard == s.sh.discard && t.written == s.written && s.fates <= t.fates
            && (if s.reactor.Registered? then
                  && (t.reactor == Found || t.reactor == Starving(s.reactor.room))
                  && (s.reactor.room > 0 && s.sh.ring != [] ==> |t.fates| > |s.fates|)
                else t == s)
  {
  }

  /** Once a backlogged byte has left the ring, or is about to, a byte written next goes in its stead. */
  lemma TakenInstead(s: System, r: System) returns (later: seq<Action>)
    requires Inv(r) && r.writer.Nudging? && r.sh.discard == |s.sh.ring| > 0 && r.written == s.written
    requires |s.fates| + |s.sh.ring| == |s.written| && |s.sh.ring| <= r.sh.capacity && s.fates <= r.fates
    requires |r.fates| > |s.fates| || !Harmless(r.reactor, |s.sh.ring|)
    ensures NoRequest(later) && !Spared(Run(r, later), |s.written|)
  {
    hide Run, Inv, Act, Harmless, AllDropped;
    var mark := |s.written|;
    LengthsConserved(r);
    PopsOut(r);
    var t := Run(r, POP_OUT);
    NextPolls(t);
    var u := Run(t, NEXT_POLL);
    RunKeepsInv(r, POP_OUT);
    RunKeepsInv(t, NEXT_POLL);
    LengthsConserved(u);
    assert |u.fates| > |s.fates|;
    WritesOne(u);
    var v := Run(u, ONE_MORE);
    FiresAll(v);
    var w := Run(v, FIRE);
    LastDropped(v.fates, v.sh.ring);
    assert w.fates[mark].Dropped?;
    later := POP_OUT + (NEXT_POLL + (ONE_MORE + FIRE));
    RunAppend(r, POP_OUT, NEXT_POLL + (ONE_MORE + FIRE));
    RunAppend(t, NEXT_POLL, ONE_MORE + FIRE);
    RunAppend(u, ONE_MORE, FIRE);
  }

  lemma LastDropped(fates: seq<Fate>, ring: seq<Byte>)
    requires ring != []
    ensures |fates + AllDropped(ring)| == |fates| + |ring|
    ensures (fates + AllDropped(ring))[|fates| + |ring| - 1].Dropped?
  {
  }

  /** An earlier request still to be carried out takes what is written next into an empty ring. */
  lemma TakenByEarlier(r: System) returns (later: seq<Action>)
    requires Inv(r) && r.writer.Nudging? && r.sh.ring == []
    requires r.reactor.Skipping? && 0 < r.reactor.n <= r.sh.capacity
    ensures NoRequest(later) && !Spared(Run(r, later), |r.written|)
  {
    hide Run, Inv;
    LengthsConserved(r);
    WritesOne(r);
    var t := Run(r, ONE_MORE);
    assert t.sh.ring == [0] && t.sh.ring[..1] == [0];
    var u := Act(t, Skip);
    assert u.fates[|r.written|] == Dropped(0);
    later := ONE_MORE + [Skip];
    RunAppend(r, ONE_MORE, [Skip]);
    RunOne(t, Skip);
  }

  lemma RunOne(s: System, a: Action)
    ensures Run(s, [a]) == Act(s, a)
  {
    hide Act;
    assert [a][1..] == [];
  }

  // ---- the promise ----

  /**
   * Exactly when a request keeps its promise. Take any reachable state, a request made in it, and anything the
   * reactor does between the request's snapshot and its store. Then no continuation without another request
   * ever drops a byte written after the request if and only if nothing left the ring between the two and the
   * reactor stands where nothing can leave it before the next swap.
   */
  lemma DiscardSparesExactly(capacity: nat, before: seq<Action>, between: seq<Action>)
    requires Run(Start(capacity), before).writer.Idle? && StoreDiscard !in between
    ensures var s := Run(Start(capacity), before);
            var r := Requested(s, between);
            (forall later :: NoRequest(later) ==> Spared(Run(r, later), |s.written|))
            <==> |r.fates| == |s.fates| && Harmless(r.reactor, |s.sh.ring|)
  {
    hide Run, Inv, CountsFit, Spared, Harmless, Requested, NoRequest;
    var s := Run(Start(capacity), before);
    var r := Requested(s, between);
    RequestStored(capacity, before, between);
    if |r.fates| == |s.fates| && Harmless(r.reactor, |s.sh.ring|) {
      forall later | NoRequest(later)
        ensures Spared(Run(r, later), |s.written|)
      {
        DropsTheBacklogOnly(capacity, before, between, later);
      }
    } else {
      var later: seq<Action>;
      if s.sh.ring != [] {
        later := TakenInstead(s, r);
      } else {
        EarlierPending(r);
        later := TakenByEarlier(r);
      }
      assert !Spared(Run(r, later), |s.written|);
    }
  }

  lemma EarlierPending(r: System)
    requires !Harmless(r.reactor, 0) && CountsFit(r)
    ensures r.reactor.Skipping? && 0 < r.reactor.n <= r.sh.capacity
  {
  }

  /** And then it drops exactly its backlog: nothing has left the ring yet, or all of it was dropped, and only it. */
  lemma DropsTheBacklogOnly(capacity: nat, before: seq<Action>, between: seq<Action>, later: seq<Action>)
    requires Run(Start(capacity), before).writer.Idle? && StoreDiscard !in between && NoRequest(later)
    requires var s := Run(Start(capacity), before);
             var r := Requested(s, between);
             |r.fates| == |s.fates| && Harmless(r.reactor, |s.sh.ring|)
    ensures var s := Run(Start(capacity), before);
            var x := Run(Requested(s, between), later);
            && (x.fates == s.fates || s.fates + AllDropped(s.sh.ring) <= x.fates)
            && Spared(x, |s.written|)
  {
    hide Run, Inv, CountsFit, Harmless, Requested;
    var s := Run(Start(capacity), before);
    var r := Requested(s, between);
    RequestStored(capacity, before, between);
    SameRing(s, r);
    assert AllDropped([]) == [];
    if s.sh.ring == [] {
      EmptyHarmless(r.reactor);
      assert s.fates + AllDropped(s.sh.ring) == r.fates;
    }
    assert OnTrack(s, r);
    RunStaysOnTrack(s, r, later);
  }

  lemma EmptyHarmless(r: Reactor)
    requires Harmless(r, 0)
    ensures r.Skipping? ==> r.n == 0
  {
  }

  lemma SameRing(s: System, r: System)
    requires Inv(s) && Inv(r) && s.written == r.written && s.fates <= r.fates && |s.fates| == |r.fates|
    ensures s.fates == r.fates && s.sh.ring == r.sh.ring
  {
    hide DeliveredCount;
    var gone := FateBytes(s.fates);
    assert s.sh.ring == s.written[|gone|..] && r.sh.ring == r.written[|gone|..];
  }

  /**
   * What one skip takes, from a request made in `s`: newer audio if and only if the backlog was not empty,
   * part of it has left the ring since, and something newer is in the ring.
   */
  lemma SkipTakesNewerExactly(s: System, t: System)
    requires Inv(s) && Inv(t) && |s.fates| <= |t.fates| && |s.written| <= |t.written|
    requires t.reactor.Skipping? && t.reactor.n == |s.sh.ring|
    ensures var u := Act(t, Skip);
            |u.fates| > |t.fates| && |u.fates| > |s.written|
            <==> s.sh.ring != [] && t.sh.ring != [] && |t.fates| > |s.fates| && |t.written| > |s.written|
  {
    LengthsConserved(s);
    LengthsConserved(t);
    hide Inv;
  }

  /**
   * The documented promise fails in the ordinary case: a poll is past its swap when the request is made, with
   * nothing in between, and serves the backlog; what is written next is swallowed by the following poll.
   */
  lemma LaterAudioSwallowed()
    ensures var s := Run(Run(Start(4), [BeginWrite([7]), Push, TakeWaker, Wake]), [BeginPoll(1), SwapDiscard, Skip]);
            var r := Act(Act(Requested(s, []), TakeWaker), Wake);
            var t := Run(Act(r, ServeFirst), [BeginWrite([8]), Push, TakeWaker, Wake]);
            var u := Run(t, [BeginPoll(1), SwapDiscard, Skip]);
            s.written == [7] && u.written == [7, 8] && u.fates == [Delivered(7), Dropped(8)]
  {
    hide Run, Act, Requested;
    WritesWhole(Start(4), 7);
    var s0 := Run(Start(4), [BeginWrite([7]), Push, TakeWaker, Wake]);
    PollFires(s0);
    var s := Run(s0, [BeginPoll(1), SwapDiscard, Skip]);
    RequestsNow(s);
    var r := Act(Act(Requested(s, []), TakeWaker), Wake);
    ServesOne(r);
    var served := Act(r, ServeFirst);
    WritesWhole(served, 8);
    PollFires(Run(served, [BeginWrite([8]), Push, TakeWaker, Wake]));
  }

  lemma WritesWhole(s: System, b: Byte)
    requires s.writer.Idle? && |s.sh.ring| < s.sh.capacity
    ensures var t := Run(s, [BeginWrite([b]), Push, TakeWaker, Wake]);
            && t.sh.ring == s.sh.ring + [b] && t.sh.discard == s.sh.discard && t.sh.capacity == s.sh.capacity
            && t.reactor == s.reactor && t.fates == s.fates && t.written == s.written + [b] && t.writer.Idle?
  {
    hide Run;
    RunFour(s, BeginWrite([b]), Push, TakeWaker, Wake);
    assert [b][..1] == [b];
  }

  /** A poll taken as far as its skip, over at most one byte. */
  lemma PollFires(s: System)
    requires s.reactor.Awake? && |s.sh.ring| == 1 && s.sh.discard <= 1
    ensures var t := Run(s, [BeginPoll(1), SwapDiscard, Skip]);
            && t.sh.ring == (if s.sh.discard == 0 then s.sh.ring else []) && t.sh.discard == 0
            && t.fates == s.fates + (if s.sh.discard == 0 then [] else [Dropped(s.sh.ring[0])])
            && t.sh.capacity == s.sh.capacity && t.reactor == First(1) && t.written == s.written && t.writer == s.writer
  {
    hide Run;
    RunThree(s, BeginPoll(1), SwapDiscard, Skip);
    assert s.sh.ring[..1] == s.sh.ring && s.sh.ring[1..] == [] && s.sh.ring[..0] == [];
  }

  lemma RequestsNow(s: System)
    requires s.writer.Idle?
    ensures var r := Act(Act(Requested(s, []), TakeWaker), Wake);
            && r.sh.ring == s.sh.ring && r.sh.discard == |s.sh.ring| && r.sh.capacity == s.sh.capacity
            && r.reactor == s.reactor && r.fates == s.fates && r.written == s.written && r.writer.Idle?
  {
    assert Run(Act(s, LoadBacklog), []) == Act(s, LoadBacklog);
  }

  lemma ServesOne(s: System)
    requires s.reactor == First(1) && |s.sh.ring| == 1
    ensures var t := Act(s, ServeFirst);
            && t.sh.ring == [] && t.sh.discard == s.sh.discard && t.sh.capacity == s.sh.capacity
            && t.reactor == Awake && t.fates == s.fates + [Delivered(s.sh.ring[0])]
            && t.written == s.written && t.writer == s.writer
  {
    assert s.sh.ring[..1] == s.sh.ring && s.sh.ring[1..] == [];
  }
}
