/** In-place channel routing of interleaved frames through a one-frame scratch buffer. */
module Routing {
  import opened Wrappers

  datatype Channel =
    | FrontLeft
    | FrontRight
    | Center
    | Lfe
    | SurroundLeft
    | SurroundRight
    | BackLeft
    | BackRight

  function StandardIndex(c: Channel): (i: nat)
    ensures i < 8
  {
    match c
    case FrontLeft => 0
    case FrontRight => 1
    case Center => 2
    case Lfe => 3
    case SurroundLeft => 4
    case SurroundRight => 5
    case BackLeft => 6
    case BackRight => 7
  }

  function ChannelAt(i: nat): (c: Channel)
    requires i < 8
    ensures StandardIndex(c) == i
  {
    [FrontLeft, FrontRight, Center, Lfe, SurroundLeft, SurroundRight, BackLeft, BackRight][i]
  }

  /** A logical channel, and the physical slot it goes to. */
  datatype Mapping = Mapping(logical: Channel, physical: nat)

  /** Which slot of the original frame ends up in slot `slot`: the last mapping in range wins, else the slot itself. */
  function Source(routing: seq<Mapping>, channels: nat, slot: nat): (src: nat)
    requires slot < channels
    ensures src < channels
    decreases |routing|
  {
    if routing == [] then slot
    else
      var last := routing[|routing| - 1];
      if last.physical == slot && StandardIndex(last.logical) < channels then StandardIndex(last.logical)
      else Source(routing[..|routing| - 1], channels, slot)
  }

  function RouteFrame<T>(routing: seq<Mapping>, frame: seq<T>): (r: seq<T>)
    ensures |r| == |frame|
    ensures forall slot :: 0 <= slot < |frame| ==> r[slot] == frame[Source(routing, |frame|, slot)]
  {
    seq(|frame|, slot requires 0 <= slot < |frame| => frame[Source(routing, |frame|, slot)])
  }

  /** Every whole frame routed on its own; a partial frame at the end is left alone. */
  function RouteAll<T>(routing: seq<Mapping>, buf: seq<T>, channels: nat): (r: seq<T>)
    requires channels > 0
    ensures |r| == |buf|
    decreases |buf|
  {
    if |buf| < channels then buf
    else RouteFrame(routing, buf[..channels]) + RouteAll(routing, buf[channels..], channels)
  }

  method ApplyInterleaved<T>(routing: seq<Mapping>, buf: array<T>, channels: nat)
    modifies buf
    ensures buf[..] == if channels == 0 then old(buf[..]) else RouteAll(routing, old(buf[..]), channels)
  {
    if channels == 0 {
      return;
    }
    if |routing| == 0 {
      NoRouting(buf[..], channels);
      return;
    }
    hide RouteFrame, RouteAll;
    ghost var all := RouteAll(routing, buf[..], channels);
    var base := 0;
    Turned(routing, buf[..], 0, channels);
    while base + channels <= buf.Length
      invariant 0 <= base <= buf.Length
      invariant PartRouted(routing, buf[..], base, channels) == all
      decreases buf.Length - base
    {
      ghost var before := buf[..];
      RouteFrameAt(routing, buf, base, channels);
      OneTurn(routing, before, buf[..], base, channels);
      base := base + channels;
    }
    Turned(routing, buf[..], base, channels);
  }

  /** A buffer routed up to `base`, as it will be in the end. */
  function PartRouted<T>(routing: seq<Mapping>, s: seq<T>, base: nat, channels: nat): seq<T>
    requires channels > 0 && base <= |s|
  {
    s[..base] + RouteAll(routing, s[base..], channels)
  }

  lemma Turned<T>(routing: seq<Mapping>, s: seq<T>, base: nat, channels: nat)
    requires channels > 0 && base <= |s|
    ensures base == 0 ==> PartRouted(routing, s, base, channels) == RouteAll(routing, s, channels)
    ensures |s| < base + channels ==> PartRouted(routing, s, base, channels) == s
  {
    assert s[..base] + s[base..] == s;
    assert s[0..] == s;
  }

  /** One turn of the loop: the next frame is still the original one, and routing it leaves the rest as it was. */
  lemma OneTurn<T>(routing: seq<Mapping>, s: seq<T>, t: seq<T>, base: nat, channels: nat)
    requires channels > 0 && base + channels <= |s| == |t|
    requires t == s[..base] + RouteFrame(routing, s[base..base + channels]) + s[base + channels..]
    ensures PartRouted(routing, t, base + channels, channels) == PartRouted(routing, s, base, channels)
  {
    hide RouteFrame;
    var routed := RouteFrame(routing, s[base..base + channels]);
    assert s[base..][..channels] == s[base..base + channels] && s[base..][channels..] == s[base + channels..];
    assert t[..base + channels] == s[..base] + routed && t[base + channels..] == s[base + channels..];
    Assoc(s[..base], routed, RouteAll(routing, s[base + channels..], channels));
  }

  lemma RouteAllStep<T>(routing: seq<Mapping>, s: seq<T>, channels: nat)
    requires 0 < channels <= |s|
    ensures RouteAll(routing, s, channels)
         == RouteFrame(routing, s[..channels]) + RouteAll(routing, s[channels..], channels)
  {
  }

  method RouteFrameAt<T>(routing: seq<Mapping>, buf: array<T>, base: nat, channels: nat)
    requires base + channels <= buf.Length
    modifies buf
    ensures var was := old(buf[..]);
            buf[..] == was[..base] + RouteFrame(routing, was[base..base + channels]) + was[base + channels..]
  {
    hide RouteFrame;
    var frame := buf[base..base + channels];
    assert frame == buf[..][base..base + channels];
    var scratch := RouteScratch(routing, frame);
    CopyInto(buf, base, scratch);
  }

  /** The frame copied as it is, then overwritten slot by slot, always from the original. */
  method RouteScratch<T>(routing: seq<Mapping>, frame: seq<T>) returns (scratch: seq<T>)
    ensures scratch == RouteFrame(routing, frame)
  {
    scratch := frame;
    var channels := |frame|;
    for k := 0 to |routing|
      invariant scratch == RouteFrame(routing[..k], frame)
    {
      var src := StandardIndex(routing[k].logical);
      if src < channels && routing[k].physical < channels {
        scratch := scratch[routing[k].physical := frame[src]];
      }
      RoutedOneMore(routing, frame, k);
    }
    assert routing[..|routing|] == routing;
  }

  method CopyInto<T>(buf: array<T>, base: nat, scratch: seq<T>)
    requires base + |scratch| <= buf.Length
    modifies buf
    ensures buf[..] == old(buf[..])[..base] + scratch + old(buf[..])[base + |scratch|..]
  {
    forall i | 0 <= i < |scratch| {
      buf[base + i] := scratch[i];
    }
  }

  /** One more mapping overwrites at most its own slot, and always from the original frame. */
  lemma RoutedOneMore<T>(routing: seq<Mapping>, frame: seq<T>, k: nat)
    requires k < |routing|
    ensures var src, before := StandardIndex(routing[k].logical), RouteFrame(routing[..k], frame);
            RouteFrame(routing[..k + 1], frame)
            == if src >= |frame| || routing[k].physical >= |frame| then before
                else before[routing[k].physical := frame[src]]
  {
    assert routing[..k + 1][..k] == routing[..k];
  }

  lemma {:induction false} NoRouting<T>(buf: seq<T>, channels: nat)
    requires channels > 0
    ensures RouteAll([], buf, channels) == buf
    decreases |buf|
  {
    if |buf| >= channels {
      NoRouting(buf[channels..], channels);
      assert RouteFrame([], buf[..channels]) == buf[..channels];
      assert buf[..channels] + buf[channels..] == buf;
    }
  }

  // ---- what routing does to a whole buffer ----

  /** Slot `slot` of frame `f` gets the sample of the same frame that its routing names. */
  lemma {:induction false} RoutedAt<T>(routing: seq<Mapping>, buf: seq<T>, channels: nat, f: nat, slot: nat)
    requires slot < channels && f * channels + channels <= |buf|
    ensures f * channels + slot < |buf| && f * channels + Source(routing, channels, slot) < |buf|
    ensures RouteAll(routing, buf, channels)[f * channels + slot] == buf[f * channels + Source(routing, channels, slot)]
    decreases f
  {
    hide Source, RouteAll;
    RouteAllStep(routing, buf, channels);
    if f > 0 {
      var prev := (f - 1) * channels;
      var head, rest := buf[..channels], buf[channels..];
      assert f * channels == channels + prev;
      RoutedAt(routing, rest, channels, f - 1, slot);
      InTail(RouteFrame(routing, head), RouteAll(routing, rest, channels), prev + slot);
    }
  }

  lemma InTail<T>(a: seq<T>, b: seq<T>, i: nat)
    requires i < |b|
    ensures (a + b)[|a| + i] == b[i]
  {
  }

  /** Two routings in a row are one lookup after the other, for every slot of every frame. */
  lemma {:induction false} RouteTwice<T>(first: seq<Mapping>, second: seq<Mapping>, buf: seq<T>, channels: nat)
    requires channels > 0
    requires forall slot :: 0 <= slot < channels ==> Source(first, channels, Source(second, channels, slot)) == slot
    ensures RouteAll(second, RouteAll(first, buf, channels), channels) == buf
    decreases |buf|
  {
    if |buf| >= channels {
      var head, rest := buf[..channels], buf[channels..];
      var once := RouteFrame(first, head);
      RouteTwice(first, second, rest, channels);
      assert (once + RouteAll(first, rest, channels))[..channels] == once;
      assert (once + RouteAll(first, rest, channels))[channels..] == RouteAll(first, rest, channels);
      assert RouteFrame(second, once) == head;
      assert head + rest == buf;
    }
  }

  /** The logical slots and the physical slots are the same, each used once, and all of them in the frame. */
  predicate IsSlotPermutation(routing: seq<Mapping>, channels: nat) {
    && (forall i :: 0 <= i < |routing| ==> routing[i].physical < channels && routing[i].physical < 8
                                           && StandardIndex(routing[i].logical) < channels)
    && (forall i, j :: 0 <= i < j < |routing| ==> routing[i].physical != routing[j].physical
                                                  && routing[i].logical != routing[j].logical)
    && (forall i :: 0 <= i < |routing| ==> IsOrigin(routing, routing[i].physical))
  }

  predicate IsOrigin(routing: seq<Mapping>, slot: nat) {
    exists j :: 0 <= j < |routing| && StandardIndex(routing[j].logical) == slot
  }

  /** Every mapping turned round. */
  function Inverse(routing: seq<Mapping>): (r: seq<Mapping>)
    requires forall i :: 0 <= i < |routing| ==> routing[i].physical < 8
    ensures |r| == |routing|
    ensures forall i :: 0 <= i < |r| ==>
              StandardIndex(r[i].logical) == routing[i].physical && r[i].physical == StandardIndex(routing[i].logical)
  {
    seq(|routing|, i requires 0 <= i < |routing| =>
      Mapping(ChannelAt(routing[i].physical), StandardIndex(routing[i].logical)))
  }

  lemma {:induction false} SourceOf(routing: seq<Mapping>, channels: nat, i: nat)
    requires i < |routing| && routing[i].physical < channels && StandardIndex(routing[i].logical) < channels
    requires forall j :: i < j < |routing| ==> routing[j].physical != routing[i].physical
    ensures Source(routing, channels, routing[i].physical) == StandardIndex(routing[i].logical)
    decreases |routing|
  {
    if i < |routing| - 1 {
      SourceOf(routing[..|routing| - 1], channels, i);
    }
  }

  lemma {:induction false} SourceUnrouted(routing: seq<Mapping>, channels: nat, slot: nat)
    requires slot < channels && forall j :: 0 <= j < |routing| ==> routing[j].physical != slot
    ensures Source(routing, channels, slot) == slot
    decreases |routing|
  {
    if routing != [] {
      SourceUnrouted(routing[..|routing| - 1], channels, slot);
    }
  }

  /** A permutation of slots followed by its inverse restores every buffer, partial frame included. */
  lemma InverseRestores<T>(routing: seq<Mapping>, buf: seq<T>, channels: nat)
    requires channels > 0 && IsSlotPermutation(routing, channels)
    ensures RouteAll(Inverse(routing), RouteAll(routing, buf, channels), channels) == buf
  {
    var inverse := Inverse(routing);
    forall slot | 0 <= slot < channels
      ensures Source(routing, channels, Source(inverse, channels, slot)) == slot
    {
      SlotRestored(routing, channels, slot);
    }
    hide Source, Inverse, IsSlotPermutation;
    RouteTwice(routing, inverse, buf, channels);
  }

  lemma SlotRestored(routing: seq<Mapping>, channels: nat, slot: nat)
    requires slot < channels && IsSlotPermutation(routing, channels)
    ensures Source(routing, channels, Source(Inverse(routing), channels, slot)) == slot
  {
    hide Source, IsOrigin, StandardIndex;
    var inverse := Inverse(routing);
    if IsOrigin(routing, slot) {
      var i := OriginAt(routing, slot);
      DistinctIndices(routing);
      SourceOf(inverse, channels, i);
      SourceOf(routing, channels, i);
    } else {
      NotOrigin(routing, slot);
      SourceUnrouted(inverse, channels, slot);
      SourceUnrouted(routing, channels, slot);
    }
  }

  lemma OriginAt(routing: seq<Mapping>, slot: nat) returns (i: nat)
    requires IsOrigin(routing, slot)
    ensures i < |routing| && StandardIndex(routing[i].logical) == slot
  {
    i :| i < |routing| && StandardIndex(routing[i].logical) == slot;
  }

  lemma NotOrigin(routing: seq<Mapping>, slot: nat)
    requires !IsOrigin(routing, slot)
    ensures forall i :: 0 <= i < |routing| ==> StandardIndex(routing[i].logical) != slot
  {
  }

  lemma DistinctIndices(routing: seq<Mapping>)
    requires forall i, j :: 0 <= i < j < |routing| ==> routing[i].logical != routing[j].logical
    ensures forall i, j :: 0 <= i < j < |routing| ==>
              StandardIndex(routing[i].logical) != StandardIndex(routing[j].logical)
  {
  }

  /** Every channel where the standard order has it. */
  const SURROUND: seq<Mapping> :=
    [Mapping(FrontLeft, 0), Mapping(FrontRight, 1), Mapping(Center, 2), Mapping(Lfe, 3),
     Mapping(SurroundLeft, 4), Mapping(SurroundRight, 5), Mapping(BackLeft, 6), Mapping(BackRight, 7)]

  /** The standard surround routing changes no buffer, however many channels it has. */
  lemma {:induction false} SurroundIsIdentity<T>(buf: seq<T>, channels: nat)
    requires channels > 0
    ensures RouteAll(SURROUND, buf, channels) == buf
    decreases |buf|
  {
    if |buf| >= channels {
      var frame := buf[..channels];
      forall slot | 0 <= slot < channels
        ensures Source(SURROUND, channels, slot) == slot
      {
        SurroundSource(8, channels, slot);
      }
      assert RouteFrame(SURROUND, frame) == frame;
      SurroundIsIdentity(buf[channels..], channels);
      assert frame + buf[channels..] == buf;
    }
  }

  lemma {:induction false} SurroundSource(n: nat, channels: nat, slot: nat)
    requires n <= 8 && slot < channels
    ensures Source(SURROUND[..n], channels, slot) == slot
    ensures SURROUND[..8] == SURROUND
    decreases n
  {
    if n > 0 {
      assert SURROUND[..n][..n - 1] == SURROUND[..n - 1];
      SurroundSource(n - 1, channels, slot);
    }
  }
}
