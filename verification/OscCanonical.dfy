/**
 * What the decoder accepts: every decoded packet is one the encoder can carry, so decoding what was
 * re-encoded gives it back, whatever padding, tag string or trailing bytes the input had.
 */
module OscCanonical {
  import opened Bytes
  import opened Wrappers
  import opened OscPacket
  import opened OscDecode
  import opened OscRoundTrip
  import Utf8

  // ---- the tag machine, read backwards ----

  /** The tags that led to a stack: each open list's own, with the brackets still open between them. */
  function FlatTags(stack: Stack): seq<Byte>
    decreases |stack|
  {
    var top := |stack| - 1;
    if top == 0 then Tags(stack[0]) else FlatTags(stack[..top]) + [OPEN] + Tags(stack[top])
  }

  /** How many argument bytes the lists of a stack take. */
  function FlatLen(stack: Stack): nat
    decreases |stack|
  {
    var top := |stack| - 1;
    if top == 0 then |ArgsBytes(stack[0])| else FlatLen(stack[..top]) + |ArgsBytes(stack[top])|
  }

  /** Every open list still leaves room for the brackets opened around it. */
  predicate StackOk(stack: Stack) {
    && |stack| <= MAX_NESTING_DEPTH
    && forall i :: 0 <= i < |stack| ==> ArgsOk(stack[i], MAX_NESTING_DEPTH - 1 - i)
  }

  lemma FlatPushed(stack: Stack, args: seq<Arg>)
    ensures FlatTags(Pushed(stack, args)) == FlatTags(stack) + Tags(args)
    ensures FlatLen(Pushed(stack, args)) == FlatLen(stack) + |ArgsBytes(args)|
  {
    var top := |stack| - 1;
    assert Pushed(stack, args)[..top] == stack[..top];
    TagsAppend(stack[top], args);
    ArgsBytesAppend(stack[top], args);
    if top > 0 {
      Assoc(FlatTags(stack[..top]) + [OPEN], Tags(stack[top]), Tags(args));
    }
  }

  lemma StackOkPushed(stack: Stack, args: seq<Arg>)
    requires StackOk(stack) && ArgsOk(args, MAX_NESTING_DEPTH - |stack|)
    ensures StackOk(Pushed(stack, args))
  {
    ArgsOkAppend(stack[|stack| - 1], args, MAX_NESTING_DEPTH - |stack|);
  }

  /** A leaf read from the wire carries its own tag, is well formed and re-encodes to what it took. */
  lemma LeafInverts(data: seq<Byte>, pos: nat, tag: nat)
    requires ReadSingleArg(data, pos, tag).Got? && pos % 4 == 0
    ensures var r := ReadSingleArg(data, pos, tag);
            && IsLeaf(r.value) && ArgOk(r.value, 0) && TypeTag(r.value) == tag
            && r.next == pos + |ArgBytes(r.value)|
            && r.next % 4 == 0
            && (r.next == pos || r.next <= |data| + 3)
  {
    hide PadLen, Align4, FromBe32, FromBe64, Be32, Be64, FromU32, ToU32, FromU64, ToU64;
    if tag == 0x73 {
      StrInverts(data, pos);
    } else if tag == 0x62 {
      BlobInverts(data, pos);
    }
  }

  lemma StrInverts(data: seq<Byte>, pos: nat)
    requires ReadStr(data, pos).Got? && pos % 4 == 0
    ensures var r := ReadStr(data, pos);
            TextOk(r.value) && r.next == pos + |StrBytes(r.value)| && r.next % 4 == 0 && r.next <= |data| + 3
            && pos + |r.value| < |data| && data[pos..pos + |r.value|] == r.value
  {
    AlignedEnd(pos, |ReadStr(data, pos).value| + 1);
  }

  lemma BlobInverts(data: seq<Byte>, pos: nat)
    requires ReadBlob(data, pos).Got? && pos % 4 == 0
    ensures var r := ReadBlob(data, pos);
            r.next == pos + |BlobBytes(r.value)| && r.next % 4 == 0 && r.next <= |data| + 3
  {
    AlignedEnd(pos + 4, |ReadBlob(data, pos).value|);
  }

  /** One accepted tag: the flattened stack grows by exactly that tag and the bytes it consumed. */
  lemma StepInverts(data: seq<Byte>, pos: nat, tag: nat, stack: Stack)
    requires StackOk(stack) && pos % 4 == 0 && StepTag(data, pos, tag, stack).Got?
    ensures var r := StepTag(data, pos, tag, stack);
            && tag < 256 && StackOk(r.value)
            && FlatTags(r.value) == FlatTags(stack) + [tag]
            && FlatLen(r.value) + pos == FlatLen(stack) + r.next
            && r.next % 4 == 0 && (r.next == pos || r.next <= |data| + 3)
  {
    hide ReadSingleArg, Pushed;
    var top := |stack| - 1;
    if tag == OPEN {
      assert (stack + [[]])[..|stack|] == stack;
      assert FlatTags(stack) + [OPEN] + [] == FlatTags(stack) + [OPEN];
    } else if tag == CLOSE {
      var outer, inner := stack[..top], stack[top];
      FlatPushed(outer, [Array(inner)]);
      StackOkPushed(outer, [Array(inner)]);
      CloseFlat(FlatTags(outer), inner);
      ArrayLen(inner);
    } else {
      LeafInverts(data, pos, tag);
      var arg := ReadSingleArg(data, pos, tag).value;
      FlatPushed(stack, [arg]);
      assert ArgOk(arg, MAX_NESTING_DEPTH - |stack|) && Tags([arg]) == [tag];
      assert ArgsBytes([arg]) == ArgBytes(arg) + [];
      StackOkPushed(stack, [arg]);
    }
  }

  lemma CloseFlat(before: seq<Byte>, inner: seq<Arg>)
    ensures before + Tags([Array(inner)]) == before + [OPEN] + Tags(inner) + [CLOSE]
  {
    assert Tags([Array(inner)]) == [OPEN] + Tags(inner) + [CLOSE];
  }

  lemma ArrayLen(inner: seq<Arg>)
    ensures |ArgsBytes([Array(inner)])| == |ArgsBytes(inner)|
  {
    assert ArgsBytes([Array(inner)]) == ArgsBytes(inner) + [];
  }

  /**
   * A run that ends well is the flattening undone: the arguments' tags are exactly the tags read, their
   * bytes take exactly the bytes consumed, and they nest no deeper than the cap.
   */
  lemma {:induction false} RunInverts(data: seq<Byte>, pos: nat, tags: seq<nat>, stack: Stack)
    requires StackOk(stack) && pos % 4 == 0 && RunTags(data, pos, tags, stack).Got?
    ensures var r := RunTags(data, pos, tags, stack);
            && ArgsOk(r.value, MAX_NESTING_DEPTH - 1)
            && Tags(r.value) == FlatTags(stack) + tags
            && |ArgsBytes(r.value)| + pos == FlatLen(stack) + r.next
            && (r.next == pos || r.next <= |data| + 3)
    decreases |tags|
  {
    hide StepTag, FlatTags, FlatLen, StackOk;
    if tags == [] {
      RunEnds(data, pos, stack);
    } else {
      StepInverts(data, pos, tags[0], stack);
      var r := StepTag(data, pos, tags[0], stack);
      RunInverts(data, r.next, tags[1..], r.value);
      assert FlatTags(stack) + [tags[0]] + tags[1..] == FlatTags(stack) + tags;
    }
  }

  lemma RunEnds(data: seq<Byte>, pos: nat, stack: Stack)
    requires StackOk(stack) && |stack| == 1
    ensures ArgsOk(stack[0], MAX_NESTING_DEPTH - 1)
    ensures Tags(stack[0]) == FlatTags(stack) + [] && |ArgsBytes(stack[0])| == FlatLen(stack)
  {
  }

  /** Brackets that close what they open, `open` of them from before, and never more than `cap` at once. */
  predicate Balanced(tags: seq<nat>, open: nat, cap: nat)
    decreases |tags|
  {
    if tags == [] then open == 0
    else if tags[0] == OPEN then open < cap && Balanced(tags[1..], open + 1, cap)
    else if tags[0] == CLOSE then open > 0 && Balanced(tags[1..], open - 1, cap)
    else Balanced(tags[1..], open, cap)
  }

  /** Every accepted tag string balances its brackets and never has more than 31 of them open. */
  lemma {:induction false} AcceptedTagsBalance(data: seq<Byte>, pos: nat, tags: seq<nat>, stack: Stack)
    requires RunTags(data, pos, tags, stack).Got?
    ensures Balanced(tags, |stack| - 1, MAX_NESTING_DEPTH - 1)
    decreases |tags|
  {
    hide ReadSingleArg;
    if tags != [] {
      var step := StepTag(data, pos, tags[0], stack);
      AcceptedTagsBalance(data, step.next, tags[1..], step.value);
    }
  }

  // ---- whole packets ----

  /** The tag string read is no shorter on the wire than the one written back. */
  lemma TagsInvert(data: seq<Byte>, pos: nat)
    requires ReadTags(data, pos).Got? && pos % 4 == 0 && pos <= |data| + 3
    ensures var r := ReadTags(data, pos);
            && r.next % 4 == 0 && r.next <= |data| + 3
            && ((r.next == pos && r.value == []) || r.next >= pos + PaddedLen(|r.value| + 2))
  {
    hide Align4;
    if pos < |data| && data[pos] == COMMA {
      StrInverts(data, pos);
      var raw := ReadStr(data, pos).value;
      var chars := Utf8.Chars(raw);
      assert raw != [] && |chars.value| <= |raw|;
      PaddedLenMonotone(|chars.value| + 1, |raw| + 1);
    }
  }

  function PaddedLen(n: nat): nat {
    n + PadLen(n)
  }

  lemma PaddedLenMonotone(m: nat, n: nat)
    requires m <= n
    ensures PaddedLen(m) <= PaddedLen(n)
  {
  }

  lemma MessageInverts(data: seq<Byte>)
    requires DecodeMessage(data).Ok? && data != [] && data[0] == SLASH
    ensures var p := DecodeMessage(data).value;
            PacketOk(p, 0) && p.Message? && |PacketBytes(p)| <= |data| + 7 && |data| >= 2
  {
    hide ReadStr, ReadTags, RunTags, TextOk;
    StrInverts(data, 0);
    var head := ReadStr(data, 0);
    assert head.value != [] && head.value[0] == SLASH by {
      AddressStarts(data);
    }
    TagsInvert(data, head.next);
    var tags := ReadTags(data, head.next);
    FirstStackOk();
    RunInverts(data, tags.next, tags.value, [[]]);
    var args := RunTags(data, tags.next, tags.value, [[]]);
    assert Tags(args.value) == tags.value by {
      assert [] + tags.value == tags.value;
    }
    MessageLen(head.value, args.value);
  }

  lemma AddressStarts(data: seq<Byte>)
    requires ReadStr(data, 0).Got? && data != [] && data[0] == SLASH
    ensures ReadStr(data, 0).value != [] && ReadStr(data, 0).value[0] == SLASH
  {
  }

  lemma FirstStackOk()
    ensures StackOk([[]]) && FlatTags([[]]) == [] && FlatLen([[]]) == 0
  {
  }

  lemma MessageLen(address: seq<Byte>, args: seq<Arg>)
    ensures |MessageBytes(address, args)| == |StrBytes(address)| + PaddedLen(|Tags(args)| + 2) + |ArgsBytes(args)|
  {
  }

  /** Whatever decodes is in the encoder's domain, and re-encodes to at most three times its size. */
  lemma {:induction false} PacketInverts(data: seq<Byte>, depth: nat)
    requires DecodeAt(data, depth).Ok?
    ensures var p := DecodeAt(data, depth).value;
            PacketOk(p, depth) && |PacketBytes(p)| <= 3 * |data| + 4
    decreases |data|, |data| + 1
  {
    hide DecodeMessage, ReadTime, TimeBytes, MessageBytes, ArgsOk, TextOk;
    if BUNDLE_TAG <= data {
      TimeInverts(data, 8);
      ElementsInvert(data, 16, depth);
    } else {
      MessageInverts(data);
    }
  }

  lemma TimeInverts(data: seq<Byte>, pos: nat)
    requires ReadTime(data, pos).Got?
    ensures ReadTime(data, pos).next == pos + 8 <= |data|
  {
  }

  lemma {:induction false} ElementsInvert(data: seq<Byte>, pos: nat, depth: nat)
    requires 16 <= pos <= |data| && DecodeElements(data, pos, depth).Ok?
    ensures var elements := DecodeElements(data, pos, depth).value;
            ElementsOk(elements, depth + 1) && |ElementsBytes(elements)| <= 3 * (|data| - pos)
    decreases |data|, |data| - pos
  {
    hide DecodeAt, ReadSized, PacketOk, PacketBytes;
    if pos < |data| {
      var sized := ReadSized(data, pos);
      PacketInverts(sized.value, depth + 1);
      ElementsInvert(data, sized.next, depth);
      var p := DecodeAt(sized.value, depth + 1).value;
      var rest := DecodeElements(data, sized.next, depth).value;
      assert ([p] + rest)[1..] == rest;
    }
  }

  // ---- the main theorems ----

  /**
   * The round trip, exactly: a packet whose encoding stays below 4 GiB comes back from the wire if and
   * only if its addresses start with '/', its text is NUL-free UTF-8, its characters are scalar values and
   * its arrays and bundles nest within the caps.
   */
  lemma RoundTripExactly(p: Packet)
    requires |PacketBytes(p)| < LIMIT
    ensures Decode(PacketBytes(p)) == Ok(p) <==> PacketOk(p, 0)
  {
    if PacketOk(p, 0) {
      PacketRoundTrip(p, 0);
    }
    if Decode(PacketBytes(p)) == Ok(p) {
      PacketInverts(PacketBytes(p), 0);
    }
  }

  /** Decoding is canonicalising: any input under 1 GiB that decodes is one re-encoding away from a fixed point. */
  lemma DecodeCanonicalises(data: seq<Byte>)
    requires |data| < 0x4000_0000 && Decode(data).Ok?
    ensures PacketOk(Decode(data).value, 0)
    ensures Decode(PacketBytes(Decode(data).value)) == Decode(data)
  {
    PacketInverts(data, 0);
    PacketRoundTrip(Decode(data).value, 0);
  }
}
