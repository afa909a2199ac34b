/** The decoder on every input: it returns a packet exactly when the bytes spell one the encoder can carry. */
module OscExact {
  import opened Bytes
  import opened Wrappers
  import opened OscPacket
  import opened OscDecode
  import opened OscSpelling
  import opened OscRoundTrip
  import opened OscCanonical
  import Utf8

  // ---- the bytes behind the machine ----

  lemma WordRead(data: seq<Byte>, pos: nat)
    requires ReadU32(data, pos).Got?
    ensures WordAt(data, pos, ReadU32(data, pos).value)
  {
    WordIsBe32(data, pos, 0);
  }

  lemma WordsRead(data: seq<Byte>, pos: nat)
    requires ReadU64(data, pos).Got?
    ensures WordsAt(data, pos, ReadU64(data, pos).value)
  {
    var hi, lo := FromBe32(data[pos..pos + 4]), FromBe32(data[pos + 4..pos + 8]);
    WordIsBe32(data, pos, 0);
    WordIsBe32(data, pos + 4, 0);
    hide FromBe32, WordAt;
    assert data[pos..pos + 8][..4] == data[pos..pos + 4] && data[pos..pos + 8][4..] == data[pos + 4..pos + 8];
    var v := ReadU64(data, pos).value;
    assert v == hi as int * 0x1_0000_0000 + lo;
    assert v / 0x1_0000_0000 == hi && v % 0x1_0000_0000 == lo;
  }

  lemma StrRead(data: seq<Byte>, pos: nat)
    requires ReadStr(data, pos).Got? && pos % 4 == 0
    ensures StrAt(data, pos, ReadStr(data, pos).value)
    ensures ReadStr(data, pos).next == pos + StrWidth(ReadStr(data, pos).value)
  {
    hide Align4, PadLen, Utf8.Valid;
    var s := ReadStr(data, pos).value;
    assert data[pos..pos + |s| + 1] == s + [0];
    AlignedEnd(pos, |s| + 1);
    hide NextWord;
  }

  /** A leaf read from the wire stands there under its own letter. */
  lemma LeafSpelt(data: seq<Byte>, pos: nat, tag: nat)
    requires ReadSingleArg(data, pos, tag).Got? && pos % 4 == 0
    ensures IsLeaf(ReadSingleArg(data, pos, tag).value) && ArgAt(data, pos, ReadSingleArg(data, pos, tag).value)
  {
    hide FromBe32, FromBe64, WordAt, WordsAt, StrAt, ReadU32, ReadU64, ReadStr;
    if tag == 0x73 {
      StrRead(data, pos);
    } else if tag == 0x68 || tag == 0x64 {
      WordsRead(data, pos);
    } else if tag == 0x74 {
      WordRead(data, pos);
      U32Next(data, pos);
      WordRead(data, pos + 4);
    } else if tag == 0x69 || tag == 0x66 || tag == 0x62 || tag == 0x63 {
      WordRead(data, pos);
      U32Next(data, pos);
    } else if tag == 0x72 || tag == 0x6D {
      assert data[pos..pos + 4] == [data[pos], data[pos + 1], data[pos + 2], data[pos + 3]];
    }
  }

  lemma U32Next(data: seq<Byte>, pos: nat)
    requires ReadU32(data, pos).Got?
    ensures ReadU32(data, pos).next == pos + 4
  {
  }

  /** The bytes of the lists of a stack, one list after the other from `start` on. */
  ghost predicate FlatAt(data: seq<Byte>, start: nat, stack: Stack)
    decreases |stack|
  {
    var top := |stack| - 1;
    if top == 0 then ArgsAt(data, start, stack[0])
    else FlatAt(data, start, stack[..top]) && ArgsAt(data, start + FlatLen(stack[..top]), stack[top])
  }

  lemma {:induction false} ArgsAtAppend(data: seq<Byte>, pos: nat, a: seq<Arg>, b: seq<Arg>)
    requires ArgsAt(data, pos, a) && ArgsAt(data, pos + |ArgsBytes(a)|, b)
    ensures ArgsAt(data, pos, a + b)
    decreases a
  {
    hide ArgAt, ArgBytes, ArgWidth;
    if a == [] {
      assert a + b == b;
    } else {
      WidthAgrees(a[0]);
      assert (a + b)[1..] == a[1..] + b;
      ArgsAtAppend(data, pos + ArgWidth(a[0]), a[1..], b);
    }
  }

  lemma FlatAtPushed(data: seq<Byte>, start: nat, stack: Stack, args: seq<Arg>)
    requires FlatAt(data, start, stack) && ArgsAt(data, start + FlatLen(stack), args)
    ensures FlatAt(data, start, Pushed(stack, args))
  {
    hide ArgsAt, ArgsBytes;
    var top := |stack| - 1;
    assert Pushed(stack, args)[..top] == stack[..top];
    ArgsAtAppend(data, if top == 0 then start else start + FlatLen(stack[..top]), stack[top], args);
  }

  lemma OneArgAt(data: seq<Byte>, pos: nat, arg: Arg)
    requires ArgAt(data, pos, arg)
    ensures ArgsAt(data, pos, [arg])
  {
    assert [arg][1..] == [];
  }

  lemma StepSpelt(data: seq<Byte>, start: nat, pos: nat, tag: nat, stack: Stack)
    requires FlatAt(data, start, stack) && start + FlatLen(stack) == pos && pos % 4 == 0
    requires StepTag(data, pos, tag, stack).Got?
    ensures FlatAt(data, start, StepTag(data, pos, tag, stack).value)
  {
    hide ReadSingleArg, Pushed, ArgAt;
    var top := |stack| - 1;
    if tag == OPEN {
      assert (stack + [[]])[..|stack|] == stack;
    } else if tag == CLOSE {
      var outer, inner := stack[..top], stack[top];
      assert ArgAt(data, start + FlatLen(outer), Array(inner)) by { ArrayAt(data, start + FlatLen(outer), inner); }
      OneArgAt(data, start + FlatLen(outer), Array(inner));
      FlatAtPushed(data, start, outer, [Array(inner)]);
    } else {
      LeafSpelt(data, pos, tag);
      OneArgAt(data, pos, ReadSingleArg(data, pos, tag).value);
      FlatAtPushed(data, start, stack, [ReadSingleArg(data, pos, tag).value]);
    }
  }

  lemma ArrayAt(data: seq<Byte>, pos: nat, items: seq<Arg>)
    requires ArgsAt(data, pos, items)
    ensures ArgAt(data, pos, Array(items))
  {
  }

  /** A run that ends well leaves its arguments where their bytes were read. */
  lemma {:induction false} RunSpelt(data: seq<Byte>, start: nat, pos: nat, tags: seq<nat>, stack: Stack)
    requires StackOk(stack) && FlatAt(data, start, stack) && start + FlatLen(stack) == pos && pos % 4 == 0
    requires RunTags(data, pos, tags, stack).Got?
    ensures ArgsAt(data, start, RunTags(data, pos, tags, stack).value)
    decreases |tags|
  {
    hide StepTag, FlatTags, FlatLen, StackOk, ArgsAt;
    if tags != [] {
      StepInverts(data, pos, tags[0], stack);
      StepSpelt(data, start, pos, tags[0], stack);
      hide FlatAt;
      var r := StepTag(data, pos, tags[0], stack);
      RunSpelt(data, start, r.next, tags[1..], r.value);
    }
  }

  // ---- the bytes behind a packet ----

  /** A tag string that led to arguments is their letters. */
  lemma TagsSpelt(data: seq<Byte>, pos: nat, args: seq<Arg>)
    requires ReadTags(data, pos).Got? && pos % 4 == 0 && pos < |data| && data[pos] == COMMA
    requires ReadTags(data, pos).value == Tags(args)
    ensures StrAt(data, pos, TagString(args)) && ReadTags(data, pos).next == pos + StrWidth(TagString(args))
  {
    hide StrAt, TextOk, FirstNul;
    var raw := ReadStr(data, pos).value;
    StrInverts(data, pos);
    StrRead(data, pos);
    hide ReadStr;
    assert raw != [] && raw[0] == COMMA by { NulFree(data, pos, raw); }
    Utf8.AsciiFirst(raw);
    var chars := Utf8.Chars(raw).value;
    assert chars == [COMMA] + Tags(args);
    TagsAreText(args);
    Utf8.AsciiBack(raw);
    TagStringIs(args);
  }

  lemma NulFree(data: seq<Byte>, pos: nat, s: seq<Byte>)
    requires StrAt(data, pos, s) && pos < |data| && data[pos] == COMMA
    ensures s != [] && s[0] == COMMA
  {
    assert data[pos] == data[pos..pos + |s + [0]|][0];
  }

  lemma NoTagsNoArgs(args: seq<Arg>)
    requires Tags(args) == []
    ensures args == []
  {
  }

  lemma MessageSpelt(data: seq<Byte>)
    requires DecodeMessage(data).Ok?
    ensures var p := DecodeMessage(data).value; p.Message? && MessageAt(data, p.address, p.args)
  {
    hide ReadStr, ReadTags, RunTags, StrAt, ArgsAt, StrWidth, TextOk;
    var head := ReadStr(data, 0);
    StrInverts(data, 0);
    StrRead(data, 0);
    TagsInvert(data, head.next);
    var tags := ReadTags(data, head.next);
    FirstStackOk();
    RunInverts(data, tags.next, tags.value, [[]]);
    FirstStackAt(data, tags.next);
    RunSpelt(data, tags.next, tags.next, tags.value, [[]]);
    var args := RunTags(data, tags.next, tags.value, [[]]).value;
    assert Tags(args) == tags.value by { assert [] + tags.value == tags.value; }
    if head.next < |data| && data[head.next] == COMMA {
      TagsSpelt(data, head.next, args);
    } else {
      NoTags(data, head.next);
      NoTagsNoArgs(args);
    }
  }

  lemma FirstStackAt(data: seq<Byte>, pos: nat)
    ensures FlatAt(data, pos, [[]])
  {
  }

  lemma {:induction false} DecodedIsSpelt(data: seq<Byte>, depth: nat)
    requires DecodeAt(data, depth).Ok?
    ensures Spells(data, DecodeAt(data, depth).value)
    decreases |data|, |data| + 1
  {
    hide DecodeMessage, MessageAt, WordAt, ElementsAt, Codes;
    if BUNDLE_TAG <= data {
      BundleStart(data);
      TimeRead(data, 8);
      ElementsSpelt(data, 16, depth);
    } else {
      MessageSpelt(data);
    }
  }

  lemma TimeRead(data: seq<Byte>, pos: nat)
    requires ReadTime(data, pos).Got?
    ensures var r := ReadTime(data, pos);
            && WordAt(data, pos, r.value.seconds) && WordAt(data, pos + 4, r.value.fractional)
            && r.next == pos + 8 <= |data|
  {
    WordRead(data, pos);
    WordRead(data, pos + 4);
  }

  lemma {:induction false} ElementsSpelt(data: seq<Byte>, pos: nat, depth: nat)
    requires 16 <= pos <= |data| && DecodeElements(data, pos, depth).Ok?
    ensures ElementsAt(data, pos, DecodeElements(data, pos, depth).value)
    decreases |data|, |data| - pos
  {
    hide DecodeAt, Spells, WordAt;
    if pos < |data| {
      var sized := ReadSized(data, pos);
      WordRead(data, pos);
      U32Next(data, pos);
      hide ReadU32;
      DecodedIsSpelt(sized.value, depth + 1);
      ElementsSpelt(data, sized.next, depth);
      var p, rest := DecodeAt(sized.value, depth + 1).value, DecodeElements(data, sized.next, depth).value;
      assert ([p] + rest)[1..] == rest;
      assert SizedAt(data, pos, |sized.value|) && data[pos + 4..pos + 4 + |sized.value|] == sized.value;
    }
  }

  // ---- the main theorems ----

  /**
   * The decoder, on every input: it returns a packet if and only if the bytes spell it and its text, characters
   * and nesting are ones the format can carry. Everything else is an error.
   */
  lemma DecodesExactly(data: seq<Byte>, p: Packet)
    ensures Decode(data) == Ok(p) <==> Spells(data, p) && PacketOk(p, 0)
  {
    hide Spells, PacketOk;
    if Spells(data, p) && PacketOk(p, 0) {
      SpeltDecodes(data, p, 0);
    }
    if Decode(data) == Ok(p) {
      PacketInverts(data, 0);
      DecodedIsSpelt(data, 0);
    }
  }

  /** An address alone is a message without arguments, whatever follows it, as long as that is no comma. */
  lemma AddressAlone(address: seq<Byte>, rest: seq<Byte>)
    requires PacketOk(Message(address, []), 0) && (rest == [] || rest[0] != 0x2C)
    ensures Decode(StrBytes(address) + rest) == Ok(Message(address, []))
  {
    hide StrBytes, StrAt, StrWidth, PacketOk;
    var data := StrBytes(address) + rest;
    WholeAt(StrBytes(address), rest);
    StrBytesSpell(data, 0, address);
    DecodesExactly(data, Message(address, []));
  }

  /** Bytes after the arguments of a message change nothing. */
  lemma TrailingIgnored(address: seq<Byte>, args: seq<Arg>, trailing: seq<Byte>)
    requires PacketOk(Message(address, args), 0) && |MessageBytes(address, args) + trailing| < LIMIT
    ensures Decode(MessageBytes(address, args) + trailing) == Ok(Message(address, args))
  {
    hide MessageBytes, MessageAt, PacketOk;
    MessageBytesSpell(address, args, trailing);
    DecodesExactly(MessageBytes(address, args) + trailing, Message(address, args));
  }

  /** Nor does padding that is missing: here an address or a tag string that ends the data at its NUL. */
  lemma PaddingMayBeMissing(address: seq<Byte>)
    requires PacketOk(Message(address, []), 0)
    ensures Decode(address + [0]) == Ok(Message(address, []))
    ensures Decode(StrBytes(address) + [0x2C, 0]) == Ok(Message(address, []))
  {
    hide StrBytes, PacketOk, Codes;
    DecodesExactly(address + [0], Message(address, []));
    var data := StrBytes(address) + [0x2C, 0];
    WholeAt(StrBytes(address), [0x2C, 0]);
    StrBytesSpell(data, 0, address);
    TagStringIs([]);
    assert TagString([]) == [0x2C] && [0x2C] + [0] == [0x2C, 0];
    assert At(data, |StrBytes(address)|, [0x2C] + [0]);
    DecodesExactly(data, Message(address, []));
  }
}
