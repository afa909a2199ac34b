/** The encoder as it runs: one shared buffer, padding by absolute length, sizes patched in afterwards. */
module OscEncode {
  import opened Bytes
  import opened Wrappers
  import opened OscPacket

  method Encode(packet: Packet) returns (bytes: seq<Byte>)
    ensures bytes == PacketBytes(packet)
  {
    var buf := new Buffer();
    EncodePacket(packet, buf);
    bytes := buf.bytes;
  }

  /** Whatever is already in the buffer stays as it is, at every bundle depth. */
  method EncodePacket(packet: Packet, buf: Buffer)
    requires |buf.bytes| % 4 == 0
    modifies buf
    ensures buf.bytes == old(buf.bytes) + PacketBytes(packet)
    decreases packet
  {
    match packet
    case Message(address, args) => EncodeMessage(address, args, buf);
    case Bundle(time, elements) =>
      EncodeBundle(time, elements, buf);
      assert PacketBytes(packet) == BUNDLE_TAG + TimeBytes(time) + ElementsBytes(elements);
  }

  method EncodeMessage(address: seq<Byte>, args: seq<Arg>, buf: Buffer)
    requires |buf.bytes| % 4 == 0
    modifies buf
    ensures buf.bytes == old(buf.bytes) + MessageBytes(address, args)
  {
    hide PadLen, Tags, ArgsBytes;
    WriteStr(address, buf);
    AlignedStr(old(buf.bytes), address);
    var tags := new Buffer();
    tags.Push(COMMA);
    CollectTypeTags(args, tags);
    label L:
    WriteStr(tags.bytes, buf);
    AlignedStr(old@L(buf.bytes), tags.bytes);
    WriteArgs(args, buf);
  }

  method CollectTypeTags(args: seq<Arg>, tags: Buffer)
    modifies tags
    ensures tags.bytes == old(tags.bytes) + Tags(args)
    decreases args
  {
    for k := 0 to |args|
      invariant tags.bytes == old(tags.bytes) + Tags(args[..k])
    {
      match args[k] {
        case Array(items) =>
          ghost var before := tags.bytes;
          tags.Push(OPEN);
          CollectTypeTags(items, tags);
          tags.Push(CLOSE);
          assert tags.bytes == before + ArgTags(args[k]);
        case _ =>
          tags.Push(TypeTag(args[k]));
      }
      Assoc(old(tags.bytes), Tags(args[..k]), ArgTags(args[k]));
      TagsStep(args, k);
    }
    assert args[..|args|] == args;
  }

  method WriteArgs(args: seq<Arg>, buf: Buffer)
    requires |buf.bytes| % 4 == 0
    modifies buf
    ensures buf.bytes == old(buf.bytes) + ArgsBytes(args)
    decreases args
  {
    for k := 0 to |args|
      invariant buf.bytes == old(buf.bytes) + ArgsBytes(args[..k])
    {
      AlignedSum(|old(buf.bytes)|, |ArgsBytes(args[..k])|);
      WriteArg(args[k], buf);
      Assoc(old(buf.bytes), ArgsBytes(args[..k]), ArgBytes(args[k]));
      ArgsBytesStep(args, k);
    }
    assert args[..|args|] == args;
  }

  method WriteArg(arg: Arg, buf: Buffer)
    requires |buf.bytes| % 4 == 0
    modifies buf
    ensures buf.bytes == old(buf.bytes) + ArgBytes(arg)
    decreases arg
  {
    match arg
    case Int(i) => buf.Extend(Be32(ToU32(i)));
    case Float(bits) => buf.Extend(Be32(bits));
    case Str(s) =>
      WriteStr(s, buf);
      AlignedStr(old(buf.bytes), s);
    case Blob(b) => WriteBlob(b, buf);
    case Long(l) => buf.Extend(Be64(ToU64(l)));
    case Double(bits) => buf.Extend(Be64(bits));
    case Time(t) => WriteTimeTag(t, buf);
    case Char(c) => buf.Extend(Be32(c));
    case Color(r, g, b, a) => buf.Extend([r, g, b, a]);
    case Midi(a, b, c, d) => buf.Extend([a, b, c, d]);
    case Bool(_) =>
    case Nil =>
    case Impulse =>
    case Array(items) => WriteArgs(items, buf);
  }

  /** Placeholder, element, patch: the loop leaves exactly the sized elements behind the header. */
  method EncodeBundle(time: TimeTag, elements: seq<Packet>, buf: Buffer)
    requires |buf.bytes| % 4 == 0
    modifies buf
    ensures buf.bytes == old(buf.bytes) + (BUNDLE_TAG + TimeBytes(time) + ElementsBytes(elements))
    decreases elements
  {
    hide Sized, Be32;
    buf.Extend(BUNDLE_TAG);
    WriteTimeTag(time, buf);
    ghost var before := old(buf.bytes);
    ghost var header := before + (BUNDLE_TAG + TimeBytes(time));
    Assoc(before, BUNDLE_TAG, TimeBytes(time));
    AlignedSum(|before|, 16);
    for k := 0 to |elements|
      invariant buf.bytes == header + ElementsBytes(elements[..k])
    {
      var start := |buf.bytes|;
      AlignedSum(|header|, |ElementsBytes(elements[..k])|);
      buf.Extend(Zeros(4));
      EncodePacket(elements[k], buf);
      var elementLen := |buf.bytes| - start - 4;
      buf.Patch(start, Be32(elementLen));
      PatchedElement(header, elements, k, Zeros(4));
    }
    assert elements[..|elements|] == elements;
    Assoc(before, BUNDLE_TAG + TimeBytes(time), ElementsBytes(elements));
  }

  method WriteTimeTag(t: TimeTag, buf: Buffer)
    modifies buf
    ensures buf.bytes == old(buf.bytes) + TimeBytes(t)
  {
    buf.Extend(Be32(t.seconds));
    buf.Extend(Be32(t.fractional));
  }

  /** Pads the whole buffer, not the string: the two agree only where the buffer was aligned. */
  method WriteStr(s: seq<Byte>, buf: Buffer)
    modifies buf
    ensures buf.bytes == Padded(old(buf.bytes) + s + [0])
  {
    buf.Extend(s);
    buf.Push(0);
    Pad4(buf);
  }

  method WriteBlob(b: seq<Byte>, buf: Buffer)
    modifies buf
    ensures buf.bytes == Padded(old(buf.bytes) + Be32(|b|) + b)
    ensures |old(buf.bytes)| % 4 == 0 ==> buf.bytes == old(buf.bytes) + BlobBytes(b)
  {
    buf.Extend(Be32(|b|));
    buf.Extend(b);
    AlignedPad(|old(buf.bytes)|, |b|);
    Assoc(old(buf.bytes) + Be32(|b|), b, Zeros(PadLen(|b|)));
    Assoc(old(buf.bytes), Be32(|b|), Padded(b));
    hide PadLen;
    Pad4(buf);
  }

  method Pad4(buf: Buffer)
    modifies buf
    ensures buf.bytes == Padded(old(buf.bytes))
  {
    ghost var k := 0;
    while |buf.bytes| % 4 != 0
      invariant k <= PadLen(|old(buf.bytes)|)
      invariant buf.bytes == old(buf.bytes) + Zeros(k)
      decreases PadLen(|old(buf.bytes)|) - k
    {
      buf.Push(0);
      k := k + 1;
    }
  }

  /** One turn of the bundle loop: overwriting the placeholder in front of an element leaves it behind its size. */
  lemma PatchedElement(header: seq<Byte>, elements: seq<Packet>, k: nat, placeholder: seq<Byte>)
    requires k < |elements| && |placeholder| == 4
    ensures var before, e := header + ElementsBytes(elements[..k]), PacketBytes(elements[k]);
            var all := before + placeholder + e;
            all[..|before|] + Be32(|e|) + all[|before| + 4..] == header + ElementsBytes(elements[..k + 1])
  {
    var done, e := ElementsBytes(elements[..k]), PacketBytes(elements[k]);
    PatchedSize(header + done, placeholder, e);
    Assoc(header, done, Sized(e));
    ElementsBytesStep(elements, k);
  }

  lemma PatchedSize(before: seq<Byte>, placeholder: seq<Byte>, e: seq<Byte>)
    requires |placeholder| == 4
    ensures var all := before + placeholder + e;
            all[..|before|] + Be32(|e|) + all[|before| + 4..] == before + Sized(e)
  {
  }

  lemma AlignedPad(before: nat, n: nat)
    ensures before % 4 == 0 ==> PadLen(before + 4 + n) == PadLen(n)
  {
  }

  /** Padding by absolute length is padding by own length once the buffer is word-aligned. */
  lemma AlignedStr(before: seq<Byte>, s: seq<Byte>)
    requires |before| % 4 == 0
    ensures Padded(before + s + [0]) == before + StrBytes(s)
  {
    assert PadLen(|before + s + [0]|) == PadLen(|s + [0]|);
  }
}
