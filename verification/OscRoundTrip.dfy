/** Whatever spells a packet decodes to it: readers, then the tag machine, then whole trees of bundles. */
module OscRoundTrip {
  import opened Bytes
  import opened Wrappers
  import opened OscPacket
  import opened OscDecode
  import opened OscSpelling
  import Utf8

  const LIMIT: nat := 0x1_0000_0000

  // ---- single readers ----

  lemma ReadsWord(data: seq<Byte>, pos: nat, v: U32)
    requires WordAt(data, pos, v)
    ensures ReadU32(data, pos) == Got(v, pos + 4)
  {
    WordIsBe32(data, pos, v);
    Be32RoundTrip(v);
  }

  lemma ReadsWords(data: seq<Byte>, pos: nat, v: U64)
    requires WordsAt(data, pos, v)
    ensures ReadU64(data, pos) == Got(v, pos + 8)
  {
    WordsAreBe64(data, pos, v);
    Be64RoundTrip(v);
  }

  lemma ReadsTime(data: seq<Byte>, pos: nat, t: TimeTag)
    requires WordAt(data, pos, t.seconds) && WordAt(data, pos + 4, t.fractional)
    ensures ReadTime(data, pos) == Got(t, pos + 8)
  {
    ReadsWord(data, pos, t.seconds);
    ReadsWord(data, pos + 4, t.fractional);
  }

  /** Slice-relative alignment lands where the string's own padding ends, because it started aligned. */
  lemma AlignedEnd(pos: nat, n: nat)
    requires pos % 4 == 0
    ensures Align4(pos + n) == pos + NextWord(n) == pos + n + PadLen(n)
    ensures (pos + NextWord(n)) % 4 == 0
  {
  }

  lemma ReadsStr(data: seq<Byte>, pos: nat, s: seq<Byte>)
    requires StrAt(data, pos, s) && pos % 4 == 0 && TextOk(s)
    ensures ReadStr(data, pos) == Got(s, pos + StrWidth(s))
  {
    hide PadLen, Align4;
    AtSplit(data, pos, s, [0]);
    forall i | pos <= i < pos + |s|
      ensures data[i] != 0
    {
      assert data[i] == s[i - pos];
    }
    assert data[pos + |s|] == data[pos + |s|..pos + |s| + 1][0] == 0;
    assert FirstNul(data, pos) == pos + |s|;
    AlignedEnd(pos, |s| + 1);
  }

  /** The documented hazard: a string with a NUL inside comes back cut at the first one. */
  lemma EmbeddedNulTruncates(data: seq<Byte>, pos: nat, s: seq<Byte>, k: nat)
    requires At(data, pos, StrBytes(s)) && k < |s| && s[k] == 0 && TextOk(s[..k])
    ensures ReadStr(data, pos) == Got(s[..k], Align4(pos + k + 1))
  {
    hide PadLen, Align4;
    AtSplit(data, pos, s + [0], Zeros(PadLen(|s + [0]|)));
    AtSplit(data, pos, s, [0]);
    assert data[pos..pos + |s|] == s;
    assert data[pos + k] == data[pos..pos + |s|][k];
    forall i | pos <= i < pos + k
      ensures data[i] != 0
    {
      assert data[pos..pos + |s|][i - pos] == data[i];
      assert s[i - pos] == s[..k][i - pos];
    }
    assert FirstNul(data, pos) == pos + k;
    assert data[pos..pos + k] == s[..k];
  }

  lemma ReadsBlob(data: seq<Byte>, pos: nat, b: seq<Byte>)
    requires WordAt(data, pos, |b|) && At(data, pos + 4, b) && pos % 4 == 0 && |b| < LIMIT
    ensures ReadBlob(data, pos) == Got(b, pos + 4 + NextWord(|b|))
  {
    ReadsWord(data, pos, |b|);
    AlignedEnd(pos + 4, |b|);
  }

  predicate IsLeaf(arg: Arg) {
    !arg.Array?
  }

  lemma SignRoundTrip(i: I32, l: I64)
    ensures FromU32(ToU32(i)) == i && FromU64(ToU64(l)) == l
  {
  }

  /** Every argument that is no array is read back from its letter and its bytes, whatever pads them. */
  lemma ReadsLeaf(data: seq<Byte>, pos: nat, arg: Arg)
    requires IsLeaf(arg) && ArgAt(data, pos, arg) && pos % 4 == 0 && ArgOk(arg, 0)
    ensures ReadSingleArg(data, pos, Code(Letter(arg))) == Got(arg, pos + ArgWidth(arg))
  {
    hide WordAt, WordsAt, FromU32, FromU64;
    match arg
    case Int(i) => SignRoundTrip(i, 0); ReadsWord(data, pos, ToU32(i));
    case Float(bits) => ReadsWord(data, pos, bits);
    case Str(s) => ReadsStr(data, pos, s);
    case Blob(b) => BlobFits(data, pos, b); ReadsBlob(data, pos, b);
    case Long(l) => SignRoundTrip(0, l); ReadsWords(data, pos, ToU64(l));
    case Double(bits) => ReadsWords(data, pos, bits);
    case Time(t) => ReadsTime(data, pos, t);
    case Char(c) => ReadsWord(data, pos, c);
    case Color(_, _, _, _) =>
    case Midi(_, _, _, _) =>
    case Bool(_) =>
    case Nil =>
    case Impulse =>
  }

  lemma BlobFits(data: seq<Byte>, pos: nat, b: seq<Byte>)
    requires WordAt(data, pos, |b|)
    ensures |b| < LIMIT
  {
  }

  // ---- the tag machine ----

  lemma PushedTwice(stack: Stack, a: seq<Arg>, b: seq<Arg>)
    ensures Pushed(Pushed(stack, a), b) == Pushed(stack, a + b)
  {
    Assoc(stack[|stack| - 1], a, b);
  }

  lemma PushedNothing(stack: Stack)
    ensures Pushed(stack, []) == stack
  {
    assert stack[|stack| - 1] + [] == stack[|stack| - 1];
  }

  lemma PushedFresh(stack: Stack, args: seq<Arg>)
    ensures Pushed(stack + [[]], args) == stack + [args]
  {
    assert [] + args == args;
    assert (stack + [[]])[..|stack|] == stack;
  }

  /**
   * On any suffix of tags and any stack within the cap, the machine rebuilds exactly the nested list
   * whose tags it meets, puts it into the innermost open list and consumes exactly its flat bytes.
   */
  lemma {:induction false} RunRebuilds(data: seq<Byte>, pos: nat, args: seq<Arg>, rest: seq<nat>, stack: Stack)
    requires |stack| <= MAX_NESTING_DEPTH && ArgsOk(args, MAX_NESTING_DEPTH - |stack|)
    requires ArgsAt(data, pos, args) && pos % 4 == 0
    ensures RunTags(data, pos, Codes(Letters(args)) + rest, stack)
         == RunTags(data, pos + ArgsWidth(args), rest, Pushed(stack, args))
    decreases args
  {
    hide RunTags, Pushed, Codes;
    if args == [] {
      assert Codes(Letters(args)) == [] by { TagsAreLetters(args); }
      assert Codes(Letters(args)) + rest == rest;
      PushedNothing(stack);
    } else {
      var arg, tail := args[0], args[1..];
      var mid := pos + ArgWidth(arg);
      WidthAgrees(arg);
      AlignedSum(pos, |ArgBytes(arg)|);
      CodesAppend(ArgLetters(arg), Letters(tail));
      Assoc(Codes(ArgLetters(arg)), Codes(Letters(tail)), rest);
      RunRebuildsOne(data, pos, arg, Codes(Letters(tail)) + rest, stack);
      RunRebuilds(data, mid, tail, rest, Pushed(stack, [arg]));
      PushedTwice(stack, [arg], tail);
      assert [arg] + tail == args;
    }
  }

  lemma {:induction false} RunRebuildsOne(data: seq<Byte>, pos: nat, arg: Arg, rest: seq<nat>, stack: Stack)
    requires |stack| <= MAX_NESTING_DEPTH && ArgOk(arg, MAX_NESTING_DEPTH - |stack|)
    requires ArgAt(data, pos, arg) && pos % 4 == 0
    ensures RunTags(data, pos, Codes(ArgLetters(arg)) + rest, stack)
         == RunTags(data, pos + ArgWidth(arg), rest, Pushed(stack, [arg]))
    decreases arg
  {
    hide RunTags, StepTag, ReadSingleArg, Pushed, StrAt, WordAt, WordsAt, Letter;
    if arg.Array? {
      var items := arg.items;
      var closing: seq<nat> := [CLOSE] + rest;
      assert Codes(ArgLetters(arg)) + rest == [OPEN] + (Codes(Letters(items)) + closing);
      Opens(data, pos, Codes(Letters(items)) + closing, stack);
      RunRebuilds(data, pos, items, closing, stack + [[]]);
      PushedFresh(stack, items);
      Closes(data, pos + ArgsWidth(items), rest, stack, items);
    } else {
      ReadsLeaf(data, pos, arg);
      ReadsOne(data, pos, arg, rest, stack);
    }
  }

  lemma Opens(data: seq<Byte>, pos: nat, rest: seq<nat>, stack: Stack)
    requires |stack| < MAX_NESTING_DEPTH
    ensures RunTags(data, pos, [OPEN] + rest, stack) == RunTags(data, pos, rest, stack + [[]])
  {
    assert ([OPEN] + rest)[1..] == rest;
  }

  lemma Closes(data: seq<Byte>, pos: nat, rest: seq<nat>, stack: Stack, items: seq<Arg>)
    ensures RunTags(data, pos, [CLOSE] + rest, stack + [items])
         == RunTags(data, pos, rest, Pushed(stack, [Array(items)]))
  {
    assert ([CLOSE] + rest)[1..] == rest;
    assert (stack + [items])[..|stack|] == stack;
  }

  lemma ReadsOne(data: seq<Byte>, pos: nat, arg: Arg, rest: seq<nat>, stack: Stack)
    requires IsLeaf(arg) && ReadSingleArg(data, pos, Code(Letter(arg))).Got?
    ensures var r := ReadSingleArg(data, pos, Code(Letter(arg)));
            RunTags(data, pos, Codes(ArgLetters(arg)) + rest, stack)
            == RunTags(data, r.next, rest, Pushed(stack, [r.value]))
  {
    hide ReadSingleArg, Pushed;
    assert Codes(ArgLetters(arg)) == [Code(Letter(arg))];
    assert (Codes(ArgLetters(arg)) + rest)[1..] == rest;
  }

  // ---- whole packets ----

  lemma TagStringIs(args: seq<Arg>)
    ensures TagString(args) == [COMMA] + Codes(Letters(args)) == [COMMA] + Tags(args)
    ensures TextOk(TagString(args)) && Utf8.Chars(TagString(args)) == Some(TagString(args))
  {
    TagsAreLetters(args);
    TagsAreText(args);
    Utf8.AsciiChars([COMMA] + Tags(args));
  }

  lemma ReadsTags(data: seq<Byte>, pos: nat, args: seq<Arg>)
    requires StrAt(data, pos, TagString(args)) && pos % 4 == 0
    ensures ReadTags(data, pos) == Got(Codes(Letters(args)), pos + StrWidth(TagString(args)))
  {
    hide PadLen, FirstNul, TextOk, TagString, Codes;
    var raw := TagString(args);
    TagStringIs(args);
    ReadsStr(data, pos, raw);
    assert data[pos] == data[pos..pos + |raw + [0]|][0];
    assert raw[1..] == Codes(Letters(args));
  }

  /** With its tag string or, when it has no arguments, without; whatever the padding and whatever comes after. */
  lemma MessageDecodes(data: seq<Byte>, address: seq<Byte>, args: seq<Arg>)
    requires PacketOk(Message(address, args), 0) && MessageAt(data, address, args)
    ensures DecodeMessage(data) == Ok(Message(address, args))
  {
    hide ReadStr, ReadTags, RunTags, StrAt, ArgsAt, StrWidth, Codes;
    var tags := StrWidth(address);
    ReadsStr(data, 0, address);
    WholeWords(address);
    PushedFirst(args);
    if tags < |data| && data[tags] == 0x2C {
      var rest := tags + StrWidth(TagString(args));
      ReadsTags(data, tags, args);
      WholeWords(TagString(args));
      AlignedSum(tags, StrWidth(TagString(args)));
      RunRebuilds(data, rest, args, [], [[]]);
      assert Codes(Letters(args)) + [] == Codes(Letters(args));
      Finishes(data, rest + ArgsWidth(args), args);
      assert RunTags(data, rest, Codes(Letters(args)), [[]]) == Got(args, rest + ArgsWidth(args));
    } else {
      NoTags(data, tags);
      Finishes(data, tags, []);
    }
  }

  lemma WholeWords(s: seq<Byte>)
    ensures StrWidth(s) % 4 == 0
  {
  }

  lemma NoTags(data: seq<Byte>, pos: nat)
    requires !(pos < |data| && data[pos] == 0x2C)
    ensures ReadTags(data, pos) == Got([], pos)
  {
  }

  /** Out of tags with nothing open, the machine hands over its only list. */
  lemma Finishes(data: seq<Byte>, pos: nat, args: seq<Arg>)
    ensures RunTags(data, pos, [], [args]) == Got(args, pos)
  {
  }

  lemma PushedFirst(args: seq<Arg>)
    ensures Pushed([[]], args) == [args]
  {
    assert [] + args == args;
  }

  /** Whatever spells a packet within the caps decodes to it. */
  lemma {:induction false} SpeltDecodes(data: seq<Byte>, p: Packet, depth: nat)
    requires PacketOk(p, depth) && Spells(data, p)
    ensures DecodeAt(data, depth) == Ok(p)
    decreases p
  {
    hide MessageAt, DecodeMessage, DecodeElements, ElementsAt, ReadTime, WordAt, Codes;
    match p
    case Message(address, args) =>
      MessageStart(data, address, args);
      MessageDecodes(data, address, args);
    case Bundle(time, elements) =>
      BundleStart(data);
      ReadsTime(data, 8, time);
      assert 16 <= |data| by { WordEnds(data, 12, time.fractional); }
      ElementsDecode(data, 16, elements, depth);
  }

  lemma WordEnds(data: seq<Byte>, pos: nat, v: nat)
    requires WordAt(data, pos, v)
    ensures pos + 4 <= |data| && v < LIMIT
  {
  }

  lemma MessageStart(data: seq<Byte>, address: seq<Byte>, args: seq<Arg>)
    requires address != [] && MessageAt(data, address, args)
    ensures data != [] && data[0] == address[0]
  {
    assert data[0] == data[0..0 + |address + [0]|][0];
  }

  lemma BundleStart(data: seq<Byte>)
    ensures At(data, 0, Codes("#bundle") + [0]) <==> BUNDLE_TAG <= data
  {
    assert Codes("#bundle") + [0] == BUNDLE_TAG;
  }

  lemma {:induction false} ElementsDecode(data: seq<Byte>, pos: nat, elements: seq<Packet>, depth: nat)
    requires ElementsOk(elements, depth + 1) && pos <= |data| && ElementsAt(data, pos, elements)
    ensures DecodeElements(data, pos, depth) == Ok(elements)
    decreases elements
  {
    hide DecodeAt, ReadSized, Spells, WordAt;
    if elements != [] {
      var n: nat :| SizedAt(data, pos, n) && Spells(data[pos + 4..pos + 4 + n], elements[0])
                    && ElementsAt(data, pos + 4 + n, elements[1..]);
      ReadsSized(data, pos, n);
      SpeltDecodes(data[pos + 4..pos + 4 + n], elements[0], depth + 1);
      ElementsDecode(data, pos + 4 + n, elements[1..], depth);
      assert [elements[0]] + elements[1..] == elements;
    }
  }

  lemma ReadsSized(data: seq<Byte>, pos: nat, n: nat)
    requires SizedAt(data, pos, n)
    ensures ReadSized(data, pos) == Got(data[pos + 4..pos + 4 + n], pos + 4 + n)
  {
    WordEnds(data, pos, n);
    ReadsWord(data, pos, n);
  }

  // ---- the encoder's own spelling ----

  lemma LeafBytesSpell(data: seq<Byte>, pos: nat, arg: Arg)
    requires IsLeaf(arg) && At(data, pos, ArgBytes(arg)) && |data| < LIMIT
    ensures ArgAt(data, pos, arg)
  {
    hide WordAt, WordsAt, Be32, Be64;
    match arg
    case Int(i) => WordIsBe32(data, pos, ToU32(i));
    case Float(bits) => WordIsBe32(data, pos, bits);
    case Str(s) => AtSplit(data, pos, s + [0], Zeros(PadLen(|s + [0]|)));
    case Blob(b) =>
      AtSplit(data, pos, Be32(|b|), Padded(b));
      AtSplit(data, pos + 4, b, Zeros(PadLen(|b|)));
      WordIsBe32(data, pos, |b|);
    case Long(l) => WordsAreBe64(data, pos, ToU64(l));
    case Double(bits) => WordsAreBe64(data, pos, bits);
    case Time(t) => TimeBytesSpell(data, pos, t);
    case Char(c) => WordIsBe32(data, pos, c);
    case Color(_, _, _, _) =>
    case Midi(_, _, _, _) =>
    case Bool(_) =>
    case Nil =>
    case Impulse =>
  }

  lemma TimeBytesSpell(data: seq<Byte>, pos: nat, t: TimeTag)
    requires At(data, pos, TimeBytes(t))
    ensures WordAt(data, pos, t.seconds) && WordAt(data, pos + 4, t.fractional)
  {
    hide Be32;
    AtSplit(data, pos, Be32(t.seconds), Be32(t.fractional));
    WordIsBe32(data, pos, t.seconds);
    WordIsBe32(data, pos + 4, t.fractional);
  }

  lemma {:induction false} ArgsBytesSpell(data: seq<Byte>, pos: nat, args: seq<Arg>)
    requires At(data, pos, ArgsBytes(args)) && |data| < LIMIT
    ensures ArgsAt(data, pos, args)
    decreases args
  {
    hide At;
    if args != [] {
      AtSplit(data, pos, ArgBytes(args[0]), ArgsBytes(args[1..]));
      WidthAgrees(args[0]);
      if args[0].Array? {
        ArgsBytesSpell(data, pos, args[0].items);
      } else {
        LeafBytesSpell(data, pos, args[0]);
      }
      ArgsBytesSpell(data, pos + |ArgBytes(args[0])|, args[1..]);
    }
  }

  lemma StrBytesSpell(data: seq<Byte>, pos: nat, s: seq<Byte>)
    requires At(data, pos, StrBytes(s))
    ensures StrAt(data, pos, s) && StrWidth(s) == |StrBytes(s)|
  {
    AtSplit(data, pos, s + [0], Zeros(PadLen(|s + [0]|)));
  }

  /** The encoder's bytes spell the message, and go on spelling it with anything behind them. */
  lemma MessageBytesSpell(address: seq<Byte>, args: seq<Arg>, trailing: seq<Byte>)
    requires |MessageBytes(address, args) + trailing| < LIMIT
    ensures MessageAt(MessageBytes(address, args) + trailing, address, args)
  {
    hide StrBytes, ArgsBytes, StrAt, ArgsAt, StrWidth, Codes, At, Tags;
    var data := MessageBytes(address, args) + trailing;
    var head, tags, rest := StrBytes(address), StrBytes([COMMA] + Tags(args)), ArgsBytes(args);
    WholeAt(MessageBytes(address, args), trailing);
    AtSplit(data, 0, head + tags, rest);
    AtSplit(data, 0, head, tags);
    TagStringIs(args);
    StrBytesSpell(data, 0, address);
    StrBytesSpell(data, |head|, TagString(args));
    ArgsBytesSpell(data, |head| + |tags|, args);
    StrStarts(data, |head|, TagString(args));
  }

  lemma WholeAt(a: seq<Byte>, b: seq<Byte>)
    ensures At(a + b, 0, a)
  {
  }

  lemma StrStarts(data: seq<Byte>, pos: nat, s: seq<Byte>)
    requires StrAt(data, pos, s) && s != []
    ensures pos < |data| && data[pos] == s[0]
  {
    assert data[pos] == data[pos..pos + |s + [0]|][0];
  }

  lemma {:induction false} PacketBytesSpell(p: Packet)
    requires |PacketBytes(p)| < LIMIT
    ensures Spells(PacketBytes(p), p)
    decreases p
  {
    hide MessageBytes, MessageAt, ElementsAt, WordAt, TimeBytes, ElementsBytes;
    match p
    case Message(address, args) =>
      MessageBytesSpell(address, args, []);
      assert MessageBytes(address, args) + [] == MessageBytes(address, args);
    case Bundle(time, elements) =>
      var data := PacketBytes(p);
      assert At(data, 0, BUNDLE_TAG + TimeBytes(time) + ElementsBytes(elements));
      AtSplit(data, 0, BUNDLE_TAG + TimeBytes(time), ElementsBytes(elements));
      AtSplit(data, 0, BUNDLE_TAG, TimeBytes(time));
      assert Codes("#bundle") + [0] == BUNDLE_TAG;
      TimeBytesSpell(data, 8, time);
      ElementsBytesSpell(data, 16, elements);
  }

  lemma {:induction false} ElementsBytesSpell(data: seq<Byte>, pos: nat, elements: seq<Packet>)
    requires At(data, pos, ElementsBytes(elements)) && pos + |ElementsBytes(elements)| == |data| < LIMIT
    ensures ElementsAt(data, pos, elements)
    decreases elements
  {
    hide Spells, WordAt, Be32;
    if elements != [] {
      var e := PacketBytes(elements[0]);
      AtSplit(data, pos, Sized(e), ElementsBytes(elements[1..]));
      AtSplit(data, pos, Be32(|e|), e);
      WordIsBe32(data, pos, |e|);
      PacketBytesSpell(elements[0]);
      ElementsBytesSpell(data, pos + 4 + |e|, elements[1..]);
      assert SizedAt(data, pos, |e|) && data[pos + 4..pos + 4 + |e|] == e;
    }
  }

  const HELLO: Arg := Str([0x68, 0x65, 0x6C, 0x6C, 0x6F])
  const FLOATS: seq<Arg> := [Float(0x3F9D_F3B6)] + [Float(0x40B5_B22D)]
  const EXAMPLE: seq<Arg> := [Int(1000)] + ([Int(-1)] + ([HELLO] + FLOATS))

  /** The worked example of the standard: "/foo" with two integers, a string and two floats. */
  lemma StandardExample()
    ensures EXAMPLE == [Int(1000), Int(-1), HELLO, Float(0x3F9D_F3B6), Float(0x40B5_B22D)]
    ensures MessageBytes([0x2F, 0x66, 0x6F, 0x6F], EXAMPLE)
         == [0x2F, 0x66, 0x6F, 0x6F, 0, 0, 0, 0] + [0x2C, 0x69, 0x69, 0x73, 0x66, 0x66, 0, 0]
            + ([0, 0, 0x03, 0xE8] + ([0xFF, 0xFF, 0xFF, 0xFF] + ([0x68, 0x65, 0x6C, 0x6C, 0x6F, 0, 0, 0]
               + ([0x3F, 0x9D, 0xF3, 0xB6] + [0x40, 0xB5, 0xB2, 0x2D]))))
  {
    ExampleIs();
    hide StrBytes, Tags, ArgsBytes;
    ExampleTags();
    ExampleBytes();
    StrExamples();
    assert [COMMA] + Tags(EXAMPLE) == [0x2C, 0x69, 0x69, 0x73, 0x66, 0x66];
  }

  lemma ExampleIs()
    ensures EXAMPLE == [Int(1000), Int(-1), HELLO, Float(0x3F9D_F3B6), Float(0x40B5_B22D)]
  {
  }

  lemma StrExamples()
    ensures StrBytes([0x2F, 0x66, 0x6F, 0x6F]) == [0x2F, 0x66, 0x6F, 0x6F, 0, 0, 0, 0]
    ensures StrBytes([0x2C, 0x69, 0x69, 0x73, 0x66, 0x66]) == [0x2C, 0x69, 0x69, 0x73, 0x66, 0x66, 0, 0]
    ensures StrBytes([0x68, 0x65, 0x6C, 0x6C, 0x6F]) == [0x68, 0x65, 0x6C, 0x6C, 0x6F, 0, 0, 0]
  {
  }

  lemma ExampleTags()
    ensures Tags(EXAMPLE) == [0x69, 0x69, 0x73, 0x66, 0x66]
  {
    hide Tags, ArgsBytes, ArgBytes;
    NoArgs();
    Front(Float(0x40B5_B22D), []);
    Front(Float(0x3F9D_F3B6), [Float(0x40B5_B22D)] + []);
    Front(HELLO, FLOATS);
    Front(Int(-1), [HELLO] + FLOATS);
    Front(Int(1000), [Int(-1)] + ([HELLO] + FLOATS));
    assert [Float(0x40B5_B22D)] + [] == [Float(0x40B5_B22D)];
  }

  lemma NoArgs()
    ensures Tags([]) == [] && ArgsBytes([]) == []
  {
  }

  lemma ExampleBytes()
    ensures ArgsBytes(EXAMPLE)
         == [0, 0, 0x03, 0xE8] + ([0xFF, 0xFF, 0xFF, 0xFF] + ([0x68, 0x65, 0x6C, 0x6C, 0x6F, 0, 0, 0]
            + ([0x3F, 0x9D, 0xF3, 0xB6] + [0x40, 0xB5, 0xB2, 0x2D])))
  {
    WordExamples();
    StrExamples();
    hide Tags, ArgTags, ArgsBytes, StrBytes, Be32;
    NoArgs();
    Front(Float(0x40B5_B22D), []);
    Front(Float(0x3F9D_F3B6), [Float(0x40B5_B22D)] + []);
    Front(HELLO, FLOATS);
    Front(Int(-1), [HELLO] + FLOATS);
    Front(Int(1000), [Int(-1)] + ([HELLO] + FLOATS));
    assert [Float(0x40B5_B22D)] + [] == [Float(0x40B5_B22D)];
    assert Be32(0x40B5_B22D) + [] == Be32(0x40B5_B22D);
  }

  lemma WordExamples()
    ensures Be32(1000) == [0, 0, 0x03, 0xE8] && Be32(0xFFFF_FFFF) == [0xFF, 0xFF, 0xFF, 0xFF]
    ensures Be32(0x3F9D_F3B6) == [0x3F, 0x9D, 0xF3, 0xB6] && Be32(0x40B5_B22D) == [0x40, 0xB5, 0xB2, 0x2D]
  {
  }

  lemma Front(arg: Arg, rest: seq<Arg>)
    ensures Tags([arg] + rest) == ArgTags(arg) + Tags(rest)
    ensures ArgsBytes([arg] + rest) == ArgBytes(arg) + ArgsBytes(rest)
  {
    assert ([arg] + rest)[1..] == rest;
  }

  lemma PacketRoundTrip(p: Packet, depth: nat)
    requires PacketOk(p, depth) && |PacketBytes(p)| < LIMIT
    ensures DecodeAt(PacketBytes(p), depth) == Ok(p)
  {
    PacketBytesSpell(p);
    SpeltDecodes(PacketBytes(p), p, depth);
  }
}
