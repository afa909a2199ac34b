/** OSC packets, the packets a decoder can ever return, and the wire format as a pure function. */
module OscPacket {
  import opened Bytes
  import Utf8

  datatype TimeTag = TimeTag(seconds: U32, fractional: U32)

  /** One typed argument. Floats and doubles are their bit patterns; strings are their UTF-8 bytes. */
  datatype Arg =
    | Int(i: I32)
    | Float(bits32: U32)
    | Str(s: seq<Byte>)
    | Blob(b: seq<Byte>)
    | Long(l: I64)
    | Double(bits64: U64)
    | Time(t: TimeTag)
    | Char(c: U32)
    | Color(red: Byte, green: Byte, blue: Byte, alpha: Byte)
    | Midi(m0: Byte, m1: Byte, m2: Byte, m3: Byte)
    | Bool(v: bool)
    | Nil
    | Impulse
    | Array(items: seq<Arg>)

  datatype Packet =
    | Message(address: seq<Byte>, args: seq<Arg>)
    | Bundle(time: TimeTag, elements: seq<Packet>)

  const MAX_NESTING_DEPTH: nat := 32

  const SLASH: Byte := 0x2F
  const COMMA: Byte := 0x2C
  const OPEN: Byte := 0x5B
  const CLOSE: Byte := 0x5D

  // "#bundle" and its NUL.
  const BUNDLE_TAG: seq<Byte> := [0x23, 0x62, 0x75, 0x6E, 0x64, 0x6C, 0x65, 0]

  /** Text the format can carry: no embedded NUL, valid UTF-8. */
  predicate TextOk(s: seq<Byte>) {
    0 !in s && Utf8.Valid(s)
  }

  /** Arguments a packet can carry when at most `room` more arrays may be open around each leaf. */
  predicate ArgsOk(args: seq<Arg>, room: nat)
    decreases args
  {
    args != [] ==> ArgOk(args[0], room) && ArgsOk(args[1..], room)
  }

  predicate ArgOk(arg: Arg, room: nat)
    decreases arg
  {
    match arg
    case Str(s) => TextOk(s)
    case Char(c) => Utf8.Scalar(c)
    case Array(items) => room > 0 && ArgsOk(items, room - 1)
    case _ => true
  }

  /** Packets that survive the wire when they sit `depth` bundles deep. */
  predicate PacketOk(p: Packet, depth: nat)
    decreases p
  {
    && depth <= MAX_NESTING_DEPTH
    && match p
       case Message(address, args) =>
         address != [] && address[0] == SLASH && TextOk(address) && ArgsOk(args, MAX_NESTING_DEPTH - 1)
       case Bundle(_, elements) => ElementsOk(elements, depth + 1)
  }

  predicate ElementsOk(elements: seq<Packet>, depth: nat)
    decreases elements
  {
    elements != [] ==> PacketOk(elements[0], depth) && ElementsOk(elements[1..], depth)
  }

  // ---- the format ----

  lemma AlignedSum(a: nat, b: nat)
    requires a % 4 == 0 && b % 4 == 0
    ensures (a + b) % 4 == 0 && (a + b + 4) % 4 == 0
  {
  }

  /** How many zero bytes bring a length up to the next multiple of four. */
  function PadLen(n: nat): nat {
    (4 - n % 4) % 4
  }

  function Padded(s: seq<Byte>): (r: seq<Byte>)
    ensures |r| % 4 == 0
  {
    s + Zeros(PadLen(|s|))
  }

  function StrBytes(s: seq<Byte>): (r: seq<Byte>)
    ensures |r| % 4 == 0
  {
    Padded(s + [0])
  }

  function BlobBytes(b: seq<Byte>): (r: seq<Byte>)
    ensures |r| % 4 == 0
  {
    Be32(|b|) + Padded(b)
  }

  function TimeBytes(t: TimeTag): (r: seq<Byte>)
    ensures |r| == 8
  {
    Be32(t.seconds) + Be32(t.fractional)
  }

  /** The tag character of one argument; an array's is its opening bracket. */
  function TypeTag(arg: Arg): Byte {
    match arg
    case Int(_) => 0x69
    case Float(_) => 0x66
    case Str(_) => 0x73
    case Blob(_) => 0x62
    case Long(_) => 0x68
    case Double(_) => 0x64
    case Time(_) => 0x74
    case Char(_) => 0x63
    case Color(_, _, _, _) => 0x72
    case Midi(_, _, _, _) => 0x6D
    case Bool(v) => if v then 0x54 else 0x46
    case Nil => 0x4E
    case Impulse => 0x49
    case Array(_) => OPEN
  }

  /** The flat tag string of an argument list: arrays become brackets around their own tags. */
  function Tags(args: seq<Arg>): seq<Byte>
    decreases args
  {
    if args == [] then [] else ArgTags(args[0]) + Tags(args[1..])
  }

  function ArgTags(arg: Arg): seq<Byte>
    decreases arg
  {
    match arg
    case Array(items) => [OPEN] + Tags(items) + [CLOSE]
    case _ => [TypeTag(arg)]
  }

  /** The flat argument bytes: brackets leave no trace here. */
  function ArgsBytes(args: seq<Arg>): (r: seq<Byte>)
    ensures |r| % 4 == 0
    decreases args
  {
    if args == [] then [] else ArgBytes(args[0]) + ArgsBytes(args[1..])
  }

  function ArgBytes(arg: Arg): (r: seq<Byte>)
    ensures |r| % 4 == 0
    decreases arg
  {
    match arg
    case Int(i) => Be32(ToU32(i))
    case Float(bits) => Be32(bits)
    case Str(s) => StrBytes(s)
    case Blob(b) => BlobBytes(b)
    case Long(l) => Be64(ToU64(l))
    case Double(bits) => Be64(bits)
    case Time(t) => TimeBytes(t)
    case Char(c) => Be32(c)
    case Color(r, g, b, a) => [r, g, b, a]
    case Midi(a, b, c, d) => [a, b, c, d]
    case Bool(_) => []
    case Nil => []
    case Impulse => []
    case Array(items) => ArgsBytes(items)
  }

  function MessageBytes(address: seq<Byte>, args: seq<Arg>): (r: seq<Byte>)
    ensures |r| % 4 == 0
  {
    var head, tags, rest := StrBytes(address), StrBytes([COMMA] + Tags(args)), ArgsBytes(args);
    AlignedSum(|head|, |tags|);
    AlignedSum(|head + tags|, |rest|);
    head + tags + rest
  }

  /** Every packet's encoding is a whole number of 4-byte words, whatever it holds. */
  function PacketBytes(p: Packet): (r: seq<Byte>)
    ensures |r| % 4 == 0 && |r| >= 8
    decreases p
  {
    match p
    case Message(address, args) => MessageBytes(address, args)
    case Bundle(time, elements) =>
      var rest := ElementsBytes(elements);
      AlignedSum(16, |rest|);
      BUNDLE_TAG + TimeBytes(time) + rest
  }

  /** An element behind its own size. */
  function Sized(e: seq<Byte>): (r: seq<Byte>)
    ensures |r| == 4 + |e|
  {
    Be32(|e|) + e
  }

  function ElementsBytes(elements: seq<Packet>): (r: seq<Byte>)
    ensures |r| % 4 == 0
    decreases elements
  {
    if elements == [] then
      []
    else
      var first, rest := PacketBytes(elements[0]), ElementsBytes(elements[1..]);
      AlignedSum(|first|, |rest|);
      Sized(first) + rest
  }

  /** Tag strings are ASCII without NUL, so they are always text the format can carry. */
  lemma {:induction false} TagsAreText(args: seq<Arg>)
    ensures Utf8.Ascii(Tags(args)) && 0 !in Tags(args)
    decreases args
  {
    if args != [] {
      TagsAreText(args[1..]);
      if args[0].Array? {
        TagsAreText(args[0].items);
      }
    }
  }

  // ---- lists grow at their end ----

  lemma {:induction false} TagsAppend(a: seq<Arg>, b: seq<Arg>)
    ensures Tags(a + b) == Tags(a) + Tags(b)
    decreases a
  {
    if a == [] {
      assert a + b == b;
    } else {
      assert (a + b)[1..] == a[1..] + b;
      TagsAppend(a[1..], b);
    }
  }

  lemma {:induction false} ArgsBytesAppend(a: seq<Arg>, b: seq<Arg>)
    ensures ArgsBytes(a + b) == ArgsBytes(a) + ArgsBytes(b)
    decreases a
  {
    if a == [] {
      assert a + b == b;
    } else {
      assert (a + b)[1..] == a[1..] + b;
      ArgsBytesAppend(a[1..], b);
    }
  }

  /** The last item of a prefix, split off. */
  lemma TagsStep(args: seq<Arg>, k: nat)
    requires k < |args|
    ensures Tags(args[..k + 1]) == Tags(args[..k]) + ArgTags(args[k])
  {
    assert args[..k + 1] == args[..k] + [args[k]];
    TagsAppend(args[..k], [args[k]]);
  }

  lemma ArgsBytesStep(args: seq<Arg>, k: nat)
    requires k < |args|
    ensures ArgsBytes(args[..k + 1]) == ArgsBytes(args[..k]) + ArgBytes(args[k])
  {
    assert args[..k + 1] == args[..k] + [args[k]];
    ArgsBytesAppend(args[..k], [args[k]]);
  }

  lemma {:induction false} ArgsOkAppend(a: seq<Arg>, b: seq<Arg>, room: nat)
    ensures ArgsOk(a + b, room) <==> ArgsOk(a, room) && ArgsOk(b, room)
    decreases a
  {
    if a == [] {
      assert a + b == b;
    } else {
      assert (a + b)[1..] == a[1..] + b;
      ArgsOkAppend(a[1..], b, room);
    }
  }

  lemma {:induction false} ElementsBytesAppend(a: seq<Packet>, b: seq<Packet>)
    ensures ElementsBytes(a + b) == ElementsBytes(a) + ElementsBytes(b)
    decreases a
  {
    if a == [] {
      assert a + b == b;
    } else {
      assert (a + b)[1..] == a[1..] + b;
      ElementsBytesAppend(a[1..], b);
    }
  }

  lemma ElementsBytesStep(elements: seq<Packet>, k: nat)
    requires k < |elements|
    ensures ElementsBytes(elements[..k + 1]) == ElementsBytes(elements[..k]) + Sized(PacketBytes(elements[k]))
  {
    assert elements[..k + 1] == elements[..k] + [elements[k]];
    ElementsBytesAppend(elements[..k], [elements[k]]);
    assert [elements[k]][1..] == [];
  }
}
