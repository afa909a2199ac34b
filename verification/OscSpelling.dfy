/**
 * Which byte strings spell a packet, after the Open Sound Control 1.0 sections on messages, type tag strings,
 * arguments and bundles, and with everything the decoder forgives: any padding, padding missing at the end, a
 * message without a tag string, bytes after the arguments.
 */
module OscSpelling {
  import opened Bytes
  import opened OscPacket

  /** The next multiple of four. */
  function NextWord(n: nat): nat {
    if n % 4 == 0 then n else n + 4 - n % 4
  }

  function Codes(s: string): seq<Byte> {
    seq(|s|, i requires 0 <= i < |s| => Code(s[i]))
  }

  function Code(c: char): Byte {
    if c as int < 128 then c as int else 0
  }

  function Letter(arg: Arg): char
    requires !arg.Array?
  {
    match arg
    case Int(_) => 'i'
    case Float(_) => 'f'
    case Str(_) => 's'
    case Blob(_) => 'b'
    case Long(_) => 'h'
    case Double(_) => 'd'
    case Time(_) => 't'
    case Char(_) => 'c'
    case Color(_, _, _, _) => 'r'
    case Midi(_, _, _, _) => 'm'
    case Bool(v) => if v then 'T' else 'F'
    case Nil => 'N'
    case Impulse => 'I'
  }

  /** The letters of an argument list, an array's between brackets. */
  function Letters(args: seq<Arg>): string
    decreases args
  {
    if args == [] then "" else ArgLetters(args[0]) + Letters(args[1..])
  }

  function ArgLetters(arg: Arg): string
    decreases arg
  {
    if arg.Array? then "[" + Letters(arg.items) + "]" else [Letter(arg)]
  }

  /** A big-endian word. */
  predicate WordAt(data: seq<Byte>, pos: nat, v: nat) {
    && pos + 4 <= |data|
    && v == data[pos] as int * 0x100_0000 + data[pos + 1] as int * 0x1_0000
            + data[pos + 2] as int * 0x100 + data[pos + 3]
  }

  predicate WordsAt(data: seq<Byte>, pos: nat, v: nat) {
    WordAt(data, pos, v / 0x1_0000_0000) && WordAt(data, pos + 4, v % 0x1_0000_0000)
  }

  /** A string and its NUL; what pads it to the next word may be anything, and may be missing. */
  ghost predicate StrAt(data: seq<Byte>, pos: nat, s: seq<Byte>) {
    At(data, pos, s + [0])
  }

  function StrWidth(s: seq<Byte>): nat {
    NextWord(|s| + 1)
  }

  function ArgWidth(arg: Arg): nat
    decreases arg
  {
    match arg
    case Int(_) => 4
    case Float(_) => 4
    case Str(s) => StrWidth(s)
    case Blob(b) => 4 + NextWord(|b|)
    case Long(_) => 8
    case Double(_) => 8
    case Time(_) => 8
    case Char(_) => 4
    case Color(_, _, _, _) => 4
    case Midi(_, _, _, _) => 4
    case Bool(_) => 0
    case Nil => 0
    case Impulse => 0
    case Array(items) => ArgsWidth(items)
  }

  function ArgsWidth(args: seq<Arg>): nat
    decreases args
  {
    if args == [] then 0 else ArgWidth(args[0]) + ArgsWidth(args[1..])
  }

  ghost predicate ArgAt(data: seq<Byte>, pos: nat, arg: Arg)
    decreases arg
  {
    match arg
    case Int(i) => WordAt(data, pos, if i < 0 then i + 0x1_0000_0000 else i)
    case Float(bits) => WordAt(data, pos, bits)
    case Str(s) => StrAt(data, pos, s)
    case Blob(b) => WordAt(data, pos, |b|) && At(data, pos + 4, b)
    case Long(l) => WordsAt(data, pos, if l < 0 then l + 0x1_0000_0000_0000_0000 else l)
    case Double(bits) => WordsAt(data, pos, bits)
    case Time(t) => WordAt(data, pos, t.seconds) && WordAt(data, pos + 4, t.fractional)
    case Char(c) => WordAt(data, pos, c)
    case Color(r, g, b, a) => At(data, pos, [r, g, b, a])
    case Midi(a, b, c, d) => At(data, pos, [a, b, c, d])
    case Bool(_) => true
    case Nil => true
    case Impulse => true
    case Array(items) => ArgsAt(data, pos, items)
  }

  /** Arguments one after the other; brackets take no room. */
  ghost predicate ArgsAt(data: seq<Byte>, pos: nat, args: seq<Arg>)
    decreases args
  {
    args != [] ==> ArgAt(data, pos, args[0]) && ArgsAt(data, pos + ArgWidth(args[0]), args[1..])
  }

  /** A comma and the letters. */
  function TagString(args: seq<Arg>): seq<Byte> {
    [0x2C] + Codes(Letters(args))
  }

  /** A message without arguments may leave its tag string out: what follows is then anything but a comma. */
  ghost predicate MessageAt(data: seq<Byte>, address: seq<Byte>, args: seq<Arg>) {
    var tags := StrWidth(address);
    && StrAt(data, 0, address)
    && if tags < |data| && data[tags] == 0x2C then
         StrAt(data, tags, TagString(args)) && ArgsAt(data, tags + StrWidth(TagString(args)), args)
       else
         args == []
  }

  ghost predicate Spells(data: seq<Byte>, p: Packet)
    decreases p
  {
    match p
    case Message(address, args) => MessageAt(data, address, args)
    case Bundle(time, elements) =>
      && At(data, 0, Codes("#bundle") + [0])
      && WordAt(data, 8, time.seconds) && WordAt(data, 12, time.fractional)
      && ElementsAt(data, 16, elements)
  }

  /** Elements behind their sizes, up to the end of the bundle. */
  ghost predicate ElementsAt(data: seq<Byte>, pos: nat, elements: seq<Packet>)
    decreases elements
  {
    if elements == [] then pos == |data|
    else exists n: nat :: SizedAt(data, pos, n) && Spells(data[pos + 4..pos + 4 + n], elements[0])
                          && ElementsAt(data, pos + 4 + n, elements[1..])
  }

  predicate SizedAt(data: seq<Byte>, pos: nat, n: nat) {
    WordAt(data, pos, n) && pos + 4 + n <= |data|
  }

  // ---- the words of the decoder and of the encoder ----

  lemma WordIsBe32(data: seq<Byte>, pos: nat, v: U32)
    ensures WordAt(data, pos, v) <==> At(data, pos, Be32(v))
    ensures pos + 4 <= |data| ==> WordAt(data, pos, FromBe32(data[pos..pos + 4]))
  {
    Be32RoundTrip(v);
    if pos + 4 <= |data| {
      Be32Inverts(data[pos..pos + 4]);
    }
  }

  lemma Be32Inverts(s: seq<Byte>)
    requires |s| == 4
    ensures Be32(FromBe32(s)) == s
  {
    var a, b, c := s[0] as int, s[0] as int * 0x100 + s[1], (s[0] as int * 0x100 + s[1]) * 0x100 + s[2];
    LowByte(a, s[1]);
    LowByte(b, s[2]);
    LowByte(c, s[3]);
    var n := FromBe32(s);
    assert n == c * 0x100 + s[3];
    assert n / 0x1_0000 == n / 0x100 / 0x100 && n / 0x100_0000 == n / 0x100 / 0x100 / 0x100;
  }

  lemma LowByte(hi: nat, lo: Byte)
    ensures (hi * 0x100 + lo) / 0x100 == hi && (hi * 0x100 + lo) % 0x100 == lo
  {
  }

  lemma WordsAreBe64(data: seq<Byte>, pos: nat, v: U64)
    ensures WordsAt(data, pos, v) <==> At(data, pos, Be64(v))
  {
    var hi, lo := v / 0x1_0000_0000, v % 0x1_0000_0000;
    WordIsBe32(data, pos, hi);
    WordIsBe32(data, pos + 4, lo);
    hide Be32;
    if At(data, pos, Be64(v)) {
      AtSplit(data, pos, Be32(hi), Be32(lo));
    }
    if WordsAt(data, pos, v) {
      AtJoin(data, pos, Be32(hi), Be32(lo));
    }
  }

  lemma AtJoin(data: seq<Byte>, pos: nat, a: seq<Byte>, b: seq<Byte>)
    requires At(data, pos, a) && At(data, pos + |a|, b)
    ensures At(data, pos, a + b)
  {
    assert data[pos..pos + |a| + |b|] == data[pos..pos + |a|] + data[pos + |a|..pos + |a| + |b|];
  }

  /** The encoder's tags are the standard's letters. */
  lemma {:induction false} TagsAreLetters(args: seq<Arg>)
    ensures Tags(args) == Codes(Letters(args))
    decreases args
  {
    if args != [] {
      ArgTagsAreLetters(args[0]);
      TagsAreLetters(args[1..]);
      CodesAppend(ArgLetters(args[0]), Letters(args[1..]));
    }
  }

  lemma {:induction false} ArgTagsAreLetters(arg: Arg)
    ensures ArgTags(arg) == Codes(ArgLetters(arg))
    decreases arg
  {
    if arg.Array? {
      TagsAreLetters(arg.items);
      CodesAppend("[" + Letters(arg.items), "]");
      CodesAppend("[", Letters(arg.items));
      assert Codes("[") == [OPEN] && Codes("]") == [CLOSE];
    }
  }

  lemma CodesAppend(a: string, b: string)
    ensures Codes(a + b) == Codes(a) + Codes(b)
  {
  }

  lemma {:induction false} WidthsAgree(args: seq<Arg>)
    ensures ArgsWidth(args) == |ArgsBytes(args)|
    decreases args
  {
    if args != [] {
      WidthAgrees(args[0]);
      WidthsAgree(args[1..]);
    }
  }

  lemma {:induction false} WidthAgrees(arg: Arg)
    ensures ArgWidth(arg) == |ArgBytes(arg)|
    decreases arg
  {
    if arg.Array? {
      WidthsAgree(arg.items);
    }
  }
}
