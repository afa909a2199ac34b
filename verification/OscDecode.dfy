/** What the decoder computes, as functions of the bytes and an offset into them. */
module OscDecode {
  import opened Bytes
  import opened Wrappers
  import opened OscPacket
  import Utf8

  datatype OscError =
    | BundlesTooDeep
    | BadStart
    | ElementTooLong
    | ArraysTooDeep
    | UnmatchedClose
    | UnclosedArray
    | BadChar
    | UnknownTag
    | Truncated
    | UnterminatedStr
    | NotUtf8
    | BlobTooLong

  type Read<+T> = Parsed<T, OscError>

  function Align4(n: nat): nat {
    (n + 3) / 4 * 4
  }

  function ReadExact(data: seq<Byte>, pos: nat, n: nat): (r: Read<seq<Byte>>)
    ensures r.Got? ==> |r.value| == n
  {
    if pos + n > |data| then Bad(Truncated) else Got(data[pos..pos + n], pos + n)
  }

  function ReadU32(data: seq<Byte>, pos: nat): Read<U32> {
    match ReadExact(data, pos, 4)
    case Bad(e) => Bad(e)
    case Got(b, next) => Got(FromBe32(b), next)
  }

  function ReadU64(data: seq<Byte>, pos: nat): Read<U64> {
    match ReadExact(data, pos, 8)
    case Bad(e) => Bad(e)
    case Got(b, next) => Got(FromBe64(b), next)
  }

  /** Where the first NUL at or after `from` is, or the end of the data. */
  function FirstNul(data: seq<Byte>, from: nat): (nul: nat)
    requires from <= |data|
    ensures from <= nul <= |data|
    ensures forall i :: from <= i < nul ==> data[i] != 0
    ensures nul < |data| ==> data[nul] == 0
    decreases |data| - from
  {
    if from == |data| || data[from] == 0 then from else FirstNul(data, from + 1)
  }

  function ReadStr(data: seq<Byte>, pos: nat): Read<seq<Byte>> {
    if pos > |data| then
      Bad(Truncated)
    else
      var nul := FirstNul(data, pos);
      if nul == |data| then Bad(UnterminatedStr)
      else if !Utf8.Valid(data[pos..nul]) then Bad(NotUtf8)
      else Got(data[pos..nul], Align4(nul + 1))
  }

  function ReadBlob(data: seq<Byte>, pos: nat): Read<seq<Byte>> {
    match ReadU32(data, pos)
    case Bad(e) => Bad(e)
    case Got(len, start) =>
      if start + len > |data| then Bad(BlobTooLong)
      else Got(data[start..start + len], Align4(start + len))
  }

  function ReadTime(data: seq<Byte>, pos: nat): Read<TimeTag> {
    match ReadU32(data, pos)
    case Bad(e) => Bad(e)
    case Got(seconds, mid) =>
      match ReadU32(data, mid)
      case Bad(e) => Bad(e)
      case Got(fractional, next) => Got(TimeTag(seconds, fractional), next)
  }

  function Map<T, U>(r: Read<T>, f: T -> U): Read<U> {
    match r
    case Bad(e) => Bad(e)
    case Got(v, next) => Got(f(v), next)
  }

  function ReadSingleArg(data: seq<Byte>, pos: nat, tag: nat): Read<Arg> {
    match tag
    case 0x69 => Map(ReadU32(data, pos), u => Int(FromU32(u)))
    case 0x66 => Map(ReadU32(data, pos), u => Float(u))
    case 0x73 => Map(ReadStr(data, pos), s => Str(s))
    case 0x62 => Map(ReadBlob(data, pos), b => Blob(b))
    case 0x68 => Map(ReadU64(data, pos), u => Long(FromU64(u)))
    case 0x64 => Map(ReadU64(data, pos), u => Double(u))
    case 0x74 => Map(ReadTime(data, pos), t => Time(t))
    case 0x63 =>
      (match ReadU32(data, pos)
       case Bad(e) => Bad(e)
       case Got(code, next) => if Utf8.Scalar(code) then Got(Char(code), next) else Bad(BadChar))
    case 0x72 =>
      (match ReadExact(data, pos, 4)
       case Bad(e) => Bad(e)
       case Got(b, next) => Got(Color(b[0], b[1], b[2], b[3]), next))
    case 0x6D =>
      (match ReadExact(data, pos, 4)
       case Bad(e) => Bad(e)
       case Got(b, next) => Got(Midi(b[0], b[1], b[2], b[3]), next))
    case 0x54 => Got(Bool(true), pos)
    case 0x46 => Got(Bool(false), pos)
    case 0x4E => Got(Nil, pos)
    case 0x49 => Got(Impulse, pos)
    case _ => Bad(UnknownTag)
  }

  // ---- the tag machine ----

  /** Open argument lists, outermost first; index 0 is the message's own list. */
  type Stack = s: seq<seq<Arg>> | |s| > 0 witness [[]]

  function Pushed(stack: Stack, args: seq<Arg>): (r: Stack)
    ensures |r| == |stack|
  {
    stack[..|stack| - 1] + [stack[|stack| - 1] + args]
  }

  /** One tag: open a list, close one into its parent, or read one argument into the innermost. */
  function StepTag(data: seq<Byte>, pos: nat, tag: nat, stack: Stack): Read<Stack> {
    if tag == OPEN then
      if |stack| >= MAX_NESTING_DEPTH then Bad(ArraysTooDeep) else Got(stack + [[]], pos)
    else if tag == CLOSE then
      if |stack| == 1 then Bad(UnmatchedClose)
      else Got(Pushed(stack[..|stack| - 1], [Array(stack[|stack| - 1])]), pos)
    else
      match ReadSingleArg(data, pos, tag)
      case Bad(e) => Bad(e)
      case Got(arg, next) => Got(Pushed(stack, [arg]), next)
  }

  function RunTags(data: seq<Byte>, pos: nat, tags: seq<nat>, stack: Stack): Read<seq<Arg>>
    decreases |tags|
  {
    if tags == [] then
      if |stack| == 1 then Got(stack[0], pos) else Bad(UnclosedArray)
    else
      match StepTag(data, pos, tags[0], stack)
      case Bad(e) => Bad(e)
      case Got(stack', next) => RunTags(data, next, tags[1..], stack')
  }

  // ---- packets ----

  /** The tag characters after the comma; a message may leave the whole tag string out. */
  function ReadTags(data: seq<Byte>, pos: nat): Read<seq<nat>> {
    if pos < |data| && data[pos] == COMMA then
      match ReadStr(data, pos)
      case Bad(e) => Bad(e)
      case Got(raw, next) =>
        var chars := Utf8.Chars(raw);
        if chars.Some? && chars.value != [] then Got(chars.value[1..], next) else Got([], next)
    else
      Got([], pos)
  }

  function DecodeMessage(data: seq<Byte>): Result<Packet, OscError> {
    match ReadStr(data, 0)
    case Bad(e) => Err(e)
    case Got(address, p1) =>
      match ReadTags(data, p1)
      case Bad(e) => Err(e)
      case Got(tags, p2) =>
        match RunTags(data, p2, tags, [[]])
        case Bad(e) => Err(e)
        case Got(args, _) => Ok(Message(address, args))
  }

  function DecodeAt(data: seq<Byte>, depth: nat): Result<Packet, OscError>
    decreases |data|, |data| + 2
  {
    if depth > MAX_NESTING_DEPTH then Err(BundlesTooDeep)
    else if BUNDLE_TAG <= data then DecodeBundle(data, depth)
    else if data != [] && data[0] == SLASH then DecodeMessage(data)
    else Err(BadStart)
  }

  function DecodeBundle(data: seq<Byte>, depth: nat): Result<Packet, OscError>
    decreases |data|, |data| + 1
  {
    match ReadTime(data, 8)
    case Bad(e) => Err(e)
    case Got(time, pos) => Bundled(time, DecodeElements(data, pos, depth))
  }

  function Bundled(time: TimeTag, r: Result<seq<Packet>, OscError>): Result<Packet, OscError> {
    match r
    case Err(e) => Err(e)
    case Ok(elements) => Ok(Bundle(time, elements))
  }

  /** One sized element: the slice behind its size, and the offset after it. */
  function ReadSized(data: seq<Byte>, pos: nat): (r: Read<seq<Byte>>)
    ensures r.Got? ==> r.next == pos + 4 + |r.value| <= |data|
  {
    match ReadU32(data, pos)
    case Bad(e) => Bad(e)
    case Got(size, start) =>
      if start + size > |data| then Bad(ElementTooLong) else Got(data[start..start + size], start + size)
  }

  /** The sized elements from `pos` on, each decoded from its own slice one level deeper. */
  function DecodeElements(data: seq<Byte>, pos: nat, depth: nat): Result<seq<Packet>, OscError>
    requires pos <= |data|
    decreases |data|, |data| - pos
  {
    if pos == |data| then
      Ok([])
    else
      match ReadSized(data, pos)
      case Bad(e) => Err(e)
      case Got(slice, next) =>
        match DecodeAt(slice, depth + 1)
        case Err(e) => Err(e)
        case Ok(p) => Onto([p], DecodeElements(data, next, depth))
  }

  function Decode(data: seq<Byte>): Result<Packet, OscError> {
    DecodeAt(data, 0)
  }
}
