/** The decoder as it runs: a cursor over the data, a loop over the tags with an explicit stack. */
module OscReader {
  import opened Bytes
  import opened Wrappers
  import opened OscPacket
  import opened OscDecode
  import Utf8

  /** A reader method does what its function says: same value and cursor, or the same error. */
  ghost predicate Agrees<T>(r: Result<T, OscError>, pos: nat, spec: Read<T>) {
    match spec
    case Got(v, next) => r == Ok(v) && pos == next
    case Bad(e) => r == Err(e)
  }

  class Cursor {
    const data: seq<Byte>
    var pos: nat

    constructor (data: seq<Byte>)
      ensures this.data == data && pos == 0
    {
      this.data := data;
      pos := 0;
    }

    method Exact(n: nat) returns (r: Result<seq<Byte>, OscError>)
      modifies this
      ensures Agrees(r, pos, ReadExact(data, old(pos), n))
    {
      var end := pos + n;
      if end > |data| {
        return Err(Truncated);
      }
      r := Ok(data[pos..end]);
      pos := end;
    }

    method Word32() returns (r: Result<U32, OscError>)
      modifies this
      ensures Agrees(r, pos, ReadU32(data, old(pos)))
    {
      var b := Exact(4);
      r := match b case Err(e) => Err(e) case Ok(v) => Ok(FromBe32(v));
    }

    method Word64() returns (r: Result<U64, OscError>)
      modifies this
      ensures Agrees(r, pos, ReadU64(data, old(pos)))
    {
      var b := Exact(8);
      r := match b case Err(e) => Err(e) case Ok(v) => Ok(FromBe64(v));
    }

    method Time() returns (r: Result<TimeTag, OscError>)
      modifies this
      ensures Agrees(r, pos, ReadTime(data, old(pos)))
    {
      var seconds := Word32();
      if seconds.Err? {
        return Err(seconds.error);
      }
      var fractional := Word32();
      if fractional.Err? {
        return Err(fractional.error);
      }
      r := Ok(TimeTag(seconds.value, fractional.value));
    }

    method Text() returns (r: Result<seq<Byte>, OscError>)
      modifies this
      ensures Agrees(r, pos, ReadStr(data, old(pos)))
    {
      var start := pos;
      if start > |data| {
        return Err(Truncated);
      }
      var nul := start;
      while nul < |data| && data[nul] != 0
        invariant start <= nul <= |data|
        invariant FirstNul(data, nul) == FirstNul(data, start)
      {
        nul := nul + 1;
      }
      if nul == |data| {
        return Err(UnterminatedStr);
      }
      if !Utf8.Valid(data[start..nul]) {
        return Err(NotUtf8);
      }
      pos := Align4(nul + 1);
      r := Ok(data[start..nul]);
    }

    method Bytes() returns (r: Result<seq<Byte>, OscError>)
      modifies this
      ensures Agrees(r, pos, ReadBlob(data, old(pos)))
    {
      var len := Word32();
      if len.Err? {
        return Err(len.error);
      }
      var end := pos + len.value;
      if end > |data| {
        return Err(BlobTooLong);
      }
      r := Ok(data[pos..end]);
      pos := Align4(end);
    }

    method SingleArg(tag: nat) returns (r: Result<Arg, OscError>)
      modifies this
      ensures Agrees(r, pos, ReadSingleArg(data, old(pos), tag))
    {
      match tag
      case 0x69 => var v := Word32(); r := match v case Err(e) => Err(e) case Ok(u) => Ok(Int(FromU32(u)));
      case 0x66 => var v := Word32(); r := match v case Err(e) => Err(e) case Ok(u) => Ok(Float(u));
      case 0x73 => var v := Text(); r := match v case Err(e) => Err(e) case Ok(s) => Ok(Str(s));
      case 0x62 => var v := Bytes(); r := match v case Err(e) => Err(e) case Ok(b) => Ok(Blob(b));
      case 0x68 => var v := Word64(); r := match v case Err(e) => Err(e) case Ok(u) => Ok(Long(FromU64(u)));
      case 0x64 => var v := Word64(); r := match v case Err(e) => Err(e) case Ok(u) => Ok(Double(u));
      case 0x74 => var v := Time(); r := match v case Err(e) => Err(e) case Ok(t) => Ok(Arg.Time(t));
      case 0x63 =>
        var v := Word32();
        r := match v
          case Err(e) => Err(e)
          case Ok(code) => if Utf8.Scalar(code) then Ok(Char(code)) else Err(BadChar);
      case 0x72 =>
        var v := Exact(4);
        r := match v case Err(e) => Err(e) case Ok(b) => Ok(Color(b[0], b[1], b[2], b[3]));
      case 0x6D =>
        var v := Exact(4);
        r := match v case Err(e) => Err(e) case Ok(b) => Ok(Midi(b[0], b[1], b[2], b[3]));
      case 0x54 => r := Ok(Bool(true));
      case 0x46 => r := Ok(Bool(false));
      case 0x4E => r := Ok(Nil);
      case 0x49 => r := Ok(Impulse);
      case _ => r := Err(UnknownTag);
    }

    method TypedArgs(tags: seq<nat>) returns (r: Result<seq<Arg>, OscError>)
      modifies this
      ensures Agrees(r, pos, RunTags(data, old(pos), tags, [[]]))
    {
      var stack: Stack := [[]];
      var k := 0;
      while k < |tags|
        invariant k <= |tags|
        invariant RunTags(data, pos, tags[k..], stack) == RunTags(data, old(pos), tags, [[]])
      {
        var top := |stack| - 1;
        var tag := tags[k];
        ghost var entry := stack;
        assert tags[k..][1..] == tags[k + 1..] && tags[k..][0] == tag;
        if tag == OPEN {
          if |stack| >= MAX_NESTING_DEPTH {
            return Err(ArraysTooDeep);
          }
          stack := stack + [[]];
        } else if tag == CLOSE {
          var inner := stack[top];
          if top == 0 {
            return Err(UnmatchedClose);
          }
          stack := stack[..top];
          stack := stack[top - 1 := stack[top - 1] + [Array(inner)]];
          assert stack == Pushed(entry[..top], [Array(inner)]);
        } else {
          var arg := SingleArg(tag);
          if arg.Err? {
            return Err(arg.error);
          }
          stack := stack[top := stack[top] + [arg.value]];
          assert stack == Pushed(entry, [arg.value]);
        }
        k := k + 1;
      }
      if |stack| != 1 {
        return Err(UnclosedArray);
      }
      r := Ok(stack[0]);
    }
  }

  method ReadPacket(data: seq<Byte>) returns (r: Result<Packet, OscError>)
    ensures r == Decode(data)
  {
    r := ReadPacketAt(data, 0);
  }

  method ReadPacketAt(data: seq<Byte>, depth: nat) returns (r: Result<Packet, OscError>)
    ensures r == DecodeAt(data, depth)
    decreases |data|, 1
  {
    if depth > MAX_NESTING_DEPTH {
      r := Err(BundlesTooDeep);
    } else if BUNDLE_TAG <= data {
      r := ReadBundle(data, depth);
    } else if |data| > 0 && data[0] == SLASH {
      r := ReadMessage(data);
    } else {
      r := Err(BadStart);
    }
  }

  method ReadBundle(data: seq<Byte>, depth: nat) returns (r: Result<Packet, OscError>)
    requires BUNDLE_TAG <= data
    ensures r == DecodeBundle(data, depth)
    decreases |data|, 0
  {
    hide DecodeAt, FromBe32, Onto;
    var c := new Cursor(data);
    c.pos := 8;
    var time := c.Time();
    if time.Err? {
      return Err(time.error);
    }
    var elements: seq<Packet> := [];
    ghost var all := DecodeElements(data, c.pos, depth);
    assert DecodeBundle(data, depth) == Bundled(time.value, all);
    OntoNothing(all);
    while c.pos < |data|
      invariant 16 <= c.pos <= |data|
      invariant all == Onto(elements, DecodeElements(data, c.pos, depth))
      decreases |data| - c.pos
    {
      var size := c.Word32();
      if size.Err? {
        OntoError<Packet, OscError>(elements, size.error);
        return Err(size.error);
      }
      var end := c.pos + size.value;
      if end > |data| {
        OntoError<Packet, OscError>(elements, ElementTooLong);
        return Err(ElementTooLong);
      }
      assert ReadSized(data, c.pos - 4) == Got(data[c.pos..end], end);
      var element := ReadPacketAt(data[c.pos..end], depth + 1);
      if element.Err? {
        OntoError<Packet, OscError>(elements, element.error);
        return Err(element.error);
      }
      OntoTwice(elements, element.value, DecodeElements(data, end, depth));
      elements := elements + [element.value];
      c.pos := end;
    }
    OntoEnd<Packet, OscError>(elements);
    r := Ok(Bundle(time.value, elements));
  }

  method ReadMessage(data: seq<Byte>) returns (r: Result<Packet, OscError>)
    ensures r == DecodeMessage(data)
  {
    var c := new Cursor(data);
    var address := c.Text();
    if address.Err? {
      return Err(address.error);
    }
    var tags: seq<nat> := [];
    if c.pos < |data| && data[c.pos] == COMMA {
      var raw := c.Text();
      if raw.Err? {
        return Err(raw.error);
      }
      var chars := Utf8.Chars(raw.value);
      if chars.Some? && chars.value != [] {
        tags := chars.value[1..];
      }
    }
    var args := c.TypedArgs(tags);
    if args.Err? {
      return Err(args.error);
    }
    r := Ok(Message(address.value, args.value));
  }
}
