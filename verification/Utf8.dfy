/** UTF-8 as section 4 of RFC 3629 defines it: the test both parsers put every string through. */
module Utf8 {
  import opened Bytes
  import opened Wrappers

  predicate Cont(b: Byte) {
    0x80 <= b < 0xC0
  }

  /** The six payload bits of a continuation byte. */
  function Low(b: Byte): nat
    requires Cont(b)
  {
    b - 0x80
  }

  /** A Unicode scalar value: no surrogates, nothing above U+10FFFF. */
  predicate Scalar(c: nat) {
    c < 0xD800 || 0xE000 <= c < 0x11_0000
  }

  /** The first character of `s` and the number of bytes it takes, or None when `s` does not start with one. */
  function FirstChar(s: seq<Byte>): (r: Option<(nat, nat)>)
    requires |s| > 0
    ensures r.Some? ==> 1 <= r.value.1 <= |s| && Scalar(r.value.0)
    ensures r.Some? && r.value.0 < 0x80 ==> r.value == (s[0], 1)
  {
    var b := s[0];
    if b < 0x80 then
      Some((b, 1))
    else if 0xC2 <= b <= 0xDF && |s| >= 2 && Cont(s[1]) then
      Some((Two(b, s[1]), 2))
    else if 0xE0 <= b <= 0xEF && |s| >= 3 && Cont(s[1]) && Cont(s[2])
            && (b == 0xE0 ==> s[1] >= 0xA0) && (b == 0xED ==> s[1] < 0xA0) then
      Some((Three(b, s[1], s[2]), 3))
    else if 0xF0 <= b <= 0xF4 && |s| >= 4 && Cont(s[1]) && Cont(s[2]) && Cont(s[3])
            && (b == 0xF0 ==> s[1] >= 0x90) && (b == 0xF4 ==> s[1] < 0x90) then
      Some((Four(b, s[1], s[2], s[3]), 4))
    else
      None
  }

  function Two(b: int, c: Byte): (r: nat)
    requires 0xC2 <= b <= 0xDF && Cont(c)
    ensures Scalar(r) && r >= 0x80
  {
    (b - 0xC0) * 0x40 + Low(c)
  }

  function Three(b: int, c: Byte, d: Byte): (r: nat)
    requires 0xE0 <= b <= 0xEF && Cont(c) && Cont(d) && (b == 0xE0 ==> c >= 0xA0) && (b == 0xED ==> c < 0xA0)
    ensures Scalar(r) && r >= 0x80
  {
    (b - 0xE0) * 0x1000 + Low(c) * 0x40 + Low(d)
  }

  function Four(b: int, c: Byte, d: Byte, e: Byte): (r: nat)
    requires 0xF0 <= b <= 0xF4 && Cont(c) && Cont(d) && Cont(e) && (b == 0xF0 ==> c >= 0x90) && (b == 0xF4 ==> c < 0x90)
    ensures Scalar(r) && r >= 0x80
  {
    (b - 0xF0) * 0x4_0000 + Low(c) * 0x1000 + Low(d) * 0x40 + Low(e)
  }

  /** The characters of `s`, or None when `s` is not valid UTF-8. */
  function Chars(s: seq<Byte>): (r: Option<seq<nat>>)
    ensures r.Some? ==> |r.value| <= |s|
    decreases |s|
  {
    if s == [] then
      Some([])
    else
      match FirstChar(s)
      case None => None
      case Some((c, n)) =>
        match Chars(s[n..])
        case None => None
        case Some(cs) => Some([c] + cs)
  }

  predicate Valid(s: seq<Byte>) {
    Chars(s).Some?
  }

  predicate Ascii(s: seq<Byte>) {
    forall i :: 0 <= i < |s| ==> s[i] < 0x80
  }

  /** An ASCII string is its own character sequence. */
  lemma {:induction false} AsciiChars(s: seq<Byte>)
    requires Ascii(s)
    ensures Chars(s) == Some(s)
    decreases |s|
  {
    if s != [] {
      AsciiChars(s[1..]);
      assert [s[0]] + s[1..] == s;
    }
  }

  /** The first character of a string that starts with an ASCII byte is that byte. */
  lemma AsciiFirst(s: seq<Byte>)
    requires s != [] && s[0] < 0x80 && Valid(s)
    ensures Chars(s).value != [] && Chars(s).value[0] == s[0]
  {
  }

  /** Characters that are all ASCII come from themselves. */
  lemma {:induction false} AsciiBack(s: seq<Byte>)
    requires Valid(s) && forall i :: 0 <= i < |Chars(s).value| ==> Chars(s).value[i] < 0x80
    ensures Chars(s).value == s
    decreases |s|
  {
    if s != [] {
      assert Chars(s).value[0] == FirstChar(s).value.0;
      assert Chars(s).value[1..] == Chars(s[1..]).value;
      AsciiBack(s[1..]);
    }
  }

  // ---- the encoding itself, and both ways between it and the test ----

  function EncodeChar(c: nat): (r: seq<Byte>)
    requires Scalar(c)
    ensures 1 <= |r| <= 4
  {
    if c < 0x80 then [c]
    else if c < 0x800 then [0xC0 + c / 0x40, 0x80 + c % 0x40]
    else if c < 0x1_0000 then [0xE0 + c / 0x1000, 0x80 + c / 0x40 % 0x40, 0x80 + c % 0x40]
    else [0xF0 + c / 0x4_0000, 0x80 + c / 0x1000 % 0x40, 0x80 + c / 0x40 % 0x40, 0x80 + c % 0x40]
  }

  predicate Scalars(cs: seq<nat>) {
    forall i :: 0 <= i < |cs| ==> Scalar(cs[i])
  }

  function Encode(cs: seq<nat>): seq<Byte>
    requires Scalars(cs)
  {
    if cs == [] then [] else EncodeChar(cs[0]) + Encode(cs[1..])
  }

  /** The last digit in base 64, and the rest. */
  lemma Split64(hi: nat, lo: nat)
    requires lo < 0x40
    ensures (hi * 0x40 + lo) / 0x40 == hi && (hi * 0x40 + lo) % 0x40 == lo
  {
  }

  lemma Quotients(c: nat)
    ensures c / 0x1000 == c / 0x40 / 0x40 && c / 0x4_0000 == c / 0x40 / 0x40 / 0x40
  {
  }

  /** The bytes of a character, by its digits in base 64. */
  lemma EncodesTwo(a: nat, z: nat)
    requires 2 <= a < 0x20 && z < 0x40
    ensures EncodeChar(a * 0x40 + z) == [0xC0 + a, 0x80 + z]
  {
    Split64(a, z);
  }

  lemma EncodesThree(a: nat, y: nat, z: nat)
    requires a < 0x10 && y < 0x40 && z < 0x40 && Scalar(a * 0x1000 + y * 0x40 + z) && (a == 0 ==> y >= 0x20)
    ensures EncodeChar(a * 0x1000 + y * 0x40 + z) == [0xE0 + a, 0x80 + y, 0x80 + z]
  {
    var hi := a * 0x40 + y;
    Split64(hi, z);
    Split64(a, y);
    Quotients(hi * 0x40 + z);
  }

  lemma EncodesFour(a: nat, x: nat, y: nat, z: nat)
    requires x < 0x40 && y < 0x40 && z < 0x40 && (a == 0 ==> x >= 0x10) && (a == 4 ==> x < 0x10) && a <= 4
    ensures Scalar(a * 0x4_0000 + x * 0x1000 + y * 0x40 + z)
    ensures EncodeChar(a * 0x4_0000 + x * 0x1000 + y * 0x40 + z) == [0xF0 + a, 0x80 + x, 0x80 + y, 0x80 + z]
  {
    var high := a * 0x40 + x;
    var hi := high * 0x40 + y;
    Split64(hi, z);
    Split64(high, y);
    Split64(a, x);
    Quotients(hi * 0x40 + z);
  }

  lemma Digits(c: nat)
    ensures c == c / 0x40 * 0x40 + c % 0x40
    ensures c == c / 0x1000 * 0x1000 + c / 0x40 % 0x40 * 0x40 + c % 0x40
    ensures c == c / 0x4_0000 * 0x4_0000 + c / 0x1000 % 0x40 * 0x1000 + c / 0x40 % 0x40 * 0x40 + c % 0x40
  {
    Quotients(c);
    var a := c / 0x40;
    var b := a / 0x40;
    assert c == a * 0x40 + c % 0x40 && a == b * 0x40 + a % 0x40 && b == b / 0x40 * 0x40 + b % 0x40;
  }

  lemma FirstOfEncoded(c: nat, rest: seq<Byte>)
    requires Scalar(c)
    ensures FirstChar(EncodeChar(c) + rest) == Some((c, |EncodeChar(c)|))
  {
    var e := EncodeChar(c);
    var s := e + rest;
    assert s[0] == e[0] && (|e| > 1 ==> s[1] == e[1]) && (|e| > 2 ==> s[2] == e[2]) && (|e| > 3 ==> s[3] == e[3]);
    if c >= 0x1_0000 {
      ReadsFour(c, s);
    } else if c >= 0x800 {
      ReadsThree(c, s);
    }
  }

  lemma ReadsThree(c: nat, s: seq<Byte>)
    requires 0x800 <= c < 0x1_0000 && Scalar(c) && |s| >= 3
    requires s[0] == 0xE0 + c / 0x1000 && s[1] == 0x80 + c / 0x40 % 0x40 && s[2] == 0x80 + c % 0x40
    ensures FirstChar(s) == Some((c, 3))
  {
    Digits(c);
    assert c < 0x1000 ==> c / 0x40 % 0x40 >= 0x20;
    assert c / 0x1000 == 0xD ==> c / 0x40 % 0x40 < 0x20;
  }

  lemma ReadsFour(c: nat, s: seq<Byte>)
    requires 0x1_0000 <= c && Scalar(c) && |s| >= 4
    requires s[0] == 0xF0 + c / 0x4_0000 && s[1] == 0x80 + c / 0x1000 % 0x40
    requires s[2] == 0x80 + c / 0x40 % 0x40 && s[3] == 0x80 + c % 0x40
    ensures FirstChar(s) == Some((c, 4))
  {
    Digits(c);
    assert c < 0x4_0000 ==> c / 0x1000 % 0x40 >= 0x10;
    assert c / 0x4_0000 == 4 ==> c / 0x1000 % 0x40 < 0x10;
  }

  lemma {:induction false} EncodedIsValid(cs: seq<nat>)
    requires Scalars(cs)
    ensures Chars(Encode(cs)) == Some(cs)
    decreases |cs|
  {
    hide EncodeChar, FirstChar;
    if cs != [] {
      var first, rest := EncodeChar(cs[0]), Encode(cs[1..]);
      FirstOfEncoded(cs[0], rest);
      EncodedIsValid(cs[1..]);
      assert (first + rest)[|first|..] == rest;
      assert [cs[0]] + cs[1..] == cs;
    }
  }

  lemma FirstEncodes(s: seq<Byte>)
    requires s != [] && FirstChar(s).Some?
    ensures EncodeChar(FirstChar(s).value.0) == s[..FirstChar(s).value.1]
  {
    hide EncodeChar;
    var n := FirstChar(s).value.1;
    if n == 1 {
      OneEncodes(s[0]);
      assert s[..1] == [s[0]];
    } else if n == 2 {
      EncodesTwo(s[0] - 0xC0, Low(s[1]));
      assert s[..2] == [s[0], s[1]];
    } else if n == 3 {
      EncodesThree(s[0] - 0xE0, Low(s[1]), Low(s[2]));
      assert s[..3] == [s[0], s[1], s[2]];
    } else {
      EncodesFour(s[0] - 0xF0, Low(s[1]), Low(s[2]), Low(s[3]));
      assert s[..4] == [s[0], s[1], s[2], s[3]];
    }
  }

  lemma OneEncodes(b: Byte)
    requires b < 0x80
    ensures EncodeChar(b) == [b]
  {
  }

  /** The test accepts exactly the encodings of scalar values: nothing overlong, no surrogate, nothing cut short. */
  lemma {:induction false} ValidIsEncoded(s: seq<Byte>)
    requires Valid(s)
    ensures Scalars(Chars(s).value) && Encode(Chars(s).value) == s
    decreases |s|
  {
    hide EncodeChar, FirstChar;
    if s != [] {
      var (c, n) := FirstChar(s).value;
      ValidIsEncoded(s[n..]);
      FirstEncodes(s);
      assert Chars(s).value == [c] + Chars(s[n..]).value;
      assert Chars(s).value[1..] == Chars(s[n..]).value;
      assert s[..n] + s[n..] == s;
    }
  }
}
