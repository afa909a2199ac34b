/** What the decoder refuses and what it says: each kind of error, for every input of its kind. */
module OscErrors {
  import opened Bytes
  import opened Wrappers
  import opened OscPacket
  import opened OscDecode
  import opened OscSpelling
  import opened OscRoundTrip
  import Utf8

  // ---- packets ----

  /** What begins neither a message nor a bundle, and what lies too deep, is refused before anything else. */
  lemma BadStarts(data: seq<Byte>, depth: nat)
    ensures depth > 32 ==> DecodeAt(data, depth) == Err(BundlesTooDeep)
    ensures depth <= 32 && !At(data, 0, Codes("#bundle") + [0]) && (data == [] || data[0] != Code('/')) ==>
              DecodeAt(data, depth) == Err(BadStart)
  {
    BundleStart(data);
    assert Code('/') == SLASH;
  }

  /** An address without its NUL, or that is not UTF-8. */
  lemma BadAddresses(data: seq<Byte>, n: nat)
    requires n <= |data| && data != [] && data[0] == Code('/')
    requires (forall i :: 0 <= i < n ==> data[i] != 0) && (n < |data| ==> data[n] == 0)
    ensures n == |data| ==> Decode(data) == Err(UnterminatedStr)
    ensures n < |data| && !Utf8.Valid(data[..n]) ==> Decode(data) == Err(NotUtf8)
  {
    assert FirstNul(data, 0) == n;
    assert !(BUNDLE_TAG <= data) && data[0..n] == data[..n];
  }

  /** A bundle whose time tag is cut short, or whose element says it is longer than what is left. */
  lemma BadBundles(data: seq<Byte>, size: nat)
    requires At(data, 0, Codes("#bundle") + [0])
    ensures |data| < 16 ==> Decode(data) == Err(Truncated)
    ensures 16 < |data| < 20 ==> Decode(data) == Err(Truncated)
    ensures WordAt(data, 16, size) && 20 + size > |data| ==> Decode(data) == Err(ElementTooLong)
  {
    BundleStart(data);
    assert BUNDLE_TAG <= data && Decode(data) == DecodeBundle(data, 0);
    if |data| < 16 {
      assert ReadTime(data, 8) == Bad(Truncated);
    } else {
      assert ReadTime(data, 8).Got? && ReadTime(data, 8).next == 16;
      if 16 < |data| < 20 {
        assert DecodeElements(data, 16, 0) == Err(Truncated);
      }
      if WordAt(data, 16, size) {
        WordEnds(data, 16, size);
        ReadsWord(data, 16, size);
        if 20 + size > |data| {
          assert ReadSized(data, 16) == Bad(ElementTooLong);
          assert DecodeElements(data, 16, 0) == Err(ElementTooLong);
        }
      }
    }
  }

  // ---- arguments ----

  /** Tags that stand for arguments already there, and one more that goes wrong. */
  lemma AfterArgs(data: seq<Byte>, pos: nat, args: seq<Arg>, tag: nat, rest: seq<nat>)
    requires ArgsOk(args, MAX_NESTING_DEPTH - 1) && ArgsAt(data, pos, args) && pos % 4 == 0
    ensures var tags := Codes(Letters(args)) + ([tag] + rest);
            var step := StepTag(data, pos + ArgsWidth(args), tag, [args]);
            RunTags(data, pos, tags, [[]])
            == if step.Bad? then Bad(step.error) else RunTags(data, step.next, rest, step.value)
  {
    hide RunTags, StepTag, Codes, ArgsOk, ArgsAt, ArgsWidth, Letters, Pushed;
    RunRebuilds(data, pos, args, [tag] + rest, [[]]);
    PushedFirst(args);
    RunsOn(data, pos + ArgsWidth(args), tag, rest, [args]);
  }

  lemma RunsOn(data: seq<Byte>, pos: nat, tag: nat, rest: seq<nat>, stack: Stack)
    ensures var step := StepTag(data, pos, tag, stack);
            RunTags(data, pos, [tag] + rest, stack)
            == if step.Bad? then Bad(step.error) else RunTags(data, step.next, rest, step.value)
  {
    hide StepTag;
    assert ([tag] + rest)[1..] == rest;
  }

  /** A bracket that closes nothing. */
  lemma StrayClose(data: seq<Byte>, pos: nat, args: seq<Arg>, rest: seq<nat>)
    requires ArgsOk(args, MAX_NESTING_DEPTH - 1) && ArgsAt(data, pos, args) && pos % 4 == 0
    ensures RunTags(data, pos, Codes(Letters(args)) + ([Code(']')] + rest), [[]]) == Bad(UnmatchedClose)
  {
    hide RunTags, Codes, ArgsOk, ArgsAt, ArgsWidth, Letters, ReadSingleArg;
    AfterArgs(data, pos, args, Code(']'), rest);
    ClosesNothing(data, pos + ArgsWidth(args), [args]);
    hide StepTag;
  }

  lemma ClosesNothing(data: seq<Byte>, pos: nat, stack: Stack)
    requires |stack| == 1
    ensures StepTag(data, pos, Code(']'), stack) == Bad(UnmatchedClose)
  {
  }

  /** A letter that is none of the standard's. */
  lemma StrayLetter(data: seq<Byte>, pos: nat, args: seq<Arg>, tag: nat, rest: seq<nat>)
    requires ArgsOk(args, MAX_NESTING_DEPTH - 1) && ArgsAt(data, pos, args) && pos % 4 == 0
    requires forall i :: 0 <= i < 16 ==> tag != Code("ifsbhdtcrmTFNI[]"[i])
    ensures RunTags(data, pos, Codes(Letters(args)) + ([tag] + rest), [[]]) == Bad(UnknownTag)
  {
    hide RunTags, Codes, ArgsOk, ArgsAt, ArgsWidth, Letters;
    AfterArgs(data, pos, args, tag, rest);
    NoSuchLetter(data, pos + ArgsWidth(args), tag, [args]);
    hide StepTag;
  }

  lemma NoSuchLetter(data: seq<Byte>, pos: nat, tag: nat, stack: Stack)
    requires forall i :: 0 <= i < 16 ==> tag != Code("ifsbhdtcrmTFNI[]"[i])
    ensures StepTag(data, pos, tag, stack) == Bad(UnknownTag)
  {
    var all := "ifsbhdtcrmTFNI[]";
    assert tag != Code(all[0]) && tag != Code(all[1]) && tag != Code(all[2]) && tag != Code(all[3]);
    assert tag != Code(all[4]) && tag != Code(all[5]) && tag != Code(all[6]) && tag != Code(all[7]);
    assert tag != Code(all[8]) && tag != Code(all[9]) && tag != Code(all[10]) && tag != Code(all[11]);
    assert tag != Code(all[12]) && tag != Code(all[13]) && tag != Code(all[14]) && tag != Code(all[15]);
  }

  /** An argument of four or eight bytes that the data does not hold. */
  lemma MissingBytes(data: seq<Byte>, pos: nat, args: seq<Arg>, letter: char, rest: seq<nat>)
    requires ArgsOk(args, MAX_NESTING_DEPTH - 1) && ArgsAt(data, pos, args) && pos % 4 == 0
    requires (letter in "ifbcrm" && pos + ArgsWidth(args) + 4 > |data|)
          || (letter in "hdt" && pos + ArgsWidth(args) + 8 > |data|)
    ensures RunTags(data, pos, Codes(Letters(args)) + ([Code(letter)] + rest), [[]]) == Bad(Truncated)
  {
    hide RunTags, Codes, ArgsOk, ArgsAt, ArgsWidth, Letters;
    AfterArgs(data, pos, args, Code(letter), rest);
    MissingOne(data, pos + ArgsWidth(args), letter);
    hide ReadSingleArg, Code;
  }

  lemma MissingOne(data: seq<Byte>, pos: nat, letter: char)
    requires (letter in "ifbcrm" && pos + 4 > |data|) || (letter in "hdt" && pos + 8 > |data|)
    ensures ReadSingleArg(data, pos, Code(letter)) == Bad(Truncated) && Code(letter) != OPEN && Code(letter) != CLOSE
  {
  }

  /** A list that is opened and not closed. */
  lemma OpenList(data: seq<Byte>, pos: nat, args: seq<Arg>, inner: seq<Arg>)
    requires ArgsOk(args, MAX_NESTING_DEPTH - 1) && ArgsAt(data, pos, args) && pos % 4 == 0
    requires ArgsOk(inner, MAX_NESTING_DEPTH - 2) && ArgsAt(data, pos + ArgsWidth(args), inner)
    ensures RunTags(data, pos, Codes(Letters(args)) + ([Code('[')] + (Codes(Letters(inner)) + [])), [[]])
         == Bad(UnclosedArray)
  {
    hide RunTags, Codes, ArgsOk, ArgsAt, ArgsWidth, Letters, StepTag, Pushed;
    var mid := pos + ArgsWidth(args);
    AfterArgs(data, pos, args, Code('['), Codes(Letters(inner)) + []);
    OpensOne(data, mid, [args]);
    WidthsAgree(args);
    AlignedSum(pos, ArgsWidth(args));
    RunRebuilds(data, mid, inner, [], [args] + [[]]);
    PushedFresh([args], inner);
    EndsOpen(data, mid + ArgsWidth(inner), [args] + [inner]);
  }

  lemma OpensOne(data: seq<Byte>, pos: nat, stack: Stack)
    requires |stack| < 32
    ensures StepTag(data, pos, Code('['), stack) == Got(stack + [[]], pos)
  {
  }

  lemma EndsOpen(data: seq<Byte>, pos: nat, stack: Stack)
    requires |stack| > 1
    ensures RunTags(data, pos, [], stack) == Bad(UnclosedArray)
  {
  }

  /** More lists open at once than the cap allows. */
  lemma {:induction false} ManyLists(data: seq<Byte>, pos: nat, opens: seq<nat>, stack: Stack)
    requires forall i :: 0 <= i < |opens| ==> opens[i] == Code('[') as int
    requires |stack| <= 32 && |stack| + |opens| > 32
    ensures RunTags(data, pos, opens, stack) == Bad(ArraysTooDeep)
    decreases |opens|
  {
    if |stack| < 32 {
      ManyLists(data, pos, opens[1..], stack + [[]]);
    }
  }

  // ---- single arguments ----

  /** A string past the end, without its NUL or not UTF-8; a blob longer than the data; a code that is no character. */
  lemma BadArguments(data: seq<Byte>, pos: nat, n: nat)
    ensures pos > |data| ==> ReadSingleArg(data, pos, Code('s')) == Bad(Truncated)
    ensures pos <= n <= |data| && (forall i :: pos <= i < n ==> data[i] != 0) ==>
              && (n == |data| ==> ReadSingleArg(data, pos, Code('s')) == Bad(UnterminatedStr))
              && (n < |data| && data[n] == 0 && !Utf8.Valid(data[pos..n]) ==>
                    ReadSingleArg(data, pos, Code('s')) == Bad(NotUtf8))
    ensures WordAt(data, pos, n) && pos + 4 + n > |data| ==> ReadSingleArg(data, pos, Code('b')) == Bad(BlobTooLong)
    ensures WordAt(data, pos, n) && !Utf8.Scalar(n) ==> ReadSingleArg(data, pos, Code('c')) == Bad(BadChar)
  {
    hide FromBe32;
    if WordAt(data, pos, n) {
      WordEnds(data, pos, n);
      ReadsWord(data, pos, n);
    }
    hide WordAt;
  }
}
