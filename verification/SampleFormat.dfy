/** Wire sample formats: exact-arithmetic quantisation, little-endian words, whole buffers. */
module SampleFormat {
  import opened Bytes
  import opened Wrappers
  import opened Chunks

  /** The wire formats. A 32-bit float sample travels as its own bit pattern and is not quantised. */
  datatype Format = U8 | S16 | S24 | S32 | Float32 {
    function Width(): (w: nat)
      ensures 1 <= w <= 4
    {
      match this
      case U8 => 1
      case S16 => 2
      case S24 => 3
      case S32 => 4
      case Float32 => 4
    }

    /** The largest magnitude the encoder produces; one less than full scale. */
    function Peak(): (p: int)
      requires !Float32?
      ensures p >= 0x7F
    {
      match this
      case U8 => 0x7F
      case S16 => 0x7FFF
      case S24 => 0x7F_FFFF
      case S32 => 0x7FFF_FFFF
    }
  }

  /** What a 32-bit float stands for. */
  datatype Number = Finite(value: real) | Infinite(negative: bool) | NotANumber

  function Pow2(n: nat): (r: real)
    ensures r >= 1.0
  {
    if n == 0 then 1.0 else 2.0 * Pow2(n - 1)
  }

  /** A bit pattern read as IEEE 754 single precision: sign, eight bits of exponent, 23 of fraction. */
  function ValueOf(bits: U32): Number {
    var negative, exponent, fraction := bits >= 0x8000_0000, bits / 0x80_0000 % 256, bits % 0x80_0000;
    if exponent == 255 then
      if fraction == 0 then Infinite(negative) else NotANumber
    else
      Finite(if negative then -Magnitude(exponent, fraction) else Magnitude(exponent, fraction))
  }

  function Magnitude(exponent: nat, fraction: nat): real {
    if exponent == 0 then fraction as real / Pow2(149)
    else if exponent < 150 then (0x80_0000 + fraction) as real / Pow2(150 - exponent)
    else (0x80_0000 + fraction) as real * Pow2(exponent - 150)
  }

  /** The order of floats, to which a NaN does not belong. */
  predicate AtMost(s: Number, t: Number) {
    && !s.NotANumber? && !t.NotANumber?
    && ((s.Infinite? && s.negative) || (t.Infinite? && !t.negative) || (s.Finite? && t.Finite? && s.value <= t.value))
  }

  /** NaN is silence, infinities are full scale. */
  function ClampUnit(s: Number): (r: real)
    ensures -1.0 <= r <= 1.0
  {
    match s
    case NotANumber => 0.0
    case Infinite(negative) => if negative then -1.0 else 1.0
    case Finite(v) => if v < -1.0 then -1.0 else if v > 1.0 then 1.0 else v
  }

  /** Rounds half away from zero. */
  function Round(x: real): int {
    if x >= 0.0 then (x + 0.5).Floor else -(-x + 0.5).Floor
  }

  function Clamp(v: int, lo: int, hi: int): int
    requires lo <= hi
  {
    if v < lo then lo else if v > hi then hi else v
  }

  /** The signed level a clamped sample is quantised to; the byte format stores it above an offset of 128. */
  function UnitLevel(f: Format, c: real): int
    requires !f.Float32?
  {
    var v := Round(c * f.Peak() as real);
    if f.U8? then Clamp(v + 128, 0, 255) - 128 else Clamp(v, -f.Peak() - 1, f.Peak())
  }

  function Level(f: Format, s: Number): int
    requires !f.Float32?
  {
    UnitLevel(f, ClampUnit(s))
  }

  /** The two's-complement pattern of a level, in as many bits as the format has. */
  function Pattern(f: Format, v: int): nat
    requires !f.Float32? && -f.Peak() - 1 <= v <= f.Peak()
  {
    if f.U8? then v + 128 else if v < 0 then v + 2 * (f.Peak() + 1) else v
  }

  /** The low `w` bytes of a word, least significant first. */
  function LittleEndian(n: nat, w: nat): (r: seq<Byte>)
    ensures |r| == w
  {
    if w == 0 then [] else [n % 256] + LittleEndian(n / 256, w - 1)
  }

  function FromLittleEndian(s: seq<Byte>): nat {
    if s == [] then 0 else s[0] + 256 * FromLittleEndian(s[1..])
  }

  // ---- levels ----

  lemma RoundNear(x: real)
    ensures -0.5 <= Round(x) as real - x <= 0.5
  {
  }

  lemma FloorMonotone(a: real, b: real)
    requires a <= b
    ensures a.Floor <= b.Floor
  {
  }

  lemma RoundMonotone(a: real, b: real)
    requires a <= b
    ensures Round(a) <= Round(b)
  {
    if a >= 0.0 {
      FloorMonotone(a + 0.5, b + 0.5);
    } else if b < 0.0 {
      FloorMonotone(-b + 0.5, -a + 0.5);
    }
  }

  lemma RoundWhole(n: int)
    requires n > 0
    ensures Round(n as real) == n && Round(-(n as real)) == -n
  {
  }

  lemma ScaleMonotone(a: real, b: real, k: real)
    requires a <= b && k >= 0.0
    ensures a * k <= b * k
  {
  }

  /** Neither clamp after rounding ever acts: encoding saturates once, before scaling, and cannot wrap. */
  lemma NeverWraps(f: Format, s: Number)
    requires !f.Float32?
    ensures Level(f, s) == Round(ClampUnit(s) * f.Peak() as real)
    ensures -f.Peak() <= Level(f, s) <= f.Peak()
  {
    hide ClampUnit;
    UnitNeverWraps(f, ClampUnit(s));
  }

  lemma UnitNeverWraps(f: Format, c: real)
    requires !f.Float32? && -1.0 <= c <= 1.0
    ensures UnitLevel(f, c) == Round(c * f.Peak() as real)
    ensures -f.Peak() <= UnitLevel(f, c) <= f.Peak()
  {
    ScaledRound(c, f.Peak());
  }

  lemma ScaledRound(c: real, k: int)
    requires -1.0 <= c <= 1.0 && k > 0
    ensures -k <= Round(c * k as real) <= k
  {
    var r := k as real;
    ScaleMonotone(-1.0, c, r);
    ScaleMonotone(c, 1.0, r);
    RoundWhole(k);
    RoundMonotone(-r, c * r);
    RoundMonotone(c * r, r);
    hide Round;
  }

  /** Louder in, louder out. */
  lemma LevelMonotone(f: Format, s: Number, t: Number)
    requires !f.Float32? && AtMost(s, t)
    ensures Level(f, s) <= Level(f, t)
  {
    NeverWraps(f, s);
    NeverWraps(f, t);
    ScaleMonotone(ClampUnit(s), ClampUnit(t), f.Peak() as real);
    RoundMonotone(ClampUnit(s) * f.Peak() as real, ClampUnit(t) * f.Peak() as real);
  }

  // ---- one sample ----

  function EncodeOne(f: Format, bits: U32): (r: seq<Byte>)
    ensures |r| == f.Width()
  {
    if f.Float32? then LittleEndian(bits, 4)
    else
      NeverWraps(f, ValueOf(bits));
      LittleEndian(Pattern(f, Level(f, ValueOf(bits))), f.Width())
  }

  /** A 32-bit register shifted left by eight, then arithmetically right by eight. */
  function SignExtend24(raw: nat): int
    requires raw < 0x100_0000
  {
    var shifted := raw * 256;
    var register := if shifted < 0x8000_0000 then shifted else shifted - 0x1_0000_0000;
    register / 256
  }

  function SignedLevel(f: Format, word: nat): int
    requires !f.Float32? && word < 2 * (f.Peak() + 1)
  {
    match f
    case U8 => word - 128
    case S16 => if word < 0x8000 then word else word - 0x1_0000
    case S24 => SignExtend24(word)
    case S32 => if word < 0x8000_0000 then word else word - 0x1_0000_0000
  }

  lemma {:induction false} LittleEndianBound(s: seq<Byte>)
    ensures |s| == 1 ==> FromLittleEndian(s) < 0x100
    ensures |s| == 2 ==> FromLittleEndian(s) < 0x1_0000
    ensures |s| == 3 ==> FromLittleEndian(s) < 0x100_0000
    ensures |s| == 4 ==> FromLittleEndian(s) < 0x1_0000_0000
    decreases |s|
  {
    if s != [] {
      LittleEndianBound(s[1..]);
    }
  }

  /** A decoded sample: the exact quotient of an integer level, or a float's own bits. */
  datatype Sample = Exact(value: real) | Float(bits: U32)

  function DecodeOne(f: Format, chunk: seq<Byte>): (r: Sample)
    requires |chunk| == f.Width()
    ensures r.Float? <==> f.Float32?
  {
    LittleEndianBound(chunk);
    if f.Float32? then Float(FromLittleEndian(chunk)) else Exact(LevelOver(f, chunk))
  }

  function LevelOver(f: Format, chunk: seq<Byte>): real
    requires !f.Float32? && |chunk| == f.Width()
  {
    LittleEndianBound(chunk);
    SignedLevel(f, FromLittleEndian(chunk)) as real / (f.Peak() + 1) as real
  }

  /** The shift pair is two's complement, for every 24-bit pattern. */
  lemma ShiftPairSignExtends(raw: nat)
    requires raw < 0x100_0000
    ensures SignExtend24(raw) == if raw < 0x80_0000 then raw else raw - 0x100_0000
  {
  }

  lemma {:induction false} LittleEndianRoundTrip(n: nat, w: nat)
    requires w <= 4 && (w == 0 ==> n == 0)
    requires (w == 1 ==> n < 0x100) && (w == 2 ==> n < 0x1_0000)
    requires (w == 3 ==> n < 0x100_0000) && (w == 4 ==> n < 0x1_0000_0000)
    ensures FromLittleEndian(LittleEndian(n, w)) == n
    decreases w
  {
    if w > 0 {
      LittleEndianRoundTrip(n / 256, w - 1);
      assert LittleEndian(n, w)[1..] == LittleEndian(n / 256, w - 1);
    }
  }

  /** What the wire gives back is the level, over full scale rather than over the encoder's peak. */
  lemma DecodesLevel(f: Format, bits: U32)
    requires !f.Float32?
    ensures DecodeOne(f, EncodeOne(f, bits)) == Exact(Level(f, ValueOf(bits)) as real / (f.Peak() + 1) as real)
  {
    var s := ValueOf(bits);
    NeverWraps(f, s);
    var v := Level(f, s);
    LittleEndianRoundTrip(Pattern(f, v), f.Width());
    if f.S24? {
      ShiftPairSignExtends(Pattern(f, v));
    }
  }

  lemma DivideBound(num: real, den: real, bound: real)
    requires den > 0.0 && -bound <= num <= bound
    ensures -bound / den <= num / den <= bound / den
  {
  }

  /** Half a step from rounding and at most one from dividing by full scale instead of the peak. */
  lemma OffByPeak(v: real, c: real, peak: real)
    requires -1.0 <= c <= 1.0 && peak > 0.0 && -0.5 <= v - c * peak <= 0.5
    ensures -1.5 / (peak + 1.0) <= v / (peak + 1.0) - c <= 1.5 / (peak + 1.0)
  {
    var full := peak + 1.0;
    var off := v - c * full;
    assert c * full == c * peak + c;
    assert off == (v - c * peak) - c;
    assert v == off + c * full;
    assert v / full == off / full + c;
    DivideBound(off, full, 1.5);
  }

  /** Quantisation costs at most one and a half steps of full scale, for every float whatsoever, NaN as silence. */
  lemma QuantisationBound(f: Format, bits: U32)
    requires !f.Float32?
    ensures var full := (f.Peak() + 1) as real;
            -1.5 / full <= DecodeOne(f, EncodeOne(f, bits)).value - ClampUnit(ValueOf(bits)) <= 1.5 / full
  {
    hide Level, DecodeOne, EncodeOne, Round, ClampUnit, ValueOf;
    var s := ValueOf(bits);
    DecodesLevel(f, bits);
    NeverWraps(f, s);
    RoundNear(ClampUnit(s) * f.Peak() as real);
    OffByPeak(Level(f, s) as real, ClampUnit(s), f.Peak() as real);
  }

  /** A float stream costs nothing: every bit pattern comes back, NaNs and signed zeros included. */
  lemma FloatsPass(bits: U32)
    ensures DecodeOne(Float32, EncodeOne(Float32, bits)) == Float(bits)
  {
    LittleEndianRoundTrip(bits, 4);
  }

  // ---- whole buffers ----

  function EncodeAll(f: Format, samples: seq<U32>): seq<Byte> {
    if samples == [] then [] else EncodeOne(f, samples[0]) + EncodeAll(f, samples[1..])
  }

  /** One chunk's sample, as the buffer decoder takes it. */
  function Decoder(f: Format): seq<Byte> -> Sample {
    (chunk: seq<Byte>) => if |chunk| == f.Width() then DecodeOne(f, chunk) else Exact(0.0)
  }

  lemma {:induction false} EncodeAllAppend(f: Format, a: seq<U32>, b: seq<U32>)
    ensures EncodeAll(f, a + b) == EncodeAll(f, a) + EncodeAll(f, b)
    decreases |a|
  {
    hide EncodeOne;
    if a == [] {
      assert a + b == b;
    } else {
      assert (a + b)[1..] == a[1..] + b;
      EncodeAllAppend(f, a[1..], b);
    }
  }

  /** The samples as the wire gives them back, one by one. */
  function Quantised(f: Format, samples: seq<U32>): (r: seq<Sample>)
    ensures |r| == |samples|
    ensures forall i :: 0 <= i < |r| ==> r[i] == DecodeOne(f, EncodeOne(f, samples[i]))
  {
    if samples == [] then [] else [DecodeOne(f, EncodeOne(f, samples[0]))] + Quantised(f, samples[1..])
  }

  /** Encoding a buffer and decoding it returns every sample, quantised, in order; a partial tail adds nothing. */
  lemma {:induction false} BufferRoundTrip(f: Format, samples: seq<U32>, tail: seq<Byte>)
    requires |tail| < f.Width()
    ensures Samples(EncodeAll(f, samples) + tail, f.Width(), Decoder(f)) == Quantised(f, samples)
    decreases |samples|
  {
    hide EncodeOne, DecodeOne;
    if samples == [] {
      assert EncodeAll(f, samples) + tail == tail;
    } else {
      var head, rest := EncodeOne(f, samples[0]), EncodeAll(f, samples[1..]) + tail;
      assert EncodeAll(f, samples) + tail == head + rest;
      assert (head + rest)[..|head|] == head && (head + rest)[|head|..] == rest;
      BufferRoundTrip(f, samples[1..], tail);
    }
  }

  method EncodeSamples(f: Format, samples: seq<U32>, out: Buffer)
    modifies out
    ensures out.bytes == old(out.bytes) + EncodeAll(f, samples)
  {
    hide EncodeOne;
    for k := 0 to |samples|
      invariant out.bytes == old(out.bytes) + EncodeAll(f, samples[..k])
    {
      out.Extend(EncodeOne(f, samples[k]));
      assert samples[..k + 1] == samples[..k] + [samples[k]];
      EncodeAllAppend(f, samples[..k], [samples[k]]);
      Assoc(old(out.bytes), EncodeAll(f, samples[..k]), EncodeOne(f, samples[k]));
      OneSample(f, samples[k]);
    }
    assert samples[..|samples|] == samples;
  }

  lemma OneSample(f: Format, s: U32)
    ensures EncodeAll(f, [s]) == EncodeOne(f, s)
  {
    assert EncodeOne(f, s) + [] == EncodeOne(f, s);
  }

  // ---- the formats in numbers ----

  /** To the nearest whole number, halves away from zero. */
  lemma RoundsToNearest(x: real)
    requires x >= 0.0
    ensures Round(x) as real - 0.5 <= x < Round(x) as real + 0.5
    ensures Round(-x) == -Round(x)
  {
  }

  /** Inside full scale the level is the rounded sample; outside it saturates; a NaN is silence. */
  lemma LevelIs(f: Format, s: Number)
    requires !f.Float32?
    ensures s.NotANumber? ==> Level(f, s) == 0
    ensures s == Infinite(false) || (s.Finite? && s.value >= 1.0) ==> Level(f, s) == f.Peak()
    ensures s == Infinite(true) || (s.Finite? && s.value <= -1.0) ==> Level(f, s) == -f.Peak()
    ensures s.Finite? && -1.0 <= s.value <= 1.0 ==> Level(f, s) == Round(s.value * f.Peak() as real)
  {
    hide UnitLevel, Round;
    UnitEdges(f);
    var c := ClampUnit(s);
    UnitNeverWraps(f, c);
    assert s.Finite? && -1.0 <= s.value <= 1.0 ==> c == s.value;
    hide ClampUnit;
  }

  lemma UnitEdges(f: Format)
    requires !f.Float32?
    ensures UnitLevel(f, 0.0) == 0 && UnitLevel(f, 1.0) == f.Peak() && UnitLevel(f, -1.0) == -f.Peak()
  {
    var p := f.Peak() as real;
    UnitNeverWraps(f, 0.0);
    UnitNeverWraps(f, 1.0);
    UnitNeverWraps(f, -1.0);
    hide UnitLevel;
    RoundWhole(f.Peak());
    assert 0.0 * p == 0.0 && 1.0 * p == p && -1.0 * p == -p;
    assert Round(0.0) == 0;
  }

  /** The bytes of full scale, silence and negative full scale, format by format. */
  lemma WireExamples()
    ensures EncodeOne(U8, 0x3F80_0000) == [0xFF] && EncodeOne(U8, 0) == [0x80] && EncodeOne(U8, 0xBF80_0000) == [0x01]
    ensures EncodeOne(S16, 0x3F80_0000) == [0xFF, 0x7F] && EncodeOne(S16, 0xBF80_0000) == [0x01, 0x80]
    ensures EncodeOne(S24, 0x3F80_0000) == [0xFF, 0xFF, 0x7F] && EncodeOne(S24, 0xBF80_0000) == [0x01, 0x00, 0x80]
    ensures EncodeOne(S32, 0x3F80_0000) == [0xFF, 0xFF, 0xFF, 0x7F]
    ensures EncodeOne(S32, 0xBF80_0000) == [0x01, 0x00, 0x00, 0x80]
    ensures EncodeOne(Float32, 0x3F80_0000) == [0x00, 0x00, 0x80, 0x3F]
  {
    One();
    hide ValueOf, Level;
    LevelsAtOne(U8);
    LevelsAtOne(S16);
    LevelsAtOne(S24);
    LevelsAtOne(S32);
    TwoBytes(0x7FFF);
    TwoBytes(0x8001);
    ThreeBytes(0x7F_FFFF);
    ThreeBytes(0x80_0001);
    FourBytes(0x7FFF_FFFF);
    FourBytes(0x8000_0001);
    FourBytes(0x3F80_0000);
    hide LittleEndian;
    assert LittleEndian(0xFF, 1) == [0xFF] && LittleEndian(0x80, 1) == [0x80] && LittleEndian(1, 1) == [1] by {
      OneByte(0xFF);
      OneByte(0x80);
      OneByte(1);
    }
  }

  lemma LevelsAtOne(f: Format)
    requires !f.Float32?
    ensures Level(f, ValueOf(0x3F80_0000)) == f.Peak() && Level(f, ValueOf(0)) == 0
    ensures Level(f, ValueOf(0xBF80_0000)) == -f.Peak()
  {
    One();
    hide ValueOf, Level;
    LevelIs(f, Finite(1.0));
    LevelIs(f, Finite(0.0));
    LevelIs(f, Finite(-1.0));
    assert 0.0 * f.Peak() as real == 0.0;
  }

  lemma OneByte(n: nat)
    requires n < 0x100
    ensures LittleEndian(n, 1) == [n]
  {
  }

  lemma TwoBytes(n: nat)
    requires n < 0x1_0000
    ensures LittleEndian(n, 2) == [n % 256, n / 256]
  {
    OneByte(n / 256);
    hide LittleEndian;
    assert LittleEndian(n, 2) == [n % 256] + LittleEndian(n / 256, 1) by { LowByte(n, 2); }
  }

  lemma ThreeBytes(n: nat)
    requires n < 0x100_0000
    ensures LittleEndian(n, 3) == [n % 256, n / 256 % 256, n / 256 / 256]
  {
    TwoBytes(n / 256);
    LowByte(n, 3);
  }

  lemma FourBytes(n: nat)
    requires n < 0x1_0000_0000
    ensures LittleEndian(n, 4) == [n % 256, n / 256 % 256, n / 256 / 256 % 256, n / 256 / 256 / 256]
  {
    ThreeBytes(n / 256);
    LowByte(n, 4);
  }

  lemma LowByte(n: nat, w: nat)
    requires w > 0
    ensures LittleEndian(n, w) == [n % 256] + LittleEndian(n / 256, w - 1)
  {
  }

  /** Every word of every integer format, read as two's complement over full scale; the byte format is offset. */
  lemma WireMeaning(f: Format, chunk: seq<Byte>)
    requires !f.Float32? && |chunk| == f.Width()
    ensures var n := |chunk|;
            var unsigned := if n == 1 then chunk[0] as int
                            else if n == 2 then chunk[0] as int + chunk[1] as int * 0x100
                            else if n == 3 then chunk[0] as int + chunk[1] as int * 0x100 + chunk[2] as int * 0x1_0000
                            else chunk[0] as int + chunk[1] as int * 0x100 + chunk[2] as int * 0x1_0000
                                 + chunk[3] as int * 0x100_0000;
            var full := if n == 1 then 0x80 else if n == 2 then 0x8000 else if n == 3 then 0x80_0000 else 0x8000_0000;
            var level := if n == 1 then unsigned - 0x80 else if unsigned < full then unsigned else unsigned - 2 * full;
            DecodeOne(f, chunk) == Exact(level as real / full as real)
  {
    LittleEndianBound(chunk);
    WordOf(chunk);
    hide FromLittleEndian;
    if f.S24? {
      ShiftPairSignExtends(FromLittleEndian(chunk));
    }
    hide SignExtend24;
  }

  lemma WordOf(chunk: seq<Byte>)
    requires 1 <= |chunk| <= 4
    ensures FromLittleEndian(chunk) == chunk[0] as int
      + (if |chunk| > 1 then chunk[1] as int * 0x100 else 0) + (if |chunk| > 2 then chunk[2] as int * 0x1_0000 else 0)
      + (if |chunk| > 3 then chunk[3] as int * 0x100_0000 else 0)
  {
    if |chunk| > 1 {
      WordOf(chunk[1..]);
    } else {
      assert chunk[1..] == [];
    }
  }

  // ---- the floats in numbers ----

  lemma PowersOfTwo()
    ensures Pow2(8) == 256.0 && Pow2(16) == 65_536.0 && Pow2(23) == 8_388_608.0
  {
    Doublings(8, 8);
    Doublings(16, 7);
    assert Pow2(7) == 128.0 && Pow2(8) == 256.0;
  }

  lemma {:induction false} Doublings(m: nat, n: nat)
    ensures Pow2(m + n) == Pow2(m) * Pow2(n)
    decreases n
  {
    if n > 0 {
      Doublings(m, n - 1);
      assert Pow2(m) * (2.0 * Pow2(n - 1)) == 2.0 * (Pow2(m) * Pow2(n - 1));
    }
  }

  /** The anchor of the ladder: one, minus one and zero. */
  lemma One()
    ensures ValueOf(0x3F80_0000) == Finite(1.0) && ValueOf(0xBF80_0000) == Finite(-1.0) && ValueOf(0) == Finite(0.0)
  {
    PowersOfTwo();
    hide Pow2;
    assert 0 as real / Pow2(149) == 0.0;
  }

  /** One more in the exponent doubles the value. */
  lemma ExponentDoubles(bits: U32)
    requires 0x80_0000 <= bits < 0x7F00_0000
    ensures ValueOf(bits).Finite? && ValueOf(bits + 0x80_0000) == Finite(2.0 * ValueOf(bits).value)
  {
    var e, f := bits / 0x80_0000, bits % 0x80_0000;
    Fields(bits, e, f);
    Fields(bits + 0x80_0000, e + 1, f);
    hide Magnitude;
    MagnitudeDoubles(e, f);
  }

  /** The value of the pattern with the given exponent and fraction and no sign. */
  lemma Fields(bits: U32, e: nat, f: nat)
    requires bits == e * 0x80_0000 + f && e < 255 && f < 0x80_0000
    ensures ValueOf(bits) == Finite(Magnitude(e, f))
  {
    hide Magnitude;
  }

  lemma MagnitudeDoubles(e: nat, f: nat)
    requires 0 < e
    ensures Magnitude(e + 1, f) == 2.0 * Magnitude(e, f)
  {
    if e < 150 {
      Half((0x80_0000 + f) as real, Pow2(150 - e), Pow2(150 - e - 1));
    } else {
      Twice((0x80_0000 + f) as real, Pow2(e - 150));
    }
  }

  lemma Twice(x: real, p: real)
    ensures x * (2.0 * p) == 2.0 * (x * p)
  {
  }

  lemma Half(x: real, p: real, q: real)
    requires p == 2.0 * q && q > 0.0
    ensures x / q == 2.0 * (x / p)
  {
    var y := x / p;
    assert y * p == x;
    assert (2.0 * y) * q == x;
  }

  /** Within one exponent values are spaced evenly. */
  lemma FractionIsLinear(e: nat, f: nat)
    requires 0 < e < 255 && f < 0x80_0000
    ensures ValueOf(e * 0x80_0000).Finite? && ValueOf(e * 0x80_0000 + f).Finite?
    ensures ValueOf(e * 0x80_0000 + f).value * 8_388_608.0 == (0x80_0000 + f) as real * ValueOf(e * 0x80_0000).value
  {
    hide Magnitude, ValueOf;
    MagnitudeIsLinear(e, f);
    var low: U32, bits: U32 := e * 0x80_0000, e * 0x80_0000 + f;
    Fields(low, e, 0);
    Fields(bits, e, f);
    assert ValueOf(low) == Finite(Magnitude(e, 0)) && ValueOf(bits) == Finite(Magnitude(e, f));
  }

  /** Below the least exponent they are spaced evenly down to zero. */
  lemma SubnormalsAreLinear(f: nat)
    requires f < 0x80_0000
    ensures ValueOf(0x80_0000).Finite? && ValueOf(f).Finite?
    ensures ValueOf(f).value * 8_388_608.0 == f as real * ValueOf(0x80_0000).value
  {
    hide Magnitude, ValueOf;
    MagnitudeIsLinear(0, f);
    Fields(0x80_0000, 1, 0);
    Fields(f, 0, f);
    assert ValueOf(0x80_0000) == Finite(Magnitude(1, 0)) && ValueOf(f) == Finite(Magnitude(0, f));
  }

  lemma MagnitudeIsLinear(e: nat, f: nat)
    ensures e > 0 ==> Magnitude(e, f) * 8_388_608.0 == (0x80_0000 + f) as real * Magnitude(e, 0)
    ensures e == 0 ==> Magnitude(0, f) * 8_388_608.0 == f as real * Magnitude(1, 0)
  {
    if e == 0 {
      Ratio(f as real, 8_388_608.0, Pow2(149));
    } else if e < 150 {
      Ratio((0x80_0000 + f) as real, 8_388_608.0, Pow2(150 - e));
    } else {
      Product((0x80_0000 + f) as real, Pow2(e - 150), 8_388_608.0);
    }
  }

  lemma Product(x: real, p: real, y: real)
    ensures x * p * y == x * (y * p)
  {
  }

  lemma Ratio(x: real, y: real, p: real)
    requires p > 0.0
    ensures x / p * y == x * (y / p)
  {
    var a, b := x / p, y / p;
    assert a * p == x && b * p == y;
    assert a * (b * p) == (a * p) * b;
  }

  /** The top bit is the sign; all exponent bits set is infinity, or NaN with any bit of the fraction. */
  lemma SignAndSpecials(bits: U32)
    requires bits < 0x8000_0000
    ensures bits < 0x7F80_0000 ==> ValueOf(bits).Finite? && ValueOf(bits + 0x8000_0000) == Finite(-ValueOf(bits).value)
    ensures bits == 0x7F80_0000 ==> ValueOf(bits) == Infinite(false) && ValueOf(bits + 0x8000_0000) == Infinite(true)
    ensures bits > 0x7F80_0000 ==> ValueOf(bits) == NotANumber && ValueOf(bits + 0x8000_0000) == NotANumber
  {
    hide Magnitude;
    var e, f := bits / 0x80_0000, bits % 0x80_0000;
    assert bits == e * 0x80_0000 + f;
    SignedFields(bits, e, f);
  }

  lemma SignedFields(bits: U32, e: nat, f: nat)
    requires bits == e * 0x80_0000 + f && e < 256 && f < 0x80_0000
    ensures (bits + 0x8000_0000) / 0x80_0000 % 256 == e == bits / 0x80_0000 % 256
    ensures (bits + 0x8000_0000) % 0x80_0000 == f == bits % 0x80_0000
  {
  }
}
