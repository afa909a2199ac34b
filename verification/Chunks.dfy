/** Byte strings read as samples of a fixed width, whatever the sample type. */
module Chunks {
  import opened Bytes
  import opened Numbers

  /** The samples in the whole chunks of a byte string; bytes after the last whole chunk add nothing. */
  function Samples<S>(bytes: seq<Byte>, width: nat, dec: seq<Byte> -> S): seq<S>
    requires width > 0
    decreases |bytes|
  {
    if |bytes| < width then [] else [dec(bytes[..width])] + Samples(bytes[width..], width, dec)
  }

  /** The largest multiple of the width inside a byte count. */
  function WholeSamples(bytes: nat, width: nat): (r: nat)
    requires width > 0
    ensures r <= bytes < r + width && Multiple(r, width)
  {
    var q := bytes / width;
    assert bytes - bytes % width == q * width;
    MultipleOf(q, width);
    bytes - bytes % width
  }

  // ---- samples ----

  lemma {:induction false} SamplesSplit<S>(a: seq<Byte>, b: seq<Byte>, width: nat, dec: seq<Byte> -> S)
    requires width > 0 && Multiple(|a|, width)
    ensures Samples(a + b, width, dec) == Samples(a, width, dec) + Samples(b, width, dec)
    decreases |a|
  {
    hide Multiple;
    if |a| < width {
      ShortMultiple(|a|, width);
      assert a + b == b;
    } else {
      assert (a + b)[..width] == a[..width] && (a + b)[width..] == a[width..] + b;
      DropMultiple(|a|, width);
      SamplesSplit(a[width..], b, width, dec);
    }
  }

  lemma {:induction false} SamplesCount<S>(bytes: seq<Byte>, width: nat, dec: seq<Byte> -> S)
    requires width > 0
    ensures |Samples(bytes, width, dec)| * width <= |bytes| < |Samples(bytes, width, dec)| * width + width
    ensures |Samples(bytes, width, dec)| == |bytes| / width
    decreases |bytes|
  {
    if |bytes| >= width {
      SamplesCount(bytes[width..], width, dec);
      var n := |Samples(bytes[width..], width, dec)|;
      assert (n + 1) * width == n * width + width;
    }
    var n := |Samples(bytes, width, dec)|;
    RemainderIs(|bytes|, n, width, |bytes| - n * width);
  }

  lemma {:induction false} SampleAt<S>(bytes: seq<Byte>, width: nat, dec: seq<Byte> -> S, k: nat)
    requires width > 0 && k < |Samples(bytes, width, dec)|
    ensures k * width + width <= |bytes|
    ensures Samples(bytes, width, dec)[k] == dec(bytes[k * width..k * width + width])
    decreases k
  {
    if k > 0 {
      var lo, hi := (k - 1) * width, k * width;
      assert hi == lo + width;
      SampleAt(bytes[width..], width, dec, k - 1);
      assert bytes[width..][lo..hi] == bytes[hi..hi + width];
    }
  }

  /** Decodes as many samples as there are whole chunks and room for, and leaves the rest of the output alone. */
  method DecodeInto<S>(bytes: seq<Byte>, width: nat, dec: seq<Byte> -> S, out: array<S>) returns (count: nat)
    requires width > 0
    modifies out
    ensures var all := Samples(bytes, width, dec);
            && count == (if |all| < out.Length then |all| else out.Length)
            && out[..] == all[..count] + old(out[..])[count..]
  {
    hide Samples;
    ghost var all := Samples(bytes, width, dec);
    SamplesCount(bytes, width, dec);
    count := |bytes| / width;
    if out.Length < count {
      count := out.Length;
    }
    for i := 0 to count
      invariant forall k :: 0 <= k < i ==> out[k] == all[k]
      invariant forall k :: i <= k < out.Length ==> out[k] == old(out[k])
    {
      SampleAt(bytes, width, dec, i);
      out[i] := dec(bytes[i * width..i * width + width]);
    }
  }
}
