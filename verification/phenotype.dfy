/** The phenotype decoder (src/JumpmanAttributes.cs): colour from genes 0-23,
    speed from genes 24-31.

    The decoder reads genes through `Genome.Slice(offset, count)`, which the
    source never defines; the model reads it as the contiguous gene range
    [offset, offset + count). The bits reach bytes through BitArray.CopyTo,
    which packs gene 8k + j of the slice into bit j of byte k. */
module Phenotype {
  import opened Colors
  import opened Genetics

  const GenomeLength: nat := 32
  const MinSpeed: real := 1.0
  const MaxSpeed: real := 5.0

  /** JumpmanAttributes: the decoded colour and speed. */
  datatype Attributes = Attributes(color: Color, speed: real)

  function BitValue(b: bool): nat {
    if b then 1 else 0
  }

  function Pow2(n: nat): (p: nat)
    ensures p >= 1
  {
    if n == 0 then 1 else 2 * Pow2(n - 1)
  }

  /** The number whose binary digits are `bits`, least significant first. */
  function LsbFirst(bits: seq<bool>): nat {
    if |bits| == 0 then 0 else BitValue(bits[0]) + 2 * LsbFirst(bits[1..])
  }

  /** n bits hold a value below 2^n. */
  lemma {:induction false} LsbFirstBound(bits: seq<bool>)
    ensures LsbFirst(bits) < Pow2(|bits|)
  {
    if |bits| > 0 {
      LsbFirstBound(bits[1..]);
    }
  }

  /** Genome.Slice, read as the contiguous range of `count` genes at `offset`. */
  function Slice(g: Genome, offset: nat, count: nat): (s: seq<bool>)
    requires offset + count <= |g|
  {
    g[offset..offset + count]
  }

  /** BitArray.CopyTo into a byte array of exactly |bits| / 8 bytes. */
  function CopyToBytes(bits: seq<bool>): (bytes: seq<byte>)
    requires |bits| % 8 == 0
    ensures |bytes| == |bits| / 8
    ensures forall k :: 0 <= k < |bytes| ==> bytes[k] == LsbFirst(bits[8 * k..8 * k + 8])
    decreases |bits|
  {
    if |bits| == 0 then []
    else
      LsbFirstBound(bits[..8]);
      assert Pow2(8) == 256;
      var rest := CopyToBytes(bits[8..]);
      var bytes := [LsbFirst(bits[..8])] + rest;
      assert forall k :: 1 <= k < |bytes| ==> bits[8 * k..8 * k + 8] == bits[8..][8 * (k - 1)..8 * (k - 1) + 8];
      bytes
  }

  /** The 8-bit unsigned value of genes o..o+7, gene o + j weighing 2^j. */
  function ByteSum(g: Genome, o: nat): nat
    requires o + 8 <= |g|
  {
    BitValue(g[o]) + 2 * BitValue(g[o + 1]) + 4 * BitValue(g[o + 2]) + 8 * BitValue(g[o + 3])
    + 16 * BitValue(g[o + 4]) + 32 * BitValue(g[o + 5]) + 64 * BitValue(g[o + 6])
    + 128 * BitValue(g[o + 7])
  }

  /** The speed a speed byte encodes. */
  function SpeedOf(b: byte): real {
    MinSpeed + MaxSpeed * (b as real / 256.0)
  }

  /** JumpmanAttributes.FromGenome. */
  function FromGenome(g: Genome): (attr: Attributes)
    requires |g| >= GenomeLength
    ensures attr.color.a == 255
    ensures attr.color.r == ByteSum(g, 0)
    ensures attr.color.g == ByteSum(g, 8)
    ensures attr.color.b == ByteSum(g, 16)
    ensures attr.speed == 1.0 + 5.0 * (ByteSum(g, 24) as real / 256.0)
  {
    var rgb := CopyToBytes(Slice(g, 0, 24));
    var speedFactor := CopyToBytes(Slice(g, 24, 8));
    ChannelsOfSlice(g);
    Attributes(Rgb(rgb[0], rgb[1], rgb[2]), SpeedOf(speedFactor[0]))
  }

  /** Eight bits read least significant first are the written-out byte sum. */
  lemma LsbFirstOfEight(g: Genome, o: nat)
    requires o + 8 <= |g|
    ensures LsbFirst(g[o..o + 8]) == ByteSum(g, o)
  {
    var s := g[o..o + 8];
    Unfold(s, 7);
    assert s[8..] == [];
    UnfoldSeven(s);
  }

  /** LsbFirst of eight bits unrolled down to the last one. */
  lemma UnfoldSeven(s: seq<bool>)
    requires |s| == 8
    ensures LsbFirst(s) == BitValue(s[0]) + 2 * BitValue(s[1]) + 4 * BitValue(s[2])
                           + 8 * BitValue(s[3]) + 16 * BitValue(s[4]) + 32 * BitValue(s[5])
                           + 64 * BitValue(s[6]) + 128 * LsbFirst(s[7..])
  {
    Unfold(s, 6);
    Unfold(s, 5);
    Unfold(s, 4);
    Unfold(s, 3);
    Unfold(s, 2);
    Unfold(s, 1);
    Unfold(s, 0);
    assert s[0..] == s;
  }

  /** One step of LsbFirst on a suffix. */
  lemma Unfold(s: seq<bool>, k: nat)
    requires k < |s|
    ensures LsbFirst(s[k..]) == BitValue(s[k]) + 2 * LsbFirst(s[k + 1..])
  {
    assert s[k..][1..] == s[k + 1..];
  }

  /** The bytes CopyTo produces from the colour and speed slices. */
  lemma ChannelsOfSlice(g: Genome)
    requires |g| >= GenomeLength
    ensures CopyToBytes(Slice(g, 0, 24))[0] == ByteSum(g, 0)
    ensures CopyToBytes(Slice(g, 0, 24))[1] == ByteSum(g, 8)
    ensures CopyToBytes(Slice(g, 0, 24))[2] == ByteSum(g, 16)
    ensures CopyToBytes(Slice(g, 24, 8))[0] == ByteSum(g, 24)
  {
    var s := Slice(g, 0, 24);
    assert s[..8] == g[0..8];
    assert s[8..][..8] == g[8..16];
    assert s[8..][8..][..8] == g[16..24];
    assert s[8..][8..][8..] == [];
    assert CopyToBytes(s)[2] == CopyToBytes(s[8..])[1] == CopyToBytes(s[8..][8..])[0];
    assert Slice(g, 24, 8)[..8] == g[24..32];
    assert Slice(g, 24, 8)[8..] == [];
    LsbFirstOfEight(g, 0);
    LsbFirstOfEight(g, 8);
    LsbFirstOfEight(g, 16);
    LsbFirstOfEight(g, 24);
  }

  /** The decoded speed lies in [1, 1 + 5 * 255 / 256] and grows strictly
      with the speed byte. */
  lemma SpeedRange(b: byte, c: byte)
    ensures 1.0 <= SpeedOf(b) <= 1.0 + 5.0 * 255.0 / 256.0
    ensures b < c ==> SpeedOf(b) < SpeedOf(c)
  {
  }

  /** Every decoded speed lies in the speed range. */
  lemma FromGenomeSpeedRange(g: Genome)
    requires |g| >= GenomeLength
    ensures 1.0 <= FromGenome(g).speed <= 1.0 + 5.0 * 255.0 / 256.0
  {
    assert ByteSum(g, 24) < 256;
    SpeedRange(ByteSum(g, 24), 0);
  }

  /** Decoding reads only genes 0..31: genomes that agree there decode alike,
      whatever follows. */
  lemma FromGenomeReadsFirst32(g: Genome, h: Genome)
    requires |g| >= GenomeLength && |h| >= GenomeLength
    requires g[..GenomeLength] == h[..GenomeLength]
    ensures FromGenome(g) == FromGenome(h)
  {
    assert Slice(g, 0, 24) == g[..GenomeLength][..24] == h[..GenomeLength][..24] == Slice(h, 0, 24);
    assert Slice(g, 24, 8) == g[..GenomeLength][24..] == h[..GenomeLength][24..] == Slice(h, 24, 8);
  }
}
