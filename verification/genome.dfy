/** Genomes: fixed-length bit vectors with random creation, copying, XOR-mask
    mutation and one-point crossover (src/Genetic/Genome.cs).

    Randomness is passed in as the sequence of values the generator returns:
    `Random.Next(2)` results as ints, `Random.NextDouble()` results as reals in
    [0, 1). */
module Genetics {
  import opened Wrappers

  /** One gene per bit, in BitArray index order. */
  type Genome = seq<bool>

  /** Random.NextDouble() returns values in [0, 1). */
  predicate AreUnitDraws(draws: seq<real>) {
    forall i :: 0 <= i < |draws| ==> 0.0 <= draws[i] < 1.0
  }

  /** Genome.RandomGenome: gene i is set iff the i-th `Next(2)` draw is 0.
      A negative length fails where C# fails, allocating the bool array. */
  method RandomGenome(length: int, draws: seq<int>) returns (r: Result<Genome, Exception>)
    requires length >= 0 ==> |draws| >= length
    ensures r.Failure? <==> length < 0
    ensures r.Failure? ==> r.error == OverflowException
    ensures r.Success? ==> |r.value| == length
    ensures r.Success? ==> forall i :: 0 <= i < length ==> (r.value[i] <==> draws[i] == 0)
  {
    if length < 0 {
      return Failure(OverflowException);
    }
    var genes: Genome := [];
    var i := 0;
    while i < length
      invariant 0 <= i <= length
      invariant |genes| == i
      invariant forall k :: 0 <= k < i ==> (genes[k] <==> draws[k] == 0)
    {
      genes := genes + [draws[i] == 0];
      i := i + 1;
    }
    return Success(genes);
  }

  /** The copy constructor: a fresh BitArray holding the same bits. */
  function Copy(g: Genome): (c: Genome)
    ensures |c| == |g|
    ensures forall i :: 0 <= i < |g| ==> c[i] == g[i]
  {
    seq(|g|, i requires 0 <= i < |g| => g[i])
  }

  /** BitArray.Xor of two arrays of equal length. */
  function Xor(a: Genome, b: Genome): (r: Genome)
    requires |a| == |b|
    ensures |r| == |a|
    ensures forall i :: 0 <= i < |a| ==> r[i] == (a[i] != b[i])
  {
    seq(|a|, i requires 0 <= i < |a| => a[i] != b[i])
  }

  /** The mutation bit mask: bit i is set iff the i-th `NextDouble()` draw is
      below the mutation chance. */
  function FlipMask(mutChance: real, draws: seq<real>): (m: Genome)
    ensures |m| == |draws|
    ensures forall i :: 0 <= i < |draws| ==> (m[i] <==> draws[i] < mutChance)
  {
    seq(|draws|, i requires 0 <= i < |draws| => draws[i] < mutChance)
  }

  /** Genome.Mutate: one draw per gene, then XOR with the resulting mask. */
  function Mutate(g: Genome, mutChance: real, draws: seq<real>): (m: Genome)
    requires |draws| >= |g|
    ensures |m| == |g|
    ensures forall i :: 0 <= i < |g| ==> (m[i] != g[i] <==> draws[i] < mutChance)
  {
    Xor(g, FlipMask(mutChance, draws[..|g|]))
  }

  /** With a chance of at most 0 no draw in [0, 1) sets a mask bit. */
  lemma MutateNoChanceIsIdentity(g: Genome, mutChance: real, draws: seq<real>)
    requires |draws| >= |g|
    requires AreUnitDraws(draws)
    requires mutChance <= 0.0
    ensures Mutate(g, mutChance, draws) == g
  {
    var m := Mutate(g, mutChance, draws);
    forall i | 0 <= i < |g|
      ensures m[i] == g[i]
    {
      assert !(draws[i] < mutChance);
    }
  }

  /** XOR with the same mask twice restores the genome. */
  lemma XorTwice(g: Genome, mask: Genome)
    requires |mask| == |g|
    ensures Xor(Xor(g, mask), mask) == g
  {
    var r := Xor(Xor(g, mask), mask);
    forall i | 0 <= i < |g|
      ensures r[i] == g[i]
    {
    }
  }

  /** Mutating twice with the same draws undoes the mutation. */
  lemma MutateTwiceWithSameDraws(g: Genome, mutChance: real, draws: seq<real>)
    requires |draws| >= |g|
    ensures Mutate(Mutate(g, mutChance, draws), mutChance, draws) == g
  {
    XorTwice(g, FlipMask(mutChance, draws[..|g|]));
  }

  /** The values `Random.Next(1, count)` can return: 1 when count is 1
      (minValue equals maxValue), otherwise a value in [1, count). */
  predicate IsSplitDraw(count: int, split: int) {
    count >= 1 && 1 <= split && (split < count || split == 1)
  }

  /** The pair of genomes after swapping positions [0, split). */
  function CrossedOver(a: Genome, b: Genome, split: nat): (r: (Genome, Genome))
    requires |a| == |b| && split <= |a|
    ensures |r.0| == |a| && |r.1| == |b|
    ensures forall i :: 0 <= i < split ==> r.0[i] == b[i] && r.1[i] == a[i]
    ensures forall i :: split <= i < |a| ==> r.0[i] == a[i] && r.1[i] == b[i]
  {
    (b[..split] + a[split..], a[..split] + b[split..])
  }

  /** Genome.OnePointCrossOver, swapping the leading genes of `a` (this) and
      `b` (other) in place. Unequal lengths throw ArgumentException before any
      draw; two empty genomes make `Random.Next(1, 0)` throw. */
  method OnePointCrossOver(a: Genome, b: Genome, split: int) returns (r: Result<(Genome, Genome), Exception>)
    requires |a| == |b| && |a| >= 1 ==> IsSplitDraw(|a|, split)
    ensures |a| != |b| ==> r == Failure(ArgumentException)
    ensures |a| == |b| == 0 ==> r == Failure(ArgumentOutOfRangeException)
    ensures |a| == |b| >= 1 ==> r.Success? && r.value == CrossedOver(a, b, split)
  {
    if |a| != |b| {
      return Failure(ArgumentException);
    }
    if |a| == 0 {
      return Failure(ArgumentOutOfRangeException);
    }
    var self, other := a, b;
    var i := 0;
    while i < split
      invariant 0 <= i <= split
      invariant |self| == |a| && |other| == |b|
      invariant forall k :: 0 <= k < i ==> self[k] == b[k] && other[k] == a[k]
      invariant forall k :: i <= k < |a| ==> self[k] == a[k] && other[k] == b[k]
    {
      var tmp := other[i];
      other := other[i := self[i]];
      self := self[i := tmp];
      i := i + 1;
    }
    r := Success((self, other));
    assert self == CrossedOver(a, b, split).0;
    assert other == CrossedOver(a, b, split).1;
  }

  /** Crossing over again at the same split restores both genomes. */
  lemma CrossOverTwiceRestores(a: Genome, b: Genome, split: nat)
    requires |a| == |b| && split <= |a|
    ensures var once := CrossedOver(a, b, split);
            CrossedOver(once.0, once.1, split) == (a, b)
  {
    var once := CrossedOver(a, b, split);
    var twice := CrossedOver(once.0, once.1, split);
    assert twice.0 == a;
    assert twice.1 == b;
  }
}
