/** The graph types the statistics plot cycles through
    (src/EnvironmentGrapher.cs: GraphTypes and its Next/Prev extensions). */
module Graphs {

  datatype GraphType = NutritionAndJumpmen | AverageSpeedAndSize

  /** The enum's underlying int. */
  function Ordinal(g: GraphType): nat {
    match g
    case NutritionAndJumpmen => 0
    case AverageSpeedAndSize => 1
  }

  /** The cast of an in-range int back to the enum. */
  function OfOrdinal(i: nat): (g: GraphType)
    requires i < 2
    ensures Ordinal(g) == i
  {
    if i == 0 then NutritionAndJumpmen else AverageSpeedAndSize
  }

  /** Next: the last type wraps to the first, any other steps one ordinal up. */
  function Next(g: GraphType): (r: GraphType)
    ensures r != g
  {
    if g == AverageSpeedAndSize then NutritionAndJumpmen else OfOrdinal(Ordinal(g) + 1)
  }

  /** Prev: the first type wraps to the last, any other steps one ordinal down. */
  function Prev(g: GraphType): (r: GraphType)
    ensures r != g
  {
    if g == NutritionAndJumpmen then AverageSpeedAndSize else OfOrdinal(Ordinal(g) - 1)
  }

  /** Next and Prev are inverse to each other, and stepping twice in a
      two-element cycle comes back. */
  lemma NextPrevInverse(g: GraphType)
    ensures Next(Prev(g)) == g
    ensures Prev(Next(g)) == g
    ensures Next(Next(g)) == g
    ensures Next(NutritionAndJumpmen) == AverageSpeedAndSize
    ensures Next(AverageSpeedAndSize) == NutritionAndJumpmen
    ensures Prev(NutritionAndJumpmen) == AverageSpeedAndSize
    ensures Prev(AverageSpeedAndSize) == NutritionAndJumpmen
  {
  }
}
