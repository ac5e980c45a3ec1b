# EvoBox simulation core in Dafny

A model of the simulation engine of EvoBox. EvoBox is a C# evolution sandbox. In it, "jumpmen" wander a bounded 2D environment, eat food, pay an energy cost for their speed and size, reproduce asexually with mutated genomes, and starve.

The model covers these parts of the engine:

- **Genomes.** Random creation, copy, XOR-mask mutation and one-point crossover.
- **The phenotype decoder.** Genes become a colour and a speed.
- **RGBA colour packing.**
- **The jumpman's per-tick step.** Starvation, procreation with energy transfer, movement with a per-axis bounce, eating and energy decay.
- **The environment's object registry.**
- **The statistics tracker's timelines.**
- **Vector and transform algebra** and integer rectangles.
- **The UI button and slider state machines.**
- **The cycle of graph types.**

Every operation is a pure function over immutable datatypes. Randomness is passed in as the values the generator would return:

- `Random.Next(2)` results are ints;
- `Random.NextDouble()` results are reals in [0, 1).

C# doubles are modelled as reals. C# `int` arithmetic is modelled with explicit 32-bit wrap-around (`Numerics.Wrap32`): the mouse offsets of the UI elements, the centring offsets of `Rect.Square` and the tracker's jumpman count all wrap. The `(int)` cast truncates toward zero (`Numerics.TruncToZero`). .NET exceptions become `Failure` values of `Wrappers.Result`.

Some members are used by the code but never defined in it:

- `Genome.Slice`;
- `Transform.OverlapAABB`;
- `Vector2.Rotate` and `Vector2.FromAngle`;
- the scalar-on-the-left operator `double * Vector2` (only `Vector2 * double` is defined). The model uses the defined operator, `Vectors.Scale`, in its place, which scales each component;
- `JumpmanAttributes.size`;
- `Environment.Time`;
- the environment's `SceneObjectAdded`/`SceneObjectRemoved` events.

`Math.Pow` is not defined by the code either. These are parameters of the model, never given bodies:

- the rotation, angle, size, power and overlap operations are fields of `Jumpmen.Opaque`;
- the time is an argument;
- the tracker consumes an explicit event sequence.

`Genome.Slice(offset, count)` is read as the contiguous gene range `[offset, offset + count)`. `BitArray.CopyTo` into a `byte[]` packs gene `8k + j` into bit `j` of byte `k`.

The registry's lists hold objects as values of `Entities.Obj`. Distinct objects carry distinct ids, in place of reference identity.

Some behaviours of the code are worth stating plainly, since the model keeps them as the code has them:

- **The tracker.** It declares an attribute timeline and an attribute list (src/EnvironmentTracker.cs:15-18, created at lines 23-24) but never writes either; only the count and nutrition timelines grow.
- **The registry.** `AddObject` and `RemoveObject` change the four lists immediately, in the middle of whatever step calls them.
- **Argument checks.** Nothing checks the mutation rate (src/Jumpman.cs:117-118 reads it and passes it on as it is); a rate outside [0, 1] is modelled as given.
- **Eating.** `CheckCollisions` is documented as checking for collisions with any food the jumpman can eat (src/Jumpman.cs:185-186), but as written it throws after the first meal; see "## Findings".

## Model

| member | source | states |
|---|---|---|
| Numerics.Wrap32 | src/EnvironmentTracker.cs:42 | unchecked int arithmetic: the result is the int32 congruent to the exact value modulo 2^32, and equals it when it fits |
| Numerics.WrapThenAdd | src/EnvironmentTracker.cs:42-61 | unchecked additions in a row wrap only their final total |
| Numerics.TruncToZero | src/Graphical/Rect.cs:54-55 | the `(int)` cast of a double truncates toward zero: within 1 of it, on the side of zero |
| Numerics.Min | src/Graphical/Rect.cs:53 | Math.Min returns one of its arguments and is at most each of them |
| Numerics.Clamp | src/UI/Slider.cs:100 | Math.Clamp returns a value in [lo, hi]: v itself inside, the nearer bound outside |
| Settings.DefaultSettingsValues | src/SimulationSettings.cs:5-37 | the default settings are idle cost 5, speed cost 1, size exponent 2, mutation rate 0.01 and food spawn rate 0.01 |
| Genetics.RandomGenome | src/Genetic/Genome.cs:34-40 | the genome has exactly `length` genes; gene i is set iff the i-th `Next(2)` draw is 0; a negative length throws OverflowException |
| Genetics.Copy | src/Genetic/Genome.cs:46-48 | the copy has the same length and the same gene at every index |
| Genetics.Xor | src/Genetic/Genome.cs:77 | BitArray.Xor: same length, gene i set iff exactly one operand has it set |
| Genetics.FlipMask | src/Genetic/Genome.cs:72-76 | one mask bit per draw, set iff the draw is below the mutation chance |
| Genetics.Mutate | src/Genetic/Genome.cs:71-78 | mutation keeps the length and flips gene i iff draw i is below the mutation chance |
| Genetics.MutateNoChanceIsIdentity | src/Genetic/Genome.cs:72-77 | with a chance of at most 0 and draws in [0, 1), mutation is the identity |
| Genetics.XorTwice | src/Genetic/Genome.cs:76-77 | XOR with the same mask twice restores the genome |
| Genetics.MutateTwiceWithSameDraws | src/Genetic/Genome.cs:71-78 | mutating twice with the same draws restores the genome |
| Genetics.CrossedOver | src/Genetic/Genome.cs:89-94 | after crossover at a split, positions below it hold the other genome's genes and positions from it on are untouched |
| Genetics.OnePointCrossOver | src/Genetic/Genome.cs:83-95 | unequal lengths throw ArgumentException and change neither genome; two empty genomes make `Next(1, 0)` throw ArgumentOutOfRangeException; otherwise the in-place swap loop yields exactly the crossed-over pair |
| Genetics.CrossOverTwiceRestores | src/Genetic/Genome.cs:89-94 | crossing over again at the same split restores both genomes |
| Phenotype.LsbFirstBound | src/JumpmanAttributes.cs:30-32 | n genes read least significant first give a value below 2^n, so eight fit a byte |
| Phenotype.CopyToBytes | src/JumpmanAttributes.cs:30-32 | BitArray.CopyTo gives one byte per eight genes, byte k being genes 8k..8k+7 read least significant first |
| Phenotype.LsbFirstOfEight | src/JumpmanAttributes.cs:29-34 | eight genes read least significant first equal the sum of gene o+j times 2^j |
| Phenotype.ChannelsOfSlice | src/JumpmanAttributes.cs:30-45 | the colour bytes come from genes 0-7, 8-15 and 16-23 and the speed byte from genes 24-31, each as its weighted bit sum |
| Phenotype.FromGenome | src/JumpmanAttributes.cs:26-52 | the decoded colour has alpha 255 and R, G, B equal to the bit sums of genes 0-7, 8-15 and 16-23; the speed is 1 + 5·b/256 for the bit sum b of genes 24-31 |
| Phenotype.SpeedRange | src/JumpmanAttributes.cs:15-16 | speed lies in [1, 1 + 5·255/256] and grows strictly with the speed byte |
| Phenotype.FromGenomeSpeedRange | src/JumpmanAttributes.cs:37-49 | every decoded speed lies in [1, 1 + 5·255/256] |
| Phenotype.FromGenomeReadsFirst32 | src/JumpmanAttributes.cs:26-52 | genomes that agree on genes 0-31 decode to equal attributes, whatever follows |
| Colors.Rgb | src/Graphical/Color.cs:46-51 | the three-argument constructor keeps R, G, B and sets alpha 255 |
| Colors.FromLong | src/Graphical/Color.cs:57-62 | the colour read from a long repacks to the long's low 32 bits, so R, G, B, A are its bits 24-31, 16-23, 8-15 and 0-7 |
| Colors.FromLongOfPacked | src/Graphical/Color.cs:57-62 | round trip: decoding r·2^24 + g·2^16 + b·2^8 + a gives back (r, g, b, a) |
| Colors.PackedInjective | src/Graphical/Color.cs:33-38 | different colours have different hexadecimal forms |
| Colors.WhiteComponents | src/Graphical/Color.cs:12 | white is (255, 255, 255, 255) |
| Colors.CyanComponents | src/Graphical/Color.cs:13 | cyan is (0, 255, 255, 255) |
| Colors.MagentaComponents | src/Graphical/Color.cs:14 | magenta is (255, 0, 255, 255) |
| Colors.YellowComponents | src/Graphical/Color.cs:15 | yellow is (255, 255, 0, 255) |
| Colors.RedComponents | src/Graphical/Color.cs:16 | red is (255, 0, 0, 255) |
| Colors.GreenComponents | src/Graphical/Color.cs:17 | green is (0, 255, 0, 15): its alpha is 0x0F |
| Colors.BlueComponents | src/Graphical/Color.cs:18 | blue is (0, 0, 255, 255) |
| Colors.BlackComponents | src/Graphical/Color.cs:19 | black is (0, 0, 0, 255) |
| Colors.ToSdl | src/Graphical/Color.cs:68-76 | SDLColor copies all four components unchanged |
| Vectors.Get | src/Vector2.cs:53-62 | index 0 reads x, index 1 reads y, any other index throws IndexOutOfRangeException |
| Vectors.Set | src/Vector2.cs:63-71 | writing index i makes reading i give the value and leaves the other component; any other index throws IndexOutOfRangeException |
| Vectors.Plus | src/Vector2.cs:78 | unary plus is the identity |
| Vectors.Neg | src/Vector2.cs:82 | negation is the additive inverse: v + (−v) is zero |
| Vectors.Add | src/Vector2.cs:87-88 | addition is commutative and zero is its identity |
| Vectors.Sub | src/Vector2.cs:82-92 | subtraction, defined as adding the negation, is componentwise subtraction |
| Vectors.Div | src/Vector2.cs:97-102 | division by a non-zero scalar, defined as scaling by its reciprocal, divides each component |
| Vectors.Scale | src/Vector2.cs:97-98 | scaling by 1 is the identity and by 0 gives zero |
| Vectors.ScaleSquaredLength | src/Vector2.cs:97-98 | scaling by a multiplies the squared length by a² |
| Vectors.Dot | src/Vector2.cs:107-108 | the dot product with zero is 0 and a vector's product with itself is never negative |
| Vectors.SqrtMagnitude | src/Vector2.cs:29-33 | the squared length is the vector's dot product with itself and is never negative |
| Vectors.DotSymmetric | src/Vector2.cs:107-108 | the dot product is symmetric |
| Vectors.DotAdd | src/Vector2.cs:87-108 | the dot product distributes over vector addition |
| Vectors.SubAddCancel | src/Vector2.cs:87-92 | subtracting a vector undoes adding it |
| Transforms.Translate | src/Transform.cs:22-24 | Translate moves the position by exactly v and keeps the scale |
| Transforms.TranslateZero | src/Transform.cs:22-24 | translating by (0, 0) changes nothing |
| Transforms.TranslateTwice | src/Transform.cs:22-24 | translating by u then v is translating by u + v |
| Rects.Set | src/Graphical/Rect.cs:42-47 | Set copies all four fields of the other rectangle |
| Rects.Rct | src/Graphical/Rect.cs:64-68 | the SDL rectangle has the same X, Y, W, H |
| Rects.Square | src/Graphical/Rect.cs:52-57 | the square's sides are min(W, H), and its X and Y are the truncated centring offsets on each axis; so if W ≤ H its X is unchanged, and if H ≤ W its Y is unchanged |
| Rects.CentredOffset | src/Graphical/Rect.cs:54-55 | the offset is the exact centre X + (W − s)/2, with the int subtraction wrapped, truncated toward zero |
| Rects.OffsetBalanced | src/Graphical/Rect.cs:54-55 | for 0 ≤ s ≤ W the margins either side of the square differ by at most one pixel: the extra pixel goes to the high side when the exact centre is non-negative and to the low side when it is negative, as truncation toward zero gives |
| Rects.SquareBalanced | src/Graphical/Rect.cs:52-57 | on both axes of a rectangle with non-negative extents the square is centred to within one pixel, the odd pixel placed by truncation toward zero |
| Rects.SquareIdempotent | src/Graphical/Rect.cs:52-57 | squaring a square gives it back |
| Rects.SquareInside | src/Graphical/Rect.cs:52-57 | for W, H ≥ 0 the square lies inside the rectangle |
| Rects.OffsetInside | src/Graphical/Rect.cs:54-55 | the truncated centring offset keeps a side of length s within the extent |
| Graphs.OfOrdinal | src/EnvironmentGrapher.cs:74-77 | casting an in-range int to GraphTypes gives the member with that ordinal |
| Graphs.Next | src/EnvironmentGrapher.cs:81-86 | Next never returns its argument |
| Graphs.Prev | src/EnvironmentGrapher.cs:88-93 | Prev never returns its argument |
| Graphs.NextPrevInverse | src/EnvironmentGrapher.cs:74-93 | Next and Prev swap the two types, are inverse to each other, and Next twice is the identity |
| Environments.Width | src/Environment.cs:25-27 | the width is the x component of the environment's scale |
| Environments.Height | src/Environment.cs:28-30 | the height is the y component of the environment's scale |
| Environments.Create | src/Environment.cs:25-43 | a new environment is centred at the origin, has the given width and height, has four empty lists and is consistent |
| Environments.RemoveFirst | src/Environment.cs:68-79 | List.Remove deletes exactly one occurrence when there is one and changes nothing otherwise |
| Environments.RemoveFirstDeletesFirst | src/Environment.cs:68-79 | the occurrence removed is the first, and the rest keep their order |
| Environments.AddObject | src/Environment.cs:51-63 | AddObject always appends to sceneObjects; it appends to jumpmen iff the object is a Jumpman, to food iff Food, to entities iff an Entity; a Jumpman alone gets the back-reference |
| Environments.RemoveObject | src/Environment.cs:68-79 | RemoveObject deletes the first occurrence from sceneObjects and from each list of the object's kind, and leaves the other lists alone |
| Environments.ConsistentTypedLists | src/Environment.cs:51-79 | in a consistent registry each typed list holds only objects of its kind that sceneObjects holds, and jumpmen and food are disjoint |
| Environments.AddObjectKeepsConsistent | src/Environment.cs:51-63 | AddObject keeps every typed list holding each object of its kind as often as sceneObjects does |
| Environments.RemoveObjectKeepsConsistent | src/Environment.cs:68-79 | RemoveObject keeps every typed list holding each object of its kind as often as sceneObjects does |
| Environments.RemoveAbsentObject | src/Environment.cs:68-79 | removing an object the environment does not hold leaves all four lists unchanged |
| Environments.AddThenRemove | src/Environment.cs:51-79 | adding an object not yet present and removing it restores all four lists exactly |
| Jumpmen.Create | src/Jumpman.cs:72-92 | a new jumpman has the given position, energy and genome, the attributes decoded from the genome, and the decoded size as its scale on both axes; its velocity is the unit vector at angle 2π·draw scaled by the decoded speed |
| Jumpmen.Die | src/Jumpman.cs:98-106 | Die reports exactly one death of this jumpman with the given reason and time and removes it from the environment |
| Jumpmen.Procreate | src/Jumpman.cs:112-125 | the parent loses exactly cost and nothing else, the child starts with exactly cost at the parent's position with a same-length genome whose gene i differs iff draw i is below the mutation rate, its phenotype is decoded from that mutated genome and its scale is the decoded size on both axes, and the child is added to the environment |
| Jumpmen.EnergyUsagePerSecond | src/Jumpman.cs:130-138 | the usage is the idle cost when the speed cost or the speed is zero, and at least the idle cost when the speed cost, speed and size power are non-negative |
| Jumpmen.Bounce | src/Jumpman.cs:168-182 | per axis, a box crossing the low edge is put against it, else one crossing the high edge is put against that, reversing the velocity in either case; a box inside is unchanged |
| Jumpmen.BounceStaysInside | src/Jumpman.cs:168-182 | a box no wider than the bounds lies within them after the bounce |
| Jumpmen.Move | src/Jumpman.cs:158-183 | moving keeps the jumpman's scale |
| Jumpmen.MoveStaysInside | src/Jumpman.cs:163-182 | after Move a jumpman no wider (taller) than the environment lies within [-w/2, w/2] ([-h/2, h/2]) on that axis |
| Jumpmen.Eat | src/Jumpman.cs:201-204 | Eat raises the energy by exactly the food's nutrition, changes nothing else in the jumpman, and removes that food |
| Jumpmen.EatOverlapping | src/Jumpman.cs:188-196 | walking a food list gains exactly the total nutrition of the overlapping foods and removes each of them in list order |
| Jumpmen.CheckCollisions | src/Jumpman.cs:188-196 | eating over the food list as it stood gains the total nutrition of every overlapping food and removes exactly those foods (corrected, see Findings) |
| Jumpmen.CheckCollisionsAsWritten | src/Jumpman.cs:188-196 | the scan as written throws InvalidOperationException iff some food from the scan position on overlaps the jumpman, and otherwise changes nothing |
| Jumpmen.Forage | src/Jumpman.cs:150-152 | after moving, the jumpman takes the moved motion, gains the nutrition of the food it overlaps there, removes that food and pays usage·dt |
| Jumpmen.Update | src/Jumpman.cs:140-153 | negative energy means death by "starvation" and nothing else; otherwise there are no deaths, a child is made iff energy > 100, the jumpman ends at its moved position, and its energy is the old energy minus 50 if it procreated, plus the nutrition it eats, minus usage·dt; the surviving step's environment is the one with the child registered (if any) and the overlapping food removed, its velocity is the one Move left, and the child is Procreate's child. Eating uses the corrected collision scan `Jumpmen.CheckCollisions` (see Findings) |
| Jumpmen.UpdateStaysInside | src/Jumpman.cs:140-153 | after a surviving step, a jumpman no wider (taller) than its environment lies within it on that axis |
| Jumpmen.ProcreationThreshold | src/Jumpman.cs:146-148 | energy of exactly 100 makes no child; energy above 100 makes one with energy 50 at the parent's position |
| Jumpmen.DecayNeverAdds | src/Jumpman.cs:130-152 | with a non-negative usage rate and time step, a surviving step ends with no more energy than it had after procreating and eating |
| Jumpmen.RemoveFoodsKeepsConsistent | src/Jumpman.cs:201-204 | removing eaten foods one by one keeps the registry consistent |
| Jumpmen.UpdateKeepsConsistent | src/Jumpman.cs:140-153 | a whole step, whether it kills, procreates or eats, keeps the registry consistent |
| Jumpmen.AsWrittenThrowsWhereIntendedEats | src/Jumpman.cs:188-204 | a jumpman over the only food: the as-written scan throws, while the corrected one gains its nutrition and empties the food list |
| Trackers.New | src/EnvironmentTracker.cs:20-28 | a new tracker has the count and nutrition timelines [(0, 0)] and empty attribute lists |
| Trackers.Handle | src/EnvironmentTracker.cs:38-71 | a jumpman event appends exactly one count entry (time, last ± 1, wrapped to an int32); else a food event appends exactly one nutrition entry (time, last ± nutrition); any other object changes nothing |
| Trackers.ReplayTotals | src/EnvironmentTracker.cs:38-71 | after any events, the last count is the start plus the net jumpmen added, wrapped to an int32, and the last nutrition the start plus the net nutrition added |
| Trackers.ReplayAppends | src/EnvironmentTracker.cs:38-71 | timelines only grow, one entry per jumpman or food event, and existing entries never change |
| Trackers.AddThenRemoveCancels | src/EnvironmentTracker.cs:38-71 | adding an object and then removing it leaves the last count and nutrition where they were |
| Trackers.CountWrapsAtMax | src/EnvironmentTracker.cs:41-43 | one more jumpman on a count of int.MaxValue records int.MinValue, as unchecked C# `int` addition does |
| Trackers.FreshCount | src/EnvironmentTracker.cs:20-71 | from a fresh tracker the last count is jumpmen added minus jumpmen removed, wrapped to an int32, and the last nutrition the net nutrition of the events |
| Panels.Normalise | src/UI/Button.cs:74-75 | the mouse in panel units times the panel extent is the wrapped pixel offset; a zero extent gives no finite coordinate |
| Panels.NormaliseUnit | src/UI/Button.cs:74-75 | a pixel on the panel's extent normalises into [0, 1], its near edge to 0 and far edge to 1 |
| Buttons.Create | src/UI/Button.cs:52-62 | a new button keeps its geometry and starts Mouseable |
| Buttons.Hovering | src/UI/Button.cs:74-83 | a panel of zero width or height never has the mouse over the button, nor does a button of no width or height |
| Buttons.Update | src/UI/Button.cs:68-99 | the action runs iff the mouse is over the button on a release and the button was Pressed or pressed in the same frame; the button ends Mouseable iff the mouse is not over it, and Pressed iff over it, without a release, pressed before or now |
| Buttons.PressThenRelease | src/UI/Button.cs:89-98 | a press over the button then a release over it runs the action once, on the release, and leaves it Moused |
| Buttons.ClickInOneFrame | src/UI/Button.cs:89-98 | a press and release in one frame over a Mouseable button run the action in that frame |
| Buttons.LeavingCancelsPress | src/UI/Button.cs:86-98 | leaving the button cancels a press: a later release without a new press does not run the action |
| Buttons.QuietFrame | src/UI/Button.cs:86-98 | a frame without mouse events leaves a settled button unchanged and runs nothing |
| Sliders.Create | src/UI/Slider.cs:51-61 | a new slider keeps its geometry and bounds, starts Mouseable, and holds the start value unclamped |
| Sliders.Update | src/UI/Slider.cs:69-103 | the slider ends Mouseable iff the mouse is off it and it was not Pressed, and Pressed iff there is no release and it was Pressed or is pressed over the slider now; while Pressed its value is clamp((mx − x)/w, 0, 1)·(max − min) + min, and otherwise the value is unchanged |
| Sliders.ValueInRange | src/UI/Slider.cs:99-102 | when min ≤ max, a value set by the mouse lies in [min, max] |
| Sliders.BobFollowsMouse | src/UI/Slider.cs:99-112 | while pressed, the bob's fraction of the track is the mouse's fraction, clamped to [0, 1] |
| Sliders.PressHoldsUntilRelease | src/UI/Slider.cs:87-98 | a pressed slider stays Pressed wherever the mouse goes until a release, which makes it Moused and keeps the value |
| Sliders.HoverReachesPastStart | src/UI/Slider.cs:83-86 | the hover region reaches h/2 before the start of the track |
| Sliders.HoverReachesPastEnd | src/UI/Slider.cs:83-86 | the hover region reaches h/2 past the end of the track |
| Sliders.Hovering | src/UI/Slider.cs:75-84 | a panel of zero width or height never has the mouse over the slider, nor does a slider of no height |
| Sliders.HoverIsWidenedButton | src/UI/Slider.cs:83-84 | the slider's hover region is exactly a button's hover region widened by h/2 at either end |

## Left out

- Rendering is not modelled because it consists of foreign SDL calls. This covers all `Draw` methods, textures, sprites, colour modulation, labels, the camera, the minimap and the gnuplot output of `EnvironmentGrapher`. The slider's bob fraction is modelled only as far as `Sliders.BobFollowsMouse` needs it.
- Input plumbing is not modelled. `Globals.mouseX/mouseY` and the event queue become the `Panels.MouseInput` parameter, with "any mouse-down/up event" as two booleans.
- `Environment.Update` is not modelled. Its foreach over `sceneObjects` is changed underneath by the `Die` and `Procreate` it triggers, and the C# enumerator semantics of that are not modelled. `Jumpmen.Update` models a single jumpman's step.
- The orchestrator and the food spawner are not modelled (`Simulation`, `Program`, the spawn rate). `SimulationSettings` is modelled as the record the step reads.
- IEEE doubles are replaced by reals. The model claims no bit-exact agreement, and it has no NaN or infinity.
  - `Vectors.Div` requires a non-zero divisor, because the source would produce infinities.
  - `Sliders.Update` requires a non-zero panel width and slider width, for the same reason.
  - `Sliders.BobFraction` requires `maxValue != minValue`.
- `System.Random` internals are not modelled; draws are caller-supplied. The child's generator is seeded from the parent's with `rand.Next()`; the model takes the child's draws as a separate stream and does not relate them to the parent's.
- `Vector2.Rotate`, `Vector2.FromAngle`, `Math.Pow`, `JumpmanAttributes.size`, `Transform.OverlapAABB` and `Environment.Time` are not defined in the code and stay uninterpreted. So do `Vector2.Magnitude` and `Normalized`, which need a square root.
- The `Death` event and its delegate plumbing are returned as `Jumpmen.DeathRecord` values instead.
- `Jumpmen.Move`: its contract states only that the scale is kept. The per-axis bounce is stated by `Jumpmen.Bounce`, and the position bound by `Jumpmen.MoveStaysInside`, because the rotated velocity is uninterpreted.
- `Jumpmen.Update`: it requires that a jumpman about to procreate has at least 32 genes and more child draws than genes. The child's generator never runs out of draws. What the decoder does with a shorter genome depends on `Genome.Slice`, which is not part of this model; `Jumpmen.Create` and `Jumpmen.Procreate` carry the same genome-length requirement.
- `Trackers.Handle`: it requires non-empty timelines, which the constructor establishes and the handlers keep. The InvalidOperationException that `Last()` would throw on an empty timeline is not modelled.
- `Rects.Square`: it requires that the centred offsets fit in an int. C# leaves the result of an out-of-range double-to-int cast unspecified.
- `Graphs.Next` and `Graphs.Prev`: their own contracts only say they move. The full two-element cycle is stated by `Graphs.NextPrevInverse`.

## Findings

| source | as written | input that shows it | evidently intended | confidence | as-written member | corrected member |
|---|---|---|---|---|---|---|
| src/Jumpman.cs:188-196 | `CheckCollisions` iterates `environment.food` with foreach, and `Eat` (line 202) removes the eaten food from that same list during the iteration | a jumpman overlapping the only food in its environment: the removal changes the list's version, and the enumerator's next `MoveNext` throws InvalidOperationException | every overlapping food is eaten and removed and the step carries on, as the method's own summary says: check for collisions with any food the jumpman can eat (src/Jumpman.cs:185-186) | high (not executed) | Jumpmen.CheckCollisionsAsWritten, Jumpmen.AsWrittenThrowsWhereIntendedEats | Jumpmen.CheckCollisions |

The step `Jumpmen.Update` uses the corrected scan. The corrected scan walks the food list as it stood when the scan began, and eats every piece whose box overlaps the jumpman's.
