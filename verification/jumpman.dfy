/** The jumpman's per-tick behaviour (src/Jumpman.cs): starvation, procreation
    with energy transfer, movement with a per-axis bounce, eating and energy
    decay.

    The jumpman's environment is passed in and the changed environment handed
    back; AddObject and RemoveObject act on it immediately, as in the source.
    Random draws are parameters: the parent's `NextDouble()` for the turn angle
    and, for a child, the stream of the child's own generator. What the source
    calls but does not define (Vector2.Rotate, Vector2.FromAngle,
    JumpmanAttributes.size, Transform.OverlapAABB, Environment.Time) and
    Math.Pow are parameters too. */
module Jumpmen {
  import opened Wrappers
  import opened Vectors
  import opened Transforms
  import opened Genetics
  import opened Phenotype
  import opened Settings
  import opened Entities
  import opened Environments

  const ProcreationEnergyThreshold: real := 100.0
  const ProcreationEnergyCost: real := 50.0
  const TurnSpeed: real := 4.0
  /** Math.PI. */
  const Pi: real := 3.141592653589793

  /** The operations the jumpman uses without a definition in the model. */
  datatype Opaque = Opaque(
    rotate: (Vector2, real) -> Vector2,
    fromAngle: real -> Vector2,
    size: Attributes -> real,
    pow: (real, real) -> real,
    overlapAABB: (Transform, Transform) -> bool)

  datatype Jumpman = Jumpman(
    id: nat,
    transform: Transform,
    velocity: Vector2,
    energy: real,
    genome: Genome,
    attr: Attributes)

  /** `a` and `b` are the same jumpman in the same place and state, except
      perhaps for their energy. */
  predicate SameButEnergy(a: Jumpman, b: Jumpman) {
    a.id == b.id && a.transform == b.transform && a.velocity == b.velocity
    && a.genome == b.genome && a.attr == b.attr
  }

  /** The constructor Jumpman(position, energy, genome, rand): the phenotype is
      decoded from the genome, the scale is the decoded size on both axes and
      the velocity has the decoded speed in the direction of one draw. */
  function Create(id: nat, position: Vector2, energy: real, genome: Genome, angleDraw: real, ops: Opaque): (j: Jumpman)
    requires |genome| >= GenomeLength
    ensures j.id == id && j.energy == energy && j.genome == genome
    ensures j.transform.position == position
    ensures j.attr == FromGenome(genome)
    ensures j.transform.scale.x == j.transform.scale.y == ops.size(j.attr)
    ensures j.velocity == Scale(ops.fromAngle(angleDraw * 2.0 * Pi), j.attr.speed)
  {
    var attr := FromGenome(genome);
    Jumpman(id, Transform(position, Scale(One, ops.size(attr))),
            Scale(ops.fromAngle(angleDraw * 2.0 * Pi), attr.speed), energy, genome, attr)
  }

  /** JumpmanDeathEventArgs. */
  datatype DeathRecord = DeathRecord(deceased: nat, reason: string, timeOfDeath: real)

  datatype Died = Died(env: Environment, record: DeathRecord)

  /** Jumpman.Die: report the death, then leave the environment. */
  function Die(j: Jumpman, reason: string, env: Environment, time: real): (r: Died)
    ensures r.record.deceased == j.id && r.record.reason == reason
    ensures r.record.timeOfDeath == time
    ensures r.env == RemoveObject(env, JumpmanObj(j.id))
  {
    Died(RemoveObject(env, JumpmanObj(j.id)), DeathRecord(j.id, reason, time))
  }

  datatype Procreated = Procreated(parent: Jumpman, child: Jumpman, env: Environment)

  /** Jumpman.Procreate: a child at the parent's position, with a mutated copy
      of the parent's genome and `cost` energy taken from the parent. The
      child's generator yields `childDraws`: one draw per gene for the
      mutation, then one for the child's heading. */
  function Procreate(j: Jumpman, cost: real, env: Environment, settings: SimulationSettings,
                     childId: nat, childDraws: seq<real>, ops: Opaque): (r: Procreated)
    requires |j.genome| >= GenomeLength
    requires |childDraws| > |j.genome|
    ensures r.parent.energy == j.energy - cost
    ensures r.child.energy == cost
    ensures r.parent.energy + r.child.energy == j.energy
    ensures SameButEnergy(r.parent, j)
    ensures r.child.id == childId
    ensures r.child.transform.position == j.transform.position
    ensures |r.child.genome| == |j.genome|
    ensures forall i :: 0 <= i < |j.genome| ==>
              (r.child.genome[i] != j.genome[i] <==> childDraws[i] < settings.jumpmanMutationRate)
    ensures r.child.attr == FromGenome(r.child.genome)
    ensures r.child.transform.scale.x == r.child.transform.scale.y == ops.size(r.child.attr)
    ensures r.env == AddObject(env, JumpmanObj(childId)).env
  {
    var childGenome := Mutate(Copy(j.genome), settings.jumpmanMutationRate, childDraws);
    var child := Create(childId, j.transform.position, cost, childGenome, childDraws[|j.genome|], ops);
    Procreated(j.(energy := j.energy - cost), child, AddObject(env, JumpmanObj(childId)).env)
  }

  /** Jumpman.GetEnergyUsagePerSecond, which reads only the phenotype: the
      idle cost, plus a movement cost that vanishes for a motionless or
      free-moving jumpman and is never negative when its factors are not. */
  function EnergyUsagePerSecond(attr: Attributes, settings: SimulationSettings, ops: Opaque): (u: real)
    ensures settings.jumpmanSpeedCost == 0.0 || attr.speed == 0.0 ==> u == settings.jumpmanIdleCost
    ensures settings.jumpmanSpeedCost >= 0.0 && attr.speed >= 0.0
            && ops.pow(ops.size(attr), settings.jumpmanSizeCost) >= 0.0
            ==> u >= settings.jumpmanIdleCost
  {
    settings.jumpmanIdleCost
    + settings.jumpmanSpeedCost * attr.speed * ops.pow(ops.size(attr), settings.jumpmanSizeCost)
  }

  /** The energy used over a time step of dt. */
  function UsageOver(attr: Attributes, settings: SimulationSettings, dt: real, ops: Opaque): real {
    EnergyUsagePerSecond(attr, settings, ops) * dt
  }

  /** Position and velocity along one axis. */
  datatype Axis = Axis(position: real, velocity: real)

  /** The bounce along one axis, for a box of extent `s` centred at `p`, in
      bounds [lo, hi]: a box crossing the low edge is put against it, else one
      crossing the high edge is put against that, and either way the velocity
      reverses; a box inside stays as it is. */
  function Bounce(p: real, s: real, v: real, lo: real, hi: real): (r: Axis)
    ensures p - s / 2.0 < lo ==> r.position - s / 2.0 == lo && r.velocity == -v
    ensures lo <= p - s / 2.0 && p + s / 2.0 > hi ==> r.position + s / 2.0 == hi && r.velocity == -v
    ensures lo <= p - s / 2.0 && p + s / 2.0 <= hi ==> r == Axis(p, v)
  {
    if p - s / 2.0 < lo then Axis(lo + s / 2.0, v * -1.0)
    else if p + s / 2.0 > hi then Axis(hi - s / 2.0, v * -1.0)
    else Axis(p, v)
  }

  /** A box no wider than the bounds ends inside them after a bounce. */
  lemma BounceStaysInside(p: real, s: real, v: real, lo: real, hi: real)
    requires s <= hi - lo
    ensures lo <= Bounce(p, s, v, lo, hi).position - s / 2.0
    ensures Bounce(p, s, v, lo, hi).position + s / 2.0 <= hi
  {
  }

  /** The part of a jumpman that Move reads and writes. */
  datatype Motion = Motion(transform: Transform, velocity: Vector2)

  function MotionOf(j: Jumpman): Motion {
    Motion(j.transform, j.velocity)
  }

  /** Jumpman.Move in an environment of extent `bounds` centred at the origin:
      turn by a random angle, advance by velocity * dt, then bounce off the
      edges on each axis. */
  function Move(m: Motion, dt: real, turnDraw: real, bounds: Vector2, ops: Opaque): (r: Motion)
    ensures r.transform.scale == m.transform.scale
  {
    var angle := TurnSpeed * (turnDraw * 2.0 * Pi - Pi) * dt;
    var v := ops.rotate(m.velocity, angle);
    var t := Translate(m.transform, Scale(v, dt));
    var ax := Bounce(t.position.x, t.scale.x, v.x, -bounds.x / 2.0, bounds.x / 2.0);
    var ay := Bounce(t.position.y, t.scale.y, v.y, -bounds.y / 2.0, bounds.y / 2.0);
    Motion(t.(position := Vector2(ax.position, ay.position)), Vector2(ax.velocity, ay.velocity))
  }

  /** After Move, a jumpman no wider (no taller) than the environment lies
      within [-width/2, width/2] ([-height/2, height/2]) on that axis. */
  lemma MoveStaysInside(m: Motion, dt: real, turnDraw: real, bounds: Vector2, ops: Opaque)
    ensures var r := Move(m, dt, turnDraw, bounds, ops);
            var p := r.transform.position;
            var s := r.transform.scale;
            (s.x <= bounds.x ==> -bounds.x / 2.0 <= p.x - s.x / 2.0 && p.x + s.x / 2.0 <= bounds.x / 2.0)
            && (s.y <= bounds.y ==> -bounds.y / 2.0 <= p.y - s.y / 2.0 && p.y + s.y / 2.0 <= bounds.y / 2.0)
  {
    var angle := TurnSpeed * (turnDraw * 2.0 * Pi - Pi) * dt;
    var v := ops.rotate(m.velocity, angle);
    var t := Translate(m.transform, Scale(v, dt));
    if t.scale.x <= bounds.x {
      BounceStaysInside(t.position.x, t.scale.x, v.x, -bounds.x / 2.0, bounds.x / 2.0);
    }
    if t.scale.y <= bounds.y {
      BounceStaysInside(t.position.y, t.scale.y, v.y, -bounds.y / 2.0, bounds.y / 2.0);
    }
  }

  /** A jumpman together with the environment it acts on. */
  datatype Eaten = Eaten(jumpman: Jumpman, env: Environment)

  /** Jumpman.Eat: gain the food's nutrition and remove the food. */
  function Eat(j: Jumpman, food: Food, env: Environment): (r: Eaten)
    ensures r.jumpman.energy == j.energy + food.nutrition
    ensures SameButEnergy(r.jumpman, j)
    ensures r.env == RemoveObject(env, FoodObj(food))
  {
    Eaten(j.(energy := j.energy + food.nutrition), RemoveObject(env, FoodObj(food)))
  }

  /** The food among `foods` whose box overlaps `t`, in list order. */
  function Overlapping(t: Transform, foods: seq<Obj>, ops: Opaque): seq<Food> {
    if |foods| == 0 then []
    else if foods[0].FoodObj? && ops.overlapAABB(t, foods[0].food.transform) then
      [foods[0].food] + Overlapping(t, foods[1..], ops)
    else Overlapping(t, foods[1..], ops)
  }

  function TotalNutrition(foods: seq<Food>): real {
    if |foods| == 0 then 0.0 else foods[0].nutrition + TotalNutrition(foods[1..])
  }

  /** RemoveObject for each food in turn. */
  function RemoveFoods(env: Environment, foods: seq<Food>): Environment
    decreases |foods|
  {
    if |foods| == 0 then env else RemoveFoods(RemoveObject(env, FoodObj(foods[0])), foods[1..])
  }

  /** Walks a snapshot of the food list, eating each piece that overlaps. */
  function EatOverlapping(j: Jumpman, env: Environment, foods: seq<Obj>, ops: Opaque): (r: Eaten)
    ensures r.jumpman.energy == j.energy + TotalNutrition(Overlapping(j.transform, foods, ops))
    ensures SameButEnergy(r.jumpman, j)
    ensures r.env == RemoveFoods(env, Overlapping(j.transform, foods, ops))
    decreases |foods|
  {
    if |foods| == 0 then Eaten(j, env)
    else
      var next :=
        if foods[0].FoodObj? && ops.overlapAABB(j.transform, foods[0].food.transform)
        then Eat(j, foods[0].food, env)
        else Eaten(j, env);
      var rest := EatOverlapping(next.jumpman, next.env, foods[1..], ops);
      var eaten := Overlapping(j.transform, foods, ops);
      assert next.jumpman.transform == j.transform;
      if foods[0].FoodObj? && ops.overlapAABB(j.transform, foods[0].food.transform) then
        assert eaten[0] == foods[0].food && eaten[1..] == Overlapping(j.transform, foods[1..], ops);
        rest
      else
        rest
  }

  /** Jumpman.CheckCollisions as the intended behaviour: eat every food of
      the environment's food list, as it stood when the scan began, whose box
      overlaps the jumpman's. */
  function CheckCollisions(j: Jumpman, env: Environment, ops: Opaque): (r: Eaten)
    ensures r.jumpman.energy == j.energy + TotalNutrition(Overlapping(j.transform, env.food, ops))
    ensures SameButEnergy(r.jumpman, j)
    ensures r.env == RemoveFoods(env, Overlapping(j.transform, env.food, ops))
  {
    EatOverlapping(j, env, env.food, ops)
  }

  /** Jumpman.CheckCollisions as written: a foreach over `environment.food`
      whose body, on an overlap, removes that food from the very list being
      walked. The enumerator's next MoveNext then throws, so the scan ends
      with an InvalidOperationException as soon as one food is eaten. */
  function CheckCollisionsAsWritten(j: Jumpman, env: Environment, ops: Opaque, i: nat): (r: Result<Eaten, Exception>)
    requires i <= |env.food|
    ensures r.Failure? <==> Overlapping(j.transform, env.food[i..], ops) != []
    ensures r.Failure? ==> r.error == InvalidOperationException
    ensures r.Success? ==> r.value == Eaten(j, env)
    decreases |env.food| - i
  {
    if i == |env.food| then
      Success(Eaten(j, env))
    else
      assert env.food[i..][1..] == env.food[i + 1..];
      if env.food[i].FoodObj? && ops.overlapAABB(j.transform, env.food[i].food.transform) then
        Failure(InvalidOperationException)
      else
        CheckCollisionsAsWritten(j, env, ops, i + 1)
  }

  /** Where a jumpman ends up after moving in `env`. */
  function MovedTransform(j: Jumpman, dt: real, turnDraw: real, env: Environment, ops: Opaque): Transform {
    Move(MotionOf(j), dt, turnDraw, env.transform.scale, ops).transform
  }

  /** The outcome of one Update: the jumpman, its environment, the child it
      may have spawned and the deaths it reported. */
  datatype StepOutcome = StepOutcome(self: Jumpman, env: Environment, child: Option<Jumpman>, deaths: seq<DeathRecord>)

  /** The survivor's tail of Update once it has moved to `m`: eat, then pay
      the energy usage over dt. */
  function Forage(j: Jumpman, m: Motion, env: Environment, settings: SimulationSettings, dt: real,
                  ops: Opaque): (r: Eaten)
    ensures r.jumpman.energy
              == j.energy + TotalNutrition(Overlapping(m.transform, env.food, ops))
                 - UsageOver(j.attr, settings, dt, ops)
    ensures r.jumpman.transform == m.transform && r.jumpman.velocity == m.velocity
    ensures r.jumpman.id == j.id && r.jumpman.genome == j.genome && r.jumpman.attr == j.attr
    ensures r.env == RemoveFoods(env, Overlapping(m.transform, env.food, ops))
  {
    var fed := CheckCollisions(j.(transform := m.transform, velocity := m.velocity), env, ops);
    fed.(jumpman := fed.jumpman.(energy := fed.jumpman.energy - UsageOver(j.attr, settings, dt, ops)))
  }

  /** Jumpman.Update, with eating as in CheckCollisions: starve, or else
      procreate when above the threshold, move, eat and pay the usage over
      dt. Procreation changes neither the parent's motion nor the
      environment's extent, so the move reads both as they were at the start
      of the step. */
  function Update(j: Jumpman, env: Environment, settings: SimulationSettings, dt: real, time: real,
                  turnDraw: real, childId: nat, childDraws: seq<real>, ops: Opaque): (r: StepOutcome)
    requires j.energy > ProcreationEnergyThreshold ==> |j.genome| >= GenomeLength && |childDraws| > |j.genome|
    ensures j.energy < 0.0 ==> r == StepOutcome(j, RemoveObject(env, JumpmanObj(j.id)), None,
                                                [DeathRecord(j.id, "starvation", time)])
    ensures j.energy >= 0.0 ==> r.deaths == [] && r.self.transform == MovedTransform(j, dt, turnDraw, env, ops)
    ensures r.self.id == j.id && r.self.genome == j.genome && r.self.attr == j.attr
    ensures r.child.Some? <==> j.energy > ProcreationEnergyThreshold
    // Energy over a surviving step: minus the procreation cost if the jumpman
    // procreated, plus the nutrition of the food of the environment's list
    // (unchanged by procreation) that overlaps the moved jumpman, minus the
    // usage over dt.
    ensures j.energy >= 0.0 ==>
              r.self.energy
                == j.energy - (if j.energy > ProcreationEnergyThreshold then ProcreationEnergyCost else 0.0)
                   + TotalNutrition(Overlapping(MovedTransform(j, dt, turnDraw, env, ops), env.food, ops))
                   - UsageOver(j.attr, settings, dt, ops)
    // A surviving step registers the child, if any, and then removes the
    // food the moved jumpman overlaps; the velocity is the one Move left.
    ensures j.energy >= 0.0 ==>
              r.env == RemoveFoods(if j.energy > ProcreationEnergyThreshold
                                   then AddObject(env, JumpmanObj(childId)).env else env,
                                   Overlapping(MovedTransform(j, dt, turnDraw, env, ops), env.food, ops))
    ensures j.energy >= 0.0 ==>
              r.self.velocity == Move(MotionOf(j), dt, turnDraw, env.transform.scale, ops).velocity
    ensures r.child.Some? ==>
              r.child.value == Procreate(j, ProcreationEnergyCost, env, settings, childId, childDraws, ops).child
  {
    if j.energy < 0.0 then
      var died := Die(j, "starvation", env, time);
      StepOutcome(j, died.env, None, [died.record])
    else
      var m := Move(MotionOf(j), dt, turnDraw, env.transform.scale, ops);
      if j.energy > ProcreationEnergyThreshold then
        var p := Procreate(j, ProcreationEnergyCost, env, settings, childId, childDraws, ops);
        var fed := Forage(p.parent, m, p.env, settings, dt, ops);
        StepOutcome(fed.jumpman, fed.env, Some(p.child), [])
      else
        var fed := Forage(j, m, env, settings, dt, ops);
        StepOutcome(fed.jumpman, fed.env, None, [])
  }

  /** After a surviving step, a jumpman no wider (no taller) than its
      environment lies within it on that axis. */
  lemma UpdateStaysInside(j: Jumpman, env: Environment, settings: SimulationSettings, dt: real, time: real,
                          turnDraw: real, childId: nat, childDraws: seq<real>, ops: Opaque)
    requires j.energy > ProcreationEnergyThreshold ==> |j.genome| >= GenomeLength && |childDraws| > |j.genome|
    requires j.energy >= 0.0
    ensures var t := Update(j, env, settings, dt, time, turnDraw, childId, childDraws, ops).self.transform;
            (j.transform.scale.x <= Width(env) ==>
               -Width(env) / 2.0 <= t.position.x - t.scale.x / 2.0 && t.position.x + t.scale.x / 2.0 <= Width(env) / 2.0)
            && (j.transform.scale.y <= Height(env) ==>
               -Height(env) / 2.0 <= t.position.y - t.scale.y / 2.0 && t.position.y + t.scale.y / 2.0 <= Height(env) / 2.0)
  {
    MoveStaysInside(MotionOf(j), dt, turnDraw, env.transform.scale, ops);
  }

  /** Energy exactly at the threshold does not procreate; just above it does,
      at cost 50. */
  lemma ProcreationThreshold(j: Jumpman, env: Environment, settings: SimulationSettings, dt: real, time: real,
                             turnDraw: real, childId: nat, childDraws: seq<real>, ops: Opaque)
    requires |j.genome| >= GenomeLength && |childDraws| > |j.genome|
    ensures j.energy == 100.0 ==> Update(j, env, settings, dt, time, turnDraw, childId, childDraws, ops).child.None?
    ensures j.energy > 100.0 ==>
              var c := Update(j, env, settings, dt, time, turnDraw, childId, childDraws, ops).child;
              c.Some? && c.value.energy == 50.0 && c.value.transform.position == j.transform.position
  {
  }

  /** With a non-negative usage and time step, decay never adds energy: a
      surviving step ends with at most the energy the jumpman had after eating. */
  lemma DecayNeverAdds(j: Jumpman, env: Environment, settings: SimulationSettings, dt: real, time: real,
                       turnDraw: real, childId: nat, childDraws: seq<real>, ops: Opaque)
    requires j.energy > ProcreationEnergyThreshold ==> |j.genome| >= GenomeLength && |childDraws| > |j.genome|
    requires j.energy >= 0.0
    requires EnergyUsagePerSecond(j.attr, settings, ops) >= 0.0 && dt >= 0.0
    ensures var r := Update(j, env, settings, dt, time, turnDraw, childId, childDraws, ops);
            var cost := if j.energy > ProcreationEnergyThreshold then ProcreationEnergyCost else 0.0;
            var eaten := Overlapping(MovedTransform(j, dt, turnDraw, env, ops), env.food, ops);
            r.self.energy <= j.energy - cost + TotalNutrition(eaten)
  {
    UsageOverNonNegative(j.attr, settings, dt, ops);
  }

  lemma UsageOverNonNegative(attr: Attributes, settings: SimulationSettings, dt: real, ops: Opaque)
    requires EnergyUsagePerSecond(attr, settings, ops) >= 0.0 && dt >= 0.0
    ensures UsageOver(attr, settings, dt, ops) >= 0.0
  {
  }

  /** Removing a sequence of foods keeps the registry consistent. */
  lemma {:induction false} RemoveFoodsKeepsConsistent(env: Environment, foods: seq<Food>)
    requires Consistent(env)
    ensures Consistent(RemoveFoods(env, foods))
    decreases |foods|
  {
    if |foods| > 0 {
      var next := RemoveObject(env, FoodObj(foods[0]));
      RemoveObjectKeepsConsistent(env, FoodObj(foods[0]));
      RemoveFoodsKeepsConsistent(next, foods[1..]);
      assert RemoveFoods(env, foods) == RemoveFoods(next, foods[1..]);
    }
  }

  /** A step keeps the environment's registry consistent. */
  lemma UpdateKeepsConsistent(j: Jumpman, env: Environment, settings: SimulationSettings, dt: real, time: real,
                              turnDraw: real, childId: nat, childDraws: seq<real>, ops: Opaque)
    requires j.energy > ProcreationEnergyThreshold ==> |j.genome| >= GenomeLength && |childDraws| > |j.genome|
    requires Consistent(env)
    ensures Consistent(Update(j, env, settings, dt, time, turnDraw, childId, childDraws, ops).env)
  {
    if j.energy < 0.0 {
      RemoveObjectKeepsConsistent(env, JumpmanObj(j.id));
    } else {
      var m := Move(MotionOf(j), dt, turnDraw, env.transform.scale, ops);
      if j.energy > ProcreationEnergyThreshold {
        var p := Procreate(j, ProcreationEnergyCost, env, settings, childId, childDraws, ops);
        AddObjectKeepsConsistent(env, JumpmanObj(childId));
        RemoveFoodsKeepsConsistent(p.env, Overlapping(m.transform, p.env.food, ops));
      } else {
        RemoveFoodsKeepsConsistent(env, Overlapping(m.transform, env.food, ops));
      }
    }
  }

  /** The as-written scan throws exactly when the intended one eats: for a
      jumpman over one piece of food, CheckCollisions gains its nutrition and
      removes it, while the code as written raises InvalidOperationException. */
  lemma AsWrittenThrowsWhereIntendedEats(j: Jumpman, food: Food)
    ensures var ops := Opaque((v, a) => v, a => Zero, attr => 1.0, (b, e) => 1.0, (s, t) => true);
            var env := AddObject(Environments.Create(0, 30.0, 30.0), FoodObj(food)).env;
            && CheckCollisionsAsWritten(j, env, ops, 0) == Failure(InvalidOperationException)
            && CheckCollisions(j, env, ops).jumpman.energy == j.energy + food.nutrition
            && CheckCollisions(j, env, ops).env.food == []
  {
    var ops := Opaque((v, a) => v, a => Zero, attr => 1.0, (b, e) => 1.0, (s, t) => true);
    var env := AddObject(Environments.Create(0, 30.0, 30.0), FoodObj(food)).env;
    assert env.food == [FoodObj(food)];
    assert env.food[0..] == env.food;
    assert Overlapping(j.transform, env.food, ops) == [food];
    assert TotalNutrition([food]) == food.nutrition;
  }
}
