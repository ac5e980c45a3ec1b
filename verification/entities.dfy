/** The objects an environment holds (src/SceneObject.cs, src/Entity.cs,
    src/Food.cs). The class hierarchy SceneObject > Entity > {Jumpman, Food}
    becomes one datatype whose variants are the runtime types the
    environment tests with `is`. Objects are compared by value; distinct
    objects carry distinct ids, which plays the part of reference identity. */
module Entities {
  import opened Transforms

  /** A piece of food: immutable once created. */
  datatype Food = Food(id: nat, transform: Transform, nutrition: real)

  datatype Obj =
    | JumpmanObj(id: nat)        // a Jumpman, whose state lives outside the registry
    | FoodObj(food: Food)
    | OtherEntity(id: nat)       // any other Entity
    | OtherObject(id: nat)       // a SceneObject that is no Entity, such as the camera

  /** `is Entity`: jumpmen and food are entities. */
  predicate IsEntity(o: Obj) {
    !o.OtherObject?
  }
}
