/** The environment's object registry (src/Environment.cs): four lists kept
    in step by AddObject and RemoveObject, which change them immediately. */
module Environments {
  import opened Wrappers
  import opened Vectors
  import opened Transforms
  import opened Entities

  /** An environment: centred at its position, its scale is its width and
      height. `jumpmen`, `food` and `entities` overlap `sceneObjects`. */
  datatype Environment = Environment(
    id: nat,
    transform: Transform,
    sceneObjects: seq<Obj>,
    entities: seq<Obj>,
    jumpmen: seq<Obj>,
    food: seq<Obj>)

  /** The `width` and `height` properties read the environment's scale. */
  function Width(e: Environment): (w: real)
    ensures w == e.transform.scale.x
  {
    e.transform.scale.x
  }

  function Height(e: Environment): (h: real)
    ensures h == e.transform.scale.y
  {
    e.transform.scale.y
  }

  /** The constructor: centred at the origin, sized width x height, empty. */
  function Create(id: nat, width: real, height: real): (e: Environment)
    ensures Width(e) == width && Height(e) == height
    ensures e.transform.position == Zero
    ensures e.sceneObjects == e.entities == e.jumpmen == e.food == []
    ensures Consistent(e)
  {
    Environment(id, Transform(Zero, Vector2(width, height)), [], [], [], [])
  }

  /** Which typed lists an object belongs in, by its runtime type. */
  predicate InJumpmen(o: Obj) {
    o.JumpmanObj?
  }

  predicate InFood(o: Obj) {
    o.FoodObj?
  }

  /** A typed list is in step with `sceneObjects` when it holds each object
      of its kind exactly as often as `sceneObjects` does, and nothing else. */
  ghost predicate InStep(typed: seq<Obj>, all: seq<Obj>, kind: Obj -> bool) {
    forall o :: multiset(typed)[o] == if kind(o) then multiset(all)[o] else 0
  }

  /** The registry invariant: all three typed lists are in step. */
  ghost predicate Consistent(e: Environment) {
    && InStep(e.jumpmen, e.sceneObjects, InJumpmen)
    && InStep(e.food, e.sceneObjects, InFood)
    && InStep(e.entities, e.sceneObjects, IsEntity)
  }

  /** The position of the first occurrence of `x`. */
  function IndexOf<T(==)>(s: seq<T>, x: T): (k: nat)
    requires x in s
    ensures k < |s| && s[k] == x
    ensures forall i :: 0 <= i < k ==> s[i] != x
  {
    if s[0] == x then 0 else 1 + IndexOf(s[1..], x)
  }

  /** List<T>.Remove: deletes one occurrence of `x`, if there is one. */
  function RemoveFirst<T(==)>(s: seq<T>, x: T): (r: seq<T>)
    ensures x !in s ==> r == s
    ensures x in s ==> multiset(r) + multiset{x} == multiset(s)
  {
    if |s| == 0 then []
    else if s[0] == x then
      assert s == [x] + s[1..];
      s[1..]
    else
      var rest := RemoveFirst(s[1..], x);
      assert s == [s[0]] + s[1..];
      [s[0]] + rest
  }

  /** The occurrence RemoveFirst deletes is the first one, and the other
      elements keep their order. */
  lemma {:induction false} RemoveFirstDeletesFirst<T>(s: seq<T>, x: T)
    requires x in s
    ensures RemoveFirst(s, x) == s[..IndexOf(s, x)] + s[IndexOf(s, x) + 1..]
  {
    if s[0] != x {
      var k := IndexOf(s[1..], x);
      RemoveFirstDeletesFirst(s[1..], x);
      SliceAfterHead(s, k);
    }
  }

  lemma SliceAfterHead<T>(s: seq<T>, k: nat)
    requires k + 1 < |s|
    ensures s[..k + 1] == [s[0]] + s[1..][..k]
    ensures s[k + 2..] == s[1..][k + 1..]
  {
  }

  /** The result of AddObject: the new environment and, when a jumpman was
      added, the id of the jumpman whose environment reference now points here. */
  datatype Added = Added(env: Environment, linked: Option<nat>)

  /** A list after AddObject: `o` appended iff `belongs`. */
  predicate AppendedIf<T(==)>(before: seq<T>, after: seq<T>, o: T, belongs: bool) {
    if belongs then after == before + [o] else after == before
  }

  /** A list after RemoveObject: first `o` deleted iff `belongs`. */
  predicate RemovedIf<T(==)>(before: seq<T>, after: seq<T>, o: T, belongs: bool) {
    if belongs then after == RemoveFirst(before, o) else after == before
  }

  /** Environment.AddObject. */
  function AddObject(e: Environment, o: Obj): (r: Added)
    ensures r.env.id == e.id && r.env.transform == e.transform
    ensures r.env.sceneObjects == e.sceneObjects + [o]
    ensures AppendedIf(e.jumpmen, r.env.jumpmen, o, InJumpmen(o))
    ensures AppendedIf(e.food, r.env.food, o, InFood(o))
    ensures AppendedIf(e.entities, r.env.entities, o, IsEntity(o))
    ensures r.linked.Some? <==> o.JumpmanObj?
    ensures r.linked.Some? ==> r.linked.value == o.id
  {
    var jumpmen := if o.JumpmanObj? then e.jumpmen + [o] else e.jumpmen;
    var linked := if o.JumpmanObj? then Some(o.id) else None;
    var food := if o.FoodObj? then e.food + [o] else e.food;
    var entities := if IsEntity(o) then e.entities + [o] else e.entities;
    Added(e.(jumpmen := jumpmen, food := food, entities := entities,
             sceneObjects := e.sceneObjects + [o]), linked)
  }

  /** Environment.RemoveObject. */
  function RemoveObject(e: Environment, o: Obj): (r: Environment)
    ensures r.id == e.id && r.transform == e.transform
    ensures RemovedIf(e.sceneObjects, r.sceneObjects, o, true)
    ensures RemovedIf(e.jumpmen, r.jumpmen, o, InJumpmen(o))
    ensures RemovedIf(e.food, r.food, o, InFood(o))
    ensures RemovedIf(e.entities, r.entities, o, IsEntity(o))
  {
    var jumpmen := if o.JumpmanObj? then RemoveFirst(e.jumpmen, o) else e.jumpmen;
    var food := if o.FoodObj? then RemoveFirst(e.food, o) else e.food;
    var entities := if IsEntity(o) then RemoveFirst(e.entities, o) else e.entities;
    e.(jumpmen := jumpmen, food := food, entities := entities,
       sceneObjects := RemoveFirst(e.sceneObjects, o))
  }

  /** In a consistent registry the typed lists hold only objects of their
      kind that are in `sceneObjects`; in particular jumpmen and food are
      disjoint. */
  lemma ConsistentTypedLists(e: Environment, o: Obj)
    requires Consistent(e)
    ensures o in e.jumpmen ==> o.JumpmanObj? && o in e.sceneObjects
    ensures o in e.food ==> o.FoodObj? && o in e.sceneObjects
    ensures o in e.entities ==> IsEntity(o) && o in e.sceneObjects
    ensures !(o in e.jumpmen && o in e.food)
  {
    assert multiset(e.jumpmen)[o] == if InJumpmen(o) then multiset(e.sceneObjects)[o] else 0;
    assert multiset(e.food)[o] == if InFood(o) then multiset(e.sceneObjects)[o] else 0;
    assert multiset(e.entities)[o] == if IsEntity(o) then multiset(e.sceneObjects)[o] else 0;
  }

  /** Appending `o` to both lists, or to `all` alone when `o` is not of the
      list's kind, keeps a typed list in step. */
  lemma AppendKeepsInStep(typed: seq<Obj>, all: seq<Obj>, kind: Obj -> bool, o: Obj)
    requires InStep(typed, all, kind)
    ensures InStep(if kind(o) then typed + [o] else typed, all + [o], kind)
  {
    assert multiset(all + [o]) == multiset(all) + multiset{o};
    assert multiset(typed + [o]) == multiset(typed) + multiset{o};
  }

  /** Removing the first `o` from both lists, or from `all` alone when `o` is
      not of the list's kind, keeps a typed list in step. */
  lemma RemoveKeepsInStep(typed: seq<Obj>, all: seq<Obj>, kind: Obj -> bool, o: Obj)
    requires InStep(typed, all, kind)
    ensures InStep(if kind(o) then RemoveFirst(typed, o) else typed, RemoveFirst(all, o), kind)
  {
    var typed' := if kind(o) then RemoveFirst(typed, o) else typed;
    var all' := RemoveFirst(all, o);
    if o in all {
      assert multiset(all)[o] > 0;
      if kind(o) {
        assert multiset(typed)[o] > 0;
        assert o in typed;
      }
      forall p
        ensures multiset(typed')[p] == if kind(p) then multiset(all')[p] else 0
      {
        assert multiset(all')[p] + multiset{o}[p] == multiset(all)[p];
        if kind(o) {
          assert multiset(typed')[p] + multiset{o}[p] == multiset(typed)[p];
        }
      }
    } else {
      assert all' == all;
      if kind(o) {
        assert multiset(typed)[o] == 0;
        assert o !in typed;
      }
    }
  }

  /** AddObject keeps the registry consistent. */
  lemma AddObjectKeepsConsistent(e: Environment, o: Obj)
    requires Consistent(e)
    ensures Consistent(AddObject(e, o).env)
  {
    AppendKeepsInStep(e.jumpmen, e.sceneObjects, InJumpmen, o);
    AppendKeepsInStep(e.food, e.sceneObjects, InFood, o);
    AppendKeepsInStep(e.entities, e.sceneObjects, IsEntity, o);
  }

  /** RemoveObject keeps the registry consistent. */
  lemma RemoveObjectKeepsConsistent(e: Environment, o: Obj)
    requires Consistent(e)
    ensures Consistent(RemoveObject(e, o))
  {
    RemoveKeepsInStep(e.jumpmen, e.sceneObjects, InJumpmen, o);
    RemoveKeepsInStep(e.food, e.sceneObjects, InFood, o);
    RemoveKeepsInStep(e.entities, e.sceneObjects, IsEntity, o);
  }

  /** Removing an object the environment does not hold changes nothing. */
  lemma RemoveAbsentObject(e: Environment, o: Obj)
    requires Consistent(e)
    requires o !in e.sceneObjects
    ensures RemoveObject(e, o) == e
  {
    ConsistentTypedLists(e, o);
  }

  lemma RemoveFirstOfAppended<T>(s: seq<T>, x: T)
    requires x !in s
    ensures RemoveFirst(s + [x], x) == s
  {
    RemoveFirstDeletesFirst(s + [x], x);
    assert IndexOf(s + [x], x) == |s|;
    assert (s + [x])[..|s|] == s;
  }

  /** Adding an object the environment does not hold and removing it again
      restores all four lists. */
  lemma AddThenRemove(e: Environment, o: Obj)
    requires Consistent(e)
    requires o !in e.sceneObjects
    ensures RemoveObject(AddObject(e, o).env, o) == e
  {
    ConsistentTypedLists(e, o);
    RemoveFirstOfAppended(e.sceneObjects, o);
    if InJumpmen(o) {
      RemoveFirstOfAppended(e.jumpmen, o);
    }
    if InFood(o) {
      RemoveFirstOfAppended(e.food, o);
    }
    if IsEntity(o) {
      RemoveFirstOfAppended(e.entities, o);
    }
  }
}
