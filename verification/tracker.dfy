/** The statistics tracker (src/EnvironmentTracker.cs): timelines of the
    jumpman count and of the nutrition in an environment, extended by one
    timed entry for every jumpman or food the environment adds or removes.
    The environment's SceneObjectAdded/SceneObjectRemoved events are not part
    of this model; the tracker is driven by an explicit sequence of events.
    The count is a C# `int`, so its unchecked increments and decrements wrap. */
module Trackers {
  import opened Numerics
  import opened Entities
  import opened Phenotype

  /** TimedEntry<T>: a value with the simulation time it was recorded at. */
  datatype TimedEntry<T> = TimedEntry(time: real, entry: T)

  datatype Tracker = Tracker(
    nutritionTimeline: seq<TimedEntry<real>>,
    jumpmanCountTimeline: seq<TimedEntry<int32>>,
    jumpmanAttrTimeline: seq<TimedEntry<Attributes>>,
    jumpmanAttributes: seq<Attributes>)

  /** What the environment reports: an object added or removed at a time. */
  datatype Event = Added(obj: Obj, time: real) | Removed(obj: Obj, time: real)

  /** The handlers read the last entry of both timelines; the constructor
      seeds them and the handlers only append, so they are never empty. */
  predicate Valid(t: Tracker) {
    |t.nutritionTimeline| > 0 && |t.jumpmanCountTimeline| > 0
  }

  function LastCount(t: Tracker): int32
    requires Valid(t)
  {
    t.jumpmanCountTimeline[|t.jumpmanCountTimeline| - 1].entry
  }

  function LastNutrition(t: Tracker): real
    requires Valid(t)
  {
    t.nutritionTimeline[|t.nutritionTimeline| - 1].entry
  }

  /** The constructor: both timelines start at zero at time zero; the
      attribute lists start empty. */
  function New(): (t: Tracker)
    ensures Valid(t)
    ensures LastCount(t) == 0 && LastNutrition(t) == 0.0
    ensures |t.jumpmanCountTimeline| == |t.nutritionTimeline| == 1
    ensures t.jumpmanCountTimeline[0].time == t.nutritionTimeline[0].time == 0.0
    ensures t.jumpmanAttrTimeline == [] && t.jumpmanAttributes == []
  {
    Tracker([TimedEntry(0.0, 0.0)], [TimedEntry(0.0, 0)], [], [])
  }

  /** How much an event moves the jumpman count: +1 or -1 for a jumpman. */
  function CountChange(ev: Event): int {
    if !ev.obj.JumpmanObj? then 0 else if ev.Added? then 1 else -1
  }

  /** How much an event moves the nutrition: plus or minus the food's. */
  function NutritionChange(ev: Event): real {
    if !ev.obj.FoodObj? then 0.0
    else if ev.Added? then ev.obj.food.nutrition
    else -ev.obj.food.nutrition
  }

  /** `s` followed by exactly one more element, `x`. */
  predicate ExtendedBy<T(==)>(s: seq<T>, r: seq<T>, x: T) {
    |r| == |s| + 1 && r[..|s|] == s && r[|s|] == x
  }

  /** c_SceneObjectAdded and c_SceneObjectRemoved: a jumpman appends the
      count one up or down; otherwise food appends the nutrition moved by its
      own; any other object leaves the tracker as it is. */
  function Handle(t: Tracker, ev: Event): (r: Tracker)
    requires Valid(t)
    ensures Valid(r)
    ensures ev.obj.JumpmanObj? ==>
              && ExtendedBy(t.jumpmanCountTimeline, r.jumpmanCountTimeline,
                            TimedEntry(ev.time, Wrap32(LastCount(t) + CountChange(ev))))
              && r.nutritionTimeline == t.nutritionTimeline
    ensures ev.obj.FoodObj? ==>
              && ExtendedBy(t.nutritionTimeline, r.nutritionTimeline,
                            TimedEntry(ev.time, LastNutrition(t) + NutritionChange(ev)))
              && r.jumpmanCountTimeline == t.jumpmanCountTimeline
    ensures !ev.obj.JumpmanObj? && !ev.obj.FoodObj? ==> r == t
    ensures r.jumpmanAttrTimeline == t.jumpmanAttrTimeline
    ensures r.jumpmanAttributes == t.jumpmanAttributes
  {
    match ev
    case Added(o, time) =>
      if o.JumpmanObj? then
        t.(jumpmanCountTimeline := t.jumpmanCountTimeline + [TimedEntry(time, Wrap32(LastCount(t) + 1))])
      else if o.FoodObj? then
        t.(nutritionTimeline := t.nutritionTimeline + [TimedEntry(time, LastNutrition(t) + o.food.nutrition)])
      else t
    case Removed(o, time) =>
      if o.JumpmanObj? then
        t.(jumpmanCountTimeline := t.jumpmanCountTimeline + [TimedEntry(time, Wrap32(LastCount(t) - 1))])
      else if o.FoodObj? then
        t.(nutritionTimeline := t.nutritionTimeline + [TimedEntry(time, LastNutrition(t) - o.food.nutrition)])
      else t
  }

  /** The tracker after the environment reports `events` in order. */
  function Replay(t: Tracker, events: seq<Event>): (r: Tracker)
    requires Valid(t)
    ensures Valid(r)
    decreases |events|
  {
    if |events| == 0 then t else Replay(Handle(t, events[0]), events[1..])
  }

  /** Net jumpmen added by a sequence of events. */
  function NetJumpmen(events: seq<Event>): int {
    if |events| == 0 then 0 else CountChange(events[0]) + NetJumpmen(events[1..])
  }

  /** Net nutrition added by a sequence of events. */
  function NetNutrition(events: seq<Event>): real {
    if |events| == 0 then 0.0 else NutritionChange(events[0]) + NetNutrition(events[1..])
  }

  /** The number of events satisfying `kind`. */
  function CountOf(events: seq<Event>, kind: Event -> bool): nat {
    if |events| == 0 then 0
    else (if kind(events[0]) then 1 else 0) + CountOf(events[1..], kind)
  }

  predicate AboutJumpman(ev: Event) {
    ev.obj.JumpmanObj?
  }

  predicate AboutFood(ev: Event) {
    ev.obj.FoodObj?
  }

  predicate JumpmanAdded(ev: Event) {
    ev.Added? && ev.obj.JumpmanObj?
  }

  predicate JumpmanRemoved(ev: Event) {
    ev.Removed? && ev.obj.JumpmanObj?
  }

  /** The net change in jumpmen is the additions minus the removals. */
  lemma {:induction false} NetJumpmenCounts(events: seq<Event>)
    ensures NetJumpmen(events) == CountOf(events, JumpmanAdded) - CountOf(events, JumpmanRemoved)
    decreases |events|
  {
    if |events| > 0 {
      NetJumpmenCounts(events[1..]);
    }
  }

  /** The last count entry is the starting count plus the jumpmen added
      minus the jumpmen removed, wrapped to 32 bits once at the end; likewise
      the last nutrition entry with the food's nutrition. */
  lemma {:induction false} ReplayTotals(t: Tracker, events: seq<Event>)
    requires Valid(t)
    ensures LastCount(Replay(t, events)) == Wrap32(LastCount(t) + NetJumpmen(events))
    ensures LastNutrition(Replay(t, events)) == LastNutrition(t) + NetNutrition(events)
    decreases |events|
  {
    if |events| > 0 {
      ReplayTotals(Handle(t, events[0]), events[1..]);
      WrapThenAdd(LastCount(t) + CountChange(events[0]), NetJumpmen(events[1..]));
    }
  }

  /** Replay only appends: the old timelines are prefixes of the new, which
      grow by one entry per jumpman event and per food event respectively,
      and the attribute lists are untouched. */
  lemma {:induction false} ReplayAppends(t: Tracker, events: seq<Event>)
    requires Valid(t)
    ensures var r := Replay(t, events);
            && |r.jumpmanCountTimeline| == |t.jumpmanCountTimeline| + CountOf(events, AboutJumpman)
            && r.jumpmanCountTimeline[..|t.jumpmanCountTimeline|] == t.jumpmanCountTimeline
            && |r.nutritionTimeline| == |t.nutritionTimeline| + CountOf(events, AboutFood)
            && r.nutritionTimeline[..|t.nutritionTimeline|] == t.nutritionTimeline
            && r.jumpmanAttrTimeline == t.jumpmanAttrTimeline
            && r.jumpmanAttributes == t.jumpmanAttributes
    decreases |events|
  {
    if |events| > 0 {
      var h := Handle(t, events[0]);
      ReplayAppends(h, events[1..]);
      var r := Replay(t, events);
      assert r == Replay(h, events[1..]);
      assert r.jumpmanCountTimeline[..|t.jumpmanCountTimeline|]
          == r.jumpmanCountTimeline[..|h.jumpmanCountTimeline|][..|t.jumpmanCountTimeline|];
      assert r.nutritionTimeline[..|t.nutritionTimeline|]
          == r.nutritionTimeline[..|h.nutritionTimeline|][..|t.nutritionTimeline|];
    }
  }

  /** Adding an object and then removing it leaves the last count and the
      last nutrition where they were, even when the count wraps in between. */
  lemma AddThenRemoveCancels(t: Tracker, o: Obj, added: real, removed: real)
    requires Valid(t)
    ensures var r := Replay(t, [Added(o, added), Removed(o, removed)]);
            LastCount(r) == LastCount(t) && LastNutrition(r) == LastNutrition(t)
  {
    var events := [Added(o, added), Removed(o, removed)];
    ReplayTotals(t, events);
    assert events[1..] == [Removed(o, removed)];
    assert events[1..][1..] == [];
    assert NetJumpmen(events[1..]) == CountChange(events[1]) + NetJumpmen([]);
    assert NetNutrition(events[1..]) == NutritionChange(events[1]) + NetNutrition([]);
    assert NetJumpmen(events) == CountChange(events[0]) + CountChange(events[1]);
    assert NetNutrition(events) == NutritionChange(events[0]) + NutritionChange(events[1]);
  }

  /** From a fresh tracker, the last count is the number of jumpmen added
      minus the number removed (as an int32), and the last nutrition the net
      nutrition. */
  lemma FreshCount(events: seq<Event>)
    ensures LastCount(Replay(New(), events))
         == Wrap32(CountOf(events, JumpmanAdded) - CountOf(events, JumpmanRemoved))
    ensures LastNutrition(Replay(New(), events)) == NetNutrition(events)
  {
    ReplayTotals(New(), events);
    NetJumpmenCounts(events);
  }

  /** The count is an unchecked C# `int`: one more jumpman on a count of
      int.MaxValue records int.MinValue. */
  lemma CountWrapsAtMax(t: Tracker, j: nat, time: real)
    requires Valid(t) && LastCount(t) == 0x7FFF_FFFF
    ensures LastCount(Handle(t, Added(JumpmanObj(j), time))) == -0x8000_0000
  {
  }
}
