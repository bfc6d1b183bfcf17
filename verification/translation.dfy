/**
 * The linear-translation movable of the robot simulation: an entity whose
 * pose moves along x at a constant speed, once, from where it was placed to
 * `x + distance`, and then asks the simulation to drop it. Although the
 * class is described as moving "back and forth", it never reverses.
 *
 * Poses are `(x, y)` pairs of reals (the heading is never touched); step
 * intervals are whole milliseconds.
 */
module Simulation {

  /** The entity's fields, as a value. */
  datatype Translation = Translation(
    x: real,
    y: real,
    speed: real,
    distance: real,
    limit: real,
    movePositive: bool,
    remove: bool)

  /** A step interval in seconds. */
  function Seconds(ms: int): real
  {
    ms as real / 1000.0
  }

  /** The signed speed along x. */
  function Velocity(t: Translation): real
  {
    if t.movePositive then t.speed else -t.speed
  }

  /** x lies strictly beyond the limit in the direction of travel. */
  predicate PastLimit(t: Translation)
  {
    (t.movePositive && t.x > t.limit) || (!t.movePositive && t.x < t.limit)
  }

  /** `setPose`: restart the motion program from `(px, py)`. */
  function Placed(t: Translation, px: real, py: real): (r: Translation)
    ensures r.x == px && r.y == py
    // the limit lies `distance` away, and the direction is that of `distance`
    ensures r.limit - r.x == t.distance
    ensures r.movePositive <==> t.distance > 0.0
    // earlier progress is forgotten: the new program has not reached its limit
    ensures !PastLimit(r)
    // the removal flag is never reset, and speed and distance are kept
    ensures r.remove == t.remove && r.speed == t.speed && r.distance == t.distance
  {
    var limit := px + t.distance;
    t.(x := px, y := py, limit := limit, movePositive := limit > px)
  }

  /** `step`: move by the signed speed times the interval and flag removal past the limit. */
  function Stepped(t: Translation, ms: int): (r: Translation)
    // only x moves, by the signed speed times the interval in seconds
    ensures r.x - t.x == Velocity(t) * Seconds(ms)
    ensures r.y == t.y && r.limit == t.limit && r.movePositive == t.movePositive
    ensures r.speed == t.speed && r.distance == t.distance
    // the removal flag is one-way and is raised exactly when the new x is past the limit
    ensures r.remove <==> t.remove || PastLimit(r)
    // with a non-negative speed and interval the motion follows the direction flag
    ensures 0.0 <= t.speed && 0 <= ms ==> if t.movePositive then t.x <= r.x else r.x <= t.x
  {
    var moveAmount := if t.movePositive then t.speed * Seconds(ms) else -t.speed * Seconds(ms);
    var moved := t.(x := t.x + moveAmount);
    moved.(remove := t.remove || PastLimit(moved))
  }

  /** Successive ticks of the simulation. */
  function Advance(t: Translation, intervals: seq<int>): Translation
    decreases |intervals|
  {
    if intervals == [] then t else Advance(Stepped(t, intervals[0]), intervals[1..])
  }

  function TotalMillis(intervals: seq<int>): int
    decreases |intervals|
  {
    if intervals == [] then 0 else intervals[0] + TotalMillis(intervals[1..])
  }

  predicate NonNegative(intervals: seq<int>)
  {
    forall i :: 0 <= i < |intervals| ==> 0 <= intervals[i]
  }

  /** Once removal is asked for, no later step withdraws it. */
  lemma {:induction false} RemoveIsSticky(t: Translation, intervals: seq<int>)
    requires t.remove
    ensures Advance(t, intervals).remove
    decreases |intervals|
  {
    if intervals != [] {
      RemoveIsSticky(Stepped(t, intervals[0]), intervals[1..]);
    }
  }

  /** Steps leave y, the limit and the direction alone. */
  lemma {:induction false} AdvanceKeepsFrame(t: Translation, intervals: seq<int>)
    ensures Advance(t, intervals).y == t.y
    ensures Advance(t, intervals).limit == t.limit && Advance(t, intervals).movePositive == t.movePositive
    ensures Advance(t, intervals).speed == t.speed
    decreases |intervals|
  {
    if intervals != [] {
      AdvanceKeepsFrame(Stepped(t, intervals[0]), intervals[1..]);
    }
  }

  /** Steps move x by the signed speed times the total time. */
  lemma {:induction false} Displacement(t: Translation, intervals: seq<int>)
    ensures Advance(t, intervals).x == t.x + Velocity(t) * Seconds(TotalMillis(intervals))
    decreases |intervals|
  {
    if intervals != [] {
      var t' := Stepped(t, intervals[0]);
      var rest := intervals[1..];
      Displacement(t', rest);
      var v, a, b := Velocity(t), Seconds(intervals[0]), Seconds(TotalMillis(rest));
      assert t'.x == t.x + v * a && Velocity(t') == v;
      assert Seconds(TotalMillis(intervals)) == a + b;
      Distributes(v, a, b);
    }
  }

  /** Kept apart so that the product stays out of the inductive step's context. */
  lemma Distributes(v: real, a: real, b: real)
    ensures v * (a + b) == v * a + v * b
  {
  }

  lemma {:induction false} TotalOfNonNegative(intervals: seq<int>)
    requires NonNegative(intervals)
    ensures 0 <= TotalMillis(intervals)
    decreases |intervals|
  {
    if intervals != [] {
      TotalOfNonNegative(intervals[1..]);
    }
  }

  /** With a non-negative speed, x never moves against the direction of travel. */
  lemma MonotoneX(t: Translation, intervals: seq<int>)
    requires 0.0 <= t.speed && NonNegative(intervals)
    ensures t.movePositive ==> t.x <= Advance(t, intervals).x
    ensures !t.movePositive ==> Advance(t, intervals).x <= t.x
  {
    Displacement(t, intervals);
    TotalOfNonNegative(intervals);
    assert 0.0 <= Seconds(TotalMillis(intervals));
  }

  /**
   * With a non-negative speed, the removal flag tracks being past the limit:
   * if it did before the steps, it does after them; in particular it is never
   * raised before x crosses the limit, and always once it has.
   */
  lemma {:induction false} RemovedExactlyPastLimit(t: Translation, intervals: seq<int>)
    requires 0.0 <= t.speed && NonNegative(intervals)
    requires t.remove <==> PastLimit(t)
    ensures Advance(t, intervals).remove <==> PastLimit(Advance(t, intervals))
    decreases |intervals|
  {
    if intervals != [] {
      RemovedExactlyPastLimit(Stepped(t, intervals[0]), intervals[1..]);
    }
  }

  /** x = 0, distance 1.0, speed 0.5: two one-second ticks reach the limit, the third passes it. */
  lemma OnePassThenRemoved()
    ensures var t := Placed(Translation(0.0, 0.0, 0.5, 1.0, 0.0, true, false), 0.0, 0.0);
      && t.movePositive && t.limit == 1.0
      && Advance(t, [1000, 1000]).x == 1.0 && !Advance(t, [1000, 1000]).remove
      && Advance(t, [1000, 1000, 1000]).x == 1.5 && Advance(t, [1000, 1000, 1000]).remove
  {
    var t := Placed(Translation(0.0, 0.0, 0.5, 1.0, 0.0, true, false), 0.0, 0.0);
    var t1 := Stepped(t, 1000);
    var t2 := Stepped(t1, 1000);
    var t3 := Stepped(t2, 1000);
    assert t1.x == 0.5 && t2.x == 1.0 && t3.x == 1.5;
    assert [1000, 1000][1..] == [1000];
    assert [1000, 1000, 1000][1..] == [1000, 1000];
    assert Advance(t, [1000, 1000]) == t2;
    assert Advance(t, [1000, 1000, 1000]) == t3;
  }

  /** The movable itself, whose `setPose` and `step` overwrite its fields. */
  class LinearTranslation {
    var x: real
    var y: real
    const speed: real
    const distance: real
    var limit: real
    var movePositive: bool
    var remove: bool

    function State(): Translation
      reads this
    {
      Translation(x, y, speed, distance, limit, movePositive, remove)
    }

    /** The field initialisers, then `setPose` on the initial pose. */
    constructor (px: real, py: real, s: real, d: real)
      ensures State() == Placed(Translation(px, py, s, d, 0.0, true, false), px, py)
      ensures !remove && remove == PastLimit(State())
    {
      x, y, speed, distance := px, py, s, d;
      limit, movePositive, remove := 0.0, true, false;
      new;
      SetPose(px, py);
    }

    method SetPose(px: real, py: real)
      modifies this
      ensures State() == Placed(old(State()), px, py)
    {
      x, y := px, py;
      limit := x + distance;
      movePositive := limit > x;
    }

    method Step(intervalMillis: int)
      modifies this
      ensures State() == Stepped(old(State()), intervalMillis)
    {
      var durationSecs := intervalMillis as real / 1000.0;
      var moveAmount := if movePositive then speed * durationSecs else -speed * durationSecs;
      x := x + moveAmount;
      if (movePositive && x > limit) || (!movePositive && x < limit) {
        remove := true;
      }
    }
  }

  /** The worked example driven through the class: removed on the third one-second tick. */
  method OnePassClient()
  {
    var entity := new LinearTranslation(0.0, 0.0, 0.5, 1.0);
    entity.Step(1000);
    entity.Step(1000);
    assert entity.x == 1.0 && !entity.remove;
    entity.Step(1000);
    assert entity.x == 1.5 && entity.remove;
    entity.SetPose(0.0, 2.0);
    assert entity.limit == 1.0 && entity.remove;
  }
}
