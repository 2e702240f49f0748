/**
 * The change-publication decision of `update_robot` (scripts/script5.py,
 * lines 58-91): create a record on first sight, overwrite it and publish an
 * update when the robot has moved or turned far enough, otherwise do nothing.
 *
 * The condition at lines 66-67 of the source closes its parentheses after the
 * distance test and comments out the colon, so the file does not parse as
 * written. The model follows the evident intent: an update is due when the
 * distance is at least the distance threshold OR the heading change is at
 * least the heading threshold.
 */
module Tracker {
  import opened Wrappers
  import opened Records
  import Rounding

  /** Minimum move, in world units, that is worth publishing. */
  const XYThreshold: int := 10
  /** Minimum turn, in degrees, that is worth publishing. */
  const HeadingThreshold: int := 2
  /** Per-axis scale applied to incoming world coordinates. */
  const XScale: real := 1.0
  const YScale: real := 1.0

  /** Coordinates are held in hundredths of a unit. */
  const HundredthsPerUnit: int := 100
  /** The distance threshold in hundredths, squared. */
  const XYThresholdSquared: int := (XYThreshold * HundredthsPerUnit) * (XYThreshold * HundredthsPerUnit)

  function Abs(n: int): nat {
    if n < 0 then -n else n
  }

  /** Squared Euclidean distance between two points, in hundredths squared. */
  function SquaredDistance(x0: int, y0: int, x1: int, y1: int): nat {
    (x1 - x0) * (x1 - x0) + (y1 - y0) * (y1 - y0)
  }

  /** The new pose differs from the stored one enough to be published. */
  predicate Significant(stored: Robot, x: int, y: int, heading: int): (b: bool)
    // the same pose again is never published
    ensures x == stored.x && y == stored.y && heading == stored.heading ==> !b
    // a turn of at least the heading threshold is published wherever the robot is
    ensures Abs(stored.heading - heading) >= HeadingThreshold ==> b
    // with the heading unchanged, a move along one axis is published exactly
    // when it is at least 10 units
    ensures heading == stored.heading && y == stored.y ==>
              (b <==> Abs(x - stored.x) >= XYThreshold * HundredthsPerUnit)
    ensures heading == stored.heading && x == stored.x ==>
              (b <==> Abs(y - stored.y) >= XYThreshold * HundredthsPerUnit)
  {
    AxisMoveReachesThreshold(stored, x, y);
    || SquaredDistance(stored.x, stored.y, x, y) >= XYThresholdSquared
    || Abs(stored.heading - heading) >= HeadingThreshold
  }

  /** A move along one axis reaches the distance threshold exactly when its length does. */
  lemma AxisMoveReachesThreshold(stored: Robot, x: int, y: int)
    ensures y == stored.y ==>
              (SquaredDistance(stored.x, stored.y, x, y) >= XYThresholdSquared
               <==> Abs(x - stored.x) >= XYThreshold * HundredthsPerUnit)
    ensures x == stored.x ==>
              (SquaredDistance(stored.x, stored.y, x, y) >= XYThresholdSquared
               <==> Abs(y - stored.y) >= XYThreshold * HundredthsPerUnit)
  {
    if y == stored.y {
      assert SquaredDistance(stored.x, stored.y, x, y) == Abs(x - stored.x) * Abs(x - stored.x);
      SquareReachesThreshold(Abs(x - stored.x));
    }
    if x == stored.x {
      assert SquaredDistance(stored.x, stored.y, x, y) == Abs(y - stored.y) * Abs(y - stored.y);
      SquareReachesThreshold(Abs(y - stored.y));
    }
  }

  /** Registry after an observation, and the message it causes, if any. */
  datatype Outcome = Outcome(registry: Registry, event: Option<Event>)

  /**
   * One observation of marker `id` at (`x`, `y`) hundredths with `heading`
   * degrees, after scaling and rounding.
   */
  function ObservePose(reg: Registry, id: int, x: int, y: int, heading: int): (r: Outcome)
    // the observed id is present afterwards and no id is ever removed
    ensures r.registry.Keys == reg.Keys + {id}
    // no other robot's record is touched
    ensures forall k :: k in reg && k != id ==> r.registry[k] == reg[k]
    // first sight: a new record and a create message carrying it, whatever the pose
    ensures id !in reg ==>
              && r.registry[id] == Robot(id, x, y, heading, Observed)
              && r.event == Some(Created(r.registry[id]))
    // later sight: a message exactly when the change is significant
    ensures id in reg ==> (r.event.Some? <==> Significant(reg[id], x, y, heading))
    ensures id in reg && r.event.Some? ==>
              && r.registry[id] == Robot(id, x, y, heading, Observed)
              && r.event == Some(Updated([r.registry[id]]))
    // a message is sent exactly when the stored state changes
    ensures r.event.None? <==> r.registry == reg
    ensures WellKeyed(reg) ==> WellKeyed(r.registry)
  {
    var rec := Robot(id, x, y, heading, Observed);
    if id !in reg then
      Outcome(reg[id := rec], Some(Created(rec)))
    else if Significant(reg[id], x, y, heading) then
      assert reg[id := rec][id] != reg[id];
      Outcome(reg[id := rec], Some(Updated([rec])))
    else
      Outcome(reg, None)
  }

  /** `update_robot` on unrounded world coordinates: scale, round to hundredths, decide. */
  function Observe(reg: Registry, id: int, x: real, y: real, heading: int): (r: Outcome)
    ensures r.registry.Keys == reg.Keys + {id}
    ensures forall k :: k in reg && k != id ==> r.registry[k] == reg[k]
    ensures id !in reg ==> r.event.Some? && r.event.value.Created?
    // a known id is updated exactly when the rounded pose differs significantly
    ensures id in reg ==>
              (r.event.Some? <==> Significant(reg[id], Rounding.RoundHundredths(x * XScale),
                                              Rounding.RoundHundredths(y * YScale), heading))
    // what is published is the rounded pose now stored, as a record or a one-element list
    ensures r.event.Some? ==>
              && r.registry[id] == Robot(id, Rounding.RoundHundredths(x * XScale),
                                         Rounding.RoundHundredths(y * YScale), heading, Observed)
              && r.event.value == (if id in reg then Updated([r.registry[id]]) else Created(r.registry[id]))
    ensures r.event.Some? ==>
              && Rounding.Gap(x * XScale * 100.0, r.registry[id].x as real) <= 0.5
              && Rounding.Gap(y * YScale * 100.0, r.registry[id].y as real) <= 0.5
    ensures r.event.None? <==> r.registry == reg
  {
    ObservePose(reg, id, Rounding.RoundHundredths(x * XScale), Rounding.RoundHundredths(y * YScale), heading)
  }

  /**
   * The squared comparison agrees with the source's test on the Euclidean
   * distance: for `dist`, the non-negative square root of the squared
   * distance in units, `dist >= 10 or |heading change| >= 2` holds exactly
   * when the observation is significant.
   */
  lemma SquaredTestMatchesEuclidean(stored: Robot, x: int, y: int, heading: int, dist: real)
    requires dist >= 0.0
    requires dist * dist == SquaredDistance(stored.x, stored.y, x, y) as real / 10000.0
    ensures Significant(stored, x, y, heading)
            <==> (dist >= XYThreshold as real || Abs(stored.heading - heading) >= HeadingThreshold)
  {
    var d2 := SquaredDistance(stored.x, stored.y, x, y);
    if dist >= 10.0 {
      assert dist * dist >= 10.0 * dist >= 100.0;
    } else {
      assert dist * dist <= 10.0 * dist < 100.0;
    }
    assert dist >= 10.0 <==> d2 as real >= 1000000.0;
  }

  /**
   * Repeating a sighting that was just published (by create or update) sends
   * nothing and changes nothing: distance 0 and heading change 0 are below
   * both thresholds.
   */
  lemma RepeatedSightingIsSilent(reg: Registry, id: int, x: real, y: real, heading: int)
    requires Observe(reg, id, x, y, heading).event.Some?
    ensures var reg' := Observe(reg, id, x, y, heading).registry;
            Observe(reg', id, x, y, heading) == Outcome(reg', None)
  {
    var px := Rounding.RoundHundredths(x * XScale);
    var py := Rounding.RoundHundredths(y * YScale);
    var reg' := Observe(reg, id, x, y, heading).registry;
    assert reg'[id] == Robot(id, px, py, heading, Observed);
    assert !Significant(reg'[id], px, py, heading);
  }

  /**
   * A pure move along one axis, with the heading unchanged, is published
   * exactly when it covers at least the distance threshold (1000 hundredths).
   */
  lemma MoveAlongXUpdatesIffFarEnough(reg: Registry, id: int, dx: int)
    requires id in reg
    ensures ObservePose(reg, id, reg[id].x + dx, reg[id].y, reg[id].heading).event.Some?
            <==> Abs(dx) >= XYThreshold * HundredthsPerUnit
  {
    var s := reg[id];
    assert SquaredDistance(s.x, s.y, s.x + dx, s.y) == Abs(dx) * Abs(dx);
    SquareReachesThreshold(Abs(dx));
  }

  lemma MultiplyMonotone(a: nat, b: nat, c: nat)
    requires a <= b
    ensures a * c <= b * c
  {
  }

  /** On non-negative lengths, comparing squares is comparing lengths. */
  lemma SquareReachesThreshold(a: nat)
    ensures a * a >= XYThresholdSquared <==> a >= XYThreshold * HundredthsPerUnit
  {
    assert XYThresholdSquared == 1000 * 1000;
    if a >= 1000 {
      MultiplyMonotone(1000, a, a);
      MultiplyMonotone(1000, a, 1000);
    } else {
      MultiplyMonotone(a, 999, a);
      MultiplyMonotone(a, 999, 999);
    }
  }

  /**
   * A pure turn, with the position unchanged, is published exactly when it
   * covers at least the heading threshold.
   */
  lemma TurnUpdatesIffFarEnough(reg: Registry, id: int, dh: int)
    requires id in reg
    ensures ObservePose(reg, id, reg[id].x, reg[id].y, reg[id].heading + dh).event.Some?
            <==> Abs(dh) >= HeadingThreshold
  {
  }

  /**
   * The example run: first sight at (100.004, -50.0) heading 10 creates the
   * record, the same sighting again is silent, and a sighting at (115.0, -50.0)
   * (15.00 units from the stored, already rounded, x of 100.00) is published with the new x stored.
   */
  lemma ExampleRun()
    ensures var r1 := Observe(map[], 5, 100.004, -50.0, 10);
            var r2 := Observe(r1.registry, 5, 100.004, -50.0, 10);
            var r3 := Observe(r2.registry, 5, 115.0, -50.0, 10);
            && r1.event == Some(Created(Robot(5, 10000, -5000, 10, Observed)))
            && r2.event == None
            && r3.event == Some(Updated([Robot(5, 11500, -5000, 10, Observed)]))
            && r3.registry == map[5 := Robot(5, 11500, -5000, 10, Observed)]
  {
    assert Rounding.RoundHundredths(100.004 * XScale) == 10000;
    assert Rounding.RoundHundredths(-50.0 * YScale) == -5000;
    assert Rounding.RoundHundredths(115.0 * XScale) == 11500;
  }
}
