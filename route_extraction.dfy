/**
 * The points a route is approximated by: every point of every step's path,
 * leg by leg and step by step, or, when the route carries no path points at
 * all, the start and end of each leg.
 */
module RouteExtraction {
  import opened Wrappers
  import opened Geometry

  /** One step of a leg; the directions service may leave its path out. */
  datatype Step = Step(path: Option<seq<Coord>>)

  datatype Leg = Leg(start: Coord, end: Coord, steps: seq<Step>)

  /** A directions route; the service may leave the legs out. */
  datatype Route = Route(legs: Option<seq<Leg>>)

  /** The points a step contributes: its path, or nothing when it has none. */
  function StepPoints(step: Step): seq<Coord>
  {
    if step.path.Some? then step.path.value else []
  }

  /** The path points of a run of steps, in order. */
  function StepsPathPoints(steps: seq<Step>): seq<Coord>
  {
    if |steps| == 0 then [] else StepsPathPoints(steps[..|steps| - 1]) + StepPoints(steps[|steps| - 1])
  }

  /** The path points of a run of legs, in order. */
  function PathPoints(legs: seq<Leg>): seq<Coord>
  {
    if |legs| == 0 then [] else PathPoints(legs[..|legs| - 1]) + StepsPathPoints(legs[|legs| - 1].steps)
  }

  /** The fallback points: each leg's start followed by its end. */
  function EndpointPoints(legs: seq<Leg>): (r: seq<Coord>)
    ensures |r| == 2 * |legs|
    ensures forall k :: 0 <= k < |legs| ==> r[2 * k] == legs[k].start && r[2 * k + 1] == legs[k].end
  {
    if |legs| == 0 then [] else EndpointPoints(legs[..|legs| - 1]) + [legs[|legs| - 1].start, legs[|legs| - 1].end]
  }

  /** The points the corridor is measured against. */
  function RoutePoints(legs: seq<Leg>): seq<Coord>
  {
    var path := PathPoints(legs);
    if path == [] then EndpointPoints(legs) else path
  }

  /** Collects the route points the way the service does, one point at a time. */
  method ExtractRoutePoints(legs: seq<Leg>) returns (routePoints: seq<Coord>)
    ensures routePoints == RoutePoints(legs)
  {
    routePoints := [];
    var i := 0;
    while i < |legs|
      invariant 0 <= i <= |legs|
      invariant routePoints == PathPoints(legs[..i])
    {
      var steps := legs[i].steps;
      var j := 0;
      while j < |steps|
        invariant 0 <= j <= |steps|
        invariant routePoints == PathPoints(legs[..i]) + StepsPathPoints(steps[..j])
      {
        if steps[j].path.Some? {
          var path := steps[j].path.value;
          var k := 0;
          while k < |path|
            invariant 0 <= k <= |path|
            invariant routePoints == PathPoints(legs[..i]) + StepsPathPoints(steps[..j]) + path[..k]
          {
            assert path[..k + 1] == path[..k] + [path[k]];
            routePoints := routePoints + [path[k]];
            k := k + 1;
          }
          assert path[..k] == path;
        }
        assert steps[..j + 1][..j] == steps[..j];
        j := j + 1;
      }
      assert steps[..j] == steps;
      assert legs[..i + 1][..i] == legs[..i];
      i := i + 1;
    }
    assert legs[..i] == legs;
    if |routePoints| == 0 {
      i := 0;
      while i < |legs|
        invariant 0 <= i <= |legs|
        invariant routePoints == EndpointPoints(legs[..i])
      {
        assert legs[..i + 1][..i] == legs[..i];
        routePoints := routePoints + [legs[i].start, legs[i].end];
        i := i + 1;
      }
      assert legs[..i] == legs;
    }
  }

  lemma {:induction false} StepsPathPointsAppend(a: seq<Step>, b: seq<Step>)
    ensures StepsPathPoints(a + b) == StepsPathPoints(a) + StepsPathPoints(b)
    decreases |b|
  {
    if |b| == 0 {
      assert a + b == a;
    } else {
      var b' := b[..|b| - 1];
      assert (a + b)[..|a + b| - 1] == a + b';
      StepsPathPointsAppend(a, b');
    }
  }

  /** Leg after leg: the path points of two runs of legs are those of the first run followed by those of the second. */
  lemma {:induction false} PathPointsAppend(a: seq<Leg>, b: seq<Leg>)
    ensures PathPoints(a + b) == PathPoints(a) + PathPoints(b)
    decreases |b|
  {
    if |b| == 0 {
      assert a + b == a;
    } else {
      var b' := b[..|b| - 1];
      assert (a + b)[..|a + b| - 1] == a + b';
      PathPointsAppend(a, b');
    }
  }

  /** A step without a path contributes nothing, wherever it stands. */
  lemma PathlessStepContributesNothing(before: seq<Step>, after: seq<Step>)
    ensures StepsPathPoints(before + [Step(None)] + after) == StepsPathPoints(before + after)
  {
    StepsPathPointsAppend(before + [Step(None)], after);
    StepsPathPointsAppend(before, [Step(None)]);
    StepsPathPointsAppend(before, after);
    assert [Step(None)][..0] == [];
  }

  lemma {:induction false} StepsPathPointsMembership(steps: seq<Step>, x: Coord)
    ensures x in StepsPathPoints(steps) <==>
              exists j :: 0 <= j < |steps| && steps[j].path.Some? && x in steps[j].path.value
    decreases |steps|
  {
    if |steps| > 0 {
      var s' := steps[..|steps| - 1];
      StepsPathPointsMembership(s', x);
      assert forall j :: 0 <= j < |s'| ==> s'[j] == steps[j];
    }
  }

  /** A point is a path point exactly when some step of some leg has it on its path. */
  lemma {:induction false} PathPointsMembership(legs: seq<Leg>, x: Coord)
    ensures x in PathPoints(legs) <==>
              exists i, j :: 0 <= i < |legs| && 0 <= j < |legs[i].steps| &&
                             legs[i].steps[j].path.Some? && x in legs[i].steps[j].path.value
    decreases |legs|
  {
    if |legs| > 0 {
      var l' := legs[..|legs| - 1];
      var last := legs[|legs| - 1];
      PathPointsMembership(l', x);
      StepsPathPointsMembership(last.steps, x);
      assert forall i :: 0 <= i < |l'| ==> l'[i] == legs[i];
      if x in PathPoints(legs) && x !in PathPoints(l') {
        var j :| 0 <= j < |last.steps| && last.steps[j].path.Some? && x in last.steps[j].path.value;
        assert legs[|legs| - 1].steps[j] == last.steps[j];
      }
    }
  }

  /**
   * A point is a route point exactly when it lies on some step's path, or when
   * no step has a path point at all and it is the start or end of some leg.
   */
  lemma RoutePointsMembership(legs: seq<Leg>, x: Coord)
    ensures x in RoutePoints(legs) <==>
              (exists i, j :: 0 <= i < |legs| && 0 <= j < |legs[i].steps| &&
                              legs[i].steps[j].path.Some? && x in legs[i].steps[j].path.value) ||
              (PathPoints(legs) == [] && exists i :: 0 <= i < |legs| && (x == legs[i].start || x == legs[i].end))
  {
    PathPointsMembership(legs, x);
    if PathPoints(legs) == [] {
      var e := EndpointPoints(legs);
      if x in e {
        var n :| 0 <= n < |e| && e[n] == x;
        assert x == legs[n / 2].start || x == legs[n / 2].end by {
          if n % 2 == 0 { assert e[2 * (n / 2)] == legs[n / 2].start; }
          else { assert e[2 * (n / 2) + 1] == legs[n / 2].end; }
        }
      }
      if exists i :: 0 <= i < |legs| && (x == legs[i].start || x == legs[i].end) {
        var i :| 0 <= i < |legs| && (x == legs[i].start || x == legs[i].end);
        assert e[2 * i] == legs[i].start && e[2 * i + 1] == legs[i].end;
      }
    }
  }

  /**
   * The fallback is used exactly when no step has a path point; it then gives
   * two points per leg, so a route with at least one leg always has at least
   * one segment to measure against.
   */
  lemma FallbackPoints(legs: seq<Leg>)
    ensures PathPoints(legs) != [] ==> RoutePoints(legs) == PathPoints(legs)
    ensures PathPoints(legs) == [] <==>
              forall i, j :: 0 <= i < |legs| && 0 <= j < |legs[i].steps| && legs[i].steps[j].path.Some? ==>
                             legs[i].steps[j].path.value == []
    ensures PathPoints(legs) == [] ==> |RoutePoints(legs)| == 2 * |legs|
    ensures PathPoints(legs) == [] && |legs| > 0 ==> |RoutePoints(legs)| >= 2
  {
    var p := PathPoints(legs);
    if p != [] {
      PathPointsMembership(legs, p[0]);
    } else {
      forall i, j | 0 <= i < |legs| && 0 <= j < |legs[i].steps| && legs[i].steps[j].path.Some?
        ensures legs[i].steps[j].path.value == []
      {
        var path := legs[i].steps[j].path.value;
        if path != [] {
          PathPointsMembership(legs, path[0]);
        }
      }
    }
  }
}
