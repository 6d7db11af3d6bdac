/** The autopilot's fields, the operations on its route, and its thread. */
module AutopilotState {
  import opened Geometry
  import opened Wrappers
  import opened Times
  import opened Route
  import opened RouteTimes
  import opened RouteSteps

  const ORIGIN := Point(0.0, 0.0)

  class Autopilot {
    const route: array<RoutePoint>
    const repeat: bool          // the configuration's repeat flag
    const timeAdd: int          // and the time it adds for a lap
    var isActive: bool
    var isRouteStarted: bool
    var pointNow: Index
    var pointLast: Index
    var hasPrevPoint: bool
    var pointRxPrev: RoutePoint
    var pointRxPrevSet: bool
    var lookAhead: nat
    var rpNow: Point            // the point followed
    var radNow: real
    var routeLeft: int
    var routeEnd: bool
    var startTime: int
    var syncRx: bool

    ghost predicate Ready()
      reads this
    {
      route.Length == AP_ROUTE_SIZE && lookAhead >= 1 && (isRouteStarted || pointNow == 0)
    }

    /** Between two operations the route has never just ended. */
    ghost predicate Valid()
      reads this
    {
      Ready() && !routeEnd
    }

    ghost function Abs(): Ring
      requires Ready()
      reads this, route
    {
      Ring(route[..], pointNow, pointLast, hasPrevPoint, if pointRxPrevSet then Some(pointRxPrev) else None)
    }

    ghost function State(): Pilot
      requires Ready()
      reads this, route
    {
      Pilot(Abs(), isActive, isRouteStarted)
    }

    constructor (repeat: bool, timeAdd: int, lookAhead: nat)
      requires lookAhead >= 1
      ensures Valid() && Pending(Abs()) == [] && State() == Pilot(Ring(route[..], 0, 0, false, None), false, false) && fresh(route)
      ensures this.repeat == repeat && this.timeAdd == timeAdd && this.lookAhead == lookAhead
      ensures rpNow == Point(0.0, 0.0) && radNow == -1.0 && startTime == 0 && !syncRx && routeLeft == 0
    {
      var zero := NOWHERE;
      route := new RoutePoint[AP_ROUTE_SIZE](_ => zero);
      this.repeat, this.timeAdd, this.lookAhead := repeat, timeAdd, lookAhead;
      isActive, isRouteStarted, pointNow, pointLast, hasPrevPoint := false, false, 0, 0, false;
      pointRxPrev, pointRxPrevSet, rpNow, radNow, startTime, syncRx := zero, false, ORIGIN, -1.0, 0, false;
      routeLeft, routeEnd := 0, false;
    }

    method AddPoint(p: RoutePoint, first: bool) returns (ok: bool)
      requires Valid()
      modifies route, this`pointLast, this`hasPrevPoint, this`pointRxPrev, this`pointRxPrevSet
      ensures Valid() && (Abs(), ok) == Add(old(Abs()), repeat, p, first)
      ensures ok == (!first || !old(pointRxPrevSet) || Dist2(old(pointRxPrev).pos, p.pos) >= 0.00000001)
    {
      if first && pointRxPrevSet && Dist2(pointRxPrev.pos, p.pos) < 0.00000001 {
        return false;
      }
      if first {
        pointRxPrev, pointRxPrevSet := p, true;
      }
      route[pointLast] := p;
      pointLast := if pointLast + 1 >= AP_ROUTE_SIZE then 0 else pointLast + 1;
      if !hasPrevPoint {
        var pLast := pointNow - 1;
        if pLast < 0 {
          pLast := pLast + AP_ROUTE_SIZE;
        }
        route[pLast] := p;
        hasPrevPoint := true;
      }
      if repeat {
        route[AP_ROUTE_SIZE - 1] := p;
      }
      ok := true;
      assert route[..] == Stored(old(Abs()), repeat, p);
    }

    method RemoveLastPoint()
      requires Valid()
      modifies this`pointLast
      ensures Valid() && Abs() == Pop(old(Abs()))
    {
      if pointLast != pointNow {
        pointLast := if pointLast - 1 < 0 then AP_ROUTE_SIZE - 1 else pointLast - 1;
      }
    }

    /** clear_route, at a time of day. */
    method ClearRoute(msToday: int)
      requires Valid()
      modifies this
      ensures Valid() && Abs() == Clear(old(Abs())) && !isActive
      ensures startTime == msToday && !syncRx && rpNow == Point(0.0, 0.0) && pointRxPrev == RoutePoint(Point(0.0, 0.0), 0.0, 0, 0)
      ensures lookAhead == old(lookAhead) && isRouteStarted == old(isRouteStarted)
    {
      isActive, hasPrevPoint, pointNow, pointLast, pointRxPrevSet := false, false, 0, 0, false;
      startTime, syncRx, rpNow, pointRxPrev := msToday, false, ORIGIN, NOWHERE;
    }

    /** autopilot_replace_route. */
    method ReplaceRoute(p: RoutePoint, msToday: int) returns (ret: bool)
      requires Valid()
      modifies this, route
      ensures Valid() && lookAhead == old(lookAhead) && isActive == old(isActive)
      ensures if old(isActive) then (Abs(), ret) == Replace(old(Abs()), repeat, p)
              else Abs() == Add(Clear(old(Abs())), repeat, p, true).0 && ret
    {
      ret := false;
      if !isActive {
        ClearRoute(msToday);
        var _ := AddPoint(p, true);
        return true;
      }
      var timeMode := p.time > 0;
      while pointLast != pointNow
        invariant Valid() && isActive && lookAhead == old(lookAhead) && Abs() == old(Abs()).(last := pointLast)
        invariant Rewind(Abs().route, pointNow, pointLast, p) == Rewind(old(Abs()).route, pointNow, old(pointLast), p)
        decreases Distance(pointNow, pointLast)
      {
        pointLast := if pointLast - 1 < 0 then AP_ROUTE_SIZE - 1 else pointLast - 1;
        if timeMode && p.time >= route[pointLast].time {
          break;
        }
      }
      assert pointLast == Rewind(old(Abs()).route, pointNow, old(pointLast), p);
      hasPrevPoint := pointLast != pointNow;
      if !timeMode || pointLast != pointNow || p.time >= route[pointLast].time {
        var _ := AddPoint(p, true);
        ret := true;
      }
    }

    /** autopilot_set_active. Since the route has never just ended, it is left alone. */
    method SetActive(active: bool, msToday: int)
      requires Ready()
      modifies this`isActive, this`startTime, this`pointNow
      ensures Ready() && isActive == active
      ensures startTime == if active && !old(isActive) then msToday else old(startTime)
      ensures pointNow == if routeEnd && active then 0 else old(pointNow)
      ensures old(Valid()) ==> Valid() && Abs() == old(Abs())
    {
      if active && !isActive {
        startTime := msToday;
      }
      isActive := active;
      if routeEnd && isActive {
        pointNow := 0;
      }
    }

    /** reset_state. */
    method ResetState(msToday: int)
      requires Ready()
      modifies this`pointNow, this`isRouteStarted, this`startTime, this`syncRx, this`routeLeft, this`routeEnd, this`rpNow
      ensures Valid() && pointNow == 0 && !isRouteStarted
      ensures startTime == msToday && !syncRx && routeLeft == 0 && rpNow == ORIGIN
    {
      pointNow, isRouteStarted, startTime, syncRx, routeLeft, routeEnd := 0, false, msToday, false, 0, false;
      rpNow := ORIGIN;
    }

    /** One iteration of the route thread. */
    method Iterate(vehicle: Point, rad: real, sqrt: real -> real, msToday: int)
      requires Valid()
      requires forall x: real :: x >= 0.0 ==> sqrt(x) >= 0.0 && sqrt(x) * sqrt(x) == x
      modifies this, route
      ensures Valid() && lookAhead == old(lookAhead)
      ensures Iterated(old(State()), repeat, lookAhead, timeAdd, vehicle, rad, State())
      ensures isActive ==> routeLeft == LengthLeft(old(pointNow), pointLast)
      ensures isActive && RouteLen(old(pointNow), pointLast) >= 2 ==>
                if old(isRouteStarted)
                then Pursued(old(Abs()), repeat, Ahead(lookAhead, RouteLen(old(pointNow), pointLast)), vehicle, rad, rpNow)
                else rpNow == old(route[0].pos)
      ensures old(isActive) && !isActive ==> startTime == msToday && !syncRx && routeLeft == 0 && rpNow == ORIGIN
      ensures radNow == if !isActive then -1.0 else if RouteLen(old(pointNow), pointLast) >= 2 then rad else old(radNow)
    {
      hide Moved, Pursued, Ends, Near;
      if !isActive {
        radNow := -1.0;
        return;
      }
      routeLeft := RouteLen(pointNow, pointLast) - pointNow;
      if routeLeft < 0 {
        routeLeft := routeLeft + AP_ROUTE_SIZE;
      }
      if RouteLen(pointNow, pointLast) >= 2 {
        Move(vehicle, rad, sqrt);
      }
      if routeEnd {
        EndsAnyway(old(State()), repeat, lookAhead, timeAdd, vehicle, rad, State());
        EndRoute(msToday);
      }
    }

    /** The end of an iteration on which the route ends. */
    method EndRoute(msToday: int)
      requires Ready()
      modifies this`pointNow, this`isRouteStarted, this`startTime, this`syncRx, this`routeLeft, this`routeEnd, this`rpNow,
               this`radNow, this`isActive
      ensures Valid() && State() == Pilot(Restarted(old(Abs())), false, false)
      ensures radNow == -1.0 && startTime == msToday && !syncRx && routeLeft == 0 && rpNow == ORIGIN
    {
      radNow, isActive := -1.0, false;
      ResetState(msToday);
    }

    /** The part of an iteration between the count of the points left and the end of the route. */
    method Move(vehicle: Point, rad: real, sqrt: real -> real)
      requires Valid() && isActive && RouteLen(pointNow, pointLast) >= 2 && routeLeft == LengthLeft(pointNow, pointLast)
      requires forall x: real :: x >= 0.0 ==> sqrt(x) >= 0.0 && sqrt(x) * sqrt(x) == x
      modifies route, this`radNow, this`isRouteStarted, this`routeEnd, this`pointNow, this`rpNow
      ensures Ready() && radNow == rad
      ensures Moved(old(State()), repeat, lookAhead, timeAdd, vehicle, rad, State())
      ensures routeEnd == Ends(old(Abs()), repeat, vehicle, rad)
      ensures if old(isRouteStarted)
              then Pursued(old(Abs()), repeat, Ahead(lookAhead, RouteLen(old(pointNow), pointLast)), vehicle, rad, rpNow)
              else rpNow == old(route[0].pos)
    {
      hide Followed, Pursued, Near, Timed, Ends, Moved, SamePlaces, LengthLeft;
      ghost var r := Abs();
      radNow := rad;
      var lastPointInd := if pointLast - 1 < 0 then pointLast - 1 + AP_ROUTE_SIZE else pointLast - 1;
      var goal, closest1 := route[0].pos, 0;
      if isRouteStarted {
        goal, closest1 := FollowRoute(vehicle, rad, sqrt);
      } else if Near(route[0].pos, vehicle, 1.5 * rad) {
        isRouteStarted := true;
      }
      SamePlacesSelf(Abs());
      EndTest(r, Abs(), repeat, vehicle, rad);
      MovedTo(Pilot(r, isActive, old(isRouteStarted)), repeat, lookAhead, timeAdd, vehicle, rad, isRouteStarted, closest1);
      routeEnd := !repeat && routeLeft < 3 && Near(route[lastPointInd].pos, vehicle, rad);
      pointNow, rpNow := closest1, goal;
    }

    /** The two loops of an iteration: the point to follow, and the start of the segment closest to the vehicle. */
    method FollowRoute(vehicle: Point, rad: real, sqrt: real -> real) returns (x: Point, best: Index)
      requires Valid() && RouteLen(pointNow, pointLast) >= 2
      requires forall y: real :: y >= 0.0 ==> sqrt(y) >= 0.0 && sqrt(y) * sqrt(y) == y
      modifies route
      ensures Abs() == Timed(old(Abs()), repeat, Ahead(lookAhead, RouteLen(pointNow, pointLast)), timeAdd)
      ensures SamePlaces(old(Abs()), Abs())
      ensures Followed(old(Abs()), repeat, Ahead(lookAhead, RouteLen(pointNow, pointLast)), vehicle, best)
      ensures Pursued(old(Abs()), repeat, Ahead(lookAhead, RouteLen(pointNow, pointLast)), vehicle, rad, x)
    {
      hide Node, Stamped, GoalAmong, GoalVisits, Visits, ClosestAhead, Closest, Met;
      ghost var r, ahead := Abs(), Ahead(lookAhead, RouteLen(pointNow, pointLast));
      var found, goal, atEnd;
      ghost var n, m, k;
      found, goal, atEnd, n := GoalPoint(vehicle, rad, sqrt);
      TimedPlaces(r, repeat, ahead, timeAdd);
      var closest;
      best, closest, m, k := ClosestSegment(vehicle, Ahead(lookAhead, RouteLen(pointNow, pointLast)), r);
      var lastPointInd := if pointLast - 1 < 0 then pointLast - 1 + AP_ROUTE_SIZE else pointLast - 1;
      x := if atEnd then route[lastPointInd].pos else if found then goal else closest;
      assert ClosestPursued(r, repeat, ahead, vehicle, closest);
      assert GoalAmong(r, vehicle, rad, n, found, goal) && GoalVisits(r, repeat, vehicle, rad, ahead, found, n);
    }

    /** The thread's second loop, over the segments ahead; r is the ring with other times. */
    method ClosestSegment(vehicle: Point, ahead: nat, ghost r: Ring)
      returns (best: Index, closest: Point, ghost n: nat, ghost k: nat)
      requires Valid() && RouteLen(pointNow, pointLast) >= 2 && ahead == Ahead(lookAhead, RouteLen(pointNow, pointLast))
      requires SamePlaces(r, Abs())
      ensures Visits(r, repeat, ahead, n) && ClosestAhead(r, vehicle, n, k) && best == Node(r, k)
      ensures closest == Closest(r.route[Node(r, k)].pos, r.route[Node(r, k + 1)].pos, vehicle)
    {
      hide Node, Wrap, Off, Cycle, Closest;
      var lastPointInd := if pointLast - 1 < 0 then pointLast - 1 + AP_ROUTE_SIZE else pointLast - 1;
      var i := 0;
      best, closest, k := 0, ORIGIN, 0;
      while i < ahead
        invariant i <= ahead
        invariant i > 0 ==> best == Node(r, k) && ClosestAhead(r, vehicle, i, k)
        invariant i > 0 ==> closest == Closest(r.route[Node(r, k)].pos, r.route[Node(r, k + 1)].pos, vehicle)
        invariant !repeat ==> forall j | 0 < j <= i :: Node(r, j) != Prev(pointLast)
      {
        var ind := NodeIndex(i, r);
        var indn := NodeIndex(i + 1, r);
        var tmp := ClosestPointLine(route[ind].pos, route[indn].pos, vehicle);
        OffIs(r, vehicle, i);
        OffIs(r, vehicle, k);
        if i == 0 || Dist2(tmp, vehicle) < Dist2(closest, vehicle) {
          best, closest, k := ind, tmp, i;
        }
        i := i + 1;
        if !repeat && indn == lastPointInd {
          break;
        }
      }
      n := i;
    }

    method NodeIndex(k: nat, ghost r: Ring) returns (ind: Index)
      requires Valid() && RouteLen(pointNow, pointLast) >= 2 && k <= Ahead(lookAhead, RouteLen(pointNow, pointLast))
      requires r.now == pointNow && r.last == pointLast
      ensures ind == Node(r, k)
    {
      LookAheadSafe(pointNow, pointLast, lookAhead, k);
      ind := Wrap(pointNow, pointLast, pointNow + k);
    }

    /** The route thread's first loop: the point of the route ahead at the look-ahead radius and furthest along. Without
        repetition the search ends at the last point once something has been found; atEnd says that the segment ending
        there was met, and then the thread goes straight for the last point. With repetition a point whose time is before
        that of the point before it is moved to the next lap. */
    method GoalPoint(vehicle: Point, rad: real, sqrt: real -> real) returns (found: bool, goal: Point, atEnd: bool, ghost n: nat)
      requires Valid() && RouteLen(pointNow, pointLast) >= 2
      requires forall x: real :: x >= 0.0 ==> sqrt(x) >= 0.0 && sqrt(x) * sqrt(x) == x
      modifies route
      ensures Abs() == Timed(old(Abs()), repeat, Ahead(lookAhead, RouteLen(pointNow, pointLast)), timeAdd)
      ensures GoalAmong(old(Abs()), vehicle, rad, n, found, goal)
      ensures GoalVisits(old(Abs()), repeat, vehicle, rad, Ahead(lookAhead, RouteLen(pointNow, pointLast)), found, n)
      ensures atEnd <==> AtEnd(old(Abs()), repeat, vehicle, rad, n)
    {
      hide Node, Best, Met, GoalAmong, GoalVisits, Searching, AtEnd, Cycle, Timed, SamePlaces;
      var ahead := Ahead(lookAhead, RouteLen(pointNow, pointLast));
      var lastPointInd := if pointLast - 1 < 0 then pointLast - 1 + AP_ROUTE_SIZE else pointLast - 1;
      ghost var r := Abs();
      var i := 0;
      found, goal, atEnd := false, ORIGIN, false;
      NothingYet(r, vehicle, rad, goal);
      NotYetSearched(r, repeat, vehicle, rad);
      NotYetTimed(r, repeat, timeAdd);
      while i < ahead
        invariant i <= ahead && !atEnd && GoalAmong(r, vehicle, rad, i, found, goal)
        invariant Abs() == Timed(r, repeat, i, timeAdd)
        invariant Searching(r, repeat, vehicle, rad, found, i)
      {
        var ind := NodeIndex(i, r);
        var indn := NodeIndex(i + 1, r);
        AddLap(ind, indn, r, i);
        TimedPlaces(r, repeat, i + 1, timeAdd);
        var hit, x;
        ghost var t;
        PlacesAt(r, Abs(), ind);
        PlacesAt(r, Abs(), indn);
        hit, x, t := SegmentHit(vehicle, rad, sqrt, route[ind].pos, route[indn].pos);
        BestIs(r, vehicle, rad, i, hit, x, t);
        GoalMore(r, vehicle, rad, i, found, goal, hit, x, t);
        SearchMore(r, repeat, vehicle, rad, found, if hit then x else goal, hit, i, ahead);
        if hit {
          found, goal := true, x;
        }
        i := i + 1;
        if !repeat && indn == lastPointInd && found {
          atEnd := hit;
          break;
        }
      }
      n := i;
      SearchedAll(r, repeat, vehicle, rad, n, found);
      SameTimes(r, repeat, n, ahead, timeAdd);
    }

    /** With repetition the end of segment k gets its time. */
    method AddLap(ind: Index, indn: Index, ghost r: Ring, ghost k: nat)
      requires Valid() && RouteLen(r.now, r.last) >= 2 && ind == Node(r, k) && indn == Node(r, k + 1)
      requires Abs() == Timed(r, repeat, k, timeAdd)
      modifies route
      ensures Abs() == Timed(r, repeat, k + 1, timeAdd)
    {
      if repeat && Before(route[indn].time, route[ind].time) {
        route[indn] := route[indn].(time := route[indn].time + timeAdd);
        if route[indn].time > MS_PER_DAY {
          route[indn] := route[indn].(time := route[indn].time - MS_PER_DAY);
        }
      }
    }

    /** The intersections with one segment; of two, the one nearer the segment's end. */
    method SegmentHit(vehicle: Point, rad: real, sqrt: real -> real, p: Point, q: Point)
      returns (hit: bool, x: Point, ghost t: real)
      requires forall y: real :: y >= 0.0 ==> sqrt(y) >= 0.0 && sqrt(y) * sqrt(y) == y
      ensures BestOf(vehicle, rad, p, q, hit, x, t)
    {
      hide QuadA, Det, Along, Hit, Dist2;
      var det := Det(vehicle, rad, p, q);
      var found := CircleLineInt(vehicle, rad, p, q, sqrt(det), p, q);
      hit, x, t := found.count > 0, found.int1, 0.0;
      if found.count == 2 {
        FirstIsFollowed(vehicle, rad, p, q, found);
        x := if Dist2(found.int1, q) < Dist2(found.int2, q) then found.int1 else found.int2;
      }
      if found.count > 0 {
        t := FirstHit(vehicle, rad, p, q, found);
      }
    }
  }

  /** At the end of the route it does not matter where the thread had moved. */
  lemma EndsAnyway(p: Pilot, repeat: bool, lookAhead: nat, add: int, vehicle: Point, rad: real, p': Pilot)
    requires RouteLen(p.ring.now, p.ring.last) >= 2
    requires Ends(p.ring, repeat, vehicle, rad) && Moved(p, repeat, lookAhead, add, vehicle, rad, p')
    ensures Restarted(p'.ring) == Restarted(p.ring)
  {
    hide Followed, Near;
  }

  lemma MovedTo(p: Pilot, repeat: bool, lookAhead: nat, add: int, vehicle: Point, rad: real, started: bool, now: Index)
    requires p.active && RouteLen(p.ring.now, p.ring.last) >= 2
    requires if p.started then started && Followed(p.ring, repeat, Ahead(lookAhead, RouteLen(p.ring.now, p.ring.last)), vehicle, now)
             else started == Near(p.ring.route[0].pos, vehicle, 1.5 * rad) && now == 0
    ensures var r := if p.started then Timed(p.ring, repeat, Ahead(lookAhead, RouteLen(p.ring.now, p.ring.last)), add) else p.ring;
            Moved(p, repeat, lookAhead, add, vehicle, rad, Pilot(r.(now := now), true, started))
  {
    hide Followed, Near, Timed;
  }

  lemma SamePlacesSelf(r: Ring)
    ensures SamePlaces(r, r)
  {
  }

  /** The end test may be made after the times have changed. */
  lemma EndTest(r: Ring, s: Ring, repeat: bool, vehicle: Point, rad: real)
    requires SamePlaces(r, s)
    ensures Ends(r, repeat, vehicle, rad) <==>
              !repeat && LengthLeft(r.now, r.last) < 3 && Near(s.route[Prev(s.last)].pos, vehicle, rad)
  {
    hide Near;
  }

  /** x is the point of the segment at the radius that is furthest along, t of the way, if there is one. */
  ghost predicate BestOf(vehicle: Point, rad: real, p: Point, q: Point, hit: bool, x: Point, t: real) {
    && (hit ==> QuadA(p, q) > 0.000001 && Hit(vehicle, rad, p, q, t) && x == Along(p, q, t))
    && forall t': real :: QuadA(p, q) > 0.000001 && Hit(vehicle, rad, p, q, t') ==> hit && t' <= t
  }

  /** The search goes on: either nothing has been found, or the last point has not been come to. */
  ghost predicate Searching(r: Ring, repeat: bool, vehicle: Point, rad: real, found: bool, n: nat)
    requires RouteLen(r.now, r.last) >= 2
  {
    && (!repeat && found && n > 0 ==> Node(r, n) != Prev(r.last))
    && (!repeat ==> forall j | 0 < j <= n && Node(r, j) == Prev(r.last) :: NoneAhead(r, vehicle, rad, j))
    && (n > 0 && Met(r, vehicle, rad, n - 1) ==> found)
  }

  lemma NotYetSearched(r: Ring, repeat: bool, vehicle: Point, rad: real)
    requires RouteLen(r.now, r.last) >= 2
    ensures Searching(r, repeat, vehicle, rad, false, 0)
  {
  }

  lemma SearchMore(r: Ring, repeat: bool, vehicle: Point, rad: real, found: bool, goal: Point, hit: bool, n: nat, ahead: nat)
    requires RouteLen(r.now, r.last) >= 2 && n < ahead && Searching(r, repeat, vehicle, rad, found, n)
    requires GoalAmong(r, vehicle, rad, n + 1, found || hit, goal)
    requires hit <==> Met(r, vehicle, rad, n)
    ensures if !repeat && (found || hit) && Node(r, n + 1) == Prev(r.last)
            then
              && (AtEnd(r, repeat, vehicle, rad, n + 1) <==> hit)
              && GoalVisits(r, repeat, vehicle, rad, ahead, true, n + 1)
            else Searching(r, repeat, vehicle, rad, found || hit, n + 1)
  {
    hide Node, Met, NoneAhead, Furthest;
  }

  lemma SearchedAll(r: Ring, repeat: bool, vehicle: Point, rad: real, n: nat, found: bool)
    requires RouteLen(r.now, r.last) >= 2
    ensures Searching(r, repeat, vehicle, rad, found, n) ==>
              GoalVisits(r, repeat, vehicle, rad, n, found, n) && !AtEnd(r, repeat, vehicle, rad, n)
  {
    hide Node, Met, NoneAhead;
  }

  lemma PlacesAt(r: Ring, s: Ring, i: Index)
    requires SamePlaces(r, s)
    ensures r.route[i].pos == s.route[i].pos
  {
  }

  lemma BestIs(r: Ring, vehicle: Point, rad: real, k: nat, hit: bool, x: Point, t: real)
    requires RouteLen(r.now, r.last) >= 2
    requires BestOf(vehicle, rad, r.route[Node(r, k)].pos, r.route[Node(r, k + 1)].pos, hit, x, t)
    ensures Best(r, vehicle, rad, k, hit, x, t)
  {
    hide Node, QuadA, Along, Hit;
  }

  lemma OffIs(r: Ring, vehicle: Point, k: nat)
    requires RouteLen(r.now, r.last) >= 2
    ensures Off(r, vehicle, k) == Dist2(Closest(r.route[Node(r, k)].pos, r.route[Node(r, k + 1)].pos, vehicle), vehicle)
  {
  }

  lemma SameTimes(r: Ring, repeat: bool, m: nat, n: nat, add: int)
    requires RouteLen(r.now, r.last) >= 2
    ensures !repeat ==> Timed(r, repeat, m, add) == Timed(r, repeat, n, add)
  {
  }

  lemma NotYetTimed(r: Ring, repeat: bool, add: int)
    requires RouteLen(r.now, r.last) >= 2
    ensures Timed(r, repeat, 0, add) == r
  {
  }
}
