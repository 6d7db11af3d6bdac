/** One iteration of the route thread: what it does to the route, and to the points still to be followed. */
module RouteSteps {
  import opened Geometry
  import opened Arithmetic
  import opened Wrappers
  import opened Route
  import opened RouteTimes

  // ----- an iteration

  /** The route, and whether it is being followed and has been reached. */
  datatype Pilot = Pilot(ring: Ring, active: bool, started: bool)

  /** Before the start of the route has been reached, the first considered point is the first of all. */
  predicate Orderly(p: Pilot) {
    p.started || p.ring.now == 0
  }

  predicate Near(p: Point, vehicle: Point, rad: real) {
    rad > 0.0 && Dist2(p, vehicle) < Square(rad)
  }

  /** The number of points left, as the thread counts them. */
  function LengthLeft(now: Index, last: Index): int {
    var left := RouteLen(now, last) - now;
    if left < 0 then left + AP_ROUTE_SIZE else left
  }

  /** The end of a route that does not repeat. */
  predicate Ends(r: Ring, repeat: bool, vehicle: Point, rad: real) {
    !repeat && LengthLeft(r.now, r.last) < 3 && Near(r.route[Prev(r.last)].pos, vehicle, rad)
  }

  /** The route with the times that looking n segments ahead leaves. */
  function Timed(r: Ring, repeat: bool, n: nat, add: int): Ring
    requires RouteLen(r.now, r.last) >= 2
  {
    if repeat then r.(route := Stamped(r.route, r.now, Cycle(r.now, r.last), n, add)) else r
  }

  /** Where the thread takes the route, short of its end: to the segment closest to the vehicle, or, while it has not
      been reached, to its start. */
  ghost predicate Moved(p: Pilot, repeat: bool, lookAhead: nat, add: int, vehicle: Point, rad: real, p': Pilot)
    requires RouteLen(p.ring.now, p.ring.last) >= 2
  {
    var r, ahead := p.ring, Ahead(lookAhead, RouteLen(p.ring.now, p.ring.last));
    && p'.active
    && if !p.started then p'.ring == Restarted(r) && p'.started == Near(r.route[0].pos, vehicle, 1.5 * rad)
       else p'.started && p'.ring == Timed(r, repeat, ahead, add).(now := p'.ring.now) && Followed(r, repeat, ahead, vehicle, p'.ring.now)
  }

  /** The thread goes from p to p' when it finds the vehicle there and looks at that radius. */
  ghost predicate Iterated(p: Pilot, repeat: bool, lookAhead: nat, add: int, vehicle: Point, rad: real, p': Pilot) {
    if !p.active || RouteLen(p.ring.now, p.ring.last) < 2 then p' == p
    else if Ends(p.ring, repeat, vehicle, rad) then p' == Pilot(Restarted(p.ring), false, false)
    else Moved(p, repeat, lookAhead, add, vehicle, rad, p')
  }

  /** What is followed: the last point when the segment ending there is met, else the goal point, else the point of the
      segments ahead that is closest to the vehicle. */
  ghost predicate Pursued(r: Ring, repeat: bool, ahead: nat, vehicle: Point, rad: real, x: Point)
    requires RouteLen(r.now, r.last) >= 2
  {
    exists n: nat, found: bool, goal: Point ::
      && GoalAmong(r, vehicle, rad, n, found, goal) && GoalVisits(r, repeat, vehicle, rad, ahead, found, n)
      && if AtEnd(r, repeat, vehicle, rad, n) then x == r.route[Prev(r.last)].pos
         else if found then x == goal
         else ClosestPursued(r, repeat, ahead, vehicle, x)
  }

  /** The search for the goal point has ended on the segment to the last point. */
  ghost predicate AtEnd(r: Ring, repeat: bool, vehicle: Point, rad: real, n: nat)
    requires RouteLen(r.now, r.last) >= 2
  {
    !repeat && n > 0 && Node(r, n) == Prev(r.last) && Met(r, vehicle, rad, n - 1)
  }

  ghost predicate ClosestPursued(r: Ring, repeat: bool, ahead: nat, vehicle: Point, x: Point)
    requires RouteLen(r.now, r.last) >= 2
  {
    exists n: nat, k: nat ::
      && Visits(r, repeat, ahead, n) && ClosestAhead(r, vehicle, n, k)
      && x == Closest(r.route[Node(r, k)].pos, r.route[Node(r, k + 1)].pos, vehicle)
  }

  /** Away from the route, the point followed is the closest of all points of the segments looked at. */
  lemma PursuedClosest(r: Ring, repeat: bool, ahead: nat, vehicle: Point, rad: real, x: Point, n: nat, j: nat, u: real)
    requires RouteLen(r.now, r.last) >= 2 && Pursued(r, repeat, ahead, vehicle, rad, x) && NoneAhead(r, vehicle, rad, ahead)
    requires Visits(r, repeat, ahead, n) && j < n && 0.0 <= u <= 1.0
    requires QuadA(r.route[Node(r, j)].pos, r.route[Node(r, j + 1)].pos) > 0.000001
    ensures Dist2(x, vehicle) <= Dist2(Along(r.route[Node(r, j)].pos, r.route[Node(r, j + 1)].pos, u), vehicle)
  {
    hide Node, Closest, QuadA, Along, HitAhead;
    var p, q := r.route[Node(r, j)].pos, r.route[Node(r, j + 1)].pos;
    var m: nat, k: nat :| Visits(r, repeat, ahead, m) && ClosestAhead(r, vehicle, m, k)
      && x == Closest(r.route[Node(r, k)].pos, r.route[Node(r, k + 1)].pos, vehicle);
    assert m == n;
    ClosestNearest(p, q, vehicle, u);
    assert Off(r, vehicle, k) <= Off(r, vehicle, j);
  }

  /** On a repeating route, near enough to it, the point followed lies at the radius, on no segment before one that is met. */
  lemma PursuedGoal(r: Ring, ahead: nat, vehicle: Point, rad: real, x: Point, j: nat)
    requires RouteLen(r.now, r.last) >= 2 && Pursued(r, true, ahead, vehicle, rad, x) && j < ahead && Met(r, vehicle, rad, j)
    ensures Dist2(vehicle, x) == rad * rad
    ensures exists k: nat, t: real ::
              j <= k < ahead && HitAhead(r, vehicle, rad, k, t)
              && x == Along(r.route[Node(r, k)].pos, r.route[Node(r, k + 1)].pos, t)
  {
    hide Node, QuadA, Along;
  }

  /** Without repetition, when the segment that ends in the last point is looked at and met, that point is followed. */
  lemma PursuedEnd(r: Ring, ahead: nat, vehicle: Point, rad: real, x: Point, k: nat)
    requires RouteLen(r.now, r.last) >= 2 && Pursued(r, false, ahead, vehicle, rad, x) && k < ahead && Met(r, vehicle, rad, k)
    requires Node(r, k + 1) == Prev(r.last) && forall j | 0 < j <= k :: Node(r, j) != Prev(r.last)
    ensures x == r.route[Prev(r.last)].pos
  {
    hide Node, Prev, GoalAmong, NoneAhead, Met;
    MetAhead(r, vehicle, rad, k);
    forall n: nat, found: bool | GoalVisits(r, false, vehicle, rad, ahead, found, n) ensures n == k + 1 {
    }
  }

  lemma MetAhead(r: Ring, vehicle: Point, rad: real, k: nat)
    requires RouteLen(r.now, r.last) >= 2 && Met(r, vehicle, rad, k)
    ensures !NoneAhead(r, vehicle, rad, k + 1)
  {
    hide HitAhead;
  }

  /** Before the start has been reached, it is when the vehicle comes within one and a half times the radius of it; the route
      ends with the vehicle within the radius of its last point while fewer than three points are counted. */
  lemma IterationEnds(p: Pilot, repeat: bool, lookAhead: nat, add: int, vehicle: Point, rad: real, p': Pilot)
    requires p.active && RouteLen(p.ring.now, p.ring.last) >= 2 && Iterated(p, repeat, lookAhead, add, vehicle, rad, p')
    ensures var e, s := p.ring.route[Prev(p.ring.last)].pos, p.ring.route[0].pos;
            && (!p'.active <==>
                  (!repeat && LengthLeft(p.ring.now, p.ring.last) < 3 && rad > 0.0
                   && (e.px - vehicle.px) * (e.px - vehicle.px) + (e.py - vehicle.py) * (e.py - vehicle.py) < rad * rad))
            && (p'.active && !p.started ==>
                  (p'.started <==>
                    (rad > 0.0 && (s.px - vehicle.px) * (s.px - vehicle.px) + (s.py - vehicle.py) * (s.py - vehicle.py)
                                  < (1.5 * rad) * (1.5 * rad))))
  {
  }

  /** Rings that differ in nothing the thread's geometry looks at. */
  ghost predicate SamePlaces(r: Ring, s: Ring) {
    r.now == s.now && r.last == s.last && forall i: Index :: r.route[i].pos == s.route[i].pos
  }

  lemma TimedPlaces(r: Ring, repeat: bool, n: nat, add: int)
    requires RouteLen(r.now, r.last) >= 2
    ensures SamePlaces(r, Timed(r, repeat, n, add))
  {
    StampedPlaces(r.route, r.now, Cycle(r.now, r.last), n, add);
    hide Stamped;
  }

  lemma IteratedOrderly(p: Pilot, repeat: bool, lookAhead: nat, add: int, vehicle: Point, rad: real, p': Pilot)
    requires Orderly(p) && Iterated(p, repeat, lookAhead, add, vehicle, rad, p')
    ensures Orderly(p')
  {
    hide Followed, Ends, Near;
  }

  // ----- the length left

  /** The count of points left is right if and only if they do not wrap round the end of the buffer. */
  lemma LengthLeftIff(now: Index, last: Index)
    ensures LengthLeft(now, last) == Distance(now, last) <==> now <= last
  {
  }

  /** A route that has wrapped round is taken to be near its end exactly when about as many points are left as have
      been passed, at least a thousand; when it is near its end, it is not. */
  lemma WrappedLeft(now: Index, last: Index)
    requires now > last && RouteLen(now, last) >= 2
    ensures LengthLeft(now, last) < 3 <==> 2 * now <= AP_ROUTE_SIZE + last <= 2 * now + 2
    ensures LengthLeft(now, last) < 3 ==> Distance(now, last) >= 1000
    ensures Distance(now, last) < 3 ==> LengthLeft(now, last) >= 3
  {
  }

  /** What is left behind at the end of the route: the autopilot is off, and everything from the start of the buffer is
      pending again, which is more than before unless nothing had been passed or the points have wrapped round. */
  lemma EndLeaves(p: Pilot, lookAhead: nat, add: int, vehicle: Point, rad: real, p': Pilot)
    requires p.active && RouteLen(p.ring.now, p.ring.last) >= 2 && Ends(p.ring, false, vehicle, rad)
    requires Iterated(p, false, lookAhead, add, vehicle, rad, p')
    ensures !p'.active && !p'.started && Pending(p'.ring) == FromStart(List(p.ring)) == p.ring.route[..p.ring.last]
    ensures p.ring.now <= p.ring.last ==> |Pending(p.ring)| <= 2
    ensures Advances(p.ring, p'.ring.now) <==> p.ring.now == 0 || p.ring.now > p.ring.last
  {
    hide Ends, Advances, Followed, FromStart;
    var r := p.ring;
    RestartRefines(r);
    SegmentLength(r.route, r.now, r.last);
    SegmentLength(r.route, 0, r.last);
    EndAdvances(r);
    assert LengthLeft(r.now, r.last) < 3 by {
      assert Ends(r, false, vehicle, rad);
      EndIsShort(r, vehicle, rad);
    }
  }

  lemma EndIsShort(r: Ring, vehicle: Point, rad: real)
    requires Ends(r, false, vehicle, rad)
    ensures LengthLeft(r.now, r.last) < 3
  {
  }

  lemma EndAdvances(r: Ring)
    requires RouteLen(r.now, r.last) >= 2
    ensures Advances(r, 0) <==> r.now == 0 || r.now > r.last
  {
    SegmentLength(r.route, r.now, r.last);
    SegmentLength(r.route, 0, r.last);
    if r.now == 0 {
      assert r.(now := 0) == Apply(r, false, Advance(0));
    } else if r.now > r.last {
      var k := AP_ROUTE_SIZE - r.now;
      ModOnce(r.now + k, AP_ROUTE_SIZE);
      assert r.(now := 0) == Apply(r, false, Advance(k));
    } else {
      NotAdvance(r, 0);
    }
  }

  // ----- advances

  /** The step from r to the first considered point `now` drops pending points from the front, and does nothing else. */
  ghost predicate Advances(r: Ring, now: Index) {
    exists k: nat :: k <= |Pending(r)| && r.(now := now) == Apply(r, false, Advance(k))
  }

  lemma AdvanceKeeps(r: Ring, k: nat)
    requires k <= |Pending(r)|
    ensures Pending(Apply(r, false, Advance(k))) == Pending(r)[k..]
  {
    AdvanceRefines(r, false, k);
  }

  /** With two or more points pending, a step is an advance, and never past the last two. */
  lemma TwoPendingAdvance(r: Ring, ahead: nat, vehicle: Point, now: Index)
    requires RouteLen(r.now, r.last) >= 2 && |Pending(r)| >= 2 && Followed(r, false, ahead, vehicle, now)
    ensures Advances(r, now) && 2 <= |Pending(r.(now := now))|
  {
    hide Off, Segment, Node, Visits, ClosestAhead;
    var n: nat, k: nat :| Visits(r, false, ahead, n) && ClosestAhead(r, vehicle, n, k) && now == Node(r, k);
    FollowAdvances(r, ahead, vehicle, n, k);
    NodeIsAdvance(r, k);
    assert r.(now := now) == Apply(r, false, Advance(k));
  }

  lemma NodeIsAdvance(r: Ring, k: nat)
    requires RouteLen(r.now, r.last) >= 2 && k < |Pending(r)|
    ensures Node(r, k) == (r.now + k) % AP_ROUTE_SIZE
  {
    SegmentLength(r.route, r.now, r.last);
    ModOnce(r.now + k, Cycle(r.now, r.last));
    ModOnce(r.now + k, AP_ROUTE_SIZE);
  }

  /** With one point pending and one segment visited the step stays where it is. */
  lemma OnePendingStays(r: Ring, vehicle: Point, now: Index)
    requires RouteLen(r.now, r.last) >= 2 && |Pending(r)| == 1 && Followed(r, false, 1, vehicle, now)
    ensures Advances(r, now) && now == r.now
  {
    NodeIsAdvance(r, 0);
    assert r.(now := now) == Apply(r, false, Advance(0));
  }

  function At(x: real, y: real): RoutePoint {
    RoutePoint(Point(x, y), 0.0, 0, 0)
  }

  /** A route that comes back to its start from as far as one likes. */
  function Detour(last: Index, away: real): Store
    requires last >= 3
  {
    var flat: seq<RoutePoint> := seq(AP_ROUTE_SIZE, _ => At(0.0, 0.0));
    flat[1 := At(10.0, 0.0)][last - 1 := At(0.0, away)]
  }

  /** With one point pending and two segments looked at, a step can go back to the start of the route, without coming near
      its end, and all its points are pending again. */
  lemma OnePendingStepsBack(last: Index, lookAhead: nat, add: int, rad: real, away: real)
    requires 3 <= last && lookAhead >= 2 && away >= 1.0 && away >= rad
    ensures var r, vehicle := Ring(Detour(last, away), last - 1, last, true, None), Point(10.0, 0.0);
            && |Pending(r)| == 1 && !Ends(r, false, vehicle, rad)
            && Iterated(Pilot(r, true, true), false, lookAhead, add, vehicle, rad, Pilot(Restarted(r), true, true))
            && |Pending(Restarted(r))| == last && !Advances(r, 0)
  {
    hide Followed, Advances, Detour, Segment, Dist2, Square;
    DetourFollowed(last, Ahead(lookAhead, last), away);
    DetourEnd(last, away);
    if rad > 0.0 {
      SquareMono(rad, away);
    }
  }

  lemma DetourEnd(last: Index, away: real)
    requires 3 <= last
    ensures Dist2(Detour(last, away)[last - 1].pos, Point(10.0, 0.0)) == Square(away) + 100.0
  {
  }

  lemma DetourFollowed(last: Index, ahead: nat, away: real)
    requires 3 <= last && 2 <= ahead < last && away >= 1.0
    ensures var r, vehicle := Ring(Detour(last, away), last - 1, last, true, None), Point(10.0, 0.0);
            && |Pending(r)| == 1 && Followed(r, false, ahead, vehicle, 0)
            && |Pending(r.(now := 0))| == last && !Advances(r, 0)
  {
    hide Node, Off, Closest, Detour, Segment;
    var r, vehicle := Ring(Detour(last, away), last - 1, last, true, None), Point(10.0, 0.0);
    SegmentLength(r.route, last - 1, last);
    SegmentLength(r.route, 0, last);
    forall k | 0 <= k <= last ensures Node(r, k) == if k == 0 then last - 1 else k - 1 {
      NodeFromLast(r, k);
    }
    DetourDistances(r, last, away);
    forall j | 0 <= j < ahead ensures Off(r, vehicle, 1) <= Off(r, vehicle, j) {
      OffNonnegative(r, vehicle, j);
    }
    assert Visits(r, false, ahead, ahead) && ClosestAhead(r, vehicle, ahead, 1);
    NotAdvance(r, 0);
  }

  lemma OffNonnegative(r: Ring, vehicle: Point, k: nat)
    requires RouteLen(r.now, r.last) >= 2
    ensures Off(r, vehicle, k) >= 0.0
  {
    hide Node, Closest;
  }

  lemma NodeFromLast(r: Ring, k: nat)
    requires r.last >= 2 && r.now == r.last - 1 && k <= r.last
    ensures Node(r, k) == if k == 0 then r.last - 1 else k - 1
  {
    ModOnce(r.now + k, r.last);
  }

  lemma DetourDistances(r: Ring, last: Index, away: real)
    requires last >= 3 && away >= 1.0 && r.route == Detour(last, away) && r.last == last && r.now == last - 1
    requires Node(r, 0) == last - 1 && Node(r, 1) == 0 && Node(r, 2) == 1
    ensures Off(r, Point(10.0, 0.0), 0) == 100.0 && Off(r, Point(10.0, 0.0), 1) == 0.0
  {
    hide Node, Closest, Dist2;
    var far, home, x := Point(0.0, away), Point(0.0, 0.0), Point(10.0, 0.0);
    Lengths(away);
    EndIsClosest(far, home, x);
    EndIsClosest(home, x, x);
  }

  lemma Lengths(away: real)
    requires away >= 1.0
    ensures var far, home, x := Point(0.0, away), Point(0.0, 0.0), Point(10.0, 0.0);
            && QuadA(far, home) == Dot(x, far, home) == Square(away) >= 1.0 && QuadA(home, x) == 100.0 && Dot(x, home, x) == 100.0
            && Dist2(home, x) == 100.0 && Dist2(x, x) == 0.0
  {
    SquareMono(1.0, away);
  }

  lemma EndIsClosest(p: Point, q: Point, x: Point)
    requires QuadA(p, q) > 0.000001 && Dot(x, p, q) == QuadA(p, q)
    ensures Closest(p, q, x) == q
  {
    hide QuadA, Dot;
    assert Dot(x, p, q) / QuadA(p, q) == 1.0;
  }

  /** A step that makes more points pending is no advance. */
  lemma NotAdvance(r: Ring, now: Index)
    requires |Pending(r.(now := now))| > |Pending(r)|
    ensures !Advances(r, now)
  {
    hide Segment, Apply;
    if Advances(r, now) {
      var k: nat :| k <= |Pending(r)| && r.(now := now) == Apply(r, false, Advance(k));
      AdvanceKeeps(r, k);
    }
  }

  /** A route all at one place. */
  function Flat(): Store {
    var flat: seq<RoutePoint> := seq(AP_ROUTE_SIZE, _ => At(0.0, 0.0));
    flat
  }

  /** With nothing pending a step can start the route over, without coming near its end. */
  lemma NonePendingStartsOver(last: Index, lookAhead: nat, add: int, rad: real, away: real)
    requires 2 <= last && lookAhead >= 1 && away >= 0.0 && away >= rad
    ensures var r, vehicle := Ring(Flat(), last, last, true, None), Point(away, 0.0);
            && Pending(r) == [] && !Ends(r, false, vehicle, rad)
            && Iterated(Pilot(r, true, true), false, lookAhead, add, vehicle, rad, Pilot(Restarted(r), true, true))
            && |Pending(Restarted(r))| == last && !Advances(r, 0)
  {
    var r, vehicle := Ring(Flat(), last, last, true, None), Point(away, 0.0);
    hide Followed, Advances, Flat, Segment, Dist2, Square;
    FlatFollowed(last, Ahead(lookAhead, last), vehicle);
    SegmentLength(r.route, last, last);
    FlatEnd(last - 1, away);
    if rad > 0.0 {
      SquareMono(rad, away);
    }
  }

  lemma FlatFollowed(last: Index, ahead: nat, vehicle: Point)
    requires 2 <= last && 1 <= ahead < last
    ensures var r := Ring(Flat(), last, last, true, None);
            Followed(r, false, ahead, vehicle, 0) && |Pending(r.(now := 0))| == last && !Advances(r, 0)
  {
    hide Off, Closest, Segment;
    var r := Ring(Flat(), last, last, true, None);
    SegmentLength(r.route, last, last);
    SegmentLength(r.route, 0, last);
    forall k | 0 <= k < last ensures Node(r, k) == k {
      ModOnce(last + k, last);
    }
    forall j | 0 <= j < ahead ensures Off(r, vehicle, j) == Off(r, vehicle, 0) {
      FlatOff(r, vehicle, j);
      FlatOff(r, vehicle, 0);
    }
    assert Visits(r, false, ahead, ahead) && ClosestAhead(r, vehicle, ahead, 0);
    NotAdvance(r, 0);
  }

  lemma FlatOff(r: Ring, vehicle: Point, j: nat)
    requires RouteLen(r.now, r.last) >= 2 && r.route == Flat()
    ensures Off(r, vehicle, j) == Dist2(Closest(Point(0.0, 0.0), Point(0.0, 0.0), vehicle), vehicle)
  {
    hide Closest, Dist2, Node;
  }

  /** Whatever the route and the vehicle, an iteration from these indices keeps following and is an advance. */
  ghost predicate StepsAdvance(now: Index, last: Index, lookAhead: nat, add: int, rad: real) {
    forall p: Pilot, vehicle: Point, p': Pilot ::
      (&& p.ring.now == now && p.ring.last == last && p.active && Orderly(p)
       && Iterated(p, false, lookAhead, add, vehicle, rad, p'))
      ==> p'.active && Advances(p.ring, p'.ring.now) && p'.ring == p.ring.(now := p'.ring.now)
  }

  /** Two points are pending, or one is and the thread looks one segment ahead. */
  predicate EnoughPending(now: Index, last: Index, lookAhead: nat)
    requires RouteLen(now, last) >= 2
  {
    Distance(now, last) >= 2 || (Distance(now, last) == 1 && Ahead(lookAhead, RouteLen(now, last)) == 1)
  }

  lemma StepAdvances(p: Pilot, lookAhead: nat, add: int, vehicle: Point, rad: real, p': Pilot)
    requires RouteLen(p.ring.now, p.ring.last) >= 2 && lookAhead >= 1 && EnoughPending(p.ring.now, p.ring.last, lookAhead)
    requires p.active && Orderly(p) && !Ends(p.ring, false, vehicle, rad) && Iterated(p, false, lookAhead, add, vehicle, rad, p')
    ensures p'.active && Advances(p.ring, p'.ring.now) && p'.ring == p.ring.(now := p'.ring.now)
  {
    hide Followed, Advances, Ends, Near;
    var r := p.ring;
    SegmentLength(r.route, r.now, r.last);
    if !p.started {
      EndAdvances(r);
    } else if Distance(r.now, r.last) >= 2 {
      TwoPendingAdvance(r, Ahead(lookAhead, RouteLen(r.now, r.last)), vehicle, p'.ring.now);
    } else {
      OnePendingStays(r, vehicle, p'.ring.now);
    }
  }

  /** Where the thread counts fewer than three points left, there is a place to end the route. */
  lemma CanEnd(now: Index, last: Index, lookAhead: nat, add: int, rad: real)
    requires RouteLen(now, last) >= 2 && rad > 0.0 && LengthLeft(now, last) < 3
    ensures !StepsAdvance(now, last, lookAhead, add, rad)
  {
    hide Iterated, Ends, Advances, Flat;
    var p, vehicle := Pilot(Ring(Flat(), now, last, true, None), true, true), Point(0.0, 0.0);
    FlatEnds(p.ring, rad);
    EndIterates(p, lookAhead, add, vehicle, rad);
  }

  lemma FlatEnds(r: Ring, rad: real)
    requires r.route == Flat() && rad > 0.0 && LengthLeft(r.now, r.last) < 3
    ensures Ends(r, false, Point(0.0, 0.0), rad)
  {
    hide Flat, Dist2, Square;
    FlatEnd(Prev(r.last), 0.0);
    Nearby(r.route[Prev(r.last)].pos, Point(0.0, 0.0), rad);
  }

  lemma Nearby(p: Point, vehicle: Point, rad: real)
    requires rad > 0.0 && Dist2(p, vehicle) == 0.0
    ensures Near(p, vehicle, rad)
  {
    hide Dist2, Square;
    SquareMono(rad, rad);
  }

  lemma FlatEnd(i: Index, away: real)
    ensures Dist2(Flat()[i].pos, Point(away, 0.0)) == Square(away) && Square(0.0) == 0.0
  {
  }

  lemma EndIterates(p: Pilot, lookAhead: nat, add: int, vehicle: Point, rad: real)
    requires p.active && RouteLen(p.ring.now, p.ring.last) >= 2 && Ends(p.ring, false, vehicle, rad)
    ensures Iterated(p, false, lookAhead, add, vehicle, rad, Pilot(Restarted(p.ring), false, false))
  {
    hide Ends, Followed;
  }

  /** The same for those with the vehicle not at the end of the route. */
  ghost predicate UnendedAdvance(now: Index, last: Index, lookAhead: nat, add: int, rad: real) {
    forall p: Pilot, vehicle: Point, p': Pilot ::
      (&& p.ring.now == now && p.ring.last == last && p.active && Orderly(p) && !Ends(p.ring, false, vehicle, rad)
       && Iterated(p, false, lookAhead, add, vehicle, rad, p'))
      ==> p'.active && Advances(p.ring, p'.ring.now) && p'.ring == p.ring.(now := p'.ring.now)
  }

  /** Short of the end of the route, an iteration only drops pending points from its front, over all routes and vehicles, if
      and only if two points are pending, or one is and the thread looks one segment ahead. Otherwise the look-ahead runs on
      past the end of the route to points already passed. */
  lemma UnendedAdvanceIff(now: Index, last: Index, lookAhead: nat, add: int, rad: real)
    requires RouteLen(now, last) >= 2 && lookAhead >= 1
    ensures UnendedAdvance(now, last, lookAhead, add, rad) <==> EnoughPending(now, last, lookAhead)
  {
    hide Iterated, Advances, Ends, UnendedAdvance;
    if EnoughPending(now, last, lookAhead) {
      EnoughAdvances(now, last, lookAhead, add, rad);
    } else {
      TooFewPending(now, last, lookAhead, add, rad);
    }
  }

  /** An iteration keeps following the route and only drops pending points from its front, over all routes and vehicles,
      if and only if enough are pending and the thread does not count fewer than three left (when its radius is one). */
  lemma StepsAdvanceIff(now: Index, last: Index, lookAhead: nat, add: int, rad: real)
    requires RouteLen(now, last) >= 2 && lookAhead >= 1
    ensures StepsAdvance(now, last, lookAhead, add, rad) <==>
              if rad > 0.0 then LengthLeft(now, last) >= 3 else EnoughPending(now, last, lookAhead)
  {
    hide Iterated, Advances, Near, StepsAdvance, UnendedAdvance;
    UnendedAdvanceIff(now, last, lookAhead, add, rad);
    if rad > 0.0 && LengthLeft(now, last) < 3 {
      CanEnd(now, last, lookAhead, add, rad);
    } else {
      NeverEnds(now, last, lookAhead, add, rad);
    }
  }

  /** Where no end is near, the two are the same. */
  lemma NeverEnds(now: Index, last: Index, lookAhead: nat, add: int, rad: real)
    requires rad > 0.0 ==> LengthLeft(now, last) >= 3
    ensures StepsAdvance(now, last, lookAhead, add, rad) <==> UnendedAdvance(now, last, lookAhead, add, rad)
  {
    hide Iterated, Advances;
  }

  lemma EnoughAdvances(now: Index, last: Index, lookAhead: nat, add: int, rad: real)
    requires RouteLen(now, last) >= 2 && lookAhead >= 1 && EnoughPending(now, last, lookAhead)
    ensures UnendedAdvance(now, last, lookAhead, add, rad)
  {
    hide Iterated, Advances, Ends, EnoughPending;
    forall p: Pilot, vehicle: Point, p': Pilot
      | && p.ring.now == now && p.ring.last == last && p.active && Orderly(p) && !Ends(p.ring, false, vehicle, rad)
        && Iterated(p, false, lookAhead, add, vehicle, rad, p')
      ensures p'.active && Advances(p.ring, p'.ring.now) && p'.ring == p.ring.(now := p'.ring.now)
    {
      StepAdvances(p, lookAhead, add, vehicle, rad, p');
    }
  }

  lemma TooFewPending(now: Index, last: Index, lookAhead: nat, add: int, rad: real)
    requires RouteLen(now, last) >= 2 && lookAhead >= 1 && !EnoughPending(now, last, lookAhead)
    ensures !UnendedAdvance(now, last, lookAhead, add, rad)
  {
    hide Iterated, Advances, Ends, Detour, Flat, Segment;
    var away := if rad > 1.0 then rad else 1.0;
    if Distance(now, last) == 1 {
      OnePendingStepsBack(last, lookAhead, add, rad, away);
      var r, vehicle := Ring(Detour(last, away), last - 1, last, true, None), Point(10.0, 0.0);
      assert Iterated(Pilot(r, true, true), false, lookAhead, add, vehicle, rad, Pilot(Restarted(r), true, true));
    } else {
      NonePendingStartsOver(last, lookAhead, add, rad, away);
      var r, vehicle := Ring(Flat(), last, last, true, None), Point(away, 0.0);
      assert Iterated(Pilot(r, true, true), false, lookAhead, add, vehicle, rad, Pilot(Restarted(r), true, true));
    }
  }

  // ----- runs of the thread

  /** The thread by itself: where it found the vehicle, and at which radius it looked. */
  ghost predicate ThreadRun(ps: seq<Pilot>, lookAhead: nat, add: int, seen: seq<(Point, real)>) {
    && |ps| == |seen| + 1
    && forall i | 0 <= i < |seen| :: Iterated(ps[i], false, lookAhead, add, seen[i].0, seen[i].1, ps[i + 1])
  }

  lemma StepKeepsTwo(p: Pilot, lookAhead: nat, add: int, vehicle: Point, rad: real, p': Pilot)
    requires p.active && Orderly(p) && |Pending(p.ring)| >= 2 && Iterated(p, false, lookAhead, add, vehicle, rad, p')
    ensures if p'.active then Advances(p.ring, p'.ring.now) && p'.ring == p.ring.(now := p'.ring.now) && |Pending(p'.ring)| >= 2
            else p' == Pilot(Restarted(p.ring), false, false)
  {
    hide Followed, Advances, Ends, Near, Segment;
    var r := p.ring;
    SegmentLength(r.route, r.now, r.last);
    if !Ends(r, false, vehicle, rad) {
      if p.started {
        TwoPendingAdvance(r, Ahead(lookAhead, RouteLen(r.now, r.last)), vehicle, p'.ring.now);
      } else {
        EndAdvances(r);
      }
    }
  }

  /** q is some last part of what was pending. */
  ghost predicate Rest(q: seq<RoutePoint>, all: seq<RoutePoint>) {
    exists k: nat :: k <= |all| && q == all[k..]
  }

  lemma RestOfRest(r: Ring, now: Index, all: seq<RoutePoint>)
    requires Rest(Pending(r), all) && Advances(r, now)
    ensures Rest(Pending(r.(now := now)), all)
  {
    hide Segment, Apply;
    var m: nat :| m <= |all| && Pending(r) == all[m..];
    var k: nat :| k <= |Pending(r)| && r.(now := now) == Apply(r, false, Advance(k));
    AdvanceKeeps(r, k);
    assert all[m..][k..] == all[m + k..];
  }

  /** On a route that does not repeat, however the vehicle moves: the points are passed in order, with two or more still
      pending, until the thread ends the route, and from then on it leaves it alone. */
  lemma {:induction false} RunAdvances(ps: seq<Pilot>, lookAhead: nat, add: int, seen: seq<(Point, real)>, i: nat)
    requires ThreadRun(ps, lookAhead, add, seen) && i < |ps|
    requires ps[0].active && Orderly(ps[0]) && |Pending(ps[0].ring)| >= 2
    ensures Orderly(ps[i])
    ensures if ps[i].active
            then
              && ps[i].ring == ps[0].ring.(now := ps[i].ring.now)
              && |Pending(ps[i].ring)| >= 2 && Rest(Pending(ps[i].ring), Pending(ps[0].ring))
            else ps[i] == Pilot(Restarted(ps[0].ring), false, false)
  {
    hide Iterated, Advances, Rest;
    if i == 0 {
      RestAll(Pending(ps[0].ring));
    } else {
      RunAdvances(ps, lookAhead, add, seen, i - 1);
      var p, p', at := ps[i - 1], ps[i - 1 + 1], seen[i - 1];
      IteratedOrderly(p, false, lookAhead, add, at.0, at.1, p');
      if p.active {
        StepKeepsTwo(p, lookAhead, add, at.0, at.1, p');
        if p'.active {
          RestOfRest(p.ring, p'.ring.now, Pending(ps[0].ring));
        }
      } else {
        Inactive(p, lookAhead, add, at.0, at.1, p');
      }
    }
  }

  lemma RestAll(q: seq<RoutePoint>)
    ensures Rest(q, q)
  {
    assert q == q[0..];
  }

  lemma Inactive(p: Pilot, lookAhead: nat, add: int, vehicle: Point, rad: real, p': Pilot)
    requires !p.active && Iterated(p, false, lookAhead, add, vehicle, rad, p')
    ensures p' == p
  {
  }

  /** An untimed replacement of a route in progress leaves one point pending, so that the next step may go back. */
  lemma UntimedReplaceLeavesOne(r: Ring, p: RoutePoint)
    requires p.time <= 0 && Pending(r) != [] && !Duplicate(r.rx, p, true)
    ensures Pending(Replace(r, false, p).0) == [p] && Replace(r, false, p).0.now == r.now
  {
    ReplaceRefines(r, false, p);
    KeptIsPrefix(Pending(r), p);
    hide Pending, Replace, Kept;
    assert [] + [p] == [p];
  }

  /** The search for the goal point stays between pending points if and only if it looks no further ahead than they
      reach, or meets something between them. */
  lemma GoalStaysAhead(r: Ring, vehicle: Point, rad: real, ahead: nat, found: bool, goal: Point, n: nat)
    requires RouteLen(r.now, r.last) >= 2 && ahead >= 1
    requires GoalAmong(r, vehicle, rad, n, found, goal) && GoalVisits(r, false, vehicle, rad, ahead, found, n)
    ensures n + 1 <= |Pending(r)| <==>
              ahead + 1 <= |Pending(r)| || exists k: nat :: k + 1 < |Pending(r)| && Met(r, vehicle, rad, k)
  {
    hide Node, HitAhead, Segment;
    var d := |Pending(r)|;
    if d > 0 {
      LastNode(r);
    }
    if n + 1 <= d && d < ahead + 1 {
      var k: nat, t: real :| Furthest(r, vehicle, rad, n, k, t);
      assert k + 1 < d && Met(r, vehicle, rad, k);
    }
  }
}
