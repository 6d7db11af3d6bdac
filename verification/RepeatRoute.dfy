/** A repeating route: the points in use are a list, and the thread goes round it. */
module RepeatRoute {
  import opened Geometry
  import opened Wrappers
  import opened Route
  import opened RouteTimes
  import opened RouteSteps

  datatype Act = Extend(p: RoutePoint, first: bool) | Shorten | Empty | Substitute(p: RoutePoint) | Step(k: nat, n: nat, add: int)
               | Restart

  /** One operation on the ring. A step of the thread looks at n segments, moving the times of those that have been
      passed to the next lap, and goes k points round the route; a restart goes back to its start. */
  function ActRing(r: Ring, a: Act): Ring {
    match a
    case Extend(p, first) => Add(r, true, p, first).0
    case Shorten => Pop(r)
    case Empty => Clear(r)
    case Substitute(p) => Replace(r, true, p).0
    case Step(k, n, add) => if RouteLen(r.now, r.last) >= 2 then Timed(r, true, n, add).(now := Node(r, k)) else r
    case Restart => r.(now := 0)
  }

  /** All points of the route, those already passed included, and how many have been passed. */
  datatype Loop = Loop(points: seq<RoutePoint>, now: nat, hasPrev: bool, rx: Option<RoutePoint>)

  function LoopOf(r: Ring): Loop {
    Loop(r.route[..r.last], r.now, r.hasPrev, r.rx)
  }

  /** A point is appended; when the point followed has lost the one before it, that place takes a copy. */
  function Extended(l: Loop, p: RoutePoint, first: bool): Loop {
    if Duplicate(l.rx, p, first) then l
    else
      var points := if !l.hasPrev && 0 < l.now <= |l.points| then l.points[l.now - 1 := p] else l.points;
      Loop(points + [p], l.now, true, if first then Some(p) else l.rx)
  }

  /** The same operation on the list; stale is the time left in the slot behind the last point. */
  function ActLoop(l: Loop, a: Act, stale: int): Loop
    requires l.now <= |l.points|
  {
    match a
    case Extend(p, first) => Extended(l, p, first)
    case Shorten => if l.now < |l.points| then l.(points := l.points[..|l.points| - 1]) else l
    case Empty => Loop([], 0, false, None)
    case Substitute(p) =>
      var kept := Kept(l.points[l.now..], p);
      var l1 := l.(points := l.points[..l.now] + kept, hasPrev := kept != []);
      if p.time <= 0 || kept != [] || p.time >= (if l.now < |l.points| then l.points[l.now].time else stale) then Extended(l1, p, true)
      else l1
    case Step(k, n, add) =>
      if |l.points| >= 2
      then l.(points := Stamped(l.points, l.now, |l.points|, n, add), now := (l.now + k) % |l.points|)
      else l
    case Restart => l.(now := 0)
  }

  /** There is room for an added point. */
  predicate Legal(l: Loop, a: Act) {
    match a
    case Extend(_, _) => |l.points| < 1999
    case Substitute(_) => l.now < |l.points| || |l.points| < 1999
    case _ => true
  }

  lemma ExtendRefines(r: Ring, p: RoutePoint, first: bool)
    requires r.now <= r.last < AP_ROUTE_SIZE - 1
    ensures var r' := Add(r, true, p, first).0; r'.now <= r'.last && LoopOf(r') == Extended(LoopOf(r), p, first)
  {
    hide Duplicate;
    var s := Stored(r, true, p);
    var points := r.route[..r.last];
    var behind := if !r.hasPrev && 0 < r.now then points[r.now - 1 := p] else points;
    assert s[..r.last + 1] == behind + [p];
  }

  /** What the walk back leaves, as lists. */
  lemma RewoundLoop(r: Ring, p: RoutePoint)
    requires r.now <= r.last
    ensures var last := Rewind(r.route, r.now, r.last, p);
            && r.now <= last <= r.last && (r.now < r.last ==> last < r.last)
            && Kept(r.route[..r.last][r.now..], p) == r.route[r.now..last]
  {
    RewindRange(r.route, r.now, r.last, p);
    RewindKeeps(r.route, r.now, r.last, p);
    hide Rewind, Kept;
    assert r.route[..r.last][r.now..] == r.route[r.now..r.last];
  }

  lemma CutLoop(route: Store, now: Index, last: Index, end: Index)
    requires now <= last <= end
    ensures route[..last] == route[..end][..now] + route[now..last]
  {
  }

  lemma SubstituteRefines(r: Ring, p: RoutePoint)
    requires r.now < r.last || r.now == r.last < AP_ROUTE_SIZE - 1
    ensures var r' := Replace(r, true, p).0;
            r'.now <= r'.last && LoopOf(r') == ActLoop(LoopOf(r), Act.Substitute(p), r.route[r.last].time)
  {
    hide Rewind, Kept, Duplicate, Stored, Add, Extended;
    var last := Rewind(r.route, r.now, r.last, p);
    RewoundLoop(r, p);
    CutLoop(r.route, r.now, last, r.last);
    ExtendRefines(r.(last := last, hasPrev := last != r.now), p, true);
  }

  lemma StepRefines(r: Ring, k: nat, n: nat, add: int)
    requires r.now <= r.last
    ensures var r' := ActRing(r, Step(k, n, add));
            r'.now <= r'.last && forall stale :: LoopOf(r') == ActLoop(LoopOf(r), Step(k, n, add), stale)
  {
    if r.last >= 2 {
      StampedPrefix(r.route, r.now, r.last, n, add);
    }
    hide Stamped;
  }

  /** Each operation does to the ring what it does to the list, and the route never wraps round the buffer. */
  lemma ActRefines(r: Ring, a: Act)
    requires r.now <= r.last && Legal(LoopOf(r), a)
    ensures ActRing(r, a).now <= ActRing(r, a).last && LoopOf(ActRing(r, a)) == ActLoop(LoopOf(r), a, r.route[r.last].time)
  {
    hide Add, Replace, Extended, Kept, Node, Stamped;
    match a
    case Extend(p, first) => ExtendRefines(r, p, first);
    case Shorten => assert r.now < r.last ==> r.route[..r.last][..r.last - 1] == r.route[..r.last - 1];
    case Empty =>
    case Substitute(p) => SubstituteRefines(r, p);
    case Step(k, n, add) => StepRefines(r, k, n, add);
    case Restart =>
  }

  /** What an iteration of the thread does to a repeating route is such a step, or, while the start of the route has not
      been reached, such a restart; and it changes no time exactly when no segment it looks at ends before it starts. */
  lemma FollowedIsStep(p: Pilot, lookAhead: nat, add: int, vehicle: Point, rad: real, p': Pilot)
    requires p.active && RouteLen(p.ring.now, p.ring.last) >= 2 && Iterated(p, true, lookAhead, add, vehicle, rad, p')
    ensures p'.active && if p.started then SomeStep(p.ring, Ahead(lookAhead, RouteLen(p.ring.now, p.ring.last)), add, p'.ring)
                         else p'.ring == ActRing(p.ring, Act.Restart)
    ensures var r, n := p.ring, Ahead(lookAhead, RouteLen(p.ring.now, p.ring.last));
            p.started ==>
              (p'.ring.route == r.route <==> forall m: nat | m < n :: !RaisedAt(r.route, r.now, Cycle(r.now, r.last), m, add))
  {
    hide Node, Off, Stamped, RaisedAt, Near;
    var r, n := p.ring, Ahead(lookAhead, RouteLen(p.ring.now, p.ring.last));
    UnchangedIff(r.route, r.now, Cycle(r.now, r.last), n, add);
    if p.started {
      var m: nat, k: nat :| Visits(r, true, n, m) && ClosestAhead(r, vehicle, m, k) && p'.ring.now == Node(r, k);
      assert k < n && p'.ring == ActRing(r, Step(k, n, add));
    }
  }

  ghost predicate SomeStep(r: Ring, n: nat, add: int, r': Ring) {
    exists k: nat :: k < n && r' == ActRing(r, Step(k, n, add))
  }

  /** A lap changes what a replacement leaves: with times 100, 200 and 300 a point with time 150 replaces them all, but
      after the first point has been given its time of the next lap it is too old. */
  lemma LapChangesReplacement(a: RoutePoint, b: RoutePoint, c: RoutePoint, p: RoutePoint)
    requires (a.time, b.time, c.time, p.time) == (100, 200, 300, 150)
    ensures var l := Loop([a, b, c], 2, true, None);
            var next, later := l.(now := 0), ActLoop(l, Step(1, 1, 60000), 0);
            && later == next.(points := [a.(time := 60100), b, c])
            && ActLoop(next, Act.Substitute(p), 0).points == [p] && ActLoop(later, Act.Substitute(p), 0).points == []
  {
    var s := [a, b, c];
    assert Stamped(s, 2, 3, 0, 60000) == s;
    assert Stamped(s, 2, 3, 1, 60000) == [a.(time := 60100), b, c];
    KeptNone(a, b, c, p);
    KeptNone(a.(time := 60100), b, c, p);
  }

  lemma KeptNone(a: RoutePoint, b: RoutePoint, c: RoutePoint, p: RoutePoint)
    requires b.time > p.time && c.time > p.time && p.time > 0
    ensures Kept([a, b, c][0..], p) == [] && [][..0] + Kept([a, b, c][0..], p) == []
  {
    assert [a, b, c][0..] == [a, b, c] && [a, b, c][..2] == [a, b] && [a, b][..1] == [a];
    assert [a][..0] == [] && Kept([a], p) == [];
    assert Kept([a, b], p) == Kept([a], p) && Kept([a, b, c], p) == Kept([a, b], p);
  }

  function RunRing(r: Ring, acts: seq<Act>): Ring
    decreases |acts|
  {
    if acts == [] then r else RunRing(ActRing(r, acts[0]), acts[1..])
  }

  /** The times standing behind the last point when each of the operations comes. */
  function Stales(r: Ring, acts: seq<Act>): (times: seq<int>)
    ensures |times| == |acts|
    decreases |acts|
  {
    if acts == [] then [] else [r.route[r.last].time] + Stales(ActRing(r, acts[0]), acts[1..])
  }

  lemma ActInside(l: Loop, a: Act, stale: int)
    requires l.now <= |l.points|
    ensures ActLoop(l, a, stale).now <= |ActLoop(l, a, stale).points|
  {
    hide Kept, Duplicate;
  }

  function RunLoop(l: Loop, acts: seq<Act>, stales: seq<int>): Loop
    requires l.now <= |l.points| && |stales| == |acts|
    decreases |acts|
  {
    if acts == [] then l
    else
      ActInside(l, acts[0], stales[0]);
      RunLoop(ActLoop(l, acts[0], stales[0]), acts[1..], stales[1..])
  }

  predicate AllLegal(l: Loop, acts: seq<Act>, stales: seq<int>)
    requires l.now <= |l.points| && |stales| == |acts|
    decreases |acts|
  {
    if acts == [] then true
    else
      ActInside(l, acts[0], stales[0]);
      Legal(l, acts[0]) && AllLegal(ActLoop(l, acts[0], stales[0]), acts[1..], stales[1..])
  }

  /** Any run on a repeating route, thread steps included, leaves the ring holding what the list holds. */
  lemma {:induction false} RunRefinesLoop(r: Ring, acts: seq<Act>)
    requires r.now <= r.last && AllLegal(LoopOf(r), acts, Stales(r, acts))
    ensures RunRing(r, acts).now <= RunRing(r, acts).last && LoopOf(RunRing(r, acts)) == RunLoop(LoopOf(r), acts, Stales(r, acts))
    decreases |acts|
  {
    hide ActRing, ActLoop, Legal;
    if acts != [] {
      ActRefines(r, acts[0]);
      assert Stales(r, acts)[1..] == Stales(ActRing(r, acts[0]), acts[1..]);
      RunRefinesLoop(ActRing(r, acts[0]), acts[1..]);
    }
  }

  /** From a cleared route, up to 1999 points. */
  lemma ClearedRun(r: Ring, acts: seq<Act>)
    requires AllLegal(Loop([], 0, false, None), acts, Stales(Clear(r), acts))
    ensures LoopOf(RunRing(Clear(r), acts)) == RunLoop(Loop([], 0, false, None), acts, Stales(Clear(r), acts))
  {
    hide RunRing, RunLoop, AllLegal, Stales;
    assert LoopOf(Clear(r)) == Loop([], 0, false, None);
    RunRefinesLoop(Clear(r), acts);
  }
}
