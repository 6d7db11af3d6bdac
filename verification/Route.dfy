/** The autopilot's route: a ring of points, and the part of it still to be followed. */
module Route {
  import opened Geometry
  import opened Arithmetic
  import opened Wrappers

  const AP_ROUTE_SIZE: nat := 2000

  datatype RoutePoint = RoutePoint(pos: Point, speed: real, time: int, attributes: int)

  const NOWHERE := RoutePoint(Point(0.0, 0.0), 0.0, 0, 0)

  type Index = i: nat | i < AP_ROUTE_SIZE

  type Store = s: seq<RoutePoint> | |s| == AP_ROUTE_SIZE witness seq(AP_ROUTE_SIZE, _ => NOWHERE)

  /** `last` is behind the last point; `rx` is the last point received as the first of its packet. */
  datatype Ring = Ring(route: Store, now: Index, last: Index, hasPrev: bool, rx: Option<RoutePoint>)

  function Next(i: Index): Index {
    if i + 1 >= AP_ROUTE_SIZE then 0 else i + 1
  }

  function Prev(i: Index): Index {
    if i - 1 < 0 then AP_ROUTE_SIZE - 1 else i - 1
  }

  /** The points still to be followed, in order. */
  function Segment(route: Store, now: Index, last: Index): seq<RoutePoint> {
    if now <= last then route[now..last] else route[now..] + route[..last]
  }

  function Pending(r: Ring): seq<RoutePoint> {
    Segment(r.route, r.now, r.last)
  }

  // ----- the operations

  predicate Duplicate(rx: Option<RoutePoint>, p: RoutePoint, first: bool) {
    first && rx.Some? && Dist2(rx.value.pos, p.pos) < 0.00000001
  }

  /** The ring's contents after p is added, with the extra copies the program makes. */
  function Stored(r: Ring, repeat: bool, p: RoutePoint): Store {
    var s1 := r.route[r.last := p];
    var s2 := if r.hasPrev then s1 else s1[Prev(r.now) := p];
    if repeat then s2[AP_ROUTE_SIZE - 1 := p] else s2
  }

  /** add_point: the new ring, and whether the point was taken. */
  function Add(r: Ring, repeat: bool, p: RoutePoint, first: bool): (Ring, bool) {
    if Duplicate(r.rx, p, first) then (r, false)
    else (Ring(Stored(r, repeat, p), r.now, Next(r.last), true, if first then Some(p) else r.rx), true)
  }

  /** autopilot_remove_last_point. */
  function Pop(r: Ring): Ring {
    if r.last != r.now then r.(last := Prev(r.last)) else r
  }

  /** clear_route. */
  function Clear(r: Ring): Ring {
    r.(now := 0, last := 0, hasPrev := false, rx := None)
  }

  /** What reset_state does to the route. */
  function Restarted(r: Ring): Ring {
    r.(now := 0)
  }

  function Distance(now: Index, last: Index): nat {
    if now <= last then last - now else AP_ROUTE_SIZE - now + last
  }

  /** Where the walk back from the end stops when p replaces the newer part of the route. */
  function Rewind(route: Store, now: Index, last: Index, p: RoutePoint): Index
    decreases Distance(now, last)
  {
    if last == now then last
    else
      var l := Prev(last);
      if p.time > 0 && p.time >= route[l].time then l else Rewind(route, now, l, p)
  }

  /** autopilot_replace_route while the autopilot is active. */
  function Replace(r: Ring, repeat: bool, p: RoutePoint): (Ring, bool) {
    var last := Rewind(r.route, r.now, r.last, p);
    var r1 := r.(last := last, hasPrev := last != r.now);
    if p.time <= 0 || last != r.now || p.time >= r.route[last].time then (Add(r1, repeat, p, true).0, true) else (r1, false)
  }

  /** A point is taken unless it comes first in its packet and lies less than a tenth of a millimetre from the last point
      that did: d is the distance between the two. A point that is not taken changes nothing. */
  lemma AddTaken(r: Ring, repeat: bool, p: RoutePoint, first: bool, d: real)
    requires d >= 0.0
    requires r.rx.Some? ==>
               var (dx, dy) := (r.rx.value.pos.px - p.pos.px, r.rx.value.pos.py - p.pos.py); d * d == dx * dx + dy * dy
    ensures Add(r, repeat, p, first).1 <==> !first || r.rx == None || d >= 0.0001
    ensures !Add(r, repeat, p, first).1 ==> Add(r, repeat, p, first).0 == r
  {
    if first && r.rx.Some? {
      var q := r.rx.value.pos;
      SameSquares(q, p.pos, d);
      SquareLess(d, 0.0001);
      assert Square(0.0001) == 0.00000001;
      hide Square, Dist2;
    }
  }

  lemma SameSquares(q: Point, p: Point, d: real)
    requires d * d == (q.px - p.px) * (q.px - p.px) + (q.py - p.py) * (q.py - p.py)
    ensures Dist2(q, p) == Square(d)
  {
    assert (p.px - q.px) * (p.px - q.px) == (q.px - p.px) * (q.px - p.px);
    assert (p.py - q.py) * (p.py - q.py) == (q.py - p.py) * (q.py - p.py);
  }

  /** The same packet received twice in a row is taken once. */
  lemma AddTwice(r: Ring, repeat: bool, p: RoutePoint)
    ensures Add(Add(r, repeat, p, true).0, repeat, p, true) == (Add(r, repeat, p, true).0, false)
  {
    assert Dist2(p.pos, p.pos) == 0.0;
  }

  // ----- the ring is a list

  lemma AddSegment(s: Store, now: Index, last: Index, p: RoutePoint)
    requires Distance(now, last) < AP_ROUTE_SIZE - 1
    ensures Segment(s[last := p], now, Next(last)) == Segment(s, now, last) + [p]
  {
    var t := s[last := p];
    if now <= last {
      if last + 1 == AP_ROUTE_SIZE {
        assert t[now..] == s[now..last] + [p];
      } else {
        assert t[now..last + 1] == s[now..last] + [p];
      }
    } else {
      assert t[now..] == s[now..] && t[..last + 1] == s[..last] + [p];
    }
  }

  /** The copy put before the first pending point is not itself pending. */
  lemma PrevHarmless(s: Store, now: Index, last: Index, p: RoutePoint)
    requires Distance(now, last) < AP_ROUTE_SIZE - 1 && s[last] == p
    ensures Segment(s[Prev(now) := p], now, Next(last)) == Segment(s, now, Next(last))
    ensures now > last ==> s[Prev(now) := p][AP_ROUTE_SIZE - 1] == s[AP_ROUTE_SIZE - 1]
  {
  }

  lemma LastSlot(s: Store, now: Index, last: Index, p: RoutePoint)
    requires Distance(now, last) < AP_ROUTE_SIZE - 1 && s[last] == p
    ensures Segment(s[AP_ROUTE_SIZE - 1 := p], now, Next(last)) == Segment(s, now, Next(last)) <==>
              (now > last ==> s[AP_ROUTE_SIZE - 1] == p)
  {
    var n := AP_ROUTE_SIZE - 1;
    var t := s[n := p];
    if s[n] == p {
      assert t == s;
    } else if now > last {
      var a, b := Segment(t, now, Next(last)), Segment(s, now, Next(last));
      assert a[n - now] == t[n] && b[n - now] == s[n];
    }
  }

  lemma SegmentLength(s: Store, now: Index, last: Index)
    ensures |Segment(s, now, last)| == Distance(now, last)
  {
  }

  /** An accepted point is appended to the pending points if and only if there is room for it and, with repeated
      routes, the copy kept in the last slot does not fall on a different pending point. */
  lemma AddRefines(r: Ring, repeat: bool, p: RoutePoint)
    ensures Segment(Stored(r, repeat, p), r.now, Next(r.last)) == Pending(r) + [p] <==>
              Distance(r.now, r.last) < 1999 && (repeat && r.now > r.last ==> r.route[1999] == p)
  {
    hide Segment;
    SegmentLength(r.route, r.now, r.last);
    SegmentLength(Stored(r, repeat, p), r.now, Next(r.last));
    if Distance(r.now, r.last) < AP_ROUTE_SIZE - 1 {
      var s1 := r.route[r.last := p];
      AddSegment(r.route, r.now, r.last, p);
      PrevHarmless(s1, r.now, r.last, p);
      var s2 := if r.hasPrev then s1 else s1[Prev(r.now) := p];
      LastSlot(s2, r.now, r.last, p);
    }
  }

  /** Looking one point back from the first pending point finds a valid point: the first point added, or, when routes
      repeat and none has been passed, the end of the route; and later additions leave it there. */
  lemma PreviousPoint(r: Ring, repeat: bool, p: RoutePoint, first: bool)
    requires Distance(r.now, r.last) < AP_ROUTE_SIZE - 1 && !Duplicate(r.rx, p, first)
    ensures var r' := Add(r, repeat, p, first).0;
            && r'.hasPrev
            && (repeat && r.now == 0 ==> r'.route[Prev(r'.now)] == p && Pending(r') != [] && Pending(r')[|Pending(r')| - 1] == p)
            && (!r.hasPrev ==> r'.route[Prev(r'.now)] == p)
            && (r.hasPrev && !(repeat && r.now == 0) ==> r'.route[Prev(r'.now)] == r.route[Prev(r.now)])
  {
    if repeat && r.now == 0 {
      AddRefines(r, repeat, p);
    }
  }

  lemma PopRefines(r: Ring)
    ensures Pending(Pop(r)) == if Pending(r) == [] then [] else Pending(r)[..|Pending(r)| - 1]
  {
    if r.last != r.now {
      SegmentBack(r.route, r.now, r.last);
    }
  }

  lemma SegmentBack(s: Store, now: Index, last: Index)
    requires last != now
    ensures Segment(s, now, last) == Segment(s, now, Prev(last)) + [s[Prev(last)]]
    ensures Distance(now, Prev(last)) == Distance(now, last) - 1
  {
    if last == 0 {
      assert s[now..] == s[now..AP_ROUTE_SIZE - 1] + [s[AP_ROUTE_SIZE - 1]];
    }
  }

  // ----- replacing the newer part of the route

  predicate Sorted(q: seq<RoutePoint>) {
    forall i, j | 0 <= i < j < |q| :: q[i].time <= q[j].time
  }

  /** The points that stay when p arrives: those before the newest one that is not newer than p. */
  function Kept(q: seq<RoutePoint>, p: RoutePoint): seq<RoutePoint>
    decreases |q|
  {
    if q == [] then []
    else
      var n := |q| - 1;
      if p.time > 0 && p.time >= q[n].time then q[..n] else Kept(q[..n], p)
  }

  lemma {:induction false} RewindKeeps(s: Store, now: Index, last: Index, p: RoutePoint)
    ensures var l := Rewind(s, now, last, p);
            Segment(s, now, l) == Kept(Segment(s, now, last), p) && Distance(now, l) <= Distance(now, last)
    decreases Distance(now, last)
  {
    if last != now {
      SegmentBack(s, now, last);
      var q := Segment(s, now, last);
      assert q[..|q| - 1] == Segment(s, now, Prev(last));
      RewindKeeps(s, now, Prev(last), p);
    }
  }

  lemma {:induction false} KeptIsPrefix(q: seq<RoutePoint>, p: RoutePoint)
    ensures Kept(q, p) <= q && (q != [] ==> |Kept(q, p)| < |q|)
    ensures p.time > 0 ==> forall i | |Kept(q, p)| < i < |q| :: q[i].time > p.time
    ensures p.time > 0 && Kept(q, p) != [] ==> q[|Kept(q, p)|].time <= p.time
    ensures p.time <= 0 ==> Kept(q, p) == []
    decreases |q|
  {
    if q != [] {
      KeptIsPrefix(q[..|q| - 1], p);
    }
  }

  /** How many points of q are not newer than p. */
  function Older(q: seq<RoutePoint>, p: RoutePoint): (n: nat)
    ensures n <= |q|
  {
    if q == [] then 0 else Older(q[..|q| - 1], p) + (if q[|q| - 1].time <= p.time then 1 else 0)
  }

  lemma {:induction false} OlderSplit(q: seq<RoutePoint>, p: RoutePoint, k: nat)
    requires k <= |q| && (forall i | 0 <= i < k :: q[i].time <= p.time) && forall i | k <= i < |q| :: q[i].time > p.time
    ensures Older(q, p) == k
    decreases |q|
  {
    if q != [] {
      OlderSplit(q[..|q| - 1], p, if k == |q| then k - 1 else k);
    }
  }

  /** On a sorted route exactly the newest of the points not newer than p goes too: the program drops one point
      more than the newer part of the route, unless there is none to drop. */
  lemma KeptCount(q: seq<RoutePoint>, p: RoutePoint)
    requires Sorted(q) && p.time > 0
    ensures |Kept(q, p)| == if Older(q, p) == 0 then 0 else Older(q, p) - 1
    ensures Kept(q, p) == q[..Older(q, p)] <==> Older(q, p) == 0
  {
    KeptIsPrefix(q, p);
    var n := |Kept(q, p)|;
    if q == [] {
      OlderSplit(q, p, 0);
    } else if q[n].time <= p.time {
      OlderSplit(q, p, n + 1);
    } else {
      OlderSplit(q, p, 0);
    }
  }

  lemma {:induction false} RewindRange(s: Store, now: Index, last: Index, p: RoutePoint)
    requires now <= last
    ensures now <= Rewind(s, now, last, p) <= last && (last != now ==> Rewind(s, now, last, p) < last)
    decreases last - now
  {
    if last != now {
      RewindRange(s, now, Prev(last), p);
    }
  }

  /** What is pending after p has been offered as a replacement: the kept points, and p unless it is older than
      the point being followed or a duplicate of the point received before it. */
  lemma ReplaceRefines(r: Ring, repeat: bool, p: RoutePoint)
    requires repeat ==> r.now <= r.last
    ensures var kept := Kept(Pending(r), p);
            var (r', taken) := Replace(r, repeat, p);
            && taken == (p.time <= 0 || kept != [] || p.time >= r.route[if Pending(r) == [] then r.last else r.now].time)
            && (var far := r.rx == None || Dist2(r.rx.value.pos, p.pos) >= 0.00000001;
                Pending(r') == kept + if taken && far then [p] else [])
            && r'.now == r.now
  {
    hide Segment, Kept, Rewind, Stored, Dist2;
    var last := Rewind(r.route, r.now, r.last, p);
    RewoundList(r, p);
    SegmentLength(r.route, r.now, last);
    SegmentLength(r.route, r.now, r.last);
    var r1 := r.(last := last, hasPrev := last != r.now);
    AddRefines(r1, repeat, p);
  }

  /** When a replacement leaves only the new point, it is also the point before itself; otherwise the point before the
      first pending one stays. */
  lemma ReplacePrevious(r: Ring, p: RoutePoint)
    requires !Duplicate(r.rx, p, true)
    ensures var (r', taken) := Replace(r, false, p);
            taken ==> r'.route[Prev(r'.now)] == if Kept(Pending(r), p) == [] then p else r.route[Prev(r.now)]
  {
    RewindKeeps(r.route, r.now, r.last, p);
    var last := Rewind(r.route, r.now, r.last, p);
    SegmentLength(r.route, r.now, last);
    SegmentLength(r.route, r.now, r.last);
    KeptIsPrefix(Pending(r), p);
    hide Segment, Kept, Rewind;
    PreviousPoint(r.(last := last, hasPrev := last != r.now), false, p, true);
  }

  /** Replacing keeps a time-sorted route time-sorted, changes no kept point, and leaves it no longer than it
      was, but for the first point. */
  lemma ReplaceSorted(r: Ring, repeat: bool, p: RoutePoint)
    requires Sorted(Pending(r)) && (repeat ==> r.now <= r.last)
    ensures var q, q' := Pending(r), Pending(Replace(r, repeat, p).0);
            Sorted(q') && (|q'| <= |q| || |q'| <= 1) && Kept(q, p) <= q && Kept(q, p) <= q'
  {
    ReplaceRefines(r, repeat, p);
    var q := Pending(r);
    KeptIsPrefix(q, p);
    hide Pending, Replace, Kept;
    var k := Kept(q, p);
    if p.time > 0 && k != [] {
      assert forall i | 0 <= i < |k| :: k[i] == q[i] && q[i].time <= q[|k|].time;
    }
  }

  // ----- runs

  datatype Op = Append(p: RoutePoint, first: bool) | Remove | Reset | Restart | Substitute(p: RoutePoint) | Advance(k: nat)

  /** One operation on the ring; Advance is a step of the route thread that drops k pending points from the front. */
  function Apply(r: Ring, repeat: bool, op: Op): Ring {
    match op
    case Append(p, first) => Add(r, repeat, p, first).0
    case Remove => Pop(r)
    case Reset => Clear(r)
    case Restart => Restarted(r)
    case Substitute(p) => Replace(r, repeat, p).0
    case Advance(k) => r.(now := (r.now + k) % AP_ROUTE_SIZE)
  }

  /** The pending points as a list, what stands in the slots from the start of the buffer up to the first of them, and
      the point last received as the first of its packet. */
  datatype Listed = Listed(passed: seq<RoutePoint>, q: seq<RoutePoint>, hasPrev: bool, rx: Option<RoutePoint>)

  function List(r: Ring): Listed {
    Listed(r.route[..r.now], Pending(r), r.hasPrev, r.rx)
  }

  /** Point p is added: behind the end of the buffer it takes the place of a passed point, and when the first pending
      point has lost the one before it, that place takes a copy. */
  function Overwritten(l: Listed, p: RoutePoint): seq<RoutePoint> {
    var at := |l.passed| + |l.q| - AP_ROUTE_SIZE;
    var s := if 0 <= at < |l.passed| then l.passed[at := p] else l.passed;
    if !l.hasPrev && s != [] then s[|s| - 1 := p] else s
  }

  function Offer(l: Listed, p: RoutePoint, first: bool): Listed {
    if Duplicate(l.rx, p, first) then l
    else Listed(Overwritten(l, p), l.q + [p], true, if first then Some(p) else l.rx)
  }

  /** k pending points have been passed, and only those behind the end of the buffer stand before the others then. */
  function Passed(l: Listed, k: nat): seq<RoutePoint>
    requires k <= |l.q|
  {
    var left := AP_ROUTE_SIZE - |l.passed|;
    if k < left || left < 0 then l.passed + l.q[..k] else l.q[left..k]
  }

  /** From the start of the buffer: everything again, or, when the points have wrapped round, those behind the end. */
  function FromStart(l: Listed): seq<RoutePoint> {
    var left := AP_ROUTE_SIZE - |l.passed|;
    if 0 <= left <= |l.q| then l.q[left..] else l.passed + l.q
  }

  /** The same on a list. A timed replacement with nothing pending is compared with a slot that is not in use, behind the
      last point: stale is the time left there. */
  function ApplyList(l: Listed, op: Op, stale: int): Listed {
    match op
    case Append(p, first) => Offer(l, p, first)
    case Remove => l.(q := if l.q == [] then [] else l.q[..|l.q| - 1])
    case Reset => Listed([], [], false, None)
    case Restart => l.(passed := [], q := FromStart(l))
    case Substitute(p) =>
      var kept := Kept(l.q, p);
      var l1 := l.(q := kept, hasPrev := kept != []);
      if p.time <= 0 || kept != [] || p.time >= (if l.q == [] then stale else l.q[0].time) then Offer(l1, p, true) else l1
    case Advance(k) => if k <= |l.q| then l.(passed := Passed(l, k), q := l.q[k..]) else l
  }

  /** There is room for an added point, and the thread does not move past the end. */
  predicate Legal(l: Listed, op: Op) {
    match op
    case Append(_, _) => |l.q| < 1999
    case Advance(k) => k <= |l.q|
    case _ => true
  }

  lemma SegmentFront(s: Store, now: Index, last: Index, k: nat, now': Index)
    requires k <= Distance(now, last) && now' == if now + k < AP_ROUTE_SIZE then now + k else now + k - AP_ROUTE_SIZE
    ensures Segment(s, now', last) == Segment(s, now, last)[k..]
  {
    if now > last && now + k < AP_ROUTE_SIZE {
      assert s[now..][k..] == s[now + k..];
    }
  }

  /** What stands before the new first pending point. */
  lemma SegmentPassed(s: Store, now: Index, last: Index, k: nat, now': Index)
    requires k <= Distance(now, last) && now' == if now + k < AP_ROUTE_SIZE then now + k else now + k - AP_ROUTE_SIZE
    ensures |Segment(s, now, last)| == Distance(now, last)
    ensures s[..now'] == if now + k < AP_ROUTE_SIZE then s[..now] + Segment(s, now, last)[..k]
                         else Segment(s, now, last)[AP_ROUTE_SIZE - now..k]
  {
    SegmentLength(s, now, last);
  }

  lemma FirstPending(r: Ring)
    requires Pending(r) != []
    ensures Pending(r)[0] == r.route[r.now]
  {
  }

  lemma NonePending(r: Ring)
    requires Pending(r) == []
    ensures r.now == r.last
  {
    SegmentLength(r.route, r.now, r.last);
  }

  lemma AddPassed(r: Ring, repeat: bool, p: RoutePoint)
    ensures Stored(r, repeat, p)[..r.now] == Overwritten(List(r), p)
  {
    SegmentLength(r.route, r.now, r.last);
    hide Segment;
    var s := r.route[..r.now];
    assert r.route[r.last := p][..r.now] == if r.last < r.now then s[r.last := p] else s;
  }

  lemma AppendRefines(r: Ring, repeat: bool, p: RoutePoint, first: bool)
    requires |Pending(r)| < AP_ROUTE_SIZE - 1 && (repeat ==> r.now <= r.last)
    ensures List(Add(r, repeat, p, first).0) == Offer(List(r), p, first)
  {
    hide Segment, Stored, Duplicate, Overwritten;
    SegmentLength(r.route, r.now, r.last);
    AddRefines(r, repeat, p);
    AddPassed(r, repeat, p);
  }

  /** What the walk back leaves is what the list keeps. */
  lemma RewoundList(r: Ring, p: RoutePoint)
    ensures var last := Rewind(r.route, r.now, r.last, p);
            && Segment(r.route, r.now, last) == Kept(Pending(r), p)
            && (last != r.now <==> Kept(Pending(r), p) != [])
            && (r.now <= r.last ==> r.now <= last) && |Kept(Pending(r), p)| < AP_ROUTE_SIZE - 1
  {
    hide Kept, Rewind, Segment;
    var last := Rewind(r.route, r.now, r.last, p);
    RewindKeeps(r.route, r.now, r.last, p);
    KeptIsPrefix(Pending(r), p);
    SegmentLength(r.route, r.now, r.last);
    SegmentLength(r.route, r.now, last);
    if r.now <= r.last {
      RewindRange(r.route, r.now, r.last, p);
    }
  }

  lemma SubstituteRefines(r: Ring, repeat: bool, p: RoutePoint)
    requires repeat ==> r.now <= r.last
    ensures List(Replace(r, repeat, p).0) == ApplyList(List(r), Substitute(p), r.route[r.last].time)
  {
    var last := Rewind(r.route, r.now, r.last, p);
    RewoundList(r, p);
    if Pending(r) != [] {
      FirstPending(r);
    } else {
      NonePending(r);
    }
    hide Segment, Kept, Rewind, Add, Offer;
    AppendRefines(r.(last := last, hasPrev := last != r.now), repeat, p, true);
  }

  lemma AdvanceRefines(r: Ring, repeat: bool, k: nat)
    requires k <= |Pending(r)|
    ensures forall stale :: List(Apply(r, repeat, Advance(k))) == ApplyList(List(r), Advance(k), stale)
  {
    hide Segment;
    SegmentLength(r.route, r.now, r.last);
    ModOnce(r.now + k, AP_ROUTE_SIZE);
    SegmentFront(r.route, r.now, r.last, k, (r.now + k) % AP_ROUTE_SIZE);
    SegmentPassed(r.route, r.now, r.last, k, (r.now + k) % AP_ROUTE_SIZE);
  }

  /** Going back to the start of the buffer makes all passed points pending again; when the points have wrapped round,
      it drops those before the end of the buffer instead. */
  lemma RestartRefines(r: Ring)
    ensures Pending(Restarted(r)) == FromStart(List(r))
    ensures FromStart(List(r)) == if r.now <= r.last then r.route[..r.now] + Pending(r) else Pending(r)[AP_ROUTE_SIZE - r.now..]
  {
    SegmentLength(r.route, r.now, r.last);
    assert r.now <= r.last ==> r.route[..r.last] == r.route[..r.now] + r.route[r.now..r.last];
  }

  /** Each operation does to the ring what it does to the list, wherever the points lie; with repeated routes, as
      long as the pending points have not wrapped round (AddRefines says what happens to an added point then). */
  lemma OpRefines(r: Ring, repeat: bool, op: Op)
    requires Legal(List(r), op) && (repeat ==> r.now <= r.last)
    ensures List(Apply(r, repeat, op)) == ApplyList(List(r), op, r.route[r.last].time)
  {
    hide Kept, Stored, Rewind, Offer, Duplicate, Segment, FromStart, Overwritten, Passed;
    match op
    case Append(p, first) => AppendRefines(r, repeat, p, first);
    case Remove => PopRefines(r);
    case Reset => NothingPending(r);
    case Restart => RestartRefines(r);
    case Substitute(p) => SubstituteRefines(r, repeat, p);
    case Advance(k) => AdvanceRefines(r, repeat, k);
  }

  lemma NothingPending(r: Ring)
    ensures Pending(Clear(r)) == []
  {
  }

  function Run(r: Ring, repeat: bool, ops: seq<Op>): Ring
    decreases |ops|
  {
    if ops == [] then r else Run(Apply(r, repeat, ops[0]), repeat, ops[1..])
  }

  /** The times standing behind the last point when each of the operations comes. */
  function Stales(r: Ring, repeat: bool, ops: seq<Op>): (times: seq<int>)
    ensures |times| == |ops|
    decreases |ops|
  {
    if ops == [] then [] else [r.route[r.last].time] + Stales(Apply(r, repeat, ops[0]), repeat, ops[1..])
  }

  function RunList(l: Listed, ops: seq<Op>, stales: seq<int>): Listed
    requires |stales| == |ops|
    decreases |ops|
  {
    if ops == [] then l else RunList(ApplyList(l, ops[0], stales[0]), ops[1..], stales[1..])
  }

  predicate AllLegal(l: Listed, ops: seq<Op>, stales: seq<int>)
    requires |stales| == |ops|
    decreases |ops|
  {
    ops == [] || (Legal(l, ops[0]) && AllLegal(ApplyList(l, ops[0], stales[0]), ops[1..], stales[1..]))
  }

  /** The pending points never wrap round while an operation is still to come. */
  predicate Unwrapped(r: Ring, repeat: bool, ops: seq<Op>)
    decreases |ops|
  {
    ops == [] || (r.now <= r.last && Unwrapped(Apply(r, repeat, ops[0]), repeat, ops[1..]))
  }

  /** Any run of operations leaves the ring holding what the list holds: without repetition any run at all, with
      repetition one in which the pending points do not wrap round. */
  lemma {:induction false} RunRefines(r: Ring, repeat: bool, ops: seq<Op>)
    requires AllLegal(List(r), ops, Stales(r, repeat, ops)) && (repeat ==> Unwrapped(r, repeat, ops))
    ensures List(Run(r, repeat, ops)) == RunList(List(r), ops, Stales(r, repeat, ops))
    decreases |ops|
  {
    hide Apply, ApplyList, Legal, List;
    if ops != [] {
      OpRefines(r, repeat, ops[0]);
      assert Stales(r, repeat, ops)[1..] == Stales(Apply(r, repeat, ops[0]), repeat, ops[1..]);
      RunRefines(Apply(r, repeat, ops[0]), repeat, ops[1..]);
    }
  }

  // ----- looking ahead

  /** The length of the route, as the route thread computes it. */
  function RouteLen(now: Index, last: Index): nat {
    if now > last then AP_ROUTE_SIZE + last - now else last
  }

  /** Indices run round the whole buffer when the route has wrapped, else round its used part. */
  function Cycle(now: Index, last: Index): nat {
    if now > last then AP_ROUTE_SIZE else last
  }

  /** The thread's wrap-around of an index. */
  function Wrap(now: Index, last: Index, i: nat): int {
    if i >= last then (if now <= last then i - last else if i >= AP_ROUTE_SIZE then i - AP_ROUTE_SIZE else i) else i
  }

  function Ahead(lookAhead: nat, len: nat): nat
    requires len >= 2
  {
    if lookAhead >= len then len - 1 else lookAhead
  }

  /** The look-ahead goes as far as asked, unless it would come round to where it starts. */
  lemma AheadIs(lookAhead: nat, len: nat, k: nat)
    requires len >= 2
    ensures k < Ahead(lookAhead, len) <==> k < lookAhead && k + 1 < len
  {
  }

  /** Every index the look-ahead visits is the next one round the cycle, inside the buffer; when the route has
      wrapped, it is the index of a pending point. */
  lemma LookAheadSafe(now: Index, last: Index, lookAhead: nat, k: nat)
    requires RouteLen(now, last) >= 2 && k <= Ahead(lookAhead, RouteLen(now, last))
    ensures 0 <= Wrap(now, last, now + k) < Cycle(now, last) <= AP_ROUTE_SIZE
    ensures Wrap(now, last, now + k) == (now + k) % Cycle(now, last)
    ensures now > last ==> k < Distance(now, last)
  {
    var i, n := now + k, Cycle(now, last);
    ModOnce(i, n);
  }

  /** Different steps of the look-ahead visit different points. */
  lemma LookAheadDistinct(now: Index, last: Index, lookAhead: nat, j: nat, k: nat)
    requires RouteLen(now, last) >= 2 && j < k <= Ahead(lookAhead, RouteLen(now, last))
    ensures Wrap(now, last, now + j) != Wrap(now, last, now + k)
  {
  }

  /** The index k steps round the cycle from the first considered point. */
  function Node(r: Ring, k: nat): Index
    requires RouteLen(r.now, r.last) >= 2
  {
    (r.now + k) % Cycle(r.now, r.last)
  }

  /** The squared distance of the vehicle from the segment k steps ahead. */
  function Off(r: Ring, vehicle: Point, k: nat): real
    requires RouteLen(r.now, r.last) >= 2
  {
    Dist2(Closest(r.route[Node(r, k)].pos, r.route[Node(r, k + 1)].pos, vehicle), vehicle)
  }

  /** The thread visits n segments: as many as it looks ahead, but without repetition no further than the one
      that ends in the last point. */
  predicate Visits(r: Ring, repeat: bool, ahead: nat, n: nat)
    requires RouteLen(r.now, r.last) >= 2
  {
    && n <= ahead && (repeat ==> n == ahead)
    && (!repeat ==> forall k | 0 < k < n :: Node(r, k) != Prev(r.last))
    && (n == ahead || (n > 0 && Node(r, n) == Prev(r.last)))
  }

  /** Of the first n segments ahead, the first of those closest to the vehicle is k steps ahead. */
  predicate ClosestAhead(r: Ring, vehicle: Point, n: nat, k: nat)
    requires RouteLen(r.now, r.last) >= 2
  {
    k < n && (forall j | 0 <= j < n :: Off(r, vehicle, k) <= Off(r, vehicle, j)) && forall j | 0 <= j < k :: Off(r, vehicle, k) < Off(r, vehicle, j)
  }

  lemma LastNode(r: Ring)
    requires RouteLen(r.now, r.last) >= 2 && Pending(r) != []
    ensures Node(r, |Pending(r)| - 1) == Prev(r.last)
  {
    SegmentLength(r.route, r.now, r.last);
    ModOnce(r.now + |Pending(r)| - 1, Cycle(r.now, r.last));
  }

  /** Without repetition, following the closest segment only drops pending points from the front, and never
      the last two. */
  lemma FollowAdvances(r: Ring, ahead: nat, vehicle: Point, n: nat, k: nat)
    requires |Pending(r)| >= 2 && RouteLen(r.now, r.last) >= 2
    requires Visits(r, false, ahead, n) && ClosestAhead(r, vehicle, n, k)
    ensures k + 2 <= |Pending(r)| && Pending(r.(now := Node(r, k))) == Pending(r)[k..]
  {
    hide Off, Segment;
    LastNode(r);
    SegmentLength(r.route, r.now, r.last);
    ModOnce(r.now + k, Cycle(r.now, r.last));
    SegmentFront(r.route, r.now, r.last, k, Node(r, k));
  }

  /** Where the thread goes from r. */
  ghost predicate Followed(r: Ring, repeat: bool, ahead: nat, vehicle: Point, now: Index)
    requires RouteLen(r.now, r.last) >= 2
  {
    exists n: nat, k: nat :: Visits(r, repeat, ahead, n) && ClosestAhead(r, vehicle, n, k) && now == Node(r, k)
  }

  /** t of the way along the segment k steps ahead lies a point at the look-ahead radius; segments shorter than a
      millimetre do not count. */
  predicate HitAhead(r: Ring, vehicle: Point, rad: real, k: nat, t: real)
    requires RouteLen(r.now, r.last) >= 2
  {
    var p, q := r.route[Node(r, k)].pos, r.route[Node(r, k + 1)].pos;
    QuadA(p, q) > 0.000001 && Hit(vehicle, rad, p, q, t)
  }

  /** Of all such points on the first n segments ahead, this one is furthest along the route. */
  ghost predicate Furthest(r: Ring, vehicle: Point, rad: real, n: nat, k: nat, t: real)
    requires RouteLen(r.now, r.last) >= 2
  {
    && k < n && HitAhead(r, vehicle, rad, k, t)
    && forall k': nat, t': real :: k' < n && HitAhead(r, vehicle, rad, k', t') ==> k' < k || (k' == k && t' <= t)
  }

  ghost predicate NoneAhead(r: Ring, vehicle: Point, rad: real, n: nat)
    requires RouteLen(r.now, r.last) >= 2
  {
    forall k: nat, t: real :: k < n ==> !HitAhead(r, vehicle, rad, k, t)
  }

  /** The goal point of the first n segments ahead. */
  ghost predicate GoalAmong(r: Ring, vehicle: Point, rad: real, n: nat, found: bool, goal: Point)
    requires RouteLen(r.now, r.last) >= 2
  {
    if found then exists k: nat, t: real :: Furthest(r, vehicle, rad, n, k, t) && goal == Along(r.route[Node(r, k)].pos, r.route[Node(r, k + 1)].pos, t)
    else NoneAhead(r, vehicle, rad, n)
  }

  /** The search for the goal point visits n segments: without repetition it ends at the last point, but only once
      something has been found. */
  ghost predicate GoalVisits(r: Ring, repeat: bool, vehicle: Point, rad: real, ahead: nat, found: bool, n: nat)
    requires RouteLen(r.now, r.last) >= 2
  {
    && n <= ahead
    && (n == ahead || (!repeat && n > 0 && found && Node(r, n) == Prev(r.last)))
    && (!repeat ==> forall j | 0 < j < n && Node(r, j) == Prev(r.last) :: NoneAhead(r, vehicle, rad, j))
  }

  /** x is the point of the segment k steps ahead that is furthest along, t of the way, if there is one. */
  ghost predicate Best(r: Ring, vehicle: Point, rad: real, k: nat, hit: bool, x: Point, t: real)
    requires RouteLen(r.now, r.last) >= 2
  {
    && (hit ==> HitAhead(r, vehicle, rad, k, t) && x == Along(r.route[Node(r, k)].pos, r.route[Node(r, k + 1)].pos, t))
    && forall t': real :: HitAhead(r, vehicle, rad, k, t') ==> hit && t' <= t
  }

  ghost predicate Met(r: Ring, vehicle: Point, rad: real, k: nat)
    requires RouteLen(r.now, r.last) >= 2
  {
    exists t: real :: HitAhead(r, vehicle, rad, k, t)
  }

  /** One more segment, on which the point furthest along is t of the way, or there is none. */
  lemma GoalMore(r: Ring, vehicle: Point, rad: real, n: nat, found: bool, goal: Point, hit: bool, x: Point, t: real)
    requires RouteLen(r.now, r.last) >= 2 && GoalAmong(r, vehicle, rad, n, found, goal)
    requires Best(r, vehicle, rad, n, hit, x, t)
    ensures GoalAmong(r, vehicle, rad, n + 1, found || hit, if hit then x else goal) && (hit <==> Met(r, vehicle, rad, n))
  {
    hide HitAhead, Node, Along;
    if hit {
      assert Furthest(r, vehicle, rad, n + 1, n, t);
    } else if found {
      var k: nat, t0: real :| Furthest(r, vehicle, rad, n, k, t0) && goal == Along(r.route[Node(r, k)].pos, r.route[Node(r, k + 1)].pos, t0);
      assert Furthest(r, vehicle, rad, n + 1, k, t0);
    }
  }

  lemma NothingYet(r: Ring, vehicle: Point, rad: real, goal: Point)
    requires RouteLen(r.now, r.last) >= 2
    ensures GoalAmong(r, vehicle, rad, 0, false, goal)
  {
  }
}
