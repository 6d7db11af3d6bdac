/** The time the route thread adds to the points of a repeating route. */
module RouteTimes {
  import opened Arithmetic
  import opened Times
  import opened Route

  /** The time of a point after one with time prev: a lap more when it is before that one. */
  function Later(prev: int, t: int, add: int): int {
    if !Before(t, prev) then t else if t + add > MS_PER_DAY then t + add - MS_PER_DAY else t + add
  }

  /** A time that is before prev and that adding a lap changes. */
  predicate Raised(prev: int, t: int, add: int) {
    Before(t, prev) && !(add == 0 && t <= MS_PER_DAY) && !(add == MS_PER_DAY && t > 0)
  }

  /** Within a day, a lap more means the time of day that much later. */
  lemma LaterIs(prev: int, t: int, add: int)
    requires 0 <= t <= MS_PER_DAY && 0 <= add <= MS_PER_DAY
    ensures 0 <= Later(prev, t, add) <= MS_PER_DAY
    ensures t < prev && prev - t < 43200000 ==> (Later(prev, t, add) - (t + add)) % 86400000 == 0
    ensures !(t < prev && prev - t < 43200000) ==> Later(prev, t, add) == t
  {
  }

  lemma LaterIff(prev: int, t: int, add: int)
    ensures Later(prev, t, add) != t <==> Raised(prev, t, add)
  {
  }

  /** The points after the thread has looked at n segments, from now on and round a cycle of slots: each segment's end
      is brought behind its start. */
  function Stamped(s: seq<RoutePoint>, now: nat, cycle: nat, n: nat, add: int): (r: seq<RoutePoint>)
    requires 0 < cycle <= |s|
    ensures |r| == |s|
    decreases n
  {
    if n == 0 then s
    else
      var q := Stamped(s, now, cycle, n - 1, add);
      var i, j := (now + n - 1) % cycle, (now + n) % cycle;
      q[j := q[j].(time := Later(q[i].time, q[j].time, add))]
  }

  /** Only times change. */
  lemma {:induction false} StampedPlaces(s: seq<RoutePoint>, now: nat, cycle: nat, n: nat, add: int)
    requires 0 < cycle <= |s|
    ensures forall i | 0 <= i < |s| :: Stamped(s, now, cycle, n, add)[i] == s[i].(time := Stamped(s, now, cycle, n, add)[i].time)
    decreases n
  {
    if n > 0 {
      StampedPlaces(s, now, cycle, n - 1, add);
    }
  }

  /** Slots outside the cycle play no part. */
  lemma {:induction false} StampedPrefix(s: seq<RoutePoint>, now: nat, cycle: nat, n: nat, add: int)
    requires 0 < cycle <= |s|
    ensures Stamped(s, now, cycle, n, add)[..cycle] == Stamped(s[..cycle], now, cycle, n, add)
    decreases n
  {
    if n > 0 {
      StampedPrefix(s, now, cycle, n - 1, add);
      hide Later;
      var q := Stamped(s, now, cycle, n - 1, add);
      var i, j := (now + n - 1) % cycle, (now + n) % cycle;
      assert q[..cycle][i] == q[i] && q[..cycle][j] == q[j];
    }
  }

  lemma SlotsDiffer(now: nat, cycle: nat, m: nat, n: nat)
    requires m < n < cycle
    ensures (now + m) % cycle != (now + n) % cycle
  {
    var a, b := (now + m) % cycle, (now + m) / cycle;
    assert now + m == b * cycle + a;
    if a + (n - m) < cycle {
      QuotientIs(now + n, cycle, b, a + (n - m));
    } else {
      assert (b + 1) * cycle == b * cycle + cycle;
      QuotientIs(now + n, cycle, b + 1, a + (n - m) - cycle);
    }
  }

  /** The end of a segment not yet looked at has its old time. */
  lemma {:induction false} StampedNotYet(s: seq<RoutePoint>, now: nat, cycle: nat, n: nat, m: nat, add: int)
    requires n < m < cycle <= |s|
    ensures Stamped(s, now, cycle, n, add)[(now + m) % cycle] == s[(now + m) % cycle]
    decreases n
  {
    if n > 0 {
      StampedNotYet(s, now, cycle, n - 1, m, add);
      SlotsDiffer(now, cycle, n, m);
      hide Later;
    }
  }

  /** Looking at segment m changes the time of its end. */
  predicate RaisedAt(s: seq<RoutePoint>, now: nat, cycle: nat, m: nat, add: int)
    requires 0 < cycle <= |s|
  {
    Raised(s[(now + m) % cycle].time, s[(now + m + 1) % cycle].time, add)
  }

  /** No time changes if and only if none of the segments looked at ends before it starts. */
  lemma {:induction false} UnchangedIff(s: seq<RoutePoint>, now: nat, cycle: nat, n: nat, add: int)
    requires n < cycle <= |s|
    ensures Stamped(s, now, cycle, n, add) == s <==> forall m: nat | m < n :: !RaisedAt(s, now, cycle, m, add)
    decreases n
  {
    hide Later, Raised;
    if n > 0 {
      UnchangedIff(s, now, cycle, n - 1, add);
      var q, s' := Stamped(s, now, cycle, n - 1, add), Stamped(s, now, cycle, n, add);
      var i, j := (now + n - 1) % cycle, (now + n) % cycle;
      StampedNotYet(s, now, cycle, n - 1, n, add);
      LaterIff(q[i].time, q[j].time, add);
      if s' == s {
        assert forall k | 0 <= k < |s| :: q[k] == if k == j then s[k] else s'[k];
        assert q == s;
      }
      assert q == s ==> (s' == s <==> s'[j] == s[j]);
      assert RaisedAt(s, now, cycle, n - 1, add) <==> Raised(s[i].time, s[j].time, add);
    }
  }
}
