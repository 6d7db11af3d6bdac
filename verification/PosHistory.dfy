/** The history of positions, searched by time, and the millisecond clock that stamps them. */
module PosHistory {
  import opened Times

  const POS_HISTORY_LEN: nat := 100
  const TICKS_PER_MS: nat := 50

  datatype PosPoint = PosPoint(px: real, py: real, pz: real, yaw: real, speed: real, time: int)

  type Index = i: nat | i < POS_HISTORY_LEN

  type Store = s: seq<PosPoint> | |s| == POS_HISTORY_LEN witness seq(POS_HISTORY_LEN, _ => PosPoint(0.0, 0.0, 0.0, 0.0, 0.0, 0))

  /** The index of the k-th newest entry, the newest being number 0; ptr is where the next one goes. */
  function Slot(ptr: Index, k: Index): Index {
    if k < ptr then ptr - 1 - k else POS_HISTORY_LEN + ptr - 1 - k
  }

  /** The newest 99 entries, newest first. */
  function Newest(s: Store, ptr: Index): (q: seq<PosPoint>)
    ensures |q| == 99
  {
    seq(POS_HISTORY_LEN - 1, k requires 0 <= k < POS_HISTORY_LEN - 1 => s[Slot(ptr, k)])
  }

  function Abs(x: int): nat {
    if x < 0 then -x else x
  }

  function Gap(q: seq<PosPoint>, k: nat, time: int): nat
    requires k < |q|
  {
    Abs(time - q[k].time)
  }

  /** k is where a search from the newest entry back stops: the first entry whose successor is no closer. */
  predicate StopsAt(q: seq<PosPoint>, time: int, k: nat) {
    && k < |q|
    && (forall j | 0 <= j < k :: Gap(q, j + 1, time) < Gap(q, j, time))
    && (k + 1 < |q| ==> Gap(q, k + 1, time) >= Gap(q, k, time))
  }

  /** k is the newest of the entries nearest in time. */
  predicate Nearest(q: seq<PosPoint>, time: int, k: nat) {
    && k < |q|
    && (forall j | 0 <= j < |q| :: Gap(q, k, time) <= Gap(q, j, time))
    && (forall j | 0 <= j < k :: Gap(q, k, time) < Gap(q, j, time))
  }

  /** No entry is nearer in time than the k-th newest. */
  predicate Least(q: seq<PosPoint>, time: int, k: nat) {
    k < |q| && forall j | 0 <= j < |q| :: Gap(q, k, time) <= Gap(q, j, time)
  }

  /** The stamp s is as near as that of any entry. */
  ghost predicate LeastTime(q: seq<PosPoint>, time: int, s: int) {
    exists k: nat :: Least(q, time, k) && q[k].time == s
  }

  predicate NonIncreasing(q: seq<PosPoint>) {
    forall i, j | 0 <= i < j < |q| :: q[j].time <= q[i].time
  }

  predicate Tie(q: seq<PosPoint>, i: nat) {
    i + 1 < |q| && q[i].time == q[i + 1].time
  }

  /** Behind two neighbours with the same time stamp there is nothing older. */
  predicate TiesOnlyAtEnd(q: seq<PosPoint>) {
    forall i: nat, j: nat | Tie(q, i) && i + 1 < j < |q| :: q[j].time == q[i].time
  }

  lemma {:induction false} Closer(q: seq<PosPoint>, time: int, k: nat, j: nat)
    requires StopsAt(q, time, k) && j < k
    ensures Gap(q, k, time) < Gap(q, j, time)
    decreases k - j
  {
    if j + 1 < k {
      Closer(q, time, k, j + 1);
    }
  }

  /** If only the oldest stamps are repeated, stopping at the first entry that is no closer loses nothing. */
  lemma EarlyExitIsSafe(q: seq<PosPoint>, time: int, k: nat)
    requires NonIncreasing(q) && TiesOnlyAtEnd(q)
    ensures StopsAt(q, time, k) <==> Nearest(q, time, k)
  {
    if StopsAt(q, time, k) {
      forall j | 0 <= j < k ensures Gap(q, k, time) < Gap(q, j, time) {
        Closer(q, time, k, j);
      }
      forall j | k < j < |q| ensures Gap(q, k, time) <= Gap(q, j, time) {
        assert Tie(q, k) || q[j].time <= q[k + 1].time < q[k].time;
      }
    }
    if Nearest(q, time, k) {
      forall j | 0 <= j < k ensures Gap(q, j + 1, time) < Gap(q, j, time) {
        NoTieBefore(q, time, k, j);
        assert q[k].time <= q[j + 1].time < q[j].time;
      }
    }
  }

  lemma NoTieBefore(q: seq<PosPoint>, time: int, k: nat, j: nat)
    requires TiesOnlyAtEnd(q) && Nearest(q, time, k) && j < k
    ensures !Tie(q, j)
  {
    var s, t := q[k].time, q[j].time;
    assert Tie(q, j) ==> s == t;
    assert Gap(q, k, time) < Gap(q, j, time);
  }

  /** A tie with something older behind it makes the search miss that older entry. */
  lemma {:induction false} TieMisleads(q: seq<PosPoint>, i: nat, j: nat)
    requires NonIncreasing(q) && Tie(q, i) && i + 1 < j < |q| && q[j].time < q[i].time
    ensures exists k: nat :: StopsAt(q, q[j].time, k) && !Least(q, q[j].time, k)
  {
    if m: nat :| m < i && Tie(q, m) {
      TieMisleads(q, m, j);
    } else {
      var time := q[j].time;
      forall m: nat | m < i ensures Gap(q, m + 1, time) < Gap(q, m, time) {
        assert !Tie(q, m) && q[i].time <= q[m + 1].time <= q[m].time;
      }
      assert Gap(q, j, time) < Gap(q, i, time) && StopsAt(q, time, i);
    }
  }

  /** The search is right for every time asked for if and only if only the oldest stamps are repeated. */
  lemma SafeIff(q: seq<PosPoint>)
    requires NonIncreasing(q)
    ensures (forall time, k :: StopsAt(q, time, k) ==> Least(q, time, k)) <==> TiesOnlyAtEnd(q)
  {
    if TiesOnlyAtEnd(q) {
      forall time, k | StopsAt(q, time, k) ensures Least(q, time, k) {
        EarlyExitIsSafe(q, time, k);
      }
    } else {
      var i: nat, j: nat :| Tie(q, i) && i + 1 < j < |q| && q[j].time != q[i].time;
      TieMisleads(q, i, j);
    }
  }

  /** Entries a saved since the clock last went back, at midnight, and entries b saved before. */
  ghost predicate Wrapped(a: seq<PosPoint>, b: seq<PosPoint>) {
    && a != [] && b != []
    && NonIncreasing(a) && TiesOnlyAtEnd(a) && NonIncreasing(b) && TiesOnlyAtEnd(b)
    && forall i, j | 0 <= i < |a| && 0 <= j < |b| :: a[i].time < b[j].time
  }

  /** The time asked for is no nearer to the oldest entry than to the newest, or the newest is the only one of
      its day and the next one is nearer. */
  ghost predicate FindsAcross(a: seq<PosPoint>, b: seq<PosPoint>, time: int)
    requires a != [] && b != []
  {
    || 2 * time <= a[0].time + b[|b| - 1].time
    || (|a| == 1 && 2 * time > a[0].time + b[0].time)
  }

  /** A search among newer entries only. */
  lemma StopsWithin(a: seq<PosPoint>, b: seq<PosPoint>, time: int, k: nat)
    requires StopsAt(a + b, time, k) && k < |a|
    ensures StopsAt(a, time, k)
  {
    var q := a + b;
    assert forall j | 0 <= j < |a| :: q[j] == a[j] && Gap(q, j, time) == Gap(a, j, time);
  }

  /** A search that has come to the entries from before midnight goes on as if they were all. */
  lemma StopsBefore(a: seq<PosPoint>, b: seq<PosPoint>, time: int, k: nat)
    requires StopsAt(a + b, time, k) && k >= |a|
    ensures StopsAt(b, time, k - |a|)
  {
    var q := a + b;
    assert forall j | 0 <= j < |b| :: q[|a| + j] == b[j] && Gap(q, |a| + j, time) == Gap(b, j, time);
    forall j | 0 <= j < k - |a| ensures Gap(b, j + 1, time) < Gap(b, j, time) {
      assert Gap(q, |a| + j + 1, time) < Gap(q, |a| + j, time);
    }
  }

  /** Entries a saved since the clock was last set back, and entries b saved before. */
  ghost predicate Stepped(a: seq<PosPoint>, b: seq<PosPoint>) {
    && a != [] && b != []
    && NonIncreasing(a) && TiesOnlyAtEnd(a) && NonIncreasing(b) && TiesOnlyAtEnd(b)
    && a[|a| - 1].time < b[0].time
  }

  /** The time asked for is nearer to the newest entry before the step than to the oldest since, and nearer to that than
      to the one saved after it. */
  predicate Passes(a: seq<PosPoint>, b: seq<PosPoint>, time: int)
    requires a != [] && b != []
  {
    var last := |a| - 1;
    a[last].time + b[0].time < 2 * time && (last > 0 ==> 2 * time < a[last].time + a[last - 1].time)
  }

  /** From the entries since the step to those before it the search goes exactly for these times. */
  lemma CrossesStep(a: seq<PosPoint>, b: seq<PosPoint>, time: int, k: nat)
    requires Stepped(a, b) && StopsAt(a + b, time, k)
    ensures k >= |a| <==> Passes(a, b, time)
  {
    var q, last := a + b, |a| - 1;
    assert q[last] == a[last] && q[|a|] == b[0];
    assert last > 0 ==> q[last - 1] == a[last - 1];
    assert k >= |a| ==> Gap(q, last + 1, time) < Gap(q, last, time);
    assert k >= |a| && last > 0 ==> Gap(q, last - 1 + 1, time) < Gap(q, last - 1, time);
    if Passes(a, b, time) {
      forall i | 0 <= i < last ensures Gap(q, i + 1, time) < Gap(q, i, time) {
        assert q[i] == a[i] && q[i + 1] == a[i + 1] && a[i].time >= a[last - 1].time && a[i + 1].time >= a[last].time;
        assert !Tie(a, i);
      }
      assert Gap(q, last + 1, time) < Gap(q, last, time);
    }
  }

  /** When the search passes on, the best from before the step is the best of all. */
  lemma BestBefore(a: seq<PosPoint>, b: seq<PosPoint>, time: int, k: nat)
    requires Stepped(a, b) && Passes(a, b, time) && Least(b, time, k)
    ensures Least(a + b, time, |a| + k)
  {
    var q, last := a + b, |a| - 1;
    assert Gap(b, k, time) <= Gap(b, 0, time) < Gap(a, last, time);
    forall j | 0 <= j < |q| ensures Gap(q, |a| + k, time) <= Gap(q, j, time) {
      assert Gap(q, j, time) == if j < |a| then Gap(a, j, time) else Gap(b, j - |a|, time);
      assert j < last ==> a[j].time >= a[last - 1].time;
    }
  }

  /** Some entry since the step is as near as every entry before. */
  ghost predicate NewerAsNear(a: seq<PosPoint>, b: seq<PosPoint>, time: int) {
    exists i: nat :: i < |a| && AsNear(a, i, b, time)
  }

  predicate AsNear(a: seq<PosPoint>, i: nat, b: seq<PosPoint>, time: int)
    requires i < |a|
  {
    forall j | 0 <= j < |b| :: Gap(a, i, time) <= Gap(b, j, time)
  }

  lemma BestSince(a: seq<PosPoint>, b: seq<PosPoint>, time: int, k: nat)
    requires Least(a, time, k)
    ensures Least(a + b, time, k) <==> AsNear(a, k, b, time)
    ensures AsNear(a, k, b, time) <==> NewerAsNear(a, b, time)
  {
    var q := a + b;
    assert forall j | 0 <= j < |a| :: q[j] == a[j] && Gap(q, j, time) == Gap(a, j, time);
    assert forall j | 0 <= j < |b| :: q[|a| + j] == b[j] && Gap(q, |a| + j, time) == Gap(b, j, time);
    if AsNear(a, k, b, time) {
      assert forall j | |a| <= j < |q| :: Gap(q, j, time) == Gap(b, j - |a|, time);
    }
  }

  /** After the clock has been set back the search is right for exactly these times. */
  lemma StepIff(a: seq<PosPoint>, b: seq<PosPoint>, time: int, k: nat)
    requires Stepped(a, b) && StopsAt(a + b, time, k)
    ensures Least(a + b, time, k) <==> Passes(a, b, time) || NewerAsNear(a, b, time)
  {
    hide Gap, Passes, NewerAsNear, AsNear;
    CrossesStep(a, b, time, k);
    if k < |a| {
      StopsWithin(a, b, time, k);
      EarlyExitIsSafe(a, time, k);
      hide StopsAt, NonIncreasing, TiesOnlyAtEnd;
      BestSince(a, b, time, k);
    } else {
      StopsBefore(a, b, time, k);
      EarlyExitIsSafe(b, time, k - |a|);
      hide StopsAt, NonIncreasing, TiesOnlyAtEnd;
      BestBefore(a, b, time, k - |a|);
    }
  }

  /** A time no later than the oldest entry since the step is answered with the time of that entry, whatever has been
      saved before. */
  lemma BeforeStep(a: seq<PosPoint>, b: seq<PosPoint>, time: int, k: nat)
    requires Stepped(a, b) && StopsAt(a + b, time, k) && time <= a[|a| - 1].time
    ensures k < |a| && (a + b)[k].time == a[|a| - 1].time
  {
    CrossesStep(a, b, time, k);
    StopsWithin(a, b, time, k);
    if k + 1 < |a| {
      assert Gap(a, k + 1, time) >= Gap(a, k, time);
      assert Tie(a, k);
    }
  }

  /** A clock that goes back at midnight is a special case. */
  lemma CrossesMidnight(a: seq<PosPoint>, b: seq<PosPoint>, time: int, k: nat)
    requires Wrapped(a, b) && StopsAt(a + b, time, k)
    ensures k >= |a| <==> |a| == 1 && 2 * time > a[0].time + b[0].time
  {
    hide StopsAt;
    CrossesStep(a, b, time, k);
    assert a[|a| - 1].time < b[0].time;
    assert |a| > 1 ==> a[|a| - 2].time < b[0].time;
  }

  /** After midnight the search is right for exactly these times. */
  lemma MidnightIff(a: seq<PosPoint>, b: seq<PosPoint>, time: int, k: nat)
    requires Wrapped(a, b) && StopsAt(a + b, time, k)
    ensures Least(a + b, time, k) <==> FindsAcross(a, b, time)
  {
    hide Gap;
    CrossesMidnight(a, b, time, k);
    if k < |a| {
      StopsWithin(a, b, time, k);
      EarlyExitIsSafe(a, time, k);
      hide StopsAt, NonIncreasing, TiesOnlyAtEnd;
      OldestOrNewest(a, b, time, k);
    } else {
      StopsBefore(a, b, time, k);
      EarlyExitIsSafe(b, time, k - |a|);
      hide StopsAt, NonIncreasing, TiesOnlyAtEnd;
      BestBefore(a, b, time, k - |a|);
    }
  }

  /** The best of the new day is the best of both exactly when the time is no nearer to the oldest entry. */
  lemma OldestOrNewest(a: seq<PosPoint>, b: seq<PosPoint>, time: int, k: nat)
    requires Wrapped(a, b) && k < |a| && Least(a, time, k)
    ensures Least(a + b, time, k) <==> 2 * time <= a[0].time + b[|b| - 1].time
  {
    var q := a + b;
    assert forall j | 0 <= j < |a| :: q[j] == a[j] && Gap(q, j, time) == Gap(a, j, time);
    assert forall j | 0 <= j < |b| :: q[|a| + j] == b[j] && Gap(q, |a| + j, time) == Gap(b, j, time);
    assert a[0].time < b[|b| - 1].time && a[k].time <= a[0].time;
    assert Gap(a, k, time) <= Gap(a, 0, time);
    if 2 * time <= a[0].time + b[|b| - 1].time {
      forall j | 0 <= j < |q| ensures Gap(q, k, time) <= Gap(q, j, time) {
        if j >= |a| {
          assert q[j] == b[j - |a|] && b[|b| - 1].time <= b[j - |a|].time;
        }
      }
    } else {
      assert Gap(q, |a| + (|b| - 1), time) < Gap(q, k, time);
    }
  }

  /** Entries a saved since the start, the first of them before the clock was set and stamped -1, and places b never
      written, which hold zero. */
  ghost predicate Started(a: seq<PosPoint>, b: seq<PosPoint>) {
    && |a| >= 2 && b != [] && NonIncreasing(a) && TiesOnlyAtEnd(a)
    && a[|a| - 1].time == a[|a| - 2].time == -1
    && forall j | 0 <= j < |b| :: b[j].time == 0
  }

  /** Some entry saved since the clock was set is no further from the time asked for than midnight is. */
  ghost predicate FindsStarted(a: seq<PosPoint>, time: int) {
    exists i :: 0 <= i < |a| && 0 <= a[i].time <= 2 * time
  }

  /** Two stamps of -1 hold the search. */
  lemma HeldByTie(a: seq<PosPoint>, b: seq<PosPoint>, time: int, k: nat)
    requires Started(a, b) && StopsAt(a + b, time, k)
    ensures k < |a| && StopsAt(a, time, k)
  {
    var q, m := a + b, |a| - 2;
    assert q[m] == a[m] && q[m + 1] == a[m + 1];
    assert Gap(q, m + 1, time) == Gap(q, m, time);
    StopsWithin(a, b, time, k);
  }

  /** The best of the entries saved against the zeros. */
  lemma BestOrZero(a: seq<PosPoint>, b: seq<PosPoint>, time: int, k: nat)
    requires Started(a, b) && time >= 0 && Least(a, time, k)
    ensures Least(a + b, time, k) <==> Gap(a, k, time) <= time
  {
    var q := a + b;
    forall j | 0 <= j < |q| ensures Gap(q, j, time) == if j < |a| then Gap(a, j, time) else time {
      assert q[j] == if j < |a| then a[j] else b[j - |a|];
    }
    assert Least(q, time, k) ==> Gap(q, k, time) <= Gap(q, |a|, time);
  }

  /** Until the ring has been filled the search is right for exactly these times. */
  lemma StartedIff(a: seq<PosPoint>, b: seq<PosPoint>, time: int, k: nat)
    requires Started(a, b) && time >= 0 && StopsAt(a + b, time, k)
    ensures Least(a + b, time, k) <==> FindsStarted(a, time)
  {
    HeldByTie(a, b, time, k);
    EarlyExitIsSafe(a, time, k);
    BestOrZero(a, b, time, k);
    if i :| 0 <= i < |a| && 0 <= a[i].time <= 2 * time {
      assert Gap(a, k, time) <= Gap(a, i, time) <= time;
    }
  }

  lemma LeastStamp(q: seq<PosPoint>, time: int, k: nat)
    requires k < |q|
    ensures LeastTime(q, time, q[k].time) <==> Least(q, time, k)
  {
  }

  /** What the search finds, in these situations. */
  lemma SearchFinds(q: seq<PosPoint>, time: int, k: nat)
    requires StopsAt(q, time, k)
    ensures NonIncreasing(q) && TiesOnlyAtEnd(q) ==> Nearest(q, time, k)
    ensures forall n | 0 <= n <= |q| && Wrapped(q[..n], q[n..]) ::
              LeastTime(q, time, q[k].time) <==> FindsAcross(q[..n], q[n..], time)
    ensures forall n | 0 <= n <= |q| && Stepped(q[..n], q[n..]) ::
              LeastTime(q, time, q[k].time) <==> Passes(q[..n], q[n..], time) || NewerAsNear(q[..n], q[n..], time)
    ensures time >= 0 ==> forall n | 0 <= n <= |q| && Started(q[..n], q[n..]) ::
              LeastTime(q, time, q[k].time) <==> FindsStarted(q[..n], time)
  {
    LeastStamp(q, time, k);
    hide Nearest, NonIncreasing, TiesOnlyAtEnd, Wrapped, Stepped, Passes, NewerAsNear, Started, FindsStarted, FindsAcross, Least, LeastTime;
    if NonIncreasing(q) && TiesOnlyAtEnd(q) {
      EarlyExitIsSafe(q, time, k);
    }
    forall n | 0 <= n <= |q|
      ensures Wrapped(q[..n], q[n..]) ==> (Least(q, time, k) <==> FindsAcross(q[..n], q[n..], time))
      ensures Stepped(q[..n], q[n..]) ==> (Least(q, time, k) <==> Passes(q[..n], q[n..], time) || NewerAsNear(q[..n], q[n..], time))
      ensures Started(q[..n], q[n..]) && time >= 0 ==> (Least(q, time, k) <==> FindsStarted(q[..n], time))
    {
      SearchFindsFrom(q, n, time, k);
    }
  }

  lemma SearchFindsFrom(q: seq<PosPoint>, n: nat, time: int, k: nat)
    requires StopsAt(q, time, k) && n <= |q|
    ensures Wrapped(q[..n], q[n..]) ==> (Least(q, time, k) <==> FindsAcross(q[..n], q[n..], time))
    ensures Stepped(q[..n], q[n..]) ==> (Least(q, time, k) <==> Passes(q[..n], q[n..], time) || NewerAsNear(q[..n], q[n..], time))
    ensures Started(q[..n], q[n..]) && time >= 0 ==> (Least(q, time, k) <==> FindsStarted(q[..n], time))
  {
    hide StopsAt, Least, NonIncreasing, TiesOnlyAtEnd, FindsStarted, Passes, NewerAsNear;
    assert q == q[..n] + q[n..];
    if Wrapped(q[..n], q[n..]) {
      MidnightIff(q[..n], q[n..], time, k);
    }
    if Stepped(q[..n], q[n..]) {
      StepIff(q[..n], q[n..], time, k);
    }
    if Started(q[..n], q[n..]) && time >= 0 {
      StartedIff(q[..n], q[n..], time, k);
    }
  }

  /** Saving a point makes it the newest and drops the oldest. */
  lemma SaveNewest(s: Store, ptr: Index, p: PosPoint)
    ensures Newest(s[ptr := p], if ptr + 1 >= POS_HISTORY_LEN then 0 else ptr + 1) == [p] + Newest(s, ptr)[..98]
  {
  }

  class History {
    const points: array<PosPoint>
    var ptr: Index

    ghost predicate Valid()
      reads this
    {
      points.Length == POS_HISTORY_LEN
    }

    constructor ()
      ensures Valid() && fresh(points) && ptr == 0 && forall k | 0 <= k < 100 :: points[k].time == 0
    {
      points := new PosPoint[POS_HISTORY_LEN](_ => PosPoint(0.0, 0.0, 0.0, 0.0, 0.0, 0));
      ptr := 0;
    }

    /** save_pos_history. */
    method Save(p: PosPoint)
      requires Valid()
      modifies points, this`ptr
      ensures Valid() && Newest(points[..], ptr) == [p] + old(Newest(points[..], ptr))[..POS_HISTORY_LEN - 2]
    {
      SaveNewest(points[..], ptr, p);
      points[ptr] := p;
      ptr := if ptr + 1 >= POS_HISTORY_LEN then 0 else ptr + 1;
    }

    /** get_closest_point_to_time. */
    method ClosestPointToTime(time: int) returns (r: PosPoint)
      requires Valid()
      ensures exists k: nat :: StopsAt(Newest(points[..], ptr), time, k) && r == Newest(points[..], ptr)[k]
      ensures NonIncreasing(Newest(points[..], ptr)) && TiesOnlyAtEnd(Newest(points[..], ptr)) ==>
                exists k: nat :: Nearest(Newest(points[..], ptr), time, k) && r == Newest(points[..], ptr)[k]
      ensures forall n | 0 <= n <= POS_HISTORY_LEN - 1 && Wrapped(Newest(points[..], ptr)[..n], Newest(points[..], ptr)[n..]) ::
                LeastTime(Newest(points[..], ptr), time, r.time) <==>
                  FindsAcross(Newest(points[..], ptr)[..n], Newest(points[..], ptr)[n..], time)
      ensures forall n | 0 <= n <= POS_HISTORY_LEN - 1 && Stepped(Newest(points[..], ptr)[..n], Newest(points[..], ptr)[n..]) ::
                LeastTime(Newest(points[..], ptr), time, r.time) <==>
                  || Passes(Newest(points[..], ptr)[..n], Newest(points[..], ptr)[n..], time)
                  || NewerAsNear(Newest(points[..], ptr)[..n], Newest(points[..], ptr)[n..], time)
      ensures time >= 0 ==>
                forall n | 0 <= n <= POS_HISTORY_LEN - 1 && Started(Newest(points[..], ptr)[..n], Newest(points[..], ptr)[n..]) ::
                  LeastTime(Newest(points[..], ptr), time, r.time) <==> FindsStarted(Newest(points[..], ptr)[..n], time)
    {
      ghost var q := Newest(points[..], ptr);
      var ind: Index := if ptr > 0 then ptr - 1 else POS_HISTORY_LEN - 1;
      var minDiff := Abs(time - points[ind].time);
      var indUse := ind;
      ghost var k: Index := 0;
      while true
        invariant ind == indUse == Slot(ptr, k) && k < POS_HISTORY_LEN - 1 && minDiff == Gap(q, k, time)
        invariant forall j | 0 <= j < k :: Gap(q, j + 1, time) < Gap(q, j, time)
        decreases POS_HISTORY_LEN - k
      {
        ind := if ind > 0 then ind - 1 else POS_HISTORY_LEN - 1;
        if ind == ptr {
          break;
        }
        var diff := Abs(time - points[ind].time);
        assert diff == Gap(q, k + 1, time);
        if diff < minDiff {
          minDiff, indUse, k := diff, ind, k + 1;
        } else {
          break;
        }
      }
      assert StopsAt(q, time, k);
      r := points[indUse];
      SearchFinds(q, time, k);
    }
  }

  // ----- the clock

  datatype Clock = Clock(ms: int, diff: nat)

  /** The clock after some timer ticks; it stands still until it has been set. */
  function Elapse(c: Clock, ticks: nat): Clock {
    if c.ms < 0 then c
    else
      var d := c.diff + ticks % TICKS_PER_MS;
      var ms := c.ms + ticks / TICKS_PER_MS + d / TICKS_PER_MS;
      Clock(if ms >= MS_PER_DAY then ms - MS_PER_DAY else ms, d % TICKS_PER_MS)
  }

  predicate Running(c: Clock) {
    0 <= c.ms < MS_PER_DAY && c.diff < TICKS_PER_MS
  }

  function Sum(ticks: seq<nat>): nat {
    if ticks == [] then 0 else ticks[0] + Sum(ticks[1..])
  }

  function ElapseAll(c: Clock, ticks: seq<nat>): Clock
    decreases |ticks|
  {
    if ticks == [] then c else ElapseAll(Elapse(c, ticks[0]), ticks[1..])
  }

  /** The timer is a 16-bit counter: ticks between two of its readings. */
  const TIMER: nat := 65536

  function Elapsed(last: nat, cnt: nat): nat {
    (cnt - last) % TIMER
  }

  /** Two readings less than a turn of the timer apart give the true number of ticks between them. */
  lemma ElapsedIsTrue(t0: nat, t1: nat)
    requires t0 <= t1 < t0 + 65536
    ensures Elapsed(t0 % 65536, t1 % 65536) == t1 - t0
  {
  }

  lemma ElapseConserves(c: Clock, ticks: nat)
    requires Running(c) && ticks < TIMER
    ensures var c', total := Elapse(c, ticks), 50 * c.ms + c.diff + ticks;
            Running(c') && (50 * c'.ms + c'.diff == total || 50 * (c'.ms + 86400000) + c'.diff == total)
  {
  }

  /** A whole day more shows the same time. */
  lemma AnotherDay(total: nat)
    ensures var more := total + TICKS_PER_MS * MS_PER_DAY;
            more % TICKS_PER_MS == total % TICKS_PER_MS && more / TICKS_PER_MS % MS_PER_DAY == total / TICKS_PER_MS % MS_PER_DAY
  {
    assert (total + TICKS_PER_MS * MS_PER_DAY) / TICKS_PER_MS == total / TICKS_PER_MS + MS_PER_DAY;
  }

  /** No tick is ever lost, however the ticks are cut into steps: the clock shows the sum of all of them, in
      whole milliseconds modulo one day, and keeps the rest. */
  lemma {:induction false} ClockConserves(c: Clock, ticks: seq<nat>)
    requires Running(c) && forall i | 0 <= i < |ticks| :: ticks[i] < TIMER
    ensures var c', total := ElapseAll(c, ticks), TICKS_PER_MS * c.ms + c.diff + Sum(ticks);
            Running(c') && c'.diff == total % TICKS_PER_MS && c'.ms == total / TICKS_PER_MS % MS_PER_DAY
    decreases |ticks|
  {
    hide Elapse;
    if ticks != [] {
      var c1 := Elapse(c, ticks[0]);
      ElapseConserves(c, ticks[0]);
      ClockConserves(c1, ticks[1..]);
      AnotherDay(TICKS_PER_MS * c1.ms + c1.diff + Sum(ticks[1..]));
    }
  }

  /** The readings of the timer at some moments, as ticks between one and the next. */
  function Readings(t0: nat, moments: seq<nat>): seq<nat>
    decreases |moments|
  {
    if moments == [] then [] else [Elapsed(t0 % TIMER, moments[0] % TIMER)] + Readings(moments[0], moments[1..])
  }

  predicate Frequent(t0: nat, moments: seq<nat>)
    decreases |moments|
  {
    moments == [] || (t0 <= moments[0] < t0 + TIMER && Frequent(moments[0], moments[1..]))
  }

  lemma {:induction false} ReadingsSum(t0: nat, moments: seq<nat>)
    requires Frequent(t0, moments) && moments != []
    ensures Sum(Readings(t0, moments)) == moments[|moments| - 1] - t0
    ensures forall i | 0 <= i < |Readings(t0, moments)| :: Readings(t0, moments)[i] < TIMER
    decreases |moments|
  {
    ElapsedIsTrue(t0, moments[0]);
    hide Elapsed;
    var r := Readings(t0, moments);
    assert r[1..] == Readings(moments[0], moments[1..]);
    if |moments| > 1 {
      ReadingsSum(moments[0], moments[1..]);
    } else {
      assert r[1..] == [];
    }
  }

  /** Read often enough, the clock does not drift: at the last moment it shows exactly the true time. */
  lemma ClockIsTrue(c: Clock, t0: nat, moments: seq<nat>)
    requires Running(c) && Frequent(t0, moments) && moments != []
    ensures ElapseAll(c, Readings(t0, moments)).ms ==
              (50 * c.ms + c.diff + (moments[|moments| - 1] - t0)) / 50 % 86400000
  {
    hide Readings, Frequent, ElapseAll, Sum;
    ReadingsSum(t0, moments);
    ClockConserves(c, Readings(t0, moments));
  }

  class Timekeeper {
    var msToday: int
    var diff: nat
    var cntLast: nat

    ghost function Abs(): Clock
      reads this
    {
      Clock(msToday, diff)
    }

    constructor ()
      ensures Abs() == Clock(-1, 0) && cntLast == 0
    {
      msToday, diff, cntLast := -1, 0, 0;
    }

    /** The clock part of mpu9150_read, for a reading of the timer. */
    method Read(cnt: nat)
      modifies this
      ensures Abs() == Elapse(old(Abs()), Elapsed(old(cntLast), cnt)) && cntLast == cnt
    {
      var timeElapsed := (cnt - cntLast) % TIMER;
      cntLast := cnt;
      if msToday >= 0 {
        var timeElapsedMs := timeElapsed / TICKS_PER_MS;
        diff := diff + timeElapsed % TICKS_PER_MS;
        var diffDiv := diff / TICKS_PER_MS;
        diff := diff - diffDiv * TICKS_PER_MS;
        msToday := msToday + timeElapsedMs + diffDiv;
        if msToday >= MS_PER_DAY {
          msToday := msToday - MS_PER_DAY;
        }
      }
    }
  }
}
