/** Whole runs of the emulated EEPROM: writes, power losses inside them, interrupted recoveries. */
module EepromRuns {
  import opened Octets
  import opened FlashLog
  import opened Recovery
  import opened RecoveryPhases
  import opened Eeprom

  /** A write attempted with `budget` flash operations of power; if power is lost, the boots that
      follow have the budgets in `retries`, and then one boot completes. */
  datatype Command = Command(addr: Half, data: Half, budget: nat, retries: seq<nat>)

  /** Flash operations that suffice for any single write or recovery. */
  function Ample(vars: seq<Half>): nat {
    2 * |vars| + 3
  }

  /** The plain map that sees exactly the committed writes. */
  function Replay(m: map<Half, Half>, cmds: seq<Command>, committed: seq<bool>): (r: map<Half, Half>)
    requires |cmds| == |committed|
  {
    if cmds == [] then m
    else
      var rest := Replay(m, cmds[..|cmds| - 1], committed[..|cmds| - 1]);
      if committed[|cmds| - 1] then rest[cmds[|cmds| - 1].addr := cmds[|cmds| - 1].data] else rest
  }

  lemma ReplaySnoc(m: map<Half, Half>, cmds: seq<Command>, committed: seq<bool>, c: Command, b: bool)
    requires |cmds| == |committed|
    ensures Replay(m, cmds + [c], committed + [b]) ==
            if b then Replay(m, cmds, committed)[c.addr := c.data] else Replay(m, cmds, committed)
  {
    assert (cmds + [c])[..|cmds|] == cmds && (committed + [b])[..|cmds|] == committed;
  }

  /** One boot with the given power: nothing of the map is lost if and only if it was not cut in the Window. */
  ghost predicate BootStep(was: Flash, now: Flash, vars: seq<Half>, st: Status, budget: nat, lost: bool) {
    && (Recoverable(now, vars) || Window(now, vars))
    && (st == FLASH_COMPLETE ==> Steady(now, vars))
    && (st == FLASH_COMPLETE && Transferring(was, vars) ==> budget >= 2 * Pending(was, vars) + 2)
    && (st == FLASH_COMPLETE && Window(was, vars) ==> budget >= 3 && Meaning(now, vars) == map[])
    && (st == FLASH_ERROR ==> budget < Ample(vars) && BootCut(was, now, vars, budget))
    && (st == PAGE_FULL ==> Transferring(was, vars) && Room(was) < Pending(was, vars))
    && (lost <==> CutsInWindow(was, vars, budget))
    && (lost ==> st == FLASH_ERROR && EnteredWindow(was, now, vars))
    && (Recoverable(was, vars) && !lost ==> Recoverable(now, vars) && Meaning(now, vars) == Meaning(was, vars))
    && (Transferring(now, vars) ==> Transferring(was, vars) && Room(was) <= Room(now) + |vars|)
  }

  method Boot(s: Store, budget: nat) returns (st: Status, ghost lost: bool)
    requires s.Valid() && (Recoverable(s.Img(), s.vars) || Window(s.Img(), s.vars))
    modifies s.page0, s.page1, s`power, s`erases, s`dataVar
    ensures st != NO_VALID_PAGE
    ensures BootStep(old(s.Img()), s.Img(), s.vars, st, budget, lost)
  {
    ghost var was := s.Img();
    s.power := budget;
    st := s.Init();
    lost := CutsInWindow(was, s.vars, budget);
  }

  // ----- boots one after the other

  /** Slots that let k interrupted recoveries and then a complete one go through. */
  function RoomFor(k: nat, n: nat): nat {
    (k + 1) * n
  }

  /** Recovery is under way, with room for k more interruptions. */
  ghost predicate Booting(f: Flash, vars: seq<Half>, k: nat) {
    && (Recoverable(f, vars) || Window(f, vars))
    && (Transferring(f, vars) ==> Room(f) >= RoomFor(k, |vars|))
  }

  lemma EnoughRoom(f: Flash, vars: seq<Half>, k: nat)
    requires Booting(f, vars, k)
    ensures Transferring(f, vars) ==> Pending(f, vars) <= |vars| <= Room(f)
  {
    assert RoomFor(k, |vars|) == k * |vars| + |vars|;
  }

  lemma LessRoom(was: Flash, now: Flash, vars: seq<Half>, k: nat, st: Status, budget: nat, lost: bool)
    requires k > 0 && Booting(was, vars, k) && BootStep(was, now, vars, st, budget, lost)
    ensures Booting(now, vars, k - 1)
  {
    assert RoomFor(k, |vars|) == RoomFor(k - 1, |vars|) + |vars|;
  }

  /** A boot from two VALID pages takes the first budget off what they come to. */
  lemma WindowStep(was: Flash, now: Flash, vars: seq<Half>, st: Status, budget: nat, lost: bool, rest: seq<nat>)
    requires Window(was, vars) && BootStep(was, now, vars, st, budget, lost) && st != NO_VALID_PAGE
    ensures Outcome(was, vars, [budget] + rest) == Outcome(now, vars, rest) && !lost && !Transferring(now, vars)
  {
    var all := [budget] + rest;
    assert all[0] == budget && all[1..] == rest;
    assert !Transferring(was, vars);
    if st == FLASH_COMPLETE {
      SteadyOutcome(now, vars, rest);
    } else if budget == 1 {
      SteadyState(1, now.p1, now.p0, vars);
      SteadyOutcome(now, vars, rest);
    }
  }

  lemma SteadyOutcome(f: Flash, vars: seq<Half>, budgets: seq<nat>)
    requires Steady(f, vars)
    ensures Outcome(f, vars, budgets) == Meaning(f, vars) && !Transferring(f, vars) && !Window(f, vars)
  {
  }

  lemma TransferStep(was: Flash, now: Flash, vars: seq<Half>, st: Status, budget: nat, lost: bool, rest: seq<nat>)
    requires Transferring(was, vars) && Recoverable(was, vars) && Pending(was, vars) <= Room(was)
    requires BootStep(was, now, vars, st, budget, lost) && st != NO_VALID_PAGE
    ensures Outcome(was, vars, [budget] + rest) == Outcome(now, vars, rest)
    ensures Loses(was, vars, [budget] + rest) <==> lost || Loses(now, vars, rest)
  {
    hide Recoverable, Transferring, Window, Meaning, Room, Steady, Second, EnteredWindow;
    var all := [budget] + rest;
    assert all[0] == budget && all[1..] == rest;
    RecoverableApart(was, vars);
    if st == FLASH_COMPLETE {
      SteadyOutcome(now, vars, rest);
    } else if budget <= 2 * Pending(was, vars) {
      RecoverableApart(now, vars);
    } else {
      WindowEntered(was, now, vars);
    }
  }

  lemma WindowEntered(was: Flash, now: Flash, vars: seq<Half>)
    requires EnteredWindow(was, now, vars)
    ensures Window(now, vars) && !Transferring(now, vars)
  {
  }

  /** Whatever the state, a boot takes the first budget off what the state comes to and off what is lost. */
  lemma BootOutcome(was: Flash, now: Flash, vars: seq<Half>, st: Status, budget: nat, lost: bool, rest: seq<nat>, k: nat)
    requires Booting(was, vars, k) && BootStep(was, now, vars, st, budget, lost) && st != NO_VALID_PAGE
    ensures Outcome(was, vars, [budget] + rest) == Outcome(now, vars, rest)
    ensures Loses(was, vars, [budget] + rest) <==> lost || Loses(now, vars, rest)
  {
    EnoughRoom(was, vars, k);
    if Window(was, vars) {
      WindowStep(was, now, vars, st, budget, lost, rest);
      assert !Transferring(was, vars);
    } else if Transferring(was, vars) {
      TransferStep(was, now, vars, st, budget, lost, rest);
    } else {
      RecoverableApart(now, vars);
    }
  }

  /** A boot with ample power is the complete one. */
  lemma AmpleOutcome(f: Flash, vars: seq<Half>)
    ensures Outcome(f, vars, [Ample(vars)]) == Outcome(f, vars, []) && !Loses(f, vars, [Ample(vars)])
  {
    assert Pending(f, vars) <= |vars|;
    hide Recoverable, Transferring, Window, Meaning, Second, Pending;
  }

  /** Boots with the given budgets, one after the other. What is lost, and the map that a complete boot would then leave, are
      settled by the state they start from. */
  method Boots(s: Store, budgets: seq<nat>) returns (ghost lost: bool)
    requires s.Valid() && Booting(s.Img(), s.vars, |budgets|)
    modifies s.page0, s.page1, s`power, s`erases, s`dataVar
    ensures Booting(s.Img(), s.vars, 0)
    ensures lost == Loses(old(s.Img()), s.vars, budgets)
    ensures Outcome(s.Img(), s.vars, []) == Outcome(old(s.Img()), s.vars, budgets)
  {
    hide Recoverable, Transferring, Window, Room, Booting, BootStep, Outcome, Loses;
    lost := false;
    var k := 0;
    assert budgets[0..] == budgets;
    while k < |budgets|
      invariant k <= |budgets|
      invariant Booting(s.Img(), s.vars, |budgets| - k)
      invariant lost || Loses(s.Img(), s.vars, budgets[k..]) <==> Loses(old(s.Img()), s.vars, budgets)
      invariant Outcome(s.Img(), s.vars, budgets[k..]) == Outcome(old(s.Img()), s.vars, budgets)
    {
      ghost var l := BootOnce(s, budgets[k], budgets[k + 1..], |budgets| - k);
      assert budgets[k..] == [budgets[k]] + budgets[k + 1..];
      lost := lost || l;
      k := k + 1;
    }
    assert budgets[|budgets|..] == [];
    NothingLeft(s.Img(), s.vars);
  }

  lemma NothingLeft(f: Flash, vars: seq<Half>)
    ensures !Loses(f, vars, [])
  {
  }

  method BootOnce(s: Store, budget: nat, ghost rest: seq<nat>, ghost k: nat) returns (ghost lost: bool)
    requires s.Valid() && k > 0 && Booting(s.Img(), s.vars, k)
    modifies s.page0, s.page1, s`power, s`erases, s`dataVar
    ensures Booting(s.Img(), s.vars, k - 1)
    ensures Loses(old(s.Img()), s.vars, [budget] + rest) <==> lost || Loses(s.Img(), s.vars, rest)
    ensures Outcome(old(s.Img()), s.vars, [budget] + rest) == Outcome(s.Img(), s.vars, rest)
  {
    hide Recoverable, Transferring, Window, Room, BootStep, Outcome, Loses;
    ghost var was := s.Img();
    var st;
    st, lost := Boot(s, budget);
    BootOutcome(was, s.Img(), s.vars, st, budget, lost, rest, k);
    LessRoom(was, s.Img(), s.vars, k, st, budget, lost);
  }

  /** Boots after a power loss, the last one complete. Each interrupted EE_Init uses up at most |vars| slots of the receiving
      page; with room for them the map that comes out is settled beforehand, and it is the one the state stood for unless a
      boot is cut in the Window. */
  method Reboot(s: Store, budgets: seq<nat>) returns (ghost lost: bool)
    requires s.Valid() && (Recoverable(s.Img(), s.vars) || Window(s.Img(), s.vars))
    requires Transferring(s.Img(), s.vars) ==> Room(s.Img()) >= RoomFor(|budgets|, |s.vars|)
    modifies s.page0, s.page1, s`power, s`erases, s`dataVar
    ensures Steady(s.Img(), s.vars)
    ensures s.Map() == Outcome(old(s.Img()), s.vars, budgets)
    ensures lost == Loses(old(s.Img()), s.vars, budgets)
    ensures old(Recoverable(s.Img(), s.vars)) && !lost ==> s.Map() == old(s.Map())
  {
    hide Meaning, Recoverable, Transferring, Window, Room, Steady, BootStep, Outcome, Loses;
    if Recoverable(s.Img(), s.vars) && !Loses(s.Img(), s.vars, budgets) {
      KeptUnlessLost(s.Img(), s.vars, budgets);
    }
    lost := Boots(s, budgets);
    CompleteBoot(s);
  }

  method CompleteBoot(s: Store)
    requires s.Valid() && Booting(s.Img(), s.vars, 0)
    modifies s.page0, s.page1, s`power, s`erases, s`dataVar
    ensures Steady(s.Img(), s.vars) && s.Map() == Outcome(old(s.Img()), s.vars, [])
  {
    hide Meaning, Recoverable, Transferring, Window, Room, Steady, Outcome, Loses;
    ghost var was := s.Img();
    EnoughRoom(was, s.vars, 0);
    AmpleOutcome(was, s.vars);
    var st, l := Boot(s, Ample(s.vars));
    BootOutcome(was, s.Img(), s.vars, st, Ample(s.vars), l, [], 0);
    assert [Ample(s.vars)] + [] == [Ample(s.vars)];
    SteadyOutcome(s.Img(), s.vars, []);
  }

  // ----- writes

  /** Budgets for the boots after a write of c that put nothing at risk, whether it takes effect or not. */
  predicate Careful(m: map<Half, Half>, c: Command) {
    var m' := m[c.addr := c.data];
    Avoids(c.retries, |m|) && Avoids(c.retries, |m| - 1) && Avoids(c.retries, |m'|) && Avoids(c.retries, |m'| - 1)
  }

  /** One write, with the boots that follow if power is lost inside it; cut is the state between the two. */
  method Perform(s: Store, c: Command) returns (ghost done: bool, ghost lost: bool, ghost cut: Flash)
    requires s.Valid() && Steady(s.Img(), s.vars)
    requires c.addr in s.vars && (|c.retries| + 2) * |s.vars| < WORDS
    modifies s.page0, s.page1, s`power, s`erases, s`dataVar
    ensures Steady(s.Img(), s.vars)
    ensures Recoverable(cut, s.vars) && Meaning(cut, s.vars) == if done then old(s.Map())[c.addr := c.data] else old(s.Map())
    ensures s.Map() == Outcome(cut, s.vars, c.retries)
    ensures lost == Loses(cut, s.vars, c.retries)
    ensures !lost ==> s.Map() == Meaning(cut, s.vars)
    ensures c.budget >= Ample(s.vars) ==> done && !lost
    ensures c.budget >= Ample(s.vars) ==>
              if old(InUse(s.Img())) < WORDS then s.erases == old(s.erases) && InUse(s.Img()) == old(InUse(s.Img())) + 1
              else s.erases == old(s.erases) + 1 && InUse(s.Img()) <= 1 + |s.vars|
    ensures Careful(old(s.Map()), c) ==> !lost
  {
    hide Transferring, Room, BootStep, Outcome, Loses, Avoids, Written, InUse;
    ghost var m, was, erased := s.Map(), s.Img(), s.erases;
    s.power := c.budget;
    var st := s.WriteVariable(c.addr, c.data);
    cut := s.Img();
    done := Meaning(cut, s.vars) == m[c.addr := c.data];
    if st == FLASH_COMPLETE {
      WrittenGrows(was, cut, s.vars, c.addr, c.data, c.budget, s.power, s.erases - erased);
      SteadyOutcome(cut, s.vars, c.retries);
      NoTransfer(cut, s.vars, c.retries);
      lost := false;
    } else {
      if Transferring(cut, s.vars) {
        RoomSuffices(cut, |s.vars|, |c.retries|);
      }
      if Careful(m, c) {
        SafeBudgets(cut, s.vars, c.retries);
      }
      lost := Reboot(s, c.retries);
    }
  }

  lemma NoTransfer(f: Flash, vars: seq<Half>, budgets: seq<nat>)
    requires !Transferring(f, vars)
    ensures !Loses(f, vars, budgets)
  {
  }

  lemma RoomSuffices(f: Flash, n: nat, k: nat)
    requires (k + 2) * n < WORDS && Room(f) + 1 + n >= WORDS
    ensures Room(f) >= RoomFor(k, n)
  {
    assert (k + 2) * n == (k + 1) * n + n;
  }

  /** The map before command k, when the commands before it were cut in these states. */
  ghost function Before(m: map<Half, Half>, vars: seq<Half>, cmds: seq<Command>, cuts: seq<Flash>, k: nat): map<Half, Half>
    requires k <= |cuts| == |cmds|
  {
    if k == 0 then m else Outcome(cuts[k - 1], vars, cmds[k - 1].retries)
  }

  /** In cuts each command has left what it stands for, taken effect or not. */
  ghost predicate Follows(m: map<Half, Half>, vars: seq<Half>, cmds: seq<Command>, cuts: seq<Flash>, committed: seq<bool>) {
    && |cuts| == |cmds| == |committed|
    && forall k: nat | k < |cmds| ::
         var was := Before(m, vars, cmds, cuts, k);
         Recoverable(cuts[k], vars) && Meaning(cuts[k], vars) == if committed[k] then was[cmds[k].addr := cmds[k].data] else was
  }

  lemma FollowsSnoc(m: map<Half, Half>, vars: seq<Half>, cmds: seq<Command>, cuts: seq<Flash>, committed: seq<bool>,
                    c: Command, cut: Flash, done: bool)
    requires Follows(m, vars, cmds, cuts, committed) && Recoverable(cut, vars)
    requires var was := Before(m, vars, cmds, cuts, |cmds|);
             Meaning(cut, vars) == if done then was[c.addr := c.data] else was
    ensures Follows(m, vars, cmds + [c], cuts + [cut], committed + [done])
    ensures Before(m, vars, cmds + [c], cuts + [cut], |cmds| + 1) == Outcome(cut, vars, c.retries)
  {
    hide Outcome, Meaning, Recoverable;
    forall k: nat | k <= |cmds|
      ensures Before(m, vars, cmds + [c], cuts + [cut], k) == Before(m, vars, cmds, cuts, k)
    {
    }
  }

  /** Some boot after some command is cut in the Window. */
  ghost predicate SomeLost(vars: seq<Half>, cmds: seq<Command>, cuts: seq<Flash>)
    requires |cuts| == |cmds|
  {
    exists k: nat :: k < |cmds| && Loses(cuts[k], vars, cmds[k].retries)
  }

  lemma SomeLostSnoc(vars: seq<Half>, cmds: seq<Command>, cuts: seq<Flash>, c: Command, cut: Flash)
    requires |cuts| == |cmds|
    ensures SomeLost(vars, cmds + [c], cuts + [cut]) <==> SomeLost(vars, cmds, cuts) || Loses(cut, vars, c.retries)
  {
    hide Loses;
    if SomeLost(vars, cmds, cuts) {
      var k: nat :| k < |cmds| && Loses(cuts[k], vars, cmds[k].retries);
      assert (cmds + [c])[k] == cmds[k] && (cuts + [cut])[k] == cuts[k];
    }
    if Loses(cut, vars, c.retries) {
      assert (cmds + [c])[|cmds|] == c && (cuts + [cut])[|cmds|] == cut;
    }
  }

  /** After k complete writes that have erased e pages, with u words in use: between two erases lie as many writes as a page has
      words beyond one for each of the n variables. */
  predicate Worn(k: nat, e: int, u: nat, n: nat) {
    e == 0 || (e > 0 && (e - 1) * (WORDS - n) + 1 + (if u > 1 + n then u - (1 + n) else 0) <= k)
  }

  lemma WornMore(k: nat, e: int, u: nat, n: nat, e': int, u': nat)
    requires Worn(k, e, u, n) && n < WORDS && u <= WORDS
    requires if u < WORDS then e' == e && u' == u + 1 else e' == e + 1 && u' <= 1 + n
    ensures Worn(k + 1, e', u', n)
  {
    if u == WORDS && e > 0 {
      assert e * (WORDS - n) == (e - 1) * (WORDS - n) + (WORDS - n);
    }
  }

  lemma InUseBounded(f: Flash)
    ensures InUse(f) <= WORDS
  {
  }

  /** Any sequence of writes, each possibly cut by power loss and followed by boots that may be cut themselves, leaves exactly
      the map that a plain map holds after the committed writes, if and only if no boot is cut in the Window; and if one is,
      the map it leaves is known all the same. A write with ample power is always committed. */
  method Run(s: Store, cmds: seq<Command>) returns (ghost committed: seq<bool>, ghost lost: bool, ghost cuts: seq<Flash>)
    requires s.Valid() && Steady(s.Img(), s.vars)
    requires forall c | c in cmds :: c.addr in s.vars && (|c.retries| + 2) * |s.vars| < WORDS
    modifies s.page0, s.page1, s`power, s`erases, s`dataVar
    ensures Steady(s.Img(), s.vars)
    ensures Follows(old(s.Map()), s.vars, cmds, cuts, committed)
    ensures s.Map() == Before(old(s.Map()), s.vars, cmds, cuts, |cmds|)
    ensures lost <==> SomeLost(s.vars, cmds, cuts)
    ensures !lost ==> s.Map() == Replay(old(s.Map()), cmds, committed)
    ensures forall i | 0 <= i < |cmds| && cmds[i].budget >= Ample(s.vars) :: committed[i]
    ensures (forall k | 0 <= k < |cmds| :: Careful(Replay(old(s.Map()), cmds[..k], committed[..k]), cmds[k])) ==> !lost
    ensures (forall c, b | c in cmds && b in c.retries :: b % 2 == 0) ==> !lost
    ensures (forall c | c in cmds :: c.budget >= Ample(s.vars)) ==>
              s.erases == old(s.erases) || (s.erases - old(s.erases) - 1) * (4096 - |s.vars|) < |cmds|
  {
    hide Steady, Meaning, Follows, SomeLost, Before, Replay, Careful, Worn, InUse;
    NotWorn(InUse(s.Img()), |s.vars|);
    committed, lost, cuts := [], false, [];
    var k := 0;
    NothingDone(s.Map(), s.vars);
    assert cmds[..0] == [];
    while k < |cmds|
      invariant k <= |cmds| && |committed| == |cuts| == k
      invariant Steady(s.Img(), s.vars)
      invariant Follows(old(s.Map()), s.vars, cmds[..k], cuts, committed)
      invariant s.Map() == Before(old(s.Map()), s.vars, cmds[..k], cuts, k)
      invariant lost <==> SomeLost(s.vars, cmds[..k], cuts)
      invariant forall i | 0 <= i < k && cmds[i].budget >= Ample(s.vars) :: committed[i]
      invariant (forall c | c in cmds :: c.budget >= Ample(s.vars)) ==>
                  Worn(k, s.erases - old(s.erases), InUse(s.Img()), |s.vars|)
    {
      var c := cmds[k];
      assert c in cmds && cmds[..k + 1] == cmds[..k] + [c];
      ghost var u, e := InUse(s.Img()), s.erases - old(s.erases);
      InUseBounded(s.Img());
      ghost var done, l, cut := Perform(s, c);
      if forall c | c in cmds :: c.budget >= Ample(s.vars) {
        WornMore(k, e, u, |s.vars|, s.erases - old(s.erases), InUse(s.Img()));
      }
      FollowsSnoc(old(s.Map()), s.vars, cmds[..k], cuts, committed, c, cut, done);
      SomeLostSnoc(s.vars, cmds[..k], cuts, c, cut);
      committed, lost, cuts := committed + [done], lost || l, cuts + [cut];
      k := k + 1;
    }
    assert cmds[..|cmds|] == cmds;
    RunKept(old(s.Map()), s.vars, cmds, cuts, committed);
    RunCareful(old(s.Map()), s.vars, cmds, cuts, committed);
    RunEven(s.vars, cmds, cuts);
    if Worn(|cmds|, s.erases - old(s.erases), InUse(s.Img()), |s.vars|) {
      WornBound(|cmds|, s.erases - old(s.erases), InUse(s.Img()), |s.vars|);
    }
  }

  lemma NotWorn(u: nat, n: nat)
    ensures Worn(0, 0, u, n)
  {
  }

  lemma WornBound(k: nat, e: int, u: nat, n: nat)
    requires Worn(k, e, u, n)
    ensures e == 0 || (e - 1) * (WORDS - n) < k
  {
  }

  /** Before the first command whose boots lose something, the map is the plain one. */
  lemma {:induction false} BeforeKept(m: map<Half, Half>, vars: seq<Half>, cmds: seq<Command>, cuts: seq<Flash>, committed: seq<bool>,
                                      k: nat)
    requires Follows(m, vars, cmds, cuts, committed) && k <= |cmds|
    requires forall i | 0 <= i < k :: !Loses(cuts[i], vars, cmds[i].retries)
    ensures Before(m, vars, cmds, cuts, k) == Replay(m, cmds[..k], committed[..k])
  {
    hide Outcome, Loses, Follows;
    FollowsLengths(m, vars, cmds, cuts, committed);
    if k > 0 {
      hide Before, Replay;
      BeforeKept(m, vars, cmds, cuts, committed, k - 1);
      assert cmds[..k] == cmds[..k - 1] + [cmds[k - 1]] && committed[..k] == committed[..k - 1] + [committed[k - 1]];
      ReplaySnoc(m, cmds[..k - 1], committed[..k - 1], cmds[k - 1], committed[k - 1]);
      BeforeNext(m, vars, cmds, cuts, committed, k);
    }
  }

  lemma BeforeNext(m: map<Half, Half>, vars: seq<Half>, cmds: seq<Command>, cuts: seq<Flash>, committed: seq<bool>, k: nat)
    requires Follows(m, vars, cmds, cuts, committed) && 0 < k <= |cmds| && !Loses(cuts[k - 1], vars, cmds[k - 1].retries)
    ensures var was := Before(m, vars, cmds, cuts, k - 1);
            Before(m, vars, cmds, cuts, k) == if committed[k - 1] then was[cmds[k - 1].addr := cmds[k - 1].data] else was
  {
    hide Outcome, Loses, Meaning, Recoverable;
    KeptUnlessLost(cuts[k - 1], vars, cmds[k - 1].retries);
  }

  lemma RunKept(m: map<Half, Half>, vars: seq<Half>, cmds: seq<Command>, cuts: seq<Flash>, committed: seq<bool>)
    requires Follows(m, vars, cmds, cuts, committed)
    ensures !SomeLost(vars, cmds, cuts) ==> Before(m, vars, cmds, cuts, |cmds|) == Replay(m, cmds, committed)
  {
    hide Outcome, Loses, Follows, Before, Replay;
    FollowsLengths(m, vars, cmds, cuts, committed);
    if !SomeLost(vars, cmds, cuts) {
      BeforeKept(m, vars, cmds, cuts, committed, |cmds|);
      assert cmds[..|cmds|] == cmds && committed[..|cmds|] == committed;
    }
  }

  lemma FollowsLengths(m: map<Half, Half>, vars: seq<Half>, cmds: seq<Command>, cuts: seq<Flash>, committed: seq<bool>)
    requires Follows(m, vars, cmds, cuts, committed)
    ensures |cuts| == |cmds| == |committed|
  {
  }

  lemma {:induction false} NoneLost(m: map<Half, Half>, vars: seq<Half>, cmds: seq<Command>, cuts: seq<Flash>, committed: seq<bool>,
                                    k: nat)
    requires GoodVars(vars) && Follows(m, vars, cmds, cuts, committed) && k <= |cmds|
    requires forall i | 0 <= i < k :: Careful(Replay(m, cmds[..i], committed[..i]), cmds[i])
    ensures forall i | 0 <= i < k :: !Loses(cuts[i], vars, cmds[i].retries)
  {
    hide Follows, Before, Replay, Loses, Careful;
    FollowsLengths(m, vars, cmds, cuts, committed);
    if k > 0 {
      NoneLost(m, vars, cmds, cuts, committed, k - 1);
      BeforeKept(m, vars, cmds, cuts, committed, k - 1);
      CarefulCut(m, vars, cmds, cuts, committed, k - 1);
    }
  }

  lemma CarefulCut(m: map<Half, Half>, vars: seq<Half>, cmds: seq<Command>, cuts: seq<Flash>, committed: seq<bool>, k: nat)
    requires GoodVars(vars) && Follows(m, vars, cmds, cuts, committed) && k < |cmds|
    requires Careful(Before(m, vars, cmds, cuts, k), cmds[k])
    ensures !Loses(cuts[k], vars, cmds[k].retries)
  {
    hide Outcome, Loses, Meaning, Recoverable, Avoids;
    SafeBudgets(cuts[k], vars, cmds[k].retries);
  }

  lemma RunCareful(m: map<Half, Half>, vars: seq<Half>, cmds: seq<Command>, cuts: seq<Flash>, committed: seq<bool>)
    requires GoodVars(vars) && Follows(m, vars, cmds, cuts, committed)
    ensures (forall k | 0 <= k < |cmds| :: Careful(Replay(m, cmds[..k], committed[..k]), cmds[k])) ==> !SomeLost(vars, cmds, cuts)
  {
    hide Loses, Follows, Careful, Replay;
    FollowsLengths(m, vars, cmds, cuts, committed);
    if forall k | 0 <= k < |cmds| :: Careful(Replay(m, cmds[..k], committed[..k]), cmds[k]) {
      NoneLost(m, vars, cmds, cuts, committed, |cmds|);
    }
  }

  lemma RunEven(vars: seq<Half>, cmds: seq<Command>, cuts: seq<Flash>)
    requires |cuts| == |cmds|
    ensures (forall c, b | c in cmds && b in c.retries :: b % 2 == 0) ==> !SomeLost(vars, cmds, cuts)
  {
    hide Loses;
    if forall c, b | c in cmds && b in c.retries :: b % 2 == 0 {
      forall k: nat | k < |cmds| ensures !Loses(cuts[k], vars, cmds[k].retries) {
        assert cmds[k] in cmds;
        EvenKeeps(cuts[k], vars, cmds[k].retries);
      }
    }
  }

  lemma NothingDone(m: map<Half, Half>, vars: seq<Half>)
    ensures Follows(m, vars, [], [], []) && !SomeLost(vars, [], []) && Before(m, vars, [], [], 0) == m
  {
  }

  /** Reading any variable after any run returns what the plain map holds, not-found included; after a loss, what the run is
      known to leave. */
  method ReadBack(s: Store, cmds: seq<Command>, a: Half)
    returns (st: ReadStatus, data: Half, ghost committed: seq<bool>, ghost lost: bool, ghost cuts: seq<Flash>)
    requires s.Valid() && Steady(s.Img(), s.vars) && a in s.vars
    requires forall c | c in cmds :: c.addr in s.vars && (|c.retries| + 2) * |s.vars| < WORDS
    modifies s.page0, s.page1, s`power, s`erases, s`dataVar
    ensures Follows(old(s.Map()), s.vars, cmds, cuts, committed)
    ensures lost <==> SomeLost(s.vars, cmds, cuts)
    ensures var m := if lost then Before(old(s.Map()), s.vars, cmds, cuts, |cmds|) else Replay(old(s.Map()), cmds, committed);
            if a in m then st == FOUND && data == m[a] else st == NOT_FOUND
  {
    committed, lost, cuts := Run(s, cmds);
    SteadyRead(s.Img(), s.vars, a);
    hide Steady, Meaning, Follows, SomeLost, Replay, Before;
    st, data := s.ReadVariable(a);
  }

  /** What the Window costs: boots after a recovery cut there leave an empty map, or page 1's if the first of them that
      does more than leave both pages VALID is cut after one flash operation. */
  method LoseAll(s: Store, budget: nat, budgets: seq<nat>)
    requires s.Valid() && CutsInWindow(s.Img(), s.vars, budget)
    modifies s.page0, s.page1, s`power, s`erases, s`dataVar
    ensures Steady(s.Img(), s.vars) && s.Map() == AfterWindow(old(Second(s.Img(), s.vars)), budgets)
    ensures budgets == [] ==> s.Map() == map[]
  {
    ghost var was := s.Img();
    var st, l := Boot(s, budget);
    WindowEntered(was, s.Img(), s.vars);
    assert Contents(s.Img().p1, s.vars) == Second(was, s.vars);
    l := Reboot(s, budgets);
  }
}
