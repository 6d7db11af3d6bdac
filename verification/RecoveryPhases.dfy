/** How far an interrupted recovery gets: what is still to be copied, and what slot 1 of the receiving page holds. */
module RecoveryPhases {
  import opened Wrappers
  import opened Octets
  import opened FlashLog
  import opened Recovery

  /** The first of the variables in the order of copying that the source holds. */
  ghost function FirstHeld(src: Page, vars: seq<Half>, i: nat): Option<Half>
    requires i <= |vars|
  {
    if i == 0 then None
    else if FirstHeld(src, vars, i - 1).Some? then FirstHeld(src, vars, i - 1)
    else if Newest(src, vars[i - 1]).Some? then Some(vars[i - 1]) else None
  }

  /** Its value is all ones, so that programming it changes nothing. */
  ghost predicate FirstOnes(src: Page, vars: seq<Half>) {
    var a := FirstHeld(src, vars, |vars|);
    a.Some? && Newest(src, a.value) == Some(ERASED)
  }

  lemma {:induction false} FirstHeldStays(src: Page, vars: seq<Half>, i: nat, j: nat)
    requires i <= j <= |vars| && FirstHeld(src, vars, i).Some?
    ensures FirstHeld(src, vars, j) == FirstHeld(src, vars, i)
    decreases j
  {
    if i < j {
      FirstHeldStays(src, vars, i, j - 1);
    }
  }

  lemma {:induction false} FirstHeldIs(src: Page, vars: seq<Half>, i: nat)
    requires i <= |vars| && FirstHeld(src, vars, i).Some?
    ensures FirstHeld(src, vars, i).value in vars[..i] && Newest(src, FirstHeld(src, vars, i).value).Some?
  {
    if FirstHeld(src, vars, i - 1).Some? {
      FirstHeldIs(src, vars, i - 1);
      assert vars[..i] == vars[..i - 1] + [vars[i - 1]];
    } else {
      assert vars[i - 1] in vars[..i];
    }
  }

  /** While slot 1 names nothing, nothing has to be copied exactly as long as nothing is held. */
  lemma {:induction false} NothingHeld(src: Page, dst: Page, vars: seq<Half>, i: nat)
    requires GoodVars(vars) && i <= |vars| && AddrAt(dst, 1) == ERASED
    ensures ToCopy(src, dst, vars, i) == 0 <==> FirstHeld(src, vars, i) == None
  {
    if i > 0 {
      NothingHeld(src, dst, vars, i - 1);
    }
  }

  // ----- a copy loop under way

  /** What m rounds of copying have done to slot 1 of dst, which started as dst0. */
  ghost predicate Tracked(src: Page, dst0: Page, dst: Page, vars: seq<Half>, m: nat)
    requires m <= |vars|
  {
    && (ToCopy(src, dst0, vars, m) == 0 ==> dst == dst0)
    && (Used(dst0) == 1 && ToCopy(src, dst0, vars, m) > 0 ==> FirstHeld(src, vars, m) == Some(AddrAt(dst, 1)))
  }

  lemma NothingTracked(src: Page, dst: Page, vars: seq<Half>)
    ensures Tracked(src, dst, dst, vars, 0)
  {
  }

  lemma TrackedSkips(src: Page, dst0: Page, dst: Page, vars: seq<Half>, m: nat)
    requires GoodVars(vars) && m < |vars| && Copied(src, dst0, dst, vars, m) && Tracked(src, dst0, dst, vars, m)
    requires ToCopy(src, dst0, vars, m + 1) == ToCopy(src, dst0, vars, m)
    ensures Tracked(src, dst0, dst, vars, m + 1)
  {
    if Used(dst0) == 1 && ToCopy(src, dst0, vars, m) > 0 {
      FirstHeldStays(src, vars, m, m + 1);
    }
  }

  lemma TrackedAppends(src: Page, dst0: Page, dst: Page, vars: seq<Half>, m: nat)
    requires GoodVars(vars) && m < |vars| && Copied(src, dst0, dst, vars, m) && Tracked(src, dst0, dst, vars, m)
    requires vars[m] != AddrAt(dst, 1) && Newest(src, vars[m]).Some? && Used(dst) < WORDS
    requires ToCopy(src, dst0, vars, m + 1) == ToCopy(src, dst0, vars, m) + 1
    ensures Tracked(src, dst0, Appended(dst, Used(dst), Newest(src, vars[m]).value, vars[m]), vars, m + 1)
  {
    if Used(dst0) == 1 {
      assert Blank(dst0, 1) && AddrAt(dst0, 1) == ERASED;
      NothingHeld(src, dst0, vars, m);
      if ToCopy(src, dst0, vars, m) > 0 {
        FirstHeldStays(src, vars, m, m + 1);
        FirstHeldIs(src, vars, m);
        assert AddrAt(dst, 1) != ERASED;
      }
    }
  }

  /** What power lost after so many flash operations of copying leaves in slot 1. */
  ghost predicate Stopped(src: Page, dst0: Page, dst: Page, vars: seq<Half>, spent: nat) {
    if Used(dst0) > 1 then AddrAt(dst, 1) == AddrAt(dst0, 1) && Used(dst) > 1
    else if spent == 0 then dst == dst0
    else if spent == 1 then AddrAt(dst, 1) == ERASED && (Used(dst) == 1 <==> FirstOnes(src, vars))
    else FirstHeld(src, vars, |vars|) == Some(AddrAt(dst, 1)) && Used(dst) > 1
  }

  /** Between two rounds. */
  lemma StoppedBetween(src: Page, dst0: Page, dst: Page, vars: seq<Half>, m: nat, spent: nat)
    requires GoodVars(vars) && m <= |vars| && Copied(src, dst0, dst, vars, m) && Tracked(src, dst0, dst, vars, m)
    requires spent == 2 * ToCopy(src, dst0, vars, m)
    ensures Stopped(src, dst0, dst, vars, spent)
  {
    if Used(dst0) == 1 && ToCopy(src, dst0, vars, m) > 0 {
      FirstHeldStays(src, vars, m, |vars|);
    }
  }

  /** Behind the last round everything is there, and marking the receiving page opens the window. */
  lemma AllCopied(p: nat, src: Page, dst0: Page, dst: Page, vars: seq<Half>, c: nat)
    requires GoodVars(vars) && p < 2 && c == ToCopy(src, dst0, vars, |vars|)
    requires Copied(src, dst0, dst, vars, |vars|) && Tracked(src, dst0, dst, vars, |vars|)
    ensures Receiving(src, dst, vars) && InTransit(src, dst0, dst, vars, Used(dst0) + c) && Used(dst0) + c <= WORDS
    ensures Stopped(src, dst0, dst, vars, 2 * c)
    ensures Contents(dst, vars) == Restored(src, dst0, vars)
    ensures Window(Pair(p, src, dst[0 := VALID_PAGE]), vars)
  {
    hide Contents, Restored, Newest, Tracked, Stopped, WellFormed;
    CopiedAll(src, dst0, dst, vars);
    StoppedBetween(src, dst0, dst, vars, |vars|, 2 * c);
    HeaderKeepsLog(dst, vars, VALID_PAGE);
  }

  /** Inside a round, after the data halfword. */
  lemma StoppedTorn(src: Page, dst0: Page, dst: Page, vars: seq<Half>, m: nat)
    requires GoodVars(vars) && m < |vars| && Copied(src, dst0, dst, vars, m) && Tracked(src, dst0, dst, vars, m)
    requires vars[m] != AddrAt(dst, 1) && Newest(src, vars[m]).Some? && Used(dst) < WORDS
    ensures Stopped(src, dst0, Torn(dst, Used(dst), Newest(src, vars[m]).value), vars, 2 * ToCopy(src, dst0, vars, m) + 1)
  {
    var d := Newest(src, vars[m]).value;
    TornKeepsLog(dst, vars, d);
    if Used(dst0) == 1 {
      assert Blank(dst0, 1) && AddrAt(dst0, 1) == ERASED;
      if ToCopy(src, dst0, vars, m) > 0 {
        FirstHeldStays(src, vars, m, |vars|);
      } else {
        NothingHeld(src, dst0, vars, m);
        assert FirstHeld(src, vars, m + 1) == Some(vars[m]);
        FirstHeldStays(src, vars, m + 1, |vars|);
        FirstSlotTorn(dst, d);
      }
    }
  }

  /** Both ways an attempted copy of variable m can end, and power lost before it. */
  lemma CopyTracked(src: Page, dst0: Page, dst: Page, vars: seq<Half>, m: nat)
    requires GoodVars(vars) && m < |vars| && Copied(src, dst0, dst, vars, m) && Tracked(src, dst0, dst, vars, m)
    requires vars[m] != AddrAt(dst, 1) && Newest(src, vars[m]).Some?
    ensures Stopped(src, dst0, dst, vars, 2 * ToCopy(src, dst0, vars, m))
    ensures Used(dst) < WORDS ==>
              var d := Newest(src, vars[m]).value;
              && Tracked(src, dst0, Appended(dst, Used(dst), d, vars[m]), vars, m + 1)
              && Stopped(src, dst0, Torn(dst, Used(dst), d), vars, 2 * ToCopy(src, dst0, vars, m) + 1)
  {
    hide Tracked, Stopped;
    StoppedBetween(src, dst0, dst, vars, m, 2 * ToCopy(src, dst0, vars, m));
    CopyCounts(src, dst0, dst, vars, m);
    if Used(dst) < WORDS {
      TrackedAppends(src, dst0, dst, vars, m);
      StoppedTorn(src, dst0, dst, vars, m);
    }
  }

  lemma FirstSlotTorn(dst: Page, d: Half)
    requires Used(dst) == 1
    ensures Used(Torn(dst, 1, d)) == 1 <==> d == ERASED
  {
    var t := Torn(dst, 1, d);
    assert Blank(dst, 1) && AddrAt(t, 1) == ERASED && DataAt(t, 1) == d;
    if d == ERASED {
      UsedIs(t, 1);
    }
  }

  // ----- phases

  /** The copies recovery still has to make, whether slot 1 is still blank, and whether the first copy is of all ones. */
  datatype Phase = Phase(copies: nat, open: bool, ones: bool)

  /** After an interruption: a slot 1 that has been blank is torn by the first operation and named by the second. */
  function After(ph: Phase, spent: nat): Phase {
    if !ph.open || spent == 0 then ph
    else if spent == 1 then ph.(open := ph.ones)
    else Phase(if ph.copies > 0 then ph.copies - 1 else 0, false, ph.ones)
  }

  ghost function PagesPhase(src: Page, dst: Page, vars: seq<Half>): Phase {
    Phase(ToCopy(src, dst, vars, |vars|), Used(dst) == 1, FirstOnes(src, vars))
  }

  ghost function PhaseOf(f: Flash, vars: seq<Half>): (ph: Phase)
    ensures ph.copies == Pending(f, vars)
  {
    if f.p0[0] == VALID_PAGE then PagesPhase(f.p0, f.p1, vars) else PagesPhase(f.p1, f.p0, vars)
  }

  /** Naming slot 1 after the first copy takes that one off the list. */
  lemma {:induction false} OneLess(src: Page, dst0: Page, dst: Page, vars: seq<Half>, i: nat)
    requires GoodVars(vars) && i <= |vars| && AddrAt(dst0, 1) == ERASED
    requires FirstHeld(src, vars, |vars|) == Some(AddrAt(dst, 1))
    ensures ToCopy(src, dst, vars, i) == ToCopy(src, dst0, vars, i) - (if FirstHeld(src, vars, i).Some? then 1 else 0)
  {
    if i > 0 {
      OneLess(src, dst0, dst, vars, i - 1);
      NothingHeld(src, dst0, vars, i - 1);
      if FirstHeld(src, vars, i).Some? {
        FirstHeldStays(src, vars, i, |vars|);
      }
      if FirstHeld(src, vars, i - 1).Some? {
        FirstHeldStays(src, vars, i - 1, |vars|);
        FirstHeldIs(src, vars, i - 1);
      }
    }
  }

  lemma StoppedPhase(src: Page, dst0: Page, dst: Page, vars: seq<Half>, spent: nat)
    requires GoodVars(vars) && Stopped(src, dst0, dst, vars, spent) && spent <= 2 * ToCopy(src, dst0, vars, |vars|)
    ensures PagesPhase(src, dst, vars) == After(PagesPhase(src, dst0, vars), spent)
  {
    ToCopySameSlotOne(src, dst0, dst, vars, |vars|);
    if Used(dst0) == 1 {
      assert Blank(dst0, 1) && AddrAt(dst0, 1) == ERASED;
      if spent >= 2 {
        OneLess(src, dst0, dst, vars, |vars|);
      }
    }
  }

  // ----- what a boot cut short leaves

  /** What page 1 stands for if recovery is cut when both pages are VALID. */
  ghost function Second(f: Flash, vars: seq<Half>): map<Half, Half> {
    if f.p0[0] == VALID_PAGE then Meaning(f, vars) else Contents(f.p1, vars)
  }

  /** Cut while it formats two VALID pages: nothing done; page 0 erased; page 0 VALID and empty. */
  ghost predicate FormatCut(was: Flash, now: Flash, vars: seq<Half>, budget: nat) {
    && now.p1 == was.p1
    && (budget == 0 ==> now == was)
    && (budget == 1 ==> SteadyOn(now.p1, now.p0, vars))
    && (budget == 2 ==> Window(now, vars))
    && budget < 3
  }

  /** Cut while it resumes a transfer for which there is room. */
  ghost predicate ResumeCut(was: Flash, now: Flash, vars: seq<Half>, budget: nat) {
    if budget <= 2 * Pending(was, vars)
    then Transferring(now, vars) && PhaseOf(now, vars) == After(PhaseOf(was, vars), budget) && Second(now, vars) == Second(was, vars)
    else budget == 2 * Pending(was, vars) + 1 && Contents(now.p1, vars) == Second(was, vars)
  }

  ghost predicate BootCut(was: Flash, now: Flash, vars: seq<Half>, budget: nat) {
    && (Transferring(was, vars) && Pending(was, vars) <= Room(was) ==> ResumeCut(was, now, vars, budget))
    && (Window(was, vars) ==> FormatCut(was, now, vars, budget))
  }

  // ----- many boots cut short

  /** Some boot in a row of them, with these budgets, is cut when both pages are VALID: its budget is one more than two for
      each copy still to be made, and all those before it are smaller. */
  predicate LosesFrom(ph: Phase, budgets: seq<nat>)
    decreases |budgets|
  {
    budgets != [] && budgets[0] <= 2 * ph.copies + 1
    && (budgets[0] == 2 * ph.copies + 1 || LosesFrom(After(ph, budgets[0]), budgets[1..]))
  }

  /** The map after boots from two VALID pages, page 1 standing for m1, and a complete boot: one flash operation only erases
      page 0, two leave both pages VALID, three or more format. */
  function AfterWindow(m1: map<Half, Half>, budgets: seq<nat>): map<Half, Half>
    decreases |budgets|
  {
    if budgets == [] || budgets[0] >= 3 then map[] else if budgets[0] == 1 then m1 else AfterWindow(m1, budgets[1..])
  }

  /** The map after boots from a transfer that stands for m, and a complete boot. */
  function FromTransfer(ph: Phase, m: map<Half, Half>, m1: map<Half, Half>, budgets: seq<nat>): map<Half, Half>
    decreases |budgets|
  {
    if budgets == [] || budgets[0] >= 2 * ph.copies + 2 then m
    else if budgets[0] == 2 * ph.copies + 1 then AfterWindow(m1, budgets[1..])
    else FromTransfer(After(ph, budgets[0]), m, m1, budgets[1..])
  }

  ghost predicate Loses(f: Flash, vars: seq<Half>, budgets: seq<nat>) {
    Transferring(f, vars) && LosesFrom(PhaseOf(f, vars), budgets)
  }

  /** The map that boots with these budgets and then a complete one leave, from f, if every copy finds room. */
  ghost function Outcome(f: Flash, vars: seq<Half>, budgets: seq<nat>): map<Half, Half> {
    if Window(f, vars) then AfterWindow(Contents(f.p1, vars), budgets)
    else if Transferring(f, vars) then FromTransfer(PhaseOf(f, vars), Meaning(f, vars), Second(f, vars), budgets)
    else Meaning(f, vars)
  }

  lemma {:induction false} NotLost(ph: Phase, m: map<Half, Half>, m1: map<Half, Half>, budgets: seq<nat>)
    requires !LosesFrom(ph, budgets)
    ensures FromTransfer(ph, m, m1, budgets) == m
    decreases |budgets|
  {
    if budgets != [] && budgets[0] <= 2 * ph.copies {
      NotLost(After(ph, budgets[0]), m, m1, budgets[1..]);
    }
  }

  lemma RecoverableApart(f: Flash, vars: seq<Half>)
    requires Recoverable(f, vars)
    ensures !Window(f, vars)
  {
  }

  /** Boots none of which is cut when both pages are VALID keep the map. */
  lemma KeptUnlessLost(f: Flash, vars: seq<Half>, budgets: seq<nat>)
    requires Recoverable(f, vars) && !Loses(f, vars, budgets)
    ensures Outcome(f, vars, budgets) == Meaning(f, vars)
  {
    RecoverableApart(f, vars);
    hide Recoverable, Window, Transferring, Meaning;
    if Transferring(f, vars) {
      NotLost(PhaseOf(f, vars), Meaning(f, vars), Second(f, vars), budgets);
    }
  }

  /** While slot 1 is not blank the dangerous budget is always the same. */
  lemma {:induction false} LosesIff(ph: Phase, budgets: seq<nat>)
    requires !ph.open
    ensures LosesFrom(ph, budgets) <==>
              exists i: nat :: i < |budgets| && budgets[i] == 2 * ph.copies + 1 && forall j | 0 <= j < i :: budgets[j] <= 2 * ph.copies
    decreases |budgets|
  {
    if budgets != [] {
      var rest := budgets[1..];
      LosesIff(ph, rest);
      if LosesFrom(ph, rest) && budgets[0] <= 2 * ph.copies {
        var i: nat :| i < |rest| && rest[i] == 2 * ph.copies + 1 && forall j | 0 <= j < i :: rest[j] <= 2 * ph.copies;
        assert budgets[i + 1] == rest[i] && forall j | 0 <= j < i + 1 :: budgets[j] == if j == 0 then budgets[0] else rest[j - 1];
      }
      if i: nat :| i < |budgets| && budgets[i] == 2 * ph.copies + 1 && forall j | 0 <= j < i :: budgets[j] <= 2 * ph.copies {
        if i > 0 {
          assert rest[i - 1] == budgets[i] && forall j | 0 <= j < i - 1 :: rest[j] == budgets[j + 1];
        }
      }
    }
  }

  /** Budgets to avoid. */
  predicate Avoids(budgets: seq<nat>, copies: int) {
    forall b | b in budgets :: b != 2 * copies + 1
  }

  lemma {:induction false} AvoidedKeeps(ph: Phase, budgets: seq<nat>)
    requires Avoids(budgets, ph.copies) && (ph.open ==> Avoids(budgets, ph.copies - 1))
    ensures !LosesFrom(ph, budgets)
    decreases |budgets|
  {
    if budgets != [] {
      assert budgets[0] in budgets;
      assert forall b | b in budgets[1..] :: b in budgets;
      if budgets[0] <= 2 * ph.copies {
        AvoidedKeeps(After(ph, budgets[0]), budgets[1..]);
      }
    }
  }

  /** No boot cut after an even number of flash operations loses anything. */
  lemma EvenKeeps(f: Flash, vars: seq<Half>, budgets: seq<nat>)
    requires forall b | b in budgets :: b % 2 == 0
    ensures !Loses(f, vars, budgets)
  {
    AvoidedKeeps(PhaseOf(f, vars), budgets);
  }

  // ----- how much there is to copy

  /** Those of the first i variables that are still to be copied. */
  ghost function ToBeCopied(src: Page, dst: Page, vars: seq<Half>, i: nat): set<Half>
    requires i <= |vars|
  {
    set a | a in vars[..i] && a != AddrAt(dst, 1) && Newest(src, a).Some?
  }

  lemma {:induction false} ToCopyCounts(src: Page, dst: Page, vars: seq<Half>, i: nat)
    requires GoodVars(vars) && i <= |vars|
    ensures ToCopy(src, dst, vars, i) == |ToBeCopied(src, dst, vars, i)|
  {
    hide Newest;
    if i == 0 {
      assert ToBeCopied(src, dst, vars, 0) == {};
    } else {
      ToCopyCounts(src, dst, vars, i - 1);
      OneMoreCounted(src, dst, vars, i);
    }
  }

  lemma OneMoreCounted(src: Page, dst: Page, vars: seq<Half>, i: nat)
    requires GoodVars(vars) && 0 < i <= |vars|
    ensures var was, a := ToBeCopied(src, dst, vars, i - 1), vars[i - 1];
            && a !in was
            && ToBeCopied(src, dst, vars, i) == if a != AddrAt(dst, 1) && Newest(src, a).Some? then was + {a} else was
  {
    hide Newest;
    assert vars[..i] == vars[..i - 1] + [vars[i - 1]];
  }

  /** As many as the map has entries, less the one in slot 1. */
  lemma CopiesAreEntries(src: Page, dst: Page, vars: seq<Half>)
    requires GoodVars(vars) && Receiving(src, dst, vars)
    ensures ToCopy(src, dst, vars, |vars|) == |Restored(src, dst, vars)| - (if AddrAt(dst, 1) == ERASED then 0 else 1)
  {
    hide ToCopy, ToBeCopied, Receiving, Restored;
    var m, a1 := Restored(src, dst, vars), AddrAt(dst, 1);
    ToCopyCounts(src, dst, vars, |vars|);
    EntriesToCopy(src, dst, vars);
    assert |m.Keys| == |m|;
    if a1 != ERASED {
      assert m.Keys == (m.Keys - {a1}) + {a1};
    } else {
      assert m.Keys - {a1} == m.Keys;
    }
  }

  lemma EntriesToCopy(src: Page, dst: Page, vars: seq<Half>)
    requires GoodVars(vars) && Receiving(src, dst, vars)
    ensures var m, a1 := Restored(src, dst, vars), AddrAt(dst, 1);
            && ToBeCopied(src, dst, vars, |vars|) == m.Keys - {a1} && (a1 != ERASED <==> a1 in m.Keys)
  {
    hide Newest, Used;
    assert vars[..|vars|] == vars;
  }

  /** The first i variables as a set. */
  ghost function Names(vars: seq<Half>, i: nat): set<Half>
    requires i <= |vars|
  {
    if i == 0 then {} else Names(vars, i - 1) + {vars[i - 1]}
  }

  lemma NotBefore(vars: seq<Half>, i: nat)
    requires GoodVars(vars) && i < |vars|
    ensures vars[i] !in vars[..i]
  {
  }

  lemma {:induction false} NamesAre(vars: seq<Half>, i: nat)
    requires i <= |vars|
    ensures forall a :: a in Names(vars, i) <==> a in vars[..i]
  {
    if i > 0 {
      NamesAre(vars, i - 1);
      assert vars[..i] == vars[..i - 1] + [vars[i - 1]];
    }
  }

  lemma {:induction false} NamesCount(vars: seq<Half>, i: nat)
    requires GoodVars(vars) && i <= |vars|
    ensures |Names(vars, i)| == i
  {
    hide GoodVars;
    if i > 0 {
      NamesCount(vars, i - 1);
      NamesAre(vars, i - 1);
      NotBefore(vars, i - 1);
    }
  }

  lemma MeaningNames(f: Flash, vars: seq<Half>)
    requires Recoverable(f, vars)
    ensures forall a | a in Meaning(f, vars) :: a in vars
  {
  }

  /** Once every variable is stored the budgets to avoid are fixed by their number. */
  lemma SafeWhenFull(f: Flash, vars: seq<Half>, budgets: seq<nat>)
    requires GoodVars(vars) && Recoverable(f, vars) && forall a | a in vars :: a in Meaning(f, vars)
    requires Avoids(budgets, |vars|) && Avoids(budgets, |vars| - 1)
    ensures !Loses(f, vars, budgets)
  {
    hide Recoverable, Meaning, Loses, Avoids;
    var m := Meaning(f, vars);
    MeaningNames(f, vars);
    NamesCount(vars, |vars|);
    NamesAre(vars, |vars|);
    assert vars[..|vars|] == vars;
    assert m.Keys == Names(vars, |vars|);
    assert |m| == |m.Keys|;
    SafeBudgets(f, vars, budgets);
  }

  /** A recovery loses nothing if no budget is one more or one less than twice the number of entries of the map. */
  lemma SafeBudgets(f: Flash, vars: seq<Half>, budgets: seq<nat>)
    requires GoodVars(vars) && Recoverable(f, vars)
    requires Avoids(budgets, |Meaning(f, vars)|) && Avoids(budgets, |Meaning(f, vars)| - 1)
    ensures !Loses(f, vars, budgets)
  {
    if Transferring(f, vars) {
      var p := if f.p0[0] == VALID_PAGE then 0 else 1;
      var src, dst := f.Pg(p), f.Pg(1 - p);
      assert f == Pair(p, src, dst) && Receiving(src, dst, vars);
      TransferState(p, src, dst, vars);
      CopiesAreEntries(src, dst, vars);
      assert Used(dst) == 1 ==> Blank(dst, 1) && AddrAt(dst, 1) == ERASED;
      hide Receiving, Restored, ToCopy, Used, FirstHeld;
      AvoidedKeeps(PhaseOf(f, vars), budgets);
    }
  }
}
