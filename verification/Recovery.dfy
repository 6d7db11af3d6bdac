/** The states two flash pages can be in, and the map recovery restores from each. */
module Recovery {
  import opened Wrappers
  import opened Octets
  import opened FlashLog

  datatype Flash = Flash(p0: Page, p1: Page) {
    function Pg(p: nat): Page
      requires p < 2
    {
      if p == 0 then p0 else p1
    }
  }

  /** One VALID page, the other fully erased. */
  ghost predicate SteadyOn(live: Page, other: Page, vars: seq<Half>) {
    live[0] == VALID_PAGE && WellFormed(live, vars) && AllErased(other)
  }

  /** A transfer in progress. Slot 1 of the receiving page holds the newest value of its variable;
      every later slot is a copy of the source's newest value of some other variable. */
  ghost predicate Receiving(src: Page, dst: Page, vars: seq<Half>) {
    && src[0] == VALID_PAGE && WellFormed(src, vars)
    && dst[0] == RECEIVE_DATA && WellFormed(dst, vars)
    && (forall k | 2 <= k < WORDS && AddrAt(dst, k) != ERASED ::
          AddrAt(dst, k) != AddrAt(dst, 1) && Newest(src, AddrAt(dst, k)) == Some(DataAt(dst, k)))
  }

  /** As steady, except that of the other page only the header is known to be erased. */
  ghost predicate LiveOn(live: Page, other: Page, vars: seq<Half>) {
    live[0] == VALID_PAGE && WellFormed(live, vars) && other[0] == ERASED
  }

  /** The source page's header is erased and the receiving page complete, but not yet marked VALID. */
  ghost predicate Handover(dst: Page, other: Page, vars: seq<Half>) {
    dst[0] == RECEIVE_DATA && WellFormed(dst, vars) && other[0] == ERASED
  }

  ghost predicate Fresh(f: Flash) {
    AllErased(f.p0) && AllErased(f.p1)
  }

  ghost predicate Steady(f: Flash, vars: seq<Half>) {
    SteadyOn(f.p0, f.p1, vars) || SteadyOn(f.p1, f.p0, vars)
  }

  /** The page in use in a steady state. */
  function Live(f: Flash): (p: nat)
    ensures p < 2
  {
    if f.p0[0] == VALID_PAGE then 0 else 1
  }

  ghost predicate Transferring(f: Flash, vars: seq<Half>) {
    Receiving(f.p0, f.p1, vars) || Receiving(f.p1, f.p0, vars)
  }

  /** Every state from which EE_Init restores a definite map. */
  ghost predicate Recoverable(f: Flash, vars: seq<Half>) {
    || LiveOn(f.p0, f.p1, vars) || LiveOn(f.p1, f.p0, vars)
    || Transferring(f, vars)
    || Handover(f.p0, f.p1, vars) || Handover(f.p1, f.p0, vars)
    || Fresh(f)
  }

  /** The one unsafe window: both pages VALID. */
  ghost predicate Window(f: Flash, vars: seq<Half>) {
    && f.p0[0] == VALID_PAGE && WellFormed(f.p0, vars)
    && f.p1[0] == VALID_PAGE && WellFormed(f.p1, vars)
  }

  /** Header pairs for which EE_Init formats both pages, whatever they contain. */
  predicate Formats(f: Flash) {
    if f.p0[0] == ERASED then f.p1[0] != VALID_PAGE && f.p1[0] != RECEIVE_DATA
    else if f.p0[0] == RECEIVE_DATA then f.p1[0] != VALID_PAGE && f.p1[0] != ERASED
    else if f.p0[0] == VALID_PAGE then f.p1[0] == VALID_PAGE
    else true
  }

  /** They are all pairs but page 0 VALID with any other page 1, and the four of an ERASED or RECEIVE_DATA page 0 with another
      page 1 that is VALID, RECEIVE_DATA or ERASED. */
  lemma FormatsIff(f: Flash)
    ensures Formats(f) <==>
              && (f.p0[0] == 0 ==> f.p1[0] == 0)
              && (f.p0[0] == 0xFFFF ==> f.p1[0] != 0 && f.p1[0] != 0xEEEE)
              && (f.p0[0] == 0xEEEE ==> f.p1[0] != 0 && f.p1[0] != 0xFFFF)
  {
  }

  /** The map a transfer in progress stands for: the source, with slot 1's write on top. */
  ghost function Restored(src: Page, dst: Page, vars: seq<Half>): map<Half, Half> {
    if AddrAt(dst, 1) == ERASED then Contents(src, vars)
    else Contents(src, vars)[AddrAt(dst, 1) := DataAt(dst, 1)]
  }

  /** The map that recovery will restore from f. */
  ghost function Meaning(f: Flash, vars: seq<Half>): map<Half, Half> {
    if f.p0[0] == VALID_PAGE && f.p1[0] == RECEIVE_DATA then Restored(f.p0, f.p1, vars)
    else if f.p1[0] == VALID_PAGE && f.p0[0] == RECEIVE_DATA then Restored(f.p1, f.p0, vars)
    else if f.p0[0] != ERASED then Contents(f.p0, vars)
    else if f.p1[0] != ERASED then Contents(f.p1, vars)
    else map[]
  }

  /** How many of the first i variables recovery still has to copy into dst. */
  ghost function ToCopy(src: Page, dst: Page, vars: seq<Half>, i: nat): (n: nat)
    requires i <= |vars|
    ensures n <= i
  {
    if i == 0 then 0
    else ToCopy(src, dst, vars, i - 1) +
         if vars[i - 1] != AddrAt(dst, 1) && Newest(src, vars[i - 1]).Some? then 1 else 0
  }

  /** Slots recovery will append, and blank slots left, in the receiving page of a transfer. */
  ghost function Pending(f: Flash, vars: seq<Half>): nat {
    if f.p0[0] == VALID_PAGE then ToCopy(f.p0, f.p1, vars, |vars|) else ToCopy(f.p1, f.p0, vars, |vars|)
  }

  ghost function Room(f: Flash): nat {
    WORDS - (if f.p0[0] == VALID_PAGE then Used(f.p1) else Used(f.p0))
  }

  // ----- the same facts for either assignment of roles to the two pages

  /** The flash whose page p is a and whose other page is b. */
  function Pair(p: nat, a: Page, b: Page): (f: Flash)
    requires p < 2
    ensures f.Pg(p) == a && f.Pg(1 - p) == b
  {
    if p == 0 then Flash(a, b) else Flash(b, a)
  }

  lemma SteadyState(p: nat, live: Page, other: Page, vars: seq<Half>)
    requires p < 2 && SteadyOn(live, other, vars)
    ensures Steady(Pair(p, live, other), vars) && Recoverable(Pair(p, live, other), vars)
    ensures Meaning(Pair(p, live, other), vars) == Contents(live, vars)
    ensures !Transferring(Pair(p, live, other), vars)
  {
  }

  lemma TransferState(p: nat, src: Page, dst: Page, vars: seq<Half>)
    requires p < 2 && Receiving(src, dst, vars)
    ensures Transferring(Pair(p, src, dst), vars) && Recoverable(Pair(p, src, dst), vars)
    ensures Meaning(Pair(p, src, dst), vars) == Restored(src, dst, vars)
    ensures Room(Pair(p, src, dst)) == WORDS - Used(dst)
    ensures Pending(Pair(p, src, dst), vars) == ToCopy(src, dst, vars, |vars|)
  {
  }

  lemma HandoverState(p: nat, dst: Page, other: Page, vars: seq<Half>)
    requires p < 2 && Handover(dst, other, vars)
    ensures Recoverable(Pair(p, dst, other), vars) && !Transferring(Pair(p, dst, other), vars)
    ensures Meaning(Pair(p, dst, other), vars) == Contents(dst, vars)
  {
  }

  lemma WindowState(p: nat, src: Page, dst0: Page, dst: Page, vars: seq<Half>)
    requires p < 2 && Receiving(src, dst0, vars) && Window(Pair(p, src, dst), vars)
    requires Contents(dst, vars) == Restored(src, dst0, vars)
    ensures EnteredWindow(Pair(p, src, dst0), Pair(p, src, dst), vars)
    ensures !Recoverable(Pair(p, src, dst), vars) && !Transferring(Pair(p, src, dst), vars)
  {
  }

  /** Appending to a steady page, power lost between the two halfwords or not at all. */
  lemma SteadyAppend(p: nat, live: Page, other: Page, vars: seq<Half>, a: Half, d: Half)
    requires p < 2 && GoodVars(vars) && SteadyOn(live, other, vars) && Used(live) < WORDS && a in vars
    ensures var f := Pair(p, Torn(live, Used(live), d), other);
            Steady(f, vars) && Recoverable(f, vars) && !Transferring(f, vars) && Meaning(f, vars) == Contents(live, vars)
    ensures var f := Pair(p, Appended(live, Used(live), d, a), other);
            Steady(f, vars) && Meaning(f, vars) == Contents(live, vars)[a := d]
  {
    TornKeepsLog(live, vars, d);
    AppendKeepsLog(live, vars, d, a);
    var torn, full := Torn(live, Used(live), d), Appended(live, Used(live), d, a);
    SteadyState(p, torn, other, vars);
    SteadyState(p, full, other, vars);
    assert Contents(torn, vars) == Contents(live, vars);
    assert Contents(full, vars) == Contents(live, vars)[a := d];
  }

  /** The pending copies depend on the receiving page only through the variable its slot 1 names. */
  lemma {:induction false} ToCopySameSlotOne(src: Page, dst: Page, dst': Page, vars: seq<Half>, i: nat)
    requires i <= |vars|
    ensures AddrAt(dst, 1) == AddrAt(dst', 1) ==> ToCopy(src, dst, vars, i) == ToCopy(src, dst', vars, i)
  {
    if i > 0 {
      ToCopySameSlotOne(src, dst, dst', vars, i - 1);
    }
  }

  /** Power failed between marking the new page VALID and erasing the old one. */
  ghost predicate EnteredWindow(was: Flash, now: Flash, vars: seq<Half>) {
    && Window(now, vars)
    && (if was.p0[0] == VALID_PAGE then Contents(now.p1, vars) else Contents(now.p0, vars)) == Meaning(was, vars)
  }

  /** A boot with this power is cut exactly between marking the new page VALID and erasing the old one. */
  ghost predicate CutsInWindow(was: Flash, vars: seq<Half>, budget: nat) {
    Transferring(was, vars) && Pending(was, vars) <= Room(was) && budget == 2 * Pending(was, vars) + 1
  }

  lemma {:induction false} ToCopyGrows(src: Page, dst: Page, vars: seq<Half>, i: nat, j: nat)
    requires i <= j <= |vars|
    ensures ToCopy(src, dst, vars, i) <= ToCopy(src, dst, vars, j)
  {
    if i < j {
      ToCopyGrows(src, dst, vars, i, j - 1);
    }
  }

  /** The first slot of a fresh receiving page may hold any write; power loss inside it leaves
      the old map, completing it leaves the new one. */
  lemma ReceiveFirst(src: Page, dst: Page, vars: seq<Half>, a: Half, d: Half)
    requires GoodVars(vars) && Receiving(src, dst, vars) && Used(dst) == 1 && AddrAt(dst, 1) == ERASED && a in vars
    ensures Receiving(src, Torn(dst, 1, d), vars)
    ensures Restored(src, Torn(dst, 1, d), vars) == Restored(src, dst, vars) == Contents(src, vars)
    ensures Receiving(src, Appended(dst, 1, d, a), vars)
    ensures Restored(src, Appended(dst, 1, d, a), vars) == Contents(src, vars)[a := d]
  {
    TornKeepsLog(dst, vars, d);
    AppendKeepsLog(dst, vars, d, a);
    assert forall k | 1 <= k < WORDS :: Blank(dst, k) && AddrAt(dst, k) == ERASED;
  }

  /** An erased page marked RECEIVE_DATA, then with its first slot torn, then with it written. */
  lemma BlankReceives(src: Page, blank: Page, vars: seq<Half>, a: Half, d: Half)
    requires GoodVars(vars) && SteadyOn(src, blank, vars) && a in vars
    ensures var dst := blank[0 := RECEIVE_DATA];
            && Receiving(src, dst, vars) && Used(dst) == 1 && Restored(src, dst, vars) == Contents(src, vars)
            && Receiving(src, Torn(dst, 1, d), vars) && Used(Torn(dst, 1, d)) <= 2
            && Restored(src, Torn(dst, 1, d), vars) == Contents(src, vars)
            && Receiving(src, Appended(dst, 1, d, a), vars) && Used(Appended(dst, 1, d, a)) == 2
            && AddrAt(Appended(dst, 1, d, a), 1) == a
            && Restored(src, Appended(dst, 1, d, a), vars) == Contents(src, vars)[a := d]
  {
    var dst := blank[0 := RECEIVE_DATA];
    HeaderOnErased(blank, vars, RECEIVE_DATA);
    assert forall k | 1 <= k < WORDS :: Blank(dst, k) && AddrAt(dst, k) == ERASED;
    ReceiveFirst(src, dst, vars, a, d);
    TornKeepsLog(dst, vars, d);
    AppendKeepsLog(dst, vars, d, a);
  }

  /** Copying a variable other than slot 1's changes the meaning at no flash operation. */
  lemma ReceiveCopy(src: Page, dst: Page, vars: seq<Half>, a: Half)
    requires GoodVars(vars) && Receiving(src, dst, vars) && Used(dst) < WORDS && a in vars
    requires a != AddrAt(dst, 1) && Newest(src, a).Some?
    ensures var d := Newest(src, a).value; var u := Used(dst);
            && Receiving(src, Torn(dst, u, d), vars)
            && Restored(src, Torn(dst, u, d), vars) == Restored(src, dst, vars)
            && Receiving(src, Appended(dst, u, d, a), vars)
            && Restored(src, Appended(dst, u, d, a), vars) == Restored(src, dst, vars)
  {
    var d, u := Newest(src, a).value, Used(dst);
    TornKeepsLog(dst, vars, d);
    AppendKeepsLog(dst, vars, d, a);
    if u == 1 {
      assert forall k | 1 <= k < WORDS :: Blank(dst, k) && AddrAt(dst, k) == ERASED;
      assert Contents(src, vars)[a := d] == Contents(src, vars);
    }
  }

  /** Apart from slot 1's variable, a receiving page never contradicts its source. */
  lemma CopiesAgree(src: Page, dst: Page, vars: seq<Half>, a: Half)
    requires Receiving(src, dst, vars) && a != ERASED && a != AddrAt(dst, 1)
    ensures Newest(dst, a) == None || Newest(dst, a) == Newest(src, a)
  {
    if Newest(dst, a).Some? {
      var j := LookupWitness(dst, a, WORDS);
    }
  }

  /** The first m variables have been copied from src to dst, which started as dst0. */
  ghost predicate Copied(src: Page, dst0: Page, dst: Page, vars: seq<Half>, m: nat)
    requires m <= |vars|
  {
    && Receiving(src, dst0, vars) && Receiving(src, dst, vars)
    && Restored(src, dst, vars) == Restored(src, dst0, vars)
    && Used(dst) == Used(dst0) + ToCopy(src, dst0, vars, m)
    && (|| AddrAt(dst, 1) == AddrAt(dst0, 1)
        || (Used(dst0) == 1 && AddrAt(dst0, 1) == ERASED && AddrAt(dst, 1) in vars[..m]))
    && (forall j | 0 <= j < m :: vars[j] == AddrAt(dst, 1) || Newest(dst, vars[j]) == Newest(src, vars[j]))
  }

  lemma NothingCopied(src: Page, dst: Page, vars: seq<Half>)
    requires Receiving(src, dst, vars)
    ensures Copied(src, dst, dst, vars, 0)
  {
  }

  /** A variable that is slot 1's own, or that the source does not hold, is passed over. */
  lemma CopySkips(src: Page, dst0: Page, dst: Page, vars: seq<Half>, m: nat)
    requires GoodVars(vars) && m < |vars| && Copied(src, dst0, dst, vars, m)
    requires vars[m] == AddrAt(dst, 1) || Newest(src, vars[m]) == None
    ensures Copied(src, dst0, dst, vars, m + 1)
    ensures ToCopy(src, dst0, vars, m + 1) == ToCopy(src, dst0, vars, m)
  {
    hide Receiving, Restored, Used, Newest;
    if vars[m] != AddrAt(dst, 1) {
      CopiesAgree(src, dst, vars, vars[m]);
    }
    assert vars[..m + 1] == vars[..m] + [vars[m]];
  }

  lemma CopyAppends(src: Page, dst0: Page, dst: Page, vars: seq<Half>, m: nat)
    requires GoodVars(vars) && m < |vars| && Copied(src, dst0, dst, vars, m)
    requires vars[m] != AddrAt(dst, 1) && Newest(src, vars[m]).Some? && Used(dst) < WORDS
    ensures Copied(src, dst0, Appended(dst, Used(dst), Newest(src, vars[m]).value, vars[m]), vars, m + 1)
  {
    ReceiveCopy(src, dst, vars, vars[m]);
    AppendedReads(src, dst, vars, m);
    CopyCounts(src, dst0, dst, vars, m);
  }

  /** What one more copied variable changes in how dst reads. */
  lemma AppendedReads(src: Page, dst: Page, vars: seq<Half>, m: nat)
    requires GoodVars(vars) && m < |vars| && WellFormed(dst, vars) && Used(dst) < WORDS
    requires Newest(src, vars[m]).Some?
    requires forall j | 0 <= j < m :: vars[j] == AddrAt(dst, 1) || Newest(dst, vars[j]) == Newest(src, vars[j])
    ensures var dst' := Appended(dst, Used(dst), Newest(src, vars[m]).value, vars[m]);
            && Used(dst') == Used(dst) + 1
            && (AddrAt(dst', 1) == AddrAt(dst, 1) || (Used(dst) == 1 && AddrAt(dst, 1) == ERASED && AddrAt(dst', 1) == vars[m]))
            && (forall j | 0 <= j < m + 1 :: vars[j] == AddrAt(dst', 1) || Newest(dst', vars[j]) == Newest(src, vars[j]))
    ensures vars[m] in vars[..m + 1] && forall a | a in vars[..m] :: a in vars[..m + 1]
  {
    AppendKeepsLog(dst, vars, Newest(src, vars[m]).value, vars[m]);
    assert Blank(dst, Used(dst));
    assert vars[..m + 1] == vars[..m] + [vars[m]];
  }

  lemma CopyCounts(src: Page, dst0: Page, dst: Page, vars: seq<Half>, m: nat)
    requires GoodVars(vars) && m < |vars| && Copied(src, dst0, dst, vars, m)
    requires vars[m] != AddrAt(dst, 1) && Newest(src, vars[m]).Some?
    ensures ToCopy(src, dst0, vars, m + 1) == ToCopy(src, dst0, vars, m) + 1
  {
    assert vars[m] != ERASED;
  }

  /** What reading a table entry a from the source tells: the zero entries (m == |vars|) are never
      found, and a variable that is not found needs no copy. */
  lemma CopyRead(src: Page, dst0: Page, dst: Page, vars: seq<Half>, m: nat, a: Half)
    requires GoodVars(vars) && m <= |vars| && Copied(src, dst0, dst, vars, m)
    requires if m < |vars| then a == vars[m] else a == 0
    ensures Newest(src, a).Some? ==> m < |vars|
    ensures Newest(src, a) == None && m < |vars| ==>
              Copied(src, dst0, dst, vars, m + 1) && ToCopy(src, dst0, vars, m + 1) == ToCopy(src, dst0, vars, m)
  {
    if m == |vars| {
      LookupSkips(src, 0, 1, WORDS);
    } else if Newest(src, a) == None {
      CopySkips(src, dst0, dst, vars, m);
    }
  }

  /** A state power loss may leave while dst is being filled: nothing of the map is lost, and
      dst uses at most `limit` words. */
  ghost predicate InTransit(src: Page, dst0: Page, dst: Page, vars: seq<Half>, limit: nat) {
    Receiving(src, dst, vars) && Restored(src, dst, vars) == Restored(src, dst0, vars) && Used(dst) <= limit
  }

  /** Both ways an attempted copy of variable m can end: torn or appended. */
  lemma CopyOutcomes(src: Page, dst0: Page, dst: Page, vars: seq<Half>, m: nat)
    requires GoodVars(vars) && m < |vars| && Copied(src, dst0, dst, vars, m)
    requires vars[m] != AddrAt(dst, 1) && Newest(src, vars[m]).Some?
    ensures ToCopy(src, dst0, vars, m + 1) == ToCopy(src, dst0, vars, m) + 1
    ensures InTransit(src, dst0, dst, vars, Used(dst))
    ensures var d := Newest(src, vars[m]).value;
            Used(dst) < WORDS ==>
              && Copied(src, dst0, Appended(dst, Used(dst), d, vars[m]), vars, m + 1)
              && InTransit(src, dst0, Torn(dst, Used(dst), d), vars, Used(dst) + 1)
  {
    CopyCounts(src, dst0, dst, vars, m);
    if Used(dst) < WORDS {
      CopyAppends(src, dst0, dst, vars, m);
      ReceiveCopy(src, dst, vars, vars[m]);
      TornKeepsLog(dst, vars, Newest(src, vars[m]).value);
    }
  }

  /** What is known when a copy of variable m fails. */
  lemma CopyStopped(src: Page, dst0: Page, dst: Page, vars: seq<Half>, m: nat)
    requires GoodVars(vars) && m < |vars| && Copied(src, dst0, dst, vars, m)
    requires ToCopy(src, dst0, vars, m + 1) == ToCopy(src, dst0, vars, m) + 1
    ensures ToCopy(src, dst0, vars, m) + 1 <= ToCopy(src, dst0, vars, |vars|)
    ensures Used(dst) + 1 <= Used(dst0) + ToCopy(src, dst0, vars, |vars|)
    ensures Used(dst) == WORDS ==> AddrAt(dst, 1) == AddrAt(dst0, 1) && InTransit(src, dst0, dst, vars, WORDS)
  {
    ToCopyGrows(src, dst0, vars, m + 1, |vars|);
  }

  lemma CopiedSize(src: Page, dst0: Page, dst: Page, vars: seq<Half>, m: nat)
    requires m <= |vars| && Copied(src, dst0, dst, vars, m)
    ensures Used(dst) == Used(dst0) + ToCopy(src, dst0, vars, m)
    ensures Used(dst0) > 1 ==> AddrAt(dst, 1) == AddrAt(dst0, 1)
  {
  }

  lemma InTransitWithin(src: Page, dst0: Page, dst: Page, vars: seq<Half>, limit: nat, more: nat)
    requires InTransit(src, dst0, dst, vars, limit) && limit <= more
    ensures InTransit(src, dst0, dst, vars, more)
  {
  }

  /** Slot 1 settles which entry is skipped; no zero entry of the table ever is. */
  lemma NeverZero(src: Page, dst0: Page, dst: Page, vars: seq<Half>, m: nat)
    requires GoodVars(vars) && m <= |vars| && Copied(src, dst0, dst, vars, m)
    ensures AddrAt(dst, 1) != 0
  {
  }

  /** When all variables have been passed, dst alone is the map. */
  lemma CopiedAll(src: Page, dst0: Page, dst: Page, vars: seq<Half>)
    requires GoodVars(vars) && Copied(src, dst0, dst, vars, |vars|)
    ensures Contents(dst, vars) == Restored(src, dst0, vars)
  {
    var a1 := AddrAt(dst, 1);
    if a1 != ERASED {
      LookupSkips(dst, a1, 2, WORDS);
    }
    forall a | a in vars
      ensures Newest(dst, a) == if a == a1 then Some(DataAt(dst, 1)) else Newest(src, a)
    {
    }
  }

  /** A page that already holds one of the variables in slot 1 needs at most the others. */
  lemma {:induction false} ToCopySparesSlotOne(src: Page, dst: Page, vars: seq<Half>, i: nat, j: nat)
    requires j < i <= |vars| && vars[j] == AddrAt(dst, 1)
    ensures ToCopy(src, dst, vars, i) <= i - 1
  {
    if j < i - 1 {
      ToCopySparesSlotOne(src, dst, vars, i - 1, j);
    }
  }

  lemma ToCopySpares(src: Page, dst: Page, vars: seq<Half>)
    requires AddrAt(dst, 1) in vars
    ensures ToCopy(src, dst, vars, |vars|) <= |vars| - 1 && ToCopy(src, dst, vars, 0) == 0
  {
    var j: nat :| j < |vars| && vars[j] == AddrAt(dst, 1);
    ToCopySparesSlotOne(src, dst, vars, |vars|, j);
  }

  /** In a steady state the page selected for reading answers exactly as the map does. */
  lemma SteadyRead(f: Flash, vars: seq<Half>, a: Half)
    requires Steady(f, vars) && a in vars
    ensures var pg := if f.p0[0] == VALID_PAGE then f.p0 else f.p1;
            && pg[0] == VALID_PAGE
            && (a in Meaning(f, vars) <==> Newest(pg, a).Some?)
            && (a in Meaning(f, vars) ==> Newest(pg, a) == Some(Meaning(f, vars)[a]))
  {
    var p := if f.p0[0] == VALID_PAGE then 0 else 1;
    SteadyState(p, f.Pg(p), f.Pg(1 - p), vars);
  }
}
