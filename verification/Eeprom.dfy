/** EEPROM emulation on two flash pages, with power loss.

    Flash is two arrays of halfwords changed in place by two atomic operations, program-halfword
    and erase-sector. The field `power` counts the flash operations left before power is lost: an
    operation at zero does nothing and reports an error, and so do all later ones. A theorem for
    every initial `power` is a theorem for a crash between any two flash operations. */
module Eeprom {
  import opened Wrappers
  import opened Octets
  import opened FlashLog
  import opened Recovery
  import opened RecoveryPhases

  datatype Status = FLASH_COMPLETE | FLASH_ERROR | PAGE_FULL | NO_VALID_PAGE
  datatype ReadStatus = FOUND | NOT_FOUND | NO_PAGE
  datatype Operation = READ_FROM_VALID_PAGE | WRITE_IN_VALID_PAGE

  /** The two bytes of a halfword, low byte first in memory. */
  function ByteOf(h: Half, high: bool): Half {
    if high then h / 256 else h % 256
  }

  lemma BytesErased(h: Half)
    requires ByteOf(h, false) == 0xFF && ByteOf(h, true) == 0xFF
    ensures h == 0xFFFF
  {
  }

  /** The two legal ways to program a halfword store the value itself. */
  lemma StoredExactly(was: Half, v: Half)
    requires was == ERASED || (was == RECEIVE_DATA && v == VALID_PAGE)
    ensures And(was, v, 16) == v
  {
    if was == ERASED {
      assert Ones(4) == 0xF && Ones(8) == 0xFF && Ones(12) == 0xFFF;
      AndOnes(v, 16);
    }
  }

  /** What a write does to flash, and the flash operations and erases it takes. While the valid page has a blank word, one
      slot is added there by two flash operations (cut, they leave it untouched or torn), and the other page stays as it is.
      Only a full page is erased, and then the other one is valid, with at most one slot for each variable. */
  ghost predicate Written(was: Flash, now: Flash, vars: seq<Half>, st: Status, a: Half, d: Half, budget: nat, left: nat,
                          erased: int)
  {
    var p := Live(was);
    var live, u := was.Pg(p), Used(was.Pg(p));
    if u < WORDS then
      && now.Pg(1 - p) == was.Pg(1 - p) && erased == 0
      && (st == FLASH_COMPLETE <==> budget >= 2)
      && (st == FLASH_COMPLETE ==> left == budget - 2)
      && now.Pg(p) == if budget >= 2 then Appended(live, u, d, a) else if budget == 1 then Torn(live, u, d) else live
    else
      && 0 <= erased <= 1
      && (st == FLASH_COMPLETE ==>
            && erased == 1 && AllErased(now.Pg(p))
            && now.Pg(1 - p)[0] == VALID_PAGE && Used(now.Pg(1 - p)) <= 1 + |vars|)
  }

  /** What a complete boot costs and which page it leaves valid. After a transfer that is the receiving one, at two flash
      operations for each copy, one to mark it and one to erase the other; a page that is alone keeps every slot. */
  ghost predicate Booted(was: Flash, now: Flash, vars: seq<Half>, spent: int, erased: int) {
    if Formats(was) then Live(now) == 0 && Used(now.p0) == 1 && 0 <= erased <= 2
    else if Transferring(was, vars) then Live(now) == 1 - Live(was) && spent == 2 * Pending(was, vars) + 2 && erased == 1
    else
      var p := if was.p0[0] == ERASED then 1 else 0;
      now.Pg(p) == was.Pg(p)[0 := VALID_PAGE] && 0 <= erased <= spent <= 2 && erased <= 1
  }

  /** The words in use on the valid page. */
  ghost function InUse(f: Flash): nat {
    Used(f.Pg(Live(f)))
  }

  /** A complete write takes one more word, or, when there is none, an erase after which the variables take one each. */
  lemma WrittenGrows(was: Flash, now: Flash, vars: seq<Half>, a: Half, d: Half, budget: nat, left: nat, erased: int)
    requires GoodVars(vars) && Steady(was, vars) && a in vars && Written(was, now, vars, FLASH_COMPLETE, a, d, budget, left, erased)
    ensures if InUse(was) < 4096 then erased == 0 && InUse(now) == InUse(was) + 1 else erased == 1 && InUse(now) <= 1 + |vars|
  {
    var p := Live(was);
    var live, u := was.Pg(p), Used(was.Pg(p));
    assert live[0] == VALID_PAGE && WellFormed(live, vars) && was.Pg(1 - p)[0] == ERASED;
    if u < WORDS {
      AppendKeepsLog(live, vars, d, a);
      assert Appended(live, u, d, a)[0] == live[0];
    }
  }

  class Store {
    const page0: array<Half>
    const page1: array<Half>
    const vars: seq<Half>          // the variables' virtual addresses
    const virtAddVarTab: seq<Half> // NB_OF_VAR == 2 * |vars| entries, the second half zero
    var dataVar: Half
    var power: nat
    var erases: nat                // pages erased so far

    ghost predicate Valid() {
      && page0 != page1 && page0.Length == 2 * WORDS && page1.Length == 2 * WORDS
      && GoodVars(vars)
      && virtAddVarTab == vars + seq(|vars|, _ => 0)
    }

    constructor (flash0: array<Half>, flash1: array<Half>, vars: seq<Half>, power: nat)
      requires flash0 != flash1 && flash0.Length == flash1.Length == 8192 && GoodVars(vars)
      ensures Valid() && page0 == flash0 && page1 == flash1 && this.vars == vars && this.power == power && erases == 0
    {
      page0, page1 := flash0, flash1;
      this.vars := vars;
      virtAddVarTab := vars + seq(|vars|, _ => 0);
      this.power := power;
      erases := 0;
    }

    function Sector(p: nat): array<Half>
      requires p < 2
    {
      if p == 0 then page0 else page1
    }

    ghost function Img(): Flash
      requires Valid()
      reads page0, page1
    {
      Flash(page0[..], page1[..])
    }

    ghost function Map(): map<Half, Half>
      requires Valid()
      reads page0, page1
    {
      Meaning(Img(), vars)
    }

    // ----- flash operations

    /** Programming can only clear bits. The precondition is the flash discipline: every call hits an
        erased halfword or turns a RECEIVE_DATA header into VALID_PAGE, so the value is stored exactly. */
    method ProgramHalfWord(p: nat, i: nat, v: Half) returns (st: Status)
      requires Valid() && p < 2 && i < 2 * WORDS
      requires Img().Pg(p)[i] == ERASED || (i == 0 && Img().Pg(p)[0] == RECEIVE_DATA && v == VALID_PAGE)
      modifies Sector(p), this`power
      ensures st == if old(power) > 0 then FLASH_COMPLETE else FLASH_ERROR
      ensures st == FLASH_COMPLETE ==> power == old(power) - 1 && Img().Pg(p) == old(Img().Pg(p))[i := v]
      ensures st == FLASH_ERROR ==> power == 0 && Img() == old(Img())
      ensures Img().Pg(1 - p) == old(Img().Pg(1 - p))
    {
      if power == 0 {
        return FLASH_ERROR;
      }
      power := power - 1;
      var pg := Sector(p);
      StoredExactly(pg[i], v);
      pg[i] := And(pg[i], v, 16);
      assert pg[..] == old(pg[..])[i := v];
      return FLASH_COMPLETE;
    }

    method EraseSector(p: nat) returns (st: Status)
      requires Valid() && p < 2
      modifies Sector(p), this`power, this`erases
      ensures st == if old(power) > 0 then FLASH_COMPLETE else FLASH_ERROR
      ensures st == FLASH_COMPLETE ==> power == old(power) - 1 && AllErased(Img().Pg(p))
      ensures st == FLASH_ERROR ==> power == 0 && Img() == old(Img())
      ensures Img().Pg(1 - p) == old(Img().Pg(1 - p))
      ensures erases == old(erases) + if st == FLASH_COMPLETE then 1 else 0
    {
      if power == 0 {
        return FLASH_ERROR;
      }
      power, erases := power - 1, erases + 1;
      var pg := Sector(p);
      forall i | 0 <= i < pg.Length {
        pg[i] := ERASED;
      }
      return FLASH_COMPLETE;
    }

    /** Erases only a page some byte of which is programmed. */
    method EraseSectorIfNotEmpty(p: nat) returns (st: Status)
      requires Valid() && p < 2
      modifies Sector(p), this`power, this`erases
      ensures st == FLASH_COMPLETE || st == FLASH_ERROR
      ensures old(AllErased(Img().Pg(p))) ==> st == FLASH_COMPLETE && power == old(power) && Img() == old(Img())
      ensures !old(AllErased(Img().Pg(p))) ==> (st == FLASH_COMPLETE <==> old(power) > 0)
      ensures !old(AllErased(Img().Pg(p))) && st == FLASH_COMPLETE ==> power == old(power) - 1
      ensures st == FLASH_COMPLETE ==> AllErased(Img().Pg(p))
      ensures st == FLASH_ERROR ==> power == 0 && Img() == old(Img())
      ensures Img().Pg(1 - p) == old(Img().Pg(1 - p))
      ensures erases == old(erases) + if st == FLASH_COMPLETE && !old(AllErased(Img().Pg(p))) then 1 else 0
    {
      var pg := Sector(p);
      var i := 0;
      while i < 4 * WORDS
        invariant 0 <= i <= 4 * WORDS
        invariant Img() == old(Img()) && power == old(power) && erases == old(erases)
        invariant forall j | 0 <= j < i / 2 :: pg[j] == ERASED
        invariant i % 2 == 1 ==> ByteOf(pg[i / 2], false) == 0xFF
      {
        if ByteOf(pg[i / 2], i % 2 == 1) != 0xFF {
          assert Img().Pg(p)[i / 2] != ERASED;
          st := EraseSector(p);
          return;
        }
        if i % 2 == 1 {
          BytesErased(pg[i / 2]);
        }
        i := i + 1;
      }
      return FLASH_COMPLETE;
    }

    // ----- page selection, reading, appending

    function FindValidPage(op: Operation): (p: Option<nat>)
      requires Valid()
      reads page0, page1
      ensures p.Some? ==> p.value < 2
      ensures p == None <==> page0[0] != VALID_PAGE && page1[0] != VALID_PAGE
      ensures op == READ_FROM_VALID_PAGE && p.Some? ==>
                Sector(p.value)[0] == VALID_PAGE && (p.value == 1 ==> page0[0] != VALID_PAGE)
      ensures op == WRITE_IN_VALID_PAGE && p.Some? ==>
                var (mine, other) := (Sector(p.value)[0], Sector(1 - p.value)[0]);
                || (mine == RECEIVE_DATA && other == VALID_PAGE)
                || (mine == VALID_PAGE && other != RECEIVE_DATA && (other == VALID_PAGE ==> p.value == 1))
    {
      if op == WRITE_IN_VALID_PAGE then
        if page1[0] == VALID_PAGE then
          if page0[0] == RECEIVE_DATA then Some(0) else Some(1)
        else if page0[0] == VALID_PAGE then
          if page1[0] == RECEIVE_DATA then Some(1) else Some(0)
        else None
      else
        if page0[0] == VALID_PAGE then Some(0)
        else if page1[0] == VALID_PAGE then Some(1)
        else None
    }

    /** Scans the valid page from its end; the first match is the newest value. */
    method ReadVariable(virtAddress: Half) returns (st: ReadStatus, data: Half)
      requires Valid()
      ensures st == NO_PAGE <==> FindValidPage(READ_FROM_VALID_PAGE) == None
      ensures st != NO_PAGE ==>
                var pg := Img().Pg(FindValidPage(READ_FROM_VALID_PAGE).value);
                && (st == FOUND ==> Newest(pg, virtAddress) == Some(data))
                && (st == NOT_FOUND ==> Newest(pg, virtAddress) == None)
    {
      data := 0;
      var validPage := FindValidPage(READ_FROM_VALID_PAGE);
      if validPage == None {
        return NO_PAGE, data;
      }
      var pg := Sector(validPage.value);
      ghost var image: Page := pg[..];
      var address := 2 * WORDS - 1;
      while address > 1
        invariant address % 2 == 1 && 1 <= address < 2 * WORDS
        invariant Newest(image, virtAddress) == Lookup(image, virtAddress, address / 2 + 1)
      {
        assert pg[address] == AddrAt(image, address / 2) && pg[address - 1] == DataAt(image, address / 2);
        if pg[address] == virtAddress {
          return FOUND, pg[address - 1];
        }
        address := address - 2;
      }
      return NOT_FOUND, data;
    }

    /** Programs the data halfword and then the address halfword of blank word u. */
    method ProgramSlot(p: nat, u: nat, data: Half, virtAddress: Half) returns (st: Status)
      requires Valid() && p < 2 && u < WORDS && Blank(Img().Pg(p), u)
      modifies Sector(p), this`power
      ensures st == FLASH_COMPLETE || st == FLASH_ERROR
      ensures Img().Pg(1 - p) == old(Img().Pg(1 - p))
      ensures st == FLASH_COMPLETE ==>
                Img().Pg(p) == Appended(old(Img().Pg(p)), u, data, virtAddress) && power == old(power) - 2
      ensures st == FLASH_ERROR ==>
                && power == 0 && old(power) < 2
                && Img().Pg(p) == if old(power) == 0 then old(Img().Pg(p)) else Torn(old(Img().Pg(p)), u, data)
    {
      st := ProgramHalfWord(p, 2 * u, data);
      if st != FLASH_COMPLETE {
        return;
      }
      assert AddrAt(Img().Pg(p), u) == ERASED;
      st := ProgramHalfWord(p, 2 * u + 1, virtAddress);
    }

    /** Appends at the first blank word of the page being written. */
    method VerifyPageFullWriteVariable(virtAddress: Half, data: Half) returns (st: Status, ghost p: nat)
      requires Valid() && FindValidPage(WRITE_IN_VALID_PAGE).Some?
      requires WellFormed(Img().Pg(FindValidPage(WRITE_IN_VALID_PAGE).value), vars)
      modifies page0, page1, this`power
      ensures Some(p) == old(FindValidPage(WRITE_IN_VALID_PAGE))
      ensures st != NO_VALID_PAGE
      ensures Img().Pg(1 - p) == old(Img().Pg(1 - p))
      ensures st == PAGE_FULL <==> Used(old(Img().Pg(p))) == WORDS
      ensures st == PAGE_FULL ==> Img().Pg(p) == old(Img().Pg(p)) && power == old(power)
      ensures st == FLASH_COMPLETE ==>
                && Img().Pg(p) == Appended(old(Img().Pg(p)), Used(old(Img().Pg(p))), data, virtAddress)
                && power == old(power) - 2
      ensures st == FLASH_ERROR ==>
                && power == 0 && old(power) < 2
                && Used(old(Img().Pg(p))) < WORDS
                && Img().Pg(p) == if old(power) == 0 then old(Img().Pg(p)) else Torn(old(Img().Pg(p)), Used(old(Img().Pg(p))), data)
    {
      hide Used, Appended, Torn, WellFormed, FindValidPage;
      var page := FindValidPage(WRITE_IN_VALID_PAGE).value;
      p := page;
      ghost var was := Img().Pg(p);
      var pg := Sector(page);
      var address := 0;
      while address < 2 * WORDS - 1
        invariant address % 2 == 0 && 0 <= address <= 2 * WORDS
        invariant Img() == old(Img()) && power == old(power)
        invariant forall k | 0 <= k < address / 2 :: !Blank(was, k)
      {
        assert pg[address] == DataAt(was, address / 2) && pg[address + 1] == AddrAt(was, address / 2);
        if pg[address] == ERASED && pg[address + 1] == ERASED {
          UsedIs(was, address / 2);
          st := ProgramSlot(page, address / 2, data, virtAddress);
          return;
        }
        assert !Blank(was, address / 2);
        address := address + 2;
      }
      UsedIs(was, WORDS);
      return PAGE_FULL, p;
    }

    // ----- transfers

    /** The append of a copy round: variable m, whose newest value in the valid page is d. */
    method AppendCopy(ghost p: nat, ghost src: Page, ghost dst0: Page, ghost dst: Page, ghost m: nat, a: Half, d: Half,
                      ghost budget: nat)
      returns (st: Status)
      requires Valid() && p < 2 && m < |vars| && src == Img().Pg(p) && dst == Img().Pg(1 - p)
      requires Copied(src, dst0, dst, vars, m) && Tracked(src, dst0, dst, vars, m)
      requires budget == 2 * ToCopy(src, dst0, vars, m) + power
      requires a == vars[m] && a != AddrAt(dst, 1) && Newest(src, a) == Some(d)
      modifies page0, page1, this`power
      ensures Img().Pg(p) == src
      ensures st != NO_VALID_PAGE
      ensures ToCopy(src, dst0, vars, m + 1) == ToCopy(src, dst0, vars, m) + 1
      ensures st == FLASH_COMPLETE ==>
                && Copied(src, dst0, Img().Pg(1 - p), vars, m + 1) && Tracked(src, dst0, Img().Pg(1 - p), vars, m + 1)
                && power == old(power) - 2
      ensures st == PAGE_FULL ==> Img().Pg(1 - p) == dst && power == old(power) && Used(dst) == WORDS
      ensures st == FLASH_ERROR ==>
                && power == 0 && old(power) < 2 && InTransit(src, dst0, Img().Pg(1 - p), vars, Used(dst) + 1)
                && Stopped(src, dst0, Img().Pg(1 - p), vars, budget)
    {
      hide Tracked, Stopped, Used, ToCopy;
      CopyOutcomes(src, dst0, dst, vars, m);
      CopyTracked(src, dst0, dst, vars, m);
      ghost var q;
      st, q := VerifyPageFullWriteVariable(a, d);
      assert q == 1 - p;
    }

    /** One round of a copy loop: read a table entry from the valid page p and append it to the
        receiving page. The table's zero entries name no variable and are never found. */
    method CopyVariable(ghost p: nat, ghost src: Page, ghost dst0: Page, ghost dst: Page, a: Half, ghost m: nat,
                        ghost budget: nat)
      returns (st: Status)
      requires Valid() && p < 2 && m <= |vars| && src == Img().Pg(p) && dst == Img().Pg(1 - p)
      requires Copied(src, dst0, dst, vars, m) && Tracked(src, dst0, dst, vars, m)
      requires budget == 2 * ToCopy(src, dst0, vars, m) + power
      requires if m < |vars| then a == vars[m] && a != AddrAt(dst, 1) else a == 0
      modifies page0, page1, this`power, this`dataVar
      ensures Img().Pg(p) == src
      ensures st != NO_VALID_PAGE
      ensures st == FLASH_COMPLETE ==>
                var m' := if m < |vars| then m + 1 else m;
                && Copied(src, dst0, Img().Pg(1 - p), vars, m') && Tracked(src, dst0, Img().Pg(1 - p), vars, m')
                && power == old(power) - 2 * (ToCopy(src, dst0, vars, m') - ToCopy(src, dst0, vars, m))
      ensures st == PAGE_FULL || st == FLASH_ERROR ==>
                m < |vars| && ToCopy(src, dst0, vars, m + 1) == ToCopy(src, dst0, vars, m) + 1
      ensures st == PAGE_FULL ==> Img().Pg(1 - p) == dst && power == old(power) && Used(dst) == WORDS
      ensures st == FLASH_ERROR ==>
                && power == 0 && old(power) < 2 && InTransit(src, dst0, Img().Pg(1 - p), vars, Used(dst) + 1)
                && Stopped(src, dst0, Img().Pg(1 - p), vars, budget)
    {
      hide Tracked, Stopped, InTransit, Used, ToCopy;
      CopyRead(src, dst0, dst, vars, m, a);
      var readStatus, d := ReadVariable(a);
      if readStatus == NOT_FOUND {
        if m < |vars| {
          TrackedSkips(src, dst0, dst, vars, m);
        }
        return FLASH_COMPLETE;
      }
      dataVar := d;
      st := AppendCopy(p, src, dst0, dst, m, a, d, budget);
    }

    /** Copy loop of EE_Init: everything but the variable already in slot 1 of the receiving page. */
    method ResumeCopy(p: nat, ghost src: Page, ghost dst0: Page, ghost c: nat) returns (st: Status)
      requires Valid() && p < 2 && src == Img().Pg(p) && dst0 == Img().Pg(1 - p)
      requires Receiving(src, dst0, vars) && c == ToCopy(src, dst0, vars, |vars|)
      modifies page0, page1, this`power, this`dataVar
      ensures Img().Pg(p) == src
      ensures st != NO_VALID_PAGE
      ensures st == FLASH_COMPLETE ==>
                && Copied(src, dst0, Img().Pg(1 - p), vars, |vars|) && Tracked(src, dst0, Img().Pg(1 - p), vars, |vars|)
                && power == old(power) - 2 * c
      ensures st == PAGE_FULL ==>
                && InTransit(src, dst0, Img().Pg(1 - p), vars, WORDS) && Used(Img().Pg(1 - p)) == WORDS
                && Used(dst0) + c > WORDS && AddrAt(Img().Pg(1 - p), 1) == AddrAt(dst0, 1)
      ensures st == FLASH_ERROR ==>
                && power == 0 && old(power) < 2 * c
                && InTransit(src, dst0, Img().Pg(1 - p), vars, Used(dst0) + c)
                && Stopped(src, dst0, Img().Pg(1 - p), vars, old(power))
    {
      hide Tracked, Stopped, Copied, Receiving, InTransit, Used;
      NothingCopied(src, dst0, vars);
      NothingTracked(src, dst0, vars);
      ghost var n, m, dst := |vars|, 0, dst0;
      var pg := Sector(1 - p);
      var x := -1;
      var varIdx := 0;
      while varIdx < |virtAddVarTab|
        invariant 0 <= varIdx <= |virtAddVarTab| && -1 <= x < varIdx
        invariant m == if varIdx < n then varIdx else n
        invariant Img().Pg(p) == src && Img().Pg(1 - p) == dst
        invariant Copied(src, dst0, dst, vars, m) && Tracked(src, dst0, dst, vars, m)
        invariant power == old(power) - 2 * ToCopy(src, dst0, vars, m)
      {
        assert pg[3] == AddrAt(dst, 1);
        NeverZero(src, dst0, dst, vars, m);
        if pg[3] == virtAddVarTab[varIdx] {
          x := varIdx;
        }
        if varIdx != x {
          st := CopyVariable(p, src, dst0, dst, virtAddVarTab[varIdx], m, old(power));
          if st != FLASH_COMPLETE {
            CopyStopped(src, dst0, dst, vars, m);
            if st == FLASH_ERROR {
              InTransitWithin(src, dst0, Img().Pg(1 - p), vars, Used(dst) + 1, Used(dst0) + c);
            }
            return;
          }
          dst := Img().Pg(1 - p);
        } else {
          CopySkips(src, dst0, dst, vars, m);
          TrackedSkips(src, dst0, dst, vars, m);
        }
        m := if m < n then m + 1 else n;
        varIdx := varIdx + 1;
      }
      return FLASH_COMPLETE;
    }

    /** The RECEIVE/VALID branches of EE_Init: finish the interrupted transfer out of page p, mark the
        receiving page VALID, erase page p. Power failing after exactly 2c+1 operations, between the
        last two, is the one way into the Window. */
    method ResumeTransfer(p: nat, ghost src: Page, ghost dst0: Page, ghost c: nat) returns (st: Status)
      requires Valid() && p < 2 && src == Img().Pg(p) && dst0 == Img().Pg(1 - p)
      requires Receiving(src, dst0, vars) && c == ToCopy(src, dst0, vars, |vars|)
      modifies page0, page1, this`power, this`erases, this`dataVar
      ensures st != NO_VALID_PAGE
      ensures st == FLASH_COMPLETE ==>
                && power == old(power) - 2 * c - 2 && erases == old(erases) + 1 && Used(dst0) + c <= WORDS
                && SteadyOn(Img().Pg(1 - p), Img().Pg(p), vars)
                && Contents(Img().Pg(1 - p), vars) == Restored(src, dst0, vars)
      ensures st == PAGE_FULL ==>
                && Used(dst0) + c > WORDS
                && Img().Pg(p) == src && InTransit(src, dst0, Img().Pg(1 - p), vars, WORDS)
                && Used(Img().Pg(1 - p)) == WORDS && AddrAt(Img().Pg(1 - p), 1) == AddrAt(dst0, 1)
      ensures st == FLASH_ERROR ==>
                && power == 0 && old(power) < 2 * c + 2
                && Img().Pg(p) == src
                && if old(power) == 2 * c + 1
                   then Used(dst0) + c <= WORDS && Window(Img(), vars) && Contents(Img().Pg(1 - p), vars) == Restored(src, dst0, vars)
                   else InTransit(src, dst0, Img().Pg(1 - p), vars, Used(dst0) + c) && Stopped(src, dst0, Img().Pg(1 - p), vars, old(power))
    {
      hide Tracked, Stopped, Copied, Receiving, InTransit, Used, Contents, Restored, WellFormed, Window;
      st := ResumeCopy(p, src, dst0, c);
      if st != FLASH_COMPLETE {
        return;
      }
      ghost var dst := Img().Pg(1 - p);
      AllCopied(p, src, dst0, dst, vars, c);
      st := FinishTransfer(p, src, dst);
      if st == FLASH_ERROR {
        assert Img() == Pair(p, src, Img().Pg(1 - p));
      }
    }

    /** The receiving page is marked VALID, then the other one erased. */
    method FinishTransfer(p: nat, ghost src: Page, ghost dst: Page) returns (st: Status)
      requires Valid() && p < 2 && src == Img().Pg(p) && dst == Img().Pg(1 - p)
      requires Receiving(src, dst, vars)
      modifies page0, page1, this`power, this`erases
      ensures st == FLASH_COMPLETE || st == FLASH_ERROR
      ensures st == FLASH_COMPLETE ==>
                && power == old(power) - 2 && erases == old(erases) + 1
                && SteadyOn(Img().Pg(1 - p), Img().Pg(p), vars)
      ensures st == FLASH_ERROR ==> power == 0 && old(power) < 2 && Img().Pg(p) == src
      ensures Img().Pg(1 - p) == if old(power) == 0 then dst else dst[0 := VALID_PAGE]
      ensures Contents(dst[0 := VALID_PAGE], vars) == Contents(dst, vars) && WellFormed(dst[0 := VALID_PAGE], vars)
    {
      HeaderKeepsLog(dst, vars, VALID_PAGE);
      st := ProgramHalfWord(1 - p, 0, VALID_PAGE);
      if st != FLASH_COMPLETE {
        return;
      }
      st := EraseSectorIfNotEmpty(p);
    }

    method Format() returns (st: Status)
      requires Valid()
      modifies page0, page1, this`power, this`erases
      ensures st == FLASH_COMPLETE || st == FLASH_ERROR
      ensures old(power) >= 3 ==> st == FLASH_COMPLETE
      ensures st == FLASH_COMPLETE ==>
                && SteadyOn(Img().p0, Img().p1, vars) && Map() == map[] && Used(Img().p0) == 1
                && 0 <= erases - old(erases) <= 2
      ensures st == FLASH_ERROR ==>
                && power == 0
                && Img().p1 == old(Img().p1)
                && (|| Img().p0 == old(Img().p0)
                    || AllErased(Img().p0)
                    || (Img().p0[0] == VALID_PAGE && WellFormed(Img().p0, vars) && Contents(Img().p0, vars) == map[]
                        && !AllErased(Img().p1)))
      ensures st == FLASH_ERROR && !old(AllErased(Img().p0)) ==>
                || (old(power) == 0 && Img().p0 == old(Img().p0))
                || (old(power) == 1 && AllErased(Img().p0))
                || (old(power) == 2 && Img().p0[0] == VALID_PAGE && WellFormed(Img().p0, vars))
      ensures st == FLASH_COMPLETE && !old(AllErased(Img().p0)) && !old(AllErased(Img().p1)) ==> old(power) >= 3
    {
      st := EraseSectorIfNotEmpty(0);
      if st != FLASH_COMPLETE {
        return;
      }
      HeaderOnErased(Img().p0, vars, VALID_PAGE);
      st := ProgramHalfWord(0, 0, VALID_PAGE);
      if st != FLASH_COMPLETE {
        return;
      }
      st := EraseSectorIfNotEmpty(1);
    }

    // ----- the exported operations

    /** What power loss during recovery may leave. */
    ghost predicate InitCut(was: Flash, budget: nat)
      requires Valid()
      reads page0, page1, this`power
    {
      && power == 0 && budget < 2 * |vars| + 3
      && (Recoverable(was, vars) ==>
            || (Recoverable(Img(), vars) && Map() == Meaning(was, vars))
            || (CutsInWindow(was, vars, budget) && EnteredWindow(was, Img(), vars)))
      && (CutsInWindow(was, vars, budget) ==> EnteredWindow(was, Img(), vars))
      && (Window(was, vars) ==>
            Window(Img(), vars) || (SteadyOn(Img().p1, Img().p0, vars) && Img().p1 == was.p1))
      && (Recoverable(was, vars) && Transferring(Img(), vars) ==>
            Transferring(was, vars) && Room(was) <= Room(Img()) + |vars|)
      && BootCut(was, Img(), vars, budget)
    }

    /** Recovery. From any recoverable state it restores exactly the map that state stands for, however
        often it is itself interrupted, except that a power loss in the Window forfeits the guarantee. */
    method Init() returns (st: Status)
      requires Valid() && (Recoverable(Img(), vars) || Formats(Img()))
      modifies page0, page1, this`power, this`erases, this`dataVar
      ensures st != NO_VALID_PAGE
      ensures st == FLASH_COMPLETE ==>
                && Steady(Img(), vars) && Map() == (if old(Formats(Img())) then map[] else old(Map()))
                && Booted(old(Img()), Img(), vars, old(power) - power, erases - old(erases))
      ensures st == FLASH_ERROR ==> InitCut(old(Img()), old(power))
      ensures old(Transferring(Img(), vars)) && st == FLASH_COMPLETE ==>
                old(Pending(Img(), vars)) <= old(Room(Img())) && old(power) >= 2 * old(Pending(Img(), vars)) + 2
      ensures old(Window(Img(), vars)) && st == FLASH_COMPLETE ==> old(power) >= 3
      ensures old(Steady(Img(), vars)) ==> st == FLASH_COMPLETE && Img() == old(Img()) && power == old(power)
      ensures st == PAGE_FULL ==>
                && old(Transferring(Img(), vars)) && old(Pending(Img(), vars)) > old(Room(Img()))
                && Transferring(Img(), vars) && Map() == old(Map()) && Pending(Img(), vars) > Room(Img())
    {
      hide Booted, InitCut, WellFormed, Meaning, Pending, Room, Newest, Contents, Restored, Used;
      var pageStatus0, pageStatus1 := page0[0], page1[0];
      if pageStatus0 == ERASED {
        if pageStatus1 == VALID_PAGE {
          st := EraseOther(0);
        } else if pageStatus1 == RECEIVE_DATA {
          st := CompleteHandover(0);
        } else {
          st := InitFormat();
        }
      } else if pageStatus0 == RECEIVE_DATA {
        if pageStatus1 == VALID_PAGE {
          st := InitTransfer(1);
        } else if pageStatus1 == ERASED {
          st := CompleteHandover(1);
        } else {
          st := InitFormat();
        }
      } else if pageStatus0 == VALID_PAGE {
        if pageStatus1 == VALID_PAGE {
          st := InitFormat();
        } else if pageStatus1 == ERASED {
          st := EraseOther(1);
        } else {
          st := InitTransfer(0);
        }
      } else {
        st := InitFormat();
      }
    }

    /** A valid page alone: the other one is erased if anything is left on it. */
    method EraseOther(p: nat) returns (st: Status)
      requires Valid() && p < 2 && LiveOn(Img().Pg(1 - p), Img().Pg(p), vars)
      modifies page0, page1, this`power, this`erases
      ensures st == FLASH_COMPLETE || st == FLASH_ERROR
      ensures st == FLASH_COMPLETE ==>
                && Steady(Img(), vars) && Map() == old(Map())
                && Booted(old(Img()), Img(), vars, old(power) - power, erases - old(erases))
      ensures st == FLASH_ERROR ==> InitCut(old(Img()), old(power))
      ensures old(Steady(Img(), vars)) ==> st == FLASH_COMPLETE && Img() == old(Img()) && power == old(power)
    {
      hide WellFormed, Contents, Restored, Used;
      ghost var live := Img().Pg(1 - p);
      st := EraseSectorIfNotEmpty(p);
      assert Img() == Pair(1 - p, live, Img().Pg(p));
    }

    method InitFormat() returns (st: Status)
      requires Valid() && Formats(Img())
      modifies page0, page1, this`power, this`erases
      ensures st == FLASH_COMPLETE || st == FLASH_ERROR
      ensures st == FLASH_COMPLETE ==>
                && Steady(Img(), vars) && Map() == map[]
                && Booted(old(Img()), Img(), vars, old(power) - power, erases - old(erases))
      ensures old(Window(Img(), vars)) && st == FLASH_COMPLETE ==> old(power) >= 3
      ensures st == FLASH_ERROR ==> InitCut(old(Img()), old(power))
    {
      st := Format();
    }

    method InitTransfer(p: nat) returns (st: Status)
      requires Valid() && p < 2 && Receiving(Img().Pg(p), Img().Pg(1 - p), vars)
      modifies page0, page1, this`power, this`erases, this`dataVar
      ensures st != NO_VALID_PAGE
      ensures st == FLASH_COMPLETE ==>
                && Steady(Img(), vars) && Map() == old(Map())
                && Booted(old(Img()), Img(), vars, old(power) - power, erases - old(erases))
                && old(Pending(Img(), vars)) <= old(Room(Img())) && old(power) >= 2 * old(Pending(Img(), vars)) + 2
      ensures st == FLASH_ERROR ==> InitCut(old(Img()), old(power))
      ensures st == PAGE_FULL ==>
                && old(Pending(Img(), vars)) > old(Room(Img()))
                && Transferring(Img(), vars) && Map() == old(Map()) && Pending(Img(), vars) > Room(Img())
    {
      ghost var src, dst0 := Img().Pg(p), Img().Pg(1 - p);
      ghost var c := ToCopy(src, dst0, vars, |vars|);
      assert Img() == Pair(p, src, dst0);
      TransferState(p, src, dst0, vars);
      st := ResumeTransfer(p, src, dst0, c);
      ghost var dst := Img().Pg(1 - p);
      if st == FLASH_COMPLETE {
        assert Img() == Pair(1 - p, dst, Img().Pg(p));
        SteadyState(1 - p, dst, Img().Pg(p), vars);
      } else {
        assert Img() == Pair(p, src, dst);
        if Receiving(src, dst, vars) {
          TransferState(p, src, dst, vars);
          ToCopySameSlotOne(src, dst0, dst, vars, |vars|);
          if st == FLASH_ERROR && old(power) <= 2 * c {
            StoppedPhase(src, dst0, dst, vars, old(power));
          }
        } else {
          WindowState(p, src, dst0, dst, vars);
        }
      }
    }

    method CompleteHandover(p: nat) returns (st: Status)
      requires Valid() && p < 2 && Handover(Img().Pg(1 - p), Img().Pg(p), vars)
      modifies page0, page1, this`power, this`erases
      ensures st == FLASH_COMPLETE || st == FLASH_ERROR
      ensures st == FLASH_COMPLETE ==>
                && Steady(Img(), vars) && Map() == old(Map())
                && Booted(old(Img()), Img(), vars, old(power) - power, erases - old(erases))
      ensures st == FLASH_ERROR ==> InitCut(old(Img()), old(power))
    {
      ghost var dst := Img().Pg(1 - p);
      assert Img() == Pair(1 - p, dst, Img().Pg(p));
      HandoverState(1 - p, dst, Img().Pg(p), vars);
      st := EraseSectorIfNotEmpty(p);
      if st != FLASH_COMPLETE {
        return;
      }
      ghost var erased := Img().Pg(p);
      assert Img() == Pair(1 - p, dst, erased);
      HandoverState(1 - p, dst, erased, vars);
      HeaderKeepsLog(dst, vars, VALID_PAGE);
      st := ProgramHalfWord(1 - p, 0, VALID_PAGE);
      if st == FLASH_COMPLETE {
        assert Img() == Pair(1 - p, dst[0 := VALID_PAGE], erased);
        SteadyState(1 - p, dst[0 := VALID_PAGE], erased, vars);
      }
    }

    /** Copy loop of EE_PageTransfer: everything but the variable just written. */
    method TransferCopy(p: nat, virtAddress: Half, ghost src: Page, ghost dst0: Page) returns (st: Status)
      requires Valid() && p < 2 && src == Img().Pg(p) && dst0 == Img().Pg(1 - p)
      requires Receiving(src, dst0, vars) && Used(dst0) == 2 && AddrAt(dst0, 1) == virtAddress && virtAddress in vars
      modifies page0, page1, this`power, this`dataVar
      ensures Img().Pg(p) == src
      ensures st == FLASH_COMPLETE || st == FLASH_ERROR
      ensures st == FLASH_COMPLETE ==>
                && Copied(src, dst0, Img().Pg(1 - p), vars, |vars|)
                && Used(Img().Pg(1 - p)) <= 1 + |vars| && old(power) - power <= 2 * |vars| - 2
      ensures st == FLASH_ERROR ==>
                && power == 0 && old(power) < 2 * |vars|
                && InTransit(src, dst0, Img().Pg(1 - p), vars, 1 + |vars|)
    {
      hide Tracked, Stopped, Copied, Receiving, InTransit, Used, ToCopy;
      ghost var n, m, dst := |vars|, 0, dst0;
      NothingCopied(src, dst0, vars);
      NothingTracked(src, dst0, vars);
      ToCopySpares(src, dst0, vars);
      var varIdx := 0;
      while varIdx < |virtAddVarTab|
        invariant 0 <= varIdx <= |virtAddVarTab|
        invariant m == if varIdx < n then varIdx else n
        invariant Img().Pg(p) == src && Img().Pg(1 - p) == dst
        invariant Copied(src, dst0, dst, vars, m) && Tracked(src, dst0, dst, vars, m)
        invariant power == old(power) - 2 * ToCopy(src, dst0, vars, m)
      {
        CopiedSize(src, dst0, dst, vars, m);
        if virtAddVarTab[varIdx] != virtAddress {
          st := CopyVariable(p, src, dst0, dst, virtAddVarTab[varIdx], m, old(power));
          if st != FLASH_COMPLETE {
            CopyStopped(src, dst0, dst, vars, m);
            if st == FLASH_ERROR {
              InTransitWithin(src, dst0, Img().Pg(1 - p), vars, Used(dst) + 1, 1 + |vars|);
            }
            return;
          }
          dst := Img().Pg(1 - p);
        } else {
          CopySkips(src, dst0, dst, vars, m);
          TrackedSkips(src, dst0, dst, vars, m);
        }
        m := if m < n then m + 1 else n;
        varIdx := varIdx + 1;
      }
      CopiedSize(src, dst0, dst, vars, n);
      return FLASH_COMPLETE;
    }

    /** Marks the erased page RECEIVE_DATA and gives its first slot to the new write. */
    method BeginTransfer(p: nat, virtAddress: Half, data: Half, ghost src: Page, ghost blank: Page) returns (st: Status)
      requires Valid() && p < 2 && Img() == Pair(p, src, blank) && SteadyOn(src, blank, vars) && virtAddress in vars
      modifies page0, page1, this`power
      ensures Img().Pg(p) == src
      ensures st == FLASH_COMPLETE || st == FLASH_ERROR
      ensures st == FLASH_COMPLETE ==>
                var dst := Img().Pg(1 - p);
                && power == old(power) - 3
                && Receiving(src, dst, vars) && Used(dst) == 2 && AddrAt(dst, 1) == virtAddress
                && Restored(src, dst, vars) == Contents(src, vars)[virtAddress := data]
      ensures st == FLASH_ERROR ==>
                var dst := Img().Pg(1 - p);
                && power == 0 && old(power) < 3
                && (|| dst == blank
                    || (Receiving(src, dst, vars) && Used(dst) <= 2 && Restored(src, dst, vars) == Contents(src, vars)))
    {
      BlankReceives(src, blank, vars, virtAddress, data);
      st := ProgramHalfWord(1 - p, 0, RECEIVE_DATA);
      if st != FLASH_COMPLETE {
        return;
      }
      ghost var q;
      st, q := VerifyPageFullWriteVariable(virtAddress, data);
    }

    /** What power loss during a write may leave: a state that stands for the old map or the new one. */
    ghost predicate WriteCut(was: map<Half, Half>, a: Half, d: Half)
      requires Valid()
      reads page0, page1, this`power
    {
      && power == 0
      && Recoverable(Img(), vars)
      && (Map() == was || Map() == was[a := d])
      && (Transferring(Img(), vars) ==> Room(Img()) + 1 + |vars| >= WORDS)
    }

    /** Compaction of a full page onto the other one, the new write first. */
    method PageTransfer(virtAddress: Half, data: Half, ghost p: nat, ghost src: Page, ghost blank: Page) returns (st: Status)
      requires Valid() && p < 2 && Img() == Pair(p, src, blank) && SteadyOn(src, blank, vars) && virtAddress in vars
      modifies page0, page1, this`power, this`erases, this`dataVar
      ensures st == FLASH_COMPLETE || st == FLASH_ERROR
      ensures st == FLASH_COMPLETE ==>
                && Steady(Img(), vars) && Map() == Contents(src, vars)[virtAddress := data] && old(power) - power <= 2 * |vars| + 3
                && erases == old(erases) + 1 && AllErased(Img().Pg(p))
                && Img().Pg(1 - p)[0] == VALID_PAGE && Used(Img().Pg(1 - p)) <= 1 + |vars|
      ensures st == FLASH_ERROR ==>
                WriteCut(Contents(src, vars), virtAddress, data) && old(power) < 2 * |vars| + 3 && 0 <= erases - old(erases) <= 1
    {
      hide Used, Restored, Contents, Newest, WellFormed;
      var validPage := FindValidPage(READ_FROM_VALID_PAGE);
      var oldPage := validPage.value;
      assert oldPage == p;
      SteadyState(p, src, blank, vars);
      st := BeginTransfer(oldPage, virtAddress, data, src, blank);
      ghost var dst0 := Img().Pg(1 - p);
      assert Img() == Pair(p, src, dst0);
      if st != FLASH_COMPLETE {
        if dst0 != blank {
          TransferState(p, src, dst0, vars);
        }
        return;
      }
      st := TransferCopy(oldPage, virtAddress, src, dst0);
      ghost var dst := Img().Pg(1 - p);
      assert Img() == Pair(p, src, dst);
      TransferState(p, src, dst, vars);
      if st != FLASH_COMPLETE {
        return;
      }
      CopiedAll(src, dst0, dst, vars);
      st := EndTransfer(oldPage, src, dst);
    }

    /** Erases the old page, then marks the complete new one VALID. */
    method EndTransfer(p: nat, ghost src: Page, ghost dst: Page) returns (st: Status)
      requires Valid() && p < 2 && Img() == Pair(p, src, dst) && Receiving(src, dst, vars)
      requires Contents(dst, vars) == Restored(src, dst, vars)
      modifies page0, page1, this`power, this`erases
      ensures st == FLASH_COMPLETE || st == FLASH_ERROR
      ensures st == FLASH_COMPLETE ==>
                && Steady(Img(), vars) && Map() == Contents(dst, vars) && old(power) - power <= 2
                && erases == old(erases) + 1 && AllErased(Img().Pg(p))
                && Img().Pg(1 - p)[0] == VALID_PAGE && Used(Img().Pg(1 - p)) == Used(dst)
      ensures st == FLASH_ERROR ==>
                && power == 0 && old(power) < 2
                && Recoverable(Img(), vars) && Map() == Contents(dst, vars)
                && (Transferring(Img(), vars) ==> Img() == old(Img())) && 0 <= erases - old(erases) <= 1
    {
      TransferState(p, src, dst, vars);
      st := EraseSectorIfNotEmpty(p);
      if st != FLASH_COMPLETE {
        return;
      }
      ghost var erased := Img().Pg(p);
      assert Img() == Pair(1 - p, dst, erased);
      HandoverState(1 - p, dst, erased, vars);
      HeaderKeepsLog(dst, vars, VALID_PAGE);
      st := ProgramHalfWord(1 - p, 0, VALID_PAGE);
      if st == FLASH_COMPLETE {
        assert Img() == Pair(1 - p, dst[0 := VALID_PAGE], erased);
        SteadyState(1 - p, dst[0 := VALID_PAGE], erased, vars);
      }
    }

    /** A write takes effect atomically: power lost anywhere inside it leaves flash in a state that
        stands for the old map or for the new one. */
    method WriteVariable(virtAddress: Half, data: Half) returns (st: Status)
      requires Valid() && Steady(Img(), vars) && virtAddress in vars
      modifies page0, page1, this`power, this`erases, this`dataVar
      ensures st == FLASH_COMPLETE || st == FLASH_ERROR
      ensures st == FLASH_COMPLETE ==>
                Steady(Img(), vars) && Map() == old(Map())[virtAddress := data] && old(power) - power <= 2 * |vars| + 3
      ensures st == FLASH_ERROR ==> WriteCut(old(Map()), virtAddress, data) && old(power) < 2 * |vars| + 3
      ensures Written(old(Img()), Img(), vars, st, virtAddress, data, old(power), power, erases - old(erases))
    {
      ghost var p := if SteadyOn(Img().p0, Img().p1, vars) then 0 else 1;
      ghost var live, other := Img().Pg(p), Img().Pg(1 - p);
      assert Img() == Pair(p, live, other);
      SteadyState(p, live, other, vars);
      hide Used, Restored, Contents, Newest, WellFormed, Torn, Appended;
      if Used(live) < WORDS {
        SteadyAppend(p, live, other, vars, virtAddress, data);
      }
      ghost var q;
      st, q := VerifyPageFullWriteVariable(virtAddress, data);
      assert q == p;
      assert Img() == Pair(p, Img().Pg(p), other);
      if st == PAGE_FULL {
        st := PageTransfer(virtAddress, data, p, live, other);
      }
    }
  }
}
