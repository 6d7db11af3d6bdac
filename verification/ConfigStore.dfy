/** Storing the configuration record in the emulated EEPROM, two bytes to a variable. */
module ConfigStore {
  import opened Octets
  import opened FlashLog
  import opened Recovery
  import opened RecoveryPhases
  import opened Eeprom
  import opened EepromRuns

  const EEPROM_BASE_MAINCONF: nat := 1000

  /** The n virtual addresses set up at start-up. */
  function ConfVars(n: nat): (vs: seq<Half>)
    requires n < WORDS
    ensures GoodVars(vs) && |vs| == n && forall i | 0 <= i < n :: vs[i] == 1000 + i
  {
    seq(n, (i: nat) requires i < n => Addr(i))
  }

  function Addr(i: nat): Half
    requires i < WORDS
  {
    EEPROM_BASE_MAINCONF + i
  }

  /** Halfword i of the record, high byte first. */
  function HalfAt(conf: seq<Byte>, i: nat): Half
    requires 2 * i + 1 < |conf|
  {
    256 * (conf[2 * i] as int) + conf[2 * i + 1]
  }

  /** The map m with the first k halfwords of conf stored over it. */
  ghost function Stored(m: map<Half, Half>, conf: seq<Byte>, k: nat): (r: map<Half, Half>)
    requires 2 * k <= |conf| && k < WORDS
    ensures forall i | 0 <= i < k :: Addr(i) in r && r[Addr(i)] == HalfAt(conf, i)
    ensures forall i | 0 <= i < k :: Addr(i) == 1000 + i && HalfAt(conf, i) == 256 * conf[2 * i] as int + conf[2 * i + 1]
    ensures forall a: Half | !(1000 <= a < 1000 + k) :: (a in r <==> a in m) && (a in m ==> r[a] == m[a])
  {
    if k == 0 then m else Stored(m, conf, k - 1)[Addr(k - 1) := HalfAt(conf, k - 1)]
  }

  ghost predicate ForConfig(s: Store, size: nat)
    reads s.page0, s.page1
  {
    s.Valid() && size % 2 == 0 && size / 2 < WORDS && s.vars == ConfVars(size / 2)
  }

  ghost predicate Apart(s: Store, conf: array<Byte>) {
    conf as object != s.page0 as object && conf as object != s.page1 as object
  }

  /** Stores the record variable by variable. A power loss anywhere in the loop leaves the first k
      halfwords new and the rest as they were, for some k. */
  method StoreMainConfig(s: Store, conf: array<Byte>) returns (ok: bool, ghost k: nat)
    requires ForConfig(s, conf.Length) && Apart(s, conf) && Steady(s.Img(), s.vars)
    modifies s.page0, s.page1, s`power, s`erases, s`dataVar
    ensures 2 * k <= conf.Length && s.Map() == Stored(old(s.Map()), conf[..], k)
    ensures ok ==> k == conf.Length / 2 && Steady(s.Img(), s.vars)
    ensures !ok ==> Recoverable(s.Img(), s.vars)
                    && (Transferring(s.Img(), s.vars) ==> Room(s.Img()) + 1 + |s.vars| >= WORDS)
    ensures !ok ==> old(s.power) < AllAmple(|s.vars|, |s.vars|)
  {
    hide Meaning, Recoverable, Transferring, Room, Steady, Written;
    ghost var m, n, bytes := s.Map(), conf.Length / 2, conf[..];
    ghost var now := m;
    var i := 0;
    k := 0;
    while i < conf.Length / 2
      invariant i <= n && k == i && conf[..] == bytes
      invariant Steady(s.Img(), s.vars)
      invariant s.Map() == now && now == Stored(m, bytes, i)
      invariant s.power + AllAmple(i, n) >= old(s.power)
    {
      var v := 256 * (conf[2 * i] as int) + conf[2 * i + 1];
      assert s.vars[i] == Addr(i) && v == HalfAt(bytes, i);
      StoredStep(m, bytes, i);
      var st := s.WriteVariable(EEPROM_BASE_MAINCONF + i, v);
      if st != FLASH_COMPLETE {
        AllAmpleGrows(i + 1, n);
        k := if s.Map() == now then i else i + 1;
        return false, k;
      }
      i := i + 1;
      k := i;
      now := now[Addr(i - 1) := v];
    }
    return true, k;
  }

  lemma StoredStep(m: map<Half, Half>, conf: seq<Byte>, i: nat)
    requires 2 * i + 2 <= |conf| && i + 1 < WORDS
    ensures Stored(m, conf, i + 1) == Stored(m, conf, i)[Addr(i) := HalfAt(conf, i)]
  {
  }

  /** Flash operations that suffice for i writes when there are n variables. */
  ghost function AllAmple(i: nat, n: nat): nat {
    if i == 0 then 0 else AllAmple(i - 1, n) + 2 * n + 3
  }

  lemma {:induction false} AllAmpleGrows(i: nat, n: nat)
    requires i <= n
    ensures AllAmple(i, n) <= AllAmple(n, n)
    decreases n - i
  {
    if i < n {
      AllAmpleGrows(i + 1, n);
    }
  }

  method Overwrite(conf: array<Byte>, bytes: seq<Byte>)
    requires |bytes| == conf.Length
    modifies conf
    ensures conf[..] == bytes
  {
    forall k | 0 <= k < conf.Length {
      conf[k] := bytes[k];
    }
  }

  method StoreHalf(conf: array<Byte>, i: nat, v: Half)
    requires 2 * i + 2 <= conf.Length
    modifies conf
    ensures HalfAt(conf[..], i) == v
    ensures forall j | 0 <= j < i :: HalfAt(conf[..], j) == HalfAt(old(conf[..]), j)
  {
    conf[2 * i] := v / 256;
    conf[2 * i + 1] := v % 256;
  }

  /** The loop that loads the record, up to the first variable that is missing. */
  method LoadRecord(s: Store, conf: array<Byte>) returns (ok: bool)
    requires ForConfig(s, conf.Length) && Apart(s, conf) && Steady(s.Img(), s.vars)
    modifies conf
    ensures s.Img() == old(s.Img())
    ensures ok <==> forall a | a in s.vars :: a in s.Map()
    ensures ok ==> forall i | 0 <= i < conf.Length / 2 :: s.Map()[s.vars[i]] == HalfAt(conf[..], i)
  {
    hide Recoverable, Transferring, Room, Steady, Meaning, HalfAt;
    ghost var m := s.Map();
    ok := true;
    var i := 0;
    while i < conf.Length / 2
      invariant i <= conf.Length / 2 && ok
      invariant forall j | 0 <= j < i :: s.vars[j] in m && m[s.vars[j]] == HalfAt(conf[..], j)
    {
      SteadyRead(s.Img(), s.vars, s.vars[i]);
      var st, v := s.ReadVariable(EEPROM_BASE_MAINCONF + i);
      if st == FOUND {
        StoreHalf(conf, i, v);
      } else {
        ok := false;
        break;
      }
      i := i + 1;
    }
  }

  /** Loads the record, or the default one when some variable is missing, and sanitises it. */
  method ReadMainConf(s: Store, conf: array<Byte>, defaults: seq<Byte>, sanitise: seq<Byte> -> seq<Byte>)
    returns (ok: bool, ghost loaded: seq<Byte>)
    requires ForConfig(s, conf.Length) && Apart(s, conf) && Steady(s.Img(), s.vars) && |defaults| == conf.Length
    requires forall b | |b| == conf.Length :: |sanitise(b)| == conf.Length
    modifies conf
    ensures s.Img() == old(s.Img()) && |loaded| == conf.Length
    ensures ok <==> forall a | a in s.vars :: a in s.Map()
    ensures ok ==> forall i | 0 <= i < |loaded| / 2 :: s.Map()[s.vars[i]] == HalfAt(loaded, i)
    ensures !ok ==> loaded == defaults
    ensures conf[..] == sanitise(loaded)
  {
    hide Recoverable, Transferring, Room, Steady, Meaning, HalfAt;
    ok := LoadRecord(s, conf);
    if !ok {
      Overwrite(conf, defaults);
    }
    loaded := conf[..];
    Overwrite(conf, sanitise(conf[..]));
  }

  lemma SameHalves(a: seq<Byte>, b: seq<Byte>)
    requires |a| == |b| && |a| % 2 == 0
    requires forall i | 0 <= i < |a| / 2 :: HalfAt(a, i) == HalfAt(b, i)
    ensures a == b
  {
    forall j | 0 <= j < |a|
      ensures a[j] == b[j]
    {
      assert HalfAt(a, j / 2) == HalfAt(b, j / 2);
    }
  }

  /** The stored record reads back as the bytes of `conf`. */
  ghost predicate Holds(m: map<Half, Half>, conf: seq<Byte>) {
    && |conf| / 2 < WORDS
    && forall i | 0 <= i < |conf| / 2 :: Addr(i) in m && m[Addr(i)] == HalfAt(conf, i)
  }

  /** Storing the first k halfwords over a record that holds `was`. */
  lemma StoredMix(m: map<Half, Half>, conf: seq<Byte>, was: seq<Byte>, k: nat)
    requires |conf| == |was| && |conf| % 2 == 0 && 2 * k <= |conf| && Holds(m, was)
    ensures Holds(Stored(m, conf, k), conf[..2 * k] + was[2 * k..])
  {
    var mix := conf[..2 * k] + was[2 * k..];
    forall i | 0 <= i < |mix| / 2
      ensures HalfAt(mix, i) == if i < k then HalfAt(conf, i) else HalfAt(was, i)
    {
    }
  }

  /** Store then load gives back the same bytes, sanitised. */
  method StoreThenRead(s: Store, conf: array<Byte>, out: array<Byte>, defaults: seq<Byte>, sanitise: seq<Byte> -> seq<Byte>)
    returns (ok: bool)
    requires conf != out && conf.Length == out.Length == |defaults|
    requires forall b | |b| == out.Length :: |sanitise(b)| == out.Length
    requires ForConfig(s, conf.Length) && Apart(s, conf) && Apart(s, out)
    requires Steady(s.Img(), s.vars) && s.power >= AllAmple(|s.vars|, |s.vars|)
    modifies s.page0, s.page1, s`power, s`erases, s`dataVar, out
    ensures ok && out[..] == sanitise(conf[..])
  {
    ghost var k;
    ok, k := StoreMainConfig(s, conf);
    ghost var loaded;
    ok, loaded := ReadMainConf(s, out, defaults, sanitise);
    SameHalves(conf[..], loaded);
  }

  /** The boots after a store, if it was cut; the state between the two settles what they lose. */
  method BootAfterStore(s: Store, complete: bool, budgets: seq<nat>) returns (ghost lost: bool)
    requires s.Valid() && (|budgets| + 2) * |s.vars| < WORDS
    requires if complete then Steady(s.Img(), s.vars)
             else Recoverable(s.Img(), s.vars) && (Transferring(s.Img(), s.vars) ==> Room(s.Img()) + 1 + |s.vars| >= WORDS)
    modifies s.page0, s.page1, s`power, s`erases, s`dataVar
    ensures Steady(s.Img(), s.vars) && lost == Loses(old(s.Img()), s.vars, budgets)
    ensures s.Map() == Outcome(old(s.Img()), s.vars, budgets)
    ensures !lost ==> s.Map() == old(s.Map())
  {
    hide Meaning, Recoverable, Transferring, Room, Steady, Outcome, Loses;
    if complete {
      SteadyOutcome(s.Img(), s.vars, budgets);
      NoTransfer(s.Img(), s.vars, budgets);
      lost := false;
    } else {
      if Transferring(s.Img(), s.vars) {
        RoomSuffices(s.Img(), |s.vars|, |budgets|);
      }
      lost := Reboot(s, budgets);
    }
  }

  /** Store cut by power loss, then boots (themselves cut as `budgets` say), then load: the record is a prefix of the new
      bytes followed by the old ones, unless a boot was cut in the Window; the state cut that the store left settles whether
      one is, and none is if no budget is 2n + 1 or 2n - 1 for the n variables of the record. */
  method StoreCutThenRead(s: Store, conf: array<Byte>, out: array<Byte>, ghost was: seq<Byte>, defaults: seq<Byte>,
                            sanitise: seq<Byte> -> seq<Byte>, budgets: seq<nat>)
    returns (ok: bool, ghost k: nat, ghost lost: bool, ghost cut: Flash)
    requires conf != out && conf.Length == out.Length == |was| == |defaults|
    requires forall b | |b| == out.Length :: |sanitise(b)| == out.Length
    requires ForConfig(s, conf.Length) && Apart(s, conf) && Apart(s, out)
    requires Steady(s.Img(), s.vars) && Holds(s.Map(), was)
    requires (|budgets| + 2) * |s.vars| < WORDS
    modifies s.page0, s.page1, s`power, s`erases, s`dataVar, out
    ensures 2 * k <= conf.Length && Recoverable(cut, s.vars) && Meaning(cut, s.vars) == Stored(old(s.Map()), conf[..], k)
    ensures s.Map() == Outcome(cut, s.vars, budgets) && lost == Loses(cut, s.vars, budgets)
    ensures !lost ==> ok && out[..] == sanitise(conf[..2 * k] + was[2 * k..])
    ensures !ok ==> out[..] == sanitise(defaults)
    ensures Avoids(budgets, |s.vars|) && Avoids(budgets, |s.vars| - 1) ==> !lost
  {
    hide Meaning, Recoverable, Transferring, Room, Steady, Stored, HalfAt, Outcome, Loses, Avoids;
    ghost var m := s.Map();
    ok, k := StoreMainConfig(s, conf);
    cut := s.Img();
    if ok {
      SteadyIsRecoverable(cut, s.vars);
    }
    HeldEverywhere(m, conf[..], was, k, s.vars);
    if Avoids(budgets, |s.vars|) && Avoids(budgets, |s.vars| - 1) {
      SafeWhenFull(cut, s.vars, budgets);
    }
    lost := BootAfterStore(s, ok, budgets);
    ghost var loaded;
    ok, loaded := ReadMainConf(s, out, defaults, sanitise);
    if !lost {
      LoadedMix(s.Map(), s.vars, conf[..], was, k, m, loaded);
    }
  }

  lemma SteadyIsRecoverable(f: Flash, vars: seq<Half>)
    requires Steady(f, vars)
    ensures Recoverable(f, vars)
  {
  }

  lemma HeldEverywhere(m: map<Half, Half>, conf: seq<Byte>, was: seq<Byte>, k: nat, vars: seq<Half>)
    requires |conf| == |was| && |conf| % 2 == 0 && 2 * k <= |conf| && Holds(m, was) && vars == ConfVars(|conf| / 2)
    ensures forall a | a in vars :: a in Stored(m, conf, k)
  {
    StoredMix(m, conf, was, k);
    hide Stored, HalfAt;
  }

  lemma LoadedMix(now: map<Half, Half>, vars: seq<Half>, conf: seq<Byte>, was: seq<Byte>, k: nat, m: map<Half, Half>,
                  loaded: seq<Byte>)
    requires |conf| == |was| == |loaded| && |conf| % 2 == 0 && 2 * k <= |conf| && Holds(m, was) && vars == ConfVars(|conf| / 2)
    requires now == Stored(m, conf, k)
    requires forall i | 0 <= i < |loaded| / 2 :: vars[i] in now && now[vars[i]] == HalfAt(loaded, i)
    ensures loaded == conf[..2 * k] + was[2 * k..]
  {
    StoredMix(m, conf, was, k);
    hide Stored, HalfAt;
    assert forall i | 0 <= i < |vars| :: vars[i] == Addr(i);
    SameHalves(conf[..2 * k] + was[2 * k..], loaded);
  }
}
