/** The image of one flash page and the log of (data, address) slots it holds.

    A page is 0x4000 bytes: 4096 words of two halfwords. Halfword 0 is the page header;
    word k (1 <= k < 4096) is a slot whose data is halfword 2k and whose virtual address
    is halfword 2k+1. */
module FlashLog {
  import opened Wrappers
  import opened Octets

  const WORDS: nat := 4096
  const ERASED: Half := 0xFFFF
  const RECEIVE_DATA: Half := 0xEEEE
  const VALID_PAGE: Half := 0x0000

  type Page = s: seq<Half> | |s| == 2 * WORDS witness seq(2 * WORDS, _ => ERASED)

  function DataAt(pg: Page, k: nat): Half
    requires k < WORDS
  {
    pg[2 * k]
  }

  function AddrAt(pg: Page, k: nat): Half
    requires k < WORDS
  {
    pg[2 * k + 1]
  }

  /** The 32-bit word k reads 0xFFFFFFFF. */
  predicate Blank(pg: Page, k: nat)
    requires k < WORDS
  {
    DataAt(pg, k) == ERASED && AddrAt(pg, k) == ERASED
  }

  ghost predicate AllErased(pg: Page) {
    forall i | 0 <= i < 2 * WORDS :: pg[i] == ERASED
  }

  /** The first blank word at or after word k, or WORDS when there is none. */
  ghost function FirstBlank(pg: Page, k: nat): (r: nat)
    requires k <= WORDS
    ensures k <= r <= WORDS
    ensures forall j | k <= j < r :: !Blank(pg, j)
    ensures r < WORDS ==> Blank(pg, r)
    decreases WORDS - k
  {
    if k == WORDS || Blank(pg, k) then k else FirstBlank(pg, k + 1)
  }

  /** Words in use, the header word included. */
  ghost function Used(pg: Page): (r: nat)
    ensures 1 <= r <= WORDS
  {
    FirstBlank(pg, 1)
  }

  /** Used words form a prefix followed by blank words, the header is programmed, and every
      slot is either torn (data programmed, address still erased) or names a variable. */
  ghost predicate WellFormed(pg: Page, vars: seq<Half>) {
    && pg[0] != ERASED
    && (forall k | Used(pg) <= k < WORDS :: Blank(pg, k))
    && (forall k | 1 <= k < WORDS :: AddrAt(pg, k) == ERASED || AddrAt(pg, k) in vars)
  }

  /** Backward scan: the data of the newest slot below word k that carries address a. */
  ghost function Lookup(pg: Page, a: Half, k: nat): Option<Half>
    requires k <= WORDS
  {
    if k <= 1 then None
    else if AddrAt(pg, k - 1) == a then Some(DataAt(pg, k - 1))
    else Lookup(pg, a, k - 1)
  }

  ghost function Newest(pg: Page, a: Half): Option<Half> {
    Lookup(pg, a, WORDS)
  }

  ghost function NewestValue(pg: Page, a: Half): Half
    requires Newest(pg, a).Some?
  {
    Newest(pg, a).value
  }

  /** The key/value map a page stands for. */
  ghost function Contents(pg: Page, vars: seq<Half>): map<Half, Half> {
    map a | a in vars && Newest(pg, a).Some? :: NewestValue(pg, a)
  }

  /** Variable addresses: pairwise distinct, neither 0 nor 0xFFFF, and few enough to fit a page. */
  ghost predicate GoodVars(vars: seq<Half>) {
    && |vars| < WORDS
    && (forall i | 0 <= i < |vars| :: vars[i] != 0 && vars[i] != ERASED)
    && (forall i, j | 0 <= i < j < |vars| :: vars[i] != vars[j])
  }

  /** Bitwise and of the low n bits: what programming y over x leaves in a cell. */
  function And(x: nat, y: nat, n: nat): (r: nat)
    ensures r <= y
  {
    if n == 0 then 0 else (x % 2) * (y % 2) + 2 * And(x / 2, y / 2, n - 1)
  }

  /** The number whose n bits are all set; Ones(16) == ERASED. */
  function Ones(n: nat): nat {
    if n == 0 then 0 else 2 * Ones(n - 1) + 1
  }

  /** Programming over erased bits stores exactly the value. */
  lemma {:induction false} AndOnes(v: nat, n: nat)
    requires v <= Ones(n)
    ensures And(Ones(n), v, n) == v
  {
    if n > 0 {
      AndOnes(v / 2, n - 1);
    }
  }

  // ----- a page with one word programmed

  /** Word u after its data halfword, and then its address halfword, is programmed. */
  function Torn(pg: Page, u: nat, d: Half): Page
    requires u < WORDS
  {
    pg[2 * u := d]
  }

  function Appended(pg: Page, u: nat, d: Half, a: Half): Page
    requires u < WORDS
  {
    Torn(pg, u, d)[2 * u + 1 := a]
  }

  lemma {:induction false} LookupFrame(pg: Page, pg': Page, a: Half, k: nat)
    requires k <= WORDS
    requires forall j | 1 <= j < k :: AddrAt(pg, j) == AddrAt(pg', j)
    requires forall j | 1 <= j < k && AddrAt(pg, j) != ERASED :: DataAt(pg, j) == DataAt(pg', j)
    requires a != ERASED
    ensures Lookup(pg, a, k) == Lookup(pg', a, k)
  {
    if k > 1 {
      LookupFrame(pg, pg', a, k - 1);
    }
  }

  lemma {:induction false} LookupSkips(pg: Page, a: Half, u: nat, k: nat)
    requires 1 <= u <= k <= WORDS
    requires forall j | u <= j < k :: AddrAt(pg, j) != a
    ensures Lookup(pg, a, k) == Lookup(pg, a, u)
  {
    if u < k {
      LookupSkips(pg, a, u, k - 1);
    }
  }

  /** What a scan returns is the data of some slot carrying that address. */
  lemma {:induction false} LookupWitness(pg: Page, a: Half, k: nat) returns (j: nat)
    requires k <= WORDS && Lookup(pg, a, k).Some?
    ensures 1 <= j < k && AddrAt(pg, j) == a && DataAt(pg, j) == Lookup(pg, a, k).value
    ensures forall i | j < i < k :: AddrAt(pg, i) != a
  {
    if AddrAt(pg, k - 1) == a {
      j := k - 1;
    } else {
      j := LookupWitness(pg, a, k - 1);
    }
  }

  /** Power lost between the two halfwords of a slot: the page stays a well-formed log that
      answers every lookup as before. (When d is 0xFFFF the word is simply still blank.) */
  lemma TornKeepsLog(pg: Page, vars: seq<Half>, d: Half)
    requires WellFormed(pg, vars) && Used(pg) < WORDS
    ensures WellFormed(Torn(pg, Used(pg), d), vars)
    ensures Used(pg) <= Used(Torn(pg, Used(pg), d)) <= Used(pg) + 1
    ensures forall a | a != ERASED :: Newest(Torn(pg, Used(pg), d), a) == Newest(pg, a)
    ensures forall k | 1 <= k < WORDS :: AddrAt(Torn(pg, Used(pg), d), k) == AddrAt(pg, k)
    ensures forall k | 1 <= k < WORDS && k != Used(pg) :: DataAt(Torn(pg, Used(pg), d), k) == DataAt(pg, k)
  {
    var u := Used(pg);
    var t := Torn(pg, u, d);
    assert Blank(pg, u);
    assert forall k | 1 <= k < WORDS :: AddrAt(t, k) == AddrAt(pg, k);
    assert forall k | 1 <= k < WORDS && k != u :: DataAt(t, k) == DataAt(pg, k);
    assert forall k | 1 <= k < WORDS && k != u :: Blank(t, k) == Blank(pg, k);
    UsedIs(t, if Blank(t, u) then u else u + 1);
    forall a | a != ERASED
      ensures Newest(t, a) == Newest(pg, a)
    {
      LookupFrame(pg, t, a, WORDS);
    }
  }

  lemma UsedIs(pg: Page, u: nat)
    requires 1 <= u <= WORDS
    requires forall k | 1 <= k < u :: !Blank(pg, k)
    requires u < WORDS ==> Blank(pg, u)
    ensures Used(pg) == u
  {
    var r := FirstBlank(pg, 1);
  }

  /** A completed append occupies exactly one more word and overrides exactly one address. */
  lemma AppendKeepsLog(pg: Page, vars: seq<Half>, d: Half, a: Half)
    requires WellFormed(pg, vars) && Used(pg) < WORDS && a in vars && a != ERASED
    ensures WellFormed(Appended(pg, Used(pg), d, a), vars)
    ensures Used(Appended(pg, Used(pg), d, a)) == Used(pg) + 1
    ensures forall b | b != ERASED ::
              Newest(Appended(pg, Used(pg), d, a), b) == if b == a then Some(d) else Newest(pg, b)
    ensures forall k | 1 <= k < WORDS && k != Used(pg) ::
              AddrAt(Appended(pg, Used(pg), d, a), k) == AddrAt(pg, k)
              && DataAt(Appended(pg, Used(pg), d, a), k) == DataAt(pg, k)
    ensures AddrAt(Appended(pg, Used(pg), d, a), Used(pg)) == a
    ensures DataAt(Appended(pg, Used(pg), d, a), Used(pg)) == d
  {
    var u := Used(pg);
    var t := Appended(pg, u, d, a);
    assert forall k | 0 <= k < WORDS && k != u :: AddrAt(t, k) == AddrAt(pg, k) && DataAt(t, k) == DataAt(pg, k);
    assert forall k | 0 <= k < WORDS && k != u :: Blank(t, k) == Blank(pg, k);
    UsedIs(t, u + 1);
    forall b | b != ERASED
      ensures Newest(t, b) == if b == a then Some(d) else Newest(pg, b)
    {
      assert forall j | u <= j < WORDS :: Blank(pg, j) && AddrAt(pg, j) == ERASED;
      assert forall j | u + 1 <= j < WORDS :: AddrAt(t, j) == AddrAt(pg, j);
      LookupSkips(pg, b, u, WORDS);
      LookupSkips(t, b, u + 1, WORDS);
      LookupFrame(pg, t, b, u);
    }
  }

  /** Reprogramming the header changes nothing else. */
  lemma HeaderKeepsLog(pg: Page, vars: seq<Half>, h: Half)
    requires h != ERASED
    ensures Used(pg[0 := h]) == Used(pg)
    ensures WellFormed(pg, vars) ==> WellFormed(pg[0 := h], vars)
    ensures forall a | a != ERASED :: Newest(pg[0 := h], a) == Newest(pg, a)
    ensures forall k | 1 <= k < WORDS :: AddrAt(pg[0 := h], k) == AddrAt(pg, k) && DataAt(pg[0 := h], k) == DataAt(pg, k)
    ensures GoodVars(vars) ==> Contents(pg[0 := h], vars) == Contents(pg, vars)
  {
    var t: Page := pg[0 := h];
    assert forall k | 1 <= k < WORDS :: AddrAt(t, k) == AddrAt(pg, k) && DataAt(t, k) == DataAt(pg, k);
    assert forall k | 1 <= k < WORDS :: Blank(t, k) == Blank(pg, k);
    UsedIs(t, Used(pg));
    forall a | a != ERASED
      ensures Newest(t, a) == Newest(pg, a)
    {
      LookupFrame(pg, t, a, WORDS);
    }
  }

  /** An erased page whose header has just been programmed is an empty log. */
  lemma HeaderOnErased(pg: Page, vars: seq<Half>, h: Half)
    requires AllErased(pg) && h != ERASED && GoodVars(vars)
    ensures WellFormed(pg[0 := h], vars) && Used(pg[0 := h]) == 1
    ensures Contents(pg[0 := h], vars) == map[]
    ensures AddrAt(pg[0 := h], 1) == ERASED
  {
    var t: Page := pg[0 := h];
    assert forall k | 1 <= k < WORDS :: Blank(t, k);
    UsedIs(t, 1);
    forall a | a in vars
      ensures Newest(t, a) == None
    {
      LookupSkips(t, a, 1, WORDS);
    }
  }
}
