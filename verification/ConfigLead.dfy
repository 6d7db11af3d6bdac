/** The leading fields of a configuration packet, which are read without regard to its length. */
module ConfigLead {
  import opened Octets
  import opened ConfigWire

  /** What the program reads as the leading fields, and where they end. */
  function Lead(data: Bytes): (seq<Item>, nat) {
    DecAll(BaseLayout(), data, 0)
  }

  lemma {:induction false} NameSame(d1: Bytes, d2: Bytes, i: nat, len: nat)
    requires i <= |d1| && i <= |d2| && i + |Name(d1, i)| < len <= |d1| && len <= |d2| && d1[..len] == d2[..len]
    ensures Name(d2, i) == Name(d1, i)
    decreases |d1| - i
  {
    assert d1[i] == d1[..len][i] == d2[..len][i] == d2[i];
    if d1[i] != 0 {
      NameSame(d1, d2, i + 1, len);
    }
  }

  /** A field that ends by len depends on no byte from len on. */
  lemma OneRead(k: Kind, d1: Bytes, d2: Bytes, i: nat, len: nat)
    requires i <= |d1| && i <= |d2| && len <= |d1| && len <= |d2| && d1[..len] == d2[..len]
    requires Whole(k, d1, i) && !Overlong(k, d1, i) && Dec(k, d1, i).1 <= len
    ensures Dec(k, d2, i) == Dec(k, d1, i)
  {
    if k == Text {
      NameSame(d1, d2, i, len);
    } else {
      OneFixed(k, d1, d1, i, |d1|);
      OneFixed(k, d1, d2, i, len);
    }
  }

  lemma {:induction false} Forward(ks: seq<Kind>, data: Bytes, i: nat)
    requires i <= |data|
    ensures i <= DecAll(ks, data, i).1 <= |data|
    decreases |ks|
  {
    hide Dec;
    if ks != [] {
      DecForward(ks[0], data, i);
      Forward(ks[1..], data, Dec(ks[0], data, i).1);
    }
  }

  lemma DecForward(k: Kind, data: Bytes, i: nat)
    requires i <= |data|
    ensures i <= Dec(k, data, i).1 <= |data|
  {
    DecInside(k, data, i);
  }

  lemma {:induction false} AllRead(ks: seq<Kind>, d1: Bytes, d2: Bytes, i: nat, len: nat)
    requires i <= |d1| && i <= |d2| && len <= |d1| && len <= |d2| && d1[..len] == d2[..len]
    requires Enough(ks, d1, i) && !Outside(ks, d1, i) && DecAll(ks, d1, i).1 <= len
    ensures DecAll(ks, d2, i) == DecAll(ks, d1, i)
    decreases |ks|
  {
    hide Dec, Whole, Overlong;
    if ks != [] {
      DecForward(ks[0], d1, i);
      Forward(ks[1..], d1, Dec(ks[0], d1, i).1);
      OneRead(ks[0], d1, d2, i, len);
      AllRead(ks[1..], d1, d2, Dec(ks[0], d1, i).1, len);
    }
  }

  /** Words that differ only in their last byte are different numbers. */
  lemma FloatsDiffer(v: nat, w: nat)
    requires v < 0x1_0000_0000 && w < 0x1_0000_0000 && v / 256 == w / 256 && v != w
    ensures FloatOf(v) != FloatOf(w)
  {
    SameHigh(v, w);
  }

  lemma SameHigh(v: nat, w: nat)
    requires v / 256 == w / 256
    ensures v / FRACTION == w / FRACTION
    ensures v % FRACTION == w % FRACTION ==> v == w
  {
    assert v / FRACTION == v / 256 / 32768 && w / FRACTION == w / 256 / 32768;
  }

  lemma Regrouped(x: Item, xs: seq<Item>, y: Item)
    ensures [x] + (xs + [y]) == [x] + xs + [y]
  {
  }

  lemma {:induction false} DecSnoc(ks: seq<Kind>, k: Kind, data: Bytes, i: nat)
    requires i <= |data|
    ensures DecAll(ks, data, i).1 <= |data|
    ensures DecAll(ks + [k], data, i) ==
            (DecAll(ks, data, i).0 + [Dec(k, data, DecAll(ks, data, i).1).0], Dec(k, data, DecAll(ks, data, i).1).1)
    decreases |ks|
  {
    hide Dec;
    if ks == [] {
      assert ks + [k] == [k] && [k][1..] == [];
      DecInside(k, data, i);
      var (f, j) := Dec(k, data, i);
      assert DecAll([], data, j) == ([], j) && [f] + [] == [] + [f];
    } else {
      assert (ks + [k])[0] == ks[0] && (ks + [k])[1..] == ks[1..] + [k];
      DecInside(ks[0], data, i);
      var j := Dec(ks[0], data, i).1;
      DecSnoc(ks[1..], k, data, j);
      Regrouped(Dec(ks[0], data, i).0, DecAll(ks[1..], data, j).0, Dec(k, data, DecAll(ks[1..], data, j).1).0);
    }
  }

  lemma {:induction false} EnoughSnoc(ks: seq<Kind>, k: Kind, data: Bytes, i: nat)
    requires i <= |data| && Enough(ks + [k], data, i) && !Outside(ks + [k], data, i)
    ensures Enough(ks, data, i) && !Outside(ks, data, i)
    ensures DecAll(ks, data, i).1 <= |data| && Whole(k, data, DecAll(ks, data, i).1)
    decreases |ks|
  {
    hide Dec, Whole, Overlong;
    if ks == [] {
      assert (ks + [k])[0] == k;
    } else {
      assert (ks + [k])[0] == ks[0] && (ks + [k])[1..] == ks[1..] + [k];
      DecInside(ks[0], data, i);
      EnoughSnoc(ks[1..], k, data, Dec(ks[0], data, i).1);
    }
  }

  function Changed(data: Bytes, i: nat): (r: Bytes)
    requires i < |data|
    ensures |r| == |data|
  {
    var b: int := data[i];
    data[i := (b + 1) % 256]
  }

  /** Another byte at the end of the last field, a float, is another last field. */
  lemma LastByteMatters(ks: seq<Kind>, data: Bytes, i: nat)
    requires i <= |data| && Enough(ks + [Auto], data, i) && !Outside(ks + [Auto], data, i)
    ensures var n := DecAll(ks + [Auto], data, i).1;
            && i < n <= |data|
            && DecAll(ks + [Auto], Changed(data, n - 1), i).0 != DecAll(ks + [Auto], data, i).0
  {
    hide FloatOf, Dec, DecAll, Enough, Outside;
    EnoughSnoc(ks, Auto, data, i);
    DecSnoc(ks, Auto, data, i);
    var j := DecAll(ks, data, i).1;
    Forward(ks, data, i);
    LastFloat(data, j);
    var other := Changed(data, j + 3);
    AllRead(ks, data, other, i, j);
    DecSnoc(ks, Auto, other, i);
    var a, x, y := DecAll(ks, data, i).0, Dec(Auto, data, j).0, Dec(Auto, other, j).0;
    assert (a + [x])[|a|] == x && (a + [y])[|a|] == y;
  }

  lemma LastFloat(data: Bytes, j: nat)
    requires j <= |data| && Whole(Auto, data, j)
    ensures j + 4 <= |data| && Dec(Auto, data, j).1 == j + 4
    ensures Dec(Auto, Changed(data, j + 3), j).0 != Dec(Auto, data, j).0
  {
    var other := Changed(data, j + 3);
    var v, w := Get32(data, j), Get32(other, j);
    assert v / 256 == 256 * Get16(data, j) + data[j + 2] && w / 256 == v / 256;
    hide FloatOf;
    FloatsDiffer(v, w);
  }

  lemma BaseEnd()
    ensures exists ks :: BaseLayout() == ks + [Auto]
  {
    hide Compass, Positioning, Following, Logging, LoggingTo, Vehicle;
    assert Autos(15) == Autos(14) + [Auto];
    var ks := BaseFront() + ([Text] + (LoggingTo() + Vehicle() + Autos(14)));
    assert BaseLayout() == ks + [Auto];
  }

  lemma StaleByte(data: Bytes, len: nat)
    requires len <= |data| && Enough(BaseLayout(), data, 0) && !Outside(BaseLayout(), data, 0) && Lead(data).1 > len
    ensures exists other: Bytes :: |other| == |data| && other[..len] == data[..len] && Lead(other) != Lead(data)
  {
    hide Enough, Outside, DecAll, BaseLayout;
    var n := Lead(data).1;
    BaseEnd();
    var ks :| BaseLayout() == ks + [Auto];
    LastByteMatters(ks, data, 0);
    var other := Changed(data, n - 1);
    assert other[..len] == data[..len];
  }

  lemma NoStaleByte(data: Bytes, other: Bytes, len: nat)
    requires len <= |data| && Enough(BaseLayout(), data, 0) && !Outside(BaseLayout(), data, 0) && Lead(data).1 <= len
    requires |other| == |data| && other[..len] == data[..len]
    ensures Lead(other) == Lead(data)
  {
    hide Enough, Outside, DecAll, BaseLayout;
    AllRead(BaseLayout(), data, other, 0, len);
  }

  /** The leading fields depend on the packet alone if and only if they end inside it. */
  lemma LeadFromPacket(data: Bytes, len: nat)
    requires len <= |data| && Enough(BaseLayout(), data, 0) && !Outside(BaseLayout(), data, 0)
    ensures (forall other: Bytes | |other| == |data| && other[..len] == data[..len] :: Lead(other) == Lead(data)) <==>
              Lead(data).1 <= len
  {
    hide Enough, Outside, Lead, BaseLayout;
    if Lead(data).1 <= len {
      forall other: Bytes | |other| == |data| && other[..len] == data[..len] ensures Lead(other) == Lead(data) {
        NoStaleByte(data, other, len);
      }
    } else {
      StaleByte(data, len);
    }
  }
}
