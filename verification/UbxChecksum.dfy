/** The checksum of a UBX frame: two running sums, and the sums they come to. */
module UbxChecksum {
  import opened Octets
  import opened Arithmetic

  function Add(a: Byte, b: Byte): Byte {
    (a + b) % 256
  }

  /** The two running sums, as the program keeps them. */
  function Fletcher(m: Bytes): (Byte, Byte) {
    if m == [] then (0, 0) else Summed2(Fletcher(m[..|m| - 1]), m[|m| - 1])
  }

  function Summed2(ck: (Byte, Byte), b: Byte): (Byte, Byte) {
    (Add(ck.0, b), Add(ck.1, Add(ck.0, b)))
  }

  /** The plain sum, and the sum in which the first byte counts |m| times and the last once. */
  function Total(m: Bytes): nat {
    if m == [] then 0 else m[0] + Total(m[1..])
  }

  function Weighted(m: Bytes): nat {
    if m == [] then 0 else |m| * m[0] + Weighted(m[1..])
  }

  lemma {:induction false} SumsSnoc(m: Bytes, b: Byte)
    ensures Total(m + [b]) == Total(m) + b && Weighted(m + [b]) == Weighted(m) + Total(m) + b
    decreases |m|
  {
    if m == [] {
      assert [b][1..] == [] && [] + [b] == [b];
    } else {
      assert (m + [b])[1..] == m[1..] + [b];
      SumsSnoc(m[1..], b);
      assert (|m| + 1) * m[0] == |m| * m[0] + m[0];
    }
  }

  lemma SumsMod(t: nat, w: nat, b: Byte)
    ensures Summed2((t % 256, w % 256), b) == ((t + b) % 256, (w + t + b) % 256)
  {
    AddMod(t, b);
    AddMod(w, (t + b) % 256);
    AddMod(t + b, w);
  }

  lemma AddMod(x: nat, y: nat)
    ensures (x % 256 + y) % 256 == (x + y) % 256
  {
    var s := x % 256 + y;
    QuotientIs(x + y, 256, x / 256 + s / 256, s % 256);
  }

  /** The running sums are those sums, modulo 256. */
  lemma {:induction false} FletcherIs(m: Bytes)
    ensures Fletcher(m) == (Total(m) % 256, Weighted(m) % 256)
    decreases |m|
  {
    if m != [] {
      var front, b := m[..|m| - 1], m[|m| - 1];
      assert m == front + [b];
      FletcherIs(front);
      SumsSnoc(front, b);
      SumsMod(Total(front), Weighted(front), b);
      hide Summed2, Total, Weighted;
    }
  }

  /** Another byte at k changes the plain sum by the difference. */
  lemma {:induction false} TotalChanged(m: Bytes, k: nat, b: Byte)
    requires k < |m|
    ensures Total(m[k := b]) == Total(m) - m[k] + b
    decreases |m|
  {
    if k == 0 {
      assert m[k := b][1..] == m[1..];
    } else {
      assert m[k := b][1..] == m[1..][k - 1 := b];
      TotalChanged(m[1..], k - 1, b);
    }
  }

  /** So the first checksum byte notices any single changed byte. */
  lemma ChangeNoticed(m: Bytes, k: nat, b: Byte)
    requires k < |m| && b != m[k]
    ensures Total(m[k := b]) % 256 != Total(m) % 256
  {
    TotalChanged(m, k, b);
  }
}
