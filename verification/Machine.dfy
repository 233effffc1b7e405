/** The machine integers of the modelled programs, and their bytes in memory. */
module Machine {
  const TWO_16: int := 0x1_0000
  const TWO_32: int := 0x1_0000_0000
  const TWO_63: int := 0x8000_0000_0000_0000
  const TWO_64: int := 0x1_0000_0000_0000_0000

  type UInt8 = b: int | 0 <= b < 256
  type UInt16 = w: int | 0 <= w < TWO_16
  type UInt32 = w: int | 0 <= w < TWO_32
  type UInt64 = u: int | 0 <= u < TWO_64
  type Int64 = i: int | -TWO_63 <= i < TWO_63

  type Bytes = seq<UInt8>

  /** `htons` and `ntohs` on a little-endian host. */
  function Swap16(x: UInt16): UInt16 {
    (x % 256) * 256 + x / 256
  }

  /** Four bytes of memory as a little-endian host reads them. */
  function Load32(b: Bytes): UInt32
    requires |b| == 4
  {
    b[0] + 0x100 * (b[1] as int) + 0x1_0000 * (b[2] as int) + 0x100_0000 * (b[3] as int)
  }

  /** The four bytes in which it stores a number. */
  function Store32(v: UInt32): (b: Bytes)
    ensures |b| == 4 && Load32(b) == v
  {
    var high := v / 0x100;
    var higher := high / 0x100;
    [v % 0x100, high % 0x100, higher % 0x100, higher / 0x100]
  }

  /** The same for two bytes. */
  function Load16(b: Bytes): UInt16
    requires |b| == 2
  {
    b[0] + 0x100 * (b[1] as int)
  }

  function Store16(v: UInt16): (b: Bytes)
    ensures |b| == 2 && Load16(b) == v
  {
    [v % 0x100, v / 0x100]
  }

  /** `&` on unsigned integers. */
  function And(x: nat, y: nat): nat {
    if x == 0 || y == 0 then 0 else 2 * And(x / 2, y / 2) + (x % 2) * (y % 2)
  }

  /** The bit of weight 2^k. */
  function Bit(x: nat, k: nat): nat {
    if k == 0 then x % 2 else Bit(x / 2, k - 1)
  }

  /** Each bit of the conjunction is set exactly when it is set in both numbers. */
  lemma {:induction false} AndBits(x: nat, y: nat, k: nat)
    ensures Bit(And(x, y), k) == 1 <==> Bit(x, k) == 1 && Bit(y, k) == 1
  {
    if x == 0 || y == 0 {
      ZeroBits(k);
    } else if k == 0 {
      LowBit(x, y);
    } else {
      LowBit(x, y);
      AndBits(x / 2, y / 2, k - 1);
    }
  }

  lemma {:induction false} ZeroBits(k: nat)
    ensures Bit(0, k) == 0
  {
    if k > 0 { ZeroBits(k - 1); }
  }

  lemma LowBit(x: nat, y: nat)
    requires x > 0 && y > 0
    ensures And(x, y) / 2 == And(x / 2, y / 2) && (And(x, y) % 2 == 1 <==> x % 2 == 1 && y % 2 == 1)
  {
    var product := (x % 2) * (y % 2);
    assert product == if x % 2 == 1 && y % 2 == 1 then 1 else 0;
  }
}

/** Sequences and maps of any type. */
module Collections {
  /** `operator[]` of a map as far as it is read: a missing key has the default value. */
  function Get<K(==), V>(m: map<K, V>, k: K, default: V): V {
    if k in m then m[k] else default
  }

  lemma Associate<T>(a: seq<T>, b: seq<T>, c: seq<T>)
    ensures (a + b) + c == a + (b + c)
  {
  }
}
