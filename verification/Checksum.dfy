/** The two Internet checksums of the router (RFC 1071), on a little-endian host. */
module Checksum {
  import opened Machine

  // ----- residues modulo 65535 ------------------------------------------------------

  predicate DiffersBy(a: int, b: int, k: int) { a == b + 65535 * k }

  /** a and b are congruent modulo 65535. */
  ghost predicate Congruent(a: int, b: int) {
    exists k :: DiffersBy(a, b, k)
  }

  lemma CongruentBy(a: int, b: int, k: int)
    requires a == b + 65535 * k
    ensures Congruent(a, b) && Congruent(b, a)
  {
    assert DiffersBy(a, b, k) && DiffersBy(b, a, -k);
  }

  lemma CongruentSum(a: int, b: int, c: int, d: int)
    requires Congruent(a, b) && Congruent(c, d)
    ensures Congruent(a + c, b + d)
  {
    var k :| DiffersBy(a, b, k);
    var l :| DiffersBy(c, d, l);
    CongruentBy(a + c, b + d, k + l);
  }

  lemma CongruentTransitive(a: int, b: int, c: int)
    requires Congruent(a, b) && Congruent(b, c)
    ensures Congruent(a, c) && Congruent(c, a)
  {
    var k :| DiffersBy(a, b, k);
    var l :| DiffersBy(b, c, l);
    CongruentBy(a, c, k + l);
  }

  lemma CongruentScaled(a: int, b: int)
    requires Congruent(a, b)
    ensures Congruent(256 * a, 256 * b)
  {
    var k :| DiffersBy(a, b, k);
    CongruentBy(256 * a, 256 * b, 256 * k);
  }

  /** The representative of n in 1..65535, in which no ones' complement sum of something nonzero is 0. */
  function Residue(n: nat): (r: nat)
    ensures 1 <= r <= 65535 && Congruent(r, n)
  {
    if n == 0 then
      CongruentBy(65535, 0, 1);
      65535
    else
      CongruentBy(n, 1 + (n - 1) % 65535, (n - 1) / 65535);
      1 + (n - 1) % 65535
  }

  lemma ResidueUnique(r: nat, n: nat)
    requires 1 <= r <= 65535 && Congruent(r, n)
    ensures r == Residue(n)
  {
  }

  // ----- what is summed ---------------------------------------------------------------

  /** The sum of the 16-bit big-endian words, an odd last byte padded with zero. */
  function WordSum(data: Bytes): nat {
    if data == [] then 0
    else if |data| == 1 then 256 * (data[0] as int)
    else 256 * (data[0] as int) + data[1] + WordSum(data[2..])
  }

  /** The sum of the 16-bit little-endian words. */
  function LittleSum(data: Bytes): nat {
    if data == [] then 0
    else if |data| == 1 then data[0]
    else data[0] + 256 * (data[1] as int) + LittleSum(data[2..])
  }

  /** The sum of the bytes, weighted by where they stand in a 16-bit word; `low` says that the first is a low byte. */
  function Weighted(data: Bytes, low: bool): nat {
    if data == [] then 0 else (if low then data[0] else 256 * (data[0] as int)) + Weighted(data[1..], !low)
  }

  lemma {:induction false} WeightedIsWordSum(data: Bytes)
    ensures Weighted(data, false) == WordSum(data)
  {
    if |data| == 1 {
      assert data[1..] == [];
    } else if |data| > 1 {
      assert data[1..][1..] == data[2..];
      WeightedIsWordSum(data[2..]);
    }
  }

  /** Starting at an odd address multiplies the sum by 256. */
  lemma {:induction false} WeightedShift(data: Bytes)
    ensures Congruent(Weighted(data, true), 256 * Weighted(data, false))
    ensures Congruent(Weighted(data, false), 256 * Weighted(data, true))
  {
    if data == [] {
      CongruentBy(0, 0, 0);
    } else {
      var hi, lo := Weighted(data[1..], true), Weighted(data[1..], false);
      var first: int := data[0];
      WeightedShift(data[1..]);
      CongruentBy(256 * (256 * first), first, first);
      CongruentBy(256 * first, 256 * first, 0);
      CongruentSum(first, 256 * (256 * first), lo, 256 * hi);
      CongruentSum(256 * first, 256 * first, hi, 256 * lo);
    }
  }

  lemma {:induction false} WeightedAppend(a: Bytes, b: Bytes, low: bool)
    ensures Weighted(a + b, low) == Weighted(a, low) + Weighted(b, if |a| % 2 == 0 then low else !low)
  {
    if a == [] {
      assert a + b == b;
    } else {
      assert (a + b)[1..] == a[1..] + b;
      WeightedAppend(a[1..], b, !low);
    }
  }

  lemma {:induction false} LittleIsShifted(data: Bytes)
    ensures Congruent(LittleSum(data), 256 * WordSum(data))
  {
    if data == [] {
      CongruentBy(0, 0, 0);
    } else if |data| == 1 {
      CongruentBy(256 * WordSum(data), LittleSum(data), data[0]);
    } else {
      var a: int, b: int := data[0], data[1];
      LittleIsShifted(data[2..]);
      CongruentBy(256 * (256 * a + b), a + 256 * b, a);
      CongruentSum(a + 256 * b, 256 * (256 * a + b), LittleSum(data[2..]), 256 * WordSum(data[2..]));
    }
  }

  // ----- 32-bit blocks ------------------------------------------------------------------

  /** `ntohl` of four bytes of memory. */
  function BigEndian32(b: Bytes): UInt32
    requires |b| == 4
  {
    0x100_0000 * (b[0] as int) + 0x1_0000 * (b[1] as int) + 0x100 * (b[2] as int) + b[3]
  }

  /** A zero word with the chunk copied to the given offset. */
  function Placed(chunk: Bytes, offset: nat): (w: Bytes)
    requires offset + |chunk| <= 4
    ensures |w| == 4
    ensures forall i | 0 <= i < 4 :: w[i] == if offset <= i < offset + |chunk| then chunk[i - offset] else 0
  {
    seq(4, i => if offset <= i < offset + |chunk| then chunk[i - offset] else 0)
  }

  lemma BlockSum(chunk: Bytes, offset: nat)
    requires offset + |chunk| <= 4
    ensures Congruent(BigEndian32(Placed(chunk, offset)), Weighted(chunk, offset % 2 == 1))
  {
    var w := Placed(chunk, offset);
    var a: int, b: int, c: int, d: int := w[0], w[1], w[2], w[3];
    PlacedSum(chunk, offset);
    CongruentBy(BigEndian32(w), 256 * (a + c) + (b + d), 256 * a + b);
  }

  lemma PlacedSum(chunk: Bytes, offset: nat)
    requires offset + |chunk| <= 4
    ensures var w := Placed(chunk, offset);
            Weighted(chunk, offset % 2 == 1) == 256 * (w[0] as int + w[2]) + (w[1] as int + w[3])
  {
    WeightedSmall(chunk, offset % 2 == 1);
    hide Placed, Weighted;
    if offset == 0 {
    } else if offset == 1 {
    } else if offset == 2 {
    } else if offset == 3 {
    } else {
      WeightedSmall([], false);
    }
  }

  lemma WeightedSmall(chunk: Bytes, low: bool)
    requires |chunk| <= 4
    ensures Weighted(chunk, low) ==
            var even := (if |chunk| > 0 then chunk[0] as int else 0) + (if |chunk| > 2 then chunk[2] as int else 0);
            var odd := (if |chunk| > 1 then chunk[1] as int else 0) + (if |chunk| > 3 then chunk[3] as int else 0);
            if low then even + 256 * odd else 256 * even + odd
  {
  }

  // ----- ip_checksum ----------------------------------------------------------------------

  /** Below this size the 64-bit accumulator cannot overflow. */
  const SIZE_BOUND: int := 0x4_0000_0000 - 16

  /** An odd last byte is padded with a zero. */
  lemma {:induction false} OddIsPadded(data: Bytes)
    requires |data| % 2 == 1
    ensures WordSum(data + [0]) == WordSum(data)
  {
    if |data| == 1 {
      assert (data + [0])[2..] == [];
    } else {
      assert (data + [0])[2..] == data[2..] + [0];
      OddIsPadded(data[2..]);
    }
  }

  /** The example of section 3 of RFC 1071, whose sum is ddf2. */
  lemma ExampleSum()
    ensures IpValue([0x00, 0x01, 0xF2, 0x03, 0xF4, 0xF5, 0xF6, 0xF7]) == Swap16(0xFFFF - 0xDDF2)
  {
    var data: Bytes := [0x00, 0x01, 0xF2, 0x03, 0xF4, 0xF5, 0xF6, 0xF7];
    assert data[2..] == [0xF2, 0x03, 0xF4, 0xF5, 0xF6, 0xF7];
    assert data[2..][2..] == [0xF4, 0xF5, 0xF6, 0xF7];
    assert data[2..][2..][2..] == [0xF6, 0xF7];
    assert data[2..][2..][2..][2..] == [];
    assert WordSum(data) == 0x2_DDF0;
  }

  /** What `ip_checksum` returns: the sum's complement in network byte order. */
  function IpValue(data: Bytes): UInt16 {
    Swap16(65535 - Residue(WordSum(data)))
  }

  /** `ip_checksum`, for data at the given address. */
  method IpChecksum(data: Bytes, address: nat) returns (checksum: UInt16)
    requires |data| <= SIZE_BOUND
    ensures checksum == IpValue(data)
  {
    var offset := address % 4;
    var acc := SumBlocks(data, offset);
    var folded := Fold(acc);
    CongruentTransitive(folded, acc, Weighted(data, offset % 2 == 1));
    // ~acc, cut to 16 bits, is 65535 - acc.
    if offset % 2 == 1 {
      Unshift(data, folded);
      folded := Swap16(folded);
    }
    WeightedIsWordSum(data);
    ResidueUnique(folded, WordSum(data));
    checksum := Swap16(65535 - folded);
  }

  /** The partial first block, the complete blocks and the partial last block. */
  method SumBlocks(data: Bytes, offset: nat) returns (acc: UInt64)
    requires |data| <= SIZE_BOUND && offset < 4
    ensures acc > 0 && Congruent(acc, Weighted(data, offset % 2 == 1))
  {
    var first := 0;
    acc := 0xffff;
    ghost var total := Weighted(data, offset % 2 == 1);
    CongruentBy(0xffff, 0, 1);
    if offset != 0 {
      first := if 4 - offset > |data| then |data| else 4 - offset;
      FirstBlock(data, offset, first, offset % 2 == 1);
      acc := (acc + BigEndian32(Placed(data[..first], offset))) % TWO_64;
    } else {
      CongruentBy(total, total, 0);
      CongruentSum(0xffff, 0, total, total);
      assert data[0..] == data;
    }
    acc := SumAligned(data, first, acc, total);
  }

  lemma FirstBlock(data: Bytes, offset: nat, count: nat, low: bool)
    requires offset + count <= 4 && count <= |data| && low == (offset % 2 == 1)
    requires count < |data| ==> low == (count % 2 == 1)
    ensures Congruent(0xffff + BigEndian32(Placed(data[..count], offset)) + Weighted(data[count..], false),
                      Weighted(data, low))
  {
    var word := BigEndian32(Placed(data[..count], offset));
    BlockSum(data[..count], offset);
    HeadAndTail(data, count, low);
    ReplaceSummand(word, Weighted(data[..count], low), Weighted(data[count..], false));
  }

  lemma HeadAndTail(data: Bytes, count: nat, low: bool)
    requires count <= |data|
    requires count < |data| ==> low == (count % 2 == 1)
    ensures Weighted(data, low) == Weighted(data[..count], low) + Weighted(data[count..], false)
  {
    WeightedAppend(data[..count], data[count..], low);
    assert data == data[..count] + data[count..];
  }

  lemma ReplaceSummand(word: int, part: int, rest: int)
    requires Congruent(word, part)
    ensures Congruent(0xffff + word + rest, part + rest)
  {
    var k :| DiffersBy(word, part, k);
    CongruentBy(0xffff + word + rest, part + rest, k + 1);
  }

  lemma ReplaceInSum(word: int, part: int, rest: int, total: int)
    requires Congruent(word, part) && Congruent(rest + part, total)
    ensures Congruent(rest + word, total)
  {
    var k :| DiffersBy(word, part, k);
    var l :| DiffersBy(rest + part, total, l);
    CongruentBy(rest + word, total, k + l);
  }

  /** The loop over complete blocks and the padded rest; data[first..] starts at an aligned address. */
  method SumAligned(data: Bytes, first: nat, start: UInt64, ghost total: nat) returns (acc: UInt64)
    requires first <= |data| <= SIZE_BOUND && first <= 3 && 0 < start <= 0xffff + 0xffff_ffff
    requires Congruent(start + Weighted(data[first..], false), total)
    ensures acc > 0 && Congruent(acc, total)
  {
    acc := start;
    var p := first;
    var end := first + (|data| - first) / 4 * 4;
    ghost var blocks := 0;
    while p != end
      invariant first <= p <= end <= |data| && p == first + 4 * blocks && (end - p) % 4 == 0
      invariant 0 < acc <= 0xffff + 0xffff_ffff * (blocks + 1)
      invariant Congruent(acc + Weighted(data[p..], false), total)
    {
      NextBlock(data, p, acc, total);
      acc := (acc + BigEndian32(data[p..p + 4])) % TWO_64;
      p := p + 4;
      blocks := blocks + 1;
    }
    if (|data| - first) % 4 != 0 {
      LastBlock(data[p..], acc, total);
      acc := (acc + BigEndian32(Placed(data[p..], 0))) % TWO_64;
    } else {
      assert data[p..] == [];
    }
  }

  lemma NextBlock(data: Bytes, p: nat, acc: nat, total: nat)
    requires p + 4 <= |data| && Congruent(acc + Weighted(data[p..], false), total)
    ensures Congruent(acc + BigEndian32(data[p..p + 4]) + Weighted(data[p + 4..], false), total)
  {
    var chunk, tail := data[p..p + 4], data[p + 4..];
    WholeBlock(chunk);
    WeightedAppend(chunk, tail, false);
    assert data[p..] == chunk + tail;
    ReplaceInSum(BigEndian32(chunk), Weighted(chunk, false), acc + Weighted(tail, false), total);
  }

  lemma LastBlock(tail: Bytes, acc: nat, total: nat)
    requires |tail| < 4 && Congruent(acc + Weighted(tail, false), total)
    ensures Congruent(acc + BigEndian32(Placed(tail, 0)), total)
  {
    BlockSum(tail, 0);
    ReplaceInSum(BigEndian32(Placed(tail, 0)), Weighted(tail, false), acc, total);
  }

  lemma WholeBlock(chunk: Bytes)
    requires |chunk| == 4
    ensures Congruent(BigEndian32(chunk), Weighted(chunk, false))
  {
    assert Placed(chunk, 0) == chunk;
    BlockSum(chunk, 0);
  }

  /** The deferred carries. */
  method Fold(sum: UInt64) returns (acc: nat)
    requires sum > 0
    ensures 1 <= acc <= 65535 && Congruent(acc, sum)
  {
    acc := sum % TWO_32 + sum / TWO_32;
    CongruentBy(sum, acc, 65537 * (sum / TWO_32));
    while acc / TWO_16 != 0
      invariant acc > 0 && Congruent(acc, sum)
      decreases acc
    {
      FoldOnce(acc, sum);
      acc := acc % TWO_16 + acc / TWO_16;
    }
  }

  lemma FoldOnce(acc: nat, sum: nat)
    requires Congruent(acc, sum)
    ensures Congruent(acc % TWO_16 + acc / TWO_16, sum)
  {
    CongruentBy(acc, acc % TWO_16 + acc / TWO_16, acc / TWO_16);
    CongruentTransitive(acc % TWO_16 + acc / TWO_16, acc, sum);
  }

  /** Swapping the bytes undoes the factor 256 of an odd start address. */
  lemma Unshift(data: Bytes, r: nat)
    requires 1 <= r <= 65535 && Congruent(r, Weighted(data, true))
    ensures 1 <= Swap16(r) <= 65535 && Congruent(Swap16(r), Weighted(data, false))
  {
    SwapIsShift(r);
    WeightedShift(data);
    CongruentScaled(r, Weighted(data, true));
    CongruentTransitive(Swap16(r), 256 * r, 256 * Weighted(data, true));
    CongruentTransitive(Weighted(data, false), 256 * Weighted(data, true), Swap16(r));
  }

  lemma SwapIsShift(r: UInt16)
    ensures Congruent(Swap16(r), 256 * r)
    ensures r > 0 ==> Swap16(r) > 0
  {
    var hi, lo := r / 256, r % 256;
    assert r == 256 * hi + lo && hi < 256;
    CongruentBy(256 * r, Swap16(r), hi);
  }

  lemma {:induction false} SwapInverse(r: UInt16)
    ensures Swap16(Swap16(r)) == r
    ensures Swap16(65535 - r) == 65535 - Swap16(r)
  {
    var hi, lo := r / 256, r % 256;
    assert r == 256 * hi + lo && hi < 256;
    SwapParts(hi, lo);
    SwapParts(lo, hi);
    SwapParts(255 - hi, 255 - lo);
    assert 65535 - r == 256 * (255 - hi) + (255 - lo);
  }

  lemma SwapParts(hi: UInt8, lo: UInt8)
    ensures Swap16(256 * hi + lo) == 256 * lo + hi
  {
  }

  // ----- icmp_checksum ----------------------------------------------------------------------

  /** Two folds of the sum and the complement, cut to 16 bits. */
  function IcmpOfSum(sum: nat): UInt16 {
    var c := sum / TWO_16 + sum % TWO_16;
    65535 - (c + c / TWO_16) % TWO_16
  }

  /** What is read: of an odd length, the byte behind the data completes the last word. */
  function WordsRead(data: Bytes, beyond: UInt8): Bytes {
    if |data| % 2 == 0 then data else data + [beyond]
  }

  function IcmpValue(data: Bytes, beyond: UInt8): UInt16 { IcmpOfSum(LittleSum(WordsRead(data, beyond))) }

  /** `icmp_checksum` of data in front of the byte `beyond`. */
  method IcmpChecksum(data: Bytes, beyond: UInt8) returns (checksum: UInt16)
    requires |data| <= SIZE_BOUND
    ensures checksum == IcmpValue(data, beyond)
  {
    hide LittleSum, IcmpOfSum;
    OddSum(data, beyond);
    var cksum: int := SumWords(data);
    if |data| % 2 == 1 {
      cksum := (cksum + data[|data| - 1] + 256 * (beyond as int)) % TWO_64;
    }
    checksum := FoldTwice(cksum);
  }

  /** The loop over whole words. */
  method SumWords(data: Bytes) returns (cksum: UInt64)
    requires |data| <= SIZE_BOUND
    ensures LittleSum(data) == cksum + if |data| % 2 == 0 then 0 else data[|data| - 1]
    ensures cksum <= 65535 * |data|
  {
    assert data[0..] == data;
    hide LittleSum;
    cksum := 0;
    var p := 0;
    while p + 1 < |data|
      invariant p <= |data| && p % 2 == 0
      invariant cksum + LittleSum(data[p..]) == LittleSum(data)
      invariant cksum <= 65535 * p
    {
      LittleStep(data, p);
      var word: int := data[p] + 256 * (data[p + 1] as int);
      assert cksum + word <= 65535 * (p + 2) < TWO_64;
      assert (cksum + word) % TWO_64 == cksum + word;
      cksum := (cksum + word) % TWO_64;
      p := p + 2;
    }
    LittleEnd(data[p..]);
  }

  method FoldTwice(sum: UInt64) returns (checksum: UInt16)
    ensures checksum == IcmpOfSum(sum)
  {
    var cksum: int := sum / TWO_16 + sum % TWO_16;
    cksum := cksum + cksum / TWO_16;
    checksum := 65535 - cksum % TWO_16;
  }

  lemma LittleStep(data: Bytes, p: nat)
    requires p + 1 < |data|
    ensures LittleSum(data[p..]) == data[p] + 256 * (data[p + 1] as int) + LittleSum(data[p + 2..])
  {
  }

  lemma LittleEnd(tail: Bytes)
    requires |tail| <= 1
    ensures LittleSum(tail) == if tail == [] then 0 else tail[0]
  {
  }

  lemma {:induction false} OddSum(data: Bytes, beyond: UInt8)
    ensures LittleSum(WordsRead(data, beyond)) == LittleSum(data) + if |data| % 2 == 0 then 0 else 256 * (beyond as int)
  {
    if |data| % 2 == 1 {
      var all := data + [beyond];
      if |data| == 1 {
        assert all[2..] == [];
      } else {
        assert all[2..] == data[2..] + [beyond];
        OddSum(data[2..], beyond);
      }
    }
  }

  lemma {:induction false} LittleSumBound(data: Bytes)
    ensures 2 * LittleSum(data) <= 65535 * |data|
    ensures LittleSum(data) == 0 <==> forall i | 0 <= i < |data| :: data[i] == 0
  {
    if |data| > 1 {
      LittleSumBound(data[2..]);
      assert forall i | 2 <= i < |data| :: data[i] == data[2..][i - 2];
    }
  }

  /** The second fold of the sum leaves no carry. */
  predicate FoldsInTwo(sum: nat) {
    var c := sum / TWO_16 + sum % TWO_16;
    c / TWO_16 + c % TWO_16 < TWO_16
  }

  /** What two folds and the cut to 16 bits leave falls short of the sum by the carries that were cut off. */
  lemma Shortfall(sum: nat) returns (k: nat)
    requires sum < 0x2_0000_0000_0000
    ensures k <= 2 && Congruent(65535 - IcmpOfSum(sum), sum - k)
    ensures k == 0 <==> FoldsInTwo(sum)
    ensures k == 0 ==> (IcmpOfSum(sum) == 65535 <==> sum == 0)
  {
    var c := sum / TWO_16 + sum % TWO_16;
    var folded := c / TWO_16 + c % TWO_16;
    k := folded / TWO_16;
    assert (c + c / TWO_16) % TWO_16 == folded % TWO_16;
    CongruentBy(sum - k, folded % TWO_16, sum / TWO_16 + c / TWO_16 + k);
  }

  /** Two folds reach the residue of a sum exactly when it is positive and the second fold leaves no carry. */
  lemma TwoFoldsExactly(sum: nat)
    requires sum < 0x2_0000_0000_0000
    ensures IcmpOfSum(sum) == 65535 - Residue(sum) <==> sum > 0 && FoldsInTwo(sum)
  {
    var k := Shortfall(sum);
    hide IcmpOfSum, FoldsInTwo;
    var v := 65535 - IcmpOfSum(sum);
    if k > 0 {
      NotCongruent(v, sum, -(k as int));
    } else if sum > 0 {
      ResidueUnique(v, sum);
    }
  }

  lemma NotCongruent(v: int, n: int, d: int)
    requires d != 0 && -65535 < d < 65535 && Congruent(v, n + d)
    ensures !Congruent(v, n)
  {
    var l :| DiffersBy(v, n + d, l);
    forall m ensures !DiffersBy(v, n, m) { assert 65535 * (m - l) != d; }
  }

  /** Two folds are enough for a sum of at most 65538 words. */
  lemma TwoFoldsSuffice(sum: nat)
    requires sum <= 65538 * 65535
    ensures FoldsInTwo(sum)
  {
  }

  /** Summing big-endian words and swapping at the end is summing little-endian words. */
  lemma {:induction false} IpValueIsLittle(data: Bytes)
    ensures IpValue(data) == 65535 - Residue(LittleSum(data))
  {
    var r := Residue(WordSum(data));
    SwapIsShift(r);
    SwapInverse(r);
    LittleIsShifted(data);
    CongruentScaled(r, WordSum(data));
    CongruentTransitive(Swap16(r), 256 * r, 256 * WordSum(data));
    CongruentBack(Swap16(r), 256 * WordSum(data), LittleSum(data));
    ResidueUnique(Swap16(r), LittleSum(data));
  }

  lemma CongruentBack(a: int, b: int, c: int)
    requires Congruent(a, b) && Congruent(c, b)
    ensures Congruent(a, c)
  {
    var k :| DiffersBy(a, b, k);
    var l :| DiffersBy(c, b, l);
    CongruentBy(a, c, k - l);
  }

  /** Exactly when the two functions agree, for every length: some byte is not zero, the second fold leaves no carry,
      and of an odd length the byte behind the data is zero. */
  lemma {:induction false} ChecksumsAgreeExactly(data: Bytes, beyond: UInt8)
    requires |data| <= SIZE_BOUND
    ensures IcmpValue(data, beyond) == IpValue(data) <==>
            LittleSum(data) > 0 && FoldsInTwo(LittleSum(data)) && (|data| % 2 == 1 ==> beyond == 0)
  {
    hide IcmpOfSum, FoldsInTwo, LittleSum, IpValue;
    LittleSumBound(data);
    IpValueIsLittle(data);
    OddSum(data, beyond);
    var sum := LittleSum(data);
    if |data| % 2 == 1 && beyond != 0 {
      var read := sum + 256 * (beyond as int);
      var k := Shortfall(read);
      NotCongruent(65535 - IcmpOfSum(read), sum, 256 * (beyond as int) - k);
    } else {
      TwoFoldsExactly(sum);
    }
  }

  /** Up to 131076 bytes of even number the two functions differ only on a buffer of zeros. */
  lemma ChecksumsAgree(data: Bytes, beyond: UInt8)
    requires |data| % 2 == 0 && |data| <= 131076
    ensures IcmpValue(data, beyond) == IpValue(data) <==> exists i :: 0 <= i < |data| && data[i] != 0
  {
    LittleSumBound(data);
    TwoFoldsSuffice(LittleSum(data));
    ChecksumsAgreeExactly(data, beyond);
  }

  /** n words of ones and one word 1. */
  function OnesThenOne(n: nat): (data: Bytes)
    ensures |data| == 2 * n + 2
  {
    seq(2 * n, _ => 255) + [1, 0]
  }

  lemma {:induction false} OnesSum(n: nat)
    ensures LittleSum(OnesThenOne(n)) == 65535 * n + 1
  {
    if n == 0 {
      assert OnesThenOne(0) == [1, 0];
      assert [1, 0][2..] == [];
    } else {
      assert OnesThenOne(n)[2..] == OnesThenOne(n - 1);
      OnesSum(n - 1);
    }
  }

  lemma CarryOfBound()
    ensures !FoldsInTwo(65538 * 65535 + 1)
  {
  }

  /** The size bound is exact: with two bytes more, the values can differ on data that is not zero. */
  lemma {:induction false} BoundIsTight(beyond: UInt8)
    ensures |OnesThenOne(65538)| == 131078
    ensures IcmpValue(OnesThenOne(65538), beyond) != IpValue(OnesThenOne(65538))
  {
    hide FoldsInTwo, IcmpValue, IpValue, LittleSum;
    OnesSum(65538);
    CarryOfBound();
    ChecksumsAgreeExactly(OnesThenOne(65538), beyond);
  }
}
