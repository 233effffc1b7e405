/** JSON values as `basic_json` stores them, their equality, and the order in
    which the members of an object are visited. */

module Wrappers {
  datatype Option<+T> = None | Some(value: T)

  /** The exceptions of the library, with the number that is part of their name. */
  datatype Error =
    | ParseError(code: nat)
    | OutOfRange(code: nat)
    | OtherError(code: nat)
    | AssertionFailure

  datatype Result<+T> = Ok(value: T) | Err(error: Error) {
    predicate IsFailure() { Err? }

    function PropagateFailure<U>(): Result<U>
      requires Err?
    {
      Err(error)
    }

    function Extract(): T
      requires Ok?
    {
      value
    }
  }
}

module JsonValue {
  import opened Machine
  import opened Wrappers

  /** A double, up to the sign of zero. */
  datatype Double = NaN | Infinite(negative: bool) | Finite(value: real)

  datatype Json =
    | Null
    | Bool(flag: bool)
    | Int(signed: Int64)
    | UInt(unsigned: UInt64)
    | Float(float: Double)
    | Str(text: string)
    | Binary(bytes: seq<UInt8>, subtype: Option<UInt64>)
    | Arr(elems: seq<Json>)
    | Obj(members: map<string, Json>)
    | Discarded

  /** `source.type() == target.type()`. */
  predicate SameType(a: Json, b: Json) {
    match a
    case Null => b.Null?
    case Bool(_) => b.Bool?
    case Int(_) => b.Int?
    case UInt(_) => b.UInt?
    case Float(_) => b.Float?
    case Str(_) => b.Str?
    case Binary(_, _) => b.Binary?
    case Arr(_) => b.Arr?
    case Obj(_) => b.Obj?
    case Discarded => b.Discarded?
  }

  predicate IsContainer(j: Json) { j.Arr? || j.Obj? }

  // ----- equality -----------------------------------------------------------

  /** The least power of two g with n <= 2^53 * g: the spacing of doubles around n. */
  function Spacing(n: nat, g: nat): (r: nat)
    requires g > 0
    ensures r > 0
    decreases if n > 0x20_0000_0000_0000 * g then n - 0x20_0000_0000_0000 * g + 1 else 0
  {
    if n > 0x20_0000_0000_0000 * g then Spacing(n, 2 * g) else g
  }

  /** n rounded to a multiple of g, ties to the even multiple. */
  function RoundTo(n: nat, g: nat): nat
    requires g > 0
  {
    var q, r := n / g, n % g;
    if 2 * r > g || (2 * r == g && q % 2 == 1) then (q + 1) * g else q * g
  }

  /** `static_cast<double>(i)`, rounding to nearest. */
  function ToDouble(i: int): real {
    var n: nat := if i < 0 then -i else i;
    var rounded: int := RoundTo(n, Spacing(n, 1));
    (if i < 0 then -rounded else rounded) as real
  }

  /** `static_cast<std::int64_t>(u)`. */
  function ToInt64(u: UInt64): Int64 {
    if u < TWO_63 then u else u - TWO_64
  }

  predicate DoubleEq(a: Double, b: Double) {
    !a.NaN? && a == b
  }

  /** Comparison of two values that are not both arrays and not both objects. */
  predicate ScalarEq(a: Json, b: Json) {
    match (a, b)
    case (Null, Null) => true
    case (Bool(x), Bool(y)) => x == y
    case (Int(x), Int(y)) => x == y
    case (UInt(x), UInt(y)) => x == y
    case (Float(x), Float(y)) => DoubleEq(x, y)
    case (Str(x), Str(y)) => x == y
    case (Binary(x, s), Binary(y, t)) => x == y && s == t
    case (Int(x), Float(y)) => DoubleEq(Finite(ToDouble(x)), y)
    case (Float(x), Int(y)) => DoubleEq(x, Finite(ToDouble(y)))
    case (UInt(x), Float(y)) => DoubleEq(Finite(ToDouble(x)), y)
    case (Float(x), UInt(y)) => DoubleEq(x, Finite(ToDouble(y)))
    case (UInt(x), Int(y)) => ToInt64(x) == y
    case (Int(x), UInt(y)) => x == ToInt64(y)
    case _ => false
  }

  /** `operator==`. */
  predicate JsonEq(a: Json, b: Json)
    decreases a
  {
    match a
    case Arr(xs) => b.Arr? && |xs| == |b.elems| && forall i | 0 <= i < |xs| :: JsonEq(xs[i], b.elems[i])
    case Obj(m) => b.Obj? && m.Keys == b.members.Keys && forall k | k in m :: JsonEq(m[k], b.members[k])
    case _ => ScalarEq(a, b)
  }

  /** No NaN and no discarded value anywhere inside. */
  predicate Comparable(j: Json) {
    match j
    case Float(d) => !d.NaN?
    case Discarded => false
    case Arr(xs) => forall i | 0 <= i < |xs| :: Comparable(xs[i])
    case Obj(m) => forall k | k in m :: Comparable(m[k])
    case _ => true
  }

  /** `operator==` is reflexive exactly on the values without NaN and without discarded parts. */
  lemma {:induction false} EqReflexive(j: Json)
    ensures JsonEq(j, j) <==> Comparable(j)
  {
    match j
    case Arr(xs) =>
      forall i | 0 <= i < |xs| ensures JsonEq(xs[i], xs[i]) <==> Comparable(xs[i]) { EqReflexive(xs[i]); }
    case Obj(m) =>
      forall k | k in m ensures JsonEq(m[k], m[k]) <==> Comparable(m[k]) { EqReflexive(m[k]); }
    case _ =>
  }

  lemma {:induction false} EqSymmetric(a: Json, b: Json)
    ensures JsonEq(a, b) <==> JsonEq(b, a)
    decreases a
  {
    match a
    case Arr(xs) =>
      if b.Arr? && |xs| == |b.elems| {
        forall i | 0 <= i < |xs| ensures JsonEq(xs[i], b.elems[i]) <==> JsonEq(b.elems[i], xs[i]) {
          EqSymmetric(xs[i], b.elems[i]);
        }
      }
    case Obj(m) =>
      if b.Obj? && m.Keys == b.members.Keys {
        forall k | k in m ensures JsonEq(m[k], b.members[k]) <==> JsonEq(b.members[k], m[k]) {
          EqSymmetric(m[k], b.members[k]);
        }
      }
    case _ =>
  }

  /** Only comparable values are equal to anything. */
  lemma {:induction false} EqImpliesComparable(a: Json, b: Json)
    requires JsonEq(a, b)
    ensures Comparable(a) && Comparable(b)
    decreases a
  {
    match a
    case Arr(xs) =>
      forall i | 0 <= i < |xs| ensures Comparable(xs[i]) && Comparable(b.elems[i]) {
        EqImpliesComparable(xs[i], b.elems[i]);
      }
    case Obj(m) =>
      forall k | k in m ensures Comparable(m[k]) && Comparable(b.members[k]) {
        EqImpliesComparable(m[k], b.members[k]);
      }
    case _ =>
  }

  // ----- what equality means -------------------------------------------------

  /** The value with every unsigned integer, at any depth, replaced by the signed one with the same 64 bits. */
  function Canonical(j: Json): Json {
    match j
    case UInt(u) => Int(ToInt64(u))
    case Arr(xs) => Arr(seq(|xs|, i requires 0 <= i < |xs| => Canonical(xs[i])))
    case Obj(m) => Obj(map k | k in m :: Canonical(m[k]))
    case _ => j
  }

  predicate HasFloat(j: Json) {
    match j
    case Float(_) => true
    case Arr(xs) => exists i | 0 <= i < |xs| :: HasFloat(xs[i])
    case Obj(m) => exists k | k in m :: HasFloat(m[k])
    case _ => false
  }

  /** Without floating-point numbers, two values are equal exactly when they are the same up to the signs of their
      integer types, and hold no discarded part. */
  lemma {:induction false} EqIsCanonical(a: Json, b: Json)
    requires !HasFloat(a) && !HasFloat(b)
    ensures JsonEq(a, b) <==> Comparable(a) && Canonical(a) == Canonical(b)
    decreases a
  {
    match a
    case Arr(xs) =>
      if b.Arr? && |xs| == |b.elems| { ElementsAreCanonical(xs, b.elems); }
      if b.Arr? && Canonical(a) == Canonical(b) { assert |Canonical(a).elems| == |xs|; }
    case Obj(m) =>
      if b.Obj? && m.Keys == b.members.Keys { MembersAreCanonical(m, b.members); }
      if Canonical(a) == Canonical(b) {
        assert Canonical(a).members.Keys == m.Keys && Canonical(b).members.Keys == b.members.Keys;
      }
    case _ =>
  }

  lemma {:induction false} ElementsAreCanonical(xs: seq<Json>, ys: seq<Json>)
    requires !HasFloat(Arr(xs)) && !HasFloat(Arr(ys)) && |xs| == |ys|
    ensures JsonEq(Arr(xs), Arr(ys)) <==> Comparable(Arr(xs)) && Canonical(Arr(xs)) == Canonical(Arr(ys))
    decreases Arr(xs), 0
  {
    forall i | 0 <= i < |xs|
      ensures JsonEq(xs[i], ys[i]) <==> Comparable(xs[i]) && Canonical(xs[i]) == Canonical(ys[i])
    {
      EqIsCanonical(xs[i], ys[i]);
    }
    var cs, ds := Canonical(Arr(xs)).elems, Canonical(Arr(ys)).elems;
    assert forall i | 0 <= i < |xs| :: cs[i] == Canonical(xs[i]) && ds[i] == Canonical(ys[i]);
    assert cs == ds <==> forall i | 0 <= i < |xs| :: cs[i] == ds[i];
    assert Comparable(Arr(xs)) <==> forall i | 0 <= i < |xs| :: Comparable(xs[i]);
    assert JsonEq(Arr(xs), Arr(ys)) <==> forall i | 0 <= i < |xs| :: JsonEq(xs[i], ys[i]);
  }

  lemma {:induction false} MembersAreCanonical(m: map<string, Json>, n: map<string, Json>)
    requires !HasFloat(Obj(m)) && !HasFloat(Obj(n)) && m.Keys == n.Keys
    ensures JsonEq(Obj(m), Obj(n)) <==> Comparable(Obj(m)) && Canonical(Obj(m)) == Canonical(Obj(n))
    decreases Obj(m), 0
  {
    forall k | k in m ensures JsonEq(m[k], n[k]) <==> Comparable(m[k]) && Canonical(m[k]) == Canonical(n[k]) {
      EqIsCanonical(m[k], n[k]);
    }
    var c, d := Canonical(Obj(m)).members, Canonical(Obj(n)).members;
    assert c == d <==> forall k | k in m :: c[k] == d[k];
  }

  predicate IsNumber(j: Json) { j.Int? || j.UInt? || j.Float? }

  /** The double that a number is compared as when the other one is a double. */
  function AsDouble(j: Json): Double
    requires IsNumber(j)
  {
    match j
    case Int(i) => Finite(ToDouble(i))
    case UInt(u) => Finite(ToDouble(u))
    case Float(d) => d
  }

  /** A floating-point number equals exactly the numbers of the same value, integers after rounding. */
  lemma FloatsCompareByValue(a: Json, b: Json)
    requires a.Float? || b.Float?
    ensures JsonEq(a, b) <==> IsNumber(a) && IsNumber(b) && AsDouble(a) == AsDouble(b) != NaN
  {
    hide ToDouble;
  }

  /** A signed and an unsigned integer are equal when they have the same 64 bits. */
  lemma MixedIntegers(u: UInt64, i: Int64)
    ensures JsonEq(UInt(u), Int(i)) <==> (u - i == 0 || u - i == TWO_64)
    ensures JsonEq(Int(i), UInt(u)) <==> JsonEq(UInt(u), Int(i))
  {
  }

  lemma {:induction false} SpacingBound(n: nat, g: nat)
    requires g > 0 && (g > 1 ==> n > 0x10_0000_0000_0000 * g)
    ensures var h := Spacing(n, g);
            && n <= 0x20_0000_0000_0000 * h
            && (h > 1 ==> n > 0x10_0000_0000_0000 * h)
            && (n <= 0x20_0000_0000_0000 * g ==> h == g)
    decreases if n > 0x20_0000_0000_0000 * g then n - 0x20_0000_0000_0000 * g + 1 else 0
  {
    if n > 0x20_0000_0000_0000 * g { SpacingBound(n, 2 * g); }
  }

  /** Integers of at most 53 bits are converted exactly. */
  lemma SmallIntegersAreExact(i: int)
    requires -0x20_0000_0000_0000 <= i <= 0x20_0000_0000_0000
    ensures ToDouble(i) == i as real
  {
  }

  /** Larger ones are rounded to the nearest multiple of the spacing of doubles at that size, from the middle to the
      even multiple; and negative ones as their opposites. */
  lemma RoundingIsNearest(n: nat)
    ensures var g: int := Spacing(n, 1);
            var r: int := RoundTo(n, g);
            && ToDouble(n) == r as real && ToDouble(-(n as int)) == -(r as real)
            && (r == n / g * g || r == (n / g + 1) * g)
            && -g <= 2 * (r - n) <= g
            && (-g == 2 * (r - n) || 2 * (r - n) == g ==> r == (if n / g % 2 == 0 then n / g else n / g + 1) * g)
            && n <= 0x20_0000_0000_0000 * g && (g > 1 ==> n > 0x10_0000_0000_0000 * g)
  {
    SpacingBound(n, 1);
    NearestMultiple(n, Spacing(n, 1));
  }

  lemma NearestMultiple(n: nat, g: int)
    requires g > 0
    ensures RoundTo(n, g) == n / g * g || RoundTo(n, g) == (n / g + 1) * g
    ensures -g <= 2 * (RoundTo(n, g) - n as int) <= g
    ensures -g == 2 * (RoundTo(n, g) - n as int) || 2 * (RoundTo(n, g) - n as int) == g ==>
              RoundTo(n, g) == (if n / g % 2 == 0 then n / g else n / g + 1) * g
  {
    var q, r := n / g, n % g;
    assert n == q * g + r;
    assert (q + 1) * g == q * g + g;
  }

  // ----- where equality is not transitive -----------------------------------

  predicate IsInteger(j: Json) { j.Int? || j.UInt? }

  /** The 64 bits of an integer, read as a signed number. */
  function Bits(j: Json): Int64
    requires IsInteger(j)
  {
    if j.Int? then j.signed else ToInt64(j.unsigned)
  }

  /** An integer as the comparison with a floating-point number converts it. */
  function Rounded(j: Json): real
    requires IsInteger(j)
  {
    ToDouble(if j.Int? then j.signed else j.unsigned)
  }

  /** Two different integers that are compared through a floating-point number, or two integers with the same
      bits and different values, compared through one of them with a floating-point number. */
  predicate ScalarClash(a: Json, b: Json, c: Json) {
    || (b.Float? && IsInteger(a) && IsInteger(c) && Bits(a) != Bits(c))
    || (a.Float? && IsInteger(b) && IsInteger(c) && Rounded(b) != Rounded(c))
    || (c.Float? && IsInteger(a) && IsInteger(b) && Rounded(a) != Rounded(b))
  }

  lemma {:induction false} ScalarTransitive(a: Json, b: Json, c: Json)
    requires ScalarEq(a, b) && ScalarEq(b, c)
    ensures ScalarEq(a, c) <==> !ScalarClash(a, b, c)
  {
    hide ToDouble;
  }

  /** The three values clash at some place that they share. */
  predicate Clash(a: Json, b: Json, c: Json)
    decreases a
  {
    match a
    case Arr(xs) => b.Arr? && c.Arr? && exists i | 0 <= i < |xs| && i < |b.elems| && i < |c.elems| ::
                      Clash(xs[i], b.elems[i], c.elems[i])
    case Obj(m) => b.Obj? && c.Obj? && exists k | k in m && k in b.members && k in c.members ::
                      Clash(m[k], b.members[k], c.members[k])
    case _ => ScalarClash(a, b, c)
  }

  /** Equality is transitive through b exactly when the three values clash nowhere. */
  lemma {:induction false} EqTransitive(a: Json, b: Json, c: Json)
    requires JsonEq(a, b) && JsonEq(b, c)
    ensures JsonEq(a, c) <==> !Clash(a, b, c)
    decreases a
  {
    match a
    case Arr(xs) =>
      forall i | 0 <= i < |xs| ensures JsonEq(xs[i], c.elems[i]) <==> !Clash(xs[i], b.elems[i], c.elems[i]) {
        EqTransitive(xs[i], b.elems[i], c.elems[i]);
      }
    case Obj(m) =>
      forall k | k in m ensures JsonEq(m[k], c.members[k]) <==> !Clash(m[k], b.members[k], c.members[k]) {
        EqTransitive(m[k], b.members[k], c.members[k]);
      }
    case _ => ScalarTransitive(a, b, c);
  }

  /** Values without floating-point numbers clash nowhere, so among them equality is an equivalence. */
  lemma {:induction false} ClashNeedsFloat(a: Json, b: Json, c: Json)
    requires Clash(a, b, c)
    ensures HasFloat(a) || HasFloat(b) || HasFloat(c)
    decreases a
  {
    match a
    case Arr(xs) =>
      var i :| 0 <= i < |xs| && i < |b.elems| && i < |c.elems| && Clash(xs[i], b.elems[i], c.elems[i]);
      ClashNeedsFloat(xs[i], b.elems[i], c.elems[i]);
    case Obj(m) =>
      var k :| k in m && k in b.members && k in c.members && Clash(m[k], b.members[k], c.members[k]);
      ClashNeedsFloat(m[k], b.members[k], c.members[k]);
    case _ =>
  }

  lemma LargestRoundsUp()
    ensures ToDouble(TWO_64 - 1) == TWO_64 as real
  {
    var m := 0xFFFF_FFFF_FFFF_FFFF;
    assert Spacing(m, 1) == Spacing(m, 2) == Spacing(m, 4) == Spacing(m, 8) == Spacing(m, 16) == Spacing(m, 32)
        == Spacing(m, 64) == Spacing(m, 128) == Spacing(m, 256) == Spacing(m, 512) == Spacing(m, 1024)
        == Spacing(m, 2048) == 2048;
    assert m / 2048 == 0x1F_FFFF_FFFF_FFFF && m % 2048 == 2047;
    assert RoundTo(m, 2048) == TWO_64;
  }

  /** Both kinds of clash exist: 2^53 + 1 and 2^53 through 2^53 as a double, and the double 2^64 with -1 through
      2^64 - 1. */
  lemma EqIsNotTransitive()
    ensures var a, b, c := Int(0x20_0000_0000_0001), Float(Finite(9007199254740992.0)), Int(0x20_0000_0000_0000);
            JsonEq(a, b) && JsonEq(b, c) && !JsonEq(a, c)
    ensures var a, b, c := Float(Finite(18446744073709551616.0)), UInt(TWO_64 - 1), Int(-1);
            JsonEq(a, b) && JsonEq(b, c) && !JsonEq(a, c)
  {
    var n := 0x20_0000_0000_0001;
    assert Spacing(n, 1) == Spacing(n, 2) == 2;
    assert n / 2 == 0x10_0000_0000_0000 && n % 2 == 1;
    assert RoundTo(n, 2) == 0x20_0000_0000_0000;
    assert ToDouble(n) == 9007199254740992.0;
    SmallIntegersAreExact(0x20_0000_0000_0000);
    SmallIntegersAreExact(-1);
    LargestRoundsUp();
  }

  /** Every array is short enough for its length to be a `std::vector` length. */
  predicate Fits(j: Json) {
    match j
    case Arr(xs) => |xs| < TWO_63 && forall i | 0 <= i < |xs| :: Fits(xs[i])
    case Obj(m) => forall k | k in m :: Fits(m[k])
    case _ => true
  }

  // ----- the order of the members of an object ------------------------------

  /** `operator<` on strings: lexicographic, a proper prefix comes first. */
  predicate Less(a: string, b: string) {
    b != "" && (a == "" || a[0] < b[0] || (a[0] == b[0] && Less(a[1..], b[1..])))
  }

  /** The two strings are the same up to position n, where a ends or has the smaller character. */
  predicate DivergeAt(a: string, b: string, n: int) {
    0 <= n <= |a| && n < |b| && a[..n] == b[..n] && (n == |a| || a[n] < b[n])
  }

  lemma {:induction false} LessMeans(a: string, b: string)
    ensures Less(a, b) <==> exists n :: DivergeAt(a, b, n)
  {
    if b != "" && (a == "" || a[0] < b[0]) {
      assert DivergeAt(a, b, 0);
    } else if a != "" && b != "" && a[0] == b[0] {
      LessMeans(a[1..], b[1..]);
      if n :| DivergeAt(a[1..], b[1..], n) {
        assert a[..n + 1] == [a[0]] + a[1..][..n] && b[..n + 1] == [b[0]] + b[1..][..n];
        assert DivergeAt(a, b, n + 1);
      }
      if n :| DivergeAt(a, b, n) {
        assert n > 0 && a[1..][..n - 1] == a[..n][1..] && b[1..][..n - 1] == b[..n][1..];
        assert DivergeAt(a[1..], b[1..], n - 1);
      }
    } else {
      forall n | 0 < n <= |a| && n < |b| ensures a[..n] != b[..n] {
        assert a[..n][0] == a[0] && b[..n][0] == b[0];
      }
    }
  }

  lemma {:induction false} LessTotal(a: string, b: string)
    ensures Less(a, b) || a == b || Less(b, a)
  {
    if a != "" && b != "" && a[0] == b[0] {
      LessTotal(a[1..], b[1..]);
      assert a == [a[0]] + a[1..] && b == [b[0]] + b[1..];
    }
  }

  lemma {:induction false} LessIrreflexive(a: string)
    ensures !Less(a, a)
  {
    if a != "" { LessIrreflexive(a[1..]); }
  }

  lemma {:induction false} LessTransitive(a: string, b: string, c: string)
    requires Less(a, b) && Less(b, c)
    ensures Less(a, c)
  {
    if a != "" && a[0] == b[0] == c[0] { LessTransitive(a[1..], b[1..], c[1..]); }
  }

  predicate IsLeast(k: string, s: set<string>) {
    k in s && forall x | x in s && x != k :: Less(k, x)
  }

  lemma {:induction false} LeastExists(s: set<string>)
    requires s != {}
    ensures exists k :: IsLeast(k, s)
  {
    var x :| x in s;
    if s == {x} {
      assert IsLeast(x, s);
    } else {
      LeastExists(s - {x});
      var k :| IsLeast(k, s - {x});
      LessTotal(x, k);
      if Less(k, x) {
        assert IsLeast(k, s);
      } else {
        forall y | y in s && y != x ensures Less(x, y) {
          if y != k { LessTransitive(x, k, y); }
        }
        assert IsLeast(x, s);
      }
    }
  }

  lemma LeastUnique(k: string, l: string, s: set<string>)
    requires IsLeast(k, s) && IsLeast(l, s)
    ensures k == l
  {
    if k != l {
      LessTransitive(k, l, k);
      LessIrreflexive(k);
    }
  }

  function Least(s: set<string>): (k: string)
    requires s != {}
    ensures IsLeast(k, s)
  {
    LeastExists(s);
    assert forall k, l | IsLeast(k, s) && IsLeast(l, s) :: k == l by {
      forall k, l | IsLeast(k, s) && IsLeast(l, s) ensures k == l { LeastUnique(k, l, s); }
    }
    var k :| k in s && IsLeast(k, s);
    k
  }

  /** The keys in the order in which `std::map` iterates. */
  function SortedKeys(s: set<string>): (ks: seq<string>)
    ensures forall k :: k in ks <==> k in s
    ensures forall i, j | 0 <= i < j < |ks| :: Less(ks[i], ks[j])
    ensures Distinct(ks)
  {
    if s == {} then []
    else
      var k := Least(s);
      var rest := SortedKeys(s - {k});
      var ks := [k] + rest;
      assert forall i, j | 0 <= i < j < |ks| :: Less(ks[i], ks[j]) by {
        forall i, j | 0 <= i < j < |ks| ensures Less(ks[i], ks[j]) {
          if i == 0 { assert ks[j] in rest; }
        }
      }
      SortedIsDistinct(ks);
      ks
  }

  predicate Distinct<T(==)>(s: seq<T>) {
    forall i, j | 0 <= i < j < |s| :: s[i] != s[j]
  }

  lemma SortedIsDistinct(ks: seq<string>)
    requires forall i, j | 0 <= i < j < |ks| :: Less(ks[i], ks[j])
    ensures Distinct(ks)
  {
    forall i, j | 0 <= i < j < |ks| ensures ks[i] != ks[j] { LessIrreflexive(ks[i]); }
  }
}
