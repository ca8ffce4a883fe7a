/**
 * Fixed-width integers as bounded mathematical integers: the .NET integer
 * types of 1, 2, 4, 8 and 16 bytes, their two's complement bit patterns, the
 * unchecked (wrapping) truncation, and the little- and big-endian byte images
 * of a bit pattern.
 */
module Integers {

  type byte = b: int | 0 <= b < 256

  type int8 = x: int | -0x80 <= x < 0x80
  type int32 = x: int | -0x8000_0000 <= x < 0x8000_0000
  type uint32 = x: int | 0 <= x < 0x1_0000_0000
  type int64 = x: int | -0x8000_0000_0000_0000 <= x < 0x8000_0000_0000_0000
  type uint64 = x: int | 0 <= x < 0x1_0000_0000_0000_0000

  const Int32Min: int := -0x8000_0000
  const Int32Max: int := 0x7FFF_FFFF

  function Pow256(n: nat): (r: int)
    ensures r >= 1
  {
    if n == 0 then 1 else 256 * Pow256(n - 1)
  }

  /** A .NET binary integer type: its size in bytes and whether it is signed. */
  datatype IntType = IntType(size: nat, signed: bool) {

    predicate Valid() {
      size == 1 || size == 2 || size == 4 || size == 8 || size == 16
    }

    /** 2^(8 * size): the number of bit patterns. */
    function Modulus(): int {
      Pow256(size)
    }

    function MinValue(): int {
      if signed then -(Modulus() / 2) else 0
    }

    function MaxValue(): int {
      if signed then Modulus() / 2 - 1 else Modulus() - 1
    }

    predicate InRange(v: int) {
      MinValue() <= v <= MaxValue()
    }
  }

  const SByte := IntType(1, true)
  const Byte := IntType(1, false)
  const Int16 := IntType(2, true)
  const UInt16 := IntType(2, false)
  const Int32 := IntType(4, true)
  const UInt32 := IntType(4, false)
  const Int64 := IntType(8, true)
  const UInt64 := IntType(8, false)
  const Int128 := IntType(16, true)
  const UInt128 := IntType(16, false)

  lemma Pow256Values()
    ensures Pow256(1) == 0x100 && Pow256(2) == 0x1_0000
    ensures Pow256(4) == 0x1_0000_0000
    ensures Pow256(8) == 0x1_0000_0000_0000_0000
  {
    assert Pow256(2) == 256 * Pow256(1);
    assert Pow256(4) == 256 * (256 * Pow256(2));
    assert Pow256(8) == 256 * (256 * (256 * (256 * Pow256(4))));
  }

  lemma ModulusEven(t: IntType)
    requires t.size >= 1
    ensures t.Modulus() % 2 == 0 && t.Modulus() / 2 * 2 == t.Modulus()
  {
    assert t.Modulus() == 256 * Pow256(t.size - 1);
  }

  lemma {:induction false} MulAtLeast(k: int, m: int)
    requires k >= 1 && m > 0
    ensures k * m >= m
  {
    if k > 1 {
      MulAtLeast(k - 1, m);
      assert k * m == (k - 1) * m + m;
    }
  }

  /** x % m and x / m are characterised by x == q * m + r with 0 <= r < m. */
  lemma DivModUnique(x: int, m: int, q: int, r: int)
    requires m > 0 && 0 <= r < m && x == q * m + r
    ensures x % m == r && x / m == q
  {
    var q', r' := x / m, x % m;
    assert x == q' * m + r';
    assert (q - q') * m == r' - r;
    if q' > q {
      MulAtLeast(q' - q, m);
    } else if q' < q {
      MulAtLeast(q - q', m);
    }
  }

  lemma ModShift(x: int, k: int, m: int)
    requires m > 0
    ensures (x + k * m) % m == x % m
  {
    assert x == (x / m) * m + x % m;
    assert x + k * m == (x / m + k) * m + x % m;
    DivModUnique(x + k * m, m, x / m + k, x % m);
  }

  /** The two's complement bit pattern of v in type t (an unchecked cast to the unsigned type). */
  function ToBits(t: IntType, v: int): (u: nat)
    ensures u < t.Modulus()
  {
    v % t.Modulus()
  }

  /** The value of type t whose bit pattern is u. */
  function FromBits(t: IntType, u: nat): (v: int)
    requires u < t.Modulus()
  {
    if t.signed && u >= t.Modulus() / 2 then u - t.Modulus() else u
  }

  /** Unchecked truncation of an integer to type t, as C# `unchecked` arithmetic does. */
  function Wrap(t: IntType, v: int): int
  {
    FromBits(t, ToBits(t, v))
  }

  lemma FromBitsInRange(t: IntType, u: nat)
    requires t.size >= 1 && u < t.Modulus()
    ensures t.InRange(FromBits(t, u))
  {
    ModulusEven(t);
  }

  lemma {:induction false} BitsRoundTrip(t: IntType, v: int)
    requires t.size >= 1 && t.InRange(v)
    ensures FromBits(t, ToBits(t, v)) == v
  {
    ModulusEven(t);
    var m := t.Modulus();
    if v >= 0 {
      DivModUnique(v, m, 0, v);
    } else {
      DivModUnique(v, m, -1, v + m);
    }
  }

  lemma {:induction false} FromBitsRoundTrip(t: IntType, u: nat)
    requires u < t.Modulus()
    ensures ToBits(t, FromBits(t, u)) == u
  {
    var m := t.Modulus();
    if t.signed && u >= m / 2 {
      DivModUnique(u - m, m, -1, u);
    } else {
      DivModUnique(u, m, 0, u);
    }
  }

  lemma {:induction false} WrapInRange(t: IntType, v: int)
    requires t.size >= 1
    ensures t.InRange(Wrap(t, v))
    ensures t.InRange(v) ==> Wrap(t, v) == v
  {
    FromBitsInRange(t, ToBits(t, v));
    if t.InRange(v) {
      BitsRoundTrip(t, v);
    }
  }

  /** Wrap(t, v) differs from v by a multiple of the modulus. */
  lemma {:induction false} WrapCongruent(t: IntType, v: int)
    ensures exists k: int :: Wrap(t, v) == v + k * t.Modulus()
  {
    var m := t.Modulus();
    assert v == (v / m) * m + v % m;
    if t.signed && v % m >= m / 2 {
      assert Wrap(t, v) == v + (-(v / m) - 1) * m;
    } else {
      assert Wrap(t, v) == v + (-(v / m)) * m;
    }
  }

  /** Wrapping an intermediate result does not change a wrapped sum. */
  lemma {:induction false} WrapAdd(t: IntType, a: int, b: int)
    ensures Wrap(t, Wrap(t, a) + b) == Wrap(t, a + b)
  {
    WrapCongruent(t, a);
    var k :| Wrap(t, a) == a + k * t.Modulus();
    ModShift(a + b, k, t.Modulus());
    assert Wrap(t, a) + b == (a + b) + k * t.Modulus();
  }

  lemma {:induction false} WrapMul(t: IntType, a: int, b: int)
    ensures Wrap(t, Wrap(t, a) * b) == Wrap(t, a * b)
  {
    WrapCongruent(t, a);
    var k :| Wrap(t, a) == a + k * t.Modulus();
    assert Wrap(t, a) * b == a * b + (k * b) * t.Modulus();
    ModShift(a * b, k * b, t.Modulus());
  }

  /** Unchecked `int` (Int32) arithmetic. */
  function Wrap32(v: int): (r: int32)
  {
    Pow256Values();
    WrapInRange(Int32, v);
    Wrap(Int32, v)
  }

  lemma Wrap32Identity(v: int)
    requires Int32Min <= v <= Int32Max
    ensures Wrap32(v) == v
  {
    Pow256Values();
    WrapInRange(Int32, v);
  }

  /** Wrap32 is the identity on Int32 values, and int.MaxValue + 1 wraps to int.MinValue. */
  lemma Wrap32Fits(v: int)
    ensures Int32Min <= v <= Int32Max ==> Wrap32(v) == v
    ensures v == Int32Max + 1 ==> Wrap32(v) == Int32Min
  {
    Pow256Values();
    if Int32Min <= v <= Int32Max {
      Wrap32Identity(v);
    }
  }

  lemma Wrap32Add(a: int, b: int)
    ensures Wrap32(Wrap32(a) + b) == Wrap32(a + b)
    ensures Wrap32(a + Wrap32(b)) == Wrap32(a + b)
  {
    WrapAdd(Int32, a, b);
    WrapAdd(Int32, b, a);
  }

  /** C# integer division, which truncates toward zero (Dafny's `/` is Euclidean). */
  function TruncDiv(a: int, b: int): int
    requires b != 0
  {
    var q := Abs(a) / Abs(b);
    if (a < 0) == (b < 0) then q else -q
  }

  /** C# `%`: the remainder of truncating division, which takes the sign of the dividend. */
  function TruncRem(a: int, b: int): int
    requires b != 0
  {
    a - b * TruncDiv(a, b)
  }

  function Abs(x: int): nat
  {
    if x < 0 then -x else x
  }

  /** TruncDiv/TruncRem is a division: quotient and remainder recompose a, the remainder is smaller than b and has a's sign. */
  lemma {:induction false} TruncDivision(a: int, b: int)
    requires b != 0
    ensures a == b * TruncDiv(a, b) + TruncRem(a, b)
    ensures Abs(TruncRem(a, b)) < Abs(b)
    ensures a >= 0 ==> TruncRem(a, b) >= 0
    ensures a <= 0 ==> TruncRem(a, b) <= 0
  {
    var q := Abs(a) / Abs(b);
    var r := Abs(a) % Abs(b);
    assert Abs(a) == q * Abs(b) + r;
    if a >= 0 && b > 0 {
      assert TruncRem(a, b) == r;
    } else if a >= 0 {
      assert b * TruncDiv(a, b) == q * Abs(b);
      assert TruncRem(a, b) == r;
    } else if b > 0 {
      assert b * TruncDiv(a, b) == -(q * Abs(b));
      assert TruncRem(a, b) == -r;
    } else {
      assert b * TruncDiv(a, b) == -(q * Abs(b));
      assert TruncRem(a, b) == -r;
    }
  }

  // ---------------------------------------------------------------------
  // Byte images of a bit pattern

  /** The n-byte little-endian image of u (least significant byte first). */
  function LittleBytes(u: nat, n: nat): (r: seq<byte>)
    ensures |r| == n
  {
    if n == 0 then [] else [u % 256] + LittleBytes(u / 256, n - 1)
  }

  /** The number whose little-endian image is bs. */
  function LittleValue(bs: seq<byte>): (r: nat)
    ensures r < Pow256(|bs|)
  {
    if bs == [] then 0 else bs[0] + 256 * LittleValue(bs[1..])
  }

  function Reverse<T>(s: seq<T>): (r: seq<T>)
    ensures |r| == |s|
    ensures forall i :: 0 <= i < |s| ==> r[i] == s[|s| - 1 - i]
  {
    if s == [] then [] else Reverse(s[1..]) + [s[0]]
  }

  /** The n-byte big-endian image of u (most significant byte first). */
  function BigBytes(u: nat, n: nat): (r: seq<byte>)
    ensures |r| == n
  {
    Reverse(LittleBytes(u, n))
  }

  /** The number whose big-endian image is bs. */
  function BigValue(bs: seq<byte>): (r: nat)
    ensures r < Pow256(|bs|)
  {
    LittleValue(Reverse(bs))
  }

  lemma ReverseReverse<T>(s: seq<T>)
    ensures Reverse(Reverse(s)) == s
  {
  }

  lemma {:induction false} LittleRoundTrip(u: nat, n: nat)
    requires u < Pow256(n)
    ensures LittleValue(LittleBytes(u, n)) == u
  {
    if n > 0 {
      LittleRoundTrip(u / 256, n - 1);
      assert LittleBytes(u, n)[1..] == LittleBytes(u / 256, n - 1);
    }
  }

  lemma {:induction false} LittleImageOfValue(bs: seq<byte>)
    ensures LittleBytes(LittleValue(bs), |bs|) == bs
  {
    if bs != [] {
      LittleImageOfValue(bs[1..]);
      var v := LittleValue(bs);
      assert v % 256 == bs[0] && v / 256 == LittleValue(bs[1..]);
      assert bs == [bs[0]] + bs[1..];
    }
  }

  lemma BigRoundTrip(u: nat, n: nat)
    requires u < Pow256(n)
    ensures BigValue(BigBytes(u, n)) == u
  {
    ReverseReverse(LittleBytes(u, n));
    LittleRoundTrip(u, n);
  }

  lemma BigImageOfValue(bs: seq<byte>)
    ensures BigBytes(BigValue(bs), |bs|) == bs
  {
    LittleImageOfValue(Reverse(bs));
    ReverseReverse(bs);
  }

  lemma ShiftDistributes(rest: int, b: int, p: int)
    ensures 256 * (rest + b * p) == 256 * rest + b * (256 * p)
  {
  }

  lemma {:induction false} LittleValueAppend(s: seq<byte>, b: byte)
    ensures LittleValue(s + [b]) == LittleValue(s) + b * Pow256(|s|)
  {
    if s != [] {
      assert (s + [b])[1..] == s[1..] + [b];
      LittleValueAppend(s[1..], b);
      var p := Pow256(|s| - 1);
      var rest := LittleValue(s[1..]);
      ShiftDistributes(rest, b, p);
    }
  }

  /** Little-endian: the first byte is the least significant one. */
  lemma LittleFirstByteLeast(bs: seq<byte>)
    requires bs != []
    ensures LittleValue(bs) % 256 == bs[0]
  {
  }

  /** Big-endian: the first byte is the most significant one. */
  lemma {:induction false} BigFirstByteMost(bs: seq<byte>)
    requires bs != []
    ensures BigValue(bs) == bs[0] * Pow256(|bs| - 1) + BigValue(bs[1..])
  {
    assert Reverse(bs) == Reverse(bs[1..]) + [bs[0]];
    LittleValueAppend(Reverse(bs[1..]), bs[0]);
  }

  /** The highest byte of an n-byte pattern has its top bit set iff the pattern is at least half the modulus. */
  lemma {:induction false} TopBitLittle(bs: seq<byte>)
    requires bs != []
    ensures LittleValue(bs) >= Pow256(|bs|) / 2 <==> bs[|bs| - 1] >= 128
  {
    if |bs| == 1 {
    } else {
      TopBitLittle(bs[1..]);
      assert bs[1..][|bs| - 2] == bs[|bs| - 1];
      var rest := LittleValue(bs[1..]);
      var p := Pow256(|bs| - 1);
      assert Pow256(|bs|) == 256 * p;
      assert p % 2 == 0 by { assert p == 256 * Pow256(|bs| - 2); }
      assert LittleValue(bs) == bs[0] + 256 * rest;
    }
  }

  lemma TopBitBig(bs: seq<byte>)
    requires bs != []
    ensures BigValue(bs) >= Pow256(|bs|) / 2 <==> bs[0] >= 128
  {
    TopBitLittle(Reverse(bs));
  }
}
