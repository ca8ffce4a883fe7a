/**
 * MathI: integer helpers. CeilDiv works on unchecked Int32 arithmetic with
 * C#'s truncating division; Sum and SumRaw add a span of binary integers of
 * one type with wrap-around; NextPowerOfTwo rounds up to a power of two,
 * saturating at the type's maximum when the power does not fit.
 */
module MathI {
  import opened Wrappers
  import opened Integers

  // ---------------------------------------------------------------------
  // CeilDiv

  /**
   * CeilDiv(x, y) = x is 0 ? 0 : 1 + ((x - 1) / y), in unchecked Int32
   * arithmetic: x - 1 and the final + 1 wrap; the division raises
   * DivideByZeroException when y is 0 and OverflowException on
   * int.MinValue / -1.
   */
  function CeilDiv(x: int32, y: int32): (r: Result<int32>)
    ensures x == 0 ==> r == Ok(0)
    ensures x != 0 && y == 0 ==> r == Err(DivideByZero)
    ensures x == Int32Min + 1 && y == -1 ==> r == Err(Overflow)
    ensures r.Err? ==> x != 0 && (y == 0 || (x == Int32Min + 1 && y == -1))
  {
    if x == 0 then Ok(0)
    else if y == 0 then Err(DivideByZero)
    else
      var a := Wrap32(x - 1);
      Wrap32Fits(x - 1);
      if a == Int32Min && y == -1 then Err(Overflow)
      else Ok(Wrap32(1 + TruncDiv(a, y)))
  }

  /** For positive x and y, CeilDiv(x, y) is the least q with q * y >= x. */
  lemma {:induction false} CeilDivLeast(x: int32, y: int32)
    requires x > 0 && y > 0
    ensures CeilDiv(x, y).Ok?
    ensures var q := CeilDiv(x, y).value; q * y >= x && (q - 1) * y < x
  {
    Wrap32Fits(x - 1);
    var d := (x - 1) / y;
    assert TruncDiv(x - 1, y) == d;
    QuotientBounds(x - 1, y);
    Wrap32Fits(1 + d);
    assert CeilDiv(x, y) == Ok(1 + d);
  }

  /**
   * With a negative operand the expression is not the ceiling of x / y:
   * the ceiling of -4 / 2 is -2 and that of 5 / -2 is -2, yet both give -1.
   */
  lemma CeilDivNegativeOperands()
    ensures CeilDiv(-4, 2) == Ok(-1)
    ensures CeilDiv(5, -2) == Ok(-1)
  {
    Wrap32Fits(-4 - 1);
    Wrap32Fits(5 - 1);
    assert TruncDiv(-5, 2) == -2;
    assert TruncDiv(4, -2) == -2;
    Wrap32Fits(1 + -2);
  }

  /** For n >= 0 and y > 0, d = n / y satisfies 0 <= d <= n, d * y <= n < d * y + y. */
  lemma QuotientBounds(n: int, y: int)
    requires n >= 0 && y > 0
    ensures 0 <= n / y <= n
    ensures (n / y) * y <= n < (n / y) * y + y
    ensures (1 + n / y) * y == (n / y) * y + y
  {
    var d, m := n / y, n % y;
    assert n == d * y + m && 0 <= m < y;
    if d > 0 {
      MulAtLeast(y, d);
    }
  }

  // ---------------------------------------------------------------------
  // Sum and SumRaw

  /** The mathematical sum of a sequence, element by element in order. */
  function SeqSum(s: seq<int>): int
  {
    if s == [] then 0 else SeqSum(s[..|s| - 1]) + s[|s| - 1]
  }

  lemma {:induction false} SeqSumAppend(a: seq<int>, b: seq<int>)
    ensures SeqSum(a + b) == SeqSum(a) + SeqSum(b)
    decreases |b|
  {
    if b != [] {
      assert (a + b)[..|a + b| - 1] == a + b[..|b| - 1];
      assert (a + b)[|a + b| - 1] == b[|b| - 1];
      SeqSumAppend(a, b[..|b| - 1]);
    } else {
      assert a + b == a;
    }
  }

  /** Every element of s is a value of type t. */
  predicate AllInRange(t: IntType, s: seq<int>)
  {
    forall i :: 0 <= i < |s| ==> t.InRange(s[i])
  }

  /** The value Sum and SumRaw promise: the unchecked (wrapping) sum of the elements. */
  function WrappingSum(t: IntType, s: seq<int>): int
  {
    Wrap(t, SeqSum(s))
  }

  lemma WrapAddBoth(t: IntType, a: int, b: int)
    ensures Wrap(t, a + Wrap(t, b)) == Wrap(t, a + b)
  {
    WrapAdd(t, b, a);
  }

  /** One scalar step: adding the next element to the wrapped running sum. */
  lemma SumStep(t: IntType, s: seq<int>, i: nat, sum: int)
    requires i < |s| && sum == WrappingSum(t, s[..i])
    ensures Wrap(t, sum + s[i]) == WrappingSum(t, s[..i + 1])
  {
    assert s[..i + 1][..i] == s[..i];
    WrapAdd(t, SeqSum(s[..i]), s[i]);
  }

  /** SumRaw: adds the elements one by one with wrap-around. */
  method SumRaw(t: IntType, span: seq<int>) returns (sum: int)
    requires t.Valid() && AllInRange(t, span)
    ensures sum == WrappingSum(t, span)
    ensures t.InRange(sum)
  {
    WrapInRange(t, 0);
    sum := 0;
    var current := 0;
    while current < |span|
      invariant 0 <= current <= |span|
      invariant sum == WrappingSum(t, span[..current])
    {
      SumStep(t, span, current, sum);
      sum := Wrap(t, sum + span[current]);
      current := current + 1;
    }
    assert span[..|span|] == span;
    WrapInRange(t, SeqSum(span));
  }

  /** Vector addition: lane by lane, each lane wrapping. */
  function AddLanes(t: IntType, a: seq<int>, b: seq<int>): (r: seq<int>)
    requires |a| == |b|
    ensures |r| == |a|
    ensures forall j :: 0 <= j < |a| ==> r[j] == Wrap(t, a[j] + b[j])
  {
    seq(|a|, j requires 0 <= j < |a| => Wrap(t, a[j] + b[j]))
  }

  /** Lane-wise addition adds the lane totals, up to wrap-around. */
  lemma {:induction false} AddLanesSum(t: IntType, a: seq<int>, b: seq<int>)
    requires |a| == |b|
    ensures Wrap(t, SeqSum(AddLanes(t, a, b))) == Wrap(t, SeqSum(a) + SeqSum(b))
    decreases |a|
  {
    if a != [] {
      var n := |a| - 1;
      AddLanesSum(t, a[..n], b[..n]);
      AddLanesLast(t, a, b);
      SumsLast(a, b);
      WrapStep(t, SeqSum(AddLanes(t, a, b)), SeqSum(AddLanes(t, a[..n], b[..n])),
        SeqSum(a) + SeqSum(b), SeqSum(a[..n]) + SeqSum(b[..n]), a[n] + b[n]);
    }
  }

  lemma AddLanesLast(t: IntType, a: seq<int>, b: seq<int>)
    requires |a| == |b| && |a| > 0
    ensures SeqSum(AddLanes(t, a, b)) ==
      SeqSum(AddLanes(t, a[..|a| - 1], b[..|a| - 1])) + Wrap(t, a[|a| - 1] + b[|a| - 1])
  {
    var n := |a| - 1;
    assert AddLanes(t, a, b)[..n] == AddLanes(t, a[..n], b[..n]);
  }

  lemma SumsLast(a: seq<int>, b: seq<int>)
    requires |a| == |b| && |a| > 0
    ensures SeqSum(a) + SeqSum(b) == SeqSum(a[..|a| - 1]) + SeqSum(b[..|a| - 1]) + (a[|a| - 1] + b[|a| - 1])
  {
  }

  /** Two sums that agree after wrapping still agree after one more wrapped addend. */
  lemma WrapStep(t: IntType, l: int, x: int, r: int, s: int, y: int)
    requires Wrap(t, x) == Wrap(t, s) && l == x + Wrap(t, y) && r == s + y
    ensures Wrap(t, l) == Wrap(t, r)
  {
    WrapAddBoth(t, x, y);
    WrapAdd(t, x, y);
    WrapAdd(t, s, y);
  }

  lemma {:induction false} ZeroLanes(n: nat)
    ensures SeqSum(seq(n, _ => 0)) == 0
  {
    if n > 0 {
      assert seq(n, _ => 0)[..n - 1] == seq(n - 1, _ => 0);
      ZeroLanes(n - 1);
    }
  }

  /** The vector loop's step: one more chunk of the span added into the lanes. */
  lemma LaneStep(t: IntType, span: seq<int>, lanes: seq<int>, current: nat, vecSize: nat)
    requires current + vecSize <= |span| && |lanes| == vecSize
    requires Wrap(t, SeqSum(lanes)) == WrappingSum(t, span[..current])
    ensures Wrap(t, SeqSum(AddLanes(t, lanes, span[current..current + vecSize]))) == WrappingSum(t, span[..current + vecSize])
  {
    var chunk := span[current..current + vecSize];
    AddLanesSum(t, lanes, chunk);
    assert span[..current + vecSize] == span[..current] + chunk;
    SeqSumAppend(span[..current], chunk);
    WrapAdd(t, SeqSum(lanes), SeqSum(chunk));
    WrapAdd(t, SeqSum(span[..current]), SeqSum(chunk));
  }

  /**
   * Sum: when vectors are hardware accelerated and the span holds at least
   * one vector of vecSize lanes, whole chunks are added lane-wise while a
   * chunk ends before the last vecSize elements, the lanes are then added
   * into the sum, and the remaining elements are added one by one. The
   * hardware facts are parameters here.
   */
  method Sum(t: IntType, span: seq<int>, accelerated: bool, vecSize: nat) returns (sum: int)
    requires t.Valid() && AllInRange(t, span) && vecSize >= 1
    ensures sum == WrappingSum(t, span)
    ensures t.InRange(sum)
  {
    WrapInRange(t, 0);
    sum := 0;
    var current := 0;
    if accelerated && |span| >= vecSize {
      var sumVec := seq(vecSize, _ => 0);
      ZeroLanes(vecSize);
      var vecLimit := |span| - vecSize;
      while current < vecLimit
        invariant 0 <= current <= |span| && |sumVec| == vecSize
        invariant Wrap(t, SeqSum(sumVec)) == WrappingSum(t, span[..current])
      {
        LaneStep(t, span, sumVec, current, vecSize);
        sumVec := AddLanes(t, sumVec, span[current..current + vecSize]);
        current := current + vecSize;
      }
      for i := 0 to vecSize
        invariant sum == WrappingSum(t, sumVec[..i])
      {
        SumStep(t, sumVec, i, sum);
        sum := Wrap(t, sum + sumVec[i]);
      }
      assert sumVec[..vecSize] == sumVec;
      WrapAdd(t, SeqSum(sumVec), 0);
    }
    while current < |span|
      invariant 0 <= current <= |span|
      invariant sum == WrappingSum(t, span[..current])
    {
      SumStep(t, span, current, sum);
      sum := Wrap(t, sum + span[current]);
      current := current + 1;
    }
    assert span[..|span|] == span;
    WrapInRange(t, SeqSum(span));
  }

  /** Sum(T[] values): Sum over the whole array. */
  method SumArray(t: IntType, values: array<int>, accelerated: bool, vecSize: nat) returns (sum: int)
    requires t.Valid() && AllInRange(t, values[..]) && vecSize >= 1
    ensures sum == WrappingSum(t, values[..])
  {
    sum := Sum(t, values[..], accelerated, vecSize);
  }

  /** SumRaw(T[] values): forwards to Sum, not to SumRaw; the value is the same. */
  method SumRawArray(t: IntType, values: array<int>, accelerated: bool, vecSize: nat) returns (sum: int)
    requires t.Valid() && AllInRange(t, values[..]) && vecSize >= 1
    ensures sum == WrappingSum(t, values[..])
  {
    sum := Sum(t, values[..], accelerated, vecSize);
  }

  // ---------------------------------------------------------------------
  // NextPowerOfTwo

  function Pow2(k: nat): (r: nat)
    ensures r >= 1
  {
    if k == 0 then 1 else 2 * Pow2(k - 1)
  }

  predicate IsPowerOfTwo(n: int)
    decreases if n > 0 then n else 0
  {
    n == 1 || (n > 1 && n % 2 == 0 && IsPowerOfTwo(n / 2))
  }

  /** The number of significant bits of v. */
  function BitLength(v: nat): nat
  {
    if v == 0 then 0 else 1 + BitLength(v / 2)
  }

  /** BitOperations.LeadingZeroCount for a width-bit unsigned value. */
  function LeadingZeroCount(width: nat, v: nat): int
  {
    width - BitLength(v)
  }

  lemma {:induction false} Pow2IsPowerOfTwo(k: nat)
    ensures IsPowerOfTwo(Pow2(k))
  {
    if k > 0 {
      Pow2IsPowerOfTwo(k - 1);
      assert Pow2(k) / 2 == Pow2(k - 1);
    }
  }

  /** v has BitLength(v) significant bits: 2^(len-1) <= v < 2^len. */
  lemma {:induction false} BitLengthBounds(v: nat)
    ensures v < Pow2(BitLength(v))
    ensures v > 0 ==> Pow2(BitLength(v) - 1) <= v
  {
    if v > 0 {
      BitLengthBounds(v / 2);
    }
  }

  /** BitLength is monotone in the bound: v < 2^w has at most w bits. */
  lemma {:induction false} BitLengthAtMost(v: nat, w: nat)
    requires v < Pow2(w)
    ensures BitLength(v) <= w
  {
    if v > 0 {
      assert w > 0;
      BitLengthAtMost(v / 2, w - 1);
    }
  }

  /** For 2 <= n <= 2^w, 2^BitLength(n - 1) is the least power of two that is at least n, and it is at most 2^w. */
  lemma RoundUp(n: nat, w: nat)
    requires 2 <= n <= Pow2(w)
    ensures 1 <= BitLength(n - 1) <= w
    ensures LeastPowerOfTwoAtLeast(Pow2(BitLength(n - 1)), n)
    ensures Pow2(BitLength(n - 1)) <= Pow2(w)
  {
    var k := BitLength(n - 1);
    BitLengthBounds(n - 1);
    BitLengthAtMost(n - 1, w);
    Pow2IsPowerOfTwo(k);
    Pow2IsPowerOfTwo(w);
    assert Pow2(k) == 2 * Pow2(k - 1);
    LeastPowerOfTwoIsLeast(Pow2(k), n, Pow2(w));
  }

  /** The result of an unsaturated NextPowerOfTwo: the least power of two that is at least n. */
  predicate LeastPowerOfTwoAtLeast(r: int, n: int)
  {
    IsPowerOfTwo(r) && r >= n && (r == 1 || r / 2 < n)
  }

  /** NextPowerOfTwo(ulong): 1 up to 1, ulong.MaxValue above 2^63. */
  function NextPowerOfTwoUInt64(number: uint64): (r: uint64)
    ensures number <= 1 ==> r == 1
    ensures number > 0x8000_0000_0000_0000 ==> r == 0xFFFF_FFFF_FFFF_FFFF
    ensures 1 < number <= 0x8000_0000_0000_0000 ==> LeastPowerOfTwoAtLeast(r, number)
  {
    if number <= 1 then 1
    else if number > 0x8000_0000_0000_0000 then 0xFFFF_FFFF_FFFF_FFFF
    else
      Pow2Values();
      RoundUp(number, 63);
      Pow2(64 - LeadingZeroCount(64, number - 1))
  }

  /** NextPowerOfTwo(long): 1 up to 1 (negative numbers included), long.MaxValue above 2^62. */
  function NextPowerOfTwoInt64(number: int64): (r: int64)
    ensures number <= 1 ==> r == 1
    ensures number > 0x4000_0000_0000_0000 ==> r == 0x7FFF_FFFF_FFFF_FFFF
    ensures 1 < number <= 0x4000_0000_0000_0000 ==> LeastPowerOfTwoAtLeast(r, number)
  {
    if number <= 1 then 1
    else if number > 0x4000_0000_0000_0000 then 0x7FFF_FFFF_FFFF_FFFF
    else
      Pow2Values();
      RoundUp(number, 62);
      Pow2(64 - LeadingZeroCount(64, number - 1))
  }

  /** NextPowerOfTwo(uint): 1 up to 1, uint.MaxValue above 2^31. */
  function NextPowerOfTwoUInt32(number: uint32): (r: uint32)
    ensures number <= 1 ==> r == 1
    ensures number > 0x8000_0000 ==> r == 0xFFFF_FFFF
    ensures 1 < number <= 0x8000_0000 ==> LeastPowerOfTwoAtLeast(r, number)
  {
    if number <= 1 then 1
    else if number > 0x8000_0000 then 0xFFFF_FFFF
    else
      Pow2Values();
      RoundUp(number, 31);
      Pow2(32 - LeadingZeroCount(32, number - 1))
  }

  /** NextPowerOfTwo(int): 1 up to 1 (negative numbers included), int.MaxValue above 2^30. */
  function NextPowerOfTwoInt32(number: int32): (r: int32)
    ensures number <= 1 ==> r == 1
    ensures number > 0x4000_0000 ==> r == 0x7FFF_FFFF
    ensures 1 < number <= 0x4000_0000 ==> LeastPowerOfTwoAtLeast(r, number)
  {
    if number <= 1 then 1
    else if number > 0x4000_0000 then 0x7FFF_FFFF
    else
      Pow2Values();
      RoundUp(number, 30);
      Pow2(32 - LeadingZeroCount(32, number - 1))
  }

  lemma Pow2Values()
    ensures Pow2(30) == 0x4000_0000 && Pow2(31) == 0x8000_0000
    ensures Pow2(62) == 0x4000_0000_0000_0000 && Pow2(63) == 0x8000_0000_0000_0000
  {
    Pow256Values();
    Pow2Bytes(4);
    Pow2Bytes(8);
    assert Pow2(32) == 2 * Pow2(31) && Pow2(31) == 2 * Pow2(30);
    assert Pow2(64) == 2 * Pow2(63) && Pow2(63) == 2 * Pow2(62);
  }

  /** 2^(8k) is 256^k. */
  lemma {:induction false} Pow2Bytes(k: nat)
    ensures Pow2(8 * k) == Pow256(k)
  {
    if k > 0 {
      Pow2Bytes(k - 1);
      Pow2Add(8 * (k - 1), 8);
      assert Pow2(8) == 256;
    }
  }

  lemma {:induction false} Pow2Add(a: nat, b: nat)
    ensures Pow2(a + b) == Pow2(a) * Pow2(b)
    decreases b
  {
    if b > 0 {
      Pow2Add(a, b - 1);
      assert Pow2(a + b) == 2 * Pow2(a + b - 1);
    }
  }

  /**
   * NextPowerOfTwo returns a power of two it is given, not the next one above
   * it, and above the top power it returns MaxValue, which is no power of two.
   */
  lemma {:induction false} NextPowerOfTwoAtOrAbove()
    ensures NextPowerOfTwoUInt32(4) == 4 && NextPowerOfTwoInt32(4) == 4
    ensures NextPowerOfTwoUInt32(0x8000_0001) == 0xFFFF_FFFF && !IsPowerOfTwo(0xFFFF_FFFF)
  {
    Pow2IsPowerOfTwo(2);
    assert Pow2(2) == 4;
    LeastPowerOfTwoIsLeast(NextPowerOfTwoUInt32(4), 4, 4);
    LeastPowerOfTwoIsLeast(NextPowerOfTwoInt32(4), 4, 4);
  }

  /** The smallest power of two that is at least n is unique: no smaller power of two reaches n. */
  lemma LeastPowerOfTwoIsLeast(r: int, n: int, p: int)
    requires LeastPowerOfTwoAtLeast(r, n) && IsPowerOfTwo(p) && p >= n
    ensures p >= r
  {
    PowerOfTwoBelow(p, r);
  }

  /** A power of two below another power of two r is at most r / 2. */
  lemma {:induction false} PowerOfTwoBelow(p: int, r: int)
    requires IsPowerOfTwo(p) && IsPowerOfTwo(r)
    ensures p >= 1
    ensures p < r ==> p <= r / 2
    decreases if r > 0 then r else 0
  {
    if p > 1 && r > 1 {
      PowerOfTwoBelow(p / 2, r / 2);
    }
  }
}
