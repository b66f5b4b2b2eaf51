/** The few pieces of the .NET runtime that the TOTP computation leans on:
    the fixed-width integer types, integer division as C# defines it, unchecked
    32-bit arithmetic, the exceptions those operations throw, and the
    byte-level helpers BitConverter.GetBytes and Enumerable.Reverse. */
module DotNet {
  import opened Bits

  /** C# `int`. */
  type Int32 = x: int | -0x8000_0000 <= x < 0x8000_0000

  /** C# `long` (System.Int64). */
  type Int64 = x: int | -0x8000_0000_0000_0000 <= x < 0x8000_0000_0000_0000

  const Int64MinValue: Int64 := -0x8000_0000_0000_0000
  const Int64MaxValue: Int64 := 0x7FFF_FFFF_FFFF_FFFF

  /** The exceptions the modelled code can throw. */
  datatype Exception =
    | DivideByZeroException      // integer `/` or `%` by zero
    | OverflowException          // a checked conversion or long.MinValue / -1
    | IndexOutOfRangeException   // an array index past the end
    | InvalidOperationException  // Enumerable.Last() of an empty sequence

  /** A computation that either returns a value or throws; usable with `:-`. */
  datatype Result<+T> = Success(value: T) | Failure(error: Exception) {
    predicate IsFailure() { Failure? }

    function PropagateFailure<U>(): Result<U>
      requires Failure?
    {
      Failure(error)
    }

    function Extract(): T
      requires Success?
    {
      value
    }
  }

  function Abs(x: int): (n: nat) { if x < 0 then -x else x }

  /** Integer division as C# performs it on `int` and `long` operands: the
      quotient is rounded toward zero. (Dafny's own `/` is Euclidean.) */
  function Quotient(a: int, b: int): (q: int)
    requires b != 0
    ensures Abs(q) * Abs(b) <= Abs(a) < (Abs(q) + 1) * Abs(b)
    ensures q > 0 ==> (a < 0 <==> b < 0)
    ensures q < 0 ==> (a < 0 <==> b > 0)
  {
    var x, y := Abs(a), Abs(b);
    var m := x / y;
    FloorWindow(x, y);
    var q := if (a < 0) == (b < 0) then m else -m;
    assert Abs(q) == m;
    q
  }

  lemma FloorWindow(x: nat, y: nat)
    requires y > 0
    ensures (x / y) * y <= x < (x / y + 1) * y
  {
    var m := x / y;
    assert x == m * y + x % y;
    assert (m + 1) * y == m * y + y;
  }

  /** The C# remainder `a % b`, defined by the language as `a - (a / b) * b`. */
  function Remainder(a: int, b: int): (r: int)
    requires b != 0
    ensures Abs(r) < Abs(b)
    ensures r > 0 ==> a > 0
    ensures r < 0 ==> a < 0
    ensures a == Quotient(a, b) * b + r
  {
    var q := Quotient(a, b);
    RemainderBySign(a, b);
    a - q * b
  }

  /** `a - (a / b) * b` is the leftover of the magnitudes, with the sign of `a`. */
  lemma RemainderBySign(a: int, b: int)
    requires b != 0
    ensures
      var rest := Abs(a) - Abs(Quotient(a, b)) * Abs(b);
      0 <= rest < Abs(b) && a - Quotient(a, b) * b == (if a < 0 then -rest else rest)
  {
    var x, y: int := Abs(a), Abs(b);
    var m := x / y;
    var q := Quotient(a, b);
    assert Abs(q) == m;
    if (a < 0) == (b < 0) {
      assert q == m;
      if b > 0 {
        assert q * b == m * y;
      } else {
        assert q * b == -(m * y) by { assert b == -y; assert m * (-y) == -(m * y); }
      }
    } else {
      assert q == -m;
      if b > 0 {
        assert q * b == -(m * y) by { assert (-m) * y == -(m * y); }
      } else {
        assert q * b == m * y by { assert b == -y; assert (-m) * (-y) == m * y; }
      }
    }
  }

  /** On a non-negative dividend and a positive divisor, C# division and
      remainder agree with floor division and the Euclidean remainder. */
  lemma QuotientOfNonNegative(a: int, b: int)
    requires a >= 0 && b > 0
    ensures Quotient(a, b) == a / b
    ensures Remainder(a, b) == a % b
  {
  }

  /** Unchecked `int` arithmetic: the mathematical value reduced into the
      Int32 range modulo 2^32 (two's-complement wrap-around). */
  function Wrap32(x: int): (r: Int32)
    ensures (x - r) % 0x1_0000_0000 == 0
    ensures -0x8000_0000 <= x < 0x8000_0000 ==> r == x
  {
    (x + 0x8000_0000) % 0x1_0000_0000 - 0x8000_0000
  }

  /** The 64-bit two's-complement pattern of a `long`, read as an unsigned number. */
  function Unsigned64(v: Int64): (u: nat)
    ensures u < 0x1_0000_0000_0000_0000
    ensures u % 0x1_0000_0000_0000_0000 == v % 0x1_0000_0000_0000_0000
  {
    if v < 0 then v + 0x1_0000_0000_0000_0000 else v
  }

  function Pow256(n: nat): (p: nat)
    ensures p > 0
  {
    if n == 0 then 1 else 256 * Pow256(n - 1)
  }

  /** The `n` low-order bytes of `u`, least significant first. */
  function LittleEndian(u: nat, n: nat): (bs: seq<Byte>)
    ensures |bs| == n
  {
    if n == 0 then [] else [ToByte(u % 256)] + LittleEndian(u / 256, n - 1)
  }

  /** Byte `i` of the little-endian form carries bits 8i to 8i+7 of `u`. */
  lemma {:induction false} LittleEndianAt(u: nat, n: nat, i: nat)
    requires i < n
    ensures LittleEndian(u, n)[i] as int == u / Pow256(i) % 256
  {
    var bs := LittleEndian(u, n);
    if i == 0 {
      assert bs[0] == ToByte(u % 256);
      assert u / Pow256(0) == u;
    } else {
      var p := Pow256(i - 1);
      assert bs[i] == LittleEndian(u / 256, n - 1)[i - 1];
      LittleEndianAt(u / 256, n - 1, i - 1);
      assert Pow256(i) == 256 * p;
      DivDiv(u, 256, p);
    }
  }

  lemma DivDiv(u: nat, a: nat, b: nat)
    requires a > 0 && b > 0
    ensures u / a / b == u / (a * b)
  {
    var q, r := u / (a * b), u % (a * b);
    assert u == a * (b * q + r / a) + r % a by {
      assert r == a * (r / a) + r % a;
      assert u == (a * b) * q + r;
    }
    assert r / a < b;
    DivUnique(u, a, b * q + r / a, r % a);
    DivUnique(b * q + r / a, b, q, r / a);
  }

  lemma DivUnique(x: int, d: int, q: int, s: int)
    requires d > 0 && 0 <= s < d && x == d * q + s
    ensures x / d == q
  {
    var q', s' := x / d, x % d;
    assert d * (q - q') == s' - s;
    if q > q' {
      MulAtLeast(d, q - q');
    } else if q < q' {
      MulAtLeast(d, q' - q);
    }
  }

  lemma MulAtLeast(d: int, k: int)
    requires d > 0 && k >= 1
    ensures d * k >= d
  {
    assert d * k == d + d * (k - 1);
  }

  /** BitConverter.GetBytes(long) on a little-endian host: the eight bytes of
      the two's-complement pattern, least significant first. */
  function GetBytes(v: Int64): (bs: seq<Byte>)
    ensures |bs| == 8
    ensures forall i :: 0 <= i < 8 ==> bs[i] as int == Unsigned64(v) / Pow256(i) % 256
  {
    var u := Unsigned64(v);
    assert forall i :: 0 <= i < 8 ==> LittleEndian(u, 8)[i] as int == u / Pow256(i) % 256 by {
      forall i | 0 <= i < 8
        ensures LittleEndian(u, 8)[i] as int == u / Pow256(i) % 256
      {
        LittleEndianAt(u, 8, i);
      }
    }
    LittleEndian(u, 8)
  }

  /** Enumerable.Reverse followed by ToArray: the same elements, last first. */
  function Reverse<T>(s: seq<T>): (r: seq<T>)
    ensures |r| == |s|
    ensures forall i :: 0 <= i < |s| ==> r[i] == s[|s| - 1 - i]
  {
    if s == [] then [] else Reverse(s[1..]) + [s[0]]
  }
}
