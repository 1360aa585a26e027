/** Go's 64-bit signed arithmetic, written out over unbounded integers. */
module FixedWidth {

  const MAX_I32: int := 0x7FFF_FFFF
  const MIN_I32: int := -0x8000_0000
  const MAX_I64: int := 0x7FFF_FFFF_FFFF_FFFF
  const MIN_I64: int := -0x8000_0000_0000_0000
  const TWO_32: int := 0x1_0000_0000
  const TWO_64: int := 0x1_0000_0000_0000_0000

  predicate IsI32(x: int) {
    MIN_I32 <= x <= MAX_I32
  }

  predicate IsI64(x: int) {
    MIN_I64 <= x <= MAX_I64
  }

  type I64 = x: int | MIN_I64 <= x <= MAX_I64
  type U32 = x: int | 0 <= x < TWO_32
  type U64 = x: int | 0 <= x < TWO_64

  /** The value an int64 variable holds after being assigned the mathematical integer `x`. */
  function WrapI64(x: int): (r: int)
    ensures IsI64(r)
    ensures IsI64(x) ==> r == x
  {
    if IsI64(x) then x
    else
      var m := x % TWO_64;
      if m > MAX_I64 then m - TWO_64 else m
  }

  /** A sum of a counter and any int64 leaves the range only upward, and then turns negative. */
  lemma WrapSum(a: int, b: int)
    requires 0 <= a <= MAX_I64 && IsI64(b)
    ensures WrapI64(a + b) == if a + b > MAX_I64 then a + b - TWO_64 else a + b
  {
  }

  function Abs(x: int): nat {
    if x < 0 then -x else x
  }

  /** Division that rounds toward zero, as Go's `/` does. */
  function TruncDiv(a: int, b: int): int
    requires b != 0
  {
    var q := Abs(a) / Abs(b);
    if (a < 0) == (b < 0) then q else -q
  }

  lemma MulMonotone(x: nat, y: int, z: int)
    requires y <= z
    ensures x * y <= x * z
  {
    assert x * (z - y) >= 0;
  }

  lemma NatDivision(x: nat, d: nat)
    requires d > 0
    ensures x == x / d * d + x % d
  {
  }

  lemma QuotientBound(x: nat, d: nat)
    requires d > 0
    ensures if d == 1 then x / d == x else 0 <= x / d <= x - x / d
  {
    var q := x / d;
    assert q * d <= x by { NatDivision(x, d); }
    if d >= 2 {
      MulMonotone(q, 2, d);
    }
  }

  lemma SignedRemainder(a: int, b: int, q: int, r: nat)
    requires b != 0
    requires Abs(a) == q * Abs(b) + r
    ensures Abs(a - (if (a < 0) == (b < 0) then q else -q) * b) == r
  {
    assert q * -b == -(q * b) == -q * b;
  }

  /** The remainder of a rounded-toward-zero division is smaller than the divisor. */
  lemma TruncDivRemainder(a: int, b: int)
    requires b != 0
    ensures Abs(a - TruncDiv(a, b) * b) < Abs(b)
  {
    var q, r := Abs(a) / Abs(b), Abs(a) % Abs(b);
    assert Abs(a) == q * Abs(b) + r by { NatDivision(Abs(a), Abs(b)); }
    SignedRemainder(a, b, q, r);
  }

  lemma MultiplesAreApart(a: int, q: int, b: int)
    requires a != q
    ensures Abs(a * b - q * b) >= Abs(b)
  {
    var d := a - q;
    assert a * b - q * b == d * b;
    assert d * b == -(-d * b) == -(d * -b) == -d * -b;
    MulMonotone(Abs(b), 1, Abs(d));
  }

  /** A product divided by one of its factors gives the other factor back. */
  lemma TruncDivExact(a: int, b: int, p: int)
    requires b != 0 && p == a * b
    ensures TruncDiv(p, b) == a
  {
    var q := TruncDiv(p, b);
    TruncDivRemainder(p, b);
    if q != a {
      MultiplesAreApart(a, q, b);
    }
  }

  /** addInt64WithOverflow: the wrapped sum and whether the comparison test accepts it. */
  function AddWithOverflow(a: int, b: int): (r: (int, bool)) {
    var c := WrapI64(a + b);
    (c, (c > a) == (b > 0))
  }

  /** mulInt64WithOverflow; Go's division of the least int64 by -1 wraps around. */
  function MulWithOverflow(a: int, b: int): (r: (int, bool)) {
    var c := WrapI64(a * b);
    if a == 0 || b == 0 || a == 1 || b == 1 then (c, true)
    else if a == MAX_I64 || b == MIN_I64 then (c, false)
    else (c, WrapI64(TruncDiv(c, b)) == a)
  }

  /** The comparison test of AddWithOverflow detects overflow exactly, for all int64 arguments. */
  lemma AddOverflowExact(a: int, b: int)
    requires IsI64(a) && IsI64(b)
    ensures AddWithOverflow(a, b).1 <==> IsI64(a + b)
    ensures AddWithOverflow(a, b).1 ==> AddWithOverflow(a, b).0 == a + b
  {
    if a + b > MAX_I64 {
      assert WrapI64(a + b) == a + b - TWO_64;
    } else if a + b < MIN_I64 {
      assert WrapI64(a + b) == a + b + TWO_64;
    }
  }

  /** A number that does not fit wraps to one that is at least 2^64 away. */
  lemma WrapIsFar(p: int)
    requires !IsI64(p)
    ensures Abs(WrapI64(p) - p) >= TWO_64
  {
    assert p == p / TWO_64 * TWO_64 + p % TWO_64;
  }

  /** An overflowing product, wrapped and divided by one factor, never gives back the other. */
  lemma OverflowIsSeen(a: int, b: int)
    requires IsI64(a) && IsI64(b) && b != 0
    requires !IsI64(a * b)
    ensures TruncDiv(WrapI64(a * b), b) != a
  {
    hide WrapI64, TruncDiv;
    var p := a * b;
    WrapIsFar(p);
    TruncDivRemainder(WrapI64(p), b);
  }

  lemma QuotientInRange(c: int, b: int)
    requires IsI64(c) && b != 0
    ensures b != -1 ==> IsI64(TruncDiv(c, b))
    ensures b == -1 ==> TruncDiv(c, b) == -c
  {
    QuotientBound(Abs(c), Abs(b));
  }

  /** Products with the extreme factors fit only in the trivial cases. */
  lemma ExtremeProducts(a: int, b: int)
    requires IsI64(a) && IsI64(b) && a != 0 && b != 0 && a != 1 && b != 1
    ensures a == MAX_I64 ==> (IsI64(a * b) <==> b == -1)
    ensures b == MIN_I64 ==> !IsI64(a * b)
  {
    if a == MAX_I64 {
      if b >= 2 { assert a * b >= a * 2; } else if b <= -2 { assert a * b <= a * -2; }
    }
    if b == MIN_I64 {
      if a >= 2 { assert a * b <= 2 * b; } else { assert a * b >= -1 * b; }
    }
  }

  /** MulWithOverflow is exact for precisely the arguments outside {MAX, MIN} x {-1}. */
  lemma MulOverflowExact(a: int, b: int)
    requires IsI64(a) && IsI64(b)
    ensures (MulWithOverflow(a, b).1 <==> IsI64(a * b)) <==> !(b == -1 && (a == MAX_I64 || a == MIN_I64))
    ensures IsI64(a * b) ==> MulWithOverflow(a, b).0 == a * b
  {
    if a == 0 || b == 0 || a == 1 || b == 1 {
      assert IsI64(a * b);
    } else if a == MAX_I64 || b == MIN_I64 {
      ExtremeProducts(a, b);
    } else {
      var c := WrapI64(a * b);
      QuotientInRange(c, b);
      if b == -1 {
        assert a * b == -a;
      } else if IsI64(a * b) {
        TruncDivExact(a, b, a * b);
      } else {
        OverflowIsSeen(a, b);
      }
    }
  }
}
