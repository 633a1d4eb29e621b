/**
 * Integer helpers shared by the homework vectors (smallestPow2, HW4/common.hh)
 * and the rational number type (GCD and sign, HW1/common.hh).
 *
 * C++ `int` division and remainder truncate toward zero, whereas Dafny's are
 * Euclidean, so the C++ operators are written out as CDiv and CRem.
 */
module IntHelpers {

  function Abs(x: int): nat
  {
    if x < 0 then -x else x
  }

  // ---------------------------------------------------------------------
  // Powers of two (HW4/common.hh, smallestPow2)
  // ---------------------------------------------------------------------

  predicate IsPow2(n: int)
    decreases n
  {
    n == 1 || (n > 1 && n % 2 == 0 && IsPow2(n / 2))
  }

  /**
   * The largest argument for which the 32-bit doubling loop of smallestPow2
   * terminates: beyond 2^30 the shifted value overflows and never reaches n.
   */
  const MaxPow2Arg: int := 0x4000_0000

  /** The least power of two that is at least n, or 0 when n is not positive. */
  function Pow2Ceil(n: int): (r: int)
    ensures n <= 0 ==> r == 0
    ensures n > 0 ==> IsPow2(r) && n <= r && r / 2 < n
    decreases n
  {
    if n <= 0 then 0
    else if n == 1 then 1
    else
      var h := Pow2Ceil((n + 1) / 2);
      assert IsPow2(2 * h) by {
        assert (2 * h) / 2 == h;
      }
      2 * h
  }

  /** smallestPow2: 0 for a non-positive argument, else the least power of two >= n. */
  method SmallestPow2(n: int) returns (r: int)
    requires n <= MaxPow2Arg
    ensures n <= 0 ==> r == 0
    ensures n > 0 ==> IsPow2(r) && n <= r && r / 2 < n
    ensures r == Pow2Ceil(n)
  {
    if n <= 0 {
      return 0;
    }
    r := 1;
    while r < n
      invariant IsPow2(r) && r / 2 < n
      decreases n - r
    {
      r := r * 2;
    }
    Pow2Unique(n, r, Pow2Ceil(n));
  }

  /** Two powers of two that are both the least one at or above n are equal. */
  lemma Pow2Unique(n: int, r: int, q: int)
    requires IsPow2(r) && n <= r && r / 2 < n
    requires IsPow2(q) && n <= q && q / 2 < n
    ensures r == q
  {
    SmallestPow2IsLeast(n, r, q);
    SmallestPow2IsLeast(n, q, r);
  }

  /** Pow2Ceil(n + 1) stays at Pow2Ceil(n) until n reaches it, then doubles. */
  lemma Pow2CeilStep(n: int)
    requires n >= 1
    ensures Pow2Ceil(n + 1) == if Pow2Ceil(n) == n then 2 * n else Pow2Ceil(n)
  {
    var p := Pow2Ceil(n);
    if p == n {
      assert IsPow2(2 * n) by {
        assert (2 * n) / 2 == n;
      }
      Pow2Unique(n + 1, Pow2Ceil(n + 1), 2 * n);
    } else {
      Pow2Unique(n + 1, Pow2Ceil(n + 1), p);
    }
  }

  /** A power of two below another power of two is at most half of it. */
  lemma {:induction false} Pow2Below(p: int, q: int)
    requires IsPow2(p) && IsPow2(q) && p < q
    ensures p <= q / 2
  {
    if p != 1 {
      assert q != 1;
      assert IsPow2(q / 2);
      if q / 2 != 1 {
        Pow2Below(p / 2, q / 2);
      }
    }
  }

  /** The value characterised by SmallestPow2's postcondition is the least power of two >= n. */
  lemma SmallestPow2IsLeast(n: int, r: int, p: int)
    requires IsPow2(r) && n <= r && r / 2 < n
    requires IsPow2(p) && n <= p
    ensures r <= p
  {
    if p < r {
      Pow2Below(p, r);
    }
  }

  // ---------------------------------------------------------------------
  // C++ integer division (truncating toward zero)
  // ---------------------------------------------------------------------

  /** C++ `a / b` on int. */
  function CDiv(a: int, b: int): int
    requires b != 0
  {
    var q := Abs(a) / Abs(b);
    if (a < 0) == (b < 0) then q else -q
  }

  /** C++ `a % b` on int: the remainder takes the sign of the dividend. */
  function CRem(a: int, b: int): (r: int)
    requires b != 0
    ensures a == CDiv(a, b) * b + r
    ensures Abs(r) < Abs(b)
    ensures a >= 0 ==> r >= 0
    ensures a <= 0 ==> r <= 0
  {
    CDivTimes(a, b);
    var m := Abs(a) % Abs(b);
    if a < 0 then -m else m
  }

  /** CDiv(a, b) * b plus the remainder of |a| / |b|, signed as a, gives back a. */
  lemma CDivTimes(a: int, b: int)
    requires b != 0
    ensures a == CDiv(a, b) * b + (if a < 0 then -(Abs(a) % Abs(b)) else Abs(a) % Abs(b))
  {
    var q, m := Abs(a) / Abs(b), Abs(a) % Abs(b);
    assert Abs(a) == q * Abs(b) + m;
    if b < 0 {
      assert q * b == -(q * Abs(b));
      assert (-q) * b == q * Abs(b);
    }
  }

  // ---------------------------------------------------------------------
  // Divisibility
  // ---------------------------------------------------------------------

  /** d divides x (0 divides only 0). */
  predicate Divides(d: int, x: int)
  {
    if d == 0 then x == 0 else x % d == 0
  }

  lemma MultipleMod(d: int, k: int)
    requires d != 0
    ensures (d * k) % d == 0
  {
    var x := d * k;
    var j := k - x / d;
    assert x == d * (x / d) + x % d;
    assert d * j == x % d;
    MulMagnitude(d, j);
  }

  lemma {:induction false} MulGrows(a: nat, j: nat)
    requires j >= 1
    ensures a * j >= a
  {
    if j > 1 {
      MulGrows(a, j - 1);
      assert a * j == a * (j - 1) + a;
    }
  }

  lemma MulMagnitude(d: int, j: int)
    ensures j != 0 ==> Abs(d * j) >= Abs(d)
  {
    if j != 0 {
      var p := Abs(d) * Abs(j);
      if (d < 0) == (j < 0) {
        assert d * j == p;
      } else {
        assert d * j == -p;
      }
      MulGrows(Abs(d), Abs(j));
    }
  }

  /** Divides, stated with a witness. */
  lemma DividesWitness(d: int, x: int)
    requires Divides(d, x)
    ensures exists k :: x == d * k
  {
    if d != 0 {
      assert x == d * (x / d) + x % d;
    } else {
      assert x == d * 0;
    }
  }

  lemma DividesByWitness(d: int, x: int, k: int)
    requires x == d * k
    ensures Divides(d, x)
  {
    if d != 0 {
      MultipleMod(d, k);
    }
  }

  /** Common divisors are kept by subtracting a multiple. */
  lemma DividesCombination(d: int, x: int, y: int, m: int)
    requires Divides(d, x) && Divides(d, y)
    ensures Divides(d, x - m * y)
  {
    DividesWitness(d, x);
    DividesWitness(d, y);
    var kx :| x == d * kx;
    var ky :| y == d * ky;
    assert x - m * y == d * (kx - m * ky);
    DividesByWitness(d, x - m * y, kx - m * ky);
  }

  lemma DividesNeg(d: int, x: int)
    requires Divides(d, x)
    ensures Divides(d, -x) && Divides(-d, x)
  {
    DividesWitness(d, x);
    var k :| x == d * k;
    DividesByWitness(d, -x, -k);
    DividesByWitness(-d, x, -k);
  }

  /** A non-zero multiple is at least as large as its divisor in magnitude. */
  lemma DividesBound(d: int, x: int)
    requires Divides(d, x) && x != 0
    ensures Abs(d) <= Abs(x)
  {
    DividesWitness(d, x);
    var k :| x == d * k;
    AbsMul(d, k);
    MulAtLeast(Abs(d), Abs(k));
  }

  lemma AbsMul(a: int, b: int)
    ensures Abs(a * b) == Abs(a) * Abs(b)
  {
    if a < 0 && b < 0 {
      assert a * b == (-a) * (-b);
    } else if a < 0 {
      assert -(a * b) == (-a) * b;
    } else if b < 0 {
      assert -(a * b) == a * (-b);
    }
  }

  lemma MulAtLeast(a: int, k: int)
    requires 0 <= a && 1 <= k
    ensures a <= a * k
  {
    assert a * k == a + a * (k - 1);
  }

  lemma DividesTrans(a: int, b: int, c: int)
    requires Divides(a, b) && Divides(b, c)
    ensures Divides(a, c)
  {
    DividesWitness(a, b);
    DividesWitness(b, c);
    var k1 :| b == a * k1;
    var k2 :| c == b * k2;
    assert c == a * (k1 * k2);
    DividesByWitness(a, c, k1 * k2);
  }

  // ---------------------------------------------------------------------
  // GCD and sign (HW1/common.hh)
  // ---------------------------------------------------------------------

  /** GCD: Euclid's algorithm with C++'s truncating remainder; the result may be negative. */
  function GCD(a: int, b: int): int
    decreases Abs(b)
  {
    if b == 0 then a else GCD(b, CRem(a, b))
  }

  /** sign: 1, 0 or -1. */
  function Sign(n: int): (s: int)
    ensures s * n == Abs(n)
    ensures n != 0 ==> Abs(s) == 1
    ensures s == 0 <==> n == 0
  {
    if n > 0 then 1 else if n < 0 then -1 else 0
  }

  /** GCD divides both of its arguments. */
  lemma {:induction false} GCDDividesBoth(a: int, b: int)
    ensures Divides(GCD(a, b), a) && Divides(GCD(a, b), b)
    decreases Abs(b)
  {
    var g := GCD(a, b);
    if b == 0 {
      if a != 0 {
        MultipleMod(a, 1);
      }
      assert Divides(a, 0) by {
        if a != 0 {
          MultipleMod(a, 0);
        }
      }
    } else {
      var r := CRem(a, b);
      GCDDividesBoth(b, r);
      DividesCombination(g, r, b, -CDiv(a, b));
      assert r - (-CDiv(a, b)) * b == a;
    }
  }

  /** Every common divisor of a and b divides GCD(a, b): it is the greatest. */
  lemma {:induction false} GCDGreatest(a: int, b: int, d: int)
    requires Divides(d, a) && Divides(d, b)
    ensures Divides(d, GCD(a, b))
    decreases Abs(b)
  {
    if b != 0 {
      var r := CRem(a, b);
      DividesCombination(d, a, b, CDiv(a, b));
      assert a - CDiv(a, b) * b == r;
      GCDGreatest(b, r, d);
    }
  }

  /** GCD is zero exactly when both arguments are. */
  lemma GCDZero(a: int, b: int)
    ensures GCD(a, b) == 0 <==> a == 0 && b == 0
    ensures GCD(a, 0) == a
  {
    GCDDividesBoth(a, b);
    if a == 0 && b == 0 {
      assert GCD(a, b) == a;
    }
  }
}
