/**
 * The Rational class of HW1 (HW1/rational.cc, HW1/rational.hh): a numerator
 * and a denominator kept in lowest terms with a positive denominator.
 *
 * The constructors and the binary operators compute new values and are
 * functions on Frac; simplify, the compound assignments and the increment
 * operators overwrite the two fields and are methods of the Rational class.
 * Arithmetic is on mathematical integers: the 32-bit overflow of the
 * products is not modelled.
 */
module Rationals {
  import opened IntHelpers
  import opened Outcomes

  /** The two fields m_num and m_denom. */
  datatype Frac = Frac(num: int, denom: int)

  /** Lowest terms with a positive denominator: what every constructor leaves. */
  ghost predicate Normal(f: Frac)
  {
    f.denom > 0 && Abs(GCD(f.num, f.denom)) == 1
  }

  /** x and y stand for the same rational number (cross multiplication). */
  predicate SameValue(x: Frac, y: Frac)
  {
    x.num * y.denom == y.num * x.denom
  }

  // ---------------------------------------------------------------------
  // Arithmetic facts used below
  // ---------------------------------------------------------------------

  /** C++ division by an exact divisor is exact. */
  lemma ExactDiv(x: int, g: int)
    requires g != 0 && Divides(g, x)
    ensures CDiv(x, g) * g == x
  {
    DividesWitness(g, x);
    var k :| x == g * k;
    AbsMul(g, k);
    MultipleMod(Abs(g), Abs(k));
    CDivTimes(x, g);
  }

  /** Scaling a divisor and its multiple by the same factor. */
  lemma DividesScale(h: int, x: int, g: int)
    requires Divides(h, x)
    ensures Divides(h * g, x * g)
  {
    DividesWitness(h, x);
    var k :| x == h * k;
    assert x * g == (h * g) * k;
    DividesByWitness(h * g, x * g, k);
  }

  /** If h * g divides g and g is not zero, h is 1, 0 or -1. */
  lemma UnitFactor(h: int, g: int)
    requires g != 0 && Divides(h * g, g)
    ensures Abs(h) <= 1
  {
    DividesBound(h * g, g);
    AbsMul(h, g);
    var a, b := Abs(h), Abs(g);
    if a > 1 {
      MulAtLeast(b, a - 1);
      assert false;
    }
  }

  /** Two numbers dividing each other have the same magnitude. */
  lemma SameDivisors(g: int, h: int)
    requires Divides(g, h) && Divides(h, g)
    ensures Abs(g) == Abs(h)
  {
    if g != 0 && h != 0 {
      DividesBound(g, h);
      DividesBound(h, g);
    }
  }

  /** The common divisors of a and b are those of -a and b. */
  lemma GCDNegFirst(a: int, b: int)
    ensures Abs(GCD(-a, b)) == Abs(GCD(a, b))
  {
    var g, h := GCD(a, b), GCD(-a, b);
    GCDDividesBoth(a, b);
    GCDDividesBoth(-a, b);
    DividesNeg(g, a);
    DividesNeg(h, -a);
    assert -(-a) == a;
    GCDGreatest(-a, b, g);
    GCDGreatest(a, b, h);
    SameDivisors(g, h);
  }

  /** GCD does not depend on the order of its arguments, up to sign. */
  lemma GCDSwap(a: int, b: int)
    ensures Abs(GCD(b, a)) == Abs(GCD(a, b))
  {
    var g, h := GCD(a, b), GCD(b, a);
    GCDDividesBoth(a, b);
    GCDDividesBoth(b, a);
    GCDGreatest(b, a, g);
    GCDGreatest(a, b, h);
    SameDivisors(g, h);
  }

  /** Negating both arguments keeps the magnitude of the GCD. */
  lemma GCDNegBoth(a: int, b: int)
    ensures Abs(GCD(-a, -b)) == Abs(GCD(a, b))
  {
    GCDNegFirst(a, -b);
    GCDSwap(a, -b);
    GCDNegFirst(b, a);
    GCDSwap(a, b);
  }

  // ---------------------------------------------------------------------
  // simplify() and the constructors
  // ---------------------------------------------------------------------

  /** GCD(n, d) is not zero when d is not, and divides n and d exactly. */
  lemma Quotients(n: int, d: int)
    requires d != 0
    ensures GCD(n, d) != 0
    ensures CDiv(n, GCD(n, d)) * GCD(n, d) == n && CDiv(d, GCD(n, d)) * GCD(n, d) == d
  {
    GCDZero(n, d);
    GCDDividesBoth(n, d);
    ExactDiv(n, GCD(n, d));
    ExactDiv(d, GCD(n, d));
  }

  /** Dividing n and d by their GCD leaves two numbers whose GCD is 1 or -1. */
  lemma QuotientsCoprime(n: int, d: int, g: int, n1: int, d1: int)
    requires d != 0 && g == GCD(n, d) && g != 0
    requires n1 * g == n && d1 * g == d
    ensures d1 != 0 && Abs(GCD(n1, d1)) == 1
  {
    var h := GCD(n1, d1);
    GCDZero(n1, d1);
    GCDDividesBoth(n1, d1);
    DividesScale(h, n1, g);
    DividesScale(h, d1, g);
    GCDGreatest(n, d, h * g);
    UnitFactor(h, g);
  }

  /** Multiplying coprime n1 / d1 by the sign of d1 makes the denominator positive. */
  lemma SignedQuotients(n: int, d: int, n1: int, d1: int, s: int)
    requires n1 * d == n * d1 && d1 != 0
    requires Abs(GCD(n1, d1)) == 1 && s == Sign(d1)
    ensures Normal(Frac(n1 * s, d1 * s)) && SameValue(Frac(n1 * s, d1 * s), Frac(n, d))
  {
    if d1 > 0 {
      assert s == 1;
      assert Frac(n1 * s, d1 * s) == Frac(n1, d1);
    } else {
      assert s == -1;
      NegatedCoprime(n, d, n1, d1);
      assert Frac(n1 * s, d1 * s) == Frac(-n1, -d1);
    }
  }

  /** -n1 / -d1 is in lowest terms and has the value of n1 / d1. */
  lemma NegatedCoprime(n: int, d: int, n1: int, d1: int)
    requires n1 * d == n * d1 && d1 < 0 && Abs(GCD(n1, d1)) == 1
    ensures Normal(Frac(-n1, -d1)) && SameValue(Frac(-n1, -d1), Frac(n, d))
  {
    GCDNegBoth(n1, d1);
    NegCross(n, d, n1, d1);
  }

  /** Negating one side of a cross-multiplied equation. */
  lemma NegCross(n: int, d: int, n1: int, d1: int)
    requires n1 * d == n * d1
    ensures (-n1) * d == n * (-d1)
  {
    assert (-n1) * d == -(n1 * d) && n * (-d1) == -(n * d1);
  }

  /** n1 / d1 and (n1 * g) / (d1 * g) cross-multiply equal. */
  lemma CrossScale(n: int, d: int, g: int, n1: int, d1: int)
    requires n1 * g == n && d1 * g == d
    ensures n1 * d == n * d1
  {
    assert n1 * (d1 * g) == (n1 * g) * d1;
  }

  /**
   * simplify() on the fields (n, d): divide both by GCD(n, d), then multiply
   * both by sign(d) so the denominator is positive.  The result is in lowest
   * terms and stands for n / d.
   */
  function Simplified(n: int, d: int): (r: Frac)
    requires d != 0
    ensures Normal(r) && SameValue(r, Frac(n, d))
  {
    Quotients(n, d);
    var g := GCD(n, d);
    var n1, d1 := CDiv(n, g), CDiv(d, g);
    QuotientsCoprime(n, d, g, n1, d1);
    CrossScale(n, d, g, n1, d1);
    var s := Sign(d1);
    SignedQuotients(n, d, n1, d1, s);
    Frac(n1 * s, d1 * s)
  }

  /** A fraction already in lowest terms is left as it is, up to the sign of the denominator. */
  lemma SimplifiedCoprime(n: int, d: int)
    requires d != 0 && Abs(GCD(n, d)) == 1
    ensures Simplified(n, d) == Frac(n * Sign(d), Abs(d))
  {
    var g := GCD(n, d);
    var s := Sign(d);
    assert d * s == Abs(d);
    if g == 1 {
      assert CDiv(n, g) == n && CDiv(d, g) == d;
    } else {
      assert g == -1;
      assert CDiv(n, g) == -n && CDiv(d, g) == -d;
      assert Sign(-d) == -s;
      assert -n * -s == n * s && -d * -s == d * s;
    }
  }

  /** simplify() changes nothing on a value in lowest terms. */
  lemma SimplifyIdempotent(f: Frac)
    requires Normal(f)
    ensures Simplified(f.num, f.denom) == f
  {
    SimplifiedCoprime(f.num, f.denom);
  }

  /** Rational(n, d): invalid_argument when d is 0, else n / d simplified. */
  function Make(n: int, d: int): (r: Outcome<Frac>)
    ensures d == 0 <==> r == InvalidArgument
    ensures r != InvalidArgument ==> r.Ok? && Normal(r.value) && SameValue(r.value, Frac(n, d))
  {
    if d == 0 then InvalidArgument else Ok(Simplified(n, d))
  }

  /** Rational(n) is n/1 and Rational() is 0/1. */
  function FromInt(n: int): (r: Frac)
    ensures Normal(r) && r.num == n && r.denom == 1
  {
    assert CRem(n, 1) == 0;
    assert GCD(n, 1) == GCD(1, 0);
    Frac(n, 1)
  }

  /** reciprocal(): Rational(m_denom, m_num), invalid_argument for a zero value. */
  function Reciprocal(f: Frac): (r: Outcome<Frac>)
    ensures f.num == 0 <==> r == InvalidArgument
    ensures r.Ok? ==> Normal(r.value) && r.value.num * f.num == f.denom * r.value.denom
  {
    Make(f.denom, f.num)
  }

  /** The reciprocal of the reciprocal of a non-zero value is the value. */
  lemma ReciprocalInvolutive(f: Frac)
    requires Normal(f) && f.num != 0
    ensures Reciprocal(f).Ok? && Reciprocal(Reciprocal(f).value) == Ok(f)
  {
    GCDSwap(f.num, f.denom);
    SimplifiedCoprime(f.denom, f.num);
    var r := Reciprocal(f).value;
    assert r == Frac(f.denom * Sign(f.num), Abs(f.num));
    var s := Sign(f.num);
    assert r.num * s == f.denom by { assert r.num * s == f.denom * (s * s); }
    GCDSwap(r.num, r.denom);
    assert Abs(GCD(r.denom, r.num)) == 1;
    SimplifiedCoprime(r.denom, r.num);
    assert Abs(f.num) * s == f.num;
  }

  /** operator~: Rational(~m_num, ~m_denom), that is (-num - 1) / (-denom - 1). */
  function Complement(f: Frac): (r: Frac)
    requires f.denom > 0
    ensures Normal(r) && SameValue(r, Frac(-f.num - 1, -f.denom - 1))
  {
    Make(-f.num - 1, -f.denom - 1).value
  }

  // ---------------------------------------------------------------------
  // The binary operators
  // ---------------------------------------------------------------------

  /** operator+: Rational(a.n * b.d + b.n * a.d, a.d * b.d). */
  function Add(a: Frac, b: Frac): (r: Frac)
    requires a.denom > 0 && b.denom > 0
    ensures Normal(r)
    ensures SameValue(r, Frac(a.num * b.denom + b.num * a.denom, a.denom * b.denom))
  {
    Simplified(a.num * b.denom + b.num * a.denom, a.denom * b.denom)
  }

  /** operator*: Rational(a.n * b.n, a.d * b.d). */
  function Mul(a: Frac, b: Frac): (r: Frac)
    requires a.denom > 0 && b.denom > 0
    ensures Normal(r) && SameValue(r, Frac(a.num * b.num, a.denom * b.denom))
  {
    Simplified(a.num * b.num, a.denom * b.denom)
  }

  /** operator-: a + b * Rational(-1), simplified once more. */
  function Sub(a: Frac, b: Frac): (r: Frac)
    requires a.denom > 0 && b.denom > 0
    ensures Normal(r)
  {
    var out := Add(a, Mul(b, FromInt(-1)));
    Simplified(out.num, out.denom)
  }

  /** operator/: a * b.reciprocal(), simplified once more; invalid_argument when b is zero. */
  function Div(a: Frac, b: Frac): (r: Outcome<Frac>)
    requires a.denom > 0 && b.denom > 0
    ensures b.num == 0 <==> r == InvalidArgument
    ensures r.Ok? ==> Normal(r.value)
  {
    match Reciprocal(b)
    case Ok(rb) =>
      var out := Mul(a, rb);
      Ok(Simplified(out.num, out.denom))
    case _ => InvalidArgument
  }

  /** Subtraction is addition of the negated argument: the extra simplify changes nothing. */
  lemma SubIsAddNeg(a: Frac, b: Frac)
    requires a.denom > 0 && b.denom > 0
    ensures Sub(a, b) == Add(a, Mul(b, FromInt(-1)))
    ensures SameValue(Mul(b, FromInt(-1)), Frac(-b.num, b.denom))
  {
    SimplifyIdempotent(Add(a, Mul(b, FromInt(-1))));
    assert b.num * -1 == -b.num && b.denom * 1 == b.denom;
  }

  /** Division is multiplication by the reciprocal: the extra simplify changes nothing. */
  lemma DivIsMulReciprocal(a: Frac, b: Frac)
    requires a.denom > 0 && b.denom > 0 && b.num != 0
    ensures Div(a, b) == Ok(Mul(a, Reciprocal(b).value))
  {
    SimplifyIdempotent(Mul(a, Reciprocal(b).value));
  }

  /** The product has the value (a.n * b.n) / (a.d * b.d), and multiplying by 1 gives a back. */
  lemma MulOne(a: Frac)
    requires Normal(a)
    ensures Mul(a, FromInt(1)) == a
  {
    assert a.num * 1 == a.num && a.denom * 1 == a.denom;
    SimplifyIdempotent(a);
  }

  /** Adding 0 gives a back. */
  lemma AddZero(a: Frac)
    requires Normal(a)
    ensures Add(a, FromInt(0)) == a
  {
    assert a.num * 1 + 0 * a.denom == a.num && a.denom * 1 == a.denom;
    SimplifyIdempotent(a);
  }

  // ---------------------------------------------------------------------
  // operator<<
  // ---------------------------------------------------------------------

  /** The decimal digits of n, most significant first, as `out << n` writes them. */
  function Digits(n: nat): (s: string)
    ensures |s| > 0 && forall i :: 0 <= i < |s| ==> '0' <= s[i] <= '9'
    decreases n
  {
    var last := [(('0' as int) + n % 10) as char];
    if n < 10 then last else Digits(n / 10) + last
  }

  /** `out << n` for an int: a '-' before the digits of a negative value. */
  function DecimalInt(n: int): (s: string)
    ensures |s| > 0 && forall i :: 0 <= i < |s| ==> s[i] == '-' || '0' <= s[i] <= '9'
  {
    if n < 0 then "-" + Digits(-n) else Digits(n)
  }

  /** The number a string of decimal digits stands for. */
  function DigitsValue(s: string): int
    decreases |s|
  {
    if s == [] then 0 else 10 * DigitsValue(s[..|s| - 1]) + (s[|s| - 1] as int - '0' as int)
  }

  /** Reading the digits back gives the number. */
  lemma {:induction false} DigitsRoundTrip(n: nat)
    ensures DigitsValue(Digits(n)) == n
    decreases n
  {
    var s := Digits(n);
    if n >= 10 {
      DigitsRoundTrip(n / 10);
      assert s[..|s| - 1] == Digits(n / 10);
    } else {
      assert s[..|s| - 1] == [];
    }
  }

  /** operator<<: the numerator, then "/" and the denominator unless the denominator is 1. */
  function Format(f: Frac): (s: string)
  {
    DecimalInt(f.num) + (if f.denom != 1 then "/" + DecimalInt(f.denom) else "")
  }

  /** Reads an optional '-' followed by decimal digits. */
  function ParseInt(s: string): int
  {
    if s != [] && s[0] == '-' then -DigitsValue(s[1..]) else DigitsValue(s)
  }

  /** Printing an int and reading it back gives the int; the text holds no '/'. */
  lemma IntReadsBack(n: int)
    ensures ParseInt(DecimalInt(n)) == n && '/' !in DecimalInt(n)
  {
    var a := DecimalInt(n);
    if n < 0 {
      DigitsRoundTrip(-n);
      assert a[1..] == Digits(-n);
    } else {
      DigitsRoundTrip(n);
    }
  }

  /**
   * The printed form holds a '/' exactly when the denominator is not 1, and
   * the text on either side of it reads back as the numerator and denominator.
   */
  lemma FormatReadsBack(f: Frac)
    ensures var s := Format(f); var k := |DecimalInt(f.num)|;
      ('/' in s <==> f.denom != 1) &&
      k <= |s| && ParseInt(s[..k]) == f.num &&
      (f.denom != 1 ==> s[k] == '/' && ParseInt(s[k + 1..]) == f.denom)
  {
    var s := Format(f);
    var a := DecimalInt(f.num);
    var k := |a|;
    assert s[..k] == a;
    IntReadsBack(f.num);
    if f.denom != 1 {
      IntReadsBack(f.denom);
      assert s[k + 1..] == DecimalInt(f.denom);
      assert s[k] == '/';
    } else {
      assert s == a;
    }
  }

  // ---------------------------------------------------------------------
  // The object: simplify, compound assignment and increments
  // ---------------------------------------------------------------------

  class Rational {
    var num: int
    var denom: int

    function Value(): Frac
      reads this
    {
      Frac(num, denom)
    }

    ghost predicate Valid()
      reads this
    {
      Normal(Value())
    }

    /** Rational(n, d) for d != 0 (Make gives the invalid_argument case). */
    constructor (n: int, d: int)
      requires d != 0
      ensures Valid() && Value() == Make(n, d).value
    {
      num, denom := n, d;
      new;
      Simplify();
    }

    /** Rational(n): n/1. */
    constructor OfInt(n: int)
      ensures Valid() && Value() == FromInt(n)
    {
      num, denom := n, 1;
    }

    /** simplify(): `m_num /= gcd; m_denom /= gcd; m_num *= sign(m_denom); m_denom *= sign(m_denom)`. */
    method Simplify()
      requires denom != 0
      modifies this
      ensures Valid() && Value() == Simplified(old(num), old(denom))
    {
      var gcd := GCD(num, denom);
      GCDZero(num, denom);
      num := CDiv(num, gcd);
      denom := CDiv(denom, gcd);
      num := num * Sign(denom);
      denom := denom * Sign(denom);
      assert Value() == Simplified(old(num), old(denom));
    }

    /** operator+=: `*this = *this + r`. */
    method AddAssign(r: Frac)
      requires Valid() && Normal(r)
      modifies this
      ensures Valid() && Value() == Add(old(Value()), r)
    {
      var out := Add(Value(), r);
      num, denom := out.num, out.denom;
    }

    /** operator-=: `*this = *this - r`. */
    method SubAssign(r: Frac)
      requires Valid() && Normal(r)
      modifies this
      ensures Valid() && Value() == Sub(old(Value()), r)
    {
      var out := Sub(Value(), r);
      num, denom := out.num, out.denom;
    }

    /** operator*=: `*this = *this * r`. */
    method MulAssign(r: Frac)
      requires Valid() && Normal(r)
      modifies this
      ensures Valid() && Value() == Mul(old(Value()), r)
    {
      var out := Mul(Value(), r);
      num, denom := out.num, out.denom;
    }

    /** operator/=: `*this = *this / r`; `thrown` is the invalid_argument of a zero divisor, which leaves the object as it was. */
    method DivAssign(r: Frac) returns (thrown: bool)
      requires Valid() && Normal(r)
      modifies this
      ensures Valid()
      ensures thrown <==> r.num == 0
      ensures thrown ==> Value() == old(Value())
      ensures !thrown ==> Div(old(Value()), r) == Ok(Value())
    {
      var out := Div(Value(), r);
      if out.Ok? {
        num, denom := out.value.num, out.value.denom;
        return false;
      }
      return true;
    }

    /** Prefix ++: `*this = *this + Rational(1)`. */
    method Increment()
      requires Valid()
      modifies this
      ensures Valid() && Value() == Add(old(Value()), FromInt(1))
      ensures SameValue(Value(), Frac(old(num) + old(denom), old(denom)))
    {
      AddAssign(FromInt(1));
      assert old(num) * 1 + 1 * old(denom) == old(num) + old(denom);
    }

    /** Prefix --: `*this = *this + Rational(-1)`. */
    method Decrement()
      requires Valid()
      modifies this
      ensures Valid() && Value() == Add(old(Value()), FromInt(-1))
      ensures SameValue(Value(), Frac(old(num) - old(denom), old(denom)))
    {
      AddAssign(FromInt(-1));
      assert old(num) * 1 + -1 * old(denom) == old(num) - old(denom);
    }

    /** Postfix ++: returns a copy of the value before the increment. */
    method PostIncrement() returns (out: Frac)
      requires Valid()
      modifies this
      ensures out == old(Value())
      ensures Valid() && Value() == Add(old(Value()), FromInt(1))
    {
      out := Value();
      Increment();
    }

    /** Postfix --: returns a copy of the value before the decrement. */
    method PostDecrement() returns (out: Frac)
      requires Valid()
      modifies this
      ensures out == old(Value())
      ensures Valid() && Value() == Add(old(Value()), FromInt(-1))
    {
      out := Value();
      Decrement();
    }
  }
}
