/** Scalar arithmetic in Z/mZ shared by the three copies of it in the source:
    the greatest common divisor that characterises invertibility, and the
    brute-force inverse search `find_inverse` of encryption.py. */
module ModArith {
  import opened Base

  /** Python's `a % m` and Dafny's agree whenever m > 0. */
  predicate Congruent(a: int, b: int, m: int)
    requires m > 0
  {
    (a - b) % m == 0
  }

  // ---------------------------------------------------------------------
  // Division with remainder

  /** A positive multiple of m is at least m. */
  lemma {:induction false} MulAtLeast(d: int, m: int)
    ensures d >= 1 && m > 0 ==> d * m >= m
    decreases if d < 0 then 0 else d
  {
    if d > 1 {
      MulAtLeast(d - 1, m);
      assert d * m == (d - 1) * m + m;
    }
  }

  /** Quotient and remainder are unique. */
  lemma ModUnique(a: int, m: int, q: int, r: int)
    requires m > 0 && a == q * m + r && 0 <= r < m
    ensures a % m == r && a / m == q
  {
    var q0, r0 := a / m, a % m;
    var k := q - q0;
    assert k * m == r0 - r;
    MulAtLeast(k, m);
    MulAtLeast(-k, m);
    assert (-k) * m == -(k * m);
  }

  lemma ModAddMultiple(a: int, k: int, m: int)
    requires m > 0
    ensures (a + k * m) % m == a % m
  {
    assert a + k * m == (a / m + k) * m + a % m;
    ModUnique(a + k * m, m, a / m + k, a % m);
  }

  lemma ModOfMultiple(k: int, m: int)
    requires m > 0
    ensures (k * m) % m == 0 && (m * k) % m == 0
  {
    ModUnique(k * m, m, k, 0);
    ModUnique(m * k, m, k, 0);
  }

  /** Equal factors give equal products. */
  lemma MulEqual(x: int, y: int, z: int)
    requires y == z
    ensures x * y == x * z
  {
  }

  /** Equal numbers have equal residues. The solver does not always find
      this for itself when the two sides are written differently. */
  lemma ModOfEqual(x: int, y: int, m: int)
    requires m > 0 && x == y
    ensures x % m == y % m
  {
  }

  /** A residue differs from its argument by a multiple of the modulus. */
  lemma ModCongruent(a: int, m: int)
    requires m > 0
    ensures Congruent(a % m, a, m) && Congruent(a, a % m, m)
  {
    ModUnique(a % m - a, m, -(a / m), 0);
    ModUnique(a - a % m, m, a / m, 0);
  }

  /** Congruence carries over to an equal number. */
  lemma CongruentEqual(a: int, b: int, e: int, m: int)
    requires m > 0 && a == b && Congruent(a, e, m)
    ensures Congruent(b, e, m)
  {
    ModOfEqual(a - e, b - e, m);
  }

  /** Congruent numbers have the same residue. */
  lemma CongruentSameMod(a: int, b: int, m: int)
    requires m > 0 && Congruent(a, b, m)
    ensures a % m == b % m
  {
    var k := (a - b) / m;
    ModUnique(a - b, m, k, 0);
    ModUnique(a, m, b / m + k, b % m);
  }

  lemma CongruentSymmetric(a: int, b: int, m: int)
    requires m > 0 && Congruent(a, b, m)
    ensures Congruent(b, a, m)
  {
    CongruentSameMod(a, b, m);
    SameModCongruent(b, a, m);
  }

  lemma SameModCongruent(a: int, b: int, m: int)
    requires m > 0 && a % m == b % m
    ensures Congruent(a, b, m)
  {
    ModUnique(a - b, m, a / m - b / m, 0);
  }

  /** Replacing a factor by its residue does not change the residue of the product. */
  lemma ModMulLeft(a: int, b: int, m: int)
    requires m > 0
    ensures (a * b) % m == ((a % m) * b) % m
  {
    assert a * b == (a % m) * b + ((a / m) * b) * m;
    ModAddMultiple((a % m) * b, (a / m) * b, m);
    ModOfEqual(a * b, (a % m) * b + ((a / m) * b) * m, m);
  }

  /** The residue of a linear combination only depends on the residues of the
      combined terms. */
  lemma ModLinear(a: int, u: int, b: int, v: int, w: int, m: int)
    requires m > 0
    ensures (a * u + b * v + w) % m == (a * (u % m) + b * (v % m) + w) % m
  {
    assert a * u + b * v + w == (a * (u % m) + b * (v % m) + w) + (a * (u / m) + b * (v / m)) * m;
    ModAddMultiple(a * (u % m) + b * (v % m) + w, a * (u / m) + b * (v / m), m);
    ModOfEqual(a * u + b * v + w, (a * (u % m) + b * (v % m) + w) + (a * (u / m) + b * (v / m)) * m, m);
  }

  lemma ModMulRight(a: int, b: int, m: int)
    requires m > 0
    ensures (a * b) % m == (a * (b % m)) % m
  {
    ModMulLeft(b, a, m);
  }

  /** Multiplying by an inverse of w undoes multiplying by w:
      ((a * i) % m) * w = a (mod m) when i * v = 1 and v = w (mod m). */
  lemma CancelInverse(a: int, i: int, v: int, w: int, m: int)
    requires m > 0 && (i * v) % m == 1 && Congruent(v, w, m)
    ensures Congruent(((a * i) % m) * w, a, m)
  {
    ModMulLeft(a * i, w, m);
    ModMulRight(a * i, w, m);
    CongruentSameMod(v, w, m);
    ModMulRight(a * i, v, m);
    ModOfEqual((a * i) * v, a * (i * v), m);
    ModMulRight(a, i * v, m);
    ModOfEqual(a * ((i * v) % m), a, m);
    SameModCongruent(((a * i) % m) * w, a, m);
  }

  lemma ModIdempotent(a: int, m: int)
    requires m > 0
    ensures (a % m) % m == a % m
  {
    ModUnique(a % m, m, 0, a % m);
  }

  lemma CongruentTransitive(a: int, b: int, c: int, m: int)
    requires m > 0 && Congruent(a, b, m) && Congruent(b, c, m)
    ensures Congruent(a, c, m)
  {
    CongruentSameMod(a, b, m);
    CongruentSameMod(b, c, m);
    SameModCongruent(a, c, m);
  }

  /** Congruences can be combined linearly. */
  lemma CongruentCombination(a: int, a2: int, b: int, b2: int, u: int, v: int, m: int)
    requires m > 0 && Congruent(a, a2, m) && Congruent(b, b2, m)
    ensures Congruent(a * u + b * v, a2 * u + b2 * v, m)
  {
    var p, q := (a - a2) / m, (b - b2) / m;
    assert a - a2 == p * m;
    assert b - b2 == q * m;
    assert (a * u + b * v) - (a2 * u + b2 * v) == (a - a2) * u + (b - b2) * v;
    assert (a - a2) * u + (b - b2) * v == (p * u + q * v) * m;
    ModUnique((a * u + b * v) - (a2 * u + b2 * v), m, p * u + q * v, 0);
  }

  // ---------------------------------------------------------------------
  // Greatest common divisor

  /** Euclid's algorithm; for m > 0, Gcd(x, m) is the gcd of |x| and m. */
  function Gcd(a: int, b: nat): nat
    decreases b
  {
    if b == 0 then (if a < 0 then -a else a) else Gcd(b, a % b)
  }

  predicate Coprime(x: int, m: nat) {
    Gcd(x, m) == 1
  }

  /** The gcd only depends on the residue of its first argument. */
  lemma GcdOfResidue(x: int, m: int)
    requires m > 0
    ensures Gcd(x % m, m) == Gcd(x, m)
  {
    ModIdempotent(x, m);
  }

  /** A number divides its own absolute value. */
  lemma DividesAbs(a: int)
    requires a != 0
    ensures a % (if a < 0 then -a else a) == 0
  {
    var d := if a < 0 then -a else a;
    if a < 0 {
      ModUnique(a, d, -1, 0);
    } else {
      ModUnique(a, d, 1, 0);
    }
  }

  /** A divisor of b and of a % b divides a. */
  lemma DividesThroughRemainder(a: int, b: int, d: int)
    requires b > 0 && d > 0 && b % d == 0 && (a % b) % d == 0
    ensures a % d == 0
  {
    var kb, kr := b / d, (a % b) / d;
    ModUnique(b, d, kb, 0);
    ModUnique(a % b, d, kr, 0);
    assert a == (a / b) * b + a % b;
    assert a == ((a / b) * kb + kr) * d;
    ModUnique(a, d, (a / b) * kb + kr, 0);
  }

  /** The gcd divides both arguments. */
  lemma {:induction false} GcdDivides(a: int, b: nat)
    requires b > 0 || a != 0
    ensures Gcd(a, b) > 0 && a % Gcd(a, b) == 0 && b % Gcd(a, b) == 0
    decreases b
  {
    if b == 0 {
      DividesAbs(a);
      ModUnique(0, Gcd(a, b), 0, 0);
    } else {
      GcdDivides(b, a % b);
      DividesThroughRemainder(a, b, Gcd(b, a % b));
    }
  }

  /** Bezout coefficients from the extended Euclidean algorithm. */
  function ExtGcd(a: int, b: nat): (st: (int, int))
    ensures st.0 * a + st.1 * b == Gcd(a, b)
    decreases b
  {
    if b == 0 then
      (if a < 0 then (-1, 0) else (1, 0))
    else
      var st' := ExtGcd(b, a % b);
      BezoutStep(a, b, st'.0, st'.1, Gcd(b, a % b));
      (st'.1, st'.0 - st'.1 * (a / b))
  }

  /** One step of the extended algorithm: coefficients for (b, a % b) give
      coefficients for (a, b). */
  lemma BezoutStep(a: int, b: int, p: int, q: int, g: int)
    requires b > 0 && p * b + q * (a % b) == g
    ensures q * a + (p - q * (a / b)) * b == g
  {
    var k := a / b;
    assert a % b == a - k * b;
    assert q * (a - k * b) == q * a - (q * k) * b;
    assert (p - q * k) * b == p * b - (q * k) * b;
  }

  // ---------------------------------------------------------------------
  // Multiplicative inverses

  /** y is a multiplicative inverse of x modulo m, as the source tests it:
      `(y * x) % m == 1`. */
  predicate IsInverse(x: int, m: int, y: int)
    requires m > 0
  {
    (y * x) % m == 1
  }

  /** If i is a zero divisor witness for x (i * x = 0 mod m) and x has an
      inverse, then m divides i. */
  lemma ZeroDivisorBlocksInverse(x: int, m: int, i: int, y: int)
    requires m > 0 && (i * x) % m == 0 && IsInverse(x, m, y)
    ensures i % m == 0
  {
    ModMulLeft(i * x, y, m);
    assert (i * x * y) % m == 0;
    ModMulLeft(y * x, i, m);
    assert (y * x * i) % m == i % m;
    ModOfEqual(i * x * y, y * x * i, m);
  }

  /** Every inverse has a representative in [1, m). */
  lemma InverseRepresentative(x: int, m: int, y: int)
    requires m > 0 && IsInverse(x, m, y)
    ensures m > 1 && 1 <= y % m < m && IsInverse(x, m, y % m)
  {
    ModMulLeft(y, x, m);
  }

  /** Bezout: when gcd(x, m) = 1 and m > 1, x has an inverse in [1, m). */
  lemma CoprimeHasInverse(x: int, m: int) returns (y: int)
    requires m > 1 && Coprime(x, m)
    ensures 1 <= y < m && IsInverse(x, m, y)
  {
    var st := ExtGcd(x, m);
    BezoutInverse(x, m, st.0, st.1);
    InverseRepresentative(x, m, st.0);
    y := st.0 % m;
  }

  /** A Bezout coefficient of x is an inverse of x. */
  lemma BezoutInverse(x: int, m: int, s: int, t: int)
    requires m > 1 && s * x + t * m == 1
    ensures IsInverse(x, m, s)
  {
    ModUnique(s * x, m, -t, 1);
  }

  /** A positive number that divides 1 is 1. */
  lemma DividesOne(c: int, d: int)
    requires d > 0 && c * d == 1
    ensures d == 1
  {
    MulAtLeast(c, d);
    MulAtLeast(-c, d);
    assert (-c) * d == -(c * d);
  }

  /** A common divisor of x and m divides every combination y*x - q*m. */
  lemma CommonDivisorOfOne(x: int, m: int, d: int, y: int, q: int)
    requires d > 0 && x % d == 0 && m % d == 0 && y * x - q * m == 1
    ensures d == 1
  {
    var kx, km := x / d, m / d;
    assert x == kx * d;
    assert m == km * d;
    assert y * x - q * m == (y * kx - q * km) * d;
    DividesOne(y * kx - q * km, d);
  }

  /** An inverse y of x modulo m gives the Bezout identity y x - q m = 1. */
  lemma InverseBezout(x: int, m: int, y: int)
    requires m > 0 && IsInverse(x, m, y)
    ensures y * x - ((y * x) / m) * m == 1
  {
  }

  /** Only an x coprime to m > 1 has an inverse: a common divisor of x and m
      divides y x - q m = 1. */
  lemma InverseHasCoprime(x: int, m: int, y: int)
    requires m > 0 && IsInverse(x, m, y)
    ensures m > 1 && Coprime(x, m)
  {
    InverseRepresentative(x, m, y);
    InverseBezout(x, m, y);
    GcdDivides(x, m);
    CommonDivisorOfOne(x, m, Gcd(x, m), y, (y * x) / m);
  }

  /** x is invertible modulo m exactly when m > 1 and gcd(x, m) = 1. */
  lemma InverseExistsIffCoprime(x: int, m: int)
    requires m > 0
    ensures (exists y :: 1 <= y < m && IsInverse(x, m, y)) <==> (m > 1 && Coprime(x, m))
  {
    if m > 1 && Coprime(x, m) {
      var y := CoprimeHasInverse(x, m);
    }
    if y :| 1 <= y < m && IsInverse(x, m, y) {
      InverseHasCoprime(x, m, y);
    }
  }

  /** The search loop of `find_inverse` as a function: starting at i, the
      first multiple that is 0 mod m stops it with no result, the first that
      is 1 mod m is returned. */
  function InverseFrom(x: int, m: int, i: int): (r: Option<int>)
    requires 1 <= i <= m
    ensures r.Some? ==> i <= r.value < m && IsInverse(x, m, r.value)
    ensures r.Some? ==> forall j :: i <= j < r.value ==> !IsInverse(x, m, j)
    ensures r.None? ==> forall j :: i <= j < m ==> !IsInverse(x, m, j)
    decreases m - i
  {
    ModOfMultiple(x, m);
    if (i * x) % m == 0 then
      ZeroStopsSearch(x, m, i);
      None
    else if (i * x) % m == 1 then
      Some(i)
    else
      InverseFrom(x, m, i + 1)
  }

  /** Once i * x = 0 (mod m), no j in [i, m) is an inverse of x. */
  lemma ZeroStopsSearch(x: int, m: int, i: int)
    requires 1 <= i <= m && (i * x) % m == 0
    ensures forall j :: i <= j < m ==> !IsInverse(x, m, j)
  {
    forall j | i <= j < m && IsInverse(x, m, j) ensures false {
      ZeroDivisorBlocksInverse(x, m, i, j);
      ModUnique(i, m, 0, i);
    }
  }

  /** The least inverse of x modulo m in [1, m), if there is one. */
  function Inverse(x: int, m: int): (r: Option<int>)
    requires m > 0
    ensures r.Some? <==> m > 1 && Coprime(x, m)
    ensures r.Some? ==> 1 <= r.value < m && IsInverse(x, m, r.value)
    ensures r.Some? ==> forall j :: 1 <= j < r.value ==> !IsInverse(x, m, j)
  {
    InverseExistsIffCoprime(x, m);
    InverseFrom(x, m, 1)
  }

  /** Numbers with the same residue have the same least inverse. */
  lemma InverseOfCongruent(x: int, y: int, m: int)
    requires m > 0 && Congruent(x, y, m)
    ensures Inverse(x, m) == Inverse(y, m)
  {
    CongruentSameMod(x, y, m);
    GcdOfResidue(x, m);
    GcdOfResidue(y, m);
    forall k ensures IsInverse(x, m, k) <==> IsInverse(y, m, k) {
      ModMulRight(k, x, m);
      ModMulRight(k, y, m);
    }
  }

  /** `find_inverse(x, m)`: the least positive i with i * x = 1 (mod m), or -1
      as soon as some i * x = 0 (mod m). The loop stops by i = m. */
  method FindInverse(x: int, m: int) returns (r: int)
    requires m > 0
    ensures r == -1 <==> !(m > 1 && Coprime(x, m))
    ensures r != -1 ==> 1 <= r < m && IsInverse(x, m, r)
    ensures r != -1 ==> forall j :: 1 <= j < r ==> !IsInverse(x, m, j)
    ensures r == (if Inverse(x, m).Some? then Inverse(x, m).value else -1)
  {
    ghost var least := Inverse(x, m);
    ModOfMultiple(x, m);
    var i := 1;
    var residue := x % m;
    while residue != 0 && residue != 1
      invariant 1 <= i <= m && residue == (i * x) % m
      invariant InverseFrom(x, m, i) == least
      decreases m - i
    {
      assert i != m;
      i := i + 1;
      residue := (i * x) % m;
    }
    if residue == 0 {
      assert least.None?;
      r := -1;
    } else {
      assert least == Some(i);
      r := i;
    }
  }

  /** The two searches of the tests: 15 has inverse 2 modulo 29, and 2 has
      none modulo 6 (the search meets 3 * 2 = 0 first). */
  lemma InverseTestVectors()
    ensures Inverse(15, 29) == Some(2)
    ensures Inverse(2, 6) == None
  {
    assert Gcd(15, 29) == 1;
    assert IsInverse(15, 29, 2) && !IsInverse(15, 29, 1);
    assert Gcd(2, 6) == 2;
  }

  // ---------------------------------------------------------------------
  // Powers

  /** x to the power e, for e >= 0, over the integers. */
  function Power(x: int, e: nat): int
  {
    if e == 0 then 1 else x * Power(x, e - 1)
  }

  /** The residue of a power only depends on the residue of its base. */
  lemma {:induction false} PowerOfResidue(x: int, e: nat, m: int)
    requires m > 0
    ensures Power(x % m, e) % m == Power(x, e) % m
  {
    if e > 0 {
      PowerOfResidue(x, e - 1, m);
      calc {
        Power(x % m, e) % m;
        ((x % m) * Power(x % m, e - 1)) % m;
        { ModMulRight(x % m, Power(x % m, e - 1), m); }
        ((x % m) * (Power(x % m, e - 1) % m)) % m;
        ((x % m) * (Power(x, e - 1) % m)) % m;
        { ModMulRight(x % m, Power(x, e - 1), m); }
        ((x % m) * Power(x, e - 1)) % m;
        { ModMulLeft(x, Power(x, e - 1), m); }
        Power(x, e) % m;
      }
    }
  }
}
