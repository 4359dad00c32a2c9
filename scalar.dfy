/**
 * Arithmetic modulo the group order n: the scalar field in which r, s, the
 * message hash and the derived values w, u1, u2 live.
 */
module Scalar {
  import opened Wrappers

  predicate Divides(d: nat, a: nat)
    requires d > 0
  {
    a % d == 0
  }

  /** n is prime: greater than one and without a divisor strictly between 1 and n. */
  predicate IsPrime(n: nat) {
    n > 1 && forall d :: 1 < d < n ==> !Divides(d, n)
  }

  /** Field multiplication: the canonical residue of a * b. */
  function FieldMul(a: nat, b: nat, n: nat): (r: nat)
    requires n > 0
    ensures r < n
    ensures (a * b - r) % n == 0
  {
    ResidueCongruent(a * b, n);
    a * b % n
  }

  /** Field addition: the canonical residue of a + b. */
  function FieldAdd(a: nat, b: nat, n: nat): (r: nat)
    requires n > 0
    ensures r < n
    ensures (a + b - r) % n == 0
  {
    ResidueCongruent(a + b, n);
    (a + b) % n
  }

  // ---------------------------------------------------------------------------
  // Division with remainder

  lemma MulAtLeast(n: int, d: int)
    requires n > 0 && d >= 1
    ensures n * d >= n
  {
    var e := d - 1;
    assert n * d == n * e + n;
    assert n * e >= 0;
  }

  /** Quotient and remainder are determined by a == n * q + r with 0 <= r < n. */
  lemma DivModUnique(a: int, n: int, q: int, r: int)
    requires n > 0 && 0 <= r < n && a == n * q + r
    ensures a / n == q && a % n == r
  {
    var q', r' := a / n, a % n;
    assert a == n * q' + r';
    assert n * (q - q') == r' - r;
    if q > q' {
      MulAtLeast(n, q - q');
    } else if q < q' {
      MulAtLeast(n, q' - q);
    }
  }

  /** Adding a multiple of n does not change the residue. */
  lemma ModShift(q: int, z: int, n: int)
    requires n > 0
    ensures (n * q + z) % n == z % n
  {
    var zq, zr := z / n, z % n;
    assert n * q + z == n * (q + zq) + zr;
    DivModUnique(n * q + z, n, q + zq, zr);
  }

  /** A number and its residue differ by a multiple of n. */
  lemma ResidueCongruent(x: int, n: int)
    requires n > 0
    ensures (x - x % n) % n == 0
  {
    DivModUnique(x - x % n, n, x / n, 0);
  }

  lemma ModOfResidue(z: int, n: int)
    requires n > 0
    ensures (z % n) % n == z % n
  {
    DivModUnique(z % n, n, 0, z % n);
  }

  lemma ModAdd(x: int, y: int, n: int)
    requires n > 0
    ensures (x + y) % n == (x % n + y % n) % n
  {
    var qx, qy := x / n, y / n;
    assert x + y == n * (qx + qy) + (x % n + y % n);
    ModShift(qx + qy, x % n + y % n, n);
  }

  /** Reducing the left summand first does not change the residue of a sum. */
  lemma ModAddLeft(x: int, y: int, n: int)
    requires n > 0
    ensures (x % n + y) % n == (x + y) % n
  {
    assert x + y == n * (x / n) + (x % n + y);
    ModShift(x / n, x % n + y, n);
  }

  /** Addition modulo n is associative. */
  lemma ModAddAssoc(x: int, y: int, z: int, n: int)
    requires n > 0
    ensures ((x + y) % n + z) % n == (x + (y + z) % n) % n
  {
    var left, right := x + y, y + z;
    ModAddLeft(left, z, n);
    ModAddLeft(right, x, n);
    assert left + z == right + x;
    assert x + right % n == right % n + x;
  }

  /** n - x % n is the opposite of x modulo n. */
  lemma ModOpposite(x: int, n: int)
    requires n > 0
    ensures (x + (n - x % n)) % n == 0
  {
    assert x + (n - x % n) == n * (x / n + 1) + 0;
    ModShift(x / n + 1, 0, n);
  }

  /** Multiplication modulo n distributes over addition. */
  lemma ModMulDistributes(k: int, x: int, y: int, n: int)
    requires n > 0
    ensures k * ((x + y) % n) % n == (k * x % n + k * y % n) % n
  {
    ModMul(k, x + y, n);
    ModAdd(k * x, k * y, n);
    assert k * (x + y) == k * x + k * y;
  }

  /** Multiplication modulo n is associative. */
  lemma ModMulCompose(j: int, k: int, x: int, n: int)
    requires n > 0
    ensures j * (k * x % n) % n == j * k * x % n
  {
    ModMul(j, k * x, n);
    assert j * (k * x) == j * k * x;
  }

  lemma ModMul(x: int, y: int, n: int)
    requires n > 0
    ensures (x * y) % n == (x * (y % n)) % n
  {
    var qy := y / n;
    assert y == n * qy + y % n;
    assert x * y == n * (x * qy) + x * (y % n);
    ModShift(x * qy, x * (y % n), n);
  }

  /** A product with a multiple of n is a multiple of n. */
  lemma MulOfMultiple(x: int, y: int, n: int)
    requires n > 0
    ensures y % n == 0 ==> (x * y) % n == 0 && (y * x) % n == 0
  {
    if y % n == 0 {
      ModMul(x, y, n);
      assert x * (y % n) == 0;
    }
    assert x * y == y * x;
  }

  /** If a * x and b are congruent, so are a * x * m and b * m. */
  lemma CongruentScale(x: int, y: int, m: int, n: int)
    requires n > 0 && x % n == y % n
    ensures (x * m) % n == (y * m) % n
  {
    ModMul(m, x, n);
    ModMul(m, y, n);
    assert x * m == m * x && y * m == m * y;
  }

  /** d divides b and c, so it divides b * m + c. */
  lemma DividesCombination(d: nat, b: nat, m: nat, c: nat)
    requires d > 0 && b % d == 0 && c % d == 0
    ensures (b * m + c) % d == 0
  {
    var kb, kc := b / d, c / d;
    assert b == d * kb && c == d * kc;
    assert b * m + c == d * (kb * m + kc);
    DivModUnique(b * m + c, d, kb * m + kc, 0);
  }

  /** A positive multiple of d is at least d. */
  lemma DivisorBelow(d: nat, a: nat)
    requires d > 0 && a > 0 && a % d == 0
    ensures d <= a
  {
    var k := a / d;
    assert a == d * k;
    assert k >= 1;
    assert d * k >= d * 1;
  }

  // ---------------------------------------------------------------------------
  // Inversion

  /**
   * Extended Euclid: the gcd g of a and b with Bezout coefficients x, y,
   * a * x + b * y == g, where g divides both a and b.
   */
  function Egcd(a: nat, b: nat): (r: (nat, int, int))
    decreases b
    ensures a * r.1 + b * r.2 == r.0
    ensures a > 0 || b > 0 ==> r.0 > 0
    ensures r.0 > 0 ==> a % r.0 == 0 && b % r.0 == 0
  {
    if b == 0 then
      (a, 1, 0)
    else
      var (g, x, y) := Egcd(b, a % b);
      EuclidStep(a, b, g, x, y);
      (g, y, x - a / b * y)
  }

  /** One step of extended Euclid: what holds of (b, a mod b) carries over to (a, b). */
  lemma EuclidStep(a: nat, b: nat, g: nat, x: int, y: int)
    requires b > 0 && b * x + (a % b) * y == g
    requires g > 0 ==> b % g == 0 && (a % b) % g == 0
    ensures a * y + b * (x - a / b * y) == g
    ensures g > 0 ==> a % g == 0
  {
    var q := a / b;
    BezoutStep(a, b, q, a % b, x, y, g);
    if g > 0 {
      DividesCombination(g, b, q, a % b);
    }
  }

  lemma BezoutStep(a: int, b: int, q: int, m: int, x: int, y: int, g: int)
    requires a == b * q + m && b * x + m * y == g
    ensures a * y + b * (x - q * y) == g
  {
    calc {
      a * y + b * (x - q * y);
      (b * q + m) * y + b * x - b * (q * y);
      { assert (b * q + m) * y == (b * q) * y + m * y; assert b * (q * y) == (b * q) * y; }
      m * y + b * x;
    }
  }

  /**
   * The inverse of s modulo n, if it has one: the witness the scalar-field
   * chip assigns for `invert`, checked by the constraint s * w == 1 (mod n).
   */
  function InvertMod(s: nat, n: nat): (r: Option<nat>)
    requires n > 1
    ensures r.Some? ==> r.value < n && s * r.value % n == 1
    ensures IsPrime(n) ==> (r.Some? <==> s % n != 0)
  {
    var (g, x, y) := Egcd(s, n);
    var w := x % n;
    InverseFound(s, n, g, x, y);
    if s * w % n == 1 then Some(w) else None
  }

  /** Euclid's coefficient is the inverse exactly when s is not a multiple of the prime n. */
  lemma InverseFound(s: nat, n: nat, g: nat, x: int, y: int)
    requires n > 1 && Egcd(s, n) == (g, x, y)
    ensures IsPrime(n) ==> (s * (x % n) % n == 1 <==> s % n != 0)
  {
    if IsPrime(n) {
      if s % n == 0 {
        MultipleHasNoInverse(s, n, x % n);
      } else {
        GcdDividesResidue(s, n, g);
        PrimeCommonDivisor(s % n, n, g);
        BezoutInverse(s, n, x, y);
      }
    }
  }

  lemma MultipleHasNoInverse(s: nat, n: nat, w: int)
    requires n > 1 && s % n == 0
    ensures s * w % n == 0
  {
    var k := s / n;
    assert s == n * k;
    assert s * w == n * (k * w);
    ModShift(k * w, 0, n);
  }

  lemma BezoutInverse(s: nat, n: nat, x: int, y: int)
    requires n > 1 && s * x + n * y == 1
    ensures s * (x % n) % n == 1
  {
    ModShift(y, s * x, n);
    assert n * y + s * x == 1;
    ModMul(s, x, n);
  }

  lemma GcdDividesResidue(s: nat, n: nat, g: nat)
    requires n > 0 && g > 0 && s % g == 0 && n % g == 0
    ensures (s % n) % g == 0
  {
    var q := s / n;
    assert s == n * q + s % n;
    assert (s % n) == s - n * q;
    var ks, kn := s / g, n / g;
    assert s == g * ks && n == g * kn;
    assert s % n == g * (ks - kn * q);
    DivModUnique(s % n, g, ks - kn * q, 0);
  }

  /** A common divisor of a prime n and a non-zero residue below it is 1. */
  lemma PrimeCommonDivisor(a: nat, n: nat, g: nat)
    requires IsPrime(n) && 0 < a < n && g > 0 && a % g == 0 && n % g == 0
    ensures g == 1
  {
    DivisorBelow(g, a);
    if g > 1 {
      assert Divides(g, n);
    }
  }

  // ---------------------------------------------------------------------------
  // Field identities used by verification

  /** Both sides of the verification equation: h·w + (r·w)·d == w·(h + r·d) in the field. */
  lemma {:induction false} VerifyScalars(n: nat, w: nat, h: nat, r: nat, d: nat)
    requires n > 1
    ensures FieldAdd(FieldMul(h, w, n), FieldMul(FieldMul(r, w, n), d, n), n)
         == FieldMul(w, FieldAdd(h, FieldMul(r, d, n), n), n)
  {
    // left: (h*w%n + (r*w%n)*d%n) % n == (h*w + r*w*d) % n
    ModMul(d, r * w, n);
    assert (r * w % n) * d == d * (r * w % n);
    assert d * (r * w) == w * (r * d);
    ModAdd(h * w, w * (r * d), n);
    ModOfResidue(h * w, n);
    ModOfResidue(w * (r * d), n);
    assert h * w + w * (r * d) == w * (h + r * d);
    // right: w * ((h + r*d%n) % n) % n == w * (h + r*d) % n
    ModMul(w, h + r * d % n, n);
    ModAdd(h, r * d, n);
    ModAdd(h, r * d % n, n);
    ModOfResidue(r * d, n);
    ModMul(w, h + r * d, n);
  }

  /** If s·k == e and w is the inverse of s, then w·e recovers k. */
  lemma {:induction false} InverseCancels(n: nat, s: nat, w: nat, k: nat)
    requires n > 1 && s * w % n == 1 && k < n
    ensures FieldMul(w, FieldMul(s, k, n), n) == k
  {
    var sk := s * k;
    var sw := s * w;
    calc {
      FieldMul(w, FieldMul(s, k, n), n);
      w * (sk % n) % n;
      { ModMul(w, sk, n); }
      w * sk % n;
      { assert w * sk == sw * k; }
      sw * k % n;
      { ModOfResidue(1, n); CongruentScale(sw, 1, k, n); }
      k % n;
      { ResidueBelow(k, n); }
      k;
    }
  }

  /** Multiplying by w and then by its inverse s is the identity on residues. */
  lemma {:induction false} InverseCancelsBack(n: nat, s: nat, w: nat, e: nat)
    requires n > 1 && s * w % n == 1 && e < n
    ensures FieldMul(s, FieldMul(w, e, n), n) == e
    ensures FieldMul(FieldMul(w, e, n), s, n) == e
  {
    assert w * s == s * w;
    InverseCancels(n, w, s, e);
    var x := FieldMul(w, e, n);
    assert x * s == s * x;
  }

  /**
   * The quotient q of a·w by n when a·w == 1 (mod n), so that
   * a·w == 1 + q·n: the second witness of the inversion constraint.
   */
  function UnitQuotient(a: nat, w: nat, n: nat): (q: nat)
    requires n > 1 && a * w % n == 1
    ensures a * w == 1 + q * n
  {
    var x := a * w;
    assert x == x / n * n + x % n;
    x / n
  }

  /** A natural below n is its own residue. */
  lemma ResidueBelow(x: nat, n: nat)
    requires n > 0
    ensures x < n ==> x % n == x
  {
    if x < n {
      DivModUnique(x, n, 0, x);
    }
  }
}
