/**
 * The elliptic-curve group, modelled by discrete logarithms.
 *
 * The curve used by the benchmark (secp256k1) has prime order n and cofactor
 * 1, so every point is k·G for exactly one k in [0, n): a point is represented
 * by that k, the identity by 0. Point addition and scalar multiplication are
 * then addition and multiplication modulo n, and the group laws are lemmas.
 * The only curve-specific information is the affine x-coordinate of each
 * point, a base-field element below p, supplied by the curve as `xOf`.
 */
module Group {
  import opened Wrappers
  import opened Scalar

  /**
   * A curve: group order n (the scalar-field modulus), base-field modulus p,
   * and the x-coordinate of k·G for each k. For the identity (k = 0), `xOf`
   * gives what the point chip's x cells hold.
   */
  datatype Curve = Curve(n: nat, p: nat, xOf: nat -> nat) {
    predicate Valid() {
      n > 1 && p > 1
    }
  }

  /** The point log·G. */
  datatype Point = Point(log: nat)

  predicate IsIdentity(c: Curve, q: Point)
    requires c.Valid()
  {
    q.log % c.n == 0
  }

  /** The curve generator G (`E::generator()`). */
  function Generator(c: Curve): (g: Point)
    requires c.Valid()
    ensures !IsIdentity(c, g)
  {
    Point(1)
  }

  /** Point addition. */
  function Add(c: Curve, a: Point, b: Point): (q: Point)
    requires c.Valid()
    ensures q.log < c.n
    ensures IsIdentity(c, b) ==> q.log == a.log % c.n
    ensures IsIdentity(c, a) ==> q.log == b.log % c.n
  {
    ModAdd(a.log, b.log, c.n);
    ModOfResidue(a.log, c.n);
    ModOfResidue(b.log, c.n);
    Point((a.log + b.log) % c.n)
  }

  /** Scalar multiplication k·a. */
  function ScalarMul(c: Curve, k: nat, a: Point): (q: Point)
    requires c.Valid()
    ensures q.log < c.n
    ensures k % c.n == 0 || IsIdentity(c, a) ==> IsIdentity(c, q)
    ensures k == 1 ==> q.log == a.log % c.n
  {
    MulOfMultiple(a.log, k, c.n);
    MulOfMultiple(k, a.log, c.n);
    Point(k * a.log % c.n)
  }

  /** The value held in the x-coordinate cells of an assigned point: a base-field element. */
  function XCell(c: Curve, a: Point): (x: nat)
    requires c.Valid()
    ensures x < c.p
    ensures IsIdentity(c, a) ==> x == c.xOf(0) % c.p
  {
    c.xOf(a.log % c.n) % c.p
  }

  /**
   * The affine x-coordinate as the off-circuit curve library gives it:
   * `to_affine().coordinates()` has none for the identity.
   */
  function AffineX(c: Curve, a: Point): (x: Option<nat>)
    requires c.Valid()
    ensures x.None? <==> IsIdentity(c, a)
    ensures x.Some? ==> x.value == XCell(c, a) && x.value < c.p
  {
    if IsIdentity(c, a) then None else Some(XCell(c, a))
  }

  /**
   * `mod_n`: a base-field element read as an integer and reduced into the
   * scalar field.
   */
  function ModN(c: Curve, x: nat): (r: nat)
    requires c.Valid()
    ensures r < c.n
    ensures x < c.n ==> r == x
    ensures (x - r) % c.n == 0
  {
    ResidueBelow(x, c.n);
    DivModUnique(x - x % c.n, c.n, x / c.n, 0);
    x % c.n
  }

  /** k·G is the point with logarithm k mod n; it is the identity exactly when n divides k. */
  lemma GeneratorMultiple(c: Curve, k: nat)
    requires c.Valid()
    ensures ScalarMul(c, k, Generator(c)) == Point(k % c.n)
    ensures IsIdentity(c, ScalarMul(c, k, Generator(c))) <==> k % c.n == 0
  {
  }

  /**
   * The group law the verification equation rests on:
   * a·G + b·(d·G) == ((a + b·d) mod n)·G.
   */
  lemma {:induction false} LinearCombination(c: Curve, a: nat, b: nat, d: nat)
    requires c.Valid()
    ensures Add(c, ScalarMul(c, a, Generator(c)), ScalarMul(c, b, ScalarMul(c, d, Generator(c))))
         == ScalarMul(c, FieldAdd(a, FieldMul(b, d, c.n), c.n), Generator(c))
  {
    var n := c.n;
    var g := Generator(c);
    var e := FieldAdd(a, FieldMul(b, d, n), n);
    assert ScalarMul(c, a, g).log == a % n;
    assert ScalarMul(c, d, g).log == d % n;
    assert ScalarMul(c, b, ScalarMul(c, d, g)).log == b * (d % n) % n;
    ModMul(b, d, n);
    ModAdd(a, b * d % n, n);
    ModOfResidue(b * d, n);
    assert Add(c, ScalarMul(c, a, g), ScalarMul(c, b, ScalarMul(c, d, g))).log == e;
    assert ScalarMul(c, e, g).log == e % n;
    ModOfResidue(a + b * d % n, n);
  }

  /** Point addition is commutative and associative, and every point has an opposite. */
  lemma {:induction false} AdditionLaws(c: Curve, a: Point, b: Point, d: Point)
    requires c.Valid()
    ensures Add(c, a, b) == Add(c, b, a)
    ensures Add(c, Add(c, a, b), d) == Add(c, a, Add(c, b, d))
    ensures Add(c, a, Point(c.n - a.log % c.n)) == Point(0)
  {
    ModAddAssoc(a.log, b.log, d.log, c.n);
    var opposite := c.n - a.log % c.n;
    assert Add(c, a, Point(opposite)).log == 0 by {
      ModOpposite(a.log, c.n);
    }
  }

  /** Scalar multiplication distributes over point addition and composes. */
  lemma {:induction false} ScalarMulLaws(c: Curve, a: Point, b: Point, j: nat, k: nat)
    requires c.Valid()
    ensures ScalarMul(c, k, Add(c, a, b)) == Add(c, ScalarMul(c, k, a), ScalarMul(c, k, b))
    ensures ScalarMul(c, j, ScalarMul(c, k, a)) == ScalarMul(c, j * k, a)
  {
    ModMulDistributes(k, a.log, b.log, c.n);
    ModMulCompose(j, k, a.log, c.n);
  }
}
