/**
 * ECDSA verification inside the circuit (`EcdsaChip::verify`): the seven
 * steps of SEC 1 v2.0 section 4.1.4, laid out as chip calls in one region.
 * Any step whose constraints cannot be satisfied rejects the signature.
 */
module Ecdsa {
  import opened Wrappers
  import opened Scalar
  import opened Group
  import opened Region
  import opened Integer
  import opened Ecc

  datatype AssignedEcdsaSig = AssignedEcdsaSig(r: AssignedInteger, s: AssignedInteger)

  datatype AssignedPublicKey = AssignedPublicKey(point: Point)

  /** The window size both scalar multiplications of `verify` ask for. */
  const VERIFY_WINDOW_SIZE: nat := 2

  /** The w the inversion step assigns: the inverse of s when there is one, 0 otherwise. */
  function InverseWitness(s: nat, n: nat): (w: nat)
    requires n > 1
    ensures InvertMod(s, n).Some? ==> s * w % n == 1
  {
    match InvertMod(s, n)
    case Some(w) => w
    case None => 0
  }

  /** Q = u1·G + u2·PK with u1 = h·w and u2 = r·w (steps 2 to 5). */
  function VerifyPoint(c: Curve, sig: AssignedEcdsaSig, pk: AssignedPublicKey, h: AssignedInteger): (q: Point)
    requires c.Valid()
    ensures q.log < c.n
  {
    var w := InverseWitness(sig.s.value, c.n);
    Add(c, ScalarMul(c, FieldMul(h.value, w, c.n), Generator(c)),
           ScalarMul(c, FieldMul(sig.r.value, w, c.n), pk.point))
  }

  /** The calls of steps 1 to 4 (range checks, inversion, u1 and u2), in order. */
  function ScalarPlan(n: nat, sig: AssignedEcdsaSig, h: AssignedInteger): (ops: seq<Op>)
    requires n > 1
    ensures |ops| == 5
  {
    var w := InverseWitness(sig.s.value, n);
    [ AssertNotZero(n, sig.r.value), AssertNotZero(n, sig.s.value),
      Invert(n, sig.s.value), IntMul(n, h.value, w), IntMul(n, sig.r.value, w) ]
  }

  /** The calls of steps 5 to 7 (Q = u1·G + u2·PK, reduction of Q.x, comparison with r), in order. */
  function PointPlan(c: Curve, sig: AssignedEcdsaSig, pk: AssignedPublicKey, u1: nat, u2: nat): (ops: seq<Op>)
    requires c.Valid()
    ensures |ops| == 7
  {
    var g := Generator(c);
    var g1 := ScalarMul(c, u1, g);
    var g2 := ScalarMul(c, u2, pk.point);
    var qx := XCell(c, Add(c, g1, g2));
    [ AssignPoint(g), EccMul(g, u1, VERIFY_WINDOW_SIZE), EccMul(pk.point, u2, VERIFY_WINDOW_SIZE), EccAdd(g1, g2),
      Reduce(c.p, qx), ReduceExternal(c.n, qx % c.p),
      AssertStrictEqual(c.n, AssignedInteger(qx % c.p % c.n, Remainder), sig.r) ]
  }

  /** The twelve chip calls `verify` makes, in order, when none of them fails. */
  function Planned(c: Curve, sig: AssignedEcdsaSig, pk: AssignedPublicKey, h: AssignedInteger): (ops: seq<Op>)
    requires c.Valid()
    ensures |ops| == 12
  {
    var w := InverseWitness(sig.s.value, c.n);
    ScalarPlan(c.n, sig, h) + PointPlan(c, sig, pk, FieldMul(h.value, w, c.n), FieldMul(sig.r.value, w, c.n))
  }

  /** Both variable-base multiplications of `verify` ask for the table of window size 2. */
  lemma {:induction false} PlannedMulsUseVerifyWindow(c: Curve, sig: AssignedEcdsaSig, pk: AssignedPublicKey, h: AssignedInteger)
    requires c.Valid()
    ensures forall k :: 0 <= k < |Planned(c, sig, pk, h)| && Planned(c, sig, pk, h)[k].EccMul?
              ==> Planned(c, sig, pk, h)[k].windowSize == VERIFY_WINDOW_SIZE
  {
  }

  /**
   * When the circuit accepts: 0 < r, s < n, s is invertible, the point chip
   * has the auxiliary table the multiplications use, and the x-coordinate of
   * Q, reduced into the base and then the scalar field, is strictly equal to r.
   */
  predicate Accepts(c: Curve, registry: set<AuxKey>, sig: AssignedEcdsaSig, pk: AssignedPublicKey, h: AssignedInteger)
    requires c.Valid()
  {
    && ScalarsAccepted(c.n, sig)
    && PointAccepted(c, registry, sig, pk, h)
  }

  /** Steps 1 and 2 pass: 0 < r, s < n and s is invertible. */
  predicate ScalarsAccepted(n: nat, sig: AssignedEcdsaSig)
    requires n > 1
  {
    && 0 < sig.r.value < n
    && 0 < sig.s.value < n
    && InvertMod(sig.s.value, n).Some?
  }

  /** Steps 5 to 7 pass for Q = VerifyPoint. */
  predicate PointAccepted(c: Curve, registry: set<AuxKey>, sig: AssignedEcdsaSig, pk: AssignedPublicKey, h: AssignedInteger)
    requires c.Valid()
  {
    && (VERIFY_WINDOW_SIZE, 1) in registry
    && sig.r == AssignedInteger(XCell(c, VerifyPoint(c, sig, pk, h)) % c.p % c.n, Remainder)
  }

  /**
   * How many of the calls of steps 1 to 4 are laid out: every step up to and
   * including the first one that fails (`?` returns at once).
   */
  function ScalarStepsLaidOut(n: nat, sig: AssignedEcdsaSig): (k: nat)
    requires n > 1
    ensures 1 <= k <= 5
    ensures k == 5 <==> ScalarsAccepted(n, sig)
  {
    if !(0 < sig.r.value < n) then 1
    else if !(0 < sig.s.value < n) then 2
    else if InvertMod(sig.s.value, n).None? then 3
    else 5
  }

  /**
   * How many of the calls of steps 5 to 7 are laid out: a multiplication
   * without its auxiliary table fails before laying anything out.
   */
  function PointStepsLaidOut(registry: set<AuxKey>): (k: nat)
    ensures k == 1 || k == 7
    ensures k == 7 <==> (VERIFY_WINDOW_SIZE, 1) in registry
  {
    if (VERIFY_WINDOW_SIZE, 1) in registry then 7 else 1
  }

  /** How many of the twelve planned calls `verify` lays out before it returns. */
  function LaidOut(c: Curve, registry: set<AuxKey>, sig: AssignedEcdsaSig): (k: nat)
    requires c.Valid()
    ensures 1 <= k <= 12
    ensures k > 5 <==> ScalarsAccepted(c.n, sig)
    ensures k == 12 <==> ScalarsAccepted(c.n, sig) && (VERIFY_WINDOW_SIZE, 1) in registry
  {
    if ScalarsAccepted(c.n, sig) then 5 + PointStepsLaidOut(registry) else ScalarStepsLaidOut(c.n, sig)
  }

  class EcdsaChip {
    const ecc: GeneralEccChip

    /** `EcdsaChip::new`: wraps a point chip. */
    constructor (ecc: GeneralEccChip)
      ensures this.ecc == ecc
    {
      this.ecc := ecc;
    }

    /**
     * `verify`. It succeeds exactly when the signature is accepted; the log
     * grows by the planned calls up to the first step that fails, and by all
     * of them on success.
     */
    method Verify(ctx: RegionCtx, sig: AssignedEcdsaSig, pk: AssignedPublicKey, msgHash: AssignedInteger)
      returns (res: Result<()>)
      requires ecc.curve.Valid() && ctx.Valid()
      modifies ctx
      ensures ctx.Valid()
      ensures res.Ok? <==> Accepts(ecc.curve, ecc.auxRegistry, sig, pk, msgHash)
      ensures ctx.log == old(ctx.log) + Planned(ecc.curve, sig, pk, msgHash)[..LaidOut(ecc.curve, ecc.auxRegistry, sig)]
      ensures res.Ok? ==> ctx.log == old(ctx.log) + Planned(ecc.curve, sig, pk, msgHash)
    {
      var eccChip := ecc.Clone();
      var scalarChip := eccChip.ScalarFieldChip();
      var baseChip := eccChip.BaseFieldChip();
      ghost var done := old(ctx.log);
      ghost var scalarPlan := ScalarPlan(ecc.curve.n, sig, msgHash);

      var scalars := ScalarSteps(ctx, scalarChip, sig, msgHash);
      if scalars.Err? {
        SliceOfFirst(scalarPlan, Planned(ecc.curve, sig, pk, msgHash)[5..], ScalarStepsLaidOut(ecc.curve.n, sig));
        return Err;
      }
      var (u1, u2) := scalars.value;
      ghost var mid := ctx.log;
      ghost var pointPlan := PointPlan(ecc.curve, sig, pk, u1.value, u2.value);
      assert Planned(ecc.curve, sig, pk, msgHash) == scalarPlan + pointPlan;

      res := PointSteps(ctx, eccChip, baseChip, scalarChip, sig, pk, u1, u2);
      SliceOfSecond(scalarPlan, pointPlan, PointStepsLaidOut(ecc.auxRegistry));
    }

    /** Steps 1 to 4 of `verify`: range checks, w = s^-1, u1 = h·w and u2 = r·w. */
    method ScalarSteps(ctx: RegionCtx, scalarChip: IntegerChip, sig: AssignedEcdsaSig, msgHash: AssignedInteger)
      returns (res: Result<(AssignedInteger, AssignedInteger)>)
      requires scalarChip.Valid() && ctx.Valid()
      modifies ctx
      ensures ctx.Valid()
      ensures res.Ok? <==> ScalarsAccepted(scalarChip.modulus, sig)
      ensures res.Ok? ==> res.value == (
        AssignedInteger(FieldMul(msgHash.value, InverseWitness(sig.s.value, scalarChip.modulus), scalarChip.modulus), Remainder),
        AssignedInteger(FieldMul(sig.r.value, InverseWitness(sig.s.value, scalarChip.modulus), scalarChip.modulus), Remainder))
      ensures ctx.log == old(ctx.log) + ScalarPlan(scalarChip.modulus, sig, msgHash)[..ScalarStepsLaidOut(scalarChip.modulus, sig)]
    {
      ghost var plan := ScalarPlan(scalarChip.modulus, sig, msgHash);
      ghost var done := old(ctx.log);

      // 1. 0 < r, s < n: assert_not_zero includes the in-field check
      var nonZero := scalarChip.AssertNotZero(ctx, sig.r);
      assert ctx.log == done + plan[..1];
      if nonZero.Err? {
        return Err;
      }
      nonZero := scalarChip.AssertNotZero(ctx, sig.s);
      assert ctx.log == done + plan[..2];
      if nonZero.Err? {
        return Err;
      }

      // 2. w = s^-1 (mod n)
      var inverted := scalarChip.Invert(ctx, sig.s);
      assert ctx.log == done + plan[..3];
      if inverted.Err? {
        return Err;
      }
      var sInv := inverted.value.0;

      // 3. u1 = h * w (mod n), 4. u2 = r * w (mod n)
      var u1 := scalarChip.Mul(ctx, msgHash, sInv);
      var u2 := scalarChip.Mul(ctx, sig.r, sInv);
      assert ctx.log == done + plan[..5];
      res := Ok((u1, u2));
    }

    /** Steps 5 to 7 of `verify`: Q = u1·G + u2·PK, Q.x reduced into the scalar field, Q.x == r. */
    method PointSteps(ctx: RegionCtx, eccChip: GeneralEccChip, baseChip: IntegerChip, scalarChip: IntegerChip,
                      sig: AssignedEcdsaSig, pk: AssignedPublicKey, u1: AssignedInteger, u2: AssignedInteger)
      returns (res: Result<()>)
      requires eccChip.curve.Valid() && ctx.Valid()
      requires baseChip == eccChip.BaseFieldChip() && scalarChip == eccChip.ScalarFieldChip()
      modifies ctx
      ensures ctx.Valid()
      ensures res.Ok? <==>
        && (VERIFY_WINDOW_SIZE, 1) in eccChip.auxRegistry
        && sig.r == AssignedInteger(XCell(eccChip.curve, Add(eccChip.curve,
             ScalarMul(eccChip.curve, u1.value, Generator(eccChip.curve)),
             ScalarMul(eccChip.curve, u2.value, pk.point))) % eccChip.curve.p % eccChip.curve.n, Remainder)
      ensures ctx.log == old(ctx.log) + PointPlan(eccChip.curve, sig, pk, u1.value, u2.value)[..PointStepsLaidOut(eccChip.auxRegistry)]
    {
      ghost var plan := PointPlan(eccChip.curve, sig, pk, u1.value, u2.value);
      ghost var done := old(ctx.log);
      ghost var expected := Add(eccChip.curve, ScalarMul(eccChip.curve, u1.value, Generator(eccChip.curve)),
                                ScalarMul(eccChip.curve, u2.value, pk.point));

      // 5. Q = u1·G + u2·PK
      var generator := eccChip.AssignPoint(ctx, Generator(eccChip.curve));
      assert ctx.log == done + plan[..1];
      var g1 := eccChip.Mul(ctx, generator, u1, VERIFY_WINDOW_SIZE);
      if g1.Err? {
        return Err;
      }
      var g2 := eccChip.Mul(ctx, pk.point, u2, VERIFY_WINDOW_SIZE);
      var q := eccChip.Add(ctx, g1.value, g2.value);
      assert ctx.log == done + plan[..4];
      assert q == expected;

      // 6. Q.x reduced in the base field, then into the scalar field
      var qxInBase := baseChip.Reduce(ctx, eccChip.X(q));
      var qxInScalar := scalarChip.ReduceExternal(ctx, qxInBase);

      // 7. Q.x == r
      var equal := scalarChip.AssertStrictEqual(ctx, qxInScalar, sig.r);
      assert ctx.log == done + plan[..7];
      if equal.Err? {
        return Err;
      }
      res := Ok(());
    }
  }

  /** A prefix of a plan that ends inside its first part. */
  lemma SliceOfFirst(first: seq<Op>, second: seq<Op>, k: nat)
    requires k <= |first|
    ensures (first + second)[..k] == first[..k]
  {
  }

  /** A prefix of a plan that ends inside its second part. */
  lemma SliceOfSecond(first: seq<Op>, second: seq<Op>, k: nat)
    requires k <= |second|
    ensures (first + second)[..|first| + k] == first + second[..k]
  {
  }

  /**
   * `verify` lays out the inversion of s only after both range checks have
   * passed: the inversion is the third planned call, and a failing range
   * check ends the layout before it.
   */
  lemma {:induction false} InvertAfterRangeChecks(c: Curve, registry: set<AuxKey>, sig: AssignedEcdsaSig,
                                                  pk: AssignedPublicKey, h: AssignedInteger)
    requires c.Valid()
    ensures Planned(c, sig, pk, h)[2] == Op.Invert(c.n, sig.s.value)
    ensures Op.Invert(c.n, sig.s.value) in Planned(c, sig, pk, h)[..LaidOut(c, registry, sig)]
            ==> 0 < sig.r.value < c.n && 0 < sig.s.value < c.n
  {
    var plan := Planned(c, sig, pk, h);
    var k := LaidOut(c, registry, sig);
    assert plan[..5] == ScalarPlan(c.n, sig, h);
    if Op.Invert(c.n, sig.s.value) in plan[..k] {
      var i :| 0 <= i < k && plan[..k][i] == Op.Invert(c.n, sig.s.value);
      assert i == 2;
    }
  }

  // ---------------------------------------------------------------------------
  // The verification equation

  /**
   * (r, s) was made from secret key d, digest h and nonce k: R = k·G is not
   * the identity, r = mod_n(x(R)), and s·k == h + r·d in the scalar field.
   */
  predicate IsNonce(c: Curve, d: nat, h: nat, r: nat, s: nat, k: nat)
    requires c.Valid()
  {
    && 0 < k < c.n
    && AffineX(c, Point(k)) == Some(XCell(c, Point(k)))
    && ModN(c, XCell(c, Point(k))) == r
    && FieldMul(s, k, c.n) == FieldAdd(h, FieldMul(r, d, c.n), c.n)
  }

  ghost predicate SignedWithSomeNonce(c: Curve, d: nat, h: nat, r: nat, s: nat)
    requires c.Valid()
  {
    exists k :: IsNonce(c, d, h, r, s, k)
  }

  /** Q = u1·G + u2·PK is (w·(h + r·d))·G, where PK = d·G. */
  lemma {:induction false} VerifyPointIsCombination(c: Curve, sig: AssignedEcdsaSig, pk: AssignedPublicKey, h: AssignedInteger)
    requires c.Valid() && pk.point.log < c.n
    ensures VerifyPoint(c, sig, pk, h)
         == Point(FieldMul(InverseWitness(sig.s.value, c.n),
                           FieldAdd(h.value, FieldMul(sig.r.value, pk.point.log, c.n), c.n), c.n))
  {
    var n := c.n;
    var w := InverseWitness(sig.s.value, n);
    var d := pk.point.log;
    ResidueBelow(d, n);
    assert pk.point == ScalarMul(c, d, Generator(c));
    LinearCombination(c, FieldMul(h.value, w, n), FieldMul(sig.r.value, w, n), d);
    VerifyScalars(n, w, h.value, sig.r.value, d);
    var e := FieldAdd(FieldMul(h.value, w, n), FieldMul(FieldMul(sig.r.value, w, n), d, n), n);
    ResidueBelow(e, n);
  }

  /**
   * Soundness: a signature the circuit accepts, whose point Q is not the
   * identity, satisfies the signing equation with nonce k = log Q.
   */
  lemma {:induction false} AcceptedIsSigned(c: Curve, registry: set<AuxKey>, sig: AssignedEcdsaSig, pk: AssignedPublicKey, h: AssignedInteger)
    requires c.Valid() && pk.point.log < c.n
    requires Accepts(c, registry, sig, pk, h)
    requires !IsIdentity(c, VerifyPoint(c, sig, pk, h))
    ensures IsNonce(c, pk.point.log, h.value, sig.r.value, sig.s.value, VerifyPoint(c, sig, pk, h).log)
    ensures SignedWithSomeNonce(c, pk.point.log, h.value, sig.r.value, sig.s.value)
  {
    var n := c.n;
    var w := InverseWitness(sig.s.value, n);
    var e := FieldAdd(h.value, FieldMul(sig.r.value, pk.point.log, n), n);
    VerifyPointIsCombination(c, sig, pk, h);
    var k := VerifyPoint(c, sig, pk, h).log;
    assert k == FieldMul(w, e, n);
    InverseCancelsBack(n, sig.s.value, w, e);
    ResidueBelow(k, n);
    ResidueBelow(XCell(c, Point(k)), c.p);
    assert IsNonce(c, pk.point.log, h.value, sig.r.value, sig.s.value, k);
  }

  /**
   * Soundness without the exception, when the identity's x cells reduce to 0
   * modulo n: step 1 forces r > 0, so step 7 fails whenever Q is the identity.
   */
  lemma {:induction false} AcceptedIsSignedIfIdentityXIsZero(c: Curve, registry: set<AuxKey>, sig: AssignedEcdsaSig,
                                                             pk: AssignedPublicKey, h: AssignedInteger)
    requires c.Valid() && pk.point.log < c.n && c.xOf(0) % c.p % c.n == 0
    requires Accepts(c, registry, sig, pk, h)
    ensures !IsIdentity(c, VerifyPoint(c, sig, pk, h))
    ensures SignedWithSomeNonce(c, pk.point.log, h.value, sig.r.value, sig.s.value)
  {
    IdentityXReduced(c, VerifyPoint(c, sig, pk, h));
    AcceptedIsSigned(c, registry, sig, pk, h);
  }

  /** The x cells of the identity, reduced into the scalar field as step 6 does. */
  lemma IdentityXReduced(c: Curve, q: Point)
    requires c.Valid()
    ensures IsIdentity(c, q) ==> XCell(c, q) % c.p % c.n == c.xOf(0) % c.p % c.n
  {
    ResidueBelow(XCell(c, q), c.p);
  }

  /**
   * Without that hypothesis soundness fails at the identity: on a curve of
   * order 5 whose identity's x cells hold 1, the signature (1, 1) on digest 4
   * under the key 1·G is accepted, yet no nonce explains it (h + r·d = 0).
   */
  lemma AcceptedUnsignedAtIdentity()
    ensures var c := Curve(5, 7, x => 1);
            var sig := AssignedEcdsaSig(AssignedInteger(1, Remainder), AssignedInteger(1, Remainder));
            && Accepts(c, {(VERIFY_WINDOW_SIZE, 1)}, sig, AssignedPublicKey(Point(1)), AssignedInteger(4, Remainder))
            && IsIdentity(c, VerifyPoint(c, sig, AssignedPublicKey(Point(1)), AssignedInteger(4, Remainder)))
            && !SignedWithSomeNonce(c, 1, 4, 1, 1)
  {
    var c := Curve(5, 7, x => 1);
    var sig := AssignedEcdsaSig(AssignedInteger(1, Remainder), AssignedInteger(1, Remainder));
    assert InvertMod(1, 5) == Some(1);
    IdentityHasNoNonce(c, sig, AssignedPublicKey(Point(1)), AssignedInteger(4, Remainder));
  }

  /** The nonce of a signature is recovered by the verifier: Q = k·G (s invertible). */
  lemma {:induction false} NonceIsVerifyPoint(c: Curve, sig: AssignedEcdsaSig, pk: AssignedPublicKey, h: AssignedInteger, k: nat)
    requires c.Valid() && pk.point.log < c.n
    requires InvertMod(sig.s.value, c.n).Some?
    requires IsNonce(c, pk.point.log, h.value, sig.r.value, sig.s.value, k)
    ensures VerifyPoint(c, sig, pk, h) == Point(k)
  {
    var n := c.n;
    var w := InverseWitness(sig.s.value, n);
    assert FieldMul(sig.s.value, k, n) == FieldAdd(h.value, FieldMul(sig.r.value, pk.point.log, n), n);
    VerifyPointIsCombination(c, sig, pk, h);
    InverseCancels(n, sig.s.value, w, k);
  }

  /**
   * Completeness: a signature made with some nonce, with 0 < r, s < n and r
   * assigned as a canonical remainder, is accepted once the point chip holds
   * the window-2 auxiliary table (n prime).
   */
  lemma {:induction false} SignedIsAccepted(c: Curve, registry: set<AuxKey>, sig: AssignedEcdsaSig, pk: AssignedPublicKey, h: AssignedInteger, k: nat)
    requires c.Valid() && IsPrime(c.n) && pk.point.log < c.n
    requires 0 < sig.r.value < c.n && 0 < sig.s.value < c.n && sig.r.range == Remainder
    requires (VERIFY_WINDOW_SIZE, 1) in registry
    requires IsNonce(c, pk.point.log, h.value, sig.r.value, sig.s.value, k)
    ensures Accepts(c, registry, sig, pk, h)
    ensures VerifyPoint(c, sig, pk, h) == Point(k)
  {
    var n := c.n;
    ResidueBelow(sig.s.value, n);
    assert InvertMod(sig.s.value, n).Some?;
    NonceIsVerifyPoint(c, sig, pk, h, k);
    var x := XCell(c, Point(k));
    ResidueBelow(x, c.p);
    assert x % c.p % n == sig.r.value;
  }

  /**
   * When h + r·d == 0 the point Q is the identity: no nonce explains the
   * signature, and the circuit's answer rests on the x cells of the identity.
   */
  lemma {:induction false} IdentityHasNoNonce(c: Curve, sig: AssignedEcdsaSig, pk: AssignedPublicKey, h: AssignedInteger)
    requires c.Valid() && pk.point.log < c.n
    requires InvertMod(sig.s.value, c.n).Some?
    requires FieldAdd(h.value, FieldMul(sig.r.value, pk.point.log, c.n), c.n) == 0
    ensures IsIdentity(c, VerifyPoint(c, sig, pk, h))
    ensures !SignedWithSomeNonce(c, pk.point.log, h.value, sig.r.value, sig.s.value)
  {
    var n := c.n;
    var w := InverseWitness(sig.s.value, n);
    VerifyPointIsCombination(c, sig, pk, h);
    ResidueBelow(0, n);
    if k :| IsNonce(c, pk.point.log, h.value, sig.r.value, sig.s.value, k) {
      InverseCancels(n, sig.s.value, w, k);
      assert false;
    }
  }

  /** `verify` rejects r or s congruent to 0, and anything outside [1, n). */
  lemma RejectsZero(c: Curve, registry: set<AuxKey>, sig: AssignedEcdsaSig, pk: AssignedPublicKey, h: AssignedInteger)
    requires c.Valid()
    requires sig.r.value % c.n == 0 || sig.s.value % c.n == 0
    ensures !Accepts(c, registry, sig, pk, h)
  {
    ResidueBelow(sig.r.value, c.n);
    ResidueBelow(sig.s.value, c.n);
  }
}
