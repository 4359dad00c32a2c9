/**
 * The benchmark's off-circuit ECDSA (`run`): key generation, signing with a
 * given nonce, and the sanity check that verifies the signature before it is
 * handed to the circuit. Randomness (`random(OsRng)`) is a parameter: the
 * secret key, the message digest and the nonce are arbitrary scalars.
 *
 * Each `unwrap()` of the source is a place where `run` panics; the functions
 * return None there.
 */
module Oracle {
  import opened Wrappers
  import opened Scalar
  import opened Group
  import opened Region
  import opened Ecc
  import opened Ecdsa

  /** `(g * sk).to_affine()`: the public key d·G of secret key d. */
  function PublicKey(c: Curve, sk: nat): (pk: Point)
    requires c.Valid()
    ensures pk.log < c.n
  {
    ScalarMul(c, sk, Generator(c))
  }

  /**
   * Signing with nonce k: r = mod_n(x(k·G)) and s = k^-1 · (h + r·d).
   * None where `run` panics: k not invertible, or k·G without affine
   * coordinates.
   */
  function Sign(c: Curve, sk: nat, h: nat, k: nat): (sig: Option<(nat, nat)>)
    requires c.Valid()
    ensures sig.Some? ==> sig.value.0 < c.n && sig.value.1 < c.n
    ensures IsPrime(c.n) ==> (sig.None? <==> k % c.n == 0)
  {
    GeneratorMultiple(c, k);
    match InvertMod(k, c.n)
    case None => None
    case Some(kInv) =>
      match AffineX(c, ScalarMul(c, k, Generator(c)))
      case None => None
      case Some(x) =>
        var r := ModN(c, x);
        Some((r, FieldMul(kInv, FieldAdd(h, FieldMul(r, sk, c.n), c.n), c.n)))
  }

  /**
   * The sanity check: u1 = h·s^-1, u2 = r·s^-1, and r must equal
   * mod_n(x(u1·G + u2·PK)). None where it panics: s not invertible, or the
   * candidate point without affine coordinates.
   */
  function SanityCheck(c: Curve, pk: Point, h: nat, r: nat, s: nat): (ok: Option<bool>)
    requires c.Valid()
    ensures IsPrime(c.n) && s % c.n == 0 ==> ok.None?
  {
    match InvertMod(s, c.n)
    case None => None
    case Some(sInv) =>
      var u1 := FieldMul(h, sInv, c.n);
      var u2 := FieldMul(r, sInv, c.n);
      match AffineX(c, Add(c, ScalarMul(c, u1, Generator(c)), ScalarMul(c, u2, pk)))
      case None => None
      case Some(x) => Some(r == ModN(c, x))
  }

  /** The signature as the circuit receives it: r and s assigned as canonical remainders. */
  function AssignedSignature(r: nat, s: nat): (sig: AssignedEcdsaSig)
    ensures sig.r.value == r && sig.s.value == s
    ensures sig.r.range == Remainder && sig.s.range == Remainder
  {
    AssignedEcdsaSig(AssignedInteger(r, Remainder), AssignedInteger(s, Remainder))
  }

  /** The sanity check computes the same point Q as the circuit. */
  lemma SanityPointIsVerifyPoint(c: Curve, pk: Point, h: nat, r: nat, s: nat)
    requires c.Valid() && InvertMod(s, c.n).Some?
    ensures SanityCheck(c, pk, h, r, s)
         == match AffineX(c, VerifyPoint(c, AssignedSignature(r, s), AssignedPublicKey(pk), AssignedInteger(h, Remainder)))
            case None => None
            case Some(x) => Some(r == ModN(c, x))
  {
  }

  /** A signature made with nonce k satisfies the signing equation for that nonce. */
  lemma {:induction false} SignSatisfiesEquation(c: Curve, sk: nat, h: nat, k: nat, r: nat, s: nat)
    requires c.Valid() && k < c.n
    requires Sign(c, sk, h, k) == Some((r, s))
    ensures IsNonce(c, sk, h, r, s, k)
  {
    var n := c.n;
    assert 0 < k && !IsIdentity(c, Point(k)) by {
      ResidueBelow(k, n);
    }
    assert ModN(c, XCell(c, Point(k))) == r by {
      GeneratorMultiple(c, k);
      ResidueBelow(k, n);
    }
    var e := FieldAdd(h, FieldMul(r, sk, n), n);
    assert FieldMul(s, k, n) == e by {
      var kInv := InvertMod(k, n).value;
      assert s == FieldMul(kInv, e, n);
      InverseCancelsBack(n, k, kInv, e);
    }
  }

  /**
   * The sanity check of `run` (the assertion r == r_candidate) passes for
   * every signature `Sign` produces with a non-zero s; with s == 0 it panics
   * at `s.invert().unwrap()` (n prime).
   */
  lemma {:induction false} SanityCheckPasses(c: Curve, sk: nat, h: nat, k: nat, r: nat, s: nat)
    requires c.Valid() && IsPrime(c.n) && k < c.n
    requires Sign(c, sk, h, k) == Some((r, s))
    ensures s != 0 ==> SanityCheck(c, PublicKey(c, sk), h, r, s) == Some(true)
    ensures s == 0 ==> SanityCheck(c, PublicKey(c, sk), h, r, s).None?
  {
    var pk := PublicKey(c, sk);
    ResidueBelow(s, c.n);
    if s != 0 {
      SignSatisfiesEquation(c, sk, h, k, r, s);
      PublicKeyLog(c, sk, h, r, s, k);
      NonceIsVerifyPoint(c, AssignedSignature(r, s), AssignedPublicKey(pk), AssignedInteger(h, Remainder), k);
      SanityPointIsVerifyPoint(c, pk, h, r, s);
    }
  }

  /**
   * The public key of secret key d is d·G with d read modulo n, and a nonce
   * for d is a nonce for that logarithm.
   */
  lemma {:induction false} PublicKeyLog(c: Curve, sk: nat, h: nat, r: nat, s: nat, k: nat)
    requires c.Valid()
    ensures PublicKey(c, sk).log == sk % c.n
    ensures IsNonce(c, sk, h, r, s, k) ==> IsNonce(c, PublicKey(c, sk).log, h, r, s, k)
  {
    GeneratorMultiple(c, sk);
    assert FieldMul(r, sk, c.n) == FieldMul(r, sk % c.n, c.n) by {
      ModMul(r, sk, c.n);
    }
  }

  /**
   * A signature made by `Sign` with r and s both non-zero, assigned as
   * remainders, is accepted by the circuit once the window-2 table is
   * registered (n prime).
   */
  lemma {:induction false} CircuitAcceptsSigned(c: Curve, registry: set<AuxKey>, sk: nat, h: nat, k: nat, r: nat, s: nat)
    requires c.Valid() && IsPrime(c.n) && k < c.n
    requires Sign(c, sk, h, k) == Some((r, s)) && r != 0 && s != 0
    requires (VERIFY_WINDOW_SIZE, 1) in registry
    ensures Accepts(c, registry, AssignedSignature(r, s), AssignedPublicKey(PublicKey(c, sk)), AssignedInteger(h, Remainder))
  {
    SignSatisfiesEquation(c, sk, h, k, r, s);
    PublicKeyLog(c, sk, h, r, s, k);
    SignedIsAccepted(c, registry, AssignedSignature(r, s), AssignedPublicKey(PublicKey(c, sk)), AssignedInteger(h, Remainder), k);
  }
}
