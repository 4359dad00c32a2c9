# ECDSA verification circuit benchmark — a Dafny model

This project models the ECDSA benchmark of the halo2 circuit library
(`circuits/benches/ecdsa.rs`). It covers:

- `EcdsaChip::verify`: the in-circuit check of an ECDSA signature
  (r, s) on a message digest h under a public key PK. Its steps are those of
  SEC 1 v2.0 section 4.1.4:
  - 0 < r, s < n;
  - w = s^-1;
  - u1 = h·w and u2 = r·w;
  - Q = u1·G + u2·PK;
  - x(Q) is reduced into the base field and then into the scalar field;
  - the result must be strictly equal to r.
- `EcdsaVerifyCircuit::synthesize`: the region that assigns the auxiliary
  generator and its table, the region that assigns the witnesses and runs
  `verify`, and the range-check table loaded last.
- The off-circuit half of `run`: key generation, signing with a nonce k,
  `mod_n`, and the sanity check that re-verifies the signature before it is
  handed to the circuit.

How the model represents the system:

- **Curve group** (`group.dfy`): the benchmark curve has prime order n and
  cofactor 1, so a point is represented by its discrete logarithm with
  respect to G. Addition and scalar multiplication are arithmetic modulo n.
  The curve supplies the affine x-coordinate of each point (`xOf`).
- **Scalar field** (`scalar.dfy`): products and sums modulo n, and inversion
  by the extended Euclidean algorithm.
- **Regions** (`region.dfy`): a `RegionCtx` is a cursor that records each
  chip call it lays out. A region's content is that sequence of calls.
- **Chips** (`integer_chip.dfy`, `ecc_chip.dfy`): each chip call is modelled
  by what it constrains, namely the value it assigns and the condition under
  which its constraints can be satisfied. The point chip is a class whose
  auxiliary generator and table registry change as regions are laid out.
- **`verify`** (`ecdsa.dfy`): a method on the chip. It is proved to succeed
  exactly when the signature is accepted (`Accepts`). It lays out the twelve
  planned calls up to and including the first step that fails, and all of
  them when it succeeds. In particular the inversion of s is laid out only
  after both range checks have passed.
- **Completeness** of that acceptance condition, relative to the ECDSA
  signing equation s·k = h + r·d with r = x(k·G) mod n: a signature made
  with a nonce, with 0 < r, s < n, is accepted when the window-2 table is
  registered and n is prime.
- **Soundness**: an accepted signature satisfies the signing equation for
  some nonce, provided the point Q = u1·G + u2·PK is not the identity. The
  identity has no affine coordinates, and what the point chip's x cells hold
  for it is not known to this model. When those cells reduce to 0 modulo n,
  soundness holds without that proviso. When they do not, an accepted
  signature need not come from any nonce; `Ecdsa.AcceptedUnsignedAtIdentity`
  gives an example.
- **Off-circuit signer and sanity check** (`oracle.dfy`): for prime n, the
  sanity check passes for every signature the signer makes with s ≠ 0, and
  panics when s = 0. The circuit accepts every signature the signer makes
  with r ≠ 0 and s ≠ 0, once the window-2 table is registered.
- **Synthesis** (`circuit.dfy`): modelled as the sequence of events a
  layouter receives. The circuit's witnesses and parameters (the struct
  `EcdsaVerifyCircuit`, `ecdsa.rs:181-188`) form the datatype
  `Circuit.EcdsaVerifyCircuit`.

Window size. The circuit has a `window_size` field (`ecdsa.rs:187`):

- `synthesize` registers the auxiliary table for `self.window_size`
  (`ecdsa.rs:233`).
- `verify` always multiplies with window size 2 (`ecdsa.rs:145-146`),
  whatever that field holds.
- The point chip's `mul` is not part of this model. The model assumes that a
  multiplication with window size w needs the auxiliary table registered for
  (w, 1) (`Ecc.GeneralEccChip.Mul`).
- Under that assumption, only a circuit with window size 2 can be satisfied
  (`Circuit.OnlyVerifyWindowSatisfies`). The benchmark always builds its
  circuit with window size 2 (`ecdsa.rs:333`, `ecdsa.rs:352`).

## Model

| member | source | states |
|---|---|---|
| Scalar.FieldMul | circuits/benches/ecdsa.rs:310 | a product in the scalar field is the canonical residue below n congruent to a·b |
| Scalar.FieldAdd | circuits/benches/ecdsa.rs:310 | a sum in the scalar field is the canonical residue below n congruent to a + b |
| Scalar.Egcd | circuits/benches/ecdsa.rs:135 | the model's own way of computing the inverse witness of `invert` (the source does not say how): the extended Euclidean algorithm returns g and Bézout coefficients with a·x + b·y = g, where g is positive unless both inputs are 0 and divides both inputs |
| Scalar.InvertMod | circuits/benches/ecdsa.rs:135 | a returned inverse w is below n and satisfies s·w ≡ 1 (mod n); for prime n an inverse exists exactly when s is not 0 mod n |
| Scalar.UnitQuotient | circuits/benches/ecdsa.rs:135 | the quotient witness of an inversion: a·w = 1 + q·n |
| Scalar.VerifyScalars | circuits/benches/ecdsa.rs:137-141 | h·w + (r·w)·d = w·(h + r·d) in the scalar field: u1 + u2·d factors through w |
| Scalar.InverseCancels | circuits/benches/ecdsa.rs:135 | when s·w ≡ 1, w·(s·k) = k for every canonical k |
| Scalar.InverseCancelsBack | circuits/benches/ecdsa.rs:302 | when s·w ≡ 1, s·(w·e) = e and (w·e)·s = e for every canonical e |
| Group.Generator | circuits/benches/ecdsa.rs:288 | the generator is not the identity |
| Group.Add | circuits/benches/ecdsa.rs:317 | point addition yields a canonical point, and the identity is neutral on either side |
| Group.ScalarMul | circuits/benches/ecdsa.rs:293 | k·a is a canonical point; it is the identity when n divides k or a is the identity; 1·a = a |
| Group.AdditionLaws | circuits/benches/ecdsa.rs:317 | point addition is commutative and associative, and a + (−a) is the identity |
| Group.ScalarMulLaws | circuits/benches/ecdsa.rs:315-317 | k·(a + b) = k·a + k·b and j·(k·a) = (j·k)·a |
| Group.XCell | circuits/benches/ecdsa.rs:151 | the x cells of a point hold a base-field element below p; for the identity, the value the curve assigns to it |
| Group.AffineX | circuits/benches/ecdsa.rs:305 | `coordinates().unwrap()` fails exactly at the identity; otherwise it yields the point's x-coordinate, below p |
| Group.ModN | circuits/benches/ecdsa.rs:283-286 | `mod_n` returns a value below n, congruent to its input mod n, and equal to its input when the input is already below n |
| Group.GeneratorMultiple | circuits/benches/ecdsa.rs:293 | k·G is the point of logarithm k mod n, and it is the identity exactly when n divides k |
| Group.LinearCombination | circuits/benches/ecdsa.rs:144-147 | a·G + b·(d·G) = (a + b·d)·G |
| Region.RegionCtx.constructor | circuits/benches/ecdsa.rs:230 | a new region cursor starts at the given offset with nothing laid out |
| Region.RegionCtx.Record | circuits/benches/ecdsa.rs:131-156 | laying out a call appends it to the region and advances the cursor by one |
| Integer.IntegerChip.AssignInteger | circuits/benches/ecdsa.rs:253-264 | assigns the value with the requested range and lays out one call |
| Integer.IntegerChip.AssertNotZero | circuits/benches/ecdsa.rs:127-132 | satisfiable exactly when 0 < a < n, since the in-field check is included |
| Integer.IntegerChip.Invert | circuits/benches/ecdsa.rs:135 | succeeds exactly when the value has an inverse; returns that inverse as a remainder and a quotient q with a·w = 1 + q·n |
| Integer.IntegerChip.Mul | circuits/benches/ecdsa.rs:137-141 | returns the product modulo the chip's modulus, as a remainder |
| Integer.IntegerChip.Reduce | circuits/benches/ecdsa.rs:149-152 | returns the value reduced modulo the chip's own modulus (the base field for Q.x) |
| Integer.IntegerChip.ReduceExternal | circuits/benches/ecdsa.rs:153 | returns the base-field value reduced modulo the scalar field |
| Integer.IntegerChip.AssertStrictEqual | circuits/benches/ecdsa.rs:155-156 | satisfiable exactly when both integers have the same value and the same range |
| Ecc.GeneralEccChip.constructor | circuits/benches/ecdsa.rs:223-224 | a new point chip has no auxiliary generator and no auxiliary tables |
| Ecc.GeneralEccChip.Clone | circuits/benches/ecdsa.rs:108-110 | a clone is a fresh chip with the same curve, auxiliary generator and tables |
| Ecc.GeneralEccChip.ScalarFieldChip | circuits/benches/ecdsa.rs:124 | the scalar-field chip works modulo n |
| Ecc.GeneralEccChip.BaseFieldChip | circuits/benches/ecdsa.rs:125 | the base-field chip works modulo p |
| Ecc.GeneralEccChip.AssignAuxGenerator | circuits/benches/ecdsa.rs:232 | sets the auxiliary generator and leaves the tables alone |
| Ecc.GeneralEccChip.AssignAux | circuits/benches/ecdsa.rs:233 | succeeds exactly when an auxiliary generator is set; then registers the table for (window, pairs); otherwise changes nothing |
| Ecc.GeneralEccChip.AssignPoint | circuits/benches/ecdsa.rs:144 | assigns the given point and lays out one call |
| Ecc.GeneralEccChip.Mul | circuits/benches/ecdsa.rs:145-146 | succeeds exactly when the table for (window, 1) is registered; returns scalar·point; lays out nothing when it fails |
| Ecc.GeneralEccChip.Add | circuits/benches/ecdsa.rs:147 | returns the group sum of the two points |
| Ecc.GeneralEccChip.X | circuits/benches/ecdsa.rs:151 | the x cells of a point hold its x-coordinate, below p |
| Ecdsa.InverseWitness | circuits/benches/ecdsa.rs:135 | the w of step 2 is an inverse of s whenever s has one |
| Ecdsa.EcdsaChip.constructor | circuits/benches/ecdsa.rs:98-100 | the ECDSA chip wraps the given point chip |
| Ecdsa.VerifyPoint | circuits/benches/ecdsa.rs:143-147 | Q = u1·G + u2·PK with u1 = h·w and u2 = r·w is a canonical point (its value is given by `VerifyPointIsCombination`) |
| Ecdsa.ScalarStepsLaidOut | circuits/benches/ecdsa.rs:131-141 | steps 1-4 lay out their calls up to and including the first that fails; all five exactly when 0 < r, s < n and s is invertible |
| Ecdsa.PointStepsLaidOut | circuits/benches/ecdsa.rs:144-156 | steps 5-7 lay out only the generator when the window-2 table is missing, and all seven calls otherwise |
| Ecdsa.LaidOut | circuits/benches/ecdsa.rs:131-156 | `verify` goes past step 4 exactly when the scalar checks pass, and lays out all twelve calls exactly when they pass and the window-2 table is registered |
| Ecdsa.EcdsaChip.Verify | circuits/benches/ecdsa.rs:116-159 | succeeds exactly when the signature is accepted; lays out the planned calls up to and including the first failing step, all twelve on success |
| Ecdsa.EcdsaChip.ScalarSteps | circuits/benches/ecdsa.rs:127-141 | steps 1-4 succeed exactly when 0 < r, s < n and s is invertible; they return u1 = h·w and u2 = r·w and lay out their calls up to and including the first that fails |
| Ecdsa.EcdsaChip.PointSteps | circuits/benches/ecdsa.rs:143-156 | steps 5-7 succeed exactly when the window-2 table is registered and r equals x(u1·G + u2·PK) mod p mod n as a remainder; a missing table stops them after the generator, otherwise all seven calls are laid out |
| Ecdsa.InvertAfterRangeChecks | circuits/benches/ecdsa.rs:131-135 | the inversion of s is laid out only when both range checks 0 < r < n and 0 < s < n have passed |
| Ecdsa.PlannedMulsUseVerifyWindow | circuits/benches/ecdsa.rs:145-146 | every scalar multiplication `verify` lays out asks for window size 2 |
| Ecdsa.VerifyPointIsCombination | circuits/benches/ecdsa.rs:137-147 | Q = u1·G + u2·PK equals (w·(h + r·d))·G for PK = d·G |
| Ecdsa.AcceptedIsSigned | circuits/benches/ecdsa.rs:116-159 | soundness: an accepted signature whose Q is not the identity satisfies the signing equation with nonce log Q |
| Ecdsa.AcceptedIsSignedIfIdentityXIsZero | circuits/benches/ecdsa.rs:116-159 | soundness without exception when the identity's x cells reduce to 0 mod n: Q is never the identity, and every accepted signature satisfies the signing equation for some nonce |
| Ecdsa.AcceptedUnsignedAtIdentity | circuits/benches/ecdsa.rs:143-156 | on a curve of order 5 whose identity's x cells hold 1, the signature (1, 1) on digest 4 under key 1·G is accepted with Q the identity, yet no nonce explains it |
| Ecdsa.NonceIsVerifyPoint | circuits/benches/ecdsa.rs:143-147 | for a signature made with nonce k, the verifier's Q is k·G |
| Ecdsa.SignedIsAccepted | circuits/benches/ecdsa.rs:116-159 | completeness: a signature made with some nonce, with 0 < r, s < n and r a remainder, is accepted once the window-2 table is registered (n prime) |
| Ecdsa.IdentityHasNoNonce | circuits/benches/ecdsa.rs:147 | when h + r·d = 0, Q is the identity and no nonce explains the signature |
| Ecdsa.RejectsZero | circuits/benches/ecdsa.rs:127-132 | r or s congruent to 0 is always rejected |
| Oracle.PublicKey | circuits/benches/ecdsa.rs:293 | the public key d·G is a canonical point |
| Oracle.Sign | circuits/benches/ecdsa.rs:301-310 | signing returns canonical r and s; for prime n it fails (panics) exactly when k ≡ 0 |
| Oracle.SanityCheck | circuits/benches/ecdsa.rs:312-324 | the sanity check panics whenever s ≡ 0 (n prime) |
| Oracle.SanityPointIsVerifyPoint | circuits/benches/ecdsa.rs:314-322 | the sanity check computes the same point Q as `verify` |
| Oracle.SignSatisfiesEquation | circuits/benches/ecdsa.rs:301-310 | a signature made with nonce k < n satisfies the signing equation for k |
| Oracle.SanityCheckPasses | circuits/benches/ecdsa.rs:312-324 | the assertion r == r_candidate holds for every signature made with s ≠ 0; with s = 0 the check panics |
| Oracle.PublicKeyLog | circuits/benches/ecdsa.rs:293 | the public key of d has logarithm d mod n, and a nonce for d is a nonce for that logarithm |
| Oracle.CircuitAcceptsSigned | circuits/benches/ecdsa.rs:292-310 | a signature from the signer with r, s ≠ 0 is accepted for the signer's public key once the window-2 table is registered |
| Circuit.Layouter.constructor | circuits/benches/ecdsa.rs:221 | the layouter starts with no events |
| Circuit.Layouter.CommitRegion | circuits/benches/ecdsa.rs:226-236 | a committed region is appended with its name and calls |
| Circuit.Layouter.LoadRangeTable | circuits/benches/ecdsa.rs:173-178 | `config_range` loads the range table after everything else |
| Circuit.EcdsaVerifyCircuit.Registry | circuits/benches/ecdsa.rs:233 | the first region registers the window-2 table exactly when the circuit's window size is 2 |
| Circuit.EcdsaVerifyCircuit.Synthesize | circuits/benches/ecdsa.rs:218-280 | synthesis succeeds exactly when `verify` accepts the witnesses; then the layouter has received both regions and the range table; otherwise only the auxiliary region |
| Circuit.EcdsaVerifyCircuit.AssignAuxValues | circuits/benches/ecdsa.rs:226-236 | the first region sets the auxiliary generator and registers the table for (window size, 1); it cannot fail |
| Circuit.EcdsaVerifyCircuit.AssignMainRegion | circuits/benches/ecdsa.rs:242-269 | the second region succeeds exactly when `verify` accepts; it lays out the four witnesses and then the calls of `verify` |
| Circuit.LayoutOrder | circuits/benches/ecdsa.rs:226-277 | in the layout of a window-2 circuit, every multiplication finds its table registered by an earlier region, and the range table comes last |
| Circuit.OnlyVerifyWindowSatisfies | circuits/benches/ecdsa.rs:145-146 | a satisfied circuit has window size 2 |
| Circuit.SynthesisCompleteness | circuits/benches/ecdsa.rs:347-354 | the circuit `run` builds (window 2, public key of sk, signature from the signer with r, s ≠ 0) is satisfied (n prime) |
| Circuit.SynthesisSoundness | circuits/benches/ecdsa.rs:218-280 | a satisfied circuit whose Q is not the identity carries a signature made by its public key's secret key with some nonce |
| Circuit.SynthesisSoundnessIfIdentityXIsZero | circuits/benches/ecdsa.rs:218-280 | when the identity's x cells reduce to 0 mod n, every satisfied circuit carries a signature made by its public key's secret key with some nonce |

## Left out

- The limb decomposition of non-native integers and the arithmetic gates and range checks of the chips are not modelled. The integer and point chips are not part of this model. Each chip call is modelled by the value it assigns and the condition under which its constraints can be satisfied.
- Cells, rows and offsets inside a region are not modelled. Each chip call is one entry in the region's log, and the cursor advances by one per call.
- The `?` errors of cell assignment itself, which the layouter could report, are not modelled. Assignment of witnesses never fails in the model.
- A region whose assignment fails is not recorded. `Synthesize` stops before committing it, whereas the floor planner (`SimpleFloorPlanner`) may have laid out part of it.
- The x cells of the point chip for the identity (which has no affine coordinates) are taken from the curve parameter `xOf`. The model does not decide what they hold.
- `reduce_external` assumes that the base and scalar fields have the same number of limbs. The model reduces the value modulo n without that limit.
- `configure`, `EcdsaVerifyConfig::ecc_chip_config`, `without_witnesses` and the `rns` parameters are constraint-system plumbing and are not modelled.
- The public-input exposure in `synthesize` is commented out in the source and is not modelled.
- Key generation for the proving system (`keygen_vk`, `keygen_pk`), the KZG parameters, proof creation and verification, and the Criterion timing loops are not modelled (`ecdsa.rs:326-403`). The circuit with unknown witnesses is not modelled either.
- The randomness of `OsRng` is not modelled. The secret key, digest, nonce and auxiliary generator are parameters, so every proved property holds for all of them.
- Projective arithmetic and the concrete curve equation are not modelled. Points are their discrete logarithms (prime order, cofactor 1), and x-coordinates come from the curve parameter.
- Integer.IntegerChip.Invert: the second value `invert` assigns (the quotient) is stated only through its defining identity a·w = 1 + q·n, not through the limb form of the chip.
- Ecdsa.AcceptedIsSigned: assumes that Q is not the identity. What the point chip's x cells hold for the identity is not known to this model, and for some values an unsigned signature is accepted (`Ecdsa.AcceptedUnsignedAtIdentity`). `Ecdsa.AcceptedIsSignedIfIdentityXIsZero` drops the assumption when those cells reduce to 0 modulo n.
- Circuit.SynthesisSoundness: assumes that Q is not the identity, for the same reason. `Circuit.SynthesisSoundnessIfIdentityXIsZero` drops the assumption when the identity's x cells reduce to 0 modulo n.
- Circuit.LayoutOrder: assumes window size 2 rather than a satisfied circuit. A satisfied circuit has window size 2 by `OnlyVerifyWindowSatisfies`.
