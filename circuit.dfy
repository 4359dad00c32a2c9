/**
 * The benchmark circuit (`EcdsaVerifyCircuit::synthesize`): one region that
 * registers the auxiliary generator and the auxiliary table for the circuit's
 * window size, one region that assigns the signature, the public key and the
 * digest and runs `verify`, and finally the range-check lookup table.
 *
 * The layouter is modelled by the sequence of layout events it receives: each
 * region whose assignment succeeds is committed with the chip calls it made,
 * and a region whose assignment fails aborts the synthesis.
 */
module Circuit {
  import opened Wrappers
  import opened Scalar
  import opened Group
  import opened Region
  import opened Integer
  import opened Ecc
  import opened Ecdsa
  import opened Oracle

  /** What the layouter receives, in order. */
  datatype LayoutEvent =
    | AssignedRegion(name: string, ops: seq<Op>)
    | RangeTableLoaded

  const AUX_REGION: string := "assign aux values"
  const MAIN_REGION: string := "region 0"

  class Layouter {
    var events: seq<LayoutEvent>

    constructor ()
      ensures events == []
    {
      events := [];
    }

    /** `assign_region` for a region whose assignment succeeded. */
    method CommitRegion(name: string, ops: seq<Op>)
      modifies this
      ensures events == old(events) + [AssignedRegion(name, ops)]
    {
      events := events + [AssignedRegion(name, ops)];
    }

    /** `config_range`: `RangeChip::load_table`. */
    method LoadRangeTable()
      modifies this
      ensures events == old(events) + [RangeTableLoaded]
    {
      events := events + [RangeTableLoaded];
    }
  }

  /**
   * The circuit's witnesses and parameters: public key, signature (r, s),
   * digest, the auxiliary generator and the window size. `curve` is the
   * curve the circuit is instantiated with.
   */
  datatype EcdsaVerifyCircuit = EcdsaVerifyCircuit(
    curve: Curve,
    publicKey: Point,
    signature: (nat, nat),
    msgHash: nat,
    auxGenerator: Point,
    windowSize: nat)
  {
    /** The tables the point chip holds once the first region is laid out. */
    function Registry(): (registry: set<AuxKey>)
      ensures (VERIFY_WINDOW_SIZE, 1) in registry <==> windowSize == VERIFY_WINDOW_SIZE
    {
      {(windowSize, 1)}
    }

    /** The first region: auxiliary generator, then its table for (window size, 1). */
    function AuxRegion(): LayoutEvent {
      AssignedRegion(AUX_REGION, [AssignAuxGenerator(auxGenerator), AssignAux(windowSize, 1)])
    }

    /** The witnesses the main region assigns before calling `verify`. */
    function Witnesses(): seq<Op>
      requires curve.Valid()
    {
      [ Op.AssignInteger(curve.n, signature.0, Remainder), Op.AssignInteger(curve.n, signature.1, Remainder),
        Op.AssignPoint(publicKey), Op.AssignInteger(curve.n, msgHash, Remainder) ]
    }

    /** The layout of a successful synthesis. */
    function Layout(): seq<LayoutEvent>
      requires curve.Valid()
    {
      [ AuxRegion(),
        AssignedRegion(MAIN_REGION, Witnesses() + Planned(curve, AssignedSignature(signature.0, signature.1),
                                                          AssignedPublicKey(publicKey), AssignedInteger(msgHash, Remainder))),
        RangeTableLoaded ]
    }

    /** `verify` accepts the circuit's witnesses with the tables the first region registered. */
    predicate Satisfied()
      requires curve.Valid()
    {
      Accepts(curve, Registry(), AssignedSignature(signature.0, signature.1),
              AssignedPublicKey(publicKey), AssignedInteger(msgHash, Remainder))
    }

    /**
     * `synthesize`. It succeeds exactly when `verify` accepts; then the
     * layouter has received the two regions and the range table. Otherwise
     * only the first region was committed.
     */
    method Synthesize(layouter: Layouter) returns (res: Result<()>)
      requires curve.Valid()
      modifies layouter
      ensures res.Ok? <==> Satisfied()
      ensures res.Ok? ==> layouter.events == old(layouter.events) + Layout()
      ensures res.Err? ==> layouter.events == old(layouter.events) + [AuxRegion()]
    {
      var eccChip := new GeneralEccChip(curve);

      var auxOps := AssignAuxValues(eccChip);
      layouter.CommitRegion(AUX_REGION, auxOps);

      var ecdsaEcc := eccChip.Clone();
      var ecdsaChip := new EcdsaChip(ecdsaEcc);
      var mainOps := AssignMainRegion(eccChip, ecdsaChip);
      if mainOps.Err? {
        return Err;
      }
      layouter.CommitRegion(MAIN_REGION, mainOps.value);

      layouter.LoadRangeTable();
      res := Ok(());
    }

    /**
     * The closure of region "assign aux values": the auxiliary generator,
     * then the auxiliary table for (window size, 1). It returns the calls it
     * laid out; it cannot fail, since the generator is assigned first.
     */
    method AssignAuxValues(eccChip: GeneralEccChip) returns (ops: seq<Op>)
      modifies eccChip
      ensures eccChip.auxGenerator == Some(auxGenerator)
      ensures eccChip.auxRegistry == old(eccChip.auxRegistry) + {(windowSize, 1)}
      ensures ops == AuxRegion().ops
    {
      var ctx := new RegionCtx(0);
      eccChip.AssignAuxGenerator(ctx, auxGenerator);
      var aux := eccChip.AssignAux(ctx, windowSize, 1);
      if aux.Err? {
        assert false;
      }
      ops := ctx.log;
    }

    /**
     * The closure of region "region 0": r, s and the digest assigned as
     * remainders, the public key as a point, then `verify`. On success it
     * returns the calls it laid out.
     */
    method AssignMainRegion(eccChip: GeneralEccChip, ecdsaChip: EcdsaChip) returns (res: Result<seq<Op>>)
      requires curve.Valid() && eccChip.curve == curve && ecdsaChip.ecc.curve == curve
      ensures res.Ok? <==> Accepts(curve, ecdsaChip.ecc.auxRegistry, AssignedSignature(signature.0, signature.1),
                                   AssignedPublicKey(publicKey), AssignedInteger(msgHash, Remainder))
      ensures res.Ok? ==> res.value == Layout()[1].ops
    {
      var scalarChip := eccChip.ScalarFieldChip();
      var ctx := new RegionCtx(0);
      var r := scalarChip.AssignInteger(ctx, signature.0, Remainder);
      var s := scalarChip.AssignInteger(ctx, signature.1, Remainder);
      var sig := AssignedEcdsaSig(r, s);
      var pk := eccChip.AssignPoint(ctx, publicKey);
      var h := scalarChip.AssignInteger(ctx, msgHash, Remainder);
      assert ctx.log == Witnesses();
      var verified := ecdsaChip.Verify(ctx, sig, AssignedPublicKey(pk), h);
      if verified.Err? {
        return Err;
      }
      res := Ok(ctx.log);
    }
  }

  /** Every call of a successful layout that uses an auxiliary table finds it registered by an earlier region. */
  ghost predicate TablesRegisteredBefore(events: seq<LayoutEvent>) {
    forall i, k :: 0 <= i < |events| && events[i].AssignedRegion? && 0 <= k < |events[i].ops| && events[i].ops[k].EccMul?
      ==> exists j :: 0 <= j < i && events[j].AssignedRegion? && AssignAux(events[i].ops[k].windowSize, 1) in events[j].ops
  }

  /**
   * In the layout of a circuit with window size 2 (the only one that
   * synthesizes) every multiplication finds its auxiliary table registered by
   * an earlier region, and the range table is loaded last.
   */
  lemma {:induction false} LayoutOrder(circuit: EcdsaVerifyCircuit)
    requires circuit.curve.Valid() && circuit.windowSize == VERIFY_WINDOW_SIZE
    ensures TablesRegisteredBefore(circuit.Layout())
    ensures circuit.Layout()[|circuit.Layout()| - 1] == RangeTableLoaded
  {
    var planned := Planned(circuit.curve, AssignedSignature(circuit.signature.0, circuit.signature.1),
                           AssignedPublicKey(circuit.publicKey), AssignedInteger(circuit.msgHash, Remainder));
    PlannedMulsUseVerifyWindow(circuit.curve, AssignedSignature(circuit.signature.0, circuit.signature.1),
                               AssignedPublicKey(circuit.publicKey), AssignedInteger(circuit.msgHash, Remainder));
    var main := circuit.Witnesses() + planned;
    forall k | 0 <= k < |main| && main[k].EccMul?
      ensures main[k].windowSize == VERIFY_WINDOW_SIZE
    {
      assert k >= 4 && main[k] == planned[k - 4];
    }
    RegisteredBeforeMuls(circuit.AuxRegion().ops, main, VERIFY_WINDOW_SIZE);
  }

  /** A two-region layout whose first region registers the table every multiplication of the second uses. */
  lemma {:induction false} RegisteredBeforeMuls(aux: seq<Op>, main: seq<Op>, w: nat)
    requires AssignAux(w, 1) in aux && forall k :: 0 <= k < |aux| ==> !aux[k].EccMul?
    requires forall k :: 0 <= k < |main| && main[k].EccMul? ==> main[k].windowSize == w
    ensures TablesRegisteredBefore([AssignedRegion(AUX_REGION, aux), AssignedRegion(MAIN_REGION, main), RangeTableLoaded])
  {
    var layout := [AssignedRegion(AUX_REGION, aux), AssignedRegion(MAIN_REGION, main), RangeTableLoaded];
    forall i, k | 0 <= i < |layout| && layout[i].AssignedRegion? && 0 <= k < |layout[i].ops| && layout[i].ops[k].EccMul?
      ensures exists j :: 0 <= j < i && layout[j].AssignedRegion? && AssignAux(layout[i].ops[k].windowSize, 1) in layout[j].ops
    {
      assert i == 1 && layout[0].ops == aux;
    }
  }

  /** Only window size 2 synthesizes: `verify` asks for the window-2 table whatever the circuit registered. */
  lemma OnlyVerifyWindowSatisfies(circuit: EcdsaVerifyCircuit)
    requires circuit.curve.Valid() && circuit.Satisfied()
    ensures circuit.windowSize == VERIFY_WINDOW_SIZE
  {
  }

  /**
   * Completeness of the benchmark: with window size 2, a signature made by
   * `run` for the public key of its secret key, with r and s non-zero, is
   * accepted (n prime).
   */
  lemma {:induction false} SynthesisCompleteness(circuit: EcdsaVerifyCircuit, sk: nat, k: nat)
    requires circuit.curve.Valid() && IsPrime(circuit.curve.n) && k < circuit.curve.n
    requires circuit.windowSize == VERIFY_WINDOW_SIZE
    requires circuit.publicKey == PublicKey(circuit.curve, sk)
    requires Sign(circuit.curve, sk, circuit.msgHash, k) == Some(circuit.signature)
    requires circuit.signature.0 != 0 && circuit.signature.1 != 0
    ensures circuit.Satisfied()
  {
    CircuitAcceptsSigned(circuit.curve, circuit.Registry(), sk, circuit.msgHash, k, circuit.signature.0, circuit.signature.1);
  }

  /**
   * Soundness: a satisfied circuit whose point Q is not the identity carries
   * a signature made by the key of its public key with some nonce.
   */
  lemma {:induction false} SynthesisSoundness(circuit: EcdsaVerifyCircuit)
    requires circuit.curve.Valid() && circuit.Satisfied() && circuit.publicKey.log < circuit.curve.n
    requires !IsIdentity(circuit.curve, VerifyPoint(circuit.curve, AssignedSignature(circuit.signature.0, circuit.signature.1),
                                                    AssignedPublicKey(circuit.publicKey), AssignedInteger(circuit.msgHash, Remainder)))
    ensures SignedWithSomeNonce(circuit.curve, circuit.publicKey.log, circuit.msgHash, circuit.signature.0, circuit.signature.1)
  {
    AcceptedIsSigned(circuit.curve, circuit.Registry(), AssignedSignature(circuit.signature.0, circuit.signature.1),
                     AssignedPublicKey(circuit.publicKey), AssignedInteger(circuit.msgHash, Remainder));
  }

  /**
   * Soundness for every satisfied circuit, when the identity's x cells reduce
   * to 0 modulo n: its signature was made by the key of its public key.
   */
  lemma {:induction false} SynthesisSoundnessIfIdentityXIsZero(circuit: EcdsaVerifyCircuit)
    requires circuit.curve.Valid() && circuit.Satisfied() && circuit.publicKey.log < circuit.curve.n
    requires circuit.curve.xOf(0) % circuit.curve.p % circuit.curve.n == 0
    ensures SignedWithSomeNonce(circuit.curve, circuit.publicKey.log, circuit.msgHash, circuit.signature.0, circuit.signature.1)
  {
    AcceptedIsSignedIfIdentityXIsZero(circuit.curve, circuit.Registry(), AssignedSignature(circuit.signature.0, circuit.signature.1),
                                      AssignedPublicKey(circuit.publicKey), AssignedInteger(circuit.msgHash, Remainder));
  }
}
