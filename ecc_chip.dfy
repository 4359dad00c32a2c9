/**
 * The point chip (`GeneralEccChip`). Its point formulas and windowed
 * multiplication are not modelled; what is modelled is the state it keeps
 * between calls: the auxiliary generator and the auxiliary tables registered
 * per (window size, number of pairs). A variable-base multiplication can only
 * use a table that was registered before it.
 */
module Ecc {
  import opened Wrappers
  import opened Group
  import opened Region
  import opened Integer

  /** Key of an auxiliary table: (window size, number of pairs). */
  type AuxKey = (nat, nat)

  class GeneralEccChip {
    const curve: Curve
    var auxGenerator: Option<Point>
    var auxRegistry: set<AuxKey>

    /** `GeneralEccChip::new`: no auxiliary generator, no tables. */
    constructor (curve: Curve)
      ensures this.curve == curve && auxGenerator == None && auxRegistry == {}
    {
      this.curve := curve;
      auxGenerator := None;
      auxRegistry := {};
    }

    /** `clone`: a new chip with the same auxiliary state. */
    method Clone() returns (e: GeneralEccChip)
      ensures fresh(e)
      ensures e.curve == curve && e.auxGenerator == auxGenerator && e.auxRegistry == auxRegistry
    {
      e := new GeneralEccChip(curve);
      e.auxGenerator := auxGenerator;
      e.auxRegistry := auxRegistry;
    }

    /** The integer chip of the scalar field. */
    function ScalarFieldChip(): (chip: IntegerChip)
      requires curve.Valid()
      ensures chip.Valid() && chip.modulus == curve.n
    {
      IntegerChip(curve.n)
    }

    /** The integer chip of the base field. */
    function BaseFieldChip(): (chip: IntegerChip)
      requires curve.Valid()
      ensures chip.Valid() && chip.modulus == curve.p
    {
      IntegerChip(curve.p)
    }

    /** `assign_aux_generator`: commits the blinding point used by later multiplications. */
    method AssignAuxGenerator(ctx: RegionCtx, aux: Point)
      requires ctx.Valid()
      modifies this, ctx
      ensures ctx.Valid() && ctx.log == old(ctx.log) + [Op.AssignAuxGenerator(aux)]
      ensures auxGenerator == Some(aux) && auxRegistry == old(auxRegistry)
    {
      ctx.Record(Op.AssignAuxGenerator(aux));
      auxGenerator := Some(aux);
    }

    /**
     * `assign_aux`: derives and commits the auxiliary table for a window size
     * and number of pairs; fails when no auxiliary generator was assigned.
     */
    method AssignAux(ctx: RegionCtx, windowSize: nat, pairs: nat) returns (res: Result<()>)
      requires ctx.Valid()
      modifies this, ctx
      ensures ctx.Valid() && auxGenerator == old(auxGenerator)
      ensures res.Ok? <==> old(auxGenerator).Some?
      ensures res.Ok? ==> auxRegistry == old(auxRegistry) + {(windowSize, pairs)}
      ensures res.Ok? ==> ctx.log == old(ctx.log) + [Op.AssignAux(windowSize, pairs)]
      ensures res.Err? ==> auxRegistry == old(auxRegistry) && ctx.log == old(ctx.log)
    {
      if auxGenerator.None? {
        return Err;
      }
      ctx.Record(Op.AssignAux(windowSize, pairs));
      auxRegistry := auxRegistry + {(windowSize, pairs)};
      res := Ok(());
    }

    /** `assign_point`: commits a curve point. */
    method AssignPoint(ctx: RegionCtx, a: Point) returns (q: Point)
      requires ctx.Valid()
      modifies ctx
      ensures ctx.Valid() && ctx.log == old(ctx.log) + [Op.AssignPoint(a)]
      ensures q == a
    {
      ctx.Record(Op.AssignPoint(a));
      q := a;
    }

    /**
     * `mul`: windowed variable-base multiplication scalar·a. It looks up the
     * auxiliary table for (windowSize, 1) before laying out anything and fails
     * when there is none.
     */
    method Mul(ctx: RegionCtx, a: Point, scalar: AssignedInteger, windowSize: nat) returns (res: Result<Point>)
      requires curve.Valid() && ctx.Valid()
      modifies ctx
      ensures ctx.Valid()
      ensures res.Ok? <==> (windowSize, 1) in auxRegistry
      ensures res.Ok? ==> res.value == ScalarMul(curve, scalar.value, a)
      ensures res.Ok? ==> ctx.log == old(ctx.log) + [EccMul(a, scalar.value, windowSize)]
      ensures res.Err? ==> ctx.log == old(ctx.log)
    {
      if (windowSize, 1) !in auxRegistry {
        return Err;
      }
      ctx.Record(EccMul(a, scalar.value, windowSize));
      res := Ok(ScalarMul(curve, scalar.value, a));
    }

    /** `add`: point addition. */
    method Add(ctx: RegionCtx, a: Point, b: Point) returns (q: Point)
      requires curve.Valid() && ctx.Valid()
      modifies ctx
      ensures ctx.Valid() && ctx.log == old(ctx.log) + [EccAdd(a, b)]
      ensures q == Group.Add(curve, a, b)
    {
      ctx.Record(EccAdd(a, b));
      q := Group.Add(curve, a, b);
    }

    /** `x()`: the x-coordinate cells of an assigned point, as an integer of the base field. */
    function X(a: Point): (x: AssignedInteger)
      requires curve.Valid()
      ensures x.value == XCell(curve, a) && x.value < curve.p
    {
      AssignedInteger(XCell(curve, a), Unreduced)
    }
  }
}
