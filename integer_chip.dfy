/**
 * The non-native integer chip (`IntegerChip`) as the ECDSA code uses it: one
 * instance per foreign field (scalar field n, base field p). Its limb layout
 * and range checks are not modelled; each operation is given by the value it
 * assigns and the condition under which its constraints can be satisfied.
 * A call whose constraints cannot be satisfied still lays out its cells
 * (it is recorded) and then fails.
 */
module Integer {
  import opened Wrappers
  import opened Scalar
  import opened Region

  datatype IntegerChip = IntegerChip(modulus: nat) {

    predicate Valid() {
      modulus > 1
    }

    /** `assign_integer`: commits a witness with the given range. */
    method AssignInteger(ctx: RegionCtx, value: nat, range: Range) returns (a: AssignedInteger)
      requires ctx.Valid()
      modifies ctx
      ensures ctx.Valid() && a == AssignedInteger(value, range)
      ensures ctx.log == old(ctx.log) + [Op.AssignInteger(modulus, value, range)]
    {
      ctx.Record(Op.AssignInteger(modulus, value, range));
      a := AssignedInteger(value, range);
    }

    /**
     * `assert_not_zero`: constrains a to be non-zero; the check includes the
     * in-field check, so it holds exactly when 0 < a < modulus.
     */
    method AssertNotZero(ctx: RegionCtx, a: AssignedInteger) returns (res: Result<()>)
      requires ctx.Valid()
      modifies ctx
      ensures ctx.Valid() && ctx.log == old(ctx.log) + [Op.AssertNotZero(modulus, a.value)]
      ensures res.Ok? <==> 0 < a.value < modulus
    {
      ctx.Record(Op.AssertNotZero(modulus, a.value));
      res := if 0 < a.value < modulus then Ok(()) else Err;
    }

    /**
     * `invert`: assigns the inverse w and the quotient q with
     * a * w == 1 + q * modulus; satisfiable exactly when a has an inverse.
     */
    method Invert(ctx: RegionCtx, a: AssignedInteger) returns (res: Result<(AssignedInteger, AssignedInteger)>)
      requires Valid() && ctx.Valid()
      modifies ctx
      ensures ctx.Valid() && ctx.log == old(ctx.log) + [Op.Invert(modulus, a.value)]
      ensures res.Ok? <==> InvertMod(a.value, modulus).Some?
      ensures res.Ok? ==> res.value.0 == AssignedInteger(InvertMod(a.value, modulus).value, Remainder)
      ensures res.Ok? ==> res.value.1.range == MulQuotient
      ensures res.Ok? ==> a.value * res.value.0.value == 1 + res.value.1.value * modulus
    {
      ctx.Record(Op.Invert(modulus, a.value));
      match InvertMod(a.value, modulus)
      case None =>
        res := Err;
      case Some(w) =>
        res := Ok((AssignedInteger(w, Remainder), AssignedInteger(UnitQuotient(a.value, w, modulus), MulQuotient)));
    }

    /** `mul`: the reduced product. */
    method Mul(ctx: RegionCtx, a: AssignedInteger, b: AssignedInteger) returns (c: AssignedInteger)
      requires Valid() && ctx.Valid()
      modifies ctx
      ensures ctx.Valid() && ctx.log == old(ctx.log) + [IntMul(modulus, a.value, b.value)]
      ensures c == AssignedInteger(FieldMul(a.value, b.value, modulus), Remainder)
    {
      ctx.Record(IntMul(modulus, a.value, b.value));
      c := AssignedInteger(FieldMul(a.value, b.value, modulus), Remainder);
    }

    /** `reduce`: the canonical remainder of a in this field. */
    method Reduce(ctx: RegionCtx, a: AssignedInteger) returns (c: AssignedInteger)
      requires Valid() && ctx.Valid()
      modifies ctx
      ensures ctx.Valid() && ctx.log == old(ctx.log) + [Op.Reduce(modulus, a.value)]
      ensures c == AssignedInteger(a.value % modulus, Remainder)
    {
      ctx.Record(Op.Reduce(modulus, a.value));
      c := AssignedInteger(a.value % modulus, Remainder);
    }

    /**
     * `reduce_external`: an integer of another field with the same limb layout,
     * read as an integer of this field and reduced.
     */
    method ReduceExternal(ctx: RegionCtx, a: AssignedInteger) returns (c: AssignedInteger)
      requires Valid() && ctx.Valid()
      modifies ctx
      ensures ctx.Valid() && ctx.log == old(ctx.log) + [Op.ReduceExternal(modulus, a.value)]
      ensures c == AssignedInteger(a.value % modulus, Remainder)
    {
      ctx.Record(Op.ReduceExternal(modulus, a.value));
      c := AssignedInteger(a.value % modulus, Remainder);
    }

    /**
     * `assert_strict_equal`: limb-wise equality together with equal range;
     * numerical equality alone is not enough.
     */
    method AssertStrictEqual(ctx: RegionCtx, a: AssignedInteger, b: AssignedInteger) returns (res: Result<()>)
      requires ctx.Valid()
      modifies ctx
      ensures ctx.Valid() && ctx.log == old(ctx.log) + [Op.AssertStrictEqual(modulus, a, b)]
      ensures res.Ok? <==> a.value == b.value && a.range == b.range
    {
      ctx.Record(Op.AssertStrictEqual(modulus, a, b));
      res := if a == b then Ok(()) else Err;
    }
  }
}
