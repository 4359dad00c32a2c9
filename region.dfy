/**
 * Regions and the cursor threaded through every chip call (`RegionCtx`), with
 * the values the chips assign.
 *
 * A region context records, in order, every chip call made through it: the
 * log is the abstract counterpart of the cells and constraints the call lays
 * out. The cursor (`offset`) advances by one slot per recorded call.
 */
module Region {
  import opened Group

  /** The range a non-native integer is assigned with (canonical `Remainder`, or a looser bound). */
  datatype Range = Remainder | Operand | MulQuotient | Unreduced

  /** A non-native integer committed to cells: the value its limbs represent, and its range. */
  datatype AssignedInteger = AssignedInteger(value: nat, range: Range)

  /** One chip call recorded in a region, with its operands. */
  datatype Op =
    | AssignInteger(modulus: nat, value: nat, range: Range)
    | AssertNotZero(modulus: nat, value: nat)
    | Invert(modulus: nat, value: nat)
    | IntMul(modulus: nat, a: nat, b: nat)
    | Reduce(modulus: nat, value: nat)
    | ReduceExternal(modulus: nat, value: nat)
    | AssertStrictEqual(modulus: nat, lhs: AssignedInteger, rhs: AssignedInteger)
    | AssignPoint(point: Point)
    | AssignAuxGenerator(point: Point)
    | AssignAux(windowSize: nat, pairs: nat)
    | EccMul(point: Point, scalar: nat, windowSize: nat)
    | EccAdd(first: Point, second: Point)

  class RegionCtx {
    ghost const origin: nat
    var offset: nat
    var log: seq<Op>

    /** The cursor has moved past exactly the recorded calls. */
    ghost predicate Valid()
      reads this
    {
      offset == origin + |log|
    }

    /** `RegionCtx::new(region, offset)`: a fresh cursor at `offset`. */
    constructor (offset: nat)
      ensures Valid() && this.offset == offset && log == []
    {
      this.origin := offset;
      this.offset := offset;
      this.log := [];
    }

    /** Lays out one chip call at the cursor and advances it. */
    method Record(op: Op)
      requires Valid()
      modifies this
      ensures Valid() && log == old(log) + [op] && offset == old(offset) + 1
    {
      log := log + [op];
      offset := offset + 1;
    }
  }
}
