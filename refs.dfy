/** Optional values. */
module Wrappers {

  datatype Option<T> = None | Some(value: T)
}

/**
 * Signed references of the presolve: a non-negative reference names a
 * variable, a negative one names the negation of variable `-ref - 1`
 * (the Boolean negation for a literal, the opposite `-x` for an integer).
 */
module Refs {

  /** The reference to the negation of `ref`. */
  function NegatedRef(ref: int): int
  {
    -ref - 1
  }

  predicate RefIsPositive(ref: int)
  {
    ref >= 0
  }

  /** The variable a reference talks about, whatever its polarity. */
  function PositiveRef(ref: int): (v: nat)
    ensures v == ref || v == -ref - 1
  {
    if ref >= 0 then ref else -ref - 1
  }

  /** Negation flips the polarity, keeps the variable, and undoes itself. */
  lemma NegatedRefIsInvolution(ref: int)
    ensures NegatedRef(NegatedRef(ref)) == ref
    ensures RefIsPositive(NegatedRef(ref)) != RefIsPositive(ref)
    ensures PositiveRef(NegatedRef(ref)) == PositiveRef(ref)
  {
  }

  /** A reference is determined by its variable and its polarity. */
  lemma RefFromVariableAndPolarity(a: int, b: int)
    requires PositiveRef(a) == PositiveRef(b)
    ensures a == b || a == NegatedRef(b)
  {
  }
}

/**
 * Types shared by the integer encoder and the integer trail: integer
 * variables come in pairs `v` / `NegationOf(v)`, and an integer literal
 * `(var, bound)` states `var >= bound`.
 */
module IntegerTypes {

  /** Largest value of a signed 64-bit integer. */
  const kint64max: int := 0x7FFF_FFFF_FFFF_FFFF
  /** Smallest value of a signed 64-bit integer. */
  const kint64min: int := -0x8000_0000_0000_0000
  /** The bounds an IntegerValue may take: one inside the int64 range, so that negation never overflows. */
  const kMaxIntegerValue: int := kint64max - 1
  const kMinIntegerValue: int := -kMaxIntegerValue

  /**
   * The variable of the pair that stands for `-v`: variables are created two
   * at a time, `v` even and `v + 1` its negation.
   */
  function NegationOf(v: nat): nat
  {
    if v % 2 == 0 then v + 1 else v - 1
  }

  lemma NegationOfPairs(v: nat)
    ensures NegationOf(NegationOf(v)) == v
    ensures NegationOf(v) != v
    ensures NegationOf(v) / 2 == v / 2
  {
  }

  /** The fact `variable >= bound`. */
  datatype IntegerLiteral = IntegerLiteral(variable: nat, bound: int)

  function GreaterOrEqual(v: nat, b: int): IntegerLiteral
  {
    IntegerLiteral(v, b)
  }

  /** `v <= b` is stated as `NegationOf(v) >= -b`. */
  function LowerOrEqual(v: nat, b: int): IntegerLiteral
  {
    IntegerLiteral(NegationOf(v), -b)
  }

  /** Product of two int64 values, saturated to the int64 range instead of wrapping. */
  function CapProd(a: int, b: int): (p: int)
    ensures kint64min <= p <= kint64max
    ensures kint64min <= a * b <= kint64max ==> p == a * b
    ensures a * b > kint64max ==> p == kint64max
    ensures a * b < kint64min ==> p == kint64min
  {
    if a * b > kint64max then kint64max
    else if a * b < kint64min then kint64min
    else a * b
  }
}
