/**
 * The quantity of Electronics.Graphs.Domain/Quantity/Quantity.cs: a value
 * paired with a unit. The decimal value is idealised as a real number.
 *
 * `Add` and `Sub` model the operators as written, whose guard throws when the
 * units are equal; `AddChecked` and `SubChecked` are the operators the guard
 * evidently intends.
 */
module Quantities {
  import opened Wrappers
  import opened QuantityUnits

  datatype Quantity = Quantity(value: real, unit: QuantityUnit)

  /** The parameterless constructor: value 0 in the Unknown unit. */
  function DefaultQuantity(): (q: Quantity)
    ensures q.value == 0.0 && q.unit == Unknown
  {
    Quantity(0.0, Unknown)
  }

  /** The constructor from a unit and an optional value, which defaults to 0. */
  function Make(unit: QuantityUnit, value: real := 0.0): (q: Quantity)
    ensures q.unit == unit && q.value == value
  {
    Quantity(value, unit)
  }

  /** IsUnitCompatible: the two quantities carry the same unit. */
  predicate IsUnitCompatible(a: Quantity, b: Quantity)
    ensures IsUnitCompatible(a, b) <==> a.unit == b.unit
  {
    QuantityUnits.EqualOp(a.unit, b.unit)
  }

  /**
   * ThrowIfUnitsNotCompatible as written: the condition is not negated, so
   * it fails exactly when the units are EQUAL.
   */
  function ThrowIfUnitsNotCompatible(a: Quantity, b: Quantity): (r: Outcome<QuantityError>)
    ensures r.Fail? <==> a.unit == b.unit
    ensures r.Fail? ==> r.error == NotSameUnits
  {
    if IsUnitCompatible(a, b) then Fail(NotSameUnits) else Pass
  }

  /**
   * Operator + as written. Equal units are rejected by the inverted guard;
   * different units pass it and are then rejected by unit +. So it never
   * yields a quantity, and every failure is NotSameUnits.
   */
  function Add(a: Quantity, b: Quantity): (r: Result<Quantity, QuantityError>)
    ensures r == Failure(NotSameUnits)
  {
    match ThrowIfUnitsNotCompatible(a, b)
    case Fail(e) => Failure(e)
    case Pass =>
      match QuantityUnits.Add(a.unit, b.unit)
      case Failure(e) => Failure(e)
      case Success(u) => Success(Quantity(a.value + b.value, u))
  }

  /** Operator - as written: like +, it never yields a quantity. */
  function Sub(a: Quantity, b: Quantity): (r: Result<Quantity, QuantityError>)
    ensures r == Failure(NotSameUnits)
  {
    match ThrowIfUnitsNotCompatible(a, b)
    case Fail(e) => Failure(e)
    case Pass =>
      match QuantityUnits.Sub(a.unit, b.unit)
      case Failure(e) => Failure(e)
      case Success(u) => Success(Quantity(a.value - b.value, u))
  }

  /** Operator * by a factor: keeps the unit, scales the value, never fails. */
  function Scale(q: Quantity, factor: real): (r: Quantity)
    ensures r.unit == q.unit
    ensures r.value == q.value * factor
  {
    Quantity(q.value * factor, q.unit)
  }

  /** The failure of decimal division by a zero factor. */
  datatype ArithmeticError = DivideByZero

  /**
   * Operator / by a factor: keeps the unit and divides the value; a zero
   * factor fails, as decimal division does.
   */
  function Divide(q: Quantity, factor: real): (r: Result<Quantity, ArithmeticError>)
    ensures r.Failure? <==> factor == 0.0
    ensures r.Success? ==> r.value.unit == q.unit && r.value.value * factor == q.value
  {
    if factor == 0.0 then Failure(DivideByZero)
    else Success(Quantity(q.value / factor, q.unit))
  }

  /** Equals: value and unit both equal, which is equality of the pair. */
  predicate Equals(a: Quantity, b: Quantity)
    ensures Equals(a, b) <==> a == b
  {
    a.value == b.value && QuantityUnits.Equals(a.unit, b.unit)
  }

  /** Operator ==, defined by Equals. */
  predicate EqualOp(a: Quantity, b: Quantity)
    ensures EqualOp(a, b) <==> a == b
  {
    Equals(a, b)
  }

  /** Operator !=, the negation of Equals. */
  predicate NotEqualOp(a: Quantity, b: Quantity)
    ensures NotEqualOp(a, b) <==> a != b
  {
    !Equals(a, b)
  }

  /** Dividing by the factor a quantity was scaled by gives the quantity back. */
  lemma DivideUndoesScale(q: Quantity, factor: real)
    requires factor != 0.0
    ensures Divide(Scale(q, factor), factor) == Success(q)
  {
    var scaled := Scale(q, factor);
    assert scaled.value / factor == q.value;
    assert Divide(scaled, factor) == Success(Quantity(scaled.value / factor, q.unit));
  }

  /** Scaling twice is scaling by the product of the factors. */
  lemma ScaleComposes(q: Quantity, f: real, g: real)
    ensures Scale(Scale(q, f), g) == Scale(q, f * g)
  {
  }

  /**
   * The addition exercised by the unit tests: 12 V + 54 V is expected to be
   * 66 V, but the code as written fails.
   */
  lemma AddOfSameUnitFails()
    ensures Add(Make(Volt, 12.0), Make(Volt, 54.0)) == Failure(NotSameUnits)
    ensures AddChecked(Make(Volt, 12.0), Make(Volt, 54.0)) == Success(Make(Volt, 66.0))
  {
  }

  // ---------------------------------------------------------------------------
  // The operators with the guard the code evidently intends

  /** The guard negated: fails exactly when the units differ. */
  function RequireSameUnits(a: Quantity, b: Quantity): (r: Outcome<QuantityError>)
    ensures r.Pass? <==> a.unit == b.unit
    ensures r.Fail? ==> r.error == NotSameUnits
  {
    if !IsUnitCompatible(a, b) then Fail(NotSameUnits) else Pass
  }

  /** Corrected +: sums the values of two quantities of one unit, NotSameUnits otherwise. */
  function AddChecked(a: Quantity, b: Quantity): (r: Result<Quantity, QuantityError>)
    ensures r.Success? <==> a.unit == b.unit
    ensures r.Success? ==> r.value.unit == a.unit && r.value.value == a.value + b.value
    ensures r.Failure? ==> r.error == NotSameUnits
  {
    match RequireSameUnits(a, b)
    case Fail(e) => Failure(e)
    case Pass =>
      match QuantityUnits.Add(a.unit, b.unit)
      case Failure(e) => Failure(e)
      case Success(u) => Success(Quantity(a.value + b.value, u))
  }

  /** Corrected -: subtracts the values of two quantities of one unit, NotSameUnits otherwise. */
  function SubChecked(a: Quantity, b: Quantity): (r: Result<Quantity, QuantityError>)
    ensures r.Success? <==> a.unit == b.unit
    ensures r.Success? ==> r.value.unit == a.unit && r.value.value == a.value - b.value
    ensures r.Failure? ==> r.error == NotSameUnits
  {
    match RequireSameUnits(a, b)
    case Fail(e) => Failure(e)
    case Pass =>
      match QuantityUnits.Sub(a.unit, b.unit)
      case Failure(e) => Failure(e)
      case Success(u) => Success(Quantity(a.value - b.value, u))
  }

  /** Corrected - undoes corrected +. */
  lemma SubUndoesAdd(a: Quantity, b: Quantity)
    requires a.unit == b.unit
    ensures AddChecked(a, b).Success?
    ensures SubChecked(AddChecked(a, b).value, b) == Success(a)
  {
  }
}
