/**
 * The unit tag of Electronics.Graphs.Domain/Quantity/QuantityUnit.cs: a unit
 * is its name, and units combine only with a unit of the same name.
 */
module QuantityUnits {
  import opened Wrappers

  /** The one failure of unit arithmetic: the operands' units differ. */
  datatype QuantityError = NotSameUnits

  datatype QuantityUnit = QuantityUnit(name: string)

  const Volt: QuantityUnit := QuantityUnit("V")
  const Ampere: QuantityUnit := QuantityUnit("A")
  const Ohm: QuantityUnit := QuantityUnit("\U{03A9}")
  const Unknown: QuantityUnit := QuantityUnit("Unknown")

  /** The parameterless constructor: the unit named "Unknown". */
  function DefaultUnit(): (u: QuantityUnit)
    ensures u == Unknown
  {
    QuantityUnit("Unknown")
  }

  /** Equals: two units are equal exactly when they are the same unit value. */
  predicate Equals(a: QuantityUnit, b: QuantityUnit)
    ensures Equals(a, b) <==> a == b
  {
    a.name == b.name
  }

  /** Operator ==, defined by Equals. */
  predicate EqualOp(a: QuantityUnit, b: QuantityUnit)
    ensures EqualOp(a, b) <==> a == b
  {
    Equals(a, b)
  }

  /** Operator !=, the negation of Equals. */
  predicate NotEqualOp(a: QuantityUnit, b: QuantityUnit)
    ensures NotEqualOp(a, b) <==> a != b
  {
    !Equals(a, b)
  }

  /** CheckCompatibility: units are compatible exactly when they are equal. */
  predicate CheckCompatibility(a: QuantityUnit, b: QuantityUnit)
    ensures CheckCompatibility(a, b) <==> a == b
  {
    a.name == b.name
  }

  /** ThrowIfUnitsAreNotCompatible: passes on equal units, fails with NotSameUnits otherwise. */
  function ThrowIfUnitsAreNotCompatible(a: QuantityUnit, b: QuantityUnit): (r: Outcome<QuantityError>)
    ensures r.Pass? <==> a == b
    ensures r.Fail? ==> r.error == NotSameUnits
  {
    if !CheckCompatibility(a, b) then Fail(NotSameUnits) else Pass
  }

  /** Unit +: the left operand when the units match, NotSameUnits otherwise. */
  function Add(a: QuantityUnit, b: QuantityUnit): (r: Result<QuantityUnit, QuantityError>)
    ensures r.Success? <==> a == b
    ensures r.Success? ==> r.value == a && r.value == b
    ensures r.Failure? ==> r.error == NotSameUnits
  {
    match ThrowIfUnitsAreNotCompatible(a, b)
    case Fail(e) => Failure(e)
    case Pass => Success(a)
  }

  /** Unit -: the left operand when the units match, NotSameUnits otherwise. */
  function Sub(a: QuantityUnit, b: QuantityUnit): (r: Result<QuantityUnit, QuantityError>)
    ensures r.Success? <==> a == b
    ensures r.Success? ==> r.value == a && r.value == b
    ensures r.Failure? ==> r.error == NotSameUnits
  {
    match ThrowIfUnitsAreNotCompatible(a, b)
    case Fail(e) => Failure(e)
    case Pass => Success(a)
  }

  /** A unit combined with itself is itself, under both operators. */
  lemma CombineWithSelf(u: QuantityUnit)
    ensures Add(u, u) == Success(u) && Sub(u, u) == Success(u)
  {
  }

  /** The four named units carry their symbols and are pairwise distinct. */
  lemma NamedUnitsDistinct()
    ensures Volt.name == "V" && Ampere.name == "A" && Ohm.name == "\U{03A9}" && Unknown.name == "Unknown"
    ensures Volt != Ampere && Volt != Ohm && Volt != Unknown
    ensures Ampere != Ohm && Ampere != Unknown && Ohm != Unknown
  {
  }
}
