/** The model of a `double` used as a distance or a price: an ideal real number or
    the INFINITY that the shortest-path searches use for "not reached" and for "does not route". */
module Weights {

  datatype Weight = Finite(value: real) | Infinity {

    function Plus(other: Weight): Weight {
      if Finite? && other.Finite? then Finite(value + other.value) else Infinity
    }

    predicate Less(other: Weight) {
      Finite? && (other.Infinity? || value < other.value)
    }

    predicate AtMost(other: Weight) {
      other.Infinity? || (Finite? && value <= other.value)
    }

    predicate NonNegative() {
      Infinity? || value >= 0.0
    }

    predicate Positive() {
      Infinity? || value > 0.0
    }
  }

  const ZERO := Finite(0.0)
}
