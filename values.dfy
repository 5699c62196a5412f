/**
 * Optional values and Python truthiness. A JSON field that is absent or null is
 * `None`; Python's `a or b or c` picks the first operand that is not "falsy",
 * where the falsy values are `None` and the zero of the type ('' for strings,
 * 0 for integers, 0.0 for floats).
 */
module Values {

  datatype Option<T> = None | Some(value: T)
  {
    function GetOr(default: T): T
    {
      match this
      case Some(v) => v
      case None => default
    }
  }

  datatype Result<T, E> = Ok(value: T) | Err(error: E)

  /** Python's `bool(x)` for an optional value whose only falsy inhabitant besides `None` is `zero`. */
  predicate Truthy<T(==)>(x: Option<T>, zero: T)
  {
    x.Some? && x.value != zero
  }

  /**
   * The value of `xs[0] or xs[1] or ...` when at least one operand is truthy,
   * `None` when none is.
   */
  function FirstTruthy<T(==)>(xs: seq<Option<T>>, zero: T): (r: Option<T>)
    ensures r.Some? <==> exists i :: 0 <= i < |xs| && Truthy(xs[i], zero)
    ensures r.Some? ==> r.value != zero
    ensures r.Some? ==> exists i :: 0 <= i < |xs| && xs[i] == r && forall j :: 0 <= j < i ==> !Truthy(xs[j], zero)
  {
    if xs == [] then None
    else if Truthy(xs[0], zero) then xs[0]
    else
      var r := FirstTruthy(xs[1..], zero);
      assert forall i :: 1 <= i < |xs| ==> xs[i] == xs[1..][i - 1];
      r
  }

  /** The position `FirstTruthy` draws from is unique: it is the earliest truthy operand. */
  lemma FirstTruthyIsEarliest<T>(xs: seq<Option<T>>, zero: T, i: nat)
    requires i < |xs| && Truthy(xs[i], zero)
    requires forall j :: 0 <= j < i ==> !Truthy(xs[j], zero)
    ensures FirstTruthy(xs, zero) == xs[i]
  {
    var r := FirstTruthy(xs, zero);
    var k :| 0 <= k < |xs| && xs[k] == r && forall j :: 0 <= j < k ==> !Truthy(xs[j], zero);
  }
}
