/** Shared wrappers: optional (nullable) values, the error kinds the catalogue
    reports, and the choice of an order for an unordered collection. */
module Common {

  /** A Java reference that may be null. */
  datatype Option<+T> = None | Some(value: T)

  /** One failed Bean Validation constraint on the ISBN of a book request. */
  datatype Violation =
    | IsbnMandatory    // @NotBlank
    | IsbnFormat       // @Pattern ^\w{10}(\w{3})?$
    | IsbnAlreadyUsed  // @UniqueISBN

  /** The ways an operation can fail. NotFound is the service's
      ResourceNotFoundException, Invalid the request-body validation failure,
      Conflict the storage layer refusing a second row with the same key. */
  datatype Error =
    | NotFound(message: string)
    | Invalid(violations: set<Violation>)
    | Conflict(key: string)

  /** The outcome of a service call: a value, or the error it threw. */
  datatype Result<+T> = Ok(value: T) | Err(error: Error)

  /** True iff the sequence holds no element twice. */
  ghost predicate Distinct<T>(xs: seq<T>) {
    forall i, j :: 0 <= i < j < |xs| ==> xs[i] != xs[j]
  }

  /** Some enumeration of a finite set, in an unspecified order: how a Java
      HashSet or an unordered query result is iterated. */
  ghost function Enumerate<T(!new)>(s: set<T>): (r: seq<T>)
    ensures |r| == |s|
    ensures forall x :: x in r <==> x in s
    ensures Distinct(r)
  {
    if s == {} then []
    else
      var x :| x in s;
      [x] + Enumerate(s - {x})
  }
}
