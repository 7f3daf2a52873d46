/** Values that may be absent, and SQL's three-valued logic over them. */
module Nulls {

  datatype Option<+T> = None | Some(value: T)

  datatype Result<+T, +E> = Success(value: T) | Failure(error: E)

  /** SQL truth values. A row is admitted by a policy or a WHERE clause only when it is `Yes`. */
  datatype Tri = Yes | No | Unknown

  function Or(a: Tri, b: Tri): Tri {
    if a == Yes || b == Yes then Yes
    else if a == No && b == No then No
    else Unknown
  }

  function FromBool(b: bool): Tri {
    if b then Yes else No
  }

  /** `a = b`: NULL on either side makes the comparison UNKNOWN. */
  function Equals<T(==)>(a: Option<T>, b: Option<T>): Tri {
    if a == None || b == None then Unknown else FromBool(a == b)
  }

  /** `x IN (SELECT ...)`, over a subquery that never yields NULL. */
  function In<T(==)>(x: Option<T>, candidates: set<T>): Tri {
    if candidates == {} then No
    else match x
      case None => Unknown
      case Some(v) => FromBool(v in candidates)
  }

  /** Some element of a non-empty set. */
  lemma SomeElement<T>(s: set<T>) returns (x: T)
    requires s != {}
    ensures x in s
  {
    x :| x in s;
  }
}
