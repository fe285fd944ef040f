/** Failure values shared by the whole model: an optional value, the errors the
    library raises, and a result that is either a value or one of those errors. */
module Outcomes {

  datatype Option<T> = None | Some(value: T)

  /** The conditions under which the library raises instead of returning. */
  datatype Error =
    | MissingBlock                      // Graph#node called without a block
    | ArrayWithoutBlock                 // Node#values given an Array but no block
    | TableWithParents                  // a table-form CPT for a variable that has parents
    | UndeclaredVariable(name: string)  // a table-form CPT for a variable with no declared domain
    | UnknownVariable(name: string)     // `contextes` of a variable outside the factor's scope
    | EmptyDomain(name: string)         // most_likely_value over a variable with no values
    | Incomparable                      // `max_by` comparing a missing probability with a number
    | NotATable                         // a table operation on a block that `values` stored
    | UnmatchedRows                     // Factor#* met rows of the left factor with no partner on the right
    | MissingEntry(name: string)        // a node's table has no row for an assignment of the joint
    | ZeroTotal                         // normalizing a non-empty table whose values sum to zero

  datatype Result<T> = Ok(value: T) | Err(error: Error)
}
