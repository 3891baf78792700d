/** The nullable result of a query: `.scalar()` and `.first()` give `None` when no row matches. */
module Wrappers {

  datatype Option<+T> = None | Some(value: T)
}
