/** A small helper type shared by the other modules. */
module Wrappers {

  /** A value that may be absent. Models `std::string::npos` for searches
      and a failed operating-system query. */
  datatype Option<+T> = None | Some(value: T)
}
