/** Source spans. A `Location` is the half-open byte range `[start, end)` of
    a piece of the script; `Location(0, 0)` is its `Default`, used when no
    better position is known. */
module Locations {

  datatype Location = Location(start: nat, end: nat)

  /** `Location::default()`. */
  const DefaultLocation: Location := Location(0, 0)
}
