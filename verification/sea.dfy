/** The sea record, the table's limits and the small datatypes the other modules share. */
module Seas {

  /** Capacity of the fixed table. */
  const MaxSeas: nat := 10
  /** Accepted depth range, in metres. */
  const MinDepth: real := 0.0
  const MaxDepth: real := 12000.0
  /** Accepted salinity range, in parts per thousand. */
  const MinSalinity: real := 0.0
  const MaxSalinity: real := 45.0
  /** Default half-width of the salinity search window. */
  const DefaultTolerance: real := 0.1

  datatype Option<T> = None | Some(value: T)

  /** One row of the table. Depth and salinity are exact reals (no floating-point rounding). */
  datatype Sea = Sea(name: string, depth: real, salinity: real)

  /** The invariant a record entered at the keyboard satisfies. */
  predicate ValidSea(s: Sea) {
    s.name != [] && MinDepth <= s.depth <= MaxDepth && MinSalinity <= s.salinity <= MaxSalinity
  }

  /** Absolute value, as std::abs on a double. */
  function Abs(x: real): (r: real)
    ensures r >= 0.0
    ensures r == x || r == -x
  {
    if x < 0.0 then -x else x
  }
}
