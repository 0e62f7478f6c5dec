/** The value types of MapViewModel.swift: grid cells, coordinates, instants and
    the 32-bit integers the persisted rows store. */
module Grid {
  /** A `Date`, as whole seconds relative to the reference date 2001-01-01. */
  type Time = int

  /** `Date.distantPast` (0001-01-01 00:00:00 UTC) in the same unit. */
  const DistantPast: Time := -63114076800

  /** Edge of a grid cell in degrees (`cellSize`). */
  const CellSize: real := 0.0005

  /** A `CLLocationCoordinate2D`; real arithmetic stands in for `Double`. */
  datatype Coordinate = Coordinate(latitude: real, longitude: real)

  /** A grid cell, identified by value; `x` counts latitude steps and `y`
      longitude steps from the session origin. */
  datatype GridCell = GridCell(x: int, y: int)

  /** Swift's `Int32`. */
  newtype int32 = i: int | -0x8000_0000 <= i < 0x8000_0000

  /** Whether `Int32(cell.x)` and `Int32(cell.y)` succeed instead of trapping. */
  predicate InInt32(cell: GridCell) {
    -0x8000_0000 <= cell.x < 0x8000_0000 && -0x8000_0000 <= cell.y < 0x8000_0000
  }

  /** Cells the grid index can produce: a latitude difference of at most 180
      degrees and a longitude difference of at most 360 degrees divided by
      `CellSize` stay far inside the 32-bit range. */
  type Int32Cell = c: GridCell | InInt32(c) witness GridCell(0, 0)
}
