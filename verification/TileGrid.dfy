/** The tile grid of the navigation mesh and the clamping arithmetic that finds the tiles an axis-aligned
    box affects (src/navigation/Awareness.cpp, lines 808-844 and 948-985).  Coordinates are reals. */
module TileGrid {
  datatype Tile = Tile(x: int, z: int)

  /** WFMath::AxisBox<2>; the second coordinate is the world's z axis. */
  datatype Box = Box(lowX: real, lowZ: real, highX: real, highZ: real)

  datatype Grid = Grid(minX: real, minZ: real, maxX: real, maxZ: real, tileSize: real) {
    predicate Valid() {
      tileSize > 0.0 && minX <= maxX && minZ <= maxZ
    }
  }

  /** The inclusive index ranges of the tiles to visit. */
  datatype Rect = Rect(minX: int, maxX: int, minZ: int, maxZ: int)

  predicate InRect(r: Rect, t: Tile) {
    r.minX <= t.x <= r.maxX && r.minZ <= t.z <= r.maxZ
  }

  function Clamp(v: real, lo: real, hi: real): real {
    if v < lo then lo else if v > hi then hi else v
  }

  /** The index of the tile that holds `v` on one axis, after clamping; truncation is floor here. */
  function Index(v: real, lo: real, hi: real, size: real): int
    requires size > 0.0
  {
    ((Clamp(v, lo, hi) - lo) / size).Floor
  }

  function AffectedTiles(g: Grid, area: Box): Rect
    requires g.Valid()
  {
    Rect(Index(area.lowX, g.minX, g.maxX, g.tileSize), Index(area.highX, g.minX, g.maxX, g.tileSize),
         Index(area.lowZ, g.minZ, g.maxZ, g.tileSize), Index(area.highZ, g.minZ, g.maxZ, g.tileSize))
  }

  /** Index `i` names a tile of the axis [lo, hi]: its lower edge is not beyond `hi`. */
  predicate OnAxis(i: int, lo: real, hi: real, size: real) {
    0 <= i && i as real * size <= hi - lo
  }

  predicate InGrid(g: Grid, t: Tile) {
    OnAxis(t.x, g.minX, g.maxX, g.tileSize) && OnAxis(t.z, g.minZ, g.maxZ, g.tileSize)
  }

  /** The open interval (a, b) and the interior of tile `i` on one axis have a point in common. */
  predicate AxisOverlap(a: real, b: real, i: int, lo: real, size: real) {
    a < lo + (i + 1) as real * size && lo + i as real * size < b
  }

  /** The interior of the box may meet the interior of the tile. */
  predicate InteriorsOverlap(g: Grid, area: Box, t: Tile) {
    && AxisOverlap(area.lowX, area.highX, t.x, g.minX, g.tileSize)
    && AxisOverlap(area.lowZ, area.highZ, t.z, g.minZ, g.tileSize)
  }

  lemma ScaleMonotonic(a: real, b: real, size: real)
    requires size > 0.0
    ensures a <= b ==> a * size <= b * size
    ensures a < b ==> a * size < b * size
  {
    var d := b - a;
    assert d * size == b * size - a * size;
    assert d > 0.0 ==> d * size > 0.0;
  }

  lemma FloorOfQuotient(x: real, size: real, i: int)
    requires size > 0.0
    ensures x < (i + 1) as real * size ==> (x / size).Floor <= i
    ensures i as real * size <= x ==> i <= (x / size).Floor
    ensures (x / size).Floor as real * size <= x
  {
    var q := x / size;
    assert q * size == x;
    ScaleMonotonic((i + 1) as real, q, size);
    ScaleMonotonic(q, i as real, size);
    ScaleMonotonic(q.Floor as real, q, size);
    FloorBounds(q, i);
  }

  lemma FloorBounds(q: real, i: int)
    ensures q.Floor as real <= q
    ensures q < (i + 1) as real ==> q.Floor <= i
    ensures i as real <= q ==> i <= q.Floor
  {
  }

  lemma IndexCoversAxis(a: real, b: real, i: int, lo: real, hi: real, size: real)
    requires size > 0.0 && lo <= hi && OnAxis(i, lo, hi, size) && AxisOverlap(a, b, i, lo, size)
    ensures Index(a, lo, hi, size) <= i <= Index(b, lo, hi, size)
  {
    assert (i + 1) as real * size == i as real * size + size;
    assert i as real * size >= 0.0;
    FloorOfQuotient(Clamp(a, lo, hi) - lo, size, i);
    FloorOfQuotient(Clamp(b, lo, hi) - lo, size, i);
  }

  lemma IndexBounds(v: real, lo: real, hi: real, size: real)
    requires size > 0.0 && lo <= hi
    ensures 0 <= Index(v, lo, hi, size)
    ensures Index(v, lo, hi, size) as real * size <= hi - lo
  {
    var x := Clamp(v, lo, hi) - lo;
    FloorOfQuotient(x, size, 0);
  }

  lemma IndexOnAxis(a: real, b: real, lo: real, hi: real, size: real, i: int)
    requires size > 0.0 && lo <= hi && Index(a, lo, hi, size) <= i <= Index(b, lo, hi, size)
    ensures OnAxis(i, lo, hi, size)
  {
    IndexBounds(a, lo, hi, size);
    IndexBounds(b, lo, hi, size);
    BelowOnAxis(i, Index(b, lo, hi, size), lo, hi, size);
  }

  /** A tile below one that is on the axis. */
  lemma BelowOnAxis(i: int, k: int, lo: real, hi: real, size: real)
    requires size > 0.0 && 0 <= i <= k && k as real * size <= hi - lo
    ensures OnAxis(i, lo, hi, size)
  {
    var x, y := i as real, k as real;
    ScaleMonotonic(x, y, size);
    assert x * size <= y * size <= hi - lo;
  }

  /** Every tile of the grid whose interior the box can meet is among the affected tiles. */
  lemma AffectedTilesCover(g: Grid, area: Box, t: Tile)
    requires g.Valid() && InGrid(g, t) && InteriorsOverlap(g, area, t)
    ensures InRect(AffectedTiles(g, area), t)
  {
    IndexCoversAxis(area.lowX, area.highX, t.x, g.minX, g.maxX, g.tileSize);
    IndexCoversAxis(area.lowZ, area.highZ, t.z, g.minZ, g.maxZ, g.tileSize);
  }

  /** On one axis: tile `i`, without its upper edge, and the closed interval from `a` to `b` have a point in common. */
  predicate AxisMeets(a: real, b: real, i: int, lo: real, size: real) {
    a < lo + (i + 1) as real * size && lo + i as real * size <= b
  }

  lemma IndexExact(a: real, b: real, i: int, lo: real, hi: real, size: real)
    requires size > 0.0 && lo <= hi
    ensures Index(a, lo, hi, size) <= i <= Index(b, lo, hi, size) <==>
            AxisMeets(Clamp(a, lo, hi), Clamp(b, lo, hi), i, lo, size)
  {
    FloorExact(Clamp(a, lo, hi) - lo, size, i);
    FloorExact(Clamp(b, lo, hi) - lo, size, i);
  }

  lemma FloorExact(x: real, size: real, i: int)
    requires size > 0.0
    ensures (x / size).Floor <= i <==> x < (i + 1) as real * size
    ensures i <= (x / size).Floor <==> i as real * size <= x
  {
    var f := (x / size).Floor;
    FloorOfQuotient(x, size, i);
    FloorOfQuotient(x, size, f - 1);
    FloorBelow(x, size);
    ScaleMonotonic((i + 1) as real, f as real, size);
    ScaleMonotonic((f + 1) as real, i as real, size);
    ScaleMonotonic((f + 1) as real, (i + 1) as real, size);
  }

  lemma FloorBelow(x: real, size: real)
    requires size > 0.0
    ensures x < ((x / size).Floor + 1) as real * size
  {
    var q := x / size;
    assert q * size == x;
    ScaleMonotonic(q, (q.Floor + 1) as real, size);
  }

  /** A tile is affected exactly when it meets the box as far as that lies in the grid. */
  lemma AffectedTilesExact(g: Grid, area: Box, t: Tile)
    requires g.Valid()
    ensures InRect(AffectedTiles(g, area), t) <==>
            && AxisMeets(Clamp(area.lowX, g.minX, g.maxX), Clamp(area.highX, g.minX, g.maxX), t.x, g.minX, g.tileSize)
            && AxisMeets(Clamp(area.lowZ, g.minZ, g.maxZ), Clamp(area.highZ, g.minZ, g.maxZ), t.z, g.minZ, g.tileSize)
  {
    IndexExact(area.lowX, area.highX, t.x, g.minX, g.maxX, g.tileSize);
    IndexExact(area.lowZ, area.highZ, t.z, g.minZ, g.maxZ, g.tileSize);
  }

  /** Affected tiles are tiles of the grid, wherever the box lies. */
  lemma AffectedTilesInGrid(g: Grid, area: Box, t: Tile)
    requires g.Valid() && InRect(AffectedTiles(g, area), t)
    ensures InGrid(g, t)
  {
    IndexOnAxis(area.lowX, area.highX, g.minX, g.maxX, g.tileSize, t.x);
    IndexOnAxis(area.lowZ, area.highZ, g.minZ, g.maxZ, g.tileSize, t.z);
  }
}
