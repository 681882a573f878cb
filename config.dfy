/** The fixed playfield and tuning constants of the game. */
module Config {
  const SurfaceWidth: int := 160
  const SurfaceHeight: int := 240
  const TileSize: int := 16

  const Left: int := -1
  const Right: int := 1
  const Up: int := -1
  const Down: int := 1

  /** Rows per tick that the walls, and so the world, scroll upward. */
  const ScrollSpeed: int := 1
  const SpawnChance: real := 0.1
  const DraftStrength: int := 3
  /** The highest point the player may rise to. */
  const StableAltitude: int := 50
  const Gravity: real := 0.05
  const TargetEnemyCount: int := 3

  predicate IsDirection(d: int) {
    d == Left || d == Right
  }

  /** A predicted leading edge past the side margins `[TileSize, SurfaceWidth - TileSize]`,
      which the player and the enemies share. */
  predicate OutsideMargins(edge: real) {
    edge > (SurfaceWidth - TileSize) as real || edge < TileSize as real
  }
}
