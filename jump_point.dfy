/**
  PseudoInstanceJumpPoint: the jump-point handler of a dungeon entrance.
  The zone point's target region names the base dungeon; the handler asks
  the manager for the party's copy and either redirects the jump there or
  denies it.  The chat messages and log lines are left out.
 */
module JumpPoint {
  import opened Numerics
  import opened PoolSpec
  import PoolManager

  /** The destination of a jump; only the region is ever rewritten here. */
  class ZonePoint {
    var targetRegion: uint16
    var targetX: int
    var targetY: int
    var targetZ: int
    var targetHeading: int

    constructor (region: uint16, x: int, y: int, z: int, heading: int)
      ensures targetRegion == region && targetX == x && targetY == y
      ensures targetZ == z && targetHeading == heading
    {
      targetRegion, targetX, targetY, targetZ, targetHeading := region, x, y, z, heading;
    }
  }

  /**
    IsAllowedToJump: the party's copy for the dungeon `targetPoint.targetRegion`;
    a copy of 0 denies the jump and leaves the point as it was, any other
    copy becomes the point's region and allows it.
   */
  method IsAllowedToJump(targetPoint: ZonePoint, player: Player, manager: PoolManager.Manager)
    returns (allowed: bool)
    requires manager.Valid()
    modifies targetPoint`targetRegion, manager
    ensures manager.Valid()
    ensures var r := Assign(old(manager.Snapshot()), player, old(targetPoint.targetRegion));
            && manager.Snapshot() == r.pool
            && (allowed <==> r.copy != 0)
            && targetPoint.targetRegion == (if allowed then r.copy else old(targetPoint.targetRegion))
    ensures targetPoint.targetX == old(targetPoint.targetX) && targetPoint.targetY == old(targetPoint.targetY)
    ensures targetPoint.targetZ == old(targetPoint.targetZ) && targetPoint.targetHeading == old(targetPoint.targetHeading)
  {
    var baseRegionId := targetPoint.targetRegion;
    var assignedCopy := manager.GetOrAssignCopy(player, baseRegionId);
    if assignedCopy == 0 {
      return false;
    }
    targetPoint.targetRegion := assignedCopy;
    return true;
  }
}
