/**
  The pseudo-instance pool as a value: the four tables of the manager
  (dungeon configurations, copy states, assignments, reset timers) and one
  pure function per public step.  The manager class in PoolManager is proved
  to perform exactly these steps; the lemmas in PoolProperties are about them.
 */
module PoolSpec {
  import opened Wrappers
  import opened Numerics
  import CopyList

  /** eCopyState. */
  datatype CopyState = Available | Occupied | Resetting

  /** PseudoInstanceConfig: a dungeon, its copies in routing order, and its reset delay. */
  datatype Config = Config(dungeonName: string, baseRegionId: uint16, copyRegionIds: seq<uint16>, resetDelayMs: int32)

  /** DBPseudoInstanceConfig: the stored record Init reads. */
  datatype DbConfig = DbConfig(
    dungeonName: string,
    baseRegionId: uint16,
    copyRegionIds: string,
    resetDelayMs: int32,
    entryZonePointId: uint16,
    enabled: bool)

  /** The values a freshly constructed record holds. */
  function DefaultDbConfig(): DbConfig {
    DbConfig("", 0, "", 60000, 0, true)
  }

  /**
    A reset timer held in the timer table: its interval, and whether it has
    already elapsed (an elapsed timer is not removed from the table).
   */
  datatype ResetTimer = ResetTimer(intervalMs: int32, elapsed: bool)

  /** A player's group: the internal id of its leader, when it has one. */
  datatype Group = Group(leaderId: Option<string>)

  datatype Player = Player(name: string, internalId: string, group: Option<Group>)

  /**
    The manager's tables.  `configOrder` is the enumeration order of the
    configuration dictionary: base ids in order of first registration (an
    overwrite keeps its slot, and entries are never removed).
   */
  datatype Pool = Pool(
    configs: map<uint16, Config>,
    configOrder: seq<uint16>,
    copyStates: map<uint16, CopyState>,
    assignments: map<string, uint16>,
    resetTimers: map<uint16, ResetTimer>)

  function EmptyPool(): Pool {
    Pool(map[], [], map[], map[], map[])
  }

  /** Copy `c` is one of the copies listed by the configuration under base id `b`. */
  predicate Lists(configs: map<uint16, Config>, b: uint16, c: uint16) {
    b in configs && c in configs[b].copyRegionIds
  }

  /** The shape every reachable pool has. */
  ghost predicate WellFormed(p: Pool) {
    && (forall i, j :: 0 <= i < j < |p.configOrder| ==> p.configOrder[i] != p.configOrder[j])
    && (forall b :: b in p.configs <==> b in p.configOrder)
    && (forall b :: b in p.configs ==> p.configs[b].baseRegionId == b)
    && (forall b, c :: Lists(p.configs, b, c) ==> c in p.copyStates)
  }

  // ---------------------------------------------------------------- keys

  /** GetAssignmentKey: the group leader's id for a led group, else the player's own id. */
  function AssignmentKey(player: Player): string {
    if player.group.Some? && player.group.value.leaderId.Some? then
      "group-" + player.group.value.leaderId.value
    else
      "player-" + player.internalId
  }

  // ---------------------------------------------------------- registration

  /** RegisterDungeon. */
  function Register(p: Pool, cfg: Config): (q: Pool)
    ensures q.configs == p.configs[cfg.baseRegionId := cfg]
    ensures q.configOrder == if cfg.baseRegionId in p.configs then p.configOrder else p.configOrder + [cfg.baseRegionId]
    ensures forall c :: c in q.copyStates <==> c in p.copyStates || c in cfg.copyRegionIds
    ensures forall c :: c in cfg.copyRegionIds ==> q.copyStates[c] == Available
    ensures forall c :: c in p.copyStates && c !in cfg.copyRegionIds ==> q.copyStates[c] == p.copyStates[c]
    ensures q.assignments == p.assignments && q.resetTimers == p.resetTimers
  {
    p.(configs := p.configs[cfg.baseRegionId := cfg],
       configOrder := if cfg.baseRegionId in p.configs then p.configOrder else p.configOrder + [cfg.baseRegionId],
       copyStates := p.copyStates + map c | c in cfg.copyRegionIds :: Available)
  }

  /** The configuration Init builds from a stored record and its parsed copy list. */
  function ConfigOf(r: DbConfig, ids: seq<uint16>): Config {
    Config(r.dungeonName, r.baseRegionId, ids, r.resetDelayMs)
  }

  datatype Initialized = Initialized(pool: Pool, ok: bool)

  /**
    Init over the stored records in order: disabled records are skipped, the
    first enabled record whose copy list does not parse aborts with false
    (what was registered before it stays registered), otherwise every
    enabled record is registered and the result is true.
   */
  function InitAll(p: Pool, records: seq<DbConfig>): Initialized
    decreases |records|
  {
    if records == [] then Initialized(p, true)
    else if !records[0].enabled then InitAll(p, records[1..])
    else match CopyList.ParseCopyList(records[0].copyRegionIds)
      case None => Initialized(p, false)
      case Some(ids) => InitAll(Register(p, ConfigOf(records[0], ids)), records[1..])
  }

  // ------------------------------------------------------------ assignment

  predicate IsAvailable(states: map<uint16, CopyState>, c: uint16) {
    c in states && states[c] == Available
  }

  /** The position of the first copy in `ids` whose state is Available. */
  function FirstAvailable(ids: seq<uint16>, states: map<uint16, CopyState>): (r: Option<nat>)
    ensures r.Some? ==> r.value < |ids| && IsAvailable(states, ids[r.value])
    ensures r.Some? ==> forall j :: 0 <= j < r.value ==> !IsAvailable(states, ids[j])
    ensures r.None? ==> forall j :: 0 <= j < |ids| ==> !IsAvailable(states, ids[j])
  {
    if ids == [] then None
    else if IsAvailable(states, ids[0]) then Some(0)
    else match FirstAvailable(ids[1..], states)
      case None => None
      case Some(i) => Some(i + 1)
  }

  /** The key's assignment may be reused: its copy has a state and is not Resetting. */
  predicate HasValidAssignment(p: Pool, key: string) {
    key in p.assignments && p.assignments[key] in p.copyStates && p.copyStates[p.assignments[key]] != Resetting
  }

  datatype Assigned = Assigned(pool: Pool, copy: uint16)

  /** GetOrAssignCopy; copy 0 is the "no copy" answer. */
  function Assign(p: Pool, player: Player, baseId: uint16): Assigned {
    if baseId !in p.configs then Assigned(p, 0)
    else
      var key := AssignmentKey(player);
      if HasValidAssignment(p, key) then
        var c := p.assignments[key];
        Assigned(p.(copyStates := p.copyStates[c := Occupied], resetTimers := p.resetTimers - {c}), c)
      else
        var ids := p.configs[baseId].copyRegionIds;
        var cleared := p.(assignments := p.assignments - {key});
        match FirstAvailable(ids, p.copyStates)
        case None => Assigned(cleared, 0)
        case Some(i) =>
          Assigned(cleared.(assignments := cleared.assignments[key := ids[i]],
                            copyStates := cleared.copyStates[ids[i] := Occupied]), ids[i])
  }

  /** ReleaseAssignment. */
  function Release(p: Pool, player: Player): Pool {
    p.(assignments := p.assignments - {AssignmentKey(player)})
  }

  /** GetCopyState: the stored state, Available for an id without one. */
  function StateOf(p: Pool, c: uint16): CopyState {
    if c in p.copyStates then p.copyStates[c] else Available
  }

  /** isPseudoInstanceCopy. */
  predicate IsCopy(p: Pool, c: uint16) {
    c in p.copyStates
  }

  // ---------------------------------------------------------------- timers

  /** CancelResetTimer. */
  function CancelTimer(p: Pool, c: uint16): Pool {
    p.(resetTimers := p.resetTimers - {c})
  }

  /** The position in `order` of the first base id whose configuration lists copy `c`. */
  function FindConfig(order: seq<uint16>, configs: map<uint16, Config>, c: uint16): (r: Option<nat>)
    ensures r.Some? ==> r.value < |order| && Lists(configs, order[r.value], c)
    ensures r.Some? ==> forall j :: 0 <= j < r.value ==> !Lists(configs, order[j], c)
    ensures r.None? ==> forall j :: 0 <= j < |order| ==> !Lists(configs, order[j], c)
  {
    if order == [] then None
    else if Lists(configs, order[0], c) then Some(0)
    else match FindConfig(order[1..], configs, c)
      case None => None
      case Some(i) => Some(i + 1)
  }

  /**
    How StartResetTimer ends: a timer armed, no configuration lists the copy,
    or the Timer constructor rejected a non-positive interval (it throws
    ArgumentException, after the old timer was already cancelled).
   */
  datatype TimerStart = Armed | NoConfig | IntervalRejected

  datatype Started = Started(pool: Pool, outcome: TimerStart)

  /** StartResetTimer. */
  function StartTimer(p: Pool, c: uint16): (r: Started)
    ensures r.pool.configs == p.configs && r.pool.configOrder == p.configOrder
    ensures r.pool.copyStates == p.copyStates && r.pool.assignments == p.assignments
    ensures c in r.pool.resetTimers <==> r.outcome == Armed
    ensures r.outcome == Armed ==> !r.pool.resetTimers[c].elapsed && r.pool.resetTimers[c].intervalMs > 0
    ensures forall d :: d != c ==> (d in r.pool.resetTimers <==> d in p.resetTimers)
    ensures forall d :: d != c && d in p.resetTimers ==> r.pool.resetTimers[d] == p.resetTimers[d]
  {
    var q := CancelTimer(p, c);
    match FindConfig(p.configOrder, p.configs, c)
    case None => Started(q, NoConfig)
    case Some(i) =>
      var cfg := p.configs[p.configOrder[i]];
      if cfg.resetDelayMs <= 0 then Started(q, IntervalRejected)
      else Started(q.(resetTimers := q.resetTimers[c := ResetTimer(cfg.resetDelayMs, false)]), Armed)
  }

  /** The sender of a PlayerLeave event, when it is a region: its id and its player count. */
  datatype RegionView = RegionView(id: uint16, numPlayers: int)

  /** OnPlayerLeaveRegion. */
  function Leave(p: Pool, sender: Option<RegionView>): Pool {
    if sender.Some? && sender.value.id in p.copyStates && sender.value.numPlayers <= 1 then
      StartTimer(p, sender.value.id).pool
    else
      p
  }

  // --------------------------------------------------------------- reset

  /** How the respawn phase of ResetCopy ends. */
  datatype SpawnOutcome =
    | Respawned     // every stored mob recreated
    | SpawnThrew    // an exception escaped the purge or the respawn
    | RegionGone    // the second region lookup found no region

  /** The assignments that do not point at copy `c`. */
  function WithoutCopy(assignments: map<string, uint16>, c: uint16): map<string, uint16> {
    map k | k in assignments && assignments[k] != c :: assignments[k]
  }

  /**
    ResetCopy.  `occupancy` is what the first region lookup sees: the live
    region's player count, or None when there is no region.
   */
  function ResetCopy(p: Pool, c: uint16, occupancy: Option<int>, spawn: SpawnOutcome): Pool {
    if occupancy.Some? && occupancy.value > 0 then
      p.(copyStates := p.copyStates[c := Occupied])
    else
      var cleared := p.(copyStates := p.copyStates[c := Resetting], assignments := WithoutCopy(p.assignments, c));
      if spawn == RegionGone then cleared else cleared.(copyStates := cleared.copyStates[c := Available])
  }

  /** A pending reset timer elapses: it stays in the table, marked elapsed, and runs ResetCopy. */
  function TimerElapsed(p: Pool, c: uint16, occupancy: Option<int>, spawn: SpawnOutcome): Pool
    requires c in p.resetTimers && !p.resetTimers[c].elapsed
  {
    var fired := p.(resetTimers := p.resetTimers[c := p.resetTimers[c].(elapsed := true)]);
    ResetCopy(fired, c, occupancy, spawn)
  }
}
