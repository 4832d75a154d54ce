/**
  PseudoInstanceManager: the five tables as fields of one object, and one
  method per operation, each performed as one atomic step (the source holds
  a single lock around every table access).  Every method is proved to take
  the pool from `old(Snapshot())` to the state the matching PoolSpec step
  describes, so the lemmas of PoolProperties apply to the object.
 */
module PoolManager {
  import opened Wrappers
  import opened Numerics
  import opened PoolSpec
  import PoolProperties
  import CopyList

  /**
    Init's inner loop: the record's list is split on ',' and every trimmed
    part converted into `copyIds[i]`; the first part that does not convert
    ends the parse (the source's exception).
   */
  method ParseCopyIds(s: string) returns (ids: Option<seq<uint16>>)
    ensures ids == CopyList.ParseCopyList(s)
  {
    var parts := CopyList.Split(s, ',');
    var copyIds := new uint16[|parts|];
    var i := 0;
    while i < |parts|
      invariant 0 <= i <= |parts|
      invariant forall j :: 0 <= j < i ==> CopyList.ParseUInt16(CopyList.Trim(parts[j])) == Some(copyIds[j])
    {
      var v := CopyList.ParseUInt16(CopyList.Trim(parts[i]));
      if v.None? {
        CopyList.ParsePartsFails(parts, i);
        return None;
      }
      copyIds[i] := v.value;
      i := i + 1;
    }
    CopyList.ParsePartsAllConverted(parts, copyIds[..]);
    ids := Some(copyIds[..]);
  }

  class Manager {
    var configs: map<uint16, Config>
    var configOrder: seq<uint16>
    var copyStates: map<uint16, CopyState>
    var assignments: map<string, uint16>
    var resetTimers: map<uint16, ResetTimer>

    /** The tables as one value. */
    function Snapshot(): Pool
      reads this
    {
      Pool(configs, configOrder, copyStates, assignments, resetTimers)
    }

    ghost predicate Valid()
      reads this
    {
      WellFormed(Snapshot())
    }

    constructor ()
      ensures Valid() && Snapshot() == EmptyPool()
    {
      configs, configOrder, copyStates, assignments, resetTimers := map[], [], map[], map[], map[];
    }

    /** Registers every enabled stored record; false as soon as one copy list does not parse. */
    method Init(records: seq<DbConfig>) returns (ok: bool)
      requires Valid()
      modifies this
      ensures Valid()
      ensures Initialized(Snapshot(), ok) == InitAll(old(Snapshot()), records)
    {
      var i := 0;
      while i < |records|
        invariant 0 <= i <= |records|
        invariant Valid()
        invariant InitAll(old(Snapshot()), records) == InitAll(Snapshot(), records[i..])
      {
        var dbConfig := records[i];
        assert records[i..][0] == dbConfig && records[i..][1..] == records[i + 1..];
        if dbConfig.enabled {
          var copyIds := ParseCopyIds(dbConfig.copyRegionIds);
          if copyIds.None? {
            return false;
          }
          RegisterDungeon(ConfigOf(dbConfig, copyIds.value));
        }
        i := i + 1;
      }
      return true;
    }

    /** Stores the configuration under its base id and sets each of its copies Available. */
    method RegisterDungeon(config: Config)
      requires Valid()
      modifies this
      ensures Valid()
      ensures Snapshot() == Register(old(Snapshot()), config)
    {
      if config.baseRegionId !in configs {
        configOrder := configOrder + [config.baseRegionId];
      }
      configs := configs[config.baseRegionId := config];
      ghost var target := Register(old(Snapshot()), config);
      assert configs == target.configs && configOrder == target.configOrder;
      var ids := config.copyRegionIds;
      var i := 0;
      while i < |ids|
        invariant 0 <= i <= |ids|
        invariant configs == target.configs && configOrder == target.configOrder
        invariant assignments == target.assignments && resetTimers == target.resetTimers
        invariant forall c :: c in copyStates <==> c in old(copyStates) || c in ids[..i]
        invariant forall c :: c in ids[..i] ==> copyStates[c] == Available
        invariant forall c :: c in old(copyStates) && c !in ids[..i] ==> copyStates[c] == old(copyStates)[c]
      {
        assert ids[..i + 1] == ids[..i] + [ids[i]];
        copyStates := copyStates[ids[i] := Available];
        i := i + 1;
      }
      assert ids[..i] == ids;
      assert copyStates == target.copyStates;
      PoolProperties.RegisterPreservesWellFormed(old(Snapshot()), config);
    }

    /** The copy for the player's party in the dungeon `baseRegionId`, or 0. */
    method GetOrAssignCopy(player: Player, baseRegionId: uint16) returns (copy: uint16)
      requires Valid()
      modifies this
      ensures Valid()
      ensures Assigned(Snapshot(), copy) == Assign(old(Snapshot()), player, baseRegionId)
    {
      if baseRegionId !in configs {
        return 0;
      }
      var config := configs[baseRegionId];
      var key := AssignmentKey(player);
      if key in assignments {
        var existingCopy := assignments[key];
        if existingCopy in copyStates && copyStates[existingCopy] != Resetting {
          copyStates := copyStates[existingCopy := Occupied];
          CancelResetTimer(existingCopy);
          return existingCopy;
        } else {
          assignments := assignments - {key};
        }
      } else {
        assert assignments - {key} == assignments;
      }
      var ids := config.copyRegionIds;
      var i := 0;
      while i < |ids|
        invariant 0 <= i <= |ids|
        invariant forall j :: 0 <= j < i ==> !IsAvailable(copyStates, ids[j])
        invariant Snapshot() == old(Snapshot()).(assignments := old(assignments) - {key})
      {
        var copyId := ids[i];
        if copyId in copyStates && copyStates[copyId] == Available {
          FirstAvailableAt(ids, copyStates, i);
          assignments := assignments[key := copyId];
          copyStates := copyStates[copyId := Occupied];
          return copyId;
        }
        i := i + 1;
      }
      assert FirstAvailable(ids, copyStates) == None;
      return 0;
    }

    /** A player left the region `sender`: arm the copy's reset timer when it is (nearly) empty. */
    method OnPlayerLeaveRegion(sender: Option<RegionView>)
      requires Valid()
      modifies this
      ensures Valid()
      ensures Snapshot() == Leave(old(Snapshot()), sender)
    {
      if sender.None? {
        return;
      }
      var region := sender.value;
      if region.id in copyStates {
        if region.numPlayers <= 1 {
          var _ := StartResetTimer(region.id);
        }
      }
    }

    /** Replaces any timer of the copy by a fresh one with the delay of the first dungeon listing it. */
    method StartResetTimer(copyRegionId: uint16) returns (outcome: TimerStart)
      requires Valid()
      modifies this
      ensures Valid()
      ensures Started(Snapshot(), outcome) == StartTimer(old(Snapshot()), copyRegionId)
    {
      CancelResetTimer(copyRegionId);
      var found := FindListingConfig(copyRegionId);
      if found.None? {
        return NoConfig;
      }
      var config := configs[configOrder[found.value]];
      if config.resetDelayMs <= 0 {
        return IntervalRejected;
      }
      resetTimers := resetTimers[copyRegionId := ResetTimer(config.resetDelayMs, false)];
      return Armed;
    }

    /**
      StartResetTimer's search: the configurations in dictionary order, each
      one's copy list in order, stopping at the first that lists the copy.
     */
    method FindListingConfig(copyRegionId: uint16) returns (found: Option<nat>)
      requires Valid()
      ensures found == FindConfig(configOrder, configs, copyRegionId)
    {
      found := None;
      var i := 0;
      while i < |configOrder|
        invariant 0 <= i <= |configOrder|
        invariant found.None?
        invariant forall j :: 0 <= j < i ==> !Lists(configs, configOrder[j], copyRegionId)
      {
        assert configOrder[i] in configOrder;
        var config := configs[configOrder[i]];
        var k := 0;
        while k < |config.copyRegionIds|
          invariant 0 <= k <= |config.copyRegionIds|
          invariant found.None?
          invariant forall j :: 0 <= j < k ==> config.copyRegionIds[j] != copyRegionId
        {
          if config.copyRegionIds[k] == copyRegionId {
            FindConfigAt(configOrder, configs, copyRegionId, i);
            found := Some(i);
            break;
          }
          k := k + 1;
        }
        if found.Some? {
          return;
        }
        i := i + 1;
      }
    }

    /** Stops and forgets the copy's timer, if it has one. */
    method CancelResetTimer(copyRegionId: uint16)
      modifies this
      ensures Snapshot() == CancelTimer(old(Snapshot()), copyRegionId)
    {
      if copyRegionId in resetTimers {
        resetTimers := resetTimers - {copyRegionId};
      }
    }

    /** The copy's pending timer elapses; its entry stays in the table and the copy is reset. */
    method TimerElapsed(copyRegionId: uint16, occupancy: Option<int>, spawn: SpawnOutcome)
      requires Valid()
      requires copyRegionId in resetTimers && !resetTimers[copyRegionId].elapsed
      modifies this
      ensures Valid()
      ensures Snapshot() == PoolSpec.TimerElapsed(old(Snapshot()), copyRegionId, occupancy, spawn)
    {
      resetTimers := resetTimers[copyRegionId := resetTimers[copyRegionId].(elapsed := true)];
      ResetCopy(copyRegionId, occupancy, spawn);
    }

    /**
      Aborts (Occupied) when the region still has players; otherwise marks
      the copy Resetting, drops the assignments that point at it, and after
      the respawn phase marks it Available unless the region was gone.
     */
    method ResetCopy(copyRegionId: uint16, occupancy: Option<int>, spawn: SpawnOutcome)
      requires Valid()
      modifies this
      ensures Valid()
      ensures Snapshot() == PoolSpec.ResetCopy(old(Snapshot()), copyRegionId, occupancy, spawn)
    {
      PoolProperties.ResetPreservesWellFormed(Snapshot(), copyRegionId, occupancy, spawn);
      if occupancy.Some? && occupancy.value > 0 {
        copyStates := copyStates[copyRegionId := Occupied];
        return;
      }
      copyStates := copyStates[copyRegionId := Resetting];

      var keysToRemove: seq<string> := [];
      var pending := assignments.Keys;
      while pending != {}
        invariant pending <= assignments.Keys
        invariant configs == old(configs) && configOrder == old(configOrder) && resetTimers == old(resetTimers)
        invariant copyStates == old(copyStates)[copyRegionId := Resetting]
        invariant assignments == old(assignments)
        invariant forall k :: k in assignments && k !in pending ==> (k in keysToRemove <==> assignments[k] == copyRegionId)
        invariant forall k :: k in keysToRemove ==> k in assignments && k !in pending
        decreases pending
      {
        var key :| key in pending;
        if assignments[key] == copyRegionId {
          keysToRemove := keysToRemove + [key];
        }
        pending := pending - {key};
      }

      ghost var before := assignments;
      var j := 0;
      while j < |keysToRemove|
        invariant 0 <= j <= |keysToRemove|
        invariant configs == old(configs) && configOrder == old(configOrder) && resetTimers == old(resetTimers)
        invariant copyStates == old(copyStates)[copyRegionId := Resetting]
        invariant before == old(assignments)
        invariant forall k :: k in assignments <==> k in before && k !in keysToRemove[..j]
        invariant forall k :: k in assignments ==> assignments[k] == before[k]
      {
        assert keysToRemove[..j + 1] == keysToRemove[..j] + [keysToRemove[j]];
        assignments := assignments - {keysToRemove[j]};
        j := j + 1;
      }
      assert keysToRemove[..j] == keysToRemove;
      assert assignments == WithoutCopy(before, copyRegionId);

      if spawn != RegionGone {
        copyStates := copyStates[copyRegionId := Available];
      }
    }

    /** isPseudoInstanceCopy. */
    method IsPseudoInstanceCopy(regionId: uint16) returns (r: bool)
      ensures r <==> regionId in copyStates
    {
      return regionId in copyStates;
    }

    /** The stored state of the copy; Available for an id without one. */
    method GetCopyState(copyRegionId: uint16) returns (state: CopyState)
      ensures copyRegionId in copyStates ==> state == copyStates[copyRegionId]
      ensures copyRegionId !in copyStates ==> state == Available
    {
      if copyRegionId in copyStates {
        return copyStates[copyRegionId];
      }
      return Available;
    }

    /** Forgets the player's party assignment; copy states and timers are untouched. */
    method ReleaseAssignment(player: Player)
      requires Valid()
      modifies this
      ensures Valid()
      ensures Snapshot() == Release(old(Snapshot()), player)
    {
      var key := AssignmentKey(player);
      if key in assignments {
        assignments := assignments - {key};
      }
    }
  }

  /** The first listing found by a scan that saw no listing before position `i`. */
  lemma FindConfigAt(order: seq<uint16>, configs: map<uint16, Config>, c: uint16, i: nat)
    requires i < |order| && Lists(configs, order[i], c)
    requires forall j :: 0 <= j < i ==> !Lists(configs, order[j], c)
    ensures FindConfig(order, configs, c) == Some(i)
  {
  }

  /** The first Available copy found by a scan that saw none before position `i`. */
  lemma FirstAvailableAt(ids: seq<uint16>, states: map<uint16, CopyState>, i: nat)
    requires i < |ids| && IsAvailable(states, ids[i])
    requires forall j :: 0 <= j < i ==> !IsAvailable(states, ids[j])
    ensures FirstAvailable(ids, states) == Some(i)
  {
  }
}
