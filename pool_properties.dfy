/**
  What the pool steps of PoolSpec guarantee, and where they fall short:
  assignment keys, sticky reuse, allocation order, exhaustion, the single
  reset timer per copy, the outcomes of a reset, the "no copy is booked
  twice" invariant and the ways the pool leaves it, and Init's all-or-prefix
  behaviour.
 */
module PoolProperties {
  import opened Wrappers
  import opened Numerics
  import opened PoolSpec
  import CopyList

  // ------------------------------------------------------------------ keys

  predicate InLedGroup(player: Player) {
    player.group.Some? && player.group.value.leaderId.Some?
  }

  /** Two members of the same led group share a key, so they share a copy. */
  lemma SameLedGroupSameKey(a: Player, b: Player)
    requires InLedGroup(a) && InLedGroup(b)
    requires a.group.value.leaderId == b.group.value.leaderId
    ensures AssignmentKey(a) == AssignmentKey(b)
  {
  }

  /** A group key never equals a solo key: their prefixes differ. */
  lemma GroupKeyIsNotSoloKey(a: Player, b: Player)
    requires InLedGroup(a) && !InLedGroup(b)
    ensures AssignmentKey(a) != AssignmentKey(b)
  {
    assert AssignmentKey(a)[0] == 'g';
    assert AssignmentKey(b)[0] == 'p';
  }

  /** Equal keys mean the same leader (in a led group) or the same player (alone). */
  lemma EqualKeysSameParty(a: Player, b: Player)
    requires AssignmentKey(a) == AssignmentKey(b)
    ensures InLedGroup(a) == InLedGroup(b)
    ensures InLedGroup(a) ==> a.group.value.leaderId == b.group.value.leaderId
    ensures !InLedGroup(a) ==> a.internalId == b.internalId
  {
    var k := AssignmentKey(a);
    if InLedGroup(a) != InLedGroup(b) {
      if InLedGroup(a) { GroupKeyIsNotSoloKey(a, b); } else { GroupKeyIsNotSoloKey(b, a); }
    } else if InLedGroup(a) {
      assert a.group.value.leaderId.value == k[6..] == b.group.value.leaderId.value;
    } else {
      assert a.internalId == k[7..] == b.internalId;
    }
  }

  // ------------------------------------------------------------ invariants

  /** No copy is recorded for two keys. */
  ghost predicate Exclusive(p: Pool) {
    forall k1, k2 :: k1 in p.assignments && k2 in p.assignments && p.assignments[k1] == p.assignments[k2] ==> k1 == k2
  }

  /** A copy that some key holds has a state, and it is not Available. */
  ghost predicate AssignedNotAvailable(p: Pool) {
    forall k :: k in p.assignments ==> p.assignments[k] in p.copyStates && p.copyStates[p.assignments[k]] != Available
  }

  ghost predicate NoDoubleBooking(p: Pool) {
    Exclusive(p) && AssignedNotAvailable(p)
  }

  ghost predicate Safe(p: Pool) {
    WellFormed(p) && NoDoubleBooking(p)
  }

  lemma EmptyPoolSafe()
    ensures Safe(EmptyPool())
  {
  }

  // ---------------------------------------------------------- registration

  lemma RegisterPreservesWellFormed(p: Pool, cfg: Config)
    requires WellFormed(p)
    ensures WellFormed(Register(p, cfg))
  {
    var q := Register(p, cfg);
    forall b, c | Lists(q.configs, b, c) ensures c in q.copyStates {
      if b != cfg.baseRegionId { assert Lists(p.configs, b, c); }
    }
    if cfg.baseRegionId !in p.configs {
      forall i, j | 0 <= i < j < |q.configOrder| ensures q.configOrder[i] != q.configOrder[j] {
        if j == |p.configOrder| { assert q.configOrder[i] in p.configs; }
      }
    }
  }

  /** Registration keeps the invariant when none of its copies is held by a key. */
  lemma RegisterUnheldCopiesKeepsNoDoubleBooking(p: Pool, cfg: Config)
    requires NoDoubleBooking(p)
    requires forall k :: k in p.assignments ==> p.assignments[k] !in cfg.copyRegionIds
    ensures NoDoubleBooking(Register(p, cfg))
  {
  }

  // ------------------------------------------------------------ assignment

  /** An unknown dungeon gets "no copy" and nothing changes. */
  lemma AssignUnregistered(p: Pool, player: Player, b: uint16)
    requires b !in p.configs
    ensures Assign(p, player, b) == Assigned(p, 0)
  {
  }

  /**
    Sticky reuse: a key whose copy has a state other than Resetting gets that
    copy back, now Occupied and without a pending timer, whichever dungeon
    the copy belongs to.
   */
  lemma AssignSticky(p: Pool, player: Player, b: uint16)
    requires b in p.configs && HasValidAssignment(p, AssignmentKey(player))
    ensures var c := p.assignments[AssignmentKey(player)];
            var r := Assign(p, player, b);
            && r.copy == c
            && r.pool == p.(copyStates := p.copyStates[c := Occupied], resetTimers := p.resetTimers - {c})
  {
  }

  /**
    A Resetting copy is never handed out: neither as a sticky assignment,
    which must not be Resetting, nor by allocation, which takes only
    Available copies.  It stays Resetting (copy 0 is excluded because 0 is
    also the "no copy" answer).
   */
  lemma AssignSkipsResetting(p: Pool, player: Player, b: uint16, c: uint16)
    requires c in p.copyStates && p.copyStates[c] == Resetting
    ensures Assign(p, player, b).copy != c || c == 0
    ensures c in Assign(p, player, b).pool.copyStates && Assign(p, player, b).pool.copyStates[c] == Resetting
  {
    if b in p.configs && !HasValidAssignment(p, AssignmentKey(player)) {
      AssignAllocates(p, player, b);
    }
  }

  /**
    Allocation: without a reusable assignment, a stale one is dropped and the
    first copy of the dungeon (in listed order) that is Available is recorded
    for the key and marked Occupied; with none Available the answer is 0 and
    dropping the stale assignment is the only change.
   */
  lemma AssignAllocates(p: Pool, player: Player, b: uint16)
    requires b in p.configs && !HasValidAssignment(p, AssignmentKey(player))
    ensures var key := AssignmentKey(player);
            var ids := p.configs[b].copyRegionIds;
            var r := Assign(p, player, b);
            && ((exists j :: 0 <= j < |ids| && IsAvailable(p.copyStates, ids[j])) ==>
                  exists i :: 0 <= i < |ids|
                    && IsAvailable(p.copyStates, ids[i])
                    && (forall j :: 0 <= j < i ==> !IsAvailable(p.copyStates, ids[j]))
                    && r.copy == ids[i]
                    && r.pool.assignments == (p.assignments - {key})[key := ids[i]]
                    && r.pool.copyStates == p.copyStates[ids[i] := Occupied]
                    && r.pool.resetTimers == p.resetTimers
                    && r.pool.configs == p.configs && r.pool.configOrder == p.configOrder)
            && ((forall j :: 0 <= j < |ids| ==> !IsAvailable(p.copyStates, ids[j])) ==>
                  r == Assigned(p.(assignments := p.assignments - {key}), 0))
  {
    var ids := p.configs[b].copyRegionIds;
    match FirstAvailable(ids, p.copyStates)
    case None =>
    case Some(i) =>
  }

  /** Exhaustion: a requester with no assignment at all changes nothing when no copy is Available. */
  lemma AssignExhausted(p: Pool, player: Player, b: uint16)
    requires b in p.configs && AssignmentKey(player) !in p.assignments
    requires forall j :: 0 <= j < |p.configs[b].copyRegionIds| ==> !IsAvailable(p.copyStates, p.configs[b].copyRegionIds[j])
    ensures Assign(p, player, b) == Assigned(p, 0)
  {
    AssignAllocates(p, player, b);
    assert p.assignments - {AssignmentKey(player)} == p.assignments;
  }

  /** Whatever the step hands out is either the key's own reusable copy or a copy that was Available. */
  lemma AssignHandsOutOnlyAvailableOrOwn(p: Pool, player: Player, b: uint16)
    requires b in p.configs
    ensures var key := AssignmentKey(player);
            var r := Assign(p, player, b);
            key in r.pool.assignments ==>
              r.pool.assignments[key] == r.copy
              && ((HasValidAssignment(p, key) && r.copy == p.assignments[key])
                  || (IsAvailable(p.copyStates, r.copy) && r.copy in p.configs[b].copyRegionIds))
  {
    if !HasValidAssignment(p, AssignmentKey(player)) { AssignAllocates(p, player, b); }
  }

  lemma AssignPreservesWellFormed(p: Pool, player: Player, b: uint16)
    requires WellFormed(p)
    ensures WellFormed(Assign(p, player, b).pool)
  {
    if b in p.configs && !HasValidAssignment(p, AssignmentKey(player)) { AssignAllocates(p, player, b); }
  }

  /** Because only Available copies are handed out, no copy is ever booked for two keys. */
  lemma {:induction false} AssignPreservesNoDoubleBooking(p: Pool, player: Player, b: uint16)
    requires NoDoubleBooking(p)
    ensures NoDoubleBooking(Assign(p, player, b).pool)
  {
    var key := AssignmentKey(player);
    if b in p.configs && !HasValidAssignment(p, key) {
      AssignAllocates(p, player, b);
      var q := Assign(p, player, b).pool;
      if key in q.assignments {
        var c := q.assignments[key];
        forall k | k in q.assignments && k != key ensures q.assignments[k] != c {
          assert k in p.assignments && q.assignments[k] == p.assignments[k];
        }
      }
    }
  }

  lemma ReleasePreservesSafe(p: Pool, player: Player)
    requires Safe(p)
    ensures Safe(Release(p, player))
  {
  }

  /** ReleaseAssignment drops exactly the caller's key and touches no copy state or timer. */
  lemma ReleaseDropsOnlyKey(p: Pool, player: Player)
    ensures var q := Release(p, player);
            && (forall k :: k in q.assignments <==> k in p.assignments && k != AssignmentKey(player))
            && (forall k :: k in q.assignments ==> q.assignments[k] == p.assignments[k])
            && q.copyStates == p.copyStates && q.resetTimers == p.resetTimers
            && q.configs == p.configs && q.configOrder == p.configOrder
  {
  }

  /** Every copy of a registered dungeon is recognised as a pseudo-instance copy. */
  lemma RegisteredCopyIsCopy(p: Pool, b: uint16, c: uint16)
    requires WellFormed(p) && Lists(p.configs, b, c)
    ensures IsCopy(p, c)
  {
  }

  lemma UnknownCopyReadsAvailable(p: Pool, c: uint16)
    requires !IsCopy(p, c)
    ensures StateOf(p, c) == Available
  {
  }

  /** A copy GetOrAssignCopy hands out reads as an Occupied pseudo-instance copy afterwards. */
  lemma AssignedCopyReadsOccupied(p: Pool, player: Player, b: uint16)
    ensures var r := Assign(p, player, b);
            r.copy != 0 ==> IsCopy(r.pool, r.copy) && StateOf(r.pool, r.copy) == Occupied
  {
  }

  // ---------------------------------------------------------------- timers

  /** Cancelling a copy that has no timer changes nothing. */
  lemma CancelWithoutTimer(p: Pool, c: uint16)
    requires c !in p.resetTimers
    ensures CancelTimer(p, c) == p
  {
    assert p.resetTimers - {c} == p.resetTimers;
  }

  /** A copy listed by no dungeon loses its old timer and gets none. */
  lemma StartTimerNoConfig(p: Pool, c: uint16)
    requires WellFormed(p)
    ensures StartTimer(p, c).outcome == NoConfig <==> forall b :: b in p.configs ==> c !in p.configs[b].copyRegionIds
    ensures StartTimer(p, c).outcome == NoConfig ==> c !in StartTimer(p, c).pool.resetTimers
  {
    if StartTimer(p, c).outcome != NoConfig {
      var i := FindConfig(p.configOrder, p.configs, c).value;
      assert Lists(p.configs, p.configOrder[i], c);
    } else {
      forall b | b in p.configs ensures c !in p.configs[b].copyRegionIds {
        var i :| 0 <= i < |p.configOrder| && p.configOrder[i] == b;
        assert !Lists(p.configs, p.configOrder[i], c);
      }
    }
  }

  /** An armed timer carries the delay of the first registered dungeon that lists the copy. */
  lemma StartTimerUsesFirstConfig(p: Pool, c: uint16)
    requires StartTimer(p, c).outcome == Armed
    ensures exists i :: 0 <= i < |p.configOrder|
              && Lists(p.configs, p.configOrder[i], c)
              && (forall j :: 0 <= j < i ==> !Lists(p.configs, p.configOrder[j], c))
              && StartTimer(p, c).pool.resetTimers[c] == ResetTimer(p.configs[p.configOrder[i]].resetDelayMs, false)
  {
    var i := FindConfig(p.configOrder, p.configs, c).value;
    assert Lists(p.configs, p.configOrder[i], c);
  }

  /**
    Once the first dungeon (in enumeration order) listing the copy is known,
    a timer is armed exactly when its delay is positive; otherwise the Timer
    constructor rejects the interval.
   */
  lemma StartTimerArmsWhenListed(p: Pool, c: uint16, i: nat)
    requires i < |p.configOrder| && Lists(p.configs, p.configOrder[i], c)
    requires forall j :: 0 <= j < i ==> !Lists(p.configs, p.configOrder[j], c)
    ensures StartTimer(p, c).outcome == Armed <==> p.configs[p.configOrder[i]].resetDelayMs > 0
    ensures StartTimer(p, c).outcome != Armed ==> StartTimer(p, c).outcome == IntervalRejected
    ensures StartTimer(p, c).outcome == Armed ==>
              StartTimer(p, c).pool.resetTimers[c] == ResetTimer(p.configs[p.configOrder[i]].resetDelayMs, false)
  {
    var f := FindConfig(p.configOrder, p.configs, c);
    assert f == Some(i) by {
      if f.None? {
      } else if f.value < i {
      } else if f.value > i {
      }
    }
  }

  /**
    The leave handler never changes a copy state or an assignment, and it
    only touches the timer of the region it was told about, and only when
    that region is a known copy with at most one player left.
   */
  lemma LeaveOnlyArmsTimer(p: Pool, sender: Option<RegionView>)
    ensures var q := Leave(p, sender);
            && q.copyStates == p.copyStates && q.assignments == p.assignments
            && q.configs == p.configs && q.configOrder == p.configOrder
            && (q != p ==> sender.Some? && sender.value.id in p.copyStates && sender.value.numPlayers <= 1)
            && (forall d :: (sender.None? || d != sender.value.id) ==>
                  (d in q.resetTimers <==> d in p.resetTimers)
                  && (d in p.resetTimers ==> q.resetTimers[d] == p.resetTimers[d]))
  {
  }

  /**
    The last player leaving a known copy arms its reset timer, with the delay
    of the first dungeon (in enumeration order) that lists the copy, when
    that delay is positive.
   */
  lemma LeaveArmsTimer(p: Pool, v: RegionView, i: nat)
    requires v.id in p.copyStates && v.numPlayers <= 1
    requires i < |p.configOrder| && Lists(p.configs, p.configOrder[i], v.id)
    requires forall j :: 0 <= j < i ==> !Lists(p.configs, p.configOrder[j], v.id)
    requires p.configs[p.configOrder[i]].resetDelayMs > 0
    ensures var q := Leave(p, Some(v));
            v.id in q.resetTimers && q.resetTimers[v.id] == ResetTimer(p.configs[p.configOrder[i]].resetDelayMs, false)
  {
    StartTimerArmsWhenListed(p, v.id, i);
  }

  /** Delivering the same leave event twice leaves the pool as one delivery does. */
  lemma {:induction false} LeaveIdempotent(p: Pool, sender: Option<RegionView>)
    ensures Leave(Leave(p, sender), sender) == Leave(p, sender)
  {
    var q := Leave(p, sender);
    if q != p {
      var c := sender.value.id;
      StartTimerTwice(p, c);
    }
  }

  lemma StartTimerTwice(p: Pool, c: uint16)
    ensures StartTimer(StartTimer(p, c).pool, c) == StartTimer(p, c)
  {
    var s := StartTimer(p, c);
    var t := StartTimer(s.pool, c);
    assert t.outcome == s.outcome;
    assert t.pool.resetTimers == s.pool.resetTimers;
  }

  lemma LeavePreservesSafe(p: Pool, sender: Option<RegionView>)
    requires Safe(p)
    ensures Safe(Leave(p, sender))
  {
    LeaveOnlyArmsTimer(p, sender);
  }

  // ----------------------------------------------------------------- reset

  /** A reset that finds players in the region only marks the copy Occupied. */
  lemma ResetAbortsWhenOccupied(p: Pool, c: uint16, players: int, spawn: SpawnOutcome)
    requires players > 0
    ensures var q := ResetCopy(p, c, Some(players), spawn);
            && StateOf(q, c) == Occupied
            && q.assignments == p.assignments && q.resetTimers == p.resetTimers
            && q.configs == p.configs && q.configOrder == p.configOrder
            && q.copyStates.Keys == p.copyStates.Keys + {c}
            && (forall d :: d != c && d in p.copyStates ==> d in q.copyStates && q.copyStates[d] == p.copyStates[d])
  {
  }

  /**
    A reset of an empty (or missing) region drops exactly the assignments
    that point at the copy and ends Available after a respawn or an
    exception, but stays Resetting when the region is gone at respawn time.
   */
  lemma ResetReclaims(p: Pool, c: uint16, occupancy: Option<int>, spawn: SpawnOutcome)
    requires occupancy.None? || occupancy.value <= 0
    ensures var q := ResetCopy(p, c, occupancy, spawn);
            && (forall k :: k in q.assignments <==> k in p.assignments && p.assignments[k] != c)
            && (forall k :: k in q.assignments ==> q.assignments[k] == p.assignments[k])
            && StateOf(q, c) == (if spawn == RegionGone then Resetting else Available)
            && q.configs == p.configs && q.configOrder == p.configOrder
            && q.copyStates.Keys == p.copyStates.Keys + {c}
            && (forall d :: d != c && d in p.copyStates ==> d in q.copyStates && q.copyStates[d] == p.copyStates[d])
            && q.resetTimers == p.resetTimers
  {
  }

  /** A fired timer's entry stays in the timer table, marked elapsed. */
  lemma ElapsedTimerStays(p: Pool, c: uint16, occupancy: Option<int>, spawn: SpawnOutcome)
    requires c in p.resetTimers && !p.resetTimers[c].elapsed
    ensures var q := TimerElapsed(p, c, occupancy, spawn);
            c in q.resetTimers && q.resetTimers[c] == p.resetTimers[c].(elapsed := true)
  {
  }

  lemma ResetPreservesWellFormed(p: Pool, c: uint16, occupancy: Option<int>, spawn: SpawnOutcome)
    requires WellFormed(p)
    ensures WellFormed(ResetCopy(p, c, occupancy, spawn))
  {
    var q := ResetCopy(p, c, occupancy, spawn);
    forall b, d | Lists(q.configs, b, d) ensures d in q.copyStates {
      assert Lists(p.configs, b, d);
    }
  }

  lemma ResetPreservesSafe(p: Pool, c: uint16, occupancy: Option<int>, spawn: SpawnOutcome)
    requires Safe(p)
    ensures Safe(ResetCopy(p, c, occupancy, spawn))
  {
    ResetPreservesWellFormed(p, c, occupancy, spawn);
  }

  lemma TimerElapsedPreservesSafe(p: Pool, c: uint16, occupancy: Option<int>, spawn: SpawnOutcome)
    requires Safe(p) && c in p.resetTimers && !p.resetTimers[c].elapsed
    ensures Safe(TimerElapsed(p, c, occupancy, spawn))
  {
    var fired := p.(resetTimers := p.resetTimers[c := p.resetTimers[c].(elapsed := true)]);
    ResetPreservesSafe(fired, c, occupancy, spawn);
  }

  /**
    Self-healing: after a reset of an empty copy whose respawn succeeded or
    threw, every dungeon listing the copy has an Available copy again, so a
    requester without a reusable assignment is given one.
   */
  lemma ReclaimedCopyIsAssignable(p: Pool, c: uint16, occupancy: Option<int>, spawn: SpawnOutcome, player: Player, b: uint16)
    requires occupancy.None? || occupancy.value <= 0
    requires spawn != RegionGone
    requires Lists(p.configs, b, c)
    ensures var q := ResetCopy(p, c, occupancy, spawn);
            var r := Assign(q, player, b);
            !HasValidAssignment(q, AssignmentKey(player)) ==>
              AssignmentKey(player) in r.pool.assignments && IsAvailable(q.copyStates, r.copy)
  {
    var q := ResetCopy(p, c, occupancy, spawn);
    var ids := q.configs[b].copyRegionIds;
    var j :| 0 <= j < |ids| && ids[j] == c;
    assert IsAvailable(q.copyStates, ids[j]);
    if !HasValidAssignment(q, AssignmentKey(player)) {
      AssignAllocates(q, player, b);
    }
  }

  /** A reset whose respawn finds no region leaves the copy Resetting, so allocation never picks it again. */
  lemma RegionGoneStrandsCopy(p: Pool, c: uint16, occupancy: Option<int>)
    requires occupancy.None? || occupancy.value <= 0
    ensures var q := ResetCopy(p, c, occupancy, RegionGone);
            StateOf(q, c) == Resetting && !IsAvailable(q.copyStates, c)
  {
  }

  // ------------------------------------------------------------------ Init

  predicate ParsesIfEnabled(r: DbConfig) {
    r.enabled ==> CopyList.ParseCopyList(r.copyRegionIds).Some?
  }

  /** Init reports success exactly when every enabled record's copy list parses. */
  lemma {:induction false} InitOkIff(p: Pool, records: seq<DbConfig>)
    ensures InitAll(p, records).ok <==> forall i :: 0 <= i < |records| ==> ParsesIfEnabled(records[i])
    decreases |records|
  {
    if records != [] {
      var r, rest := records[0], records[1..];
      assert forall i :: 0 <= i < |rest| ==> rest[i] == records[i + 1];
      var parsed := CopyList.ParseCopyList(r.copyRegionIds);
      if !r.enabled {
        assert InitAll(p, records) == InitAll(p, rest);
        InitOkIff(p, rest);
        assert ParsesIfEnabled(records[0]);
      } else if parsed.Some? {
        var q := Register(p, ConfigOf(r, parsed.value));
        assert InitAll(p, records) == InitAll(q, rest);
        InitOkIff(q, rest);
        assert ParsesIfEnabled(records[0]);
      } else {
        assert !InitAll(p, records).ok;
        assert !ParsesIfEnabled(records[0]);
      }
    }
  }

  /** A successful prefix of the records is processed on its own before the rest. */
  lemma {:induction false} InitAppend(p: Pool, pre: seq<DbConfig>, post: seq<DbConfig>)
    requires InitAll(p, pre).ok
    ensures InitAll(p, pre + post) == InitAll(InitAll(p, pre).pool, post)
    decreases |pre|
  {
    if pre != [] {
      assert (pre + post)[1..] == pre[1..] + post;
      var r := pre[0];
      if !r.enabled {
        InitAppend(p, pre[1..], post);
      } else {
        InitAppend(Register(p, ConfigOf(r, CopyList.ParseCopyList(r.copyRegionIds).value)), pre[1..], post);
      }
    } else {
      assert pre + post == post;
    }
  }

  /**
    At the first enabled record whose list does not parse (the head of
    `rest`), Init returns false: what came before stays registered, and that
    record and everything after it are never reached.
   */
  lemma InitStopsAtBadRecord(p: Pool, pre: seq<DbConfig>, rest: seq<DbConfig>)
    requires forall i :: 0 <= i < |pre| ==> ParsesIfEnabled(pre[i])
    requires rest != [] && rest[0].enabled && CopyList.ParseCopyList(rest[0].copyRegionIds).None?
    ensures InitAll(p, pre + rest) == Initialized(InitAll(p, pre).pool, false)
  {
    InitOkIff(p, pre);
    InitAppend(p, pre, rest);
    InitHeadFails(InitAll(p, pre).pool, rest);
  }

  lemma InitHeadFails(q: Pool, tail: seq<DbConfig>)
    requires tail != [] && tail[0].enabled && CopyList.ParseCopyList(tail[0].copyRegionIds).None?
    ensures InitAll(q, tail) == Initialized(q, false)
  {
  }

  /** A record left at its defaults is enabled with an empty copy list, so Init stops at it. */
  lemma InitDefaultRecordFails(p: Pool, rest: seq<DbConfig>)
    ensures InitAll(p, [DefaultDbConfig()] + rest) == Initialized(p, false)
  {
    CopyList.DefaultCopyListRejected();
    InitHeadFails(p, [DefaultDbConfig()] + rest);
  }

  lemma InitHeadDisabled(q: Pool, tail: seq<DbConfig>)
    requires tail != [] && !tail[0].enabled
    ensures InitAll(q, tail) == InitAll(q, tail[1..])
  {
  }

  /** A disabled record is skipped without effect. */
  lemma InitSkipsDisabled(p: Pool, pre: seq<DbConfig>, off: DbConfig, post: seq<DbConfig>)
    requires !off.enabled
    ensures InitAll(p, pre + [off] + post) == InitAll(p, pre + post)
  {
    var tail := [off] + post;
    assert pre + [off] + post == pre + tail;
    assert tail != [] && tail[0] == off && tail[1..] == post;
    if InitAll(p, pre).ok {
      InitAppend(p, pre, tail);
      InitAppend(p, pre, post);
      InitHeadDisabled(InitAll(p, pre).pool, tail);
    } else {
      InitFailureIgnoresRest(p, pre, tail);
      InitFailureIgnoresRest(p, pre, post);
    }
  }

  lemma {:induction false} InitFailureIgnoresRest(p: Pool, pre: seq<DbConfig>, post: seq<DbConfig>)
    requires !InitAll(p, pre).ok
    ensures InitAll(p, pre + post) == InitAll(p, pre)
    decreases |pre|
  {
    assert pre != [];
    assert (pre + post)[1..] == pre[1..] + post;
    var r := pre[0];
    if !r.enabled {
      InitFailureIgnoresRest(p, pre[1..], post);
    } else if CopyList.ParseCopyList(r.copyRegionIds).Some? {
      InitFailureIgnoresRest(Register(p, ConfigOf(r, CopyList.ParseCopyList(r.copyRegionIds).value)), pre[1..], post);
    }
  }

  lemma {:induction false} InitPreservesWellFormed(p: Pool, records: seq<DbConfig>)
    requires WellFormed(p)
    ensures WellFormed(InitAll(p, records).pool)
    decreases |records|
  {
    if records != [] {
      var r := records[0];
      if !r.enabled {
        InitPreservesWellFormed(p, records[1..]);
      } else if CopyList.ParseCopyList(r.copyRegionIds).Some? {
        var cfg := ConfigOf(r, CopyList.ParseCopyList(r.copyRegionIds).value);
        RegisterPreservesWellFormed(p, cfg);
        InitPreservesWellFormed(Register(p, cfg), records[1..]);
      }
    }
  }
}
