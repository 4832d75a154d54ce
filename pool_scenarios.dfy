/**
  Concrete runs of the pool: the walk-through of one dungeon with two
  copies, and three runs that show where the pool's behaviour is rougher
  than its intent (a party split by forming a group after entering,
  double booking after re-registration, and copy 0 read as "no copy").
  Each run is proved step by step: one small lemma per call, over the
  named states below.
 */
module PoolScenarios {
  import opened Wrappers
  import opened Numerics
  import opened PoolSpec
  import opened PoolProperties

  /** Dungeon 397 with copies 3970 and 3971 and the default one-minute delay. */
  function Crypt(): Config {
    Config("Crypt", 397, [3970, 3971], 60000)
  }

  /** A second dungeon, 500, with the single copy 5000. */
  function Keep(): Config {
    Config("Keep", 500, [5000], 60000)
  }

  function Solo(id: string): Player {
    Player(id, id, None)
  }

  function Member(id: string, leader: string): Player {
    Player(id, id, Some(Group(Some(leader))))
  }

  /** A pool holding only the Crypt, with the given tables. */
  function CryptWith(states: map<uint16, CopyState>, assignments: map<string, uint16>, timers: map<uint16, ResetTimer>): Pool {
    Pool(map[397 := Crypt()], [397], states, assignments, timers)
  }

  /** Allocation when the key holds nothing: the copy at the first Available position is taken. */
  lemma Allocate(p: Pool, player: Player, b: uint16, i: nat)
    requires b in p.configs && AssignmentKey(player) !in p.assignments
    requires i < |p.configs[b].copyRegionIds| && IsAvailable(p.copyStates, p.configs[b].copyRegionIds[i])
    requires forall j :: 0 <= j < i ==> !IsAvailable(p.copyStates, p.configs[b].copyRegionIds[j])
    ensures var c := p.configs[b].copyRegionIds[i];
            Assign(p, player, b) == Assigned(p.(assignments := p.assignments[AssignmentKey(player) := c],
                                                copyStates := p.copyStates[c := Occupied]), c)
  {
    var key := AssignmentKey(player);
    assert p.assignments - {key} == p.assignments;
    var f := FirstAvailable(p.configs[b].copyRegionIds, p.copyStates);
    assert f == Some(i) by {
      if f.None? {
      } else if f.value < i {
      } else if f.value > i {
      }
    }
  }

  // -------------------------------------------------------- registration

  lemma RegisterCrypt()
    ensures Register(EmptyPool(), Crypt()) == CryptWith(map[3970 := Available, 3971 := Available], map[], map[])
  {
    var q := Register(EmptyPool(), Crypt());
    assert q.copyStates.Keys == {3970, 3971};
  }

  lemma RegisterCryptAgain()
    ensures Register(CryptWith(map[3970 := Occupied, 3971 := Available], map["player-a" := 3970], map[]), Crypt())
         == CryptWith(map[3970 := Available, 3971 := Available], map["player-a" := 3970], map[])
  {
    var q := Register(CryptWith(map[3970 := Occupied, 3971 := Available], map["player-a" := 3970], map[]), Crypt());
    assert q.copyStates.Keys == {3970, 3971};
  }

  /** The Crypt and the Keep, all copies Available, with the given assignments. */
  function BothWith(states: map<uint16, CopyState>, assignments: map<string, uint16>): Pool {
    Pool(map[397 := Crypt(), 500 := Keep()], [397, 500], states, assignments, map[])
  }

  lemma RegisterKeep()
    ensures Register(CryptWith(map[3970 := Available, 3971 := Available], map[], map[]), Keep())
         == BothWith(map[3970 := Available, 3971 := Available, 5000 := Available], map[])
  {
    var q := Register(CryptWith(map[3970 := Available, 3971 := Available], map[], map[]), Keep());
    assert q.copyStates.Keys == {3970, 3971, 5000};
    assert q.configs == map[397 := Crypt(), 500 := Keep()];
  }

  // ---------------------------------------------------------- walk-through

  lemma WalkLeaderEnters()
    ensures Assign(CryptWith(map[3970 := Available, 3971 := Available], map[], map[]), Member("a", "a"), 397)
         == Assigned(CryptWith(map[3970 := Occupied, 3971 := Available], map["group-a" := 3970], map[]), 3970)
  {
    assert AssignmentKey(Member("a", "a")) == "group-a";
    Allocate(CryptWith(map[3970 := Available, 3971 := Available], map[], map[]), Member("a", "a"), 397, 0);
  }

  lemma WalkMemberFollows()
    ensures Assign(CryptWith(map[3970 := Occupied, 3971 := Available], map["group-a" := 3970], map[]), Member("b", "a"), 397)
         == Assigned(CryptWith(map[3970 := Occupied, 3971 := Available], map["group-a" := 3970], map[]), 3970)
  {
    var p := CryptWith(map[3970 := Occupied, 3971 := Available], map["group-a" := 3970], map[]);
    assert AssignmentKey(Member("b", "a")) == "group-a";
    assert p.copyStates[3970 := Occupied] == p.copyStates;
    assert p.resetTimers - {3970} == p.resetTimers;
  }

  lemma WalkSoloTakesSecond()
    ensures Assign(CryptWith(map[3970 := Occupied, 3971 := Available], map["group-a" := 3970], map[]), Solo("c"), 397)
         == Assigned(CryptWith(map[3970 := Occupied, 3971 := Occupied], map["group-a" := 3970, "player-c" := 3971], map[]), 3971)
  {
    assert AssignmentKey(Solo("c")) == "player-c";
    assert "player-c" != "group-a" by { assert "player-c"[0] != "group-a"[0]; }
    Allocate(CryptWith(map[3970 := Occupied, 3971 := Available], map["group-a" := 3970], map[]), Solo("c"), 397, 1);
  }

  lemma WalkSoloTurnedAway()
    ensures var p := CryptWith(map[3970 := Occupied, 3971 := Occupied], map["group-a" := 3970, "player-c" := 3971], map[]);
            Assign(p, Solo("d"), 397) == Assigned(p, 0)
  {
    var p := CryptWith(map[3970 := Occupied, 3971 := Occupied], map["group-a" := 3970, "player-c" := 3971], map[]);
    assert AssignmentKey(Solo("d")) == "player-d";
    assert "player-d" != "group-a" by { assert "player-d"[0] != "group-a"[0]; }
    assert "player-d" != "player-c" by { assert "player-d"[7] != "player-c"[7]; }
    AssignExhausted(p, Solo("d"), 397);
  }

  lemma WalkGroupLeaves()
    ensures Leave(CryptWith(map[3970 := Occupied, 3971 := Occupied], map["group-a" := 3970, "player-c" := 3971], map[]),
                  Some(RegionView(3970, 1)))
         == CryptWith(map[3970 := Occupied, 3971 := Occupied], map["group-a" := 3970, "player-c" := 3971],
                      map[3970 := ResetTimer(60000, false)])
  {
    var p := CryptWith(map[3970 := Occupied, 3971 := Occupied], map["group-a" := 3970, "player-c" := 3971], map[]);
    assert Lists(p.configs, 397, 3970);
    assert FindConfig(p.configOrder, p.configs, 3970) == Some(0);
  }

  lemma WalkTimerFires()
    ensures var p := CryptWith(map[3970 := Occupied, 3971 := Occupied], map["group-a" := 3970, "player-c" := 3971],
                               map[3970 := ResetTimer(60000, false)]);
            TimerElapsed(p, 3970, Some(0), Respawned)
              == CryptWith(map[3970 := Available, 3971 := Occupied], map["player-c" := 3971],
                           map[3970 := ResetTimer(60000, true)])
  {
    var a := map["group-a" := 3970, "player-c" := 3971];
    assert "player-c" != "group-a" by { assert "player-c"[0] != "group-a"[0]; }
    assert WithoutCopy(a, 3970) == map["player-c" := 3971];
    assert map[3970 := Occupied, 3971 := Occupied][3970 := Resetting][3970 := Available]
        == map[3970 := Available, 3971 := Occupied];
  }

  lemma WalkSoloGetsReclaimed()
    ensures Assign(CryptWith(map[3970 := Available, 3971 := Occupied], map["player-c" := 3971],
                             map[3970 := ResetTimer(60000, true)]), Solo("d"), 397).copy == 3970
  {
    assert AssignmentKey(Solo("d")) == "player-d";
    assert "player-d" != "player-c" by { assert "player-d"[7] != "player-c"[7]; }
    Allocate(CryptWith(map[3970 := Available, 3971 := Occupied], map["player-c" := 3971],
                       map[3970 := ResetTimer(60000, true)]), Solo("d"), 397, 0);
  }

  /**
    A leads a group with B; C and D are alone.  A and B share copy 3970, C
    gets 3971, D is turned away.  When the last of the group leaves 3970 and
    the timer fires on the empty region, the copy is reclaimed and D gets it.
   */
  lemma CryptWalkThrough()
    ensures var p0 := Register(EmptyPool(), Crypt());
            var r1 := Assign(p0, Member("a", "a"), 397);
            var r2 := Assign(r1.pool, Member("b", "a"), 397);
            var r3 := Assign(r2.pool, Solo("c"), 397);
            var r4 := Assign(r3.pool, Solo("d"), 397);
            var p5 := Leave(r4.pool, Some(RegionView(3970, 1)));
            && r1.copy == 3970 && r2.copy == 3970 && r3.copy == 3971 && r4.copy == 0
            && 3970 in p5.resetTimers && p5.resetTimers[3970] == ResetTimer(60000, false)
            && var p6 := TimerElapsed(p5, 3970, Some(0), Respawned);
               var r7 := Assign(p6, Solo("d"), 397);
               && StateOf(p6, 3970) == Available
               && "group-a" !in p6.assignments
               && r7.copy == 3970
  {
    RegisterCrypt();
    WalkLeaderEnters();
    WalkMemberFollows();
    WalkSoloTakesSecond();
    WalkSoloTurnedAway();
    WalkGroupLeaves();
    WalkTimerFires();
    WalkSoloGetsReclaimed();
  }

  // ------------------------------------------------------- split party

  lemma SoloAEnters()
    ensures Assign(CryptWith(map[3970 := Available, 3971 := Available], map[], map[]), Solo("a"), 397)
         == Assigned(CryptWith(map[3970 := Occupied, 3971 := Available], map["player-a" := 3970], map[]), 3970)
  {
    assert AssignmentKey(Solo("a")) == "player-a";
    Allocate(CryptWith(map[3970 := Available, 3971 := Available], map[], map[]), Solo("a"), 397, 0);
  }

  lemma SplitGroupTakesSecond()
    ensures Assign(CryptWith(map[3970 := Occupied, 3971 := Available], map["player-a" := 3970], map[]), Member("b", "a"), 397)
         == Assigned(CryptWith(map[3970 := Occupied, 3971 := Occupied], map["player-a" := 3970, "group-a" := 3971], map[]), 3971)
  {
    assert AssignmentKey(Member("b", "a")) == "group-a";
    assert "group-a" != "player-a" by { assert "group-a"[0] != "player-a"[0]; }
    Allocate(CryptWith(map[3970 := Occupied, 3971 := Available], map["player-a" := 3970], map[]), Member("b", "a"), 397, 1);
  }

  lemma SplitLeaderJoinsGroup()
    ensures var p := CryptWith(map[3970 := Occupied, 3971 := Occupied], map["player-a" := 3970, "group-a" := 3971], map[]);
            Assign(p, Member("a", "a"), 397) == Assigned(p, 3971)
  {
    var p := CryptWith(map[3970 := Occupied, 3971 := Occupied], map["player-a" := 3970, "group-a" := 3971], map[]);
    assert AssignmentKey(Member("a", "a")) == "group-a";
    assert p.copyStates[3971 := Occupied] == p.copyStates;
    assert p.resetTimers - {3971} == p.resetTimers;
  }

  /**
    A player who enters alone and then forms a group is routed by a new key:
    the group is sent to a second copy while the first stays Occupied under
    the old solo key.
   */
  lemma GroupFormedAfterEntrySplits()
    ensures var p0 := Register(EmptyPool(), Crypt());
            var r1 := Assign(p0, Solo("a"), 397);
            var r2 := Assign(r1.pool, Member("b", "a"), 397);
            var r3 := Assign(r2.pool, Member("a", "a"), 397);
            && r1.copy == 3970 && r2.copy == 3971 && r3.copy == 3971
            && r3.pool.assignments == map["player-a" := 3970, "group-a" := 3971]
            && StateOf(r3.pool, 3970) == Occupied
  {
    RegisterCrypt();
    SoloAEnters();
    SplitGroupTakesSecond();
    SplitLeaderJoinsGroup();
  }

  // ------------------------------------------------------ re-registration

  lemma SecondSoloDoubleBooked()
    ensures Assign(CryptWith(map[3970 := Available, 3971 := Available], map["player-a" := 3970], map[]), Solo("c"), 397)
         == Assigned(CryptWith(map[3970 := Occupied, 3971 := Available], map["player-a" := 3970, "player-c" := 3970], map[]), 3970)
  {
    assert AssignmentKey(Solo("c")) == "player-c";
    assert "player-c" != "player-a" by { assert "player-c"[7] != "player-a"[7]; }
    Allocate(CryptWith(map[3970 := Available, 3971 := Available], map["player-a" := 3970], map[]), Solo("c"), 397, 0);
  }

  lemma OneHolderIsSafe()
    ensures NoDoubleBooking(CryptWith(map[3970 := Occupied, 3971 := Available], map["player-a" := 3970], map[]))
  {
  }

  lemma TwoHoldersOfOneCopy()
    ensures !Exclusive(CryptWith(map[3970 := Occupied, 3971 := Available], map["player-a" := 3970, "player-c" := 3970], map[]))
  {
    var a := map["player-a" := 3970, "player-c" := 3970];
    assert "player-a" != "player-c" by { assert "player-c"[7] != "player-a"[7]; }
    assert a["player-a"] == a["player-c"];
  }

  /**
    Registering a dungeon again resets its copies to Available even while
    they are held, so a second key is given a copy that is already booked.
   */
  lemma ReRegistrationDoubleBooks()
    ensures var p0 := Register(EmptyPool(), Crypt());
            var r1 := Assign(p0, Solo("a"), 397);
            var p2 := Register(r1.pool, Crypt());
            var r3 := Assign(p2, Solo("c"), 397);
            && NoDoubleBooking(r1.pool)
            && r1.copy == 3970 && r3.copy == 3970
            && r3.pool.assignments == map["player-a" := 3970, "player-c" := 3970]
            && !Exclusive(r3.pool)
  {
    RegisterCrypt();
    SoloAEnters();
    OneHolderIsSafe();
    RegisterCryptAgain();
    SecondSoloDoubleBooked();
    TwoHoldersOfOneCopy();
  }

  // ----------------------------------------------------------- copy zero

  /**
    Copy id 0 doubles as "no copy": a dungeon that lists copy 0 has it
    booked and marked Occupied, yet the caller is told no copy was found.
   */
  lemma CopyZeroReadsAsNoCopy()
    ensures var p0 := Register(EmptyPool(), Config("Zero", 5, [0], 60000));
            var r1 := Assign(p0, Solo("a"), 5);
            && r1.copy == 0
            && r1.pool.assignments == map["player-a" := 0]
            && StateOf(r1.pool, 0) == Occupied
  {
    var p0 := Register(EmptyPool(), Config("Zero", 5, [0], 60000));
    assert p0.copyStates == map[0 := Available];
    assert AssignmentKey(Solo("a")) == "player-a";
  }

  // ------------------------------------------------------ sticky routing

  lemma StickyFirstEntry()
    ensures Assign(BothWith(map[3970 := Available, 3971 := Available, 5000 := Available], map[]), Solo("a"), 397)
         == Assigned(BothWith(map[3970 := Occupied, 3971 := Available, 5000 := Available], map["player-a" := 3970]), 3970)
  {
    assert AssignmentKey(Solo("a")) == "player-a";
    Allocate(BothWith(map[3970 := Available, 3971 := Available, 5000 := Available], map[]), Solo("a"), 397, 0);
  }

  lemma StickyOtherDungeon()
    ensures var p := BothWith(map[3970 := Occupied, 3971 := Available, 5000 := Available], map["player-a" := 3970]);
            Assign(p, Solo("a"), 500) == Assigned(p, 3970)
  {
    var p := BothWith(map[3970 := Occupied, 3971 := Available, 5000 := Available], map["player-a" := 3970]);
    assert AssignmentKey(Solo("a")) == "player-a";
    assert p.copyStates[3970 := Occupied] == p.copyStates;
    assert p.resetTimers - {3970} == p.resetTimers;
  }

  /** A sticky assignment is honoured for whichever dungeon is requested. */
  lemma StickyAcrossDungeons()
    ensures var p0 := Register(Register(EmptyPool(), Crypt()), Keep());
            var r1 := Assign(p0, Solo("a"), 397);
            var r2 := Assign(r1.pool, Solo("a"), 500);
            r1.copy == 3970 && r2.copy == 3970 && StateOf(r2.pool, 5000) == Available
  {
    RegisterCrypt();
    RegisterKeep();
    StickyFirstEntry();
    StickyOtherDungeon();
  }
}
