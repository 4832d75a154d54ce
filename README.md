# Pseudo-instance dungeon pool (DOLSharp game server)

This project models the pseudo-instance pool manager of a Dark Age of Camelot
server emulator, together with the three pieces of code around it.

A dungeon with a base region id (397) has a fixed pool of copy regions
(3970, 3971, ...). A solo player or a led group entering the dungeon is routed
to a copy. That assignment is sticky: the same party comes back to the same
copy. When the last player leaves a copy, a reset timer is armed. When the
timer fires on an empty region, the copy's assignments are dropped and the
copy becomes Available again.

The manager keeps four tables under one lock:
- dungeon configurations by base id;
- copy states (`Available`, `Occupied`, `Resetting`);
- assignments, from a party key to a copy id;
- pending reset timers.

## Modules

- **`Numerics`** (`numerics.dfy`)
  - C#'s unchecked 32-bit wrap-around (`Wrap32`).
  - C# integer division, which truncates toward zero (`TruncDiv`).
- **`CopyList`** (`copy_list.dfy`)
  - Init's parse of the comma-separated copy list.
  - `String.Split(',')` and `String.Trim()`, using .NET's white-space set.
  - `Convert.ToUInt16`: optional white space, an optional sign, decimal digits,
    optional white space and any trailing NULs, value at most 65535.
  - The decimal spelling that inverts the parse.
- **`PoolSpec`** (`pool.dfy`)
  - The tables as one value, `Pool`.
  - One pure step function per manager operation.
  - The dictionary's enumeration order of configurations is kept as
    `configOrder`: insertion order, where an overwrite keeps its slot.
    StartResetTimer searches the configurations in that order.
- **`PoolProperties`** (`pool_properties.dfy`): what the steps guarantee.
  - Key derivation.
  - Sticky reuse, allocation order, exhaustion.
  - Timers and resets.
  - Init's prefix-then-abort behaviour.
  - The no-double-booking invariant, and the one operation that breaks it.
- **`PoolScenarios`** (`pool_scenarios.dfy`): concrete runs of the "Crypt" dungeon.
- **`PoolManager`** (`manager.dfy`)
  - The class `Manager`, holding the tables as map fields.
  - One method per operation, written with the source's loops.
  - Each method is proved to take `old(Snapshot())` to exactly the state the
    PoolSpec step describes, so every PoolProperties lemma applies to the object.
  - `ParseCopyIds` fills an array `copyIds[i]` part by part, as Init does.
- **`JumpPoint`** (`jump_point.dfy`): `IsAllowedToJump`. It either redirects a
  zone point's target region to the party's copy or denies the jump.
- **`PseudoInstanceRegion`** (`region_skin.dfy`): the skin of a copy region,
  which is its id divided by ten.
- **`BlockChance`** (`block_chance.dfy`): `CalcValue` of the block-chance calculator
  for a player, an NPC, or another living.

### Behaviour of the code that the model keeps

- `RegisterDungeon` sets every listed copy to Available unconditionally,
  even a copy that is currently held. A re-registration can therefore hand
  out a copy that is already booked
  (`PoolScenarios.ReRegistrationDoubleBooks`).
- Init catches exceptions around the whole record loop, not per record.
  It returns false at the first enabled record whose list does not parse:
  earlier records stay registered, and later ones are never reached
  (`PoolProperties.InitStopsAtBadRecord`).
- When no copy is Available, a stale stored assignment has already been
  removed before the search fails, so exhaustion is not always free of
  state changes (`PoolProperties.AssignAllocates`).
- When the second region lookup of a reset finds no region, the copy stays
  Resetting instead of returning to Available
  (`PoolProperties.RegionGoneStrandsCopy`).
- A fired timer's entry is never removed from the timer table
  (`PoolProperties.ElapsedTimerStays`).
- The assignment key depends on the player's group at the moment of each
  request. A player who enters alone and then forms a group is routed by a
  new key, so the group lands on a different copy
  (`PoolScenarios.GroupFormedAfterEntrySplits`).

### Inputs the model takes as parameters

- The region's player count seen by the leave handler and by a reset.
- The outcome of the respawn phase (`Respawned`, `SpawnThrew`, `RegionGone`).
- The stored configuration records.

## Model

| member | source | states |
|---|---|---|
| `Numerics.Wrap32` | GameServer/propertycalc/BlockChanceCalculator.cs:40-58 | The int result agrees with the exact value modulo 2^32, and equals it when it is in int range. |
| `Numerics.TruncDiv` | GameServer/propertycalc/BlockChanceCalculator.cs:49 | The remainder is smaller than the divisor in magnitude and never has the opposite sign of the dividend, which is C# truncating division. |
| `Numerics.TruncDivUnique` | GameServer/propertycalc/BlockChanceCalculator.cs:49 | Those two conditions determine the quotient uniquely. |
| `Numerics.TruncDivOfNonNegative` | GameServer/propertycalc/BlockChanceCalculator.cs:49 | On non-negative dividends, truncating and Euclidean division agree. |
| `Numerics.TruncDivDiffersFromEuclidean` | GameServer/propertycalc/BlockChanceCalculator.cs:49 | On -98 / 4, C# gives -24 where Euclidean division gives -25. |
| `CopyList.Split` | GameServer/world/PseudoInstanceManager.cs:101 | There is at least one part and no part contains the separator. Joining the parts back with the separator gives the input. |
| `CopyList.JoinInjective` | GameServer/world/PseudoInstanceManager.cs:101 | Two separator-free part lists with the same join are equal, so the split is the only such decomposition. |
| `CopyList.SplitJoin` | GameServer/world/PseudoInstanceManager.cs:101 | Splitting the join of separator-free parts gives those parts back. |
| `CopyList.TrimStartDropsLeadingWhiteSpace` | GameServer/world/PseudoInstanceManager.cs:105 | Trimming the start leaves a suffix of the input. Everything dropped is white space, and the result does not start with white space. |
| `CopyList.TrimEndDropsTrailingWhiteSpace` | GameServer/world/PseudoInstanceManager.cs:105 | Trimming the end leaves a prefix of the input. Everything dropped is white space, and the result does not end with white space. |
| `CopyList.TrimWithoutWhiteSpace` | GameServer/world/PseudoInstanceManager.cs:105 | Trimming a string without white space leaves it unchanged. |
| `CopyList.IsWhiteSpace` | GameServer/world/PseudoInstanceManager.cs:105 | Char.IsWhiteSpace, the set String.Trim() strips; its meaning is given by the two trimming lemmas above. |
| `CopyList.Trim` | GameServer/world/PseudoInstanceManager.cs:105 | String.Trim(): TrimEnd after TrimStart; `TrimStartDropsLeadingWhiteSpace`, `TrimEndDropsTrailingWhiteSpace` and `TrimWithoutWhiteSpace` state what it keeps and drops. |
| `CopyList.ParseUInt16` | GameServer/world/PseudoInstanceManager.cs:105 | Convert.ToUInt16 with NumberStyles.Integer: optional white space and sign, digits, optional white space, then ignored NULs. `ParsedTextIsNumber` and `NumberTextParses` state it in both directions against `NumberText`. `ParseDecimal`, `OverflowRejected`, `EmptyPartInvalid`, `TrailingNulsIgnored` and `TrailingNulExample` state particular cases. |
| `CopyList.TrailingNulsIgnored` | GameServer/world/PseudoInstanceManager.cs:105 | NUL characters after a part do not change its conversion. |
| `CopyList.TrailingNulExample` | GameServer/world/PseudoInstanceManager.cs:105 | "3970" followed by a NUL converts to 3970, although String.Trim() keeps the NUL. |
| `CopyList.Conversions` | GameServer/world/PseudoInstanceManager.cs:103-106 | One conversion result per part, in order, each the conversion of that part after trimming. |
| `CopyList.AllConverted` | GameServer/world/PseudoInstanceManager.cs:101-106 | The results give an id list exactly when every one of them is an id. That list has one id per result, in order. |
| `CopyList.ParseParts` | GameServer/world/PseudoInstanceManager.cs:101-106 | The list parses exactly when every trimmed part converts. It then has one id per part, in order, each equal to that part's conversion. |
| `CopyList.ParseCopyList` | GameServer/world/PseudoInstanceManager.cs:101-106 | Init's parse of one record's list: split on ',', trim and convert each part, all or nothing. `ParseFormatRoundTrip`, `BlankPartRejectsList` and `PoolProperties.InitOkIff` state its properties. |
| `CopyList.Decimal` | GameServer/world/PseudoInstanceManager.cs:105 | The spelling is non-empty and all digits. |
| `CopyList.DecimalValue` | GameServer/world/PseudoInstanceManager.cs:105 | The digits of the spelling of n denote n. |
| `CopyList.ParseDecimal` | GameServer/world/PseudoInstanceManager.cs:105 | The conversion reads every spelled ushort back. |
| `CopyList.EmptyPartInvalid` | GameServer/world/PseudoInstanceManager.cs:105 | An empty part does not convert. |
| `CopyList.ParsedTextIsNumber` | GameServer/world/PseudoInstanceManager.cs:105 | Every accepted text splits as white space, then "", "+" or "-", then digits whose value is the result, then white space, then NULs. After "-" the value is 0. |
| `CopyList.NumberTextParses` | GameServer/world/PseudoInstanceManager.cs:105 | Conversely, every text of that shape whose value is below 65536 converts to that value. |
| `CopyList.OverflowRejected` | GameServer/world/PseudoInstanceManager.cs:105 | The decimal spelling of any number from 65536 up does not convert (the OverflowException). |
| `CopyList.ParsePartsAllConverted` | GameServer/world/PseudoInstanceManager.cs:101-106 | When every trimmed part converts, the list is exactly the converted values, in order. |
| `CopyList.DigitChar` | GameServer/world/PseudoInstanceManager.cs:105 | The digit character of d is a digit with value d. |
| `CopyList.ParseDecimalParts` | GameServer/world/PseudoInstanceManager.cs:101-106 | No spelled part contains a comma, and the spelled parts parse back to the ids. |
| `CopyList.ParseFormatRoundTrip` | GameServer/world/PseudoInstanceManager.cs:101-106 | Parsing a formatted non-empty id list gives back exactly that list. |
| `CopyList.BlankPartRejectsList` | GameServer/world/PseudoInstanceManager.cs:101-106 | A list with a part that is empty after trimming (e.g. "3970,,3971") does not parse. |
| `CopyList.DefaultCopyListRejected` | DOLDatabase/Tables/DBPseudoInstanceConfig.cs:46 | A record's default copy list, the empty string, does not parse. |
| `CopyList.ExampleCopyList` | GameServer/world/PseudoInstanceManager.cs:101-106 | "3970,3971,3972" parses to [3970, 3971, 3972]. |
| `CopyList.ExampleFormat` | GameServer/world/PseudoInstanceManager.cs:101-106 | [3970, 3971, 3972] is written as "3970,3971,3972". |
| `CopyList.DecimalExample` | GameServer/world/PseudoInstanceManager.cs:105 | 3970, 3971 and 3972 are spelled "3970", "3971" and "3972". |
| `PoolSpec.InitAll` | GameServer/world/PseudoInstanceManager.cs:88-123 | Init over the records in order. `PoolProperties.InitOkIff`, `InitStopsAtBadRecord`, `InitFailureIgnoresRest` and `InitPreservesWellFormed` state its properties. |
| `PoolSpec.AssignmentKey` | GameServer/world/PseudoInstanceManager.cs:216-224 | GetAssignmentKey. `PoolProperties.SameLedGroupSameKey`, `GroupKeyIsNotSoloKey` and `EqualKeysSameParty` state its properties. |
| `PoolSpec.Register` | GameServer/world/PseudoInstanceManager.cs:129-154 | The config is stored under its base id. Every listed copy becomes Available whatever it was, and other copies keep their state. Assignments and timers are unchanged. The base id is appended to the enumeration order only when it was not yet registered; re-registering keeps its place. |
| `PoolSpec.FirstAvailable` | GameServer/world/PseudoInstanceManager.cs:195-205 | The position of the first Available copy in list order, or None when no listed copy is Available. |
| `PoolSpec.Assign` | GameServer/world/PseudoInstanceManager.cs:164-211 | GetOrAssignCopy. `PoolProperties.AssignUnregistered`, `AssignSticky`, `AssignAllocates`, `AssignExhausted`, `AssignSkipsResetting` and `AssignPreservesNoDoubleBooking` state its properties. |
| `PoolSpec.Release` | GameServer/world/PseudoInstanceManager.cs:446-457 | ReleaseAssignment. `PoolProperties.ReleaseDropsOnlyKey` and `ReleasePreservesSafe` state its properties. |
| `PoolSpec.StateOf` | GameServer/world/PseudoInstanceManager.cs:430-441 | GetCopyState. `PoolProperties.UnknownCopyReadsAvailable` states its default, and `AssignedCopyReadsOccupied` what it reports of a handed-out copy. |
| `PoolSpec.IsCopy` | GameServer/world/PseudoInstanceManager.cs:419-425 | isPseudoInstanceCopy. `PoolProperties.RegisteredCopyIsCopy` states it holds of every listed copy. |
| `PoolSpec.CancelTimer` | GameServer/world/PseudoInstanceManager.cs:296-307 | CancelResetTimer. `PoolProperties.CancelWithoutTimer` states it is a no-op without a timer. |
| `PoolSpec.FindConfig` | GameServer/world/PseudoInstanceManager.cs:266-279 | The first configuration in enumeration order that lists the copy, or None when none does. |
| `PoolSpec.StartTimer` | GameServer/world/PseudoInstanceManager.cs:258-291 | Only the timer table changes. The copy has a timer afterwards exactly when one was armed, and an armed timer is fresh with a positive interval. Other copies' timers are untouched. `PoolProperties.StartTimerNoConfig`, `StartTimerArmsWhenListed` and `StartTimerUsesFirstConfig` say which delay is used. |
| `PoolSpec.Leave` | GameServer/world/PseudoInstanceManager.cs:232-253 | OnPlayerLeaveRegion. `PoolProperties.LeaveOnlyArmsTimer`, `LeaveArmsTimer`, `LeaveIdempotent` and `LeavePreservesSafe` state its properties. |
| `PoolSpec.ResetCopy` | GameServer/world/PseudoInstanceManager.cs:312-414 | ResetCopy. `PoolProperties.ResetAbortsWhenOccupied`, `ResetReclaims`, `RegionGoneStrandsCopy` and `ResetPreservesSafe` state its properties. |
| `PoolSpec.TimerElapsed` | GameServer/world/PseudoInstanceManager.cs:284-289 | The timer's Elapsed handler. `PoolProperties.ElapsedTimerStays` and `TimerElapsedPreservesSafe` state its properties. |
| `PoolProperties.SameLedGroupSameKey` | GameServer/world/PseudoInstanceManager.cs:216-224 | Two members of groups with the same leader get the same key. |
| `PoolProperties.GroupKeyIsNotSoloKey` | GameServer/world/PseudoInstanceManager.cs:216-224 | A group key never equals a solo key. |
| `PoolProperties.EqualKeysSameParty` | GameServer/world/PseudoInstanceManager.cs:216-224 | Equal keys mean the same leader for led groups, or the same player otherwise. |
| `PoolProperties.EmptyPoolSafe` | GameServer/world/PseudoInstanceManager.cs:71-80 | The empty tables are well formed and double-book nothing. |
| `PoolProperties.RegisterPreservesWellFormed` | GameServer/world/PseudoInstanceManager.cs:129-154 | Registration keeps the tables well formed: enumeration order matches the config keys, and every listed copy has a state. |
| `PoolProperties.RegisterUnheldCopiesKeepsNoDoubleBooking` | GameServer/world/PseudoInstanceManager.cs:134-139 | Registration keeps "no booked copy is Available, no copy booked twice" when none of its copies is held. |
| `PoolProperties.AssignUnregistered` | GameServer/world/PseudoInstanceManager.cs:168-172 | An unregistered base id gives 0 and changes nothing. |
| `PoolProperties.AssignSticky` | GameServer/world/PseudoInstanceManager.cs:178-186 | A valid stored assignment is returned whatever dungeon is asked for. The new tables are the old ones with that copy marked Occupied and its timer removed, and nothing else changed. |
| `PoolProperties.AssignAllocates` | GameServer/world/PseudoInstanceManager.cs:187-209 | Without a valid assignment, the stale key is dropped first. The result is the first Available listed copy, recorded for the key and marked Occupied; configs and the enumeration order are unchanged. When no listed copy is Available, the result is 0 and the only change is the dropped key. |
| `PoolProperties.AssignExhausted` | GameServer/world/PseudoInstanceManager.cs:194-209 | With no stored key and no Available copy, the result is 0 and nothing changes. |
| `PoolProperties.AssignSkipsResetting` | GameServer/world/PseudoInstanceManager.cs:178-205 | A Resetting copy is never returned, unless its id is 0, which also means "no copy". It stays Resetting. Release, leave and timer start change no copy state (`ReleaseDropsOnlyKey`, `LeaveOnlyArmsTimer`, `StartTimer`), so only registration or another reset can make it Available again. |
| `PoolProperties.AssignHandsOutOnlyAvailableOrOwn` | GameServer/world/PseudoInstanceManager.cs:178-205 | A recorded result is either the party's own valid copy or a copy that was Available and listed for the dungeon. |
| `PoolProperties.AssignPreservesWellFormed` | GameServer/world/PseudoInstanceManager.cs:164-211 | Assignment keeps the tables well formed. |
| `PoolProperties.AssignPreservesNoDoubleBooking` | GameServer/world/PseudoInstanceManager.cs:164-211 | Assignment never books a copy held by another key, and never leaves a booked copy Available. |
| `PoolProperties.ReleasePreservesSafe` | GameServer/world/PseudoInstanceManager.cs:446-457 | Releasing keeps the tables well formed and double-booking free. |
| `PoolProperties.ReleaseDropsOnlyKey` | GameServer/world/PseudoInstanceManager.cs:446-457 | Exactly the caller's key is removed. States, timers, configs and the enumeration order are unchanged. |
| `PoolProperties.RegisteredCopyIsCopy` | GameServer/world/PseudoInstanceManager.cs:419-425 | Every copy listed by a registered dungeon is a pseudo-instance copy. |
| `PoolProperties.UnknownCopyReadsAvailable` | GameServer/world/PseudoInstanceManager.cs:430-441 | An id without a state entry reads as Available. |
| `PoolProperties.AssignedCopyReadsOccupied` | GameServer/world/PseudoInstanceManager.cs:164-211 | A non-zero copy returned by GetOrAssignCopy is a pseudo-instance copy whose state reads Occupied afterwards. |
| `PoolProperties.CancelWithoutTimer` | GameServer/world/PseudoInstanceManager.cs:296-307 | Cancelling a copy with no timer changes nothing. |
| `PoolProperties.StartTimerNoConfig` | GameServer/world/PseudoInstanceManager.cs:265-281 | The outcome is NoConfig exactly when no configuration lists the copy, and the copy then has no timer. |
| `PoolProperties.StartTimerUsesFirstConfig` | GameServer/world/PseudoInstanceManager.cs:265-289 | A corollary of `StartTimerArmsWhenListed` for a caller who knows only that a timer was armed: some first configuration, in enumeration order, lists the copy and the timer carries its delay. |
| `PoolProperties.StartTimerArmsWhenListed` | GameServer/world/PseudoInstanceManager.cs:265-289 | When the first configuration listing the copy is known, a timer is armed exactly when its delay is positive, with that delay. Otherwise the outcome is IntervalRejected. |
| `PoolProperties.LeaveOnlyArmsTimer` | GameServer/world/PseudoInstanceManager.cs:232-253 | The leave handler never changes states, assignments, configs or the enumeration order. It changes anything only for a registered copy with at most one player, and only that copy's timer. |
| `PoolProperties.LeaveArmsTimer` | GameServer/world/PseudoInstanceManager.cs:232-289 | When a registered copy is left with at most one player and the first dungeon listing it has a positive delay, the copy's timer is armed with that delay, not yet elapsed. |
| `PoolProperties.LeaveIdempotent` | GameServer/world/PseudoInstanceManager.cs:258-291 | Since any old timer is replaced, handling the same leave twice gives the same tables as once. |
| `PoolProperties.StartTimerTwice` | GameServer/world/PseudoInstanceManager.cs:258-291 | Starting the same copy's timer twice is the same as starting it once. |
| `PoolProperties.LeavePreservesSafe` | GameServer/world/PseudoInstanceManager.cs:232-253 | The leave handler keeps the invariants. |
| `PoolProperties.ResetAbortsWhenOccupied` | GameServer/world/PseudoInstanceManager.cs:317-323 | A region with players makes the copy Occupied and keeps every assignment, timer, other state, config and the enumeration order. |
| `PoolProperties.ResetReclaims` | GameServer/world/PseudoInstanceManager.cs:326-413 | Otherwise exactly the assignments pointing at the copy are removed, other keys are untouched, and timers, configs and the enumeration order are unchanged. The copy ends Available, or Resetting when the region is gone; no other state changes. |
| `PoolProperties.ElapsedTimerStays` | GameServer/world/PseudoInstanceManager.cs:284-289 | A fired timer's entry stays in the timer table, marked elapsed. |
| `PoolProperties.ResetPreservesWellFormed` | GameServer/world/PseudoInstanceManager.cs:312-414 | A reset keeps the tables well formed. |
| `PoolProperties.ResetPreservesSafe` | GameServer/world/PseudoInstanceManager.cs:312-414 | A reset keeps the invariants. |
| `PoolProperties.TimerElapsedPreservesSafe` | GameServer/world/PseudoInstanceManager.cs:284-289 | A timer firing keeps the invariants. |
| `PoolProperties.ReclaimedCopyIsAssignable` | GameServer/world/PseudoInstanceManager.cs:401-413 | After a successful or failed respawn, a party without a valid assignment asking for that dungeon is given an Available copy. |
| `PoolProperties.RegionGoneStrandsCopy` | GameServer/world/PseudoInstanceManager.cs:347-352 | When the region is missing in the second phase, the copy is Resetting and not Available after the step. `AssignSkipsResetting` shows that assignment then never hands it out. |
| `PoolProperties.InitOkIff` | GameServer/world/PseudoInstanceManager.cs:96-123 | Init succeeds exactly when every enabled record's copy list parses. Disabled records never matter. |
| `PoolProperties.InitAppend` | GameServer/world/PseudoInstanceManager.cs:96-117 | Records are processed left to right, so a successful prefix composes with the rest. |
| `PoolProperties.InitStopsAtBadRecord` | GameServer/world/PseudoInstanceManager.cs:96-123 | At the first bad enabled record Init returns false. Everything registered before it stays registered. |
| `PoolProperties.InitHeadFails` | GameServer/world/PseudoInstanceManager.cs:101-106 | A bad enabled first record returns false with the tables unchanged. |
| `PoolProperties.InitDefaultRecordFails` | DOLDatabase/Tables/DBPseudoInstanceConfig.cs:42-50 | A record left at its constructor's defaults is enabled with an empty copy list, so Init returns false at it with the tables unchanged. |
| `PoolProperties.InitHeadDisabled` | GameServer/world/PseudoInstanceManager.cs:98 | A disabled first record is skipped. |
| `PoolProperties.InitSkipsDisabled` | GameServer/world/PseudoInstanceManager.cs:98 | Inserting a disabled record anywhere changes nothing. |
| `PoolProperties.InitFailureIgnoresRest` | GameServer/world/PseudoInstanceManager.cs:119-123 | After a failure, later records are never reached. |
| `PoolProperties.InitPreservesWellFormed` | GameServer/world/PseudoInstanceManager.cs:88-123 | Init keeps the tables well formed. |
| `PoolScenarios.CryptWalkThrough` | GameServer/world/PseudoInstanceManager.cs:164-414 | A and B (A's group) share 3970, C gets 3971, and D is refused. Leaving 3970 arms a 60000 ms timer. It fires on an empty region, 3970 becomes Available with the group's key gone, and D gets 3970. |
| `PoolScenarios.GroupFormedAfterEntrySplits` | GameServer/world/PseudoInstanceManager.cs:216-224 | A solo A gets 3970. After A forms a group, B and then A get 3971, and A's solo key still holds 3970. |
| `PoolScenarios.ReRegistrationDoubleBooks` | GameServer/world/PseudoInstanceManager.cs:137-139 | Re-registering resets a held copy to Available, and a second player is then booked onto the same copy. |
| `PoolScenarios.CopyZeroReadsAsNoCopy` | GameServer/world/PseudoInstanceManager.cs:200-209 | A listed copy 0 is booked and Occupied, yet the caller reads the result as "no copy". |
| `PoolScenarios.StickyAcrossDungeons` | GameServer/world/PseudoInstanceManager.cs:178-186 | A party holding a Crypt copy asking for another dungeon is sent to its Crypt copy. |
| `PoolManager.ParseCopyIds` | GameServer/world/PseudoInstanceManager.cs:101-106 | The array-filling loop yields exactly the parse of the list, or None at the first part that does not convert. |
| `PoolManager.Manager.constructor` | GameServer/world/PseudoInstanceManager.cs:71-80 | All tables start empty, and the state is well formed. |
| `PoolManager.Manager.Init` | GameServer/world/PseudoInstanceManager.cs:88-123 | The record loop produces exactly InitAll's tables and result. |
| `PoolManager.Manager.RegisterDungeon` | GameServer/world/PseudoInstanceManager.cs:129-154 | The copy loop produces exactly Register's tables. |
| `PoolManager.Manager.GetOrAssignCopy` | GameServer/world/PseudoInstanceManager.cs:164-211 | The sticky check and the first-Available loop produce exactly Assign's result and tables. |
| `PoolManager.Manager.OnPlayerLeaveRegion` | GameServer/world/PseudoInstanceManager.cs:232-253 | The new tables are exactly Leave's. |
| `PoolManager.Manager.StartResetTimer` | GameServer/world/PseudoInstanceManager.cs:258-291 | Cancel, search, then arm: exactly StartTimer's tables and outcome. |
| `PoolManager.Manager.FindListingConfig` | GameServer/world/PseudoInstanceManager.cs:266-279 | The nested search loops, with their two breaks, find the first listing configuration. |
| `PoolManager.Manager.CancelResetTimer` | GameServer/world/PseudoInstanceManager.cs:296-307 | Only the copy's timer entry is removed. |
| `PoolManager.Manager.TimerElapsed` | GameServer/world/PseudoInstanceManager.cs:284-289 | The timer is marked elapsed and the copy reset, exactly as TimerElapsed describes. |
| `PoolManager.Manager.ResetCopy` | GameServer/world/PseudoInstanceManager.cs:312-414 | Collecting the matching keys and then removing them, with the three spawn outcomes, yields exactly ResetCopy's tables. |
| `PoolManager.Manager.IsPseudoInstanceCopy` | GameServer/world/PseudoInstanceManager.cs:419-425 | True exactly for ids with a state entry. |
| `PoolManager.Manager.GetCopyState` | GameServer/world/PseudoInstanceManager.cs:430-441 | The stored state, or Available for an unknown id. |
| `PoolManager.Manager.ReleaseAssignment` | GameServer/world/PseudoInstanceManager.cs:446-457 | Exactly Release's tables: only the caller's key is dropped. |
| `JumpPoint.IsAllowedToJump` | GameServer/serverrules/PseudoInstanceJumpPoint.cs:42-68 | The manager is asked with the point's original region. A result of 0 denies the jump and leaves the region as it was. Any other copy becomes the region and allows the jump. x, y, z and heading are unchanged. |
| `PseudoInstanceRegion.ToUInt16` | GameServer/world/Instance/PseudoInstanceRegion.cs:53 | The cast keeps the value modulo 2^16, and is the identity on ushort values. |
| `PseudoInstanceRegion.SkinOf` | GameServer/world/Instance/PseudoInstanceRegion.cs:53 | The skin is the integer quotient by ten: 10 * skin <= id < 10 * skin + 10. |
| `PseudoInstanceRegion.Construct` | GameServer/world/Instance/PseudoInstanceRegion.cs:47-56 | The constructor derives the skin by the (ushort) cast of the id divided by ten. `SkinCastNeverTruncates` and `CopiesShareBaseSkin` state its properties. |
| `PseudoInstanceRegion.Region.Skin` | GameServer/world/Instance/PseudoInstanceRegion.cs:62-65 | The Skin getter returns the stored skin. `SkinCastNeverTruncates` states that it equals `SkinOf` of the region id. |
| `PseudoInstanceRegion.CopiesShareBaseSkin` | GameServer/world/Instance/PseudoInstanceRegion.cs:50-53 | Every copy base * 10 + n with n < 10 has skin base. |
| `PseudoInstanceRegion.CryptCopiesShowSkin397` | GameServer/world/Instance/PseudoInstanceRegion.cs:29-32 | Regions 3970, 3971 and 3972, once constructed, all return skin 397. |
| `PseudoInstanceRegion.SkinCastNeverTruncates` | GameServer/world/Instance/PseudoInstanceRegion.cs:53-65 | The quotient always fits a ushort (at most 6553, at most the id), so the cast never truncates. The getter returns the skin derived at construction. |
| `BlockChance.CalcValue` | GameServer/propertycalc/BlockChanceCalculator.cs:35-68 | CalcValue for a player, an NPC or another living. `PlayerChanceFormula`, `NoShieldsSpecMeansNoShieldPart`, `BuffHasNoEffect`, `NpcChance`, `OtherLivingHasNone` and `ChanceIsNotClamped` state its properties. |
| `BlockChance.DexterityTerm` | GameServer/propertycalc/BlockChanceCalculator.cs:49 | The dexterity term (Dex * 2 - 100) / 4 in wrapped 32-bit arithmetic. `DexterityTermFormula` and `LowDexterityRoundsTowardZero` state its properties. |
| `BlockChance.Buff` | GameServer/propertycalc/BlockChanceCalculator.cs:40-44 | The computed buff sum. `BuffHasNoEffect` states that it never reaches the result. |
| `BlockChance.ShieldSpec` | GameServer/propertycalc/BlockChanceCalculator.cs:45-54 | The shield part never exceeds 500 and is 0 without the Shields specialization. With it, it is the wrapped sum capped at 500. |
| `BlockChance.NoShieldsSpecMeansNoShieldPart` | GameServer/propertycalc/BlockChanceCalculator.cs:46-58 | Without the specialization, the chance is 50 + dexterity term + ability part, whatever the level. |
| `BlockChance.ShieldSpecFormula` | GameServer/propertycalc/BlockChanceCalculator.cs:45-54 | In a moderate range the shield part is (2 * Dex - 100) / 4 + (level - 1) * 5 + 50, truncating and capped at 500, in plain integers. |
| `BlockChance.DexterityTermFormula` | GameServer/propertycalc/BlockChanceCalculator.cs:49 | In a moderate range, the dexterity term is the truncated quarter of 2 * Dex - 100, with no wrap-around. |
| `BlockChance.PlayerChanceFormula` | GameServer/propertycalc/BlockChanceCalculator.cs:55-58 | In a moderate range, a player's chance is exactly 50 + shield part + (2 * Dex - 100) / 4 + 10 * ability bonus. |
| `BlockChance.BuffHasNoEffect` | GameServer/propertycalc/BlockChanceCalculator.cs:40-44 | Players differing only in the buff categories get the same chance: the computed buff sum is unused. |
| `BlockChance.NpcChance` | GameServer/propertycalc/BlockChanceCalculator.cs:61-65 | An NPC's chance is ten times its block chance. |
| `BlockChance.OtherLivingHasNone` | GameServer/propertycalc/BlockChanceCalculator.cs:67 | Any other living gets 0. |
| `BlockChance.LowDexterityRoundsTowardZero` | GameServer/propertycalc/BlockChanceCalculator.cs:49 | Dexterity 1 gives -24, not -25, and dexterity 49 gives 0, not -1: the term truncates toward zero. |
| `BlockChance.ChanceIsNotClamped` | GameServer/propertycalc/BlockChanceCalculator.cs:23-24 | Despite the class comment's "0 .. 1000", the result is not clamped: 1525 for high dexterity, -75 for a negative ability bonus. |
| `BlockChance.TruncDivBound` | GameServer/propertycalc/BlockChanceCalculator.cs:49 | A quarter of a moderate value stays moderate, so the later additions do not wrap. |
| `BlockChance.TruncDivOfNegative` | GameServer/propertycalc/BlockChanceCalculator.cs:49 | The truncated quotient of a negative dividend is minus the quotient of its magnitude. |

## Left out

- Locking and thread interleavings. Every operation is one atomic step. The
  window in ResetCopy, where the lock is released between clearing the
  assignments and respawning, is not modelled; a request arriving inside that
  window is not covered.
- `System.Timers.Timer` scheduling. A timer is an entry holding its delay and
  an elapsed flag, and firing is an explicit `TimerElapsed` call.
  - The Timer constructor rejects a non-positive interval by throwing. This
    is modelled as the `IntervalRejected` outcome, after the old timer has
    already been cancelled.
  - Auto-reset, Stop and Dispose are not modelled.
- Event hookup with `GameEventMgr`, and the `WorldMgr.GetRegion` lookups.
  - The player counts that the lookups return are parameters.
  - Registration does not hook events.
- The NPC purge, the database mob query, and the reflection that creates
  NPCs. The respawn phase is one of three outcomes passed in.
- `GetStatusInfo` and all logging and chat messages (string building and I/O).
- The database layer. Init receives the stored records as a sequence.
  - The records' dirty-flag bookkeeping is not modelled.
  - The entry zone point id is a carried field only.
- The teleporter NPCs, the summon-merchant spell and the DarkSpire instance.
  They do not call the pool manager.
- `Convert.ToUInt16` depends on the current culture. The model uses the
  invariant culture: ASCII digits with an optional '+' or '-'.
  - Culture-specific signs and digits are not covered.
- `PseudoInstanceRegion.Description` and the region base class: the getter
  only forwards to the base class, which is not part of this model.
- BlockChance.NpcChance: the NPC's block-chance property is taken as an int.
  Its declared type is not part of this model, so the product is wrapped to
  32 bits like every other operation, and the exact-product statement is
  limited to moderate values.
- BlockChance.PlayerChanceFormula: the plain-integer statement is proved for
  dexterity, Shields level and ability bonus up to 10^6 in magnitude. Outside
  that range the result is still defined, with 32-bit wrap-around, but no
  closed form is stated.
- Player identity, group membership and leaders are plain values (`Player`,
  `Group`). The game objects behind them are not modelled.
