/**
  BlockChanceCalculator: a living's block chance in tenths of a percent.
  A player's chance comes from dexterity, the Shields specialization and
  the ability bonus; an NPC's from its stored block chance; anything else
  has none.  C# int arithmetic is unchecked, so every operation wraps to
  32 bits, and C# division truncates toward zero.
 */
module BlockChance {
  import opened Numerics

  /** What the calculator reads from a player, for the BlockChance property. */
  datatype PlayerStats = PlayerStats(
    dexterity: int32,
    hasShieldsSpec: bool,        // HasSpecialization(Shields)
    shieldsSpecLevel: int32,     // GetModifiedSpecLevel(Shields)
    baseBuffBonus: int32,        // BaseBuffBonusCategory[BlockChance]
    specBuffBonus: int32,        // SpecBuffBonusCategory[BlockChance]
    debuff: int32,               // DebuffCategory[BlockChance]
    buffBonus4: int32,           // BuffBonusCategory4[BlockChance]
    abilityBonus: int32)         // AbilityBonus[BlockChance]

  /** The run-time type test: a player, an NPC, or any other living. */
  datatype Living =
    | PlayerLiving(stats: PlayerStats)
    | NpcLiving(blockChance: int32)
    | OtherLiving

  function Add(a: int32, b: int32): int32 { Wrap32(a + b) }
  function Sub(a: int32, b: int32): int32 { Wrap32(a - b) }
  function Mul(a: int32, b: int32): int32 { Wrap32(a * b) }

  /** C#'s `a / 4`: the quotient truncated toward zero, always an int. */
  function Div4(a: int32): int32 {
    TruncDiv(a, 4)
  }

  /** The dexterity term `(Dexterity * 2 - 100) / 4`. */
  function DexterityTerm(dex: int32): int32 {
    Div4(Sub(Mul(dex, 2), 100))
  }

  /** The buff sum the source computes and never uses. */
  function Buff(s: PlayerStats): int32 {
    Add(Add(Sub(Add(Mul(s.baseBuffBonus, 10), Mul(s.specBuffBonus, 10)), Mul(s.debuff, 10)),
            Mul(s.buffBonus4, 10)),
        Mul(s.abilityBonus, 10))
  }

  /** The shield part: zero without the specialization, never above 500. */
  function ShieldSpec(s: PlayerStats): (r: int32)
    ensures r <= 500
    ensures !s.hasShieldsSpec ==> r == 0
    ensures s.hasShieldsSpec ==>
              var raw := Add(Add(DexterityTerm(s.dexterity), Mul(Sub(s.shieldsSpecLevel, 1), 10 / 2)), 50);
              r == if raw > 500 then 500 else raw
  {
    var shield := Mul(Sub(s.shieldsSpecLevel, 1), 10 / 2);
    var shieldSpec := if s.hasShieldsSpec then Add(Add(DexterityTerm(s.dexterity), shield), 50) else 0;
    if shieldSpec > 500 then 500 else shieldSpec
  }

  /** CalcValue for the BlockChance property. */
  function CalcValue(living: Living): int32 {
    match living
    case PlayerLiving(s) =>
      var ability := Mul(s.abilityBonus, 10);
      Add(Add(Add(50, ShieldSpec(s)), DexterityTerm(s.dexterity)), ability)
    case NpcLiving(b) => Mul(b, 10)
    case OtherLiving => 0
  }

  // ------------------------------------------------------------ properties

  /** Values far enough from the int limits that no operation wraps. */
  predicate Moderate(s: PlayerStats) {
    Abs(s.dexterity) <= 1_000_000 && Abs(s.shieldsSpecLevel) <= 1_000_000 && Abs(s.abilityBonus) <= 1_000_000
  }

  /** Without the Shields specialization the shield part is zero, whatever the level. */
  lemma NoShieldsSpecMeansNoShieldPart(s: PlayerStats)
    requires !s.hasShieldsSpec
    ensures ShieldSpec(s) == 0
    ensures CalcValue(PlayerLiving(s)) == Add(Add(50, DexterityTerm(s.dexterity)), Mul(s.abilityBonus, 10))
  {
  }

  /** With the specialization: (Dex*2-100)/4 + (level-1)*5 + 50, capped at 500, in plain integers. */
  lemma ShieldSpecFormula(s: PlayerStats)
    requires s.hasShieldsSpec && Moderate(s)
    ensures var raw := TruncDiv(2 * s.dexterity - 100, 4) + (s.shieldsSpecLevel - 1) * 5 + 50;
            ShieldSpec(s) == if raw > 500 then 500 else raw
  {
    DexterityTermFormula(s.dexterity);
    var shield := Mul(Sub(s.shieldsSpecLevel, 1), 10 / 2);
    assert Sub(s.shieldsSpecLevel, 1) == s.shieldsSpecLevel - 1;
    assert shield == (s.shieldsSpecLevel - 1) * 5;
    assert Add(DexterityTerm(s.dexterity), shield) == DexterityTerm(s.dexterity) + shield;
  }

  /** The player's chance is exactly 50 + shield part + (Dex*2-100)/4 + 10 * ability bonus. */
  lemma PlayerChanceFormula(s: PlayerStats)
    requires Moderate(s)
    ensures CalcValue(PlayerLiving(s))
            == 50 + ShieldSpec(s) + TruncDiv(2 * s.dexterity - 100, 4) + 10 * s.abilityBonus
  {
    var d := DexterityTerm(s.dexterity);
    DexterityTermFormula(s.dexterity);
    var shieldSpec := ShieldSpec(s);
    if s.hasShieldsSpec {
      ShieldSpecFormula(s);
    }
    assert -7_000_000 <= shieldSpec <= 500;
    var ability := Mul(s.abilityBonus, 10);
    assert ability == 10 * s.abilityBonus;
    assert Add(50, shieldSpec) == 50 + shieldSpec;
    assert Add(Add(50, shieldSpec), d) == 50 + shieldSpec + d;
  }

  /** Without wrap-around, the dexterity term is the truncated quarter of 2 * Dex - 100. */
  lemma DexterityTermFormula(dex: int32)
    requires Abs(dex) <= 1_000_000
    ensures DexterityTerm(dex) == TruncDiv(2 * dex - 100, 4)
    ensures Abs(DexterityTerm(dex)) <= 1_000_000
  {
    assert Mul(dex, 2) == 2 * dex;
    assert Sub(Mul(dex, 2), 100) == 2 * dex - 100;
    TruncDivBound(2 * dex - 100);
  }

  /** The buff categories do not change the result: only dexterity, shields and the ability bonus do. */
  lemma BuffHasNoEffect(s: PlayerStats, t: PlayerStats)
    requires s.dexterity == t.dexterity && s.hasShieldsSpec == t.hasShieldsSpec
    requires s.shieldsSpecLevel == t.shieldsSpecLevel && s.abilityBonus == t.abilityBonus
    ensures CalcValue(PlayerLiving(s)) == CalcValue(PlayerLiving(t))
  {
  }

  /** An NPC's chance is ten times its stored block chance. */
  lemma NpcChance(b: int32)
    requires Abs(b) <= 100_000_000
    ensures CalcValue(NpcLiving(b)) == 10 * b
  {
  }

  /** Neither a player nor an NPC: no block chance. */
  lemma OtherLivingHasNone()
    ensures CalcValue(OtherLiving) == 0
  {
  }

  /** Below 50 dexterity the term is negative and rounds toward zero, not down. */
  lemma LowDexterityRoundsTowardZero()
    ensures DexterityTerm(1) == -24 && (2 * 1 - 100) / 4 == -25
    ensures DexterityTerm(49) == 0 && (2 * 49 - 100) / 4 == -1
  {
    TruncDivOfNegative(-98, 4, 24);
    TruncDivOfNegative(-2, 4, 0);
  }

  /** The result is not confined to 0 .. 1000: high dexterity passes 1000, a negative bonus drops below 0. */
  lemma ChanceIsNotClamped()
    ensures CalcValue(PlayerLiving(PlayerStats(2000, true, 50, 0, 0, 0, 0, 0))) == 1525
    ensures CalcValue(PlayerLiving(PlayerStats(0, false, 1, 0, 0, 0, 0, -10))) == -75
  {
    PlayerChanceFormula(PlayerStats(2000, true, 50, 0, 0, 0, 0, 0));
    ShieldSpecFormula(PlayerStats(2000, true, 50, 0, 0, 0, 0, 0));
    TruncDivOfNonNegative(3900, 4);
    PlayerChanceFormula(PlayerStats(0, false, 1, 0, 0, 0, 0, -10));
    TruncDivOfNegative(-100, 4, 25);
  }

  /** A truncated quarter of a moderate value stays moderate. */
  lemma TruncDivBound(a: int)
    requires Abs(a) <= 3_000_000
    ensures Abs(TruncDiv(a, 4)) <= 1_000_000
  {
  }

  /** The truncated quotient of -(4q + m) by 4, for 0 <= m < 4. */
  lemma TruncDivOfNegative(a: int, b: int, q: int)
    requires b > 0 && q >= 0 && q * b <= -a < q * b + b
    ensures TruncDiv(a, b) == -q
  {
    TruncDivUnique(a, b, -q);
  }
}
