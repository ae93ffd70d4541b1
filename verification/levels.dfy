/** The level arithmetic of the demo data helpers: one level per 500 XP. */
module Levels {
  import opened JsMath

  const XpPerLevel: int := 500

  /** `calculateLevel`: `Math.floor(xp / 500) + 1`. The division by a
      positive constant rounds down, as `Math.floor` does. */
  function CalculateLevel(xp: int): (level: int)
    ensures (level - 1) * XpPerLevel <= xp < level * XpPerLevel
    ensures xp >= 0 ==> level >= 1
  {
    xp / XpPerLevel + 1
  }

  /** The band condition fixes the level. */
  lemma LevelUnique(xp: int, level: int)
    requires (level - 1) * XpPerLevel <= xp < level * XpPerLevel
    ensures CalculateLevel(xp) == level
  {
    var l := CalculateLevel(xp);
    assert (l - 1) * XpPerLevel < level * XpPerLevel && (level - 1) * XpPerLevel < l * XpPerLevel;
  }

  /** More XP never means a lower level. */
  lemma LevelMonotone(a: int, b: int)
    requires a <= b
    ensures CalculateLevel(a) <= CalculateLevel(b)
  {
    var la, lb := CalculateLevel(a), CalculateLevel(b);
    assert (la - 1) * XpPerLevel < lb * XpPerLevel;
  }

  /** `getXPForNextLevel`: the XP at which the next level starts, the first
      multiple of 500 above the current XP. */
  function XpForNextLevel(xp: int): (r: int)
    ensures xp < r <= xp + XpPerLevel
    ensures r % XpPerLevel == 0
  {
    CalculateLevel(xp) * XpPerLevel
  }

  /** `getLevelProgress`: the percentage of the current level's 500 XP
      already earned, rounded to the nearest whole percent. */
  function LevelProgress(xp: int): (r: int)
    ensures 0 <= r <= 100
    ensures 10 * r - 5 <= 2 * (xp % XpPerLevel) < 10 * r + 5
    ensures xp % XpPerLevel == 0 ==> r == 0
  {
    var level := CalculateLevel(xp);
    var xpForCurrent := (level - 1) * XpPerLevel;
    var xpForNext := level * XpPerLevel;
    assert xp - xpForCurrent == xp % XpPerLevel;
    Round(100 * (xp - xpForCurrent), xpForNext - xpForCurrent)
  }

  /** The last two XP of a level already show a full bar. */
  lemma ProgressFullEarly(xp: int)
    requires xp % XpPerLevel >= 498
    ensures LevelProgress(xp) == 100
  {
  }
}
