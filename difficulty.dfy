/**
 * `getDifficultyLevel`: the label and colour the dashboard shows for a
 * cutoff CGPA, from a ladder of thresholds tried from the top down.
 */
module Difficulty {

  /** A label together with the colour class it is shown in. */
  datatype Level = Level(level: string, color: string)

  const VeryHard := Level("Very Hard", "text-red-400")
  const Hard := Level("Hard", "text-orange-400")
  const Medium := Level("Medium", "text-yellow-400")
  const Easy := Level("Easy", "text-green-400")
  const VeryEasy := Level("Very Easy", "text-emerald-400")

  /** The first threshold the cutoff reaches decides; every threshold is inclusive. */
  function GetDifficultyLevel(cutoff: real): (d: Level)
    ensures d == VeryHard <==> 8.0 <= cutoff
    ensures d == Hard <==> 7.0 <= cutoff < 8.0
    ensures d == Medium <==> 6.0 <= cutoff < 7.0
    ensures d == Easy <==> 5.0 <= cutoff < 6.0
    ensures d == VeryEasy <==> cutoff < 5.0
  {
    if cutoff >= 8.0 then VeryHard
    else if cutoff >= 7.0 then Hard
    else if cutoff >= 6.0 then Medium
    else if cutoff >= 5.0 then Easy
    else VeryEasy
  }

  /** The position of a level on the ladder, from easiest to hardest. */
  function Rank(d: Level): nat {
    if d == VeryHard then 4
    else if d == Hard then 3
    else if d == Medium then 2
    else if d == Easy then 1
    else 0
  }

  /** The ranks tell the levels the ladder hands out apart: two cutoffs get
      the same rank exactly when they get the same level. */
  lemma RankSeparatesLevels(c1: real, c2: real)
    ensures Rank(GetDifficultyLevel(c1)) == Rank(GetDifficultyLevel(c2))
      <==> GetDifficultyLevel(c1) == GetDifficultyLevel(c2)
  {
  }

  /** A higher cutoff never gives an easier level. */
  lemma HigherCutoffNotEasier(c1: real, c2: real)
    requires c1 <= c2
    ensures Rank(GetDifficultyLevel(c1)) <= Rank(GetDifficultyLevel(c2))
  {
  }

  /** The five levels are told apart by their labels and by their colours alike. */
  lemma LevelsDistinct(c1: real, c2: real)
    ensures GetDifficultyLevel(c1).level == GetDifficultyLevel(c2).level
      <==> GetDifficultyLevel(c1).color == GetDifficultyLevel(c2).color
  {
  }

  /** The thresholds belong to the level above them. */
  lemma Boundaries()
    ensures GetDifficultyLevel(8.0) == VeryHard
    ensures GetDifficultyLevel(7.99) == Hard
    ensures GetDifficultyLevel(7.0) == Hard
    ensures GetDifficultyLevel(6.0) == Medium
    ensures GetDifficultyLevel(5.0) == Easy
    ensures GetDifficultyLevel(4.99) == VeryEasy
  {
  }
}
