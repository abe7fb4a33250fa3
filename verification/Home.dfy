/** The statistics on the home page (`src/app/page.jsx`). */
module Home {
  import opened Js
  import opened Catalog

  /** `progressPercentage`: learned words as a rounded percentage of the
      catalog, 0 for an empty catalog. */
  function ProgressPercentage(v: Vocabulary, learnedWords: seq<nat>): (r: nat)
    ensures |All(v)| == 0 ==> r == 0
    ensures |All(v)| > 0 ==>
      200 * |learnedWords| - |All(v)| < 2 * |All(v)| * r <= 200 * |learnedWords| + |All(v)|
  {
    if |All(v)| > 0 then RoundPercent(|learnedWords|, |All(v)|) else 0
  }

  /** As long as no more words are learned than the catalog holds, the
      percentage is at most 100, reaching 100 when all are learned. */
  lemma ProgressPercentageBounded(v: Vocabulary, learnedWords: seq<nat>)
    requires |learnedWords| <= |All(v)|
    ensures ProgressPercentage(v, learnedWords) <= 100
    ensures |learnedWords| == |All(v)| ==> ProgressPercentage(v, learnedWords) == 100 || |All(v)| == 0
  {
    if |All(v)| > 0 {
      RoundPercentBounds(|learnedWords|, |All(v)|);
    }
  }

  /** One entry of `hskProgress`. */
  datatype LevelRow = LevelRow(level: Level, total: nat, learned: nat, progress: nat)

  function IsLearned(learnedWords: seq<nat>): Word -> bool {
    (w: Word) => w.id in learnedWords
  }

  /** The row for one level: its catalog words, how many of them are
      learned, and the rounded percentage (0 for a level without words). */
  function Row(v: Vocabulary, learnedWords: seq<nat>, level: Level): (r: LevelRow)
    ensures r.level == level
    ensures r.total == |Filter(All(v), LevelIs(level))|
    ensures r.learned == |Filter(Filter(All(v), LevelIs(level)), IsLearned(learnedWords))|
    ensures r.learned <= r.total
    ensures r.total > 0 ==> 200 * r.learned - r.total < 2 * r.total * r.progress <= 200 * r.learned + r.total
    ensures r.progress <= 100
    ensures r.total == 0 ==> r.progress == 0
    ensures r.total > 0 && r.learned == r.total ==> r.progress == 100
  {
    var levelWords := Filter(All(v), LevelIs(level));
    var learned := |Filter(levelWords, IsLearned(learnedWords))|;
    if |levelWords| > 0 then
      RoundPercentBounds(learned, |levelWords|);
      LevelRow(level, |levelWords|, learned, RoundPercent(learned, |levelWords|))
    else LevelRow(level, 0, learned, 0)
  }

  /** `hskProgress`: one row per level, in the order HSK1 .. HSK5. */
  function HskProgress(v: Vocabulary, learnedWords: seq<nat>): (r: seq<LevelRow>)
    ensures |r| == |LevelIds|
    ensures forall i :: 0 <= i < |r| ==> r[i] == Row(v, learnedWords, LevelIds[i])
  {
    seq(|LevelIds|, i requires 0 <= i < |LevelIds| => Row(v, learnedWords, LevelIds[i]))
  }

  /** On a well-formed catalog a row's total is the size of that level's
      list. */
  lemma RowTotalIsLevelSize(v: Vocabulary, learnedWords: seq<nat>, level: Level)
    requires WellFormed(v)
    ensures Row(v, learnedWords, level).total == |ByHSK(v, level)|
  {
    ByHSKIsLevelFilter(v, level);
  }

  /** Learning more words never lowers a row: the learned count and the
      percentage only grow. */
  lemma RowMonotone(v: Vocabulary, learnedWords: seq<nat>, more: seq<nat>, level: Level)
    requires forall id :: id in learnedWords ==> id in more
    ensures Row(v, learnedWords, level).learned <= Row(v, more, level).learned
    ensures Row(v, learnedWords, level).progress <= Row(v, more, level).progress
  {
    var levelWords := Filter(All(v), LevelIs(level));
    FilterCountMonotone(levelWords, IsLearned(learnedWords), IsLearned(more));
    if |levelWords| > 0 {
      RoundPercentMonotone(Row(v, learnedWords, level).learned, Row(v, more, level).learned, |levelWords|);
    }
  }

  const WeeklyGoal: nat := 50

  /** `weeklyProgress = learnedCount % 50`. */
  function WeeklyProgress(learnedCount: nat): (r: nat)
    ensures r < WeeklyGoal
  {
    learnedCount % WeeklyGoal
  }

  /** The weekly bar counts up to the goal and starts over: below the goal it
      is the count itself, and every further fifty words bring it back to the
      same place. */
  lemma WeeklyProgressWraps(learnedCount: nat)
    ensures learnedCount < WeeklyGoal ==> WeeklyProgress(learnedCount) == learnedCount
    ensures WeeklyProgress(learnedCount + WeeklyGoal) == WeeklyProgress(learnedCount)
  {
  }
}
