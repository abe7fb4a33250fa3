/** The statistics and achievements of the profile page
    (`src/app/profile/page.jsx`). */
module Profile {
  import opened Js
  import opened Catalog
  import Progress

  /** `learningProgress`: the learned share of the catalog, rounded. The
      source divides without a guard, so an empty catalog gives `NaN` or
      `Infinity`, modelled as `None`. */
  function LearningProgress(v: Vocabulary, learnedWords: seq<nat>): (r: Option<nat>)
    ensures r.None? <==> |All(v)| == 0
    ensures r.Some? ==>
      200 * |learnedWords| - |All(v)| < 2 * |All(v)| * r.value <= 200 * |learnedWords| + |All(v)|
  {
    if |All(v)| == 0 then None else Some(RoundPercent(|learnedWords|, |All(v)|))
  }

  /** One entry of `hskStats`. */
  datatype LevelStats = LevelStats(level: Level, total: nat, learned: nat, mastered: nat, progress: nat)

  /** `studyProgress[level]?.learned.length || 0` and its mastered twin. */
  function LearnedCount(m: map<Level, Progress.LevelProgress>, level: Level): nat {
    if level in m then |m[level].learned| else 0
  }

  function MasteredCount(m: map<Level, Progress.LevelProgress>, level: Level): nat {
    if level in m then |m[level].mastered| else 0
  }

  /** The statistics of one level: the catalog count of the level, the
      recorded learned and mastered counts (0 for a level without a record),
      and the learned share rounded (0 for a level without words). */
  function Stats(v: Vocabulary, s: Progress.State, level: Level): (r: LevelStats)
    ensures r.level == level && r.total == |Filter(All(v), LevelIs(level))|
    ensures level !in s.studyProgress ==> r.learned == 0 && r.mastered == 0
    ensures level in s.studyProgress ==>
      r.learned == |s.studyProgress[level].learned| && r.mastered == |s.studyProgress[level].mastered|
    ensures r.total == 0 ==> r.progress == 0
    ensures r.total > 0 ==> 200 * r.learned - r.total < 2 * r.total * r.progress <= 200 * r.learned + r.total
    ensures r.learned <= r.total ==> r.progress <= 100
  {
    var total := |Filter(All(v), LevelIs(level))|;
    var learned := LearnedCount(s.studyProgress, level);
    if total > 0 then
      RoundPercentBounds(learned, total);
      LevelStats(level, total, learned, MasteredCount(s.studyProgress, level), RoundPercent(learned, total))
    else LevelStats(level, total, learned, MasteredCount(s.studyProgress, level), 0)
  }

  /** `hskStats`: one entry per level, HSK1 to HSK5. */
  function HskStats(v: Vocabulary, s: Progress.State): (r: seq<LevelStats>)
    ensures |r| == |LevelIds|
    ensures forall i :: 0 <= i < |r| ==> r[i] == Stats(v, s, LevelIds[i])
  {
    seq(|LevelIds|, i requires 0 <= i < |LevelIds| => Stats(v, s, LevelIds[i]))
  }

  /** Learning a new word of a known level raises that level's learned count
      by one and leaves every other level's statistics as they were. */
  lemma MarkAsLearnedCounts(v: Vocabulary, s: Progress.State, id: nat, level: Level, today: int)
    requires level in s.studyProgress && id !in s.learnedWords
    ensures Stats(v, Progress.MarkAsLearned(s, id, Some(level), today), level).learned
         == Stats(v, s, level).learned + (if level == "" then 0 else 1)
    ensures forall l :: l != level ==>
      Stats(v, Progress.MarkAsLearned(s, id, Some(level), today), l) == Stats(v, s, l)
  {
    var r := Progress.MarkAsLearned(s, id, Some(level), today);
    if level != "" {
      assert r.studyProgress[level].learned == s.studyProgress[level].learned + [id];
    }
  }

  /** After clearing all data every level shows nothing learned or mastered
      and a progress of 0. */
  lemma ClearedStatsAreZero(v: Vocabulary, s: Progress.State)
    ensures forall i :: 0 <= i < |LevelIds| ==>
      var st := HskStats(v, Progress.ClearAllData(s))[i];
      st.learned == 0 && st.mastered == 0 && st.progress == 0
  {
    var c := Progress.ClearAllData(s);
    forall i | 0 <= i < |LevelIds|
      ensures var st := HskStats(v, c)[i];
              st.learned == 0 && st.mastered == 0 && st.progress == 0
    {
      ClearedLevelIsZero(v, s, LevelIds[i]);
    }
  }

  lemma ClearedLevelIsZero(v: Vocabulary, s: Progress.State, level: Level)
    requires level in LevelIds
    ensures var st := Stats(v, Progress.ClearAllData(s), level);
            st.learned == 0 && st.mastered == 0 && st.progress == 0
  {
    var c := Progress.ClearAllData(s);
    assert c.studyProgress[level].learned == [];
    var st := Stats(v, c, level);
    if st.total > 0 {
      NoShareRoundsToZero(st.total, st.progress);
    }
  }

  lemma NoShareRoundsToZero(total: nat, progress: nat)
    requires total > 0 && 2 * total * progress <= total
    ensures progress == 0
  {
  }

  // ---------------------------------------------------------------------------
  // Achievements

  datatype Achievement = FirstWord | TenWords | FiftyWords | HundredWords | Streak7 | QuizMaster

  /** The declared order of the achievements. */
  const Achievements: seq<Achievement> :=
    [FirstWord, TenWords, FiftyWords, HundredWords, Streak7, QuizMaster]

  /** Every achievement appears in the declared list. */
  lemma AchievementsListed()
    ensures forall a: Achievement :: a in Achievements
  {
    forall a: Achievement
      ensures a in Achievements
    {
      match a
      case FirstWord => assert Achievements[0] == a;
      case TenWords => assert Achievements[1] == a;
      case FiftyWords => assert Achievements[2] == a;
      case HundredWords => assert Achievements[3] == a;
      case Streak7 => assert Achievements[4] == a;
      case QuizMaster => assert Achievements[5] == a;
    }
  }

  /** The `unlocked` flag of each achievement. */
  predicate Earned(a: Achievement, learned: nat, streak: nat, accuracy: nat) {
    match a
    case FirstWord => learned > 0
    case TenWords => learned >= 10
    case FiftyWords => learned >= 50
    case HundredWords => learned >= 100
    case Streak7 => streak >= 7
    case QuizMaster => accuracy >= 80
  }

  function IsUnlocked(learned: nat, streak: nat, accuracy: nat): Achievement -> bool {
    (a: Achievement) => Earned(a, learned, streak, accuracy)
  }

  lemma UnlockedMembers(learned: nat, streak: nat, accuracy: nat)
    ensures forall a :: a in Filter(Achievements, IsUnlocked(learned, streak, accuracy))
                    <==> Earned(a, learned, streak, accuracy)
  {
    var p := IsUnlocked(learned, streak, accuracy);
    var r := Filter(Achievements, p);
    AchievementsListed();
    forall a | Earned(a, learned, streak, accuracy)
      ensures a in r
    {
      var i :| 0 <= i < |Achievements| && Achievements[i] == a;
      assert p(Achievements[i]);
    }
    forall a | a in r
      ensures Earned(a, learned, streak, accuracy)
    {
      var i :| 0 <= i < |r| && r[i] == a;
      assert p(r[i]);
    }
  }

  /** The unlocked achievements, in declared order. */
  function Unlocked(learned: nat, streak: nat, accuracy: nat): (r: seq<Achievement>)
    ensures forall a :: a in r <==> Earned(a, learned, streak, accuracy)
    ensures IsSubsequence(r, Achievements)
  {
    UnlockedMembers(learned, streak, accuracy);
    FilterSubsequence(Achievements, IsUnlocked(learned, streak, accuracy));
    Filter(Achievements, IsUnlocked(learned, streak, accuracy))
  }

  /** The word-count badges are nested: each implies all smaller ones. */
  lemma WordBadgesNested(learned: nat, streak: nat, accuracy: nat)
    ensures HundredWords in Unlocked(learned, streak, accuracy) ==> FiftyWords in Unlocked(learned, streak, accuracy)
    ensures FiftyWords in Unlocked(learned, streak, accuracy) ==> TenWords in Unlocked(learned, streak, accuracy)
    ensures TenWords in Unlocked(learned, streak, accuracy) ==> FirstWord in Unlocked(learned, streak, accuracy)
  {
  }

  /** Progress never locks an achievement again: with at least as many
      learned words, as long a streak and as high an accuracy, every badge
      stays unlocked. */
  lemma UnlockedMonotone(learned: nat, streak: nat, accuracy: nat, learned': nat, streak': nat, accuracy': nat)
    requires learned <= learned' && streak <= streak' && accuracy <= accuracy'
    ensures forall a :: a in Unlocked(learned, streak, accuracy) ==> a in Unlocked(learned', streak', accuracy')
  {
  }

  /** A cleared store has no achievement. */
  lemma ClearedHasNoAchievement(s: Progress.State)
    ensures var c := Progress.ClearAllData(s);
      Unlocked(|c.learnedWords|, c.studyStreak, c.quizStats.accuracy) == []
  {
    var c := Progress.ClearAllData(s);
    FilterNone(Achievements, IsUnlocked(|c.learnedWords|, c.studyStreak, c.quizStats.accuracy));
  }

  /** `achievements.filter(a => a.unlocked).slice(-4)`: the last (at most)
      four unlocked achievements. */
  function Recent(learned: nat, streak: nat, accuracy: nat): (r: seq<Achievement>)
    ensures var u := Unlocked(learned, streak, accuracy);
      && |r| == (if |u| < 4 then |u| else 4)
      && r == u[|u| - |r|..]
  {
    var u := Unlocked(learned, streak, accuracy);
    Slice(u, -4, |u|)
  }
}
