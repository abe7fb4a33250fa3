/** The progress store (`src/lib/AppContext.js`): favorites, learned and
    mastered words per HSK level, quiz statistics, the study streak and the
    user profile. Each handler is one atomic transition on an immutable
    `State`; the calendar day is a parameter (`today`, with yesterday being
    `today - 1`). Persistence to local storage is not part of this model. */
module Progress {
  import opened Js
  import opened Catalog

  datatype LevelScore = LevelScore(correct: nat, total: nat)

  datatype QuizStats = QuizStats(
    totalQuizzes: nat,
    correctAnswers: nat,
    accuracy: nat,
    hskStats: map<Level, LevelScore>)

  datatype LevelProgress = LevelProgress(learned: seq<nat>, mastered: seq<nat>)

  datatype Profile = Profile(name: string, targetLevel: Level, dailyGoal: int, totalStudyTime: int)

  datatype State = State(
    favorites: seq<nat>,
    learnedWords: seq<nat>,
    quizStats: QuizStats,
    studyStreak: nat,
    lastStudyDate: Option<int>,
    userProfile: Profile,
    studyProgress: map<Level, LevelProgress>)

  /** The state the provider starts with, before anything is loaded. */
  function Initial(): (r: State)
    ensures r.favorites == [] && r.learnedWords == [] && r.studyStreak == 0 && r.lastStudyDate == None
    ensures forall i :: 0 <= i < |LevelIds| ==>
      LevelIds[i] in r.studyProgress && r.studyProgress[LevelIds[i]] == LevelProgress([], [])
    ensures forall l :: l in r.studyProgress ==> l in LevelIds
    ensures r.quizStats.correctAnswers == 0 && r.quizStats.totalQuizzes == 0
  {
    State(
      favorites := [],
      learnedWords := [],
      quizStats := QuizStats(0, 0, 0, map[
        "HSK1" := LevelScore(0, 0), "HSK2" := LevelScore(0, 0), "HSK3" := LevelScore(0, 0),
        "HSK4" := LevelScore(0, 0), "HSK5" := LevelScore(0, 0)]),
      studyStreak := 0,
      lastStudyDate := None,
      userProfile := Profile("", "HSK1", 10, 0),
      studyProgress := map[
        "HSK1" := LevelProgress([], []), "HSK2" := LevelProgress([], []),
        "HSK3" := LevelProgress([], []), "HSK4" := LevelProgress([], []),
        "HSK5" := LevelProgress([], [])])
  }

  // ---------------------------------------------------------------------------
  // Favorites

  function IsNot(id: nat): nat -> bool {
    x => x != id
  }

  /** The list update of `toggleFavorite`: drop every occurrence of a present
      id, append an absent one. */
  function Toggle(favs: seq<nat>, id: nat): (r: seq<nat>)
    ensures id in r <==> id !in favs
    ensures forall x :: x != id ==> (x in r <==> x in favs)
  {
    if id in favs then Filter(favs, IsNot(id)) else favs + [id]
  }

  /** `toggleFavorite(id)`: flips the membership of `id` and nothing else. */
  function ToggleFavorite(s: State, id: nat): (r: State)
    ensures id in r.favorites <==> id !in s.favorites
    ensures forall x :: x != id ==> (x in r.favorites <==> x in s.favorites)
    ensures r == s.(favorites := r.favorites)
  {
    s.(favorites := Toggle(s.favorites, id))
  }

  /** Toggling an absent id twice gives back exactly the same list. */
  lemma {:induction false} ToggleTwiceAbsent(favs: seq<nat>, id: nat)
    requires id !in favs
    ensures Toggle(Toggle(favs, id), id) == favs
  {
    FilterConcat(favs, [id], IsNot(id));
    FilterAll(favs, IsNot(id));
    assert Filter([id], IsNot(id)) == [];
  }

  /** Toggling keeps a duplicate-free favorites list duplicate-free. */
  lemma ToggleNoDuplicates(favs: seq<nat>, id: nat)
    requires NoDuplicates(favs)
    ensures NoDuplicates(Toggle(favs, id))
  {
    if id in favs {
      FilterNoDuplicates(favs, IsNot(id));
    }
  }

  // ---------------------------------------------------------------------------
  // Study streak

  /** The streak after a new word is learned on `today`: one more after a
      study day yesterday, unchanged after one today, otherwise a fresh run. */
  function NextStreak(streak: nat, last: Option<int>, today: int): (r: nat)
    ensures last == Some(today - 1) ==> r == streak + 1
    ensures last == Some(today) ==> r == streak
    ensures last != Some(today - 1) && last != Some(today) ==> r == 1
  {
    if last == Some(today - 1) then streak + 1
    else if last != Some(today) then 1
    else streak
  }

  /** The streak reached by learning new words on the given days, one after
      the other, starting from no history. */
  function ReplayStreak(days: seq<int>): nat
  {
    if |days| == 0 then 0
    else NextStreak(ReplayStreak(days[..|days| - 1]), LastDay(days[..|days| - 1]), days[|days| - 1])
  }

  function LastDay(days: seq<int>): Option<int> {
    if |days| == 0 then None else Some(days[|days| - 1])
  }

  ghost predicate NonDecreasing(days: seq<int>) {
    forall i, j :: 0 <= i < j < |days| ==> days[i] <= days[j]
  }

  /** The `k` calendar days ending on the last study day are all study days. */
  ghost predicate CoveredBack(days: seq<int>, k: nat)
    requires |days| > 0
  {
    forall x :: days[|days| - 1] - k < x <= days[|days| - 1] ==> x in days
  }

  /** A run of exactly `k` days ending on the last study day leaves the day
      before it unstudied. */
  lemma DayBeforeRunMissing(days: seq<int>, k: nat)
    requires |days| > 0
    requires CoveredBack(days, k) && !CoveredBack(days, k + 1)
    ensures days[|days| - 1] - k !in days
  {
  }

  /** The streak counts consecutive calendar days: after any history of study
      days (in calendar order), it is the length of the longest run of study
      days ending on the last one. */
  lemma {:induction false} StreakCountsConsecutiveDays(days: seq<int>)
    requires |days| > 0
    requires NonDecreasing(days)
    ensures CoveredBack(days, ReplayStreak(days))
    ensures !CoveredBack(days, ReplayStreak(days) + 1)
  {
    var n := |days|;
    var d := days[n - 1];
    var pre := days[..n - 1];
    if n == 1 {
      assert ReplayStreak(days) == 1;
      assert days[0] - 1 !in days;
    } else {
      assert days == pre + [d];
      assert NonDecreasing(pre) by {
        forall i, j | 0 <= i < j < |pre|
          ensures pre[i] <= pre[j]
        {
          assert pre[i] == days[i] && pre[j] == days[j];
        }
      }
      StreakCountsConsecutiveDays(pre);
      var k0 := ReplayStreak(pre);
      var last := pre[|pre| - 1];
      assert last == days[n - 2] && last <= d;
      assert ReplayStreak(days) == NextStreak(k0, Some(last), d);
      if d == last {
        StreakSameDay(pre, d, k0);
      } else if d == last + 1 {
        StreakNextDay(pre, d, k0);
      } else {
        forall i | 0 <= i < |pre|
          ensures pre[i] <= last
        {
          assert pre[i] == days[i];
        }
        StreakGap(pre, d);
      }
    }
  }

  /** A second new word on the same day keeps the run as it was. */
  lemma StreakSameDay(pre: seq<int>, d: int, k0: nat)
    requires |pre| > 0 && d == pre[|pre| - 1]
    requires CoveredBack(pre, k0) && !CoveredBack(pre, k0 + 1)
    ensures CoveredBack(pre + [d], k0) && !CoveredBack(pre + [d], k0 + 1)
  {
    var days := pre + [d];
    DayBeforeRunMissing(pre, k0);
    forall x | d - k0 < x <= d
      ensures x in days
    {
      assert x in pre;
    }
    assert d - k0 !in days;
  }

  /** A new word the day after the run extends the run by one day. */
  lemma StreakNextDay(pre: seq<int>, d: int, k0: nat)
    requires |pre| > 0 && d == pre[|pre| - 1] + 1
    requires CoveredBack(pre, k0) && !CoveredBack(pre, k0 + 1)
    requires forall i :: 0 <= i < |pre| ==> pre[i] <= d - 1
    ensures CoveredBack(pre + [d], k0 + 1) && !CoveredBack(pre + [d], k0 + 2)
  {
    var days := pre + [d];
    var last := pre[|pre| - 1];
    DayBeforeRunMissing(pre, k0);
    forall x | d - (k0 + 1) < x <= d
      ensures x in days
    {
      if x < d {
        assert x in pre;
      }
    }
    assert d - (k0 + 1) == last - k0;
    assert d - (k0 + 1) !in days;
  }

  /** A new word after a gap of a day or more starts a run of one. */
  lemma StreakGap(pre: seq<int>, d: int)
    requires |pre| > 0 && d > pre[|pre| - 1] + 1
    requires forall i :: 0 <= i < |pre| ==> pre[i] <= pre[|pre| - 1]
    ensures CoveredBack(pre + [d], 1) && !CoveredBack(pre + [d], 2)
  {
    var days := pre + [d];
    assert d in days;
    assert d - 1 !in days by {
      forall i | 0 <= i < |days|
        ensures days[i] != d - 1
      {
        if i < |pre| {
          assert days[i] == pre[i];
        }
      }
    }
  }

  // ---------------------------------------------------------------------------
  // Learned and mastered words

  /** `studyProgress[level]` exists whenever `level` is truthy: the source reads
      `prev[hskLevel].learned` without a guard and would throw otherwise. */
  ghost predicate LevelKnown(m: map<Level, LevelProgress>, level: Option<Level>) {
    Truthy(level) ==> level.value in m
  }

  /** `markAsLearned(id, level)` on `today`. */
  function MarkAsLearned(s: State, id: nat, level: Option<Level>, today: int): (r: State)
    requires LevelKnown(s.studyProgress, level)
    ensures id in s.learnedWords ==> r == s
    ensures id !in s.learnedWords ==>
      && r.learnedWords == s.learnedWords + [id]
      && r.studyStreak == NextStreak(s.studyStreak, s.lastStudyDate, today)
      && r.lastStudyDate == Some(today)
      && r.studyProgress.Keys == s.studyProgress.Keys
      && (Truthy(level) ==>
            r.studyProgress[level.value] == s.studyProgress[level.value].(
              learned := s.studyProgress[level.value].learned + [id]))
      && (forall l :: l in s.studyProgress && !(Truthy(level) && l == level.value) ==>
            r.studyProgress[l] == s.studyProgress[l])
      && r.favorites == s.favorites && r.quizStats == s.quizStats && r.userProfile == s.userProfile
  {
    if id in s.learnedWords then s
    else
      var progress :=
        if Truthy(level) then
          var p := s.studyProgress[level.value];
          s.studyProgress[level.value := p.(learned := p.learned + [id])]
        else s.studyProgress;
      s.(learnedWords := s.learnedWords + [id],
         studyProgress := progress,
         studyStreak := NextStreak(s.studyStreak, s.lastStudyDate, today),
         lastStudyDate := Some(today))
  }

  /** Marking the same word again changes nothing, whatever the day. */
  lemma MarkAsLearnedIdempotent(s: State, id: nat, level: Option<Level>, today: int, later: int)
    requires LevelKnown(s.studyProgress, level)
    ensures LevelKnown(MarkAsLearned(s, id, level, today).studyProgress, level)
    ensures MarkAsLearned(MarkAsLearned(s, id, level, today), id, level, later)
         == MarkAsLearned(s, id, level, today)
  {
  }

  /** The bookkeeping invariant markAsLearned keeps: the global learned list is
      duplicate-free and every level's learned list is a duplicate-free part
      of it. */
  ghost predicate LearnedConsistent(s: State) {
    && NoDuplicates(s.learnedWords)
    && (forall l :: l in s.studyProgress ==>
          && NoDuplicates(s.studyProgress[l].learned)
          && (forall x :: x in s.studyProgress[l].learned ==> x in s.learnedWords))
  }

  lemma InitialLearnedConsistent()
    ensures LearnedConsistent(Initial())
  {
  }

  lemma MarkAsLearnedConsistent(s: State, id: nat, level: Option<Level>, today: int)
    requires LevelKnown(s.studyProgress, level)
    requires LearnedConsistent(s)
    ensures LearnedConsistent(MarkAsLearned(s, id, level, today))
  {
    var r := MarkAsLearned(s, id, level, today);
    if id !in s.learnedWords {
      forall l | l in r.studyProgress
        ensures NoDuplicates(r.studyProgress[l].learned)
        ensures forall x :: x in r.studyProgress[l].learned ==> x in r.learnedWords
      {
        if Truthy(level) && l == level.value {
          var old_ := s.studyProgress[l].learned;
          assert r.studyProgress[l].learned == old_ + [id];
          assert id !in old_;
        }
      }
    }
  }

  /** `markAsMastered(id, level)`: records `id` once in the level's mastered
      list; a falsy level changes nothing. */
  function MarkAsMastered(s: State, id: nat, level: Option<Level>): (r: State)
    requires LevelKnown(s.studyProgress, level)
    ensures r.studyProgress.Keys == s.studyProgress.Keys
    ensures !Truthy(level) ==> r == s
    ensures Truthy(level) ==> id in r.studyProgress[level.value].mastered
    ensures Truthy(level) && id in s.studyProgress[level.value].mastered ==> r == s
    ensures Truthy(level) && id !in s.studyProgress[level.value].mastered ==>
              r.studyProgress[level.value].mastered == s.studyProgress[level.value].mastered + [id]
    ensures forall l :: l in s.studyProgress ==> r.studyProgress[l].learned == s.studyProgress[l].learned
    ensures forall l :: l in s.studyProgress && !(Truthy(level) && l == level.value) ==>
              r.studyProgress[l] == s.studyProgress[l]
    ensures r == s.(studyProgress := r.studyProgress)
  {
    if Truthy(level) then
      var p := s.studyProgress[level.value];
      var mastered := if id in p.mastered then p.mastered else p.mastered + [id];
      s.(studyProgress := s.studyProgress[level.value := p.(mastered := mastered)])
    else s
  }

  lemma MarkAsMasteredIdempotent(s: State, id: nat, level: Option<Level>)
    requires LevelKnown(s.studyProgress, level)
    ensures LevelKnown(MarkAsMastered(s, id, level).studyProgress, level)
    ensures MarkAsMastered(MarkAsMastered(s, id, level), id, level) == MarkAsMastered(s, id, level)
  {
  }

  // ---------------------------------------------------------------------------
  // Quiz statistics

  /** `Math.round(correct / total * 100) || 0` for counts whose ratio is a
      number: `0 / 0` is `NaN`, which `|| 0` turns into 0. */
  function Accuracy(correct: nat, total: nat): (r: nat)
    requires total == 0 ==> correct == 0
    ensures total == 0 ==> r == 0
    ensures total > 0 ==> 200 * correct - total < 2 * total * r <= 200 * correct + total
    ensures correct <= total ==> r <= 100
  {
    if total == 0 then 0
    else
      RoundPercentBounds(correct, total);
      RoundPercent(correct, total)
  }

  /** `updateQuizStats(correct, total, level)`. The new totals must not be
      `correct > 0` over `total == 0`, where the source stores `Infinity`. */
  function UpdateQuizStats(s: State, correct: nat, total: nat, level: Option<Level>): (r: State)
    requires Truthy(level) ==> level.value in s.quizStats.hskStats
    requires s.quizStats.totalQuizzes + total == 0 ==> s.quizStats.correctAnswers + correct == 0
    ensures r.quizStats.correctAnswers == s.quizStats.correctAnswers + correct
    ensures r.quizStats.totalQuizzes == s.quizStats.totalQuizzes + total
    ensures r.quizStats.accuracy == Accuracy(r.quizStats.correctAnswers, r.quizStats.totalQuizzes)
    ensures r.quizStats.hskStats.Keys == s.quizStats.hskStats.Keys
    ensures Truthy(level) ==>
      r.quizStats.hskStats[level.value] == LevelScore(
        s.quizStats.hskStats[level.value].correct + correct,
        s.quizStats.hskStats[level.value].total + total)
    ensures forall l :: l in s.quizStats.hskStats && !(Truthy(level) && l == level.value) ==>
              r.quizStats.hskStats[l] == s.quizStats.hskStats[l]
    ensures r == s.(quizStats := r.quizStats)
  {
    var q := s.quizStats;
    var newCorrect := q.correctAnswers + correct;
    var newTotal := q.totalQuizzes + total;
    var hsk :=
      if Truthy(level) then
        var old_ := q.hskStats[level.value];
        q.hskStats[level.value := LevelScore(old_.correct + correct, old_.total + total)]
      else q.hskStats;
    s.(quizStats := QuizStats(newTotal, newCorrect, Accuracy(newCorrect, newTotal), hsk))
  }

  /** Statistics that never count more correct answers than answers, and
      therefore always show an accuracy between 0 and 100. */
  ghost predicate StatsSound(q: QuizStats) {
    && q.correctAnswers <= q.totalQuizzes
    && q.accuracy <= 100
    && (forall l :: l in q.hskStats ==> q.hskStats[l].correct <= q.hskStats[l].total)
  }

  lemma UpdateQuizStatsSound(s: State, correct: nat, total: nat, level: Option<Level>)
    requires Truthy(level) ==> level.value in s.quizStats.hskStats
    requires StatsSound(s.quizStats) && correct <= total
    ensures StatsSound(UpdateQuizStats(s, correct, total, level).quizStats)
  {
  }

  /** The worked example: five questions, three right, on a fresh store. */
  lemma QuizStatsExample()
    ensures var q := UpdateQuizStats(Initial(), 3, 5, Some("HSK1")).quizStats;
            q.totalQuizzes == 5 && q.correctAnswers == 3 && q.accuracy == 60
            && q.hskStats["HSK1"] == LevelScore(3, 5)
  {
    var s := Initial();
    assert s.quizStats == QuizStats(0, 0, 0, map[
        "HSK1" := LevelScore(0, 0), "HSK2" := LevelScore(0, 0), "HSK3" := LevelScore(0, 0),
        "HSK4" := LevelScore(0, 0), "HSK5" := LevelScore(0, 0)]);
    assert Accuracy(3, 5) == 60;
  }

  // ---------------------------------------------------------------------------
  // Profile, streak reset, clearing

  /** The fields an `updateUserProfile` call may carry. */
  datatype ProfilePatch = ProfilePatch(
    name: Option<string>, targetLevel: Option<Level>, dailyGoal: Option<int>, totalStudyTime: Option<int>)

  /** `updateUserProfile(updates)`: `{ ...prev, ...updates }`. */
  function UpdateUserProfile(s: State, u: ProfilePatch): (r: State)
    ensures r.userProfile.name == (if u.name.Some? then u.name.value else s.userProfile.name)
    ensures r.userProfile.targetLevel == (if u.targetLevel.Some? then u.targetLevel.value else s.userProfile.targetLevel)
    ensures r.userProfile.dailyGoal == (if u.dailyGoal.Some? then u.dailyGoal.value else s.userProfile.dailyGoal)
    ensures r.userProfile.totalStudyTime == (if u.totalStudyTime.Some? then u.totalStudyTime.value else s.userProfile.totalStudyTime)
    ensures r == s.(userProfile := r.userProfile)
  {
    var p := s.userProfile;
    s.(userProfile := Profile(
      if u.name.Some? then u.name.value else p.name,
      if u.targetLevel.Some? then u.targetLevel.value else p.targetLevel,
      if u.dailyGoal.Some? then u.dailyGoal.value else p.dailyGoal,
      if u.totalStudyTime.Some? then u.totalStudyTime.value else p.totalStudyTime))
  }

  /** An empty patch changes nothing. */
  lemma EmptyPatchIsIdentity(s: State)
    ensures UpdateUserProfile(s, ProfilePatch(None, None, None, None)) == s
  {
  }

  /** `addStudyTime(minutes)`. */
  function AddStudyTime(s: State, minutes: int): (r: State)
    ensures r.userProfile.totalStudyTime == s.userProfile.totalStudyTime + minutes
    ensures r == s.(userProfile := s.userProfile.(totalStudyTime := r.userProfile.totalStudyTime))
  {
    s.(userProfile := s.userProfile.(totalStudyTime := s.userProfile.totalStudyTime + minutes))
  }

  /** Study time added in two steps is study time added at once. */
  lemma AddStudyTimeAdditive(s: State, a: int, b: int)
    ensures AddStudyTime(AddStudyTime(s, a), b) == AddStudyTime(s, a + b)
  {
  }

  /** `resetStreak()`. */
  function ResetStreak(s: State): (r: State)
    ensures r.studyStreak == 0
    ensures r == s.(studyStreak := 0)
  {
    s.(studyStreak := 0)
  }

  /** After a reset the next new word restarts the count from the reset value:
      on the day last studied the streak stays at 0 (that day is counted as
      already seen), on the day after it becomes 1, and on any other day it is
      1 as well. Every other field ends as learning the word without the reset
      would leave it. */
  lemma ResetStreakThenLearn(s: State, id: nat, level: Option<Level>, today: int)
    requires LevelKnown(s.studyProgress, level) && id !in s.learnedWords
    ensures s.lastStudyDate == Some(today) ==>
      MarkAsLearned(ResetStreak(s), id, level, today).studyStreak == 0
    ensures s.lastStudyDate != Some(today) ==>
      MarkAsLearned(ResetStreak(s), id, level, today).studyStreak == 1
    ensures MarkAsLearned(ResetStreak(s), id, level, today)
      == MarkAsLearned(s, id, level, today).(studyStreak := MarkAsLearned(ResetStreak(s), id, level, today).studyStreak)
  {
  }

  /** `clearAllData()`: the field values written out again by the handler. */
  function ClearAllData(s: State): (r: State)
    ensures r.favorites == [] && r.learnedWords == []
    ensures r.studyStreak == 0 && r.lastStudyDate == None
    ensures r.userProfile == Profile("", "HSK1", 10, 0)
    ensures r.quizStats.totalQuizzes == 0 && r.quizStats.correctAnswers == 0 && r.quizStats.accuracy == 0
    ensures r.quizStats.hskStats.Keys == r.studyProgress.Keys == set l | l in LevelIds
    ensures forall l :: l in LevelIds ==> r.quizStats.hskStats[l] == LevelScore(0, 0)
    ensures forall l :: l in LevelIds ==> r.studyProgress[l] == LevelProgress([], [])
  {
    State(
      favorites := [],
      learnedWords := [],
      quizStats := QuizStats(
        totalQuizzes := 0,
        correctAnswers := 0,
        accuracy := 0,
        hskStats := map l | l in LevelIds :: LevelScore(0, 0)),
      studyStreak := 0,
      lastStudyDate := None,
      userProfile := Profile("", "HSK1", 10, 0),
      studyProgress := map l | l in LevelIds :: LevelProgress([], []))
  }

  /** Clearing returns every field to the value the store starts with. */
  lemma ClearAllDataRestoresInitial(s: State)
    ensures ClearAllData(s) == Initial()
  {
    var r := ClearAllData(s);
    var i := Initial();
    assert r.quizStats.hskStats == i.quizStats.hskStats;
    assert r.studyProgress == i.studyProgress;
  }
}
