/** The quiz page (`src/app/quiz/page_new.jsx`): five questions drawn from a
    level (or the whole catalog), each with the right word and the drawn
    wrong words shuffled together; one answer per question, a score, and a
    result screen. */
module Quiz {
  import opened Js
  import opened Catalog

  const QuestionCount: nat := 5
  const DistractorDraw: nat := 3

  /** One question: the word asked, the answer buttons, and the right id. */
  datatype Question = Question(word: Word, options: seq<Word>, correctAnswer: nat)

  /** The page's state. `level` is `null` (None) for "all levels". */
  datatype Session = Session(
    level: Option<Level>,
    showSelector: bool,
    questions: seq<Question>,
    index: nat,
    selected: Option<nat>,
    answered: bool,
    score: nat,
    completed: bool)

  function Initial(): Session {
    Session(None, true, [], 0, None, false, 0, false)
  }

  /** The random orders a quiz start consumes: one for the asked words, and
      for each question one for its wrong-word draw and one for shuffling its
      buttons. */
  datatype Draw = Draw(stems: seq<nat>, distractors: seq<seq<nat>>, shuffles: seq<seq<nat>>)

  // ---------------------------------------------------------------------------
  // Building questions

  /** `getRandomVocabulary(3, level).filter(w => w.id !== word.id)`: three
      drawn words, less the asked word if it was among them. */
  function Distractors(pool: seq<Word>, word: Word, draw: seq<nat>): (r: seq<Word>)
    requires IsPermutation(draw, |pool|)
    ensures |r| <= DistractorDraw
    ensures forall i :: 0 <= i < |r| ==> r[i] in pool && r[i].id != word.id
  {
    Filter(Sample(pool, DistractorDraw, draw), IdIsNot(word.id))
  }

  /** One question: the asked word and its wrong words, shuffled. */
  function BuildQuestion(pool: seq<Word>, word: Word, draw: seq<nat>, shuffle: seq<nat>): (q: Question)
    requires IsPermutation(draw, |pool|)
    requires IsPermutation(shuffle, 1 + |Distractors(pool, word, draw)|)
    ensures q.word == word && q.correctAnswer == word.id
    ensures word in q.options
    ensures |q.options| == 1 + |Distractors(pool, word, draw)|
    ensures forall o :: o in q.options ==> o == word || (o in pool && o.id != word.id)
  {
    var s := [word] + Distractors(pool, word, draw);
    assert s[0] == word;
    Question(word, Permute(s, shuffle), word.id)
  }

  /** On a pool of at least three words with unique ids, a question has three
      or four buttons, all with different ids: three exactly when the asked
      word was among the three drawn. */
  lemma QuestionShape(pool: seq<Word>, word: Word, draw: seq<nat>, shuffle: seq<nat>)
    requires IsPermutation(draw, |pool|)
    requires IsPermutation(shuffle, 1 + |Distractors(pool, word, draw)|)
    requires UniqueIds(pool) && |pool| >= DistractorDraw
    ensures var q := BuildQuestion(pool, word, draw, shuffle);
      && 3 <= |q.options| <= 4
      && (|q.options| == 3 <==> word.id in Ids(Sample(pool, DistractorDraw, draw)))
      && UniqueIds(q.options)
  {
    var drawn := Sample(pool, DistractorDraw, draw);
    assert |drawn| == DistractorDraw;
    SampleUniqueIds(pool, DistractorDraw, draw);
    DropIdCount(drawn, word.id);
    var d := Distractors(pool, word, draw);
    UniqueIdsFilter(drawn, IdIsNot(word.id));
    OptionsUniqueIds(word, d);
    assert BuildQuestion(pool, word, draw, shuffle).options == Permute([word] + d, shuffle);
    PermuteUniqueIds([word] + d, shuffle);
  }

  /** The asked word in front of wrong words with other ids, themselves with
      unique ids, gives buttons with unique ids. */
  lemma OptionsUniqueIds(word: Word, d: seq<Word>)
    requires UniqueIds(d)
    requires forall i :: 0 <= i < |d| ==> d[i].id != word.id
    ensures UniqueIds([word] + d)
  {
    var s := [word] + d;
    forall i, j | 0 <= i < j < |s|
      ensures s[i].id != s[j].id
    {
      if i > 0 {
        assert s[i] == d[i - 1] && s[j] == d[j - 1];
      } else {
        assert s[j] == d[j - 1];
      }
    }
  }

  /** The random orders fit the asked words: one wrong-word order per
      question over the pool, and one button order per question over its
      buttons. */
  ghost predicate DrawFits(pool: seq<Word>, stems: seq<Word>, ds: seq<seq<nat>>, ss: seq<seq<nat>>) {
    && |ds| >= |stems| && |ss| >= |stems|
    && (forall i :: 0 <= i < |stems| ==>
          IsPermutation(ds[i], |pool|) && IsPermutation(ss[i], 1 + |Distractors(pool, stems[i], ds[i])|))
  }

  /** `randomWords.map(word => ...)`. */
  function BuildQuestions(pool: seq<Word>, stems: seq<Word>, ds: seq<seq<nat>>, ss: seq<seq<nat>>): (r: seq<Question>)
    requires DrawFits(pool, stems, ds, ss)
    ensures |r| == |stems|
    ensures forall i :: 0 <= i < |r| ==>
              && r[i] == BuildQuestion(pool, stems[i], ds[i], ss[i])
              && r[i].word == stems[i] && r[i].correctAnswer == stems[i].id && stems[i] in r[i].options
  {
    if |stems| == 0 then []
    else
      assert DrawFits(pool, stems[1..], ds[1..], ss[1..]) by {
        forall i | 0 <= i < |stems[1..]|
          ensures IsPermutation(ds[1..][i], |pool|)
          ensures IsPermutation(ss[1..][i], 1 + |Distractors(pool, stems[1..][i], ds[1..][i])|)
        {
          assert stems[1..][i] == stems[i + 1];
        }
      }
      [BuildQuestion(pool, stems[0], ds[0], ss[0])] + BuildQuestions(pool, stems[1..], ds[1..], ss[1..])
  }

  /** The words a quiz start asks about. */
  function Stems(v: Vocabulary, level: Option<Level>, draw: Draw): (r: seq<Word>)
    requires IsPermutation(draw.stems, |Pool(v, level)|)
  {
    RandomVocabulary(v, QuestionCount, level, draw.stems)
  }

  /** `startNewQuiz`: draws up to five words; with none, nothing changes;
      otherwise a fresh quiz from its first question. */
  function StartNewQuiz(v: Vocabulary, q: Session, draw: Draw): (r: Session)
    requires IsPermutation(draw.stems, |Pool(v, q.level)|)
    requires DrawFits(Pool(v, q.level), Stems(v, q.level, draw), draw.distractors, draw.shuffles)
    ensures |Pool(v, q.level)| == 0 ==> r == q
    ensures |Pool(v, q.level)| > 0 ==>
      && |r.questions| == (if |Pool(v, q.level)| < QuestionCount then |Pool(v, q.level)| else QuestionCount)
      && r.index == 0 && r.selected == None && !r.answered && r.score == 0 && !r.completed
      && !r.showSelector && r.level == q.level
  {
    var stems := Stems(v, q.level, draw);
    if |stems| == 0 then q
    else
      q.(questions := BuildQuestions(Pool(v, q.level), stems, draw.distractors, draw.shuffles),
         index := 0, selected := None, answered := false, score := 0, completed := false,
         showSelector := false)
  }

  /** A started quiz asks about different words, each question's right
      answer is its word's id, that word is among the buttons, and no other
      button carries that id. */
  lemma StartNewQuizQuestions(v: Vocabulary, q: Session, draw: Draw)
    requires WellFormed(v)
    requires IsPermutation(draw.stems, |Pool(v, q.level)|)
    requires DrawFits(Pool(v, q.level), Stems(v, q.level, draw), draw.distractors, draw.shuffles)
    requires |Pool(v, q.level)| > 0
    ensures var qs := StartNewQuiz(v, q, draw).questions;
      && (forall i, j :: 0 <= i < j < |qs| ==> qs[i].word.id != qs[j].word.id)
      && (forall i :: 0 <= i < |qs| ==>
            && qs[i].correctAnswer == qs[i].word.id && qs[i].word in qs[i].options
            && forall o :: o in qs[i].options && o != qs[i].word ==>
                 o.id != qs[i].correctAnswer && o in Pool(v, q.level))
  {
    RandomVocabularyUniqueIds(v, QuestionCount, q.level, draw.stems);
  }

  /** On a pool of at least three words every question has three or four
      buttons with pairwise different ids. */
  lemma StartNewQuizOptions(v: Vocabulary, q: Session, draw: Draw)
    requires WellFormed(v)
    requires IsPermutation(draw.stems, |Pool(v, q.level)|)
    requires DrawFits(Pool(v, q.level), Stems(v, q.level, draw), draw.distractors, draw.shuffles)
    requires |Pool(v, q.level)| >= DistractorDraw
    ensures var qs := StartNewQuiz(v, q, draw).questions;
      forall i :: 0 <= i < |qs| ==> 3 <= |qs[i].options| <= 4 && UniqueIds(qs[i].options)
  {
    var pool := Pool(v, q.level);
    var stems := Stems(v, q.level, draw);
    PoolUniqueIds(v, q.level);
    var qs := StartNewQuiz(v, q, draw).questions;
    forall i | 0 <= i < |qs|
      ensures 3 <= |qs[i].options| <= 4 && UniqueIds(qs[i].options)
    {
      QuestionShape(pool, stems[i], draw.distractors[i], draw.shuffles[i]);
    }
  }

  // ---------------------------------------------------------------------------
  // The level screen

  /** `availableWords`: the catalog words of the selected level, or all. */
  function Available(v: Vocabulary, level: Option<Level>): (r: seq<Word>)
    ensures forall i :: 0 <= i < |r| ==> r[i] in All(v) && (Truthy(level) ==> r[i].hskLevel == level.value)
    ensures forall w :: w in All(v) && (Truthy(level) ==> w.hskLevel == level.value) ==> w in r
  {
    if Truthy(level) then Filter(All(v), LevelIs(level.value)) else All(v)
  }

  /** The start button is enabled from four available words on. */
  predicate StartEnabled(v: Vocabulary, level: Option<Level>) {
    |Available(v, level)| >= 4
  }

  /** The words the level screen counts are the words the quiz draws from,
      so the button's "(min(n, 5) questions)" label is the number of
      questions a start produces, and an enabled start always produces a
      quiz of four or five questions. */
  lemma StartLabelMatches(v: Vocabulary, q: Session, draw: Draw)
    requires WellFormed(v)
    requires IsPermutation(draw.stems, |Pool(v, q.level)|)
    requires DrawFits(Pool(v, q.level), Stems(v, q.level, draw), draw.distractors, draw.shuffles)
    ensures Available(v, q.level) == Pool(v, q.level)
    ensures var n := |Available(v, q.level)|;
      n > 0 ==> |StartNewQuiz(v, q, draw).questions| == (if n < QuestionCount then n else QuestionCount)
    ensures StartEnabled(v, q.level) ==> 4 <= |StartNewQuiz(v, q, draw).questions| <= 5
  {
    if Truthy(q.level) {
      ByHSKIsLevelFilter(v, q.level.value);
    }
  }

  /** "Change level": back to the level screen; the quiz is kept. */
  function ShowSelector(q: Session): (r: Session)
    ensures r.showSelector && r.questions == q.questions && r.score == q.score
    ensures r == q.(showSelector := true)
  {
    q.(showSelector := true)
  }

  /** The level selector on the level screen. */
  function SelectLevel(q: Session, level: Option<Level>): (r: Session)
    ensures r.level == level && r.questions == q.questions && r.score == q.score
    ensures r == q.(level := level)
  {
    q.(level := level)
  }

  // ---------------------------------------------------------------------------
  // Answering

  /** `handleAnswerSelect`: the first answer to a question is locked in and
      scores when it is right; later clicks change nothing. */
  function AnswerSelect(q: Session, answerId: nat): (r: Session)
    requires q.index < |q.questions|
    ensures q.answered ==> r == q
    ensures !q.answered ==>
      && r.answered && r.selected == Some(answerId)
      && (answerId == q.questions[q.index].correctAnswer ==> r.score == q.score + 1)
      && (answerId != q.questions[q.index].correctAnswer ==> r.score == q.score)
      && r.questions == q.questions && r.index == q.index && r.completed == q.completed
    ensures r == q.(selected := r.selected, answered := r.answered, score := r.score)
  {
    if q.answered then q
    else
      q.(selected := Some(answerId), answered := true,
         score := if answerId == q.questions[q.index].correctAnswer then q.score + 1 else q.score)
  }

  /** An answer is final: a second click is ignored whatever it is. */
  lemma AnswerIsOneShot(q: Session, first: nat, second: nat)
    requires q.index < |q.questions|
    ensures AnswerSelect(AnswerSelect(q, first), second) == AnswerSelect(q, first)
  {
  }

  /** `handleNextQuestion`: on to the next question with the answer cleared,
      or, on the last question, the result screen. */
  function NextQuestion(q: Session): (r: Session)
    ensures q.index + 1 < |q.questions| ==>
      r.index == q.index + 1 && r.selected == None && !r.answered && r.score == q.score
    ensures q.index + 1 >= |q.questions| ==> r.completed && r.index == q.index && r.score == q.score
    ensures r.questions == q.questions && r.completed == (q.completed || q.index + 1 >= |q.questions|)
    ensures q.index + 1 < |q.questions| ==> r == q.(index := r.index, selected := None, answered := false)
    ensures q.index + 1 >= |q.questions| ==> r == q.(completed := true)
  {
    if q.index < |q.questions| - 1 then q.(index := q.index + 1, selected := None, answered := false)
    else q.(completed := true)
  }

  /** What the page keeps true: the cursor is on a question, a selection is
      shown only once answered, and the score counts at most the questions
      answered so far. */
  ghost predicate Consistent(q: Session) {
    && (|q.questions| > 0 ==> q.index < |q.questions|)
    && (|q.questions| == 0 ==> q.index == 0)
    && (q.selected.Some? ==> q.answered)
    && q.score <= q.index + (if q.answered then 1 else 0)
  }

  lemma InitialConsistent()
    ensures Consistent(Initial())
  {
  }

  /** Every handler keeps the page consistent. */
  lemma HandlersKeepConsistent(v: Vocabulary, q: Session, draw: Draw, answerId: nat, level: Option<Level>)
    requires Consistent(q)
    ensures q.index < |q.questions| ==> Consistent(AnswerSelect(q, answerId))
    ensures Consistent(NextQuestion(q))
    ensures Consistent(ShowSelector(q)) && Consistent(SelectLevel(q, level))
    ensures IsPermutation(draw.stems, |Pool(v, q.level)|)
            && DrawFits(Pool(v, q.level), Stems(v, q.level, draw), draw.distractors, draw.shuffles) ==>
              Consistent(StartNewQuiz(v, q, draw))
  {
  }

  /** The score never exceeds the number of questions, so the wrong-answer
      count `length - score` on the result screen is never negative. */
  lemma ScoreBounded(q: Session)
    requires Consistent(q) && |q.questions| > 0
    ensures q.score <= |q.questions|
  {
  }

  /** The result screen's `Math.round(score / length * 100)`. */
  function Percentage(q: Session): (r: nat)
    requires |q.questions| > 0
    ensures 200 * q.score - |q.questions| < 2 * |q.questions| * r <= 200 * q.score + |q.questions|
  {
    RoundPercent(q.score, |q.questions|)
  }

  /** The percentage lies in [0, 100]: 100 exactly for a perfect score, 0 for
      no right answer. */
  lemma PercentageInRange(q: Session)
    requires Consistent(q) && |q.questions| > 0
    ensures Percentage(q) <= 100
    ensures q.score == |q.questions| ==> Percentage(q) == 100
    ensures q.score == 0 ==> Percentage(q) == 0
  {
    RoundPercentBounds(q.score, |q.questions|);
  }
}
