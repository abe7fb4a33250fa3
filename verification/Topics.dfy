/** The topics page (`src/app/topics/page_new.jsx`): per-topic statistics
    under a level filter, the topics that filter shows, and the link each
    topic card opens. The selected level is `"ALL"` or a level id. */
module Topics {
  import opened Js
  import opened Catalog
  import Progress
  import Url
  import Flashcards

  const AllLevels: Level := "ALL"

  /** The level selector: a falsy choice selects every level. */
  function Select(level: Option<Level>): (r: Level)
    ensures Truthy(level) ==> r == level.value
    ensures !Truthy(level) ==> r == AllLevels
  {
    if Truthy(level) then level.value else AllLevels
  }

  /** The words of a topic the page counts under the selected level. */
  function TopicWords(v: Vocabulary, topic: string, selected: Level): (r: seq<Word>)
    ensures selected == AllLevels ==> r == ByTopic(v, topic)
    ensures selected != AllLevels ==> r == ByTopicAndHSK(v, topic, selected)
  {
    if selected == AllLevels then ByTopic(v, topic)
    else
      ByTopicThenLevel(v, topic, selected);
      Filter(ByTopic(v, topic), LevelIs(selected))
  }

  /** `studyProgress[word.hskLevel]?.learned.includes(word.id) || false`. */
  predicate LearnedIn(m: map<Level, Progress.LevelProgress>, w: Word) {
    w.hskLevel in m && w.id in m[w.hskLevel].learned
  }

  function IsLearnedIn(m: map<Level, Progress.LevelProgress>): Word -> bool {
    (w: Word) => LearnedIn(m, w)
  }

  datatype TopicStats = TopicStats(totalWords: nat, learnedWords: nat, progress: nat)

  /** `getTopicStats(topic)`: how many of the counted words are learned in
      their own level's record, and that share rounded (0 for no words). */
  function Stats(v: Vocabulary, m: map<Level, Progress.LevelProgress>, topic: string, selected: Level): (r: TopicStats)
    ensures r.totalWords == |TopicWords(v, topic, selected)|
    ensures r.learnedWords <= r.totalWords && r.progress <= 100
    ensures r.totalWords == 0 ==> r.progress == 0
    ensures r.totalWords > 0 ==>
      200 * r.learnedWords - r.totalWords < 2 * r.totalWords * r.progress <= 200 * r.learnedWords + r.totalWords
    ensures r.learnedWords == |Filter(TopicWords(v, topic, selected), IsLearnedIn(m))|
  {
    var words := TopicWords(v, topic, selected);
    var learned := |Filter(words, IsLearnedIn(m))|;
    if |words| > 0 then
      RoundPercentBounds(learned, |words|);
      TopicStats(|words|, learned, RoundPercent(learned, |words|))
    else TopicStats(0, learned, 0)
  }

  /** A word counts as learned exactly when its own level's record lists it:
      marking a word under another level does not count it here. */
  lemma LearnedMeansRecordedInOwnLevel(v: Vocabulary, m: map<Level, Progress.LevelProgress>, topic: string, selected: Level, w: Word)
    requires w in TopicWords(v, topic, selected)
    ensures w in Filter(TopicWords(v, topic, selected), IsLearnedIn(m))
        <==> w.hskLevel in m && w.id in m[w.hskLevel].learned
  {
    var words := TopicWords(v, topic, selected);
    var i :| 0 <= i < |words| && words[i] == w;
    assert IsLearnedIn(m)(words[i]) == LearnedIn(m, w);
  }

  /** With every level's learned list empty, no topic shows progress. */
  lemma NothingLearnedNoProgress(v: Vocabulary, m: map<Level, Progress.LevelProgress>, topic: string, selected: Level)
    requires forall l :: l in m ==> m[l].learned == []
    ensures Stats(v, m, topic, selected).learnedWords == 0
    ensures Stats(v, m, topic, selected).progress == 0
  {
    var words := TopicWords(v, topic, selected);
    forall w | w in words
      ensures !IsLearnedIn(m)(w)
    {
      assert !LearnedIn(m, w);
    }
    FilterNone(words, IsLearnedIn(m));
    if |words| > 0 {
      RoundPercentBounds(0, |words|);
    }
  }

  /** Once all data is cleared, no topic shows progress. */
  lemma ClearedTopicsShowNoProgress(v: Vocabulary, s: Progress.State, topic: string, selected: Level)
    ensures Stats(v, Progress.ClearAllData(s).studyProgress, topic, selected).learnedWords == 0
    ensures Stats(v, Progress.ClearAllData(s).studyProgress, topic, selected).progress == 0
  {
    var m := Progress.ClearAllData(s).studyProgress;
    assert forall l :: l in m ==> l in LevelIds;
    NothingLearnedNoProgress(v, m, topic, selected);
  }

  /** `words.some(word => word.hskLevel === selectedHSK)`. */
  function HasWordsAt(v: Vocabulary, level: Level): Topic -> bool {
    (t: Topic) => Any(ByTopic(v, t.id), LevelIs(level))
  }

  /** `filteredTopics`: every topic for `"ALL"`, otherwise the topics with at
      least one catalog word at the selected level, in declared order. */
  function FilteredTopics(v: Vocabulary, topics: seq<Topic>, selected: Level): (r: seq<Topic>)
    ensures IsSubsequence(r, topics)
    ensures selected == AllLevels ==> r == topics
  {
    if selected == AllLevels then
      FilterAll(topics, (t: Topic) => true);
      FilterSubsequence(topics, (t: Topic) => true);
      topics
    else
      FilterSubsequence(topics, HasWordsAt(v, selected));
      Filter(topics, HasWordsAt(v, selected))
  }

  /** Under a level filter a topic is shown exactly when it has words at that
      level, i.e. exactly when its card would count at least one word. */
  lemma FilteredTopicsShowWords(v: Vocabulary, topics: seq<Topic>, selected: Level, t: Topic)
    requires selected != AllLevels && t in topics
    ensures t in FilteredTopics(v, topics, selected) <==> |ByTopicAndHSK(v, t.id, selected)| > 0
    ensures t in FilteredTopics(v, topics, selected) <==> Stats(v, map[], t.id, selected).totalWords > 0
  {
    var i :| 0 <= i < |topics| && topics[i] == t;
    assert HasWordsAt(v, selected)(topics[i]) == Any(ByTopic(v, t.id), LevelIs(selected));
    AnyIffFilterNonEmpty(ByTopic(v, t.id), LevelIs(selected));
    ByTopicThenLevel(v, t.id, selected);
  }

  /** The declared `hskLevels` of a topic agree with its words. */
  ghost predicate LevelsDeclared(v: Vocabulary, topics: seq<Topic>) {
    forall t, w :: t in topics && w in All(v) && w.topic == t.id ==> w.hskLevel in t.hskLevels
  }

  /** The page decides by the words, not by the declared levels; when the
      declarations agree with the words, every shown topic is one
      `getTopicsByHSK` also lists. */
  lemma FilteredTopicsDeclared(v: Vocabulary, topics: seq<Topic>, selected: Level)
    requires selected != AllLevels && LevelsDeclared(v, topics)
    ensures forall t :: t in FilteredTopics(v, topics, selected) ==> t in TopicsByHSK(topics, selected)
  {
    forall t | t in FilteredTopics(v, topics, selected)
      ensures t in TopicsByHSK(topics, selected)
    {
      FilteredTopicsShowWords(v, topics, selected, t);
      var w := ByTopicAndHSK(v, t.id, selected)[0];
      assert w in All(v) && w.topic == t.id && w.hskLevel == selected;
    }
  }

  /** The link a topic card opens. */
  function TopicLink(topicId: string, selected: Level): (r: string)
    ensures Url.Plain(topicId) && Url.Plain(selected) ==>
      r == Url.Build("/learn", [("topic", topicId), ("hsk", selected)])
  {
    Url.BuildTwo("/learn", "topic", topicId, "hsk", selected);
    "/learn?topic=" + topicId + "&hsk=" + selected
  }

  /** The card's link is the `/learn` route carrying the level as `hsk` and
      no start word. */
  lemma TopicLinkParams(topicId: string, selected: Level)
    requires Url.Plain(topicId) && Url.Plain(selected)
    ensures Url.Path(TopicLink(topicId, selected)) == "/learn"
    ensures Url.Get(TopicLink(topicId, selected), "hsk") == Some(selected)
    ensures Url.Get(TopicLink(topicId, selected), "startWord") == None
  {
    var params := [("topic", topicId), ("hsk", selected)];
    assert Url.Plain("/learn") && Url.Plain("topic") && Url.Plain("hsk");
    assert Url.PlainParams(params);
    assert Url.Lookup(params, "hsk") == Some(selected);
    assert |"startWord"| == 9;
    assert Url.Lookup(params[1..], "startWord") == None;
    Url.BuildRoundTrip("/learn", params, "hsk");
    Url.BuildRoundTrip("/learn", params, "startWord");
  }

  /** What the card opens: the learn page reads only `hsk`, so the deck is
      the selected level's whole list whatever the topic, and for `"ALL"`
      (no level id) the deck is empty. */
  lemma TopicLinkIgnoresTopic(v: Vocabulary, topicId: string, selected: Level)
    requires Url.Plain(topicId) && Url.Plain(selected) && selected != ""
    ensures Flashcards.Open(v, TopicLink(topicId, selected)).data == ByHSK(v, selected)
    ensures Flashcards.Open(v, TopicLink(topicId, selected)).selected == Some(selected)
    ensures selected == AllLevels ==> Flashcards.Open(v, TopicLink(topicId, selected)).data == []
  {
    TopicLinkParams(topicId, selected);
    Flashcards.OpenLevelOnly(v, TopicLink(topicId, selected));
  }
}
