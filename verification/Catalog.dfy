/** The read-only vocabulary catalog and its queries (`src/lib/data.js`).
    The word lists themselves are not part of this model: a catalog is a
    parameter, and `WellFormed` states what the shipped data is assumed to
    satisfy (unique ids, each level list carrying its own level). */
module Catalog {
  import opened Js

  /** An HSK level key, `"HSK1"` .. `"HSK5"`; the pages also pass `"ALL"` and
      URL parameters, so it is kept as a string. */
  type Level = string

  const LevelIds: seq<Level> := ["HSK1", "HSK2", "HSK3", "HSK4", "HSK5"]

  datatype Word = Word(
    id: nat,
    chinese: string,
    pinyin: string,
    vietnamese: string,
    english: string,
    example: string,
    exampleTranslation: string,
    hskLevel: Level,
    topic: string)

  /** A topic card: only the fields the logic reads. */
  datatype Topic = Topic(id: string, name: string, hskLevels: seq<Level>)

  /** `hskVocabularyData`: one word list per level, in declaration order. */
  datatype Vocabulary = Vocabulary(
    hsk1: seq<Word>, hsk2: seq<Word>, hsk3: seq<Word>, hsk4: seq<Word>, hsk5: seq<Word>)

  /** `Object.values(hskVocabularyData)`. */
  function Lists(v: Vocabulary): (r: seq<seq<Word>>)
    ensures |r| == |LevelIds|
  {
    [v.hsk1, v.hsk2, v.hsk3, v.hsk4, v.hsk5]
  }

  function Flatten<T>(ls: seq<seq<T>>): seq<T>
  {
    if |ls| == 0 then [] else ls[0] + Flatten(ls[1..])
  }

  /** `vocabularyData`: the flattened catalog, HSK1 .. HSK5 concatenated in
      that order. */
  function All(v: Vocabulary): (r: seq<Word>)
    ensures r == v.hsk1 + v.hsk2 + v.hsk3 + v.hsk4 + v.hsk5
  {
    FlattenLists(v);
    Flatten(Lists(v))
  }

  lemma FlattenLists(v: Vocabulary)
    ensures Flatten(Lists(v)) == v.hsk1 + v.hsk2 + v.hsk3 + v.hsk4 + v.hsk5
  {
    var ls := Lists(v);
    assert ls[1..] == [v.hsk2, v.hsk3, v.hsk4, v.hsk5];
    assert ls[1..][1..] == [v.hsk3, v.hsk4, v.hsk5];
    assert ls[1..][1..][1..] == [v.hsk4, v.hsk5];
    assert ls[1..][1..][1..][1..] == [v.hsk5];
    assert Flatten(ls[1..][1..][1..][1..]) == v.hsk5 + Flatten([]) == v.hsk5;
    assert Flatten(ls[1..][1..][1..]) == v.hsk4 + v.hsk5;
    assert Flatten(ls[1..][1..]) == v.hsk3 + (v.hsk4 + v.hsk5);
    assert Flatten(ls[1..]) == v.hsk2 + (v.hsk3 + (v.hsk4 + v.hsk5));
    assert Flatten(ls) == v.hsk1 + (v.hsk2 + (v.hsk3 + (v.hsk4 + v.hsk5)));
  }

  ghost predicate UniqueIds(ws: seq<Word>) {
    forall i, j :: 0 <= i < j < |ws| ==> ws[i].id != ws[j].id
  }

  /** What the shipped data is assumed to satisfy. */
  ghost predicate WellFormed(v: Vocabulary) {
    && UniqueIds(All(v))
    && (forall k :: 0 <= k < |LevelIds| ==>
          forall w :: w in Lists(v)[k] ==> w.hskLevel == LevelIds[k])
  }

  lemma UniqueIdsNoDuplicates(ws: seq<Word>)
    requires UniqueIds(ws)
    ensures NoDuplicates(ws)
  {
  }

  lemma {:induction false} UniqueIdsFilter(ws: seq<Word>, p: Word -> bool)
    requires UniqueIds(ws)
    ensures UniqueIds(Filter(ws, p))
  {
    if |ws| > 0 {
      UniqueIdsFilter(ws[1..], p);
      var r := Filter(ws, p);
      if p(ws[0]) {
        forall j | 0 < j < |r|
          ensures r[0].id != r[j].id
        {
          assert r[j] in ws[1..];
        }
      }
    }
  }

  /** The filter predicates the catalog queries use, named so that the same
      closure is denoted everywhere. */
  function LevelIs(level: Level): Word -> bool {
    (w: Word) => w.hskLevel == level
  }

  function TopicIs(topic: string): Word -> bool {
    (w: Word) => w.topic == topic
  }

  function TopicAndLevelAre(topic: string, level: Level): Word -> bool {
    (w: Word) => w.topic == topic && w.hskLevel == level
  }

  /** A list whose words all carry `lvl` keeps everything or nothing under
      the filter for `level`. */
  lemma FilterLevelList(ws: seq<Word>, lvl: Level, level: Level)
    requires forall w :: w in ws ==> w.hskLevel == lvl
    ensures Filter(ws, LevelIs(level)) == (if lvl == level then ws else [])
  {
    if lvl == level {
      FilterAll(ws, LevelIs(level));
    } else {
      FilterNone(ws, LevelIs(level));
    }
  }

  /** `getVocabularyByHSK(level)`: `hskVocabularyData[level] || []`. */
  function ByHSK(v: Vocabulary, level: Level): (r: seq<Word>)
    ensures level !in LevelIds ==> r == []
    ensures forall i :: 0 <= i < |LevelIds| && LevelIds[i] == level ==> r == Lists(v)[i]
  {
    if level == "HSK1" then v.hsk1
    else if level == "HSK2" then v.hsk2
    else if level == "HSK3" then v.hsk3
    else if level == "HSK4" then v.hsk4
    else if level == "HSK5" then v.hsk5
    else []
  }

  /** The five per-level facts a well-formed catalog promises. */
  lemma WellFormedLevels(v: Vocabulary)
    requires WellFormed(v)
    ensures forall w :: w in v.hsk1 ==> w.hskLevel == "HSK1"
    ensures forall w :: w in v.hsk2 ==> w.hskLevel == "HSK2"
    ensures forall w :: w in v.hsk3 ==> w.hskLevel == "HSK3"
    ensures forall w :: w in v.hsk4 ==> w.hskLevel == "HSK4"
    ensures forall w :: w in v.hsk5 ==> w.hskLevel == "HSK5"
  {
    var ls := Lists(v);
    assert ls[0] == v.hsk1 && ls[1] == v.hsk2 && ls[2] == v.hsk3 && ls[3] == v.hsk4 && ls[4] == v.hsk5;
  }

  /** The level's own list, the empty list for any other key, and, on a
      well-formed catalog, exactly the catalog words of that level in catalog
      order. */
  lemma ByHSKIsLevelFilter(v: Vocabulary, level: Level)
    requires WellFormed(v)
    ensures level !in LevelIds ==> ByHSK(v, level) == []
    ensures ByHSK(v, level) == Filter(All(v), LevelIs(level))
  {
    WellFormedLevels(v);
    LevelFilterOfLists(v, level);
  }

  lemma LevelFilterOfLists(v: Vocabulary, level: Level)
    requires forall w :: w in v.hsk1 ==> w.hskLevel == "HSK1"
    requires forall w :: w in v.hsk2 ==> w.hskLevel == "HSK2"
    requires forall w :: w in v.hsk3 ==> w.hskLevel == "HSK3"
    requires forall w :: w in v.hsk4 ==> w.hskLevel == "HSK4"
    requires forall w :: w in v.hsk5 ==> w.hskLevel == "HSK5"
    ensures ByHSK(v, level) == Filter(All(v), LevelIs(level))
  {
    var p := LevelIs(level);
    FilterFive(v, p);
    FilterLevelList(v.hsk1, "HSK1", level);
    FilterLevelList(v.hsk2, "HSK2", level);
    FilterLevelList(v.hsk3, "HSK3", level);
    FilterLevelList(v.hsk4, "HSK4", level);
    FilterLevelList(v.hsk5, "HSK5", level);
    OneOfFive(v.hsk1, v.hsk2, v.hsk3, v.hsk4, v.hsk5,
      Filter(v.hsk1, p), Filter(v.hsk2, p), Filter(v.hsk3, p), Filter(v.hsk4, p), Filter(v.hsk5, p), level);
  }

  /** Filtering the flat catalog filters each level list in turn. */
  lemma FilterFive(v: Vocabulary, p: Word -> bool)
    ensures Filter(All(v), p)
         == Filter(v.hsk1, p) + Filter(v.hsk2, p) + Filter(v.hsk3, p) + Filter(v.hsk4, p) + Filter(v.hsk5, p)
  {
    FilterConcat(v.hsk1 + v.hsk2 + v.hsk3 + v.hsk4, v.hsk5, p);
    FilterConcat(v.hsk1 + v.hsk2 + v.hsk3, v.hsk4, p);
    FilterConcat(v.hsk1 + v.hsk2, v.hsk3, p);
    FilterConcat(v.hsk1, v.hsk2, p);
  }

  /** Five parts, each either its list (for the matching key) or empty,
      concatenate to the list of the key. */
  lemma OneOfFive(a1: seq<Word>, a2: seq<Word>, a3: seq<Word>, a4: seq<Word>, a5: seq<Word>,
                  f1: seq<Word>, f2: seq<Word>, f3: seq<Word>, f4: seq<Word>, f5: seq<Word>, level: Level)
    requires f1 == (if "HSK1" == level then a1 else [])
    requires f2 == (if "HSK2" == level then a2 else [])
    requires f3 == (if "HSK3" == level then a3 else [])
    requires f4 == (if "HSK4" == level then a4 else [])
    requires f5 == (if "HSK5" == level then a5 else [])
    ensures f1 + f2 + f3 + f4 + f5
         == (if level == "HSK1" then a1 else if level == "HSK2" then a2 else if level == "HSK3" then a3
             else if level == "HSK4" then a4 else if level == "HSK5" then a5 else [])
  {
    if level == "HSK1" {
      assert f1 + f2 + f3 + f4 + f5 == a1 + [] + [] + [] + [];
    } else if level == "HSK2" {
      assert f1 + f2 + f3 + f4 + f5 == [] + a2 + [] + [] + [];
    } else if level == "HSK3" {
      assert f1 + f2 + f3 + f4 + f5 == [] + [] + a3 + [] + [];
    } else if level == "HSK4" {
      assert f1 + f2 + f3 + f4 + f5 == [] + [] + [] + a4 + [];
    } else if level == "HSK5" {
      assert f1 + f2 + f3 + f4 + f5 == [] + [] + [] + [] + a5;
    } else {
      assert f1 + f2 + f3 + f4 + f5 == [] + [] + [] + [] + [];
    }
  }

  /** On a well-formed catalog every word carries one of the five level keys
      and is found in that level's list. */
  lemma WordLevelKnown(v: Vocabulary, w: Word)
    requires WellFormed(v) && w in All(v)
    ensures w.hskLevel in LevelIds
    ensures w in ByHSK(v, w.hskLevel)
  {
    WellFormedLevels(v);
    assert w in v.hsk1 || w in v.hsk2 || w in v.hsk3 || w in v.hsk4 || w in v.hsk5;
  }

  /** With unique ids, a word is determined by its id. */
  lemma SameIdSameWord(ws: seq<Word>, a: Word, b: Word)
    requires UniqueIds(ws) && a in ws && b in ws && a.id == b.id
    ensures a == b
  {
    var i :| 0 <= i < |ws| && ws[i] == a;
    var j :| 0 <= j < |ws| && ws[j] == b;
    if i < j {
    } else if j < i {
    }
  }

  /** The ids of a word list, in order. */
  function Ids(ws: seq<Word>): (r: seq<nat>)
    ensures |r| == |ws|
    ensures forall i :: 0 <= i < |ws| ==> r[i] == ws[i].id
  {
    if |ws| == 0 then [] else [ws[0].id] + Ids(ws[1..])
  }

  function IdIsNot(id: nat): Word -> bool {
    (w: Word) => w.id != id
  }

  /** Dropping an id from a list with unique ids removes one word if the id
      occurs and none otherwise. */
  lemma {:induction false} DropIdCount(ws: seq<Word>, id: nat)
    requires UniqueIds(ws)
    ensures |Filter(ws, IdIsNot(id))| == (if id in Ids(ws) then |ws| - 1 else |ws|)
  {
    if |ws| > 0 {
      var tail := ws[1..];
      UniqueIdsTail(ws);
      DropIdCount(tail, id);
      assert Ids(ws) == [ws[0].id] + Ids(tail);
      if ws[0].id == id {
        HeadIdNotInTail(ws);
        assert Filter(ws, IdIsNot(id)) == Filter(tail, IdIsNot(id));
      } else {
        assert Filter(ws, IdIsNot(id)) == [ws[0]] + Filter(tail, IdIsNot(id));
      }
    }
  }

  lemma UniqueIdsTail(ws: seq<Word>)
    requires |ws| > 0 && UniqueIds(ws)
    ensures UniqueIds(ws[1..])
  {
    var tail := ws[1..];
    forall i, j | 0 <= i < j < |tail|
      ensures tail[i].id != tail[j].id
    {
      assert tail[i] == ws[i + 1] && tail[j] == ws[j + 1];
    }
  }

  /** In a list with unique ids, no later word shares the first word's id, so
      dropping that id keeps the whole tail. */
  lemma HeadIdNotInTail(ws: seq<Word>)
    requires |ws| > 0 && UniqueIds(ws)
    ensures ws[0].id !in Ids(ws[1..])
    ensures Filter(ws[1..], IdIsNot(ws[0].id)) == ws[1..]
  {
    var tail := ws[1..];
    forall x | x in tail
      ensures IdIsNot(ws[0].id)(x)
    {
      var j :| 0 <= j < |tail| && tail[j] == x;
      assert ws[j + 1] == x;
    }
    FilterAll(tail, IdIsNot(ws[0].id));
  }

  /** Each level list is duplicate-free in its ids. */
  lemma ByHSKUniqueIds(v: Vocabulary, level: Level)
    requires WellFormed(v)
    ensures UniqueIds(ByHSK(v, level))
  {
    ByHSKIsLevelFilter(v, level);
    UniqueIdsFilter(All(v), LevelIs(level));
  }

  /** `getVocabularyByTopic(topic)` and `getWordsByTopic(topic)`, which have the
      same body. */
  function ByTopic(v: Vocabulary, topic: string): (r: seq<Word>)
    ensures forall i :: 0 <= i < |r| ==> r[i].topic == topic && r[i] in All(v)
    ensures forall w :: w in All(v) && w.topic == topic ==> w in r
    ensures IsSubsequence(r, All(v))
  {
    FilterSubsequence(All(v), TopicIs(topic));
    Filter(All(v), TopicIs(topic))
  }

  /** `getVocabularyByTopicAndHSK(topic, level)`. */
  function ByTopicAndHSK(v: Vocabulary, topic: string, level: Level): (r: seq<Word>)
    ensures forall i :: 0 <= i < |r| ==> r[i].topic == topic && r[i].hskLevel == level && r[i] in All(v)
    ensures forall w :: w in All(v) && w.topic == topic && w.hskLevel == level ==> w in r
    ensures IsSubsequence(r, All(v))
  {
    FilterSubsequence(All(v), TopicAndLevelAre(topic, level));
    Filter(All(v), TopicAndLevelAre(topic, level))
  }

  /** Restricting a topic's words to a level in catalog order is the same as
      asking for topic and level at once. */
  lemma ByTopicThenLevel(v: Vocabulary, topic: string, level: Level)
    ensures Filter(ByTopic(v, topic), LevelIs(level)) == ByTopicAndHSK(v, topic, level)
  {
    FilterFilter(All(v), TopicIs(topic), LevelIs(level), TopicAndLevelAre(topic, level));
  }

  // ---------------------------------------------------------------------------
  // getRandomVocabulary

  /** `p` lists every position `0 .. n-1` exactly once. Both distinctness and
      coverage are stated, so that no counting argument is needed downstream. */
  predicate IsPermutation(p: seq<nat>, n: nat) {
    && |p| == n
    && (forall i :: 0 <= i < n ==> p[i] < n)
    && (forall i, j :: 0 <= i < j < n ==> p[i] != p[j])
    && (forall k :: 0 <= k < n ==> k in p)
  }

  /** `s` reordered by the permutation `p`: the result of sorting with a random
      comparator, whatever order the random draws produced. */
  function Permute<T>(s: seq<T>, p: seq<nat>): (r: seq<T>)
    requires IsPermutation(p, |s|)
    ensures |r| == |s|
    ensures forall k :: 0 <= k < |s| ==> s[k] in r
    ensures forall i :: 0 <= i < |r| ==> r[i] == s[p[i]]
  {
    var r := seq(|s|, i requires 0 <= i < |s| => s[p[i]]);
    assert forall k :: 0 <= k < |s| ==> s[k] in r by {
      forall k | 0 <= k < |s|
        ensures s[k] in r
      {
        assert k in p;
        var i :| 0 <= i < |p| && p[i] == k;
        assert r[i] == s[k];
      }
    }
    r
  }

  /** Reordering a list with unique ids keeps its ids unique. */
  lemma PermuteUniqueIds(s: seq<Word>, p: seq<nat>)
    requires IsPermutation(p, |s|)
    requires UniqueIds(s)
    ensures UniqueIds(Permute(s, p))
  {
    var r := Permute(s, p);
    forall i, j | 0 <= i < j < |r|
      ensures r[i].id != r[j].id
    {
      assert r[i] == s[p[i]] && r[j] == s[p[j]];
      if p[i] < p[j] {
      } else {
        assert p[j] < p[i];
      }
    }
  }

  /** `[...pool].sort(random).slice(0, count)` with the random order given as `p`. */
  function Sample(pool: seq<Word>, count: nat, p: seq<nat>): (r: seq<Word>)
    requires IsPermutation(p, |pool|)
    ensures |r| == (if count < |pool| then count else |pool|)
    ensures forall i :: 0 <= i < |r| ==> r[i] == pool[p[i]]
    ensures forall i, j :: 0 <= i < j < |r| ==> p[i] != p[j]
    ensures forall i :: 0 <= i < |r| ==> r[i] in pool
  {
    Slice(Permute(pool, p), 0, count)
  }

  /** Draws from a pool with unique ids have unique ids. */
  lemma SampleUniqueIds(pool: seq<Word>, count: nat, p: seq<nat>)
    requires IsPermutation(p, |pool|)
    requires UniqueIds(pool)
    ensures UniqueIds(Sample(pool, count, p))
  {
    PermuteUniqueIds(pool, p);
  }

  /** The pool `getRandomVocabulary` draws from: a falsy level means the whole
      catalog. */
  function Pool(v: Vocabulary, level: Option<Level>): (r: seq<Word>)
    ensures !Truthy(level) ==> r == All(v)
    ensures Truthy(level) && level.value !in LevelIds ==> r == []
    ensures forall i :: 0 <= i < |LevelIds| && Truthy(level) && LevelIds[i] == level.value ==> r == Lists(v)[i]
  {
    if Truthy(level) then ByHSK(v, level.value) else All(v)
  }

  /** `getRandomVocabulary(count, level)`, the shuffle given as a permutation of
      the pool's positions. */
  function RandomVocabulary(v: Vocabulary, count: nat, level: Option<Level>, p: seq<nat>): (r: seq<Word>)
    requires IsPermutation(p, |Pool(v, level)|)
    ensures |r| == (if count < |Pool(v, level)| then count else |Pool(v, level)|)
    ensures forall i :: 0 <= i < |r| ==> r[i] in Pool(v, level)
    ensures !Truthy(level) ==> forall i :: 0 <= i < |r| ==> r[i] in All(v)
  {
    Sample(Pool(v, level), count, p)
  }

  /** On a well-formed catalog every pool has unique ids. */
  lemma PoolUniqueIds(v: Vocabulary, level: Option<Level>)
    requires WellFormed(v)
    ensures UniqueIds(Pool(v, level))
  {
    if Truthy(level) {
      ByHSKUniqueIds(v, level.value);
    }
  }

  /** No word is drawn twice: the ids of a draw are pairwise distinct. */
  lemma RandomVocabularyUniqueIds(v: Vocabulary, count: nat, level: Option<Level>, p: seq<nat>)
    requires WellFormed(v)
    requires IsPermutation(p, |Pool(v, level)|)
    ensures UniqueIds(RandomVocabulary(v, count, level, p))
  {
    PoolUniqueIds(v, level);
    SampleUniqueIds(Pool(v, level), count, p);
  }

  /** `getTopicsByHSK(level)`: topics whose own level list names the level, in
      declaration order. */
  function TopicsByHSK(topics: seq<Topic>, level: Level): (r: seq<Topic>)
    ensures forall i :: 0 <= i < |r| ==> level in r[i].hskLevels && r[i] in topics
    ensures forall t :: t in topics && level in t.hskLevels ==> t in r
    ensures IsSubsequence(r, topics)
  {
    FilterSubsequence(topics, Covers(level));
    Filter(topics, Covers(level))
  }

  function Covers(level: Level): Topic -> bool {
    (t: Topic) => level in t.hskLevels
  }
}
