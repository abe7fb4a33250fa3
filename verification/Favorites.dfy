/** The favorites page (`src/app/favorites/page.jsx` and its variant
    `page_new.jsx`): the favorite words shown under a level filter, the
    removal and bulk-clearing actions, and the links the page opens. The
    selected level is `"ALL"` or a level id. */
module Favorites {
  import opened Js
  import opened Catalog
  import Progress
  import Url
  import Flashcards

  const AllLevels: Level := "ALL"

  function IsFavorite(favs: seq<nat>): Word -> bool {
    (w: Word) => w.id in favs
  }

  /** `favoriteWords`: the catalog words whose id is a favorite, in catalog
      order (ids without a catalog word are not shown). */
  function FavoriteWords(v: Vocabulary, favs: seq<nat>): (r: seq<Word>)
    ensures IsSubsequence(r, All(v))
    ensures forall w :: w in r <==> w in All(v) && w.id in favs
  {
    FilterSubsequence(All(v), IsFavorite(favs));
    assert forall w :: w in Filter(All(v), IsFavorite(favs)) ==> IsFavorite(favs)(w);
    Filter(All(v), IsFavorite(favs))
  }

  /** `filteredFavorites`: the favorite words at the selected level, or all
      of them for `"ALL"`. */
  function FilteredFavorites(v: Vocabulary, favs: seq<nat>, selected: Level): (r: seq<Word>)
    ensures selected == AllLevels ==> r == FavoriteWords(v, favs)
    ensures IsSubsequence(r, FavoriteWords(v, favs))
    ensures forall w :: w in r <==> w in FavoriteWords(v, favs) && (selected == AllLevels || w.hskLevel == selected)
  {
    var fw := FavoriteWords(v, favs);
    if selected == AllLevels then
      FilterAll(fw, (w: Word) => true);
      FilterSubsequence(fw, (w: Word) => true);
      fw
    else
      FilterSubsequence(fw, LevelIs(selected));
      assert forall w :: w in Filter(fw, LevelIs(selected)) ==> LevelIs(selected)(w);
      Filter(fw, LevelIs(selected))
  }

  /** `removeFavorite(id)`: the remove button toggles a shown favorite, so the
      word leaves the list and every other favorite word stays. */
  function RemoveFavorite(s: Progress.State, id: nat): (r: Progress.State)
    ensures id in s.favorites ==> id !in r.favorites
    ensures forall x :: x != id ==> (x in r.favorites <==> x in s.favorites)
  {
    Progress.ToggleFavorite(s, id)
  }

  lemma RemoveShownFavorite(v: Vocabulary, s: Progress.State, w: Word)
    requires w in FavoriteWords(v, s.favorites)
    ensures forall u :: u in FavoriteWords(v, RemoveFavorite(s, w.id).favorites)
                    <==> u in FavoriteWords(v, s.favorites) && u.id != w.id
  {
  }

  // ---------------------------------------------------------------------------
  // Bulk removal

  /** `ids.forEach(id => toggleFavorite(id))`: the updates are functional, so
      the toggles apply one after another to the latest list. */
  function ToggleEach(favs: seq<nat>, ids: seq<nat>): (r: seq<nat>)
    ensures forall x :: x !in ids ==> (x in r <==> x in favs)
    decreases |ids|
  {
    if |ids| == 0 then favs else ToggleEach(Progress.Toggle(favs, ids[0]), ids[1..])
  }

  function NotIn(ids: seq<nat>): nat -> bool {
    (x: nat) => x !in ids
  }

  /** Toggling distinct favorites one after another removes exactly them and
      keeps the rest in order. */
  lemma {:induction false} ToggleEachRemoves(favs: seq<nat>, ids: seq<nat>)
    requires NoDuplicates(ids)
    requires forall id :: id in ids ==> id in favs
    ensures ToggleEach(favs, ids) == Filter(favs, NotIn(ids))
    decreases |ids|
  {
    if |ids| == 0 {
      FilterAll(favs, NotIn(ids));
    } else {
      var first := ids[0];
      var rest := ids[1..];
      var f1 := Progress.Toggle(favs, first);
      assert f1 == Filter(favs, Progress.IsNot(first));
      forall id | id in rest
        ensures id in f1
      {
        var j :| 0 <= j < |rest| && rest[j] == id;
        assert ids[j + 1] == id;
      }
      ToggleEachRemoves(f1, rest);
      assert forall x :: NotIn(ids)(x) == (Progress.IsNot(first)(x) && NotIn(rest)(x)) by {
        assert ids == [first] + rest;
      }
      FilterFilter(favs, Progress.IsNot(first), NotIn(rest), NotIn(ids));
    }
  }

  /** `clearAllFavorites`: after the confirmation dialog (`page.jsx`) or at
      once (`page_new.jsx`, `confirmed` true), every favorite is toggled. */
  function ClearAll(s: Progress.State, confirmed: bool): (r: Progress.State)
    ensures !confirmed ==> r == s
    ensures r == s.(favorites := r.favorites)
  {
    if confirmed then s.(favorites := ToggleEach(s.favorites, s.favorites)) else s
  }

  /** A duplicate-free favorites list (the invariant toggling keeps) is
      emptied by a confirmed clear. */
  lemma ClearAllEmpties(s: Progress.State)
    requires NoDuplicates(s.favorites)
    ensures ClearAll(s, true).favorites == []
  {
    ToggleEachRemoves(s.favorites, s.favorites);
    FilterNone(s.favorites, NotIn(s.favorites));
  }

  /** `clearCurrentLevelFavorites`: for `"ALL"` the whole clear; otherwise,
      once confirmed, the shown favorites of the level are toggled. */
  function ClearCurrentLevel(v: Vocabulary, s: Progress.State, selected: Level, confirmed: bool): (r: Progress.State)
    ensures selected == AllLevels ==> r == ClearAll(s, confirmed)
    ensures !confirmed ==> r == s
    ensures r == s.(favorites := r.favorites)
  {
    if selected == AllLevels then ClearAll(s, confirmed)
    else if confirmed then
      s.(favorites := ToggleEach(s.favorites, Ids(FilteredFavorites(v, s.favorites, selected))))
    else s
  }

  /** Clearing a level removes exactly that level's shown favorites: a
      catalog word stays a favorite iff it was one at another level. */
  lemma ClearCurrentLevelRemovesLevel(v: Vocabulary, s: Progress.State, selected: Level)
    requires UniqueIds(All(v)) && NoDuplicates(s.favorites) && selected != AllLevels
    ensures forall x :: x in ClearCurrentLevel(v, s, selected, true).favorites
                    <==> x in s.favorites && x !in Ids(FilteredFavorites(v, s.favorites, selected))
    ensures forall w :: w in FavoriteWords(v, ClearCurrentLevel(v, s, selected, true).favorites)
                    <==> w in FavoriteWords(v, s.favorites) && w.hskLevel != selected
  {
    var shown := FilteredFavorites(v, s.favorites, selected);
    var ids := Ids(shown);
    assert shown == Filter(Filter(All(v), IsFavorite(s.favorites)), LevelIs(selected));
    UniqueIdsFilter(All(v), IsFavorite(s.favorites));
    UniqueIdsFilter(Filter(All(v), IsFavorite(s.favorites)), LevelIs(selected));
    assert NoDuplicates(ids);
    forall id | id in ids
      ensures id in s.favorites
    {
      var i :| 0 <= i < |ids| && ids[i] == id;
      assert shown[i] in FavoriteWords(v, s.favorites);
    }
    ToggleEachRemoves(s.favorites, ids);
    var after := ClearCurrentLevel(v, s, selected, true).favorites;
    assert after == Filter(s.favorites, NotIn(ids));
    forall x
      ensures x in after <==> x in s.favorites && x !in ids
    {
      if x in after {
        var i :| 0 <= i < |after| && after[i] == x;
        assert NotIn(ids)(after[i]);
      }
      if x in s.favorites && x !in ids {
        var i :| 0 <= i < |s.favorites| && s.favorites[i] == x;
        assert NotIn(ids)(s.favorites[i]);
      }
    }
    forall w | w in All(v)
      ensures w.id in ids <==> w in FavoriteWords(v, s.favorites) && w.hskLevel == selected
    {
      if w.id in ids {
        var i :| 0 <= i < |ids| && ids[i] == w.id;
        SameIdSameWord(All(v), shown[i], w);
      }
      if w in FavoriteWords(v, s.favorites) && w.hskLevel == selected {
        var i :| 0 <= i < |shown| && shown[i] == w;
        assert ids[i] == w.id;
      }
    }
  }

  // ---------------------------------------------------------------------------
  // Statistics

  /** `new Set(favoriteWords.map(w => w.hskLevel)).size`. */
  function LevelCount(ws: seq<Word>): (r: nat)
    ensures r <= |ws|
    ensures r == 0 <==> |ws| == 0
  {
    LevelSetSize(ws);
    |set w | w in ws :: w.hskLevel|
  }

  lemma {:induction false} LevelSetSize(ws: seq<Word>)
    ensures |set w | w in ws :: w.hskLevel| <= |ws|
    ensures |set w | w in ws :: w.hskLevel| == 0 <==> |ws| == 0
  {
    if |ws| == 0 {
      assert (set w | w in ws :: w.hskLevel) == {};
    } else {
      assert ws[0].hskLevel in set w | w in ws :: w.hskLevel;
      LevelSetSize(ws[1..]);
      var all := set w | w in ws :: w.hskLevel;
      var tail := set w | w in ws[1..] :: w.hskLevel;
      assert all <= {ws[0].hskLevel} + tail by {
        forall l | l in all
          ensures l in {ws[0].hskLevel} + tail
        {
          var w :| w in ws && w.hskLevel == l;
          if w != ws[0] {
            var i :| 0 <= i < |ws| && ws[i] == w;
            assert ws[1..][i - 1] == w;
          }
        }
      }
      SubsetSize(all, {ws[0].hskLevel} + tail);
      if ws[0].hskLevel in tail {
        assert {ws[0].hskLevel} + tail == tail;
      }
    }
  }

  /** On a well-formed catalog the favorites span at most the five levels. */
  lemma LevelCountAtMostFive(v: Vocabulary, favs: seq<nat>)
    requires WellFormed(v)
    ensures LevelCount(FavoriteWords(v, favs)) <= |LevelIds|
  {
    var levels := set w | w in FavoriteWords(v, favs) :: w.hskLevel;
    forall l | l in levels
      ensures l in {"HSK1", "HSK2", "HSK3", "HSK4", "HSK5"}
    {
      var w :| w in FavoriteWords(v, favs) && w.hskLevel == l;
      WordLevelKnown(v, w);
    }
    assert |{"HSK1", "HSK2", "HSK3", "HSK4", "HSK5"}| == 5;
    SubsetSize(levels, {"HSK1", "HSK2", "HSK3", "HSK4", "HSK5"});
  }

  lemma SubsetSize<T>(a: set<T>, b: set<T>)
    requires a <= b
    ensures |a| <= |b|
  {
    assert b == a + (b - a);
  }

  // ---------------------------------------------------------------------------
  // Links

  /** The flashcard and quiz buttons of `page.jsx` as written: the level as
      `?hsk=`, then `&favorites=true` when there are favorites. */
  function StudyUrl(route: string, selected: Level, favoriteCount: nat): (r: string)
    ensures |r| >= |route| && r[..|route|] == route
    ensures selected == AllLevels && favoriteCount > 0 ==> r == route + "&favorites=true"
    ensures selected == AllLevels && favoriteCount == 0 ==> r == route
  {
    route
      + (if selected != AllLevels then "?hsk=" + selected else "")
      + (if favoriteCount > 0 then "&favorites=true" else "")
  }

  /** With every level selected and some favorites the `&` follows the route
      directly: the link has no query, its path is not the route, and no
      `favorites` parameter can be read from it. */
  lemma StudyUrlAllLosesQuery(route: string, favoriteCount: nat)
    requires Url.Plain(route) && favoriteCount > 0
    ensures StudyUrl(route, AllLevels, favoriteCount) == route + "&favorites=true"
    ensures Url.Path(StudyUrl(route, AllLevels, favoriteCount)) != route
    ensures Url.Get(StudyUrl(route, AllLevels, favoriteCount), "favorites") == None
  {
    var url := StudyUrl(route, AllLevels, favoriteCount);
    assert url == route + "&favorites=true";
    assert '?' !in route by {
      forall i | 0 <= i < |route|
        ensures route[i] != '?'
      {
      }
    }
    assert '?' !in "&favorites=true";
    assert '?' !in url;
    assert |url| > |route|;
  }

  /** The query the buttons mean to send. */
  function StudyParams(selected: Level, favoriteCount: nat): Url.Params {
    (if selected != AllLevels then [("hsk", selected)] else [])
      + (if favoriteCount > 0 then [("favorites", "true")] else [])
  }

  /** The buttons' links built as a proper query. */
  function StudyUrlFixed(route: string, selected: Level, favoriteCount: nat): string {
    Url.Build(route, StudyParams(selected, favoriteCount))
  }

  /** The corrected link keeps the route and carries both parameters for
      every selection. */
  lemma StudyUrlFixedReadsBack(route: string, selected: Level, favoriteCount: nat)
    requires Url.Plain(route) && Url.Plain(selected)
    ensures Url.Path(StudyUrlFixed(route, selected, favoriteCount)) == route
    ensures Url.Get(StudyUrlFixed(route, selected, favoriteCount), "hsk")
         == (if selected != AllLevels then Some(selected) else None)
    ensures Url.Get(StudyUrlFixed(route, selected, favoriteCount), "favorites")
         == (if favoriteCount > 0 then Some("true") else None)
  {
    var params := StudyParams(selected, favoriteCount);
    assert Url.Plain("hsk") && Url.Plain("favorites") && Url.Plain("true");
    assert |"hsk"| != |"favorites"|;
    assert Url.PlainParams(params);
    Url.BuildRoundTrip(route, params, "hsk");
    Url.BuildRoundTrip(route, params, "favorites");
  }

  /** The link as written is the corrected one except in exactly the case
      above: every level selected and some favorites. */
  lemma StudyUrlAgreesExceptAll(route: string, selected: Level, favoriteCount: nat)
    requires Url.Plain(route) && Url.Plain(selected)
    ensures StudyUrl(route, selected, favoriteCount) == StudyUrlFixed(route, selected, favoriteCount)
        <==> !(selected == AllLevels && favoriteCount > 0)
  {
    var params := StudyParams(selected, favoriteCount);
    if selected == AllLevels && favoriteCount > 0 {
      StudyUrlAllLosesQuery(route, favoriteCount);
      StudyUrlFixedReadsBack(route, selected, favoriteCount);
    } else if selected != AllLevels && favoriteCount > 0 {
      Url.BuildTwo(route, "hsk", selected, "favorites", "true");
      assert "&" + "favorites" + "=" + "true" == "&favorites=true";
      assert "?" + "hsk" + "=" + selected == "?hsk=" + selected;
    } else if selected != AllLevels {
      assert Url.Pieces(params) == ["hsk" + "=" + selected];
      assert "?" + ("hsk" + "=" + selected) == "?hsk=" + selected;
    } else {
      assert params == [];
    }
  }

  /** `page_new.jsx`'s flashcard button. */
  function FavoritesLearnLink(selected: Level): (r: string)
    ensures Url.Plain(selected) ==> r == Url.Build("/learn", [("favorites", "true"), ("hsk", selected)])
  {
    Url.BuildTwo("/learn", "favorites", "true", "hsk", selected);
    "/learn?favorites=true&hsk=" + selected
  }

  /** The learn page reads only `hsk`: the deck this button opens is the
      level's whole list, not the favorites, and empty for `"ALL"`. */
  lemma FavoritesLearnLinkIgnoresFavorites(v: Vocabulary, selected: Level)
    requires Url.Plain(selected) && selected != ""
    ensures Flashcards.Open(v, FavoritesLearnLink(selected)).data == ByHSK(v, selected)
    ensures selected == AllLevels ==> Flashcards.Open(v, FavoritesLearnLink(selected)).data == []
  {
    var params := [("favorites", "true"), ("hsk", selected)];
    assert Url.Plain("/learn") && Url.Plain("favorites") && Url.Plain("true") && Url.Plain("hsk");
    assert Url.PlainParams(params);
    assert |"startWord"| == 9 && |"favorites"| == 9 && "favorites" != "startWord";
    assert Url.Lookup(params, "hsk") == Some(selected);
    assert Url.Lookup(params[1..], "startWord") == None;
    Url.BuildRoundTrip("/learn", params, "hsk");
    Url.BuildRoundTrip("/learn", params, "startWord");
    Flashcards.OpenLevelOnly(v, FavoritesLearnLink(selected));
  }

  /** `ids.join(',')` on numbers. */
  function NatStrings(ids: seq<nat>): (r: seq<string>)
    ensures |r| == |ids|
    ensures forall i :: 0 <= i < |r| ==> r[i] == NatToString(ids[i])
  {
    if |ids| == 0 then [] else [NatToString(ids[0])] + NatStrings(ids[1..])
  }

  ghost predicate DigitsAndCommas(s: string) {
    forall i :: 0 <= i < |s| ==> IsDigit(s[i]) || s[i] == ','
  }

  lemma {:induction false} JoinDigits(parts: seq<string>)
    requires forall i :: 0 <= i < |parts| ==> DigitsAndCommas(parts[i])
    ensures DigitsAndCommas(Join(parts, ","))
  {
    if |parts| >= 2 {
      JoinDigits(parts[1..]);
      JoinCons(parts, ",");
    }
  }

  /** `startQuizWithFavorites`: nothing for an empty list, otherwise the quiz
      route with the shown ids and the level. */
  function QuizUrl(v: Vocabulary, favs: seq<nat>, selected: Level): (r: Option<string>)
    ensures r.None? <==> |FilteredFavorites(v, favs, selected)| == 0
  {
    var shown := FilteredFavorites(v, favs, selected);
    if |shown| == 0 then None
    else Some("/quiz?words=" + Join(NatStrings(Ids(shown)), ",") + "&hsk=" + selected)
  }

  /** Joined decimal ids are plain text, and no piece holds a comma. */
  lemma JoinedIdsPlain(ids: seq<nat>)
    ensures Url.Plain(Join(NatStrings(ids), ","))
    ensures forall i :: 0 <= i < |NatStrings(ids)| ==> ',' !in NatStrings(ids)[i]
  {
    var parts := NatStrings(ids);
    forall i | 0 <= i < |parts|
      ensures DigitsAndCommas(parts[i]) && ',' !in parts[i]
    {
      var p := parts[i];
      assert p == NatToString(ids[i]);
      assert forall j :: 0 <= j < |p| ==> IsDigit(p[j]);
    }
    JoinDigits(parts);
  }

  /** The quiz link is the `/quiz` route built from the joined ids and the
      level. */
  lemma QuizUrlBuilt(v: Vocabulary, favs: seq<nat>, selected: Level)
    requires QuizUrl(v, favs, selected).Some?
    ensures QuizUrl(v, favs, selected).value
         == Url.Build("/quiz", [("words", Join(NatStrings(Ids(FilteredFavorites(v, favs, selected))), ",")), ("hsk", selected)])
  {
    var words := Join(NatStrings(Ids(FilteredFavorites(v, favs, selected))), ",");
    QuizLinkText(words, selected);
  }

  lemma QuizLinkText(words: string, selected: Level)
    ensures "/quiz?words=" + words + "&hsk=" + selected
         == Url.Build("/quiz", [("words", words), ("hsk", selected)])
  {
    Url.BuildTwo("/quiz", "words", words, "hsk", selected);
    assert "/quiz" + "?" + "words" + "=" == "/quiz?words=";
    assert "&" + "hsk" + "=" == "&hsk=";
  }

  /** The quiz link carries the shown words: splitting its `words` value at
      the commas and reading each piece as a number gives back their ids in
      order, and `hsk` is the selected level. */
  lemma QuizUrlCarriesIds(v: Vocabulary, favs: seq<nat>, selected: Level)
    requires Url.Plain(selected) && QuizUrl(v, favs, selected).Some?
    ensures var url := QuizUrl(v, favs, selected).value;
      var ids := Ids(FilteredFavorites(v, favs, selected));
      && Url.Path(url) == "/quiz"
      && Url.Get(url, "hsk") == Some(selected)
      && Url.Get(url, "words").Some?
      && var pieces := Split(Url.Get(url, "words").value, ',');
         |pieces| == |ids|
         && (forall i :: 0 <= i < |pieces| ==> pieces[i] == NatToString(ids[i]))
         && (forall i :: 0 <= i < |pieces| ==> ParseDigits(pieces[i]) == ids[i])
  {
    var ids := Ids(FilteredFavorites(v, favs, selected));
    var parts := NatStrings(ids);
    var words := Join(parts, ",");
    QuizUrlBuilt(v, favs, selected);
    JoinedIdsPlain(ids);
    var params := [("words", words), ("hsk", selected)];
    assert Url.Plain("/quiz") && Url.Plain("words") && Url.Plain("hsk");
    assert Url.PlainParams(params);
    assert |"words"| != |"hsk"|;
    Url.BuildRoundTrip("/quiz", params, "words");
    Url.BuildRoundTrip("/quiz", params, "hsk");
    assert Url.Get(QuizUrl(v, favs, selected).value, "words") == Some(words);
    JoinSplit(parts, ',');
    forall i | 0 <= i < |ids|
      ensures ParseDigits(NatToString(ids[i])) == ids[i]
    {
      ParseNatToString(ids[i]);
    }
  }
}
