/** The flashcard page (`src/app/learn/page.jsx`): a deck of words, a cursor,
    the flip state, the words marked learned in this session, and the screens
    for choosing a level and starting. */
module Flashcards {
  import opened Js
  import opened Catalog
  import Progress
  import Url

  datatype Deck = Deck(
    selected: Option<Level>,
    data: seq<Word>,
    index: nat,
    flipped: bool,
    sessionLearned: seq<nat>,
    showSelector: bool,
    hasStarted: bool,
    hasSelectedLevel: bool)

  /** The state before any effect runs: the whole catalog, first card. */
  function Initial(v: Vocabulary): Deck {
    Deck(None, All(v), 0, false, [], true, false, false)
  }

  /** The level selection screen is shown until learning starts. */
  predicate ShowsSelection(d: Deck) {
    d.showSelector && !d.hasStarted
  }

  // ---------------------------------------------------------------------------
  // Effects

  /** `data.findIndex(word => word.id.toString() === startWord)`. */
  function FindStartWord(ws: seq<Word>, startWord: string): (r: int)
    ensures -1 <= r < |ws|
    ensures r >= 0 ==> NatToString(ws[r].id) == startWord
    ensures r >= 0 ==> forall j :: 0 <= j < r ==> NatToString(ws[j].id) != startWord
    ensures r == -1 ==> forall j :: 0 <= j < |ws| ==> NatToString(ws[j].id) != startWord
  {
    if |ws| == 0 then -1
    else if NatToString(ws[0].id) == startWord then 0
    else
      var k := FindStartWord(ws[1..], startWord);
      if k == -1 then -1 else k + 1
  }

  /** The effect on the URL parameters: a level parameter selects that level
      and skips the selection screen; together with a start word it jumps to
      that word's card, if the level's list has it. */
  function ParamsEffect(v: Vocabulary, d: Deck, hsk: Option<string>, startWord: Option<string>): (r: Deck)
    ensures !Truthy(hsk) ==> r == d
    ensures Truthy(hsk) ==> r.selected == hsk && r.hasSelectedLevel && !ShowsSelection(r)
    ensures r.sessionLearned == d.sessionLearned
    ensures r.data != d.data ==> r.data == ByHSK(v, hsk.value) && r.index < |r.data| && !r.flipped
  {
    var d1 :=
      if Truthy(hsk) then d.(selected := hsk, showSelector := false, hasStarted := true, hasSelectedLevel := true)
      else d;
    if Truthy(startWord) && Truthy(hsk) then
      var data := ByHSK(v, hsk.value);
      var k := FindStartWord(data, startWord.value);
      if k != -1 then d1.(data := data, index := k, flipped := false) else d1
    else d1
  }

  /** The effect on the selected level: unless the URL names a start word,
      load that level's list (the whole catalog for no level) from its first
      card. */
  function LevelEffect(v: Vocabulary, d: Deck, startWord: Option<string>): (r: Deck)
    ensures Truthy(startWord) ==> r == d
    ensures !Truthy(startWord) ==> r.data == Pool(v, d.selected) && r.index == 0 && !r.flipped
    ensures r.selected == d.selected && r.sessionLearned == d.sessionLearned
    ensures r.showSelector == d.showSelector && r.hasStarted == d.hasStarted && r.hasSelectedLevel == d.hasSelectedLevel
  {
    if Truthy(startWord) then d
    else d.(data := Pool(v, d.selected), index := 0, flipped := false)
  }

  /** Opening `/learn` with a URL. On mount both effects run, the level effect
      still seeing no level; when the parameter changed the level, the level
      effect runs again. Both runs of the level effect load the same list the
      second run loads, so the result is one run after the parameter effect. */
  function Open(v: Vocabulary, url: string): (r: Deck)
    ensures r.index == 0 || r.index < |r.data|
    ensures !r.flipped && r.sessionLearned == []
    ensures !Truthy(Url.Get(url, "hsk")) ==> ShowsSelection(r) && r.selected == None
    ensures Truthy(Url.Get(url, "hsk")) ==> !ShowsSelection(r) && r.selected == Url.Get(url, "hsk") && r.hasSelectedLevel
  {
    var hsk := Url.Get(url, "hsk");
    var startWord := Url.Get(url, "startWord");
    LevelEffect(v, ParamsEffect(v, Initial(v), hsk, startWord), startWord)
  }

  /** The link "review this word" buttons open (`reviewWord` on the vocabulary
      page, "Học lại" on the favorites page). */
  function ReviewLink(w: Word): (r: string)
    ensures |r| > 11 + |w.hskLevel| && r[..11] == "/learn?hsk="
  {
    "/learn?hsk=" + w.hskLevel + "&startWord=" + NatToString(w.id)
  }

  lemma DigitsPlain(s: string)
    requires forall i :: 0 <= i < |s| ==> IsDigit(s[i])
    ensures Url.Plain(s)
  {
  }

  /** The review link is the `/learn` route with the word's level and id as
      parameters. */
  lemma ReviewLinkParams(w: Word)
    requires w.hskLevel in LevelIds
    ensures Url.Path(ReviewLink(w)) == "/learn"
    ensures Url.Get(ReviewLink(w), "hsk") == Some(w.hskLevel)
    ensures Url.Get(ReviewLink(w), "startWord") == Some(NatToString(w.id))
  {
    var id := NatToString(w.id);
    var params := [("hsk", w.hskLevel), ("startWord", id)];
    var pieces := Url.Pieces(params);
    assert "hsk" + "=" == "hsk=" && "startWord" + "=" == "startWord=";
    assert pieces[0] == "hsk=" + w.hskLevel;
    assert pieces[1] == "startWord=" + id;
    JoinCons(pieces, "&");
    assert Join(pieces[1..], "&") == pieces[1];
    assert ReviewLink(w) == "/learn" + "?" + (pieces[0] + "&" + pieces[1]);
    assert ReviewLink(w) == Url.Build("/learn", params);
    DigitsPlain(id);
    Url.BuildRoundTrip("/learn", params, "hsk");
    Url.BuildRoundTrip("/learn", params, "startWord");
  }

  /** Following a review link on a well-formed catalog shows that very word,
      in its level's deck, past the selection screen. */
  lemma ReviewLinkOpensWord(v: Vocabulary, w: Word)
    requires WellFormed(v) && w in All(v)
    ensures var d := Open(v, ReviewLink(w));
      && d.data == ByHSK(v, w.hskLevel)
      && d.index < |d.data| && d.data[d.index] == w
      && d.selected == Some(w.hskLevel)
      && !ShowsSelection(d) && !d.flipped
  {
    WordLevelKnown(v, w);
    ReviewLinkParams(w);
    var data := ByHSK(v, w.hskLevel);
    var sw := NatToString(w.id);
    var k := FindStartWord(data, sw);
    assert w in data;
    var i :| 0 <= i < |data| && data[i] == w;
    assert k != -1 && k <= i;
    NatToStringInjective(data[k].id, w.id);
    ByHSKIsLevelFilter(v, w.hskLevel);
    assert data[k] in All(v);
    SameIdSameWord(All(v), data[k], w);
  }

  /** With a level and a start word that the level's list does not have, the
      level is selected but the deck stays the whole catalog at its first
      card. */
  lemma OpenUnknownStartWord(v: Vocabulary, url: string)
    requires Truthy(Url.Get(url, "hsk")) && Truthy(Url.Get(url, "startWord"))
    requires FindStartWord(ByHSK(v, Url.Get(url, "hsk").value), Url.Get(url, "startWord").value) == -1
    ensures Open(v, url).data == All(v) && Open(v, url).index == 0
    ensures Open(v, url).selected == Url.Get(url, "hsk") && Open(v, url).hasStarted
  {
  }

  /** With a level and no start word, the deck is that level's list from its
      first card; with neither, the whole catalog on the selection screen. */
  lemma OpenLevelOnly(v: Vocabulary, url: string)
    requires !Truthy(Url.Get(url, "startWord"))
    ensures Truthy(Url.Get(url, "hsk")) ==>
      Open(v, url).data == ByHSK(v, Url.Get(url, "hsk").value) && Open(v, url).index == 0
      && !ShowsSelection(Open(v, url))
    ensures !Truthy(Url.Get(url, "hsk")) ==> Open(v, url) == Initial(v)
  {
  }

  // ---------------------------------------------------------------------------
  // Handlers

  /** The level selector on the selection screen. The level effect runs only
      when the selection actually changes. */
  function SelectLevel(v: Vocabulary, d: Deck, level: Option<Level>, urlStartWord: Option<string>): (r: Deck)
    ensures r.hasSelectedLevel && r.selected == level
    ensures r.sessionLearned == d.sessionLearned && r.hasStarted == d.hasStarted
    ensures r.showSelector == d.showSelector
    ensures level != d.selected && !Truthy(urlStartWord) ==>
              r.data == Pool(v, level) && r.index == 0 && !r.flipped
    ensures level == d.selected || Truthy(urlStartWord) ==>
              r.data == d.data && r.index == d.index && r.flipped == d.flipped
  {
    var d1 := d.(selected := level, hasSelectedLevel := true);
    if level == d.selected then d1 else LevelEffect(v, d1, urlStartWord)
  }

  /** `handleStartLearning`: allowed once a level (possibly "all levels") has
      been chosen. */
  function StartLearning(d: Deck): (r: Deck)
    ensures d.hasSelectedLevel ==> !ShowsSelection(r)
    ensures !d.hasSelectedLevel ==> r == d
    ensures r.data == d.data && r.index == d.index
    ensures d.hasSelectedLevel ==> r == d.(hasStarted := true, showSelector := false)
  {
    if d.hasSelectedLevel then d.(hasStarted := true, showSelector := false) else d
  }

  /** Choosing a level always unlocks the start button: starting afterwards
      leaves the selection screen with the chosen level and the chosen deck,
      while starting without a choice keeps the screen. */
  lemma SelectThenStart(v: Vocabulary, d: Deck, level: Option<Level>, urlStartWord: Option<string>)
    ensures !ShowsSelection(StartLearning(SelectLevel(v, d, level, urlStartWord)))
    ensures StartLearning(SelectLevel(v, d, level, urlStartWord)).selected == level
    ensures StartLearning(SelectLevel(v, d, level, urlStartWord)).data == SelectLevel(v, d, level, urlStartWord).data
    ensures !d.hasSelectedLevel ==> ShowsSelection(StartLearning(d)) == ShowsSelection(d)
  {
  }

  /** The "change level" buttons (also "choose another level" on an empty
      deck): back to the selection screen with no level chosen. */
  function ChangeLevel(d: Deck): (r: Deck)
    ensures ShowsSelection(r) && !r.hasSelectedLevel
    ensures r.selected == d.selected && r.data == d.data && r.index == d.index
    ensures r.flipped == d.flipped && r.sessionLearned == d.sessionLearned
  {
    d.(showSelector := true, hasStarted := false, hasSelectedLevel := false)
  }

  /** After "change level" the start button does nothing until a level is
      chosen again; choosing one and starting leaves the screen. */
  lemma ChangeLevelNeedsChoice(v: Vocabulary, d: Deck, level: Option<Level>, urlStartWord: Option<string>)
    ensures StartLearning(ChangeLevel(d)) == ChangeLevel(d)
    ensures ShowsSelection(StartLearning(ChangeLevel(d)))
    ensures !ShowsSelection(StartLearning(SelectLevel(v, ChangeLevel(d), level, urlStartWord)))
  {
  }

  /** `handleNext`: one card on, unless on the last card. */
  function Next(d: Deck): (r: Deck)
    ensures r.data == d.data && r.sessionLearned == d.sessionLearned
    ensures d.index + 1 < |d.data| ==> r.index == d.index + 1 && !r.flipped
    ensures d.index + 1 < |d.data| ==> r == d.(index := r.index, flipped := false)
    ensures d.index + 1 >= |d.data| ==> r == d
  {
    if d.index < |d.data| - 1 then d.(index := d.index + 1, flipped := false) else d
  }

  /** `handlePrevious`: one card back, unless on the first card. */
  function Previous(d: Deck): (r: Deck)
    ensures r.data == d.data && r.sessionLearned == d.sessionLearned
    ensures d.index > 0 ==> r.index == d.index - 1 && !r.flipped
    ensures d.index > 0 ==> r == d.(index := r.index, flipped := false)
    ensures d.index == 0 ==> r == d
  {
    if d.index > 0 then d.(index := d.index - 1, flipped := false) else d
  }

  /** The cursor is on a card. */
  predicate OnCard(d: Deck) {
    d.index < |d.data|
  }

  /** Navigation never leaves the deck, and a step forward is undone by a step
      back. */
  lemma NavigationStaysOnCard(d: Deck)
    requires OnCard(d)
    ensures OnCard(Next(d)) && OnCard(Previous(d))
    ensures d.index + 1 < |d.data| ==> Previous(Next(d)).index == d.index
    ensures d.index > 0 ==> Next(Previous(d)).index == d.index
  {
  }

  /** `isWordLearned`: the current word is learned, in the store or in this
      session. */
  predicate IsWordLearned(d: Deck, learnedWords: seq<nat>)
    ensures IsWordLearned(d, learnedWords) ==> OnCard(d)
  {
    OnCard(d) && (d.data[d.index].id in learnedWords || d.data[d.index].id in d.sessionLearned)
  }

  /** `handleMarkAsLearned`: records the current word in the store, under its
      own level, and in the session list. Without a current word nothing
      happens. */
  function MarkAsLearned(d: Deck, s: Progress.State, today: int): (r: (Deck, Progress.State))
    requires OnCard(d) ==> Progress.LevelKnown(s.studyProgress, Some(d.data[d.index].hskLevel))
    ensures !OnCard(d) ==> r == (d, s)
    ensures OnCard(d) ==>
      && r.0 == d.(sessionLearned := d.sessionLearned + [d.data[d.index].id])
      && r.1 == Progress.MarkAsLearned(s, d.data[d.index].id, Some(d.data[d.index].hskLevel), today)
  {
    if OnCard(d) then
      var w := d.data[d.index];
      (d.(sessionLearned := d.sessionLearned + [w.id]),
       Progress.MarkAsLearned(s, w.id, Some(w.hskLevel), today))
    else (d, s)
  }

  /** After marking, the card shows as learned, and it is in the store's
      learned list and its level's learned list. */
  lemma MarkAsLearnedShowsLearned(d: Deck, s: Progress.State, today: int)
    requires OnCard(d) && Progress.LevelKnown(s.studyProgress, Some(d.data[d.index].hskLevel))
    ensures var (d', s') := MarkAsLearned(d, s, today);
      && IsWordLearned(d', s'.learnedWords)
      && d.data[d.index].id in s'.learnedWords
      && (d.data[d.index].id !in s.learnedWords && d.data[d.index].hskLevel != "" ==>
            && d.data[d.index].hskLevel in s'.studyProgress
            && d.data[d.index].id in s'.studyProgress[d.data[d.index].hskLevel].learned)
  {
  }

  /** The progress bar: the share of the deck up to the current card, in
      percent; 0 for an empty deck. */
  function ProgressPercent(d: Deck): (r: real)
    ensures |d.data| == 0 ==> r == 0.0
    ensures OnCard(d) ==> 0.0 < r <= 100.0
    ensures OnCard(d) && d.index == |d.data| - 1 ==> r == 100.0
    ensures OnCard(d) ==> r * |d.data| as real == (d.index + 1) as real * 100.0
  {
    if |d.data| > 0 then ((d.index + 1) as real / |d.data| as real) * 100.0 else 0.0
  }

  /** Each step through the deck moves the bar by one card's share: up on
      `handleNext`, down on `handlePrevious`, and not at all at either end. */
  lemma ProgressPercentMoves(d: Deck)
    requires OnCard(d)
    ensures d.index + 1 < |d.data| ==>
      ProgressPercent(Next(d)) == ProgressPercent(d) + 100.0 / |d.data| as real
    ensures d.index > 0 ==>
      ProgressPercent(Previous(d)) == ProgressPercent(d) - 100.0 / |d.data| as real
    ensures d.index + 1 == |d.data| ==> ProgressPercent(Next(d)) == ProgressPercent(d)
    ensures d.index == 0 ==> ProgressPercent(Previous(d)) == ProgressPercent(d)
  {
    var n := |d.data| as real;
    var k := (d.index + 1) as real;
    assert ((k + 1.0) / n) * 100.0 == (k / n) * 100.0 + 100.0 / n;
    assert ((k - 1.0) / n) * 100.0 == (k / n) * 100.0 - 100.0 / n;
  }
}
