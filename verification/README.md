# HSK vocabulary app — a Dafny model of its core

The app teaches Chinese vocabulary graded by HSK level (HSK1 to HSK5). A
read-only catalog holds the words, each with an id, a level and a topic. A
context store keeps the learner's favorites, the words learned and mastered
per level, quiz statistics, a daily study streak and a profile. The pages
read that store: the vocabulary browser with search, filters and pages; the
flashcard deck; a five-question quiz; the topic list; the favorites page; the
home dashboard; the profile with its level statistics and achievements; and
the settings page. The utility layer adds an LRU cache, a time formatter and
breadcrumb data. The SEO header adds the page-title rule.

Each store handler and each page handler is a pure function from one
immutable state to the next. Calendar days are integers, so "yesterday" is
`today - 1`. The random shuffles are permutations passed in as parameters.
The catalog's word lists are a parameter too, and `Catalog.WellFormed` states
what the shipped data is assumed to satisfy: ids are unique, and each level
list holds only words of its own level.

Modules, one per source file or component:

- `Js`: JavaScript built-ins used by the core, such as `filter`, `slice`,
  `some`, `Math.round` of a percentage, number-to-string, `join` and `split`.
- `Url`: query strings built by template literals, and `URLSearchParams.get`.
- `Catalog` (`src/lib/data.js`), `Progress` (`src/lib/AppContext.js`).
- `Cache` and `Format` (`src/lib/utils.js`), `Seo`, `Pagination`.
- One module per page: `Vocab`, `Flashcards` (learn page), `Quiz`, `Home`,
  `Profile`, `Topics`, `Favorites`, `Settings`.

Two behaviours of the code worth knowing:

- On the learn page, "next" and "previous" reset the flip state only when
  the cursor actually moves (src/app/learn/page.jsx:60-72).
- `clearAllData` writes the initial values out again
  (src/lib/AppContext.js:208-251). Clearing local storage is outside the
  model.

## Model

| member | source | states |
|---|---|---|
| Catalog.Lists | src/lib/data.js:9-15 | the catalog has exactly one word list per level key, five in all |
| Catalog.All | src/lib/data.js:18 | the flat vocabulary is the five level lists concatenated in key order, HSK1 first and HSK5 last |
| Catalog.ByHSK | src/lib/data.js:340-342 | one of the five level keys selects exactly that key's list, and any other string that is not an inherited object key gives the empty list |
| Catalog.ByHSKIsLevelFilter | src/lib/data.js:340-342 | a lookup with a string that is not one of the five keys (nor an inherited object key) gives []; on a well-formed catalog a level key gives exactly the catalog's words of that level, in catalog order |
| Catalog.WordLevelKnown | src/lib/data.js:9-18 | every catalog word carries one of the five level keys and is found in that level's list |
| Catalog.ByHSKUniqueIds | src/lib/data.js:340-342 | a level's list never holds two words with the same id |
| Catalog.ByTopic | src/lib/data.js:345-347 | exactly the catalog words of the topic, in catalog order: each result has the topic, every catalog word with the topic is in the result, and the result is a subsequence of the catalog |
| Catalog.ByTopicAndHSK | src/lib/data.js:350-352 | exactly the catalog words with both the topic and the level, as a subsequence of the catalog |
| Catalog.ByTopicThenLevel | src/lib/data.js:345-352 | filtering a topic's words by level gives the topic-and-level query, element for element |
| Catalog.Permute | src/lib/data.js:357 | the random sort reorders the pool: same length, every pool word present, each position taken from the permutation |
| Catalog.PermuteUniqueIds | src/lib/data.js:357 | reordering a list with unique ids keeps its ids unique |
| Catalog.Sample | src/lib/data.js:357-358 | a draw has min(count, pool size) words, all from the pool, from pairwise different positions |
| Catalog.SampleUniqueIds | src/lib/data.js:357-358 | draws from a pool with unique ids have unique ids |
| Catalog.RandomVocabulary | src/lib/data.js:355-359 | min(count, pool) words from the level's list, or from the whole catalog for a falsy level |
| Catalog.Pool | src/lib/data.js:356 | a falsy level draws from the whole catalog; a level key from exactly that key's list; any other level from nothing (partner: Catalog.PoolUniqueIds) |
| Catalog.PoolUniqueIds | src/lib/data.js:356 | on a well-formed catalog, the pool of either branch has unique ids |
| Catalog.RandomVocabularyUniqueIds | src/lib/data.js:355-359 | no word is drawn twice |
| Catalog.TopicsByHSK | src/lib/data.js:362-364 | exactly the topics whose own level list includes the level, in declaration order (a subsequence of the topic list) |
| Progress.Toggle | src/lib/AppContext.js:121-125 | after a toggle the id is present iff it was absent before; every other id keeps its membership |
| Progress.ToggleFavorite | src/lib/AppContext.js:120-126 | flips the membership of the id in favorites and changes no other field |
| Progress.ToggleTwiceAbsent | src/lib/AppContext.js:120-126 | adding then removing an absent id gives back exactly the original list |
| Progress.ToggleNoDuplicates | src/lib/AppContext.js:120-126 | toggling keeps a duplicate-free favorites list duplicate-free |
| Progress.NextStreak | src/lib/AppContext.js:144-152 | the streak goes up by one after a study day yesterday, stays after one today, and otherwise restarts at 1 |
| Progress.DayBeforeRunMissing | src/lib/AppContext.js:144-152 | a run of exactly k study days ending on the last day leaves the day before it unstudied |
| Progress.StreakCountsConsecutiveDays | src/lib/AppContext.js:144-152 | for any history of study days in calendar order, the streak is the length of the longest run of consecutive days ending on the last one |
| Progress.MarkAsLearned | src/lib/AppContext.js:128-154 | a known id changes nothing; a new id is appended once globally and to its level's list, the streak advances, the last day becomes today, and nothing else changes |
| Progress.MarkAsLearnedIdempotent | src/lib/AppContext.js:128-154 | marking the same word again, on any later day, changes nothing |
| Progress.InitialLearnedConsistent | src/lib/AppContext.js:8-36 | the initial store satisfies the learned-words invariant |
| Progress.MarkAsLearnedConsistent | src/lib/AppContext.js:128-154 | marking keeps the global learned list and every level's list duplicate-free, and keeps each level's list inside the global one |
| Progress.MarkAsMastered | src/lib/AppContext.js:156-168 | with a truthy level a new id is appended to that level's mastered list, keeping the ids already there; a falsy level, or an id already there, changes nothing; learned lists and other levels are untouched |
| Progress.MarkAsMasteredIdempotent | src/lib/AppContext.js:156-168 | mastering twice equals mastering once |
| Progress.Accuracy | src/lib/AppContext.js:177 | the rounded percentage of correct answers is within half a point of the exact ratio; 0 with no answers; at most 100 |
| Progress.UpdateQuizStats | src/lib/AppContext.js:170-191 | the totals grow by the new counts, accuracy is recomputed from the totals, the level's score grows, other levels and other fields are unchanged |
| Progress.UpdateQuizStatsSound | src/lib/AppContext.js:170-191 | statistics that never count more correct answers than answers stay so, and accuracy stays at most 100 |
| Progress.QuizStatsExample | src/lib/AppContext.js:170-191 | three right out of five on a fresh store gives 60% and an HSK1 score of 3/5 |
| Progress.UpdateUserProfile | src/lib/AppContext.js:193-195 | each profile field takes the patch's value when the patch has it, and keeps its old value otherwise |
| Progress.EmptyPatchIsIdentity | src/lib/AppContext.js:193-195 | an empty patch leaves the store unchanged |
| Progress.AddStudyTime | src/lib/AppContext.js:197-202 | the total study time grows by the minutes; nothing else changes |
| Progress.AddStudyTimeAdditive | src/lib/AppContext.js:197-202 | adding a and then b equals adding a + b |
| Progress.ResetStreak | src/lib/AppContext.js:204-206 | the streak becomes 0 and no other field changes |
| Progress.ResetStreakThenLearn | src/lib/AppContext.js:147-151 | after a reset, the next new word leaves the streak at 0 when learned on the last study day and sets it to 1 on any other day; every other field ends as learning without the reset |
| Progress.ClearAllData | src/lib/AppContext.js:208-251 | favorites and learned words are empty, the streak is 0 with no last day, the profile is the default, all per-level scores and progress are zero for the five levels |
| Progress.ClearAllDataRestoresInitial | src/lib/AppContext.js:208-251 | clearing yields exactly the store's initial state |
| Progress.Initial | src/lib/AppContext.js:8-36 | no favorites, nothing learned, streak 0, no study day, no quiz answers, and an empty learned and mastered list for exactly the five levels (partners: Progress.InitialLearnedConsistent, Progress.ClearAllDataRestoresInitial) |
| Cache.Create | src/lib/utils.js:170-172 | a new cache is empty and keeps the given bound |
| Cache.Get | src/lib/utils.js:174-182 | a hit returns the stored value and moves the key to the most-recent end; a miss returns null and changes nothing |
| Cache.Set | src/lib/utils.js:184-192 | the pair just set is the most recent entry, and the bound is unchanged |
| Cache.Clear | src/lib/utils.js:194-196 | clearing empties the cache and keeps the bound |
| Cache.CreateValid | src/lib/utils.js:170-172 | a new cache satisfies the invariant: distinct keys, size within the bound |
| Cache.GetMiss | src/lib/utils.js:174-182 | a miss returns null and leaves the cache exactly as it was |
| Cache.GetHit | src/lib/utils.js:174-182 | a hit keeps the invariant, the size and every key's value, and makes the key the most recent |
| Cache.SetThenGet | src/lib/utils.js:184-192 | set keeps the invariant, and a following get returns the value just set |
| Cache.SetExisting | src/lib/utils.js:185-187 | overwriting a key evicts nothing: the size and all other keys' values are unchanged |
| Cache.SetEvicts | src/lib/utils.js:187-190 | a new key in a full cache evicts exactly the least recently used key; the size stays and the other values stay |
| Cache.SetGrows | src/lib/utils.js:184-192 | a new key with room to spare grows the cache by one and evicts nothing |
| Cache.SizeCountsKeys | src/lib/utils.js:198-200 | the size equals the number of distinct keys stored |
| Cache.Size | src/lib/utils.js:198-200 | the number of entries; Cache.SizeCountsKeys proves it is the number of distinct keys |
| Format.JsRem | src/lib/utils.js:207 | JavaScript's remainder lies in [0, b) for a non-negative dividend and in (-b, 0] for a negative one |
| Format.FloorDiv | src/lib/utils.js:206 | the floor quotient q satisfies q*b <= a < q*b + b |
| Format.ParseTime | src/lib/utils.js:205-209 | a parse succeeds only on text ending in a colon and two characters |
| Format.FormatTime | src/lib/utils.js:205-209 | for any non-negative duration the text reads back as that duration |
| Format.PadTwoDigits | src/lib/utils.js:208 | padding a number below 100 gives two digits that read back as that number |
| Format.ParseClock | src/lib/utils.js:208 | minutes, a colon and two digits below 60 read back as 60*minutes + seconds |
| Format.FormatTimeRoundTrip | src/lib/utils.js:205-209 | for a non-negative duration the text is the decimal minutes, a colon and two digits, and parsing it gives back the duration |
| Format.FormatTimeNegative | src/lib/utils.js:205-209 | negative durations keep JavaScript's signs: -61 formats as "-2:-1", and that text does not parse back |
| Format.FormatTimeMinusMinute | src/lib/utils.js:205-209 | a whole negative minute has remainder zero, so -60 formats as "-1:00" with the floor of the quotient as minutes |
| Format.BreadcrumbItems | src/lib/utils.js:67-76 | one item per crumb, at position index + 1, with the crumb's name and url |
| Format.ItemsToCrumbs | src/lib/utils.js:67-76 | reading crumbs back keeps one crumb per item |
| Format.BreadcrumbRoundTrip | src/lib/utils.js:67-76 | reading names and urls back from the item list gives the original crumbs, and positions strictly increase |
| Format.ItemsToCrumbsPointwise | src/lib/utils.js:67-76 | each crumb read back holds its item's name and url |
| Seo.FullTitle | src/app/components/SEOHead.jsx:13 | the result always mentions the site name; a title that already does is kept; any other is extended by " \| " and the site name |
| Seo.FullTitleIdempotent | src/app/components/SEOHead.jsx:13 | completing a completed title changes nothing |
| Seo.DefaultTitleUnchanged | src/app/components/SEOHead.jsx:6-13 | the default title is already complete |
| Pagination.Range | src/app/components/Pagination.jsx:14-16 | buttons for pages lo to hi in order, none when hi < lo |
| Pagination.GeneratePageNumbers | src/app/components/Pagination.jsx:10-45 | at most seven entries, and with at least one page the strip starts at page 1 and ends at the last page |
| Pagination.ShortStrip | src/app/components/Pagination.jsx:13-17 | with at most seven pages the strip is exactly pages 1 to the last, with the current page shown |
| Pagination.HeadStrip | src/app/components/Pagination.jsx:20-26 | near the first page the strip is exactly 1, 2, 3, 4, an ellipsis and the last page; it is well laid out and shows the current page |
| Pagination.TailStrip | src/app/components/Pagination.jsx:27-33 | near the last page the strip is exactly 1, an ellipsis and the last four pages; it is well laid out and shows the current page |
| Pagination.MiddleStrip | src/app/components/Pagination.jsx:34-40 | in the middle the strip is exactly 1, an ellipsis, the current page with its two neighbours, an ellipsis and the last page |
| Pagination.GeneratePageNumbersShape | src/app/components/Pagination.jsx:10-45 | for any inputs: at most seven entries, consecutive neighbouring pages, every ellipsis hides at least one page, first and last page shown, current page shown when in range |
| Pagination.EllipsisTestRedundant | src/app/components/Pagination.jsx:20-40 | with more than seven pages an ellipsis is always shown, so the inner `totalPages > 5` tests never fail |
| Pagination.PrevTarget | src/app/components/Pagination.jsx:53 | one page back from above page 1, and exactly page 1 from page 1 or below |
| Pagination.NextTarget | src/app/components/Pagination.jsx:95 | one page on from below the last page, and exactly the last page from it or beyond |
| Pagination.NavigationStaysInRange | src/app/components/Pagination.jsx:53-96 | from a page in range both buttons lead to pages in range; an enabled button moves exactly one page; a disabled one targets the current page |
| Pagination.PrevDisabled | src/app/components/Pagination.jsx:54 | the previous button is disabled exactly on page 1; Pagination.NavigationStaysInRange proves that is the only page where its target is the current page |
| Pagination.NextDisabled | src/app/components/Pagination.jsx:96 | the next button is disabled exactly on the last page; Pagination.NavigationStaysInRange proves that is the only page where its target is the current page |
| Vocab.MatchesSearch | src/app/vocab/page.jsx:26-38 | the lower-cased term occurs in the lower-cased Chinese text, meaning or pinyin; Vocab.FilteredVocabulary keeps exactly the words that match |
| Vocab.Keeps | src/app/vocab/page.jsx:26-38 | search match, topic ("all" for any) and level ("ALL" for any) together; Vocab.FilteredVocabulary keeps exactly the words it accepts |
| Vocab.FilteredVocabulary | src/app/vocab/page.jsx:26-38 | exactly the catalog words whose text matches the search case-insensitively and that pass the topic and level filters |
| Vocab.FilteredIsSubsequence | src/app/vocab/page.jsx:26-38 | the filtered list keeps catalog order and never repeats or invents a word |
| Vocab.UnfilteredKeepsCatalog | src/app/vocab/page.jsx:18-38 | with an empty search, topic "all" and level "ALL" the whole catalog is shown |
| Vocab.TotalPages | src/app/vocab/page.jsx:41 | the page count is the fewest 12-word pages that hold the list |
| Vocab.PageOf | src/app/vocab/page.jsx:42-45 | a page never holds more than 12 words |
| Vocab.PageInRange | src/app/vocab/page.jsx:42-45 | every page from 1 to the last is non-empty and holds the words from position (page-1)*12 onwards |
| Vocab.PagesUpToPrefix | src/app/vocab/page.jsx:42-45 | pages 1 to k together are the list's first k*12 words |
| Vocab.PagesConcatenate | src/app/vocab/page.jsx:41-45 | reading every page in turn shows every filtered word exactly once, in order |
| Vocab.ShowsPaginationIffMoreThanOnePage | src/app/vocab/page.jsx:230 | the pager is shown iff more than 12 words match |
| Vocab.SetSearch | src/app/vocab/page.jsx:88-91 | typing sets the search term and goes back to page 1; the other filters are kept |
| Vocab.SetLevel | src/app/vocab/page.jsx:100-104 | picking a level sets it ("ALL" for none) and goes back to page 1 |
| Vocab.SetTopic | src/app/vocab/page.jsx:112-115 | picking a topic sets it and goes back to page 1 |
| Vocab.SetPage | src/app/vocab/page.jsx:234 | changing page changes only the page |
| Vocab.ClearFilters | src/app/vocab/page.jsx:246-251 | clearing restores the initial view |
| Vocab.FilterChangeShowsFirstPage | src/app/vocab/page.jsx:48-50 | after any filter change the first 12 matching words are shown |
| Vocab.ClearFiltersShowsCatalog | src/app/vocab/page.jsx:246-251 | after clearing, the whole catalog is shown from its first page |
| Url.Get | src/app/learn/page.jsx:25-26 | a URL without a query string has no parameters |
| Url.BuildRoundTrip | src/app/learn/page.jsx:25-26 | a URL built from a path and plain parameters reads back that path, and each name's first value |
| Flashcards.FindStartWord | src/app/learn/page.jsx:37 | the index of the first word whose id prints as the start word, or -1 when none does |
| Flashcards.ReviewLinkParams | src/app/vocab/page.jsx:53 | the review link opens /learn with the word's level and id as parameters |
| Flashcards.ReviewLink | src/app/vocab/page.jsx:53 | the link starts with "/learn?hsk=" and goes on past the level; Flashcards.ReviewLinkParams proves it reads back as /learn with the word's level and id |
| Flashcards.ReviewLinkOpensWord | src/app/learn/page.jsx:24-54 | following a review link on a well-formed catalog shows that very word, in its level's deck, past the selection screen, face down |
| Flashcards.OpenUnknownStartWord | src/app/learn/page.jsx:28-42 | a start word missing from the level keeps the whole catalog at its first card, with the level selected |
| Flashcards.OpenLevelOnly | src/app/learn/page.jsx:24-54 | a level alone opens that level's deck at its first card; no parameters show the whole catalog on the selection screen |
| Flashcards.ParamsEffect | src/app/learn/page.jsx:24-45 | without a truthy hsk parameter nothing changes; with one that level is selected and the selection screen skipped, and a deck change loads that level's list at a real card, face down |
| Flashcards.LevelEffect | src/app/learn/page.jsx:47-54 | with a start word nothing changes; otherwise the pool of the selected level is loaded from its first card, face down, with the level and screen flags kept |
| Flashcards.Open | src/app/learn/page.jsx:24-54 | opening the page leaves the cursor on a card or at 0, face down, with nothing learned this session; without a truthy hsk parameter the selection screen shows, with one that level is selected and the screen is skipped |
| Flashcards.SelectLevel | src/app/learn/page.jsx:47-54 | choosing a level marks it chosen and keeps the screen flags and session list; a changed level without a URL start word reloads the deck from the first card; otherwise the deck stays |
| Flashcards.StartLearning | src/app/learn/page.jsx:86-92 | once a level has been chosen, starting only sets the started flag and hides the selector; otherwise nothing changes |
| Flashcards.SelectThenStart | src/app/learn/page.jsx:86-92 | after any level choice, starting leaves the selection screen with that level and that deck; without a choice the screen stays |
| Flashcards.ChangeLevel | src/app/learn/page.jsx:187-192 | back to the selection screen with no level chosen, the deck and cursor kept |
| Flashcards.ChangeLevelNeedsChoice | src/app/learn/page.jsx:86-92 | after "change level", starting does nothing until a level is chosen again, and once one is chosen starting leaves the screen |
| Flashcards.Next | src/app/learn/page.jsx:60-65 | one card on with the card face down and every other field kept, or no change on the last card |
| Flashcards.Previous | src/app/learn/page.jsx:67-72 | one card back with the card face down and every other field kept, or no change on the first card |
| Flashcards.NavigationStaysOnCard | src/app/learn/page.jsx:60-72 | navigation never leaves the deck, and a step forward is undone by a step back |
| Flashcards.MarkAsLearned | src/app/learn/page.jsx:74-79 | marks the current word in the store under its own level and in the session list; without a current word nothing happens |
| Flashcards.MarkAsLearnedShowsLearned | src/app/learn/page.jsx:58-79 | after marking, the card shows as learned, and the word is in the store's learned list and its level's list |
| Flashcards.IsWordLearned | src/app/learn/page.jsx:58 | the current word is in the store's learned list or this session's, and there is a current word; Flashcards.MarkAsLearnedShowsLearned proves marking makes it hold |
| Flashcards.ProgressPercent | src/app/learn/page.jsx:57 | (index + 1) / length of the deck, in percent: 0 for an empty deck, in (0, 100] on a card, 100 on the last card |
| Flashcards.ProgressPercentMoves | src/app/learn/page.jsx:57-72 | each step forward raises the bar by one card's share and each step back lowers it by one, and at either end the bar stays |
| Quiz.Distractors | src/app/quiz/page_new.jsx:31 | at most three wrong words, all from the pool, none with the asked word's id |
| Quiz.BuildQuestion | src/app/quiz/page_new.jsx:30-39 | the right answer is the asked word's id; the asked word is among the buttons; every other button is a pool word with a different id |
| Quiz.QuestionShape | src/app/quiz/page_new.jsx:31-32 | on a pool of three or more words with unique ids: three or four buttons with different ids, three exactly when the asked word was drawn among the three |
| Quiz.BuildQuestions | src/app/quiz/page_new.jsx:30-39 | one question per drawn word, in order, each asking that word |
| Quiz.StartNewQuiz | src/app/quiz/page_new.jsx:24-48 | an empty pool changes nothing; otherwise min(pool, 5) fresh questions from the first, with the score reset and the level kept |
| Quiz.StartNewQuizQuestions | src/app/quiz/page_new.jsx:24-48 | a quiz asks about different words; each right answer is the word's id, that word is a button, and no other button carries that id |
| Quiz.StartNewQuizOptions | src/app/quiz/page_new.jsx:30-39 | on a pool of three or more, every question has three or four buttons with different ids |
| Quiz.StartLabelMatches | src/app/quiz/page_new.jsx:52-54 | the level screen counts the pool the quiz draws from, so "min(n, 5) questions" is what a start gives; an enabled start gives four or five questions |
| Quiz.Available | src/app/quiz/page_new.jsx:52-54 | exactly the catalog words of the selected level, or all for a falsy level; Quiz.StartLabelMatches proves it is the pool a start draws from |
| Quiz.StartEnabled | src/app/quiz/page_new.jsx:111 | the start button is enabled from four available words on; Quiz.StartLabelMatches proves an enabled start asks four or five questions |
| Quiz.ShowSelector | src/app/quiz/page_new.jsx:208-212 | "change level" returns to the level screen and changes nothing else: questions, score, level, cursor, selection and completion are kept |
| Quiz.SelectLevel | src/app/quiz/page_new.jsx:70 | the selector sets the level and changes nothing else |
| Quiz.AnswerSelect | src/app/quiz/page_new.jsx:129-138 | the first answer is locked in and scores iff it is right, and only the selection, the answered flag and the score change; once answered, clicks change nothing |
| Quiz.AnswerIsOneShot | src/app/quiz/page_new.jsx:129-138 | a second click is ignored whatever it is |
| Quiz.NextQuestion | src/app/quiz/page_new.jsx:140-148 | on to the next question with the answer cleared and everything else kept, or, after the last one, the result screen with everything else kept |
| Quiz.InitialConsistent | src/app/quiz/page_new.jsx:14-21 | the initial page satisfies the quiz invariant |
| Quiz.HandlersKeepConsistent | src/app/quiz/page_new.jsx:24-148 | every handler keeps the cursor on a question, shows a selection only once answered, and counts at most the questions answered |
| Quiz.ScoreBounded | src/app/quiz/page_new.jsx:191 | the score never exceeds the number of questions, so the wrong-answer count is never negative |
| Quiz.Percentage | src/app/quiz/page_new.jsx:169 | the score as a share of the questions, rounded to the nearest percent |
| Quiz.PercentageInRange | src/app/quiz/page_new.jsx:169 | the result percentage is in [0, 100]: 100 for a perfect score, 0 for none right |
| Home.ProgressPercentage | src/app/page.jsx:18-20 | 0 for an empty catalog, otherwise the learned share rounded to the nearest percent |
| Home.ProgressPercentageBounded | src/app/page.jsx:18-20 | at most 100 when no more words are learned than exist; 100 when all are |
| Home.Row | src/app/page.jsx:24-33 | a level's row counts the level's catalog words and, among them, those whose id is learned; progress is that share rounded to the nearest percent, at most 100, 0 for an empty level |
| Home.HskProgress | src/app/page.jsx:24-33 | one row per level, in level order |
| Home.RowTotalIsLevelSize | src/app/page.jsx:24-33 | on a well-formed catalog a row's total is the size of that level's list |
| Home.RowMonotone | src/app/page.jsx:24-33 | learning more words never lowers a level's learned count or its progress |
| Home.WeeklyProgress | src/app/page.jsx:45-46 | the weekly progress is always below the goal of 50 |
| Home.WeeklyProgressWraps | src/app/page.jsx:45-46 | below 50 learned words it is the count itself, and it restarts every 50 words |
| Profile.LearningProgress | src/app/profile/page.jsx:34-36 | no number (NaN) exactly when the catalog is empty; otherwise the learned share rounded to the nearest percent |
| Profile.Stats | src/app/profile/page.jsx:38-50 | a level's total, learned and mastered counts, 0 for a level missing from the store, and progress rounded to the nearest percent |
| Profile.HskStats | src/app/profile/page.jsx:38-50 | one statistics row per level, in level order |
| Profile.MarkAsLearnedCounts | src/app/profile/page.jsx:38-50 | marking a new word under a level raises only that level's learned count, by one |
| Profile.ClearedStatsAreZero | src/app/profile/page.jsx:38-50 | after clearing all data every level shows nothing learned or mastered |
| Profile.AchievementsListed | src/app/profile/page.jsx:52-95 | the list holds all six achievements |
| Profile.Unlocked | src/app/profile/page.jsx:52-95 | an achievement is unlocked iff its threshold is met (1, 10, 50, 100 words; a 7-day streak; 80% accuracy), in list order |
| Profile.Earned | src/app/profile/page.jsx:52-95 | each achievement's threshold: 1, 10, 50 or 100 words, a 7-day streak, 80% accuracy; Profile.Unlocked lists exactly the earned ones |
| Profile.WordBadgesNested | src/app/profile/page.jsx:52-95 | each word-count badge implies the smaller ones |
| Profile.UnlockedMonotone | src/app/profile/page.jsx:52-95 | more words, a longer streak or a higher accuracy never lock an achievement |
| Profile.ClearedHasNoAchievement | src/app/profile/page.jsx:52-95 | after clearing all data no achievement is unlocked |
| Profile.Recent | src/app/profile/page.jsx:156 | the recent list is the last (at most four) unlocked achievements |
| Topics.Select | src/app/topics/page_new.jsx:15 | the selector's null becomes "ALL" |
| Topics.TopicWords | src/app/topics/page_new.jsx:19-34 | the topic's words, restricted to the selected level unless it is "ALL" |
| Topics.Stats | src/app/topics/page_new.jsx:19-34 | the topic card counts its words and the learned ones among them, with progress at most 100 and rounded to the nearest percent |
| Topics.LearnedMeansRecordedInOwnLevel | src/app/topics/page_new.jsx:19-34 | a word counts as learned when its id is in its own level's learned list |
| Topics.NothingLearnedNoProgress | src/app/topics/page_new.jsx:19-34 | with no learned lists filled, every card shows 0 learned and 0% |
| Topics.ClearedTopicsShowNoProgress | src/app/topics/page_new.jsx:19-34 | after clearing all data every topic card shows 0 learned and 0% |
| Topics.FilteredTopics | src/app/topics/page_new.jsx:37-41 | the shown topics keep list order; "ALL" shows every topic |
| Topics.FilteredTopicsShowWords | src/app/topics/page_new.jsx:37-41 | under a level, a topic is shown iff it has a word of that level, iff its card counts at least one word |
| Topics.FilteredTopicsDeclared | src/app/topics/page_new.jsx:37-41 | when every word's level is declared by its topic, each shown topic is one the level lookup lists |
| Topics.TopicLink | src/app/topics/page_new.jsx:76 | the card's link is /learn with topic and level parameters |
| Topics.TopicLinkParams | src/app/topics/page_new.jsx:76 | the link reads back as /learn with the level and no start word |
| Topics.TopicLinkIgnoresTopic | src/app/topics/page_new.jsx:76 | the learn page opened from a topic shows the whole level, not the topic; from "ALL" it shows an empty deck |
| Favorites.FavoriteWords | src/app/favorites/page.jsx:21 | exactly the catalog words whose id is a favorite, in catalog order |
| Favorites.FilteredFavorites | src/app/favorites/page.jsx:24-26 | the favorites of the selected level, all of them for "ALL", in order |
| Favorites.RemoveFavorite | src/app/favorites/page.jsx:36-38 | removing a shown favorite takes its id out and leaves the others |
| Favorites.RemoveShownFavorite | src/app/favorites/page.jsx:36-38 | after removal the word is no longer shown and every other shown word stays |
| Favorites.ToggleEach | src/app/favorites/page.jsx:40-44 | toggling a list of ids one by one leaves the membership of every other id as it was |
| Favorites.ToggleEachRemoves | src/app/favorites/page.jsx:40-44 | toggling each of a duplicate-free set of present ids removes exactly those ids |
| Favorites.ClearAll | src/app/favorites/page.jsx:40-44 | without confirmation nothing changes; only the favorites change |
| Favorites.ClearAllEmpties | src/app/favorites/page.jsx:40-44 | a confirmed clear of a duplicate-free list leaves no favorites |
| Favorites.ClearCurrentLevel | src/app/favorites/page.jsx:46-55 | under "ALL" it is clear-all; without confirmation nothing changes; only favorites change |
| Favorites.ClearCurrentLevelRemovesLevel | src/app/favorites/page.jsx:46-55 | a confirmed clear removes exactly the favorites of the selected level; favorites of other levels stay |
| Favorites.LevelCount | src/app/favorites/page_new.jsx:89 | the distinct-level count is at most the number of favorites, and 0 iff there are none |
| Favorites.LevelSetSize | src/app/favorites/page_new.jsx:89 | a list has at most as many distinct levels as words, and none iff it is empty |
| Favorites.LevelCountAtMostFive | src/app/favorites/page_new.jsx:89 | on a well-formed catalog the favorites span at most five levels |
| Favorites.StudyUrl | src/app/favorites/page.jsx:237-249 | the link starts with the route; under "ALL" it is the route alone without favorites and the route followed by "&favorites=true" with them |
| Favorites.StudyUrlAllLosesQuery | src/app/favorites/page.jsx:237 | as written, "ALL" with favorites gives route + "&favorites=true": the path is not the route and no favorites parameter reads back |
| Favorites.StudyUrlFixedReadsBack | src/app/favorites/page.jsx:237 | the corrected URL reads back as the route, with the level when one is selected and favorites=true when there are favorites |
| Favorites.StudyUrlAgreesExceptAll | src/app/favorites/page.jsx:237-249 | the written and corrected URLs agree iff it is not the case of "ALL" with favorites |
| Favorites.FavoritesLearnLink | src/app/favorites/page_new.jsx:270 | the link is /learn with favorites=true and the level |
| Favorites.FavoritesLearnLinkIgnoresFavorites | src/app/favorites/page_new.jsx:270 | the learn page opened from it shows the whole level, not the favorites; from "ALL" an empty deck |
| Favorites.NatStrings | src/app/favorites/page_new.jsx:56 | each id is printed in decimal, in order |
| Favorites.QuizUrl | src/app/favorites/page_new.jsx:52-58 | no quiz URL exactly when no favorite is shown |
| Favorites.QuizUrlBuilt | src/app/favorites/page_new.jsx:56-57 | the quiz URL is /quiz with the joined ids and the level as parameters |
| Favorites.QuizUrlCarriesIds | src/app/favorites/page_new.jsx:52-58 | the quiz URL reads back as /quiz with the level, and its words parameter splits into the shown ids, which parse back to those ids |
| Settings.SetPath | src/app/settings/page.jsx:178-184 | a nested write succeeds iff every step but the last is an object; then the new value reads back, and the other top-level keys are unchanged |
| Settings.SetPathFrame | src/app/settings/page.jsx:178-184 | a nested write leaves every path that diverges from it unchanged |
| Settings.UpdateSetting | src/app/settings/page.jsx:175-190 | a path without a dot sets that top-level key; a dotted path is split and written nested |
| Settings.UpdateThenRead | src/app/settings/page.jsx:175-190 | after a successful update the value reads back at its path |
| Settings.Defaults | src/app/settings/page.jsx:18-34 | the initial settings literal; Settings.DefaultsShaped and Settings.DefaultAccessibility state what it holds |
| Settings.DefaultsShaped | src/app/settings/page.jsx:18-34 | the defaults hold the notification and accessibility groups as objects and the light theme |
| Settings.GroupUpdateKeepsShape | src/app/settings/page.jsx:178-184 | writing a key of the notification or accessibility group always succeeds, keeps the shape and reads back |
| Settings.ResetToDefaults | src/app/settings/page.jsx:152-173 | a confirmed reset gives exactly the settings the page starts with (shaped, light theme); otherwise nothing changes |
| Settings.LoadMerge | src/app/settings/page.jsx:72 | loading keeps every key, and the saved value wins over the current one |
| Settings.LoadSaved | src/app/settings/page.jsx:72 | saved settings that cover every key replace the state; an empty save changes nothing |
| Settings.LoadOverDefaults | src/app/settings/page.jsx:72 | a key missing from the save keeps its default |
| Settings.ApplyTheme | src/app/settings/page.jsx:108-124 | dark turns dark mode on, light off, auto follows the system, any other value leaves it |
| Settings.ApplyThemeIdempotent | src/app/settings/page.jsx:108-124 | applying the same theme twice equals applying it once |
| Settings.FontMultiplier | src/app/settings/page.jsx:131-134 | small gives 0.875, large 1.125, anything else 1 |
| Settings.ApplyAccessibility | src/app/settings/page.jsx:127-149 | fails with a type error iff the accessibility group is missing; otherwise it applies the font multiplier and the two switches |
| Settings.DefaultAccessibility | src/app/settings/page.jsx:127-149 | the defaults give multiplier 1 and both switches off |
| Settings.AccessibilityExamples | src/app/settings/page.jsx:127-190 | setting accessibility.fontSize to large and applying gives multiplier 1.125 |

## Left out

- Catalog.ByHSK: a key inherited from `Object.prototype` (such as "toString" or "constructor", reachable through the learn page's `hsk` parameter) returns the inherited value in the source, not []; the model treats every string other than the five level keys as absent.
- Persistence: the store's and the settings page's reads and writes to local storage, and the storage keys, are not modelled.
- Rendering, routing side effects, speech synthesis, the voice list and toasts are not modelled. Links are modelled as the strings pushed.
- Randomness: each `sort(() => Math.random() - 0.5)` is a permutation parameter. How uniform the shuffle is is not stated.
- Dates: calendar days are integers. `new Date().toDateString()` and time zones are left out.
- Floating point: rounded percentages are computed exactly, rounding halves up. `Flashcards.ProgressPercent` is a real.
- The catalog's word lists and the topic list are parameters. The shipped data files and their contents are not part of this model.
- React semantics: batching, stale closures and effect ordering beyond the learn page's two effects are not modelled. The favorites page's `forEach(toggleFavorite)` is modelled as sequential updates.
- The duplicate page variants (`page_old.jsx`, `page.new.jsx`, the learn page's `page_new.jsx`) and the dynamic topic page are not modelled. Neither are `hooks.js` or the other utilities in `utils.js` (debounce, analytics, storage, dates).
- The home dashboard's recent-activity mock data is not modelled.
- URL handling: percent-decoding, `+` for spaces and fragments are not modelled. Link parts are assumed plain (no `?`, `&`, `=` or `#`).
- The learn page reads neither `topic` nor `favorites`, and the quiz page reads no URL parameters at all, so `words` is unused. The model shows this; it does not invent the missing behaviour.
- Progress.UpdateQuizStats: the precondition excludes two inputs: a truthy level missing from `hskStats`, where the source throws a TypeError, and correct answers over zero questions in total, where the source stores `Infinity`.
- Progress.MarkAsMastered: requires the level, when truthy, to be a key of the store; otherwise the source throws a TypeError.
- Progress.MarkAsLearned: requires the level, when truthy, to be a key of the store; otherwise the source throws a TypeError.
- Js.Lower: folds ASCII letters only. Unicode case folding is not modelled.
- Format.JsRem: states the sign and range of the remainder, not the divisibility identity.
- Settings.UpdateSetting: a walk through an array or primitive value is a TypeError in the model. In JavaScript some of these silently assign a property.
- Profile.LearningProgress: `NaN` and `Infinity` are both None.
- Settings.ApplyAccessibility: models the CSS variable and the two class toggles as a record, not DOM writes.
- Settings: JSON parse errors and saved values that are not objects are not modelled. Loading takes a parsed map.

## Findings

| source | as written | input that shows it | evidently intended | confidence | as-written member | corrected member |
|---|---|---|---|---|---|---|
| src/app/favorites/page.jsx:237 (also 249) | the level part adds `?hsk=…` only when a level is selected, but the favorites part always starts with `&` | level "ALL" with at least one favorite gives "/learn&favorites=true": the path becomes "/learn&favorites=true" and no `favorites` parameter can be read | "/learn?favorites=true", with `?` before the first parameter whichever it is | not executed | Favorites.StudyUrlAllLosesQuery | Favorites.StudyUrlFixedReadsBack |
