# Course viewer core, modelled in Dafny

The `App` component of the course viewer (`src/App.jsx`) fetches four course
bundles (Spring Boot, React, JavaScript, Core Java), joins them into one
catalog, picks the course to show, and lets the learner search the course's
topics, bookmark topics, mark them complete, pick an English or Hinglish
explanation per topic, and read code samples with simple highlighting. This
project models the data logic behind those screens and proves what it
promises:

- `course_model.dfy` (module `CourseModel`): courses, sections, topics and bundles as datatypes.
- `catalog.dfy` (module `Catalog`): `normalizeData`, the catalog concatenation, the initial course selection and `contentData`.
- `text_search.dfy` (module `TextSearch`): `toLowerCase` and `includes` as the search uses them.
- `topic_filter.dfy` (module `TopicFilter`): `filteredSections`.
- `progress.dfy` (module `Progress`): the bookmark and completion toggles, their toasts, `totalTopics`, `currentCourseCompleted` and `progressPercentage`.
- `highlight.dfy` (module `Highlight`): `highlightCode`: line split, the split by the keyword pattern, and the colouring rule.
- `viewer.dfy` (module `Viewer`): the component's state as the class `App`, one method per handler, with the derived values (`contentData`, `filteredSections`, `progressPercentage`, the current tab) as functions of that state.

The pure parts of the source (the `find`, `map`, `filter`, `reduce` and `split`
expressions) are functions with lemmas; the component state that the handlers
replace through setters is a class whose methods state the whole new state.

`App.jsx` has no two-language merge and no per-course cache: it fetches the
four endpoints once, and Hinglish is a field of each topic's `explanations`
and `codeExplanations` that the language tab selects.

## Model

| member | source | states |
|---|---|---|
| `Catalog.Normalize` | src/App.jsx:141 | `normalizeData`: an array bundle is kept as it is, a single course becomes a one-element list; its properties are stated by `NormalizeShape` |
| `Catalog.BuildCatalog` | src/App.jsx:143-148 | the four normalised bundles concatenated in endpoint order; its layout is stated by `CatalogLayout` and `CatalogMembership` |
| `Catalog.NormalizeShape` | src/App.jsx:141 | an array bundle contributes exactly its own courses in its own order, a single course exactly a one-element list, and normalising a normalised list changes nothing |
| `Catalog.CatalogLayout` | src/App.jsx:143-148 | the catalog is the Spring Boot, React, JavaScript and Core Java blocks in that order, each keeping its bundle's order; its length is the sum |
| `Catalog.CatalogMembership` | src/App.jsx:143-148 | a course is in the catalog exactly when one of the four bundles contributes it |
| `Catalog.FindById` | src/App.jsx:154 | `find` by id: absent exactly when no course has the id, otherwise the course at the first position with that id |
| `Catalog.InitialSelection` | src/App.jsx:153-160 | the saved id if some course has it; else the first course's id; else the id stays as it was |
| `Catalog.ContentData` | src/App.jsx:174 | the first course with the active id, else the first course; absent exactly when the catalog is empty |
| `Catalog.SelectionShowsCourse` | src/App.jsx:153-174 | after loading a non-empty catalog, whatever the id was before, the active id names a catalog course, and the page shows the saved course if the catalog has it, else the first course |
| `TextSearch.LowerChar` | src/App.jsx:269-270 | a capital letter becomes the small letter 32 code points above it, every other character is kept, and no capital is left |
| `TextSearch.Lower` | src/App.jsx:269-270 | lower-casing keeps the length |
| `TextSearch.LowerSpec` | src/App.jsx:269-270 | each character is lower-cased in place by the ASCII rule, and no capital letter is left |
| `TextSearch.LowerIdempotent` | src/App.jsx:269-270 | lower-casing twice equals lower-casing once |
| `TextSearch.Contains` | src/App.jsx:269-270 | `includes`: the query is a prefix of the text or occurs in the text after its first character; its meaning is stated by `ContainsIffWindow` |
| `TextSearch.ContainsIffWindow` | src/App.jsx:269-270 | `includes` holds exactly when some window of the text equals the query |
| `TextSearch.ContainsEmpty` | src/App.jsx:269-270 | the empty query is contained in every text |
| `TopicFilter.Matches` | src/App.jsx:269-270 | the filter's test: the lower-cased title or lower-cased English explanation includes the lower-cased query |
| `TopicFilter.Narrow` | src/App.jsx:267-271 | `{...section, topics: filtered}`: the section with only its topic list narrowed |
| `TopicFilter.FilteredSections` | src/App.jsx:266-272 | never more sections than the course has; `FilteredSectionsMapFilter` gives it as the `map` then the `filter`, and contents, order and soundness of the topics are stated by `FilteredTopicsInOrder`, `FilterSoundAndComplete` and `FilteredSectionsShape` |
| `TopicFilter.NarrowAll` | src/App.jsx:267-271 | the `map` step: as many sections as the course has, the k-th being the k-th section narrowed |
| `TopicFilter.FilteredSectionsMapFilter` | src/App.jsx:266-272 | the shown sections are the narrowed sections in the course's order with the empty ones dropped, for every query |
| `TopicFilter.FilterTopics` | src/App.jsx:268-271 | the kept topics are never more than the section had |
| `TopicFilter.FilterTopicsMembers` | src/App.jsx:268-271 | a topic is kept exactly when it is in the section and its title or English explanation contains the query, ignoring case |
| `TopicFilter.FilterTopicsAppend` | src/App.jsx:268-271 | filtering a concatenation filters each part, so topic order is kept |
| `TopicFilter.FilteredTopicsInOrder` | src/App.jsx:266-272 | the topics of the filtered sections, read in order, are exactly the matching topics of the course in course order |
| `TopicFilter.FilterSoundAndComplete` | src/App.jsx:266-272 | every shown topic matches and every matching topic of the course is shown |
| `TopicFilter.FilteredSectionsShape` | src/App.jsx:266-272 | no shown section is empty, and each is a course section with only its topic list narrowed |
| `TopicFilter.MatchesEmpty` | src/App.jsx:269-270 | every topic matches the empty query |
| `TopicFilter.FilterTopicsEmptyQuery` | src/App.jsx:268-271 | the empty query keeps every topic of a section |
| `TopicFilter.EmptyQueryKeepsAll` | src/App.jsx:266-272 | the empty query shows every topic and drops only sections that had no topics |
| `TopicFilter.NonEmptySectionsIdentity` | src/App.jsx:272 | when no section is empty, dropping empty sections changes nothing |
| `TopicFilter.QueryCaseIrrelevant` | src/App.jsx:269-270 | filtering with the lower-cased query gives the same sections as with the query |
| `TopicFilter.TopicsCaseIrrelevant` | src/App.jsx:268-271 | the same, for one section's topics |
| `TopicFilter.UpperCaseQueryFindsTitle` | src/App.jsx:269 | the query "REACT" matches a topic titled "Intro to react hooks" |
| `Progress.Remove` | src/App.jsx:233 | removing an id leaves exactly the other ids, never lengthens the list, and shortens it when the id was there |
| `Progress.RemoveCounts` | src/App.jsx:233 | every other id occurs after the removal exactly as often as before |
| `Progress.Toggle` | src/App.jsx:229-243 | a toggle flips the id's membership, leaves every other id's membership alone, and an absent id is appended at the end |
| `Progress.BookmarkToast` | src/App.jsx:231-232 | the bookmark toast text, chosen by whether the id was bookmarked before; related to the toggle by `ToastRules` |
| `Progress.CompleteToast` | src/App.jsx:239-240 | the completion toast, raised only when the id was not complete before; related to the toggle by `ToastRules` |
| `Progress.ToastRules` | src/App.jsx:229-243 | the bookmark toast says "Removed from bookmarks" exactly when the toggle takes the id out; the completion toast appears exactly when the toggle puts the id in |
| `Progress.RemoveAbsent` | src/App.jsx:233 | removing an id that is not there changes nothing |
| `Progress.RemoveAppend` | src/App.jsx:233 | removing from a concatenation removes from each part |
| `Progress.ToggleTwiceRestores` | src/App.jsx:229-243 | toggling twice from a list without the id gives the list back |
| `Progress.ToggleTwiceMovesToEnd` | src/App.jsx:229-243 | toggling twice from a list with the id leaves one copy of it at the end |
| `Progress.RemoveKeepsOrder` | src/App.jsx:233 | the ids that survive a removal keep their relative order |
| `Progress.RemoveSplit` | src/App.jsx:233 | removal around a surviving id splits into removal before it, the id, and removal after it |
| `Progress.RemoveKeepsDistinct` | src/App.jsx:233 | removal keeps a list free of repeated ids |
| `Progress.ToggleKeepsDistinct` | src/App.jsx:229-243 | a toggle keeps a list free of repeated ids |
| `Progress.TotalTopics` | src/App.jsx:258 | the `reduce` sum of the sections' topic counts; stated to be the number of topics by `TotalTopicsCounts` |
| `Progress.TotalTopicsCounts` | src/App.jsx:258 | `totalTopics` is the number of topics of the course |
| `Progress.InCourse` | src/App.jsx:261 | `sections.some(s => s.topics.some(t => t.id === id))`; its meaning is stated by `InCourseIffTopicId` |
| `Progress.InCourseIffTopicId` | src/App.jsx:261 | the nested `some` holds exactly when the id is the id of one of the course's topics |
| `Progress.InCourseHeadTail` | src/App.jsx:261 | the outer `some` holds exactly when the first section or one of the others holds the id |
| `Progress.CompletedOfCourse` | src/App.jsx:260-262 | the filtered list holds exactly the completed ids that occur in the course, and is never longer than the completion list |
| `Progress.CompletedOfCourseCounts` | src/App.jsx:260-262 | every id of the course occurs in the filtered list exactly as often as in the completion list, repeats included; any other id not at all |
| `Progress.CompletedOfCourseAppend` | src/App.jsx:260-262 | filtering a concatenation filters each part, so the kept ids keep their order |
| `Progress.CompletedCount` | src/App.jsx:260-262 | `currentCourseCompleted` never exceeds the length of the completion list |
| `Progress.RepeatCountsTwice` | src/App.jsx:260-262 | `.length` counts repeats: a course id completed twice counts as two |
| `Progress.CompletedOfCourseDistinct` | src/App.jsx:260-262 | filtering keeps a repetition-free list repetition-free |
| `Progress.DistinctSubsetBound` | src/App.jsx:260-262 | a repetition-free list drawn from another list's elements is no longer than it |
| `Progress.CompletedBound` | src/App.jsx:258-262 | with no repeated completed ids, the course's completed count is at most its topic count |
| `Progress.Percentage` | src/App.jsx:264 | 0 with no topics; otherwise 100 * done / total rounded to the nearest integer, halves up; at most 100 when done <= total |
| `Progress.PercentageExamples` | src/App.jsx:264 | one of four done is 25; no topics is 0 |
| `Progress.PercentageEnds` | src/App.jsx:264 | all topics done is 100, none done is 0 |
| `Progress.QuotientUnique` | src/App.jsx:264 | the rounded percentage is the only value in its rounding bracket |
| `Progress.ProgressPercentage` | src/App.jsx:258-264 | 0 when no course is shown, and never above 100 while the completion list has no repeats |
| `Highlight.SplitLines` | src/App.jsx:30 | `split('\n')` always yields at least one line |
| `Highlight.SplitLinesSpec` | src/App.jsx:30 | one line more than there are line breaks, no line holds a break, and joining the lines with breaks gives the text back |
| `Highlight.JoinThenSplit` | src/App.jsx:30 | joining break-free lines and splitting again gives the lines back |
| `Highlight.SplitLineWithoutBreak` | src/App.jsx:30 | a break-free first line is split off unchanged |
| `Highlight.WordRun` | src/App.jsx:31 | the greedy `\w+` run stays inside the line |
| `Highlight.WordRunSpec` | src/App.jsx:31 | the run is all word characters and is followed by a non-word character or the end |
| `Highlight.FirstWordAt` | src/App.jsx:31 | a word found at a position has positive length and fits in the line |
| `Highlight.FirstWordAtSpec` | src/App.jsx:31 | nothing is found exactly when no listed word occurs there; otherwise the length is that of a word that occurs |
| `Highlight.FirstWordAtText` | src/App.jsx:31 | the text a found word covers is one of the listed words |
| `Highlight.MatchAt` | src/App.jsx:31 | a match at a position is non-empty and fits in the line; `AnnotationForcesMatch` and `WordForcesMatch` say where it must match |
| `Highlight.AnnotationText` | src/App.jsx:31 | '@' followed by its greedy run of word characters is `@\w+` text |
| `Highlight.PatternWordsNonEmpty` | src/App.jsx:31 | none of the pattern's words is empty |
| `Highlight.MatchAtText` | src/App.jsx:31 | matched text is `@` followed by word characters, or one of the pattern's words |
| `Highlight.WordForcesMatch` | src/App.jsx:31 | wherever one of the pattern's words occurs, the pattern matches |
| `Highlight.AnnotationForcesMatch` | src/App.jsx:31 | an '@' followed by a word character always matches `@\w+`, and the match takes the whole run of word characters after it |
| `Highlight.NoMatchNoWord` | src/App.jsx:31 | where the pattern does not match, none of its words starts |
| `Highlight.MatchTable` | src/App.jsx:31 | the pattern's match at each position of the line is non-empty and ends inside the line |
| `Highlight.MatchTableText` | src/App.jsx:31 | every match in the line's table spells `@\w+` text or one of the words |
| `Highlight.MatchTableNoWord` | src/App.jsx:31 | at every position without a match, none of the words starts |
| `Highlight.MatchTableIsPatternTable` | src/App.jsx:31 | the line's table has the properties above, including that every '@' followed by a word character starts a maximal `@\w+` match |
| `Highlight.MatchTableAnnotations` | src/App.jsx:31 | in the line's table every '@' followed by a word character starts a maximal `@\w+` match |
| `Highlight.SplitFrom` | src/App.jsx:31 | `split` with a capturing pattern: the text before the leftmost match, the match, then the same for the rest; its meaning is stated by `SplitFromIsWellSplit` and `WellSplitUnique` |
| `Highlight.SplitLine` | src/App.jsx:31 | the split of a whole line by the pattern; stated by `SplitLineSpec` |
| `Highlight.SplitFromIsWellSplit` | src/App.jsx:31 | the split cuts at leftmost matches: gaps contain no match start, each match is the one found right after its gap, the last gap reaches the end |
| `Highlight.WellSplitStep` | src/App.jsx:31 | two leftmost splits agree on the first gap and the match after it, and go on as splits of the same rest |
| `Highlight.FirstPieceShortest` | src/App.jsx:31 | the first gap of a leftmost split ends at the first match |
| `Highlight.WellSplitUnique` | src/App.jsx:31 | the leftmost split of a line is unique |
| `Highlight.WellSplitPieces` | src/App.jsx:31 | the pieces concatenate to the line and are odd in number |
| `Highlight.WellSplitMatches` | src/App.jsx:31 | the pieces at odd positions are pattern matches |
| `Highlight.SplitIsTheWellSplit` | src/App.jsx:31 | any leftmost split of a whole line is the split computed |
| `Highlight.SplitLineSpec` | src/App.jsx:31-41 | the split of a whole line is its leftmost split, spells the line, alternates gaps and matches, and no gap is coloured as a keyword or arrow |
| `Highlight.Classify` | src/App.jsx:36-41 | `startsWith('@')` first, then the keyword list, then `=>`, else plain; what that gives for matches and gaps is stated by `MatchedPieceKind` and `GapPieceKind` |
| `Highlight.MatchedPieceKind` | src/App.jsx:36-41 | a matched piece is never plain: `@word` is an annotation, a keyword a keyword, `=>` an arrow |
| `Highlight.GapHoldsNoWord` | src/App.jsx:31 | text with no match starting inside it is none of the pattern's words |
| `Highlight.GapPieceKind` | src/App.jsx:36-41 | a piece between matches is plain or, when it starts with '@', an annotation; never a keyword or arrow |
| `Highlight.GapPieceNoAnnotation` | src/App.jsx:31 | no piece between matches holds an '@' followed by a word character |
| `Highlight.GapHoldsNoAnnotation` | src/App.jsx:31 | text with no match starting inside it holds no '@' followed by a word character |
| `Highlight.SplitLineGaps` | src/App.jsx:31 | in a line's split every '@' followed by a word character is cut out as a match of its own, never left inside plain text |
| `Highlight.Tokens` | src/App.jsx:31-42 | one token per piece of the line, carrying that piece's text and the kind the colouring rule gives it |
| `Highlight.TokenKinds` | src/App.jsx:31-41 | in a line's tokens every matched piece is coloured (never plain), and every piece between matches is plain or an annotation |
| `Highlight.RowSpec` | src/App.jsx:30-44 | a row rendered from a line spells that line, and its tokens are coloured as above |
| `Highlight.HighlightCode` | src/App.jsx:28-47 | nothing exactly for empty text; otherwise one row per line of `split('\n')` |
| `Highlight.HighlightCodeSpec` | src/App.jsx:28-47 | empty text gives nothing; otherwise a row per line numbered from 1, each row the tokens of its line, spelling that line and coloured as above, and the lines rejoined spell the text |
| `Highlight.WordInitials` | src/App.jsx:31 | every pattern word begins with one of `pcvsrnfil=` |
| `Highlight.NoMatchWithoutInitial` | src/App.jsx:31 | no match starts at a character that begins no alternative |
| `Highlight.KeywordInsideIdentifier` | src/App.jsx:31 | without word boundaries "classy" splits into "", "class", "y" and "class" is coloured as a keyword |
| `Highlight.ClassyMatches` | src/App.jsx:31 | in "classy" the pattern matches "class" at the start and nothing at the final "y" |
| `Highlight.ClassyWellSplit` | src/App.jsx:31 | with those matches, "", "class", "y" is the leftmost split of "classy" |
| `Highlight.BareAtIsAnnotation` | src/App.jsx:37 | "@ x" is one piece, yet it is coloured as an annotation because it starts with '@' |
| `Highlight.BareAtMatches` | src/App.jsx:31 | the pattern matches nowhere in "@ x" |
| `Highlight.BareAtWellSplit` | src/App.jsx:31 | with no matches, the whole line is the leftmost split of "@ x" |
| `Highlight.IndentedAnnotation` | src/App.jsx:31-41 | "  @Ab" splits into "  ", "@Ab", "", and the annotation is coloured |
| `Viewer.App.constructor` | src/App.jsx:104-115 | the initial state: empty query, lists and tab map, hidden toast, no courses, loading, no active course |
| `Viewer.ExplanationText` | src/App.jsx:569 | `topic.explanations[lang]`: the English explanation is always there, the Hinglish one only when the topic has it |
| `Viewer.CodeExplanationText` | src/App.jsx:573-592 | a code explanation is given only for a topic with both a code sample and code explanations, and for such a topic it is the chosen language's entry |
| `Viewer.App.Content` | src/App.jsx:174 | `contentData`: no course exactly when the catalog is empty |
| `Viewer.App.VisibleSections` | src/App.jsx:266-272 | `filteredSections` of the shown course, none without a course; what it holds is stated by `SetSearchQuery` and `SelectCourse` |
| `Viewer.App.CurrentLang` | src/App.jsx:496 | `activeTab[topic.id] \|\| 'english'`: the chosen language, English when none was chosen; updated by `SetTopicTab` |
| `Viewer.App.ShownExplanation` | src/App.jsx:569 | the explanation shown under a topic: the English one while no tab was chosen or the English tab is chosen, the Hinglish field when Hinglish is chosen |
| `Viewer.App.ShownCodeExplanation` | src/App.jsx:583-591 | the code explanation shown under a topic: only for a topic with code and code explanations, and for such a topic the entry of its current language, English while no tab was chosen |
| `Viewer.App.ProgressShown` | src/App.jsx:264 | the shown percentage never exceeds 100 while the state is valid |
| `Viewer.App.LoadCourses` | src/App.jsx:118-171 | on success the catalog is the four bundles joined and the active id the initial selection (a course of a non-empty catalog); on failure the error toast shows and the catalog and id stay; loading ends; nothing else changes |
| `Viewer.App.ToggleBookmark` | src/App.jsx:229-235 | the bookmarks become the toggled list, the toast says which way it went, no repeated ids, nothing else changes |
| `Viewer.App.ToggleComplete` | src/App.jsx:237-243 | the completed list becomes the toggled list, the toast changes only when the topic becomes complete, nothing else changes |
| `Viewer.App.SetTopicTab` | src/App.jsx:245-247 | that topic's current language becomes the chosen one and its explanation and code explanation are shown in it, every other topic's stays, nothing else changes |
| `Viewer.App.SelectCourse` | src/App.jsx:367-370 | the course becomes active and the query empty, the page shows that course, and every non-empty section of it is visible |
| `Viewer.App.SetSearchQuery` | src/App.jsx:396 | the query is set and the visible topics are exactly the shown course's topics that match it |
| `Viewer.App.DismissToast` | src/App.jsx:276 | the toast is hidden with its message kept, nothing else changes |

## Left out

- Network fetching (`fetch`, `Promise.all`, `res.ok`, `res.json`): the outcome of the four requests is the parameter of `LoadCourses`; a bundle whose JSON is not a course or a list of courses is not modelled.
- `localStorage` and `JSON.parse` of persisted values: the saved course id is a parameter of `LoadCourses`; restoring the bookmark and completion lists, and writing any value back, is not modelled, so both lists start empty.
- Viewer.App.LoadCourses: the intermediate `isLoading = true` while the requests are in flight is not observable, since the load is one method.
- Toast timers, the clipboard copy in the code block, the resize listener and the sidebar, `scrollToElement`, the dark-mode switch and `document.documentElement.classList`: browser APIs, timing and presentation.
- All JSX markup, CSS class strings and `getIconComponent`: presentation.
- Progress.Percentage: exact integer arithmetic, (200 * done + total) div (2 * total); the floating-point `Math.round((done / total) * 100)` can differ on values whose exact result is a half.
- TextSearch.Lower: lower-cases ASCII letters only, not the full Unicode mapping of `toLowerCase`.
- Progress.ProgressPercentage: the bound of 100 is proved only for a completion list without repeated ids, which the model's handlers keep; a persisted list with repeats could exceed it.
- A course without `sections` is represented with an empty section list; every derived value is the same for both. A topic without `explanations.english`, on which the search fails when its title does not contain the query, is not representable.
- Highlight.HighlightCodeSpec: code content is a string; an absent `content`, which `highlightCode` also renders as nothing, is not represented.
- React may call the toggles' state updater functions twice in development mode; the second call sets the same toast and computes the same list, so the state is the same, and the model calls each once.
- Viewer.CodeExplanationText: when the chosen language's code explanation is missing, the source still renders the box with its "Code Explanation (Hinglish)" heading and empty text; the model gives `None` for that case as for a topic with no box, so it does not tell the two apart.
