/** The state of the `App` component and its handlers: loading the catalog,
    switching course, searching, toggling bookmarks and completion, choosing a
    topic's explanation language and dismissing the toast. */
module Viewer {
  import opened CourseModel
  import opened Catalog
  import opened TopicFilter
  import opened Progress

  datatype Toast = Toast(show: bool, message: string)

  const LoadFailedMessage: string := "Failed to load course data. Please refresh the page."

  /** What the four requests gave: the four parsed bundles, or a failure (a
      response that is not ok, a network error or a body that is not JSON). */
  datatype FetchOutcome =
    | Fetched(springBoot: Bundle, react: Bundle, javascript: Bundle, coreJava: Bundle)
    | FetchFailed

  /** The text of a topic's explanation in a language: the English one is always
      there, the Hinglish one only when the topic has it. */
  function ExplanationText(t: Topic, lang: Lang): (r: Option<string>)
    ensures lang == English ==> r == Some(t.explanations.english)
    ensures lang == Hinglish ==> r == t.explanations.hinglish
  {
    match lang
    case English => Some(t.explanations.english)
    case Hinglish => t.explanations.hinglish
  }

  /** The code explanation shown under a topic's code sample: only when the topic
      has both a code sample and code explanations, and then in the chosen language. */
  function CodeExplanationText(t: Topic, lang: Lang): (r: Option<string>)
    ensures r.Some? ==> t.code.Some? && t.codeExplanations.Some?
    ensures t.code.Some? && t.codeExplanations.Some? ==>
      r == (if lang == English then t.codeExplanations.value.english else t.codeExplanations.value.hinglish)
  {
    if t.code.None? || t.codeExplanations.None? then None
    else match lang
      case English => t.codeExplanations.value.english
      case Hinglish => t.codeExplanations.value.hinglish
  }

  class App {
    var searchQuery: string
    var bookmarks: seq<string>
    var completedTopics: seq<string>
    /** The explanation language chosen per topic id. */
    var activeTab: map<string, Lang>
    var toast: Toast
    var courses: seq<Course>
    var isLoading: bool
    var activeCourseId: string

    /** The two progress lists never hold an id twice. */
    ghost predicate Valid()
      reads this
    {
      NoDup(bookmarks) && NoDup(completedTopics)
    }

    /** The initial state: nothing loaded yet, loading, no course selected. */
    constructor ()
      ensures Valid()
      ensures searchQuery == "" && bookmarks == [] && completedTopics == [] && activeTab == map[]
      ensures toast == Toast(false, "") && courses == [] && isLoading && activeCourseId == ""
    {
      searchQuery := "";
      bookmarks := [];
      completedTopics := [];
      activeTab := map[];
      toast := Toast(false, "");
      courses := [];
      isLoading := true;
      activeCourseId := "";
    }

    /** `contentData`: the course on screen. */
    function Content(): (r: Option<Course>)
      reads this
      ensures r.None? <==> courses == []
    {
      ContentData(courses, activeCourseId)
    }

    /** `filteredSections` of the course on screen (none when there is no course). */
    function VisibleSections(): seq<Section>
      reads this
    {
      match Content()
      case None => []
      case Some(c) => FilteredSections(c.sections, searchQuery)
    }

    /** `progressPercentage` of the course on screen. */
    function ProgressShown(): (p: nat)
      reads this
      ensures Valid() ==> p <= 100
    {
      ProgressPercentage(completedTopics, Content())
    }

    /** The language tab shown for a topic: the chosen one, English when none was chosen. */
    function CurrentLang(topicId: string): Lang
      reads this
    {
      if topicId in activeTab then activeTab[topicId] else English
    }

    /** The explanation shown under a topic, in the topic's current language. */
    function ShownExplanation(t: Topic): (r: Option<string>)
      reads this
      ensures t.id !in activeTab ==> r == Some(t.explanations.english)
      ensures CurrentLang(t.id) == English ==> r == Some(t.explanations.english)
      ensures CurrentLang(t.id) == Hinglish ==> r == t.explanations.hinglish
    {
      ExplanationText(t, CurrentLang(t.id))
    }

    /** The code explanation shown under a topic, in the topic's current language. */
    function ShownCodeExplanation(t: Topic): (r: Option<string>)
      reads this
      ensures r.Some? ==> t.code.Some? && t.codeExplanations.Some?
      ensures t.code.Some? && t.codeExplanations.Some? && CurrentLang(t.id) == English ==>
        r == t.codeExplanations.value.english
      ensures t.code.Some? && t.codeExplanations.Some? && CurrentLang(t.id) == Hinglish ==>
        r == t.codeExplanations.value.hinglish
      ensures t.code.Some? && t.codeExplanations.Some? && t.id !in activeTab ==>
        r == t.codeExplanations.value.english
    {
      CodeExplanationText(t, CurrentLang(t.id))
    }

    /** The load effect: on success the catalog is set and then the active id is
        chosen; on failure the error toast is shown and the catalog stays as it
        was. Loading is over either way. */
    method LoadCourses(outcome: FetchOutcome, savedCourseId: Option<string>)
      requires Valid()
      modifies this
      ensures Valid() && !isLoading
      ensures outcome.Fetched? ==>
        && courses == BuildCatalog(outcome.springBoot, outcome.react, outcome.javascript, outcome.coreJava)
        && activeCourseId == InitialSelection(courses, savedCourseId, old(activeCourseId))
        && toast == old(toast)
      ensures outcome.Fetched? && courses != [] ==>
        Content().Some? && HasCourse(courses, activeCourseId)
      ensures outcome.FetchFailed? ==>
        && courses == old(courses) && activeCourseId == old(activeCourseId)
        && toast == Toast(true, LoadFailedMessage)
      ensures searchQuery == old(searchQuery) && bookmarks == old(bookmarks)
      ensures completedTopics == old(completedTopics) && activeTab == old(activeTab)
    {
      isLoading := true;
      match outcome {
        case Fetched(s, r, j, c) =>
          var catalog := BuildCatalog(s, r, j, c);
          var selected := InitialSelection(catalog, savedCourseId, activeCourseId);
          if catalog != [] {
            SelectionShowsCourse(catalog, savedCourseId, activeCourseId);
          }
          courses := catalog;
          activeCourseId := selected;
        case FetchFailed =>
          toast := Toast(true, LoadFailedMessage);
      }
      isLoading := false;
    }

    /** `toggleBookmark`: flips the id's membership and says which way it went. */
    method ToggleBookmark(topicId: string)
      requires Valid()
      modifies this
      ensures Valid()
      ensures bookmarks == Toggle(old(bookmarks), topicId)
      ensures topicId in bookmarks <==> topicId !in old(bookmarks)
      ensures toast == Toast(true, BookmarkToast(old(bookmarks), topicId))
      ensures toast.message == BookmarkRemoved <==> topicId in old(bookmarks)
      ensures completedTopics == old(completedTopics) && activeTab == old(activeTab)
      ensures searchQuery == old(searchQuery) && courses == old(courses)
      ensures activeCourseId == old(activeCourseId) && isLoading == old(isLoading)
    {
      var isBookmarked := topicId in bookmarks;
      toast := Toast(true, if isBookmarked then BookmarkRemoved else BookmarkAdded);
      ToggleKeepsDistinct(bookmarks, topicId);
      bookmarks := if isBookmarked then Remove(bookmarks, topicId) else bookmarks + [topicId];
    }

    /** `toggleComplete`: flips the id's membership; only marking a topic
        complete raises a toast. */
    method ToggleComplete(topicId: string)
      requires Valid()
      modifies this
      ensures Valid()
      ensures completedTopics == Toggle(old(completedTopics), topicId)
      ensures topicId in completedTopics <==> topicId !in old(completedTopics)
      ensures topicId !in old(completedTopics) ==> toast == Toast(true, TopicCompleted)
      ensures topicId in old(completedTopics) ==> toast == old(toast)
      ensures bookmarks == old(bookmarks) && activeTab == old(activeTab)
      ensures searchQuery == old(searchQuery) && courses == old(courses)
      ensures activeCourseId == old(activeCourseId) && isLoading == old(isLoading)
    {
      var isComplete := topicId in completedTopics;
      if !isComplete {
        toast := Toast(true, TopicCompleted);
      }
      ToggleKeepsDistinct(completedTopics, topicId);
      completedTopics := if isComplete then Remove(completedTopics, topicId) else completedTopics + [topicId];
    }

    /** `setTopicTab`: one topic's language changes, every other topic keeps its own. */
    method SetTopicTab(topicId: string, lang: Lang)
      requires Valid()
      modifies this
      ensures Valid()
      ensures activeTab == old(activeTab)[topicId := lang]
      ensures CurrentLang(topicId) == lang
      ensures forall t: Topic :: t.id == topicId ==> ShownExplanation(t) == ExplanationText(t, lang)
      ensures forall t: Topic :: t.id == topicId ==> ShownCodeExplanation(t) == CodeExplanationText(t, lang)
      ensures forall other :: other != topicId ==> CurrentLang(other) == old(CurrentLang(other))
      ensures bookmarks == old(bookmarks) && completedTopics == old(completedTopics)
      ensures toast == old(toast) && searchQuery == old(searchQuery) && courses == old(courses)
      ensures activeCourseId == old(activeCourseId) && isLoading == old(isLoading)
    {
      activeTab := activeTab[topicId := lang];
    }

    /** A click on a course in the sidebar: the course becomes active and the
        search is cleared, so every non-empty section of that course is shown. */
    method SelectCourse(courseId: string)
      requires Valid()
      modifies this
      ensures Valid()
      ensures activeCourseId == courseId && searchQuery == ""
      ensures HasCourse(courses, courseId) ==> Content().Some? && Content().value.id == courseId
      ensures Content().Some? ==> VisibleSections() == NonEmptySections(Content().value.sections)
      ensures bookmarks == old(bookmarks) && completedTopics == old(completedTopics)
      ensures activeTab == old(activeTab) && toast == old(toast)
      ensures courses == old(courses) && isLoading == old(isLoading)
    {
      activeCourseId := courseId;
      searchQuery := "";
      if Content().Some? {
        EmptyQueryKeepsAll(Content().value.sections);
      }
    }

    /** Typing in the search box. */
    method SetSearchQuery(query: string)
      requires Valid()
      modifies this
      ensures Valid()
      ensures searchQuery == query
      ensures forall t :: t in AllTopics(VisibleSections()) <==>
        Content().Some? && t in AllTopics(Content().value.sections) && Matches(t, query)
      ensures bookmarks == old(bookmarks) && completedTopics == old(completedTopics)
      ensures activeTab == old(activeTab) && toast == old(toast)
      ensures courses == old(courses) && activeCourseId == old(activeCourseId)
      ensures isLoading == old(isLoading)
    {
      searchQuery := query;
      if Content().Some? {
        forall t ensures t in AllTopics(VisibleSections()) <==> t in AllTopics(Content().value.sections) && Matches(t, query) {
          FilterSoundAndComplete(Content().value.sections, query, t);
        }
      }
    }

    /** The toast's close callback: hidden, message kept. */
    method DismissToast()
      requires Valid()
      modifies this
      ensures Valid()
      ensures toast == old(toast).(show := false)
      ensures bookmarks == old(bookmarks) && completedTopics == old(completedTopics)
      ensures activeTab == old(activeTab) && searchQuery == old(searchQuery)
      ensures courses == old(courses) && activeCourseId == old(activeCourseId)
      ensures isLoading == old(isLoading)
    {
      toast := toast.(show := false);
    }
  }

  /** Example: after loading, clicking a topic's bookmark button twice shows
      "Added" then "Removed" and leaves the bookmarks as they were, while the
      progress shown stays in range. */
  method BookmarkTwiceExample(outcome: FetchOutcome, topicId: string)
  {
    var app := new App();
    app.LoadCourses(outcome, None);
    var before := app.bookmarks;
    app.ToggleBookmark(topicId);
    assert app.toast.message == BookmarkAdded;
    app.ToggleBookmark(topicId);
    assert app.toast.message == BookmarkRemoved;
    ToggleTwiceRestores(before, topicId);
    assert app.bookmarks == before;
    assert app.ProgressShown() <= 100;
  }
}
