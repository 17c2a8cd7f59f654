/** The catalog of courses built from the four fetched bundles, the course
    selected when the catalog arrives, and the course the page shows. */
module Catalog {
  import opened CourseModel

  /** `normalizeData`: an array bundle is kept as it is, a single course
      becomes a one-element list. */
  function Normalize(b: Bundle): seq<Course> {
    match b
    case Many(cs) => cs
    case Single(c) => [c]
  }

  /** The catalog: the Spring Boot, React, JavaScript and Core Java bundles,
      normalised and concatenated in that order. */
  function BuildCatalog(springBoot: Bundle, react: Bundle, javascript: Bundle, coreJava: Bundle): seq<Course> {
    Normalize(springBoot) + Normalize(react) + Normalize(javascript) + Normalize(coreJava)
  }

  /** An array bundle contributes its own courses in its own order, a single
      course contributes exactly itself, and normalising is idempotent. */
  lemma NormalizeShape(b: Bundle)
    ensures Normalize(Many(Normalize(b))) == Normalize(b)
    ensures b.Single? ==> Normalize(b) == [b.course] && |Normalize(b)| == 1
    ensures b.Many? ==> Normalize(b) == b.courses
  {
  }

  /** Each bundle occupies its own contiguous block of the catalog, the blocks in
      the fixed endpoint order, each keeping its bundle's internal order. */
  lemma CatalogLayout(springBoot: Bundle, react: Bundle, javascript: Bundle, coreJava: Bundle)
    ensures var cat := BuildCatalog(springBoot, react, javascript, coreJava);
      var s, r, j, c := Normalize(springBoot), Normalize(react), Normalize(javascript), Normalize(coreJava);
      && |cat| == |s| + |r| + |j| + |c|
      && (forall k :: 0 <= k < |s| ==> cat[k] == s[k])
      && (forall k :: 0 <= k < |r| ==> cat[|s| + k] == r[k])
      && (forall k :: 0 <= k < |j| ==> cat[|s| + |r| + k] == j[k])
      && (forall k :: 0 <= k < |c| ==> cat[|s| + |r| + |j| + k] == c[k])
  {
  }

  /** A course is in the catalog exactly when one of the four bundles contributes it. */
  lemma CatalogMembership(springBoot: Bundle, react: Bundle, javascript: Bundle, coreJava: Bundle, course: Course)
    ensures course in BuildCatalog(springBoot, react, javascript, coreJava) <==>
      course in Normalize(springBoot) || course in Normalize(react) ||
      course in Normalize(javascript) || course in Normalize(coreJava)
  {
  }

  /** `Array.prototype.find` over the courses by id: the first course whose id matches. */
  function FindById(courses: seq<Course>, id: string): (r: Option<Course>)
    ensures r.None? <==> forall k :: 0 <= k < |courses| ==> courses[k].id != id
    ensures r.Some? ==> exists k :: FirstWithId(courses, id, k) && courses[k] == r.value
  {
    if courses == [] then None
    else if courses[0].id == id then Some(courses[0])
    else
      var r := FindById(courses[1..], id);
      assert r.Some? ==> exists k :: FirstWithId(courses, id, k) && courses[k] == r.value
      by {
        if r.Some? {
          var k :| FirstWithId(courses[1..], id, k) && courses[1..][k] == r.value;
          assert FirstWithId(courses, id, k + 1);
        }
      }
      assert r.None? ==> forall k :: 1 <= k < |courses| ==> courses[k] == courses[1..][k - 1];
      r
  }

  /** `k` is the first position of a course with this id. */
  predicate FirstWithId(courses: seq<Course>, id: string, k: int) {
    0 <= k < |courses| && courses[k].id == id && forall j :: 0 <= j < k ==> courses[j].id != id
  }

  /** Whether the catalog holds a course with this id. */
  predicate HasCourse(courses: seq<Course>, id: string) {
    exists k :: 0 <= k < |courses| && courses[k].id == id
  }

  /** The active course id chosen once the catalog has arrived: the saved id if
      some course has it, otherwise the first course's id, otherwise the current
      id is kept (the source does not call the setter then). */
  function InitialSelection(courses: seq<Course>, saved: Option<string>, current: string): (sel: string)
    ensures saved.Some? && HasCourse(courses, saved.value) ==> sel == saved.value
    ensures !(saved.Some? && HasCourse(courses, saved.value)) && courses != [] ==> sel == courses[0].id
    ensures !(saved.Some? && HasCourse(courses, saved.value)) && courses == [] ==> sel == current
  {
    var savedExists := if saved.Some? then FindById(courses, saved.value) else None;
    if savedExists.Some? then saved.value
    else if |courses| > 0 then courses[0].id
    else current
  }

  /** `contentData`: the first course with the active id, falling back to the
      first course of the catalog; absent only when the catalog is empty. */
  function ContentData(courses: seq<Course>, activeId: string): (r: Option<Course>)
    ensures r.None? <==> courses == []
    ensures HasCourse(courses, activeId) ==>
      r.Some? && exists k :: FirstWithId(courses, activeId, k) && courses[k] == r.value
    ensures !HasCourse(courses, activeId) && courses != [] ==> r == Some(courses[0])
  {
    var found := FindById(courses, activeId);
    if found.Some? then found
    else if |courses| > 0 then Some(courses[0])
    else None
  }

  /** After loading, a non-empty catalog always has a selected course that it
      contains, and the page shows the saved course when the catalog has it,
      otherwise the first course. */
  lemma {:induction false} SelectionShowsCourse(courses: seq<Course>, saved: Option<string>, current: string)
    requires courses != []
    ensures HasCourse(courses, InitialSelection(courses, saved, current))
    ensures var shown := ContentData(courses, InitialSelection(courses, saved, current));
      && shown.Some?
      && (saved.Some? && HasCourse(courses, saved.value) ==> shown.value.id == saved.value)
      && (!(saved.Some? && HasCourse(courses, saved.value)) ==> shown.value == courses[0])
  {
    var sel := InitialSelection(courses, saved, current);
    if !(saved.Some? && HasCourse(courses, saved.value)) {
      assert courses[0].id == sel;
      var shown := ContentData(courses, sel);
      assert FindById(courses, sel) == Some(courses[0]);
      assert shown == Some(courses[0]);
    }
  }

}
