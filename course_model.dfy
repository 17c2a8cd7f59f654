/** The course data the viewer renders: a course holds sections, a section
    holds topics. A bundle fetched from one endpoint is either a single
    course object or an array of them. */
module CourseModel {

  datatype Option<+T> = None | Some(value: T)

  /** The two explanation languages a topic card can show. */
  datatype Lang = English | Hinglish

  /** `explanations`: the English text is always present (the search reads it),
      the Hinglish one may be missing. */
  datatype Explanations = Explanations(english: string, hinglish: Option<string>)

  /** `codeExplanations`: either language may be missing. */
  datatype CodeExplanations = CodeExplanations(english: Option<string>, hinglish: Option<string>)

  datatype CodeSample = CodeSample(title: string, language: string, content: string)

  datatype Topic = Topic(
    id: string,
    title: string,
    explanations: Explanations,
    code: Option<CodeSample>,
    codeExplanations: Option<CodeExplanations>,
    keyPoints: Option<seq<string>>)

  datatype Section = Section(id: string, title: string, intro: string, topics: seq<Topic>)

  /** A course whose `sections` field is missing is represented with no sections:
      every derived value of the viewer is the same for both. */
  datatype Course = Course(id: string, title: string, subtitle: string, icon: string, sections: seq<Section>)

  /** The top-level JSON value of one endpoint. */
  datatype Bundle = Single(course: Course) | Many(courses: seq<Course>)

  /** All topics of a list of sections, section by section, in order. */
  function AllTopics(sections: seq<Section>): seq<Topic>
  {
    if sections == [] then [] else sections[0].topics + AllTopics(sections[1..])
  }

  lemma {:induction false} AllTopicsAppend(a: seq<Section>, b: seq<Section>)
    ensures AllTopics(a + b) == AllTopics(a) + AllTopics(b)
  {
    if a == [] {
      assert a + b == b;
    } else {
      assert (a + b)[1..] == a[1..] + b;
      AllTopicsAppend(a[1..], b);
    }
  }

  /** The ids of a list of topics, in order. */
  function Ids(ts: seq<Topic>): (ids: seq<string>)
    ensures |ids| == |ts|
    ensures forall i :: 0 <= i < |ts| ==> ids[i] == ts[i].id
  {
    if ts == [] then [] else [ts[0].id] + Ids(ts[1..])
  }

  /** A list with no repeated element. */
  predicate NoDup<T(==)>(s: seq<T>) {
    forall i, j :: 0 <= i < j < |s| ==> s[i] != s[j]
  }
}
