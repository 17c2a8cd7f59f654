/** `filteredSections`: the sections of the shown course narrowed to the
    topics that match the search query, with sections left empty dropped. */
module TopicFilter {
  import opened CourseModel
  import opened TextSearch

  /** A topic matches when its lower-cased title or lower-cased English
      explanation contains the lower-cased query. */
  predicate Matches(t: Topic, query: string) {
    Contains(Lower(t.title), Lower(query)) || Contains(Lower(t.explanations.english), Lower(query))
  }

  /** `topics.filter(...)`: the matching topics, in their order. */
  function FilterTopics(ts: seq<Topic>, query: string): (r: seq<Topic>)
    ensures |r| <= |ts|
  {
    if ts == [] then []
    else (if Matches(ts[0], query) then [ts[0]] else []) + FilterTopics(ts[1..], query)
  }

  /** The section with its topics narrowed to the matching ones (the `map` step). */
  function Narrow(s: Section, query: string): Section {
    s.(topics := FilterTopics(s.topics, query))
  }

  /** `sections.map(narrow).filter(s => s.topics.length > 0)`. */
  function FilteredSections(sections: seq<Section>, query: string): (r: seq<Section>)
    ensures |r| <= |sections|
  {
    if sections == [] then []
    else
      var s := Narrow(sections[0], query);
      (if |s.topics| > 0 then [s] else []) + FilteredSections(sections[1..], query)
  }

  /** The `map` step over every section: each section narrowed, in the same order. */
  function NarrowAll(sections: seq<Section>, query: string): (r: seq<Section>)
    ensures |r| == |sections|
    ensures forall k :: 0 <= k < |r| ==> r[k] == Narrow(sections[k], query)
  {
    seq(|sections|, k requires 0 <= k < |sections| => Narrow(sections[k], query))
  }

  /** Reference definition of the `filter` step: the sections that have topics, in order. */
  function NonEmptySections(sections: seq<Section>): seq<Section> {
    if sections == [] then []
    else (if |sections[0].topics| > 0 then [sections[0]] else []) + NonEmptySections(sections[1..])
  }

  /** A topic is kept exactly when it is in the input and matches. */
  lemma {:induction false} FilterTopicsMembers(ts: seq<Topic>, query: string, t: Topic)
    ensures t in FilterTopics(ts, query) <==> t in ts && Matches(t, query)
  {
    if ts != [] {
      FilterTopicsMembers(ts[1..], query, t);
      assert t in ts <==> t == ts[0] || t in ts[1..];
    }
  }

  /** Filtering a concatenation filters each part: the relative order of topics is kept. */
  lemma {:induction false} FilterTopicsAppend(a: seq<Topic>, b: seq<Topic>, query: string)
    ensures FilterTopics(a + b, query) == FilterTopics(a, query) + FilterTopics(b, query)
  {
    if a == [] {
      assert a + b == b;
    } else {
      var head := if Matches(a[0], query) then [a[0]] else [];
      assert (a + b)[0] == a[0];
      assert (a + b)[1..] == a[1..] + b;
      assert FilterTopics(a + b, query) == head + FilterTopics(a[1..] + b, query);
      FilterTopicsAppend(a[1..], b, query);
      assert FilterTopics(a, query) == head + FilterTopics(a[1..], query);
    }
  }

  /** Reading the kept topics section by section gives exactly the matching topics
      of the whole course in their original order: nothing that matches is lost,
      nothing that does not match is kept, and the order is the course's. */
  lemma {:induction false} FilteredTopicsInOrder(sections: seq<Section>, query: string)
    ensures AllTopics(FilteredSections(sections, query)) == FilterTopics(AllTopics(sections), query)
  {
    if sections != [] {
      var s := Narrow(sections[0], query);
      var head: seq<Section> := if |s.topics| > 0 then [s] else [];
      FilteredTopicsInOrder(sections[1..], query);
      AllTopicsAppend(head, FilteredSections(sections[1..], query));
      FilterTopicsAppend(sections[0].topics, AllTopics(sections[1..]), query);
      assert AllTopics(head) == s.topics by {
        if head != [] {
          assert AllTopics(head[1..]) == [];
        }
      }
    }
  }

  /** Every kept topic matches the query, and every matching topic of the course is kept. */
  lemma FilterSoundAndComplete(sections: seq<Section>, query: string, t: Topic)
    ensures t in AllTopics(FilteredSections(sections, query)) <==> t in AllTopics(sections) && Matches(t, query)
  {
    FilteredTopicsInOrder(sections, query);
    FilterTopicsMembers(AllTopics(sections), query, t);
  }

  /** No section of the result is empty, and each one is an input section with
      only its topic list narrowed. */
  lemma {:induction false} FilteredSectionsShape(sections: seq<Section>, query: string)
    ensures forall s :: s in FilteredSections(sections, query) ==> |s.topics| > 0
    ensures forall s :: s in FilteredSections(sections, query) ==>
      exists k :: 0 <= k < |sections| && s == Narrow(sections[k], query)
  {
    if sections != [] {
      FilteredSectionsShape(sections[1..], query);
      forall s | s in FilteredSections(sections[1..], query)
        ensures exists k :: 0 <= k < |sections| && s == Narrow(sections[k], query)
      {
        var k :| 0 <= k < |sections| - 1 && s == Narrow(sections[1..][k], query);
        assert s == Narrow(sections[k + 1], query);
      }
    }
  }

  /** The filtered sections are the narrowed sections, in the course's order,
      with the empty ones dropped: the `map` and then the `filter` of the source. */
  lemma {:induction false} FilteredSectionsMapFilter(sections: seq<Section>, query: string)
    ensures FilteredSections(sections, query) == NonEmptySections(NarrowAll(sections, query))
  {
    if sections != [] {
      var all := NarrowAll(sections, query);
      assert all[0] == Narrow(sections[0], query);
      assert all[1..] == NarrowAll(sections[1..], query);
      FilteredSectionsMapFilter(sections[1..], query);
    }
  }

  /** A topic matches the empty query. */
  lemma MatchesEmpty(t: Topic)
    ensures Matches(t, "")
  {
    ContainsEmpty(Lower(t.title));
  }

  /** With the empty query every topic is kept. */
  lemma {:induction false} FilterTopicsEmptyQuery(ts: seq<Topic>)
    ensures FilterTopics(ts, "") == ts
  {
    if ts != [] {
      MatchesEmpty(ts[0]);
      FilterTopicsEmptyQuery(ts[1..]);
    }
  }

  /** The empty query keeps every topic and drops only the sections that had none. */
  lemma {:induction false} EmptyQueryKeepsAll(sections: seq<Section>)
    ensures FilteredSections(sections, "") == NonEmptySections(sections)
  {
    if sections != [] {
      FilterTopicsEmptyQuery(sections[0].topics);
      assert Narrow(sections[0], "") == sections[0];
      EmptyQueryKeepsAll(sections[1..]);
    }
  }

  /** Sections that all have topics come back unchanged from the empty query. */
  lemma {:induction false} NonEmptySectionsIdentity(sections: seq<Section>)
    requires forall k :: 0 <= k < |sections| ==> |sections[k].topics| > 0
    ensures NonEmptySections(sections) == sections
  {
    if sections != [] {
      NonEmptySectionsIdentity(sections[1..]);
    }
  }

  /** The query's letter case does not matter. */
  lemma {:induction false} QueryCaseIrrelevant(sections: seq<Section>, query: string)
    ensures FilteredSections(sections, Lower(query)) == FilteredSections(sections, query)
  {
    LowerIdempotent(query);
    if sections != [] {
      assert FilterTopics(sections[0].topics, Lower(query)) == FilterTopics(sections[0].topics, query) by {
        TopicsCaseIrrelevant(sections[0].topics, query);
      }
      QueryCaseIrrelevant(sections[1..], query);
    }
  }

  lemma {:induction false} TopicsCaseIrrelevant(ts: seq<Topic>, query: string)
    ensures FilterTopics(ts, Lower(query)) == FilterTopics(ts, query)
  {
    LowerIdempotent(query);
    if ts != [] {
      TopicsCaseIrrelevant(ts[1..], query);
    }
  }

  /** A query in capitals finds a topic whose title has the word in lower case. */
  lemma UpperCaseQueryFindsTitle(t: Topic)
    requires t.title == "Intro to react hooks"
    ensures Matches(t, "REACT")
  {
    var q := Lower("REACT");
    LowerSpec("REACT");
    LowerSpec(t.title);
    assert LowerChar('R') == 'r' && LowerChar('E') == 'e' && LowerChar('A') == 'a';
    assert LowerChar('C') == 'c' && LowerChar('T') == 't';
    assert q == "react";
    var title := Lower(t.title);
    assert title[9..14] == "react";
    assert OccursAt(title, q, 9);
    ContainsIffWindow(title, q);
  }
}
