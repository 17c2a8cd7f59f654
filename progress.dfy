/** The learner's progress: the bookmark and completion lists that the two
    toggles edit, the toast each toggle raises, and the progress figures of the
    shown course. */
module Progress {
  import opened CourseModel

  const BookmarkAdded: string := "Added to bookmarks"
  const BookmarkRemoved: string := "Removed from bookmarks"
  const TopicCompleted: string := "Topic marked as complete! \U{1F389}"

  /** `ids.filter(x => x !== id)`: every occurrence of id removed, the rest kept. */
  function Remove(ids: seq<string>, id: string): (r: seq<string>)
    ensures forall x :: x in r <==> x in ids && x != id
    ensures |r| <= |ids| && (id in ids ==> |r| < |ids|)
  {
    if ids == [] then []
    else
      var rest := Remove(ids[1..], id);
      assert ids == [ids[0]] + ids[1..];
      (if ids[0] == id then [] else [ids[0]]) + rest
  }

  /** Every other id occurs after the removal exactly as often as before. */
  lemma {:induction false} RemoveCounts(ids: seq<string>, id: string, x: string)
    requires x != id
    ensures multiset(Remove(ids, id))[x] == multiset(ids)[x]
  {
    if ids != [] {
      RemoveCounts(ids[1..], id, x);
      assert ids == [ids[0]] + ids[1..];
      assert multiset(ids) == multiset([ids[0]]) + multiset(ids[1..]);
    }
  }

  /** The list a toggle leaves behind: the id appended when absent, every
      occurrence of it removed when present. */
  function Toggle(ids: seq<string>, id: string): (r: seq<string>)
    ensures id in r <==> id !in ids
    ensures forall x :: x != id ==> (x in r <==> x in ids)
    ensures id !in ids ==> |r| == |ids| + 1 && r[..|ids|] == ids && r[|ids|] == id
  {
    if id in ids then Remove(ids, id) else ids + [id]
  }

  /** The toast `toggleBookmark` shows, decided by the list before the toggle. */
  function BookmarkToast(ids: seq<string>, id: string): string {
    if id in ids then BookmarkRemoved else BookmarkAdded
  }

  /** The toast `toggleComplete` shows, if any: only when the topic was not yet complete. */
  function CompleteToast(ids: seq<string>, id: string): Option<string> {
    if id in ids then None else Some(TopicCompleted)
  }

  /** The bookmark toast says "removed" exactly when the toggle takes the id out,
      and the completion toast appears exactly when the toggle puts it in. */
  lemma ToastRules(ids: seq<string>, id: string)
    ensures BookmarkToast(ids, id) == BookmarkRemoved <==> id !in Toggle(ids, id)
    ensures BookmarkToast(ids, id) == BookmarkAdded <==> id in Toggle(ids, id)
    ensures CompleteToast(ids, id) == Some(TopicCompleted) <==> id in Toggle(ids, id)
    ensures CompleteToast(ids, id) == None <==> id !in Toggle(ids, id)
  {
  }

  /** Removing an id that is not there changes nothing. */
  lemma {:induction false} RemoveAbsent(ids: seq<string>, id: string)
    requires id !in ids
    ensures Remove(ids, id) == ids
  {
    if ids != [] {
      RemoveAbsent(ids[1..], id);
      assert ids == [ids[0]] + ids[1..];
    }
  }

  /** Removing from a concatenation removes from each part. */
  lemma {:induction false} RemoveAppend(a: seq<string>, b: seq<string>, id: string)
    ensures Remove(a + b, id) == Remove(a, id) + Remove(b, id)
  {
    if a == [] {
      assert a + b == b;
    } else {
      assert (a + b)[1..] == a[1..] + b;
      RemoveAppend(a[1..], b, id);
    }
  }

  /** Toggling twice from a list without the id restores the list. */
  lemma ToggleTwiceRestores(ids: seq<string>, id: string)
    requires id !in ids
    ensures Toggle(Toggle(ids, id), id) == ids
  {
    RemoveAppend(ids, [id], id);
    RemoveAbsent(ids, id);
  }

  /** Toggling twice from a list with the id leaves one copy of it, moved to the end. */
  lemma ToggleTwiceMovesToEnd(ids: seq<string>, id: string)
    requires id in ids
    ensures Toggle(Toggle(ids, id), id) == Remove(ids, id) + [id]
  {
  }

  /** The ids that survive a removal keep their relative order: the i-th id of the
      list reappears at the position given by the survivors before it, and those
      positions increase with i. */
  lemma {:induction false} RemoveKeepsOrder(ids: seq<string>, id: string, i: int, j: int)
    requires 0 <= i < j < |ids| && ids[i] != id && ids[j] != id
    ensures |Remove(ids[..i], id)| < |Remove(ids[..j], id)| < |Remove(ids, id)|
    ensures Remove(ids, id)[|Remove(ids[..i], id)|] == ids[i]
    ensures Remove(ids, id)[|Remove(ids[..j], id)|] == ids[j]
  {
    RemoveSplit(ids, id, i);
    RemoveSplit(ids, id, j);
    RemoveSplit(ids[..j], id, i);
    assert ids[..j][..i] == ids[..i];
  }

  /** Splitting the list at a surviving position i. */
  lemma RemoveSplit(ids: seq<string>, id: string, i: int)
    requires 0 <= i < |ids| && ids[i] != id
    ensures Remove(ids, id) == Remove(ids[..i], id) + [ids[i]] + Remove(ids[i + 1..], id)
  {
    assert ids == ids[..i] + [ids[i]] + ids[i + 1..];
    RemoveAppend(ids[..i] + [ids[i]], ids[i + 1..], id);
    RemoveAppend(ids[..i], [ids[i]], id);
  }

  /** Removal keeps a list free of repetitions. */
  lemma {:induction false} RemoveKeepsDistinct(ids: seq<string>, id: string)
    requires NoDup(ids)
    ensures NoDup(Remove(ids, id))
  {
    if ids != [] {
      assert NoDup(ids[1..]);
      RemoveKeepsDistinct(ids[1..], id);
      assert ids[0] !in ids[1..];
      var rest := Remove(ids[1..], id);
      assert ids[0] !in rest;
    }
  }

  /** A toggle keeps a list free of repetitions. */
  lemma ToggleKeepsDistinct(ids: seq<string>, id: string)
    requires NoDup(ids)
    ensures NoDup(Toggle(ids, id))
  {
    if id in ids {
      RemoveKeepsDistinct(ids, id);
    }
  }

  /** `totalTopics`: the sum over the sections of their topic counts. */
  function TotalTopics(sections: seq<Section>): nat {
    if sections == [] then 0 else |sections[0].topics| + TotalTopics(sections[1..])
  }

  /** The sum of the counts is the number of topics in the course. */
  lemma {:induction false} TotalTopicsCounts(sections: seq<Section>)
    ensures TotalTopics(sections) == |AllTopics(sections)|
  {
    if sections != [] {
      TotalTopicsCounts(sections[1..]);
    }
  }

  /** `sections.some(s => s.topics.some(t => t.id === id))`. */
  predicate InCourse(sections: seq<Section>, id: string) {
    exists k, j :: 0 <= k < |sections| && 0 <= j < |sections[k].topics| && sections[k].topics[j].id == id
  }

  /** Being in the course means being the id of one of its topics. */
  lemma {:induction false} InCourseIffTopicId(sections: seq<Section>, id: string)
    ensures InCourse(sections, id) <==> id in Ids(AllTopics(sections))
  {
    if sections != [] {
      InCourseIffTopicId(sections[1..], id);
      InCourseHeadTail(sections, id);
      assert Ids(sections[0].topics + AllTopics(sections[1..]))
        == Ids(sections[0].topics) + Ids(AllTopics(sections[1..]));
    }
  }

  /** A course holds an id when its first section or the remaining sections do. */
  lemma InCourseHeadTail(sections: seq<Section>, id: string)
    requires sections != []
    ensures InCourse(sections, id) <==> id in Ids(sections[0].topics) || InCourse(sections[1..], id)
  {
    var head := sections[0].topics;
    if InCourse(sections, id) {
      var k, j :| 0 <= k < |sections| && 0 <= j < |sections[k].topics| && sections[k].topics[j].id == id;
      if k == 0 {
        assert Ids(head)[j] == id;
      } else {
        assert sections[1..][k - 1].topics[j].id == id;
      }
    }
    if id in Ids(head) {
      var j :| 0 <= j < |head| && Ids(head)[j] == id;
      assert sections[0].topics[j].id == id;
    } else if InCourse(sections[1..], id) {
      var k, j :| 0 <= k < |sections| - 1 && 0 <= j < |sections[1..][k].topics| && sections[1..][k].topics[j].id == id;
      assert sections[k + 1].topics[j].id == id;
    }
  }

  /** `completedTopics.filter(id => <id is in the course>)`. */
  function CompletedOfCourse(completed: seq<string>, sections: seq<Section>): (r: seq<string>)
    ensures forall x :: x in r <==> x in completed && InCourse(sections, x)
    ensures |r| <= |completed|
  {
    if completed == [] then []
    else
      assert completed == [completed[0]] + completed[1..];
      (if InCourse(sections, completed[0]) then [completed[0]] else []) + CompletedOfCourse(completed[1..], sections)
  }

  /** The filter keeps every occurrence of a course id, repeats included, and
      drops every occurrence of any other id. */
  lemma {:induction false} CompletedOfCourseCounts(completed: seq<string>, sections: seq<Section>, x: string)
    ensures multiset(CompletedOfCourse(completed, sections))[x] ==
      if InCourse(sections, x) then multiset(completed)[x] else 0
  {
    if completed != [] {
      CompletedOfCourseCounts(completed[1..], sections, x);
      assert completed == [completed[0]] + completed[1..];
      assert multiset(completed) == multiset([completed[0]]) + multiset(completed[1..]);
    }
  }

  /** Filtering a concatenation filters each part, so the kept ids keep their order. */
  lemma {:induction false} CompletedOfCourseAppend(a: seq<string>, b: seq<string>, sections: seq<Section>)
    ensures CompletedOfCourse(a + b, sections) == CompletedOfCourse(a, sections) + CompletedOfCourse(b, sections)
  {
    if a == [] {
      assert a + b == b;
    } else {
      assert (a + b)[0] == a[0];
      assert (a + b)[1..] == a[1..] + b;
      CompletedOfCourseAppend(a[1..], b, sections);
    }
  }

  /** Filtering keeps a list free of repetitions. */
  lemma {:induction false} CompletedOfCourseDistinct(completed: seq<string>, sections: seq<Section>)
    requires NoDup(completed)
    ensures NoDup(CompletedOfCourse(completed, sections))
  {
    if completed != [] {
      assert NoDup(completed[1..]);
      CompletedOfCourseDistinct(completed[1..], sections);
      assert completed[0] !in completed[1..];
    }
  }

  /** A repetition-free list drawn from the elements of b is no longer than b. */
  lemma {:induction false} DistinctSubsetBound(a: seq<string>, b: seq<string>)
    requires NoDup(a)
    requires forall x :: x in a ==> x in b
    ensures |a| <= |b|
  {
    if a != [] {
      var b' := Remove(b, a[0]);
      assert NoDup(a[1..]);
      forall x | x in a[1..] ensures x in b' {
        assert x != a[0];
      }
      DistinctSubsetBound(a[1..], b');
    }
  }

  /** `currentCourseCompleted`: the completed ids that occur in the course. */
  function CompletedCount(completed: seq<string>, sections: seq<Section>): (n: nat)
    ensures n <= |completed|
  {
    |CompletedOfCourse(completed, sections)|
  }

  /** `.length` counts repeats: a course id completed twice counts twice. */
  lemma RepeatCountsTwice(completed: seq<string>, sections: seq<Section>, x: string)
    requires completed == [x, x] && InCourse(sections, x)
    ensures CompletedCount(completed, sections) == 2
  {
    assert completed[1..] == [x];
    assert CompletedOfCourse(completed[1..], sections) == [x];
  }

  /** With a repetition-free completion list, no more topics are completed than
      the course has. */
  lemma CompletedBound(completed: seq<string>, sections: seq<Section>)
    requires NoDup(completed)
    ensures CompletedCount(completed, sections) <= TotalTopics(sections)
  {
    var done := CompletedOfCourse(completed, sections);
    CompletedOfCourseDistinct(completed, sections);
    forall x | x in done ensures x in Ids(AllTopics(sections)) {
      InCourseIffTopicId(sections, x);
    }
    DistinctSubsetBound(done, Ids(AllTopics(sections)));
    TotalTopicsCounts(sections);
  }

  /** `progressPercentage` for `done` completed out of `total` topics: 0 with no
      topics, otherwise 100 * done / total rounded to the nearest integer, halves up. */
  function Percentage(done: nat, total: nat): (p: nat)
    ensures total == 0 ==> p == 0
    ensures total > 0 ==> 2 * total * p <= 200 * done + total < 2 * total * (p + 1)
    ensures done <= total ==> p <= 100
  {
    if total == 0 then 0
    else
      var n, d := 200 * done + total, 2 * total;
      DivBracket(n, d);
      assert done <= total ==> n / d <= 100 by {
        if done <= total && n / d > 100 {
          MulMonotone(d, 101, n / d);
        }
      }
      n / d
  }

  /** One of four topics done is 25 percent, and no topics at all is 0. */
  lemma PercentageExamples()
    ensures Percentage(1, 4) == 25
    ensures Percentage(0, 0) == 0
  {
    QuotientUnique(204, 8, 25);
  }

  /** A course with every topic done shows 100 percent, one with none done 0. */
  lemma PercentageEnds(total: nat)
    requires total > 0
    ensures Percentage(total, total) == 100
    ensures Percentage(0, total) == 0
  {
    QuotientUnique(201 * total, 2 * total, 100);
    QuotientUnique(total, 2 * total, 0);
  }

  /** The quotient's multiple lies at most one divisor below the dividend. */
  lemma DivBracket(n: nat, d: nat)
    requires d > 0
    ensures d * (n / d) <= n < d * (n / d) + d
  {
  }

  /** The only q with d * q <= n < d * q + d is n / d. */
  lemma QuotientUnique(n: nat, d: nat, q: nat)
    requires d > 0 && d * q <= n < d * q + d
    ensures n / d == q
  {
    var r := n / d;
    DivBracket(n, d);
    if r < q {
      MulMonotone(d, r + 1, q);
    } else if r > q {
      MulMonotone(d, q + 1, r);
    }
  }

  lemma MulMonotone(a: nat, x: nat, y: nat)
    requires x <= y
    ensures a * x <= a * y
  {
  }

  /** The percentage shown in the navigation bar for the shown course (none when
      the catalog is empty); it never exceeds 100 while the completion list has no
      repetitions. */
  function ProgressPercentage(completed: seq<string>, content: Option<Course>): (p: nat)
    ensures content.None? ==> p == 0
    ensures NoDup(completed) ==> p <= 100
  {
    var sections := if content.Some? then content.value.sections else [];
    var done := CompletedCount(completed, sections);
    assert NoDup(completed) ==> done <= TotalTopics(sections) by {
      if NoDup(completed) {
        CompletedBound(completed, sections);
      }
    }
    Percentage(done, TotalTopics(sections))
  }
}
