/**
  The lecture grid of the subject detail modal: the lectures 1..count, where
  count is the lecture count or 45 when it is missing or 0, split into the
  ones not yet completed and the ones completed.
 */
module LectureDisplay {
  import opened LectureSets
  import opened Subjects
  import opened SubjectCard

  /** `allLectures`: the lecture numbers the modal draws. */
  function AllLectures(s: Subject): (r: seq<int>)
    ensures StrictlyAscending(r)
    ensures Elems(r) == Range(1, EffectiveLectureCount(s.totalLectures))
  {
    NumberedEnumeratesRange(EffectiveLectureCount(s.totalLectures));
    Numbered(EffectiveLectureCount(s.totalLectures))
  }

  /** `xs.filter(l => done.has(l) == completed)`. */
  function Select(xs: seq<int>, done: set<int>, completed: bool): (r: seq<int>)
    ensures |r| <= |xs|
    ensures Elems(r) == if completed then Elems(xs) * done else Elems(xs) - done
    ensures StrictlyAscending(xs) ==> StrictlyAscending(r)
  {
    if xs == [] then []
    else
      var front := xs[..|xs| - 1];
      var last := xs[|xs| - 1];
      var r := Select(front, done, completed);
      assert xs == front + [last];
      ElemsAppend(front, last);
      if (last in done) == completed then
        ElemsAppend(r, last);
        BelowLast(xs, r);
        r + [last]
      else r
  }

  /** Every listed lecture goes to exactly one of the two groups. */
  lemma {:induction false} SelectSplits(xs: seq<int>, done: set<int>)
    ensures |Select(xs, done, true)| + |Select(xs, done, false)| == |xs|
  {
    if xs != [] {
      SelectSplits(xs[..|xs| - 1], done);
    }
  }

  /** `uncompletedLectures`. */
  function UncompletedLectures(s: Subject): (r: seq<int>)
    ensures StrictlyAscending(r)
    ensures Elems(r) == Range(1, EffectiveLectureCount(s.totalLectures)) - Elems(s.completedLectures)
  {
    Select(AllLectures(s), Elems(s.completedLectures), false)
  }

  /** `completedLectures` as the modal lists it: completed lectures within the drawn range. */
  function ShownCompletedLectures(s: Subject): (r: seq<int>)
    ensures StrictlyAscending(r)
    ensures Elems(r) == Elems(s.completedLectures) * Range(1, EffectiveLectureCount(s.totalLectures))
  {
    Select(AllLectures(s), Elems(s.completedLectures), true)
  }

  /**
    The two groups are ascending, disjoint and together cover 1..count;
    a completed entry above the count is listed in neither.
   */
  lemma LecturePartition(s: Subject)
    ensures var count := EffectiveLectureCount(s.totalLectures);
      && StrictlyAscending(UncompletedLectures(s))
      && StrictlyAscending(ShownCompletedLectures(s))
      && Elems(ShownCompletedLectures(s)) == Elems(s.completedLectures) * Range(1, count)
      && Elems(UncompletedLectures(s)) == Range(1, count) - Elems(s.completedLectures)
      && |ShownCompletedLectures(s)| + |UncompletedLectures(s)| == (if count <= 0 then 0 else count)
  {
    NumberedEnumeratesRange(EffectiveLectureCount(s.totalLectures));
    SelectSplits(AllLectures(s), Elems(s.completedLectures));
  }
}
