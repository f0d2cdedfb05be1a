/**
  The figures a subject card shows: lecture progress against the lecture
  count (45 when the count is missing or 0), and chapter progress.
  Percentages are exact reals; the card does not clamp them.
 */
module SubjectCard {
  import opened Options
  import opened Subjects
  import opened Percentages

  /** The lecture count assumed when a subject has none, or 0. */
  const FallbackLectureCount: int := 45

  /** `totalLectures || 45`: the count a subject is displayed and measured against. */
  function EffectiveLectureCount(total: Option<int>): (c: int)
    ensures total.None? || total == Some(0) ==> c == FallbackLectureCount
    ensures total.Some? && total.value != 0 ==> c == total.value
    ensures total.None? || total.value >= 0 ==> c > 0
  {
    match total
    case None => FallbackLectureCount
    case Some(t) => if t == 0 then FallbackLectureCount else t
  }

  /** Percentage of the lecture count held in the completed-lectures array. */
  function LectureProgress(s: Subject): (p: real)
    ensures var c := EffectiveLectureCount(s.totalLectures);
      c > 0 ==> p * c as real == |s.completedLectures| as real * 100.0
    ensures EffectiveLectureCount(s.totalLectures) <= 0 ==> p == 0.0
    ensures p >= 0.0
  {
    var c := EffectiveLectureCount(s.totalLectures);
    if c > 0 then Percent(|s.completedLectures|, c) else 0.0
  }

  /** Progress stays within 100 while the array holds no more entries than the count. */
  lemma LectureProgressAtMostFull(s: Subject)
    requires EffectiveLectureCount(s.totalLectures) > 0
    requires |s.completedLectures| <= EffectiveLectureCount(s.totalLectures)
    ensures LectureProgress(s) <= 100.0
  {
    PercentAtMostFull(|s.completedLectures|, EffectiveLectureCount(s.totalLectures));
  }

  /** The card does not clamp: more entries than the count give more than 100%. */
  lemma LectureProgressUnclamped(s: Subject)
    requires EffectiveLectureCount(s.totalLectures) > 0
    requires |s.completedLectures| > EffectiveLectureCount(s.totalLectures)
    ensures LectureProgress(s) > 100.0
  {
    PercentAboveFull(|s.completedLectures|, EffectiveLectureCount(s.totalLectures));
  }

  /** `chapters.filter(c => c.completed).length`. */
  function CompletedChapters(cs: seq<Chapter>): (n: nat)
    ensures n <= |cs|
    ensures n == |cs| <==> forall i :: 0 <= i < |cs| ==> cs[i].completed
    ensures n == 0 <==> forall i :: 0 <= i < |cs| ==> !cs[i].completed
  {
    if cs == [] then 0
    else
      var front := cs[..|cs| - 1];
      var n := CompletedChapters(front);
      assert forall i :: 0 <= i < |front| ==> front[i] == cs[i];
      n + (if cs[|cs| - 1].completed then 1 else 0)
  }

  /** The positions of the completed chapters. */
  function CompletedPositions(cs: seq<Chapter>): set<int> {
    set i | 0 <= i < |cs| && cs[i].completed
  }

  /** The count is the number of chapters whose `completed` flag is set. */
  lemma {:induction false} CompletedChaptersCountsCompleted(cs: seq<Chapter>)
    ensures CompletedChapters(cs) == |CompletedPositions(cs)|
  {
    if cs != [] {
      var k := |cs| - 1;
      CompletedChaptersCountsCompleted(cs[..k]);
      CompletedPositionsStep(cs);
    }
  }

  /** The completed positions of a list are those of its front plus, if completed, the last one. */
  lemma CompletedPositionsStep(cs: seq<Chapter>)
    requires cs != []
    ensures var k := |cs| - 1;
      k !in CompletedPositions(cs[..k]) &&
      CompletedPositions(cs) == CompletedPositions(cs[..k]) + (if cs[k].completed then {k} else {})
  {
    var k := |cs| - 1;
    var front := cs[..k];
    forall i | 0 <= i < k ensures front[i] == cs[i] { }
  }

  /** One chapter counts 1 when completed and 0 otherwise. */
  lemma CompletedChaptersSingle(c: Chapter)
    ensures CompletedChapters([c]) == if c.completed then 1 else 0
  {
    assert [c][..0] == [];
  }

  /** The count of a concatenation is the sum of the counts. */
  lemma {:induction false} CompletedChaptersConcat(a: seq<Chapter>, b: seq<Chapter>)
    ensures CompletedChapters(a + b) == CompletedChapters(a) + CompletedChapters(b)
  {
    if b == [] {
      assert a + b == a;
    } else {
      var front := b[..|b| - 1];
      CompletedChaptersConcat(a, front);
      assert (a + b)[..|a + b| - 1] == a + front;
      assert (a + b)[|a + b| - 1] == b[|b| - 1];
    }
  }

  /** Percentage of completed chapters; 0 for a subject without chapters. */
  function ChapterProgress(s: Subject): (p: real)
    ensures |s.chapters| == 0 ==> p == 0.0
    ensures |s.chapters| > 0 ==> p * |s.chapters| as real == CompletedChapters(s.chapters) as real * 100.0
    ensures 0.0 <= p <= 100.0
    ensures p == 100.0 <==> |s.chapters| > 0 && forall i :: 0 <= i < |s.chapters| ==> s.chapters[i].completed
  {
    var total := |s.chapters|;
    var done := CompletedChapters(s.chapters);
    if total > 0 then
      PercentWithinWhole(done, total);
      Percent(done, total)
    else 0.0
  }
}
