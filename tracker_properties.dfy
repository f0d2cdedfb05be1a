/**
  Properties that connect the reducer with the figures the card, the lecture
  grid and the page derive from its results.
 */
module TrackerProperties {
  import opened Options
  import opened LectureSets
  import opened Subjects
  import opened SubjectReducer
  import opened LectureInput
  import opened LectureDisplay
  import opened SubjectCard
  import opened Dashboard

  /** Checking lecture 5 of 10 with none done completes lectures 1 to 5. */
  lemma CheckFiveOfTen(s: Subject)
    requires s.totalLectures == Some(10) && s.completedLectures == []
    ensures var r := Reduce(s, ToggleLecture(5, true));
      r.completedLectures == [1, 2, 3, 4, 5] && r.totalLectures == Some(10)
  {
    assert Numbered(0) == [];
    ToggleKeepsCompletedPrefix(s, 0, 5, true);
    assert Numbered(5) == [1, 2, 3, 4, 5];
  }

  /** Unchecking lecture 3 of 10 with lectures 1 to 5 done leaves lectures 1 and 2. */
  lemma UncheckThreeOfTen(s: Subject)
    requires s.totalLectures == Some(10) && s.completedLectures == [1, 2, 3, 4, 5]
    ensures var r := Reduce(s, ToggleLecture(3, false));
      r.completedLectures == [1, 2] && r.totalLectures == Some(10)
  {
    assert Numbered(5) == [1, 2, 3, 4, 5];
    ToggleKeepsCompletedPrefix(s, 5, 3, false);
    assert Numbered(2) == [1, 2];
  }

  /**
    Ten lectures, none done: checking lecture 5 gives [1, 2, 3, 4, 5] and 50%,
    then unchecking lecture 3 gives [1, 2] and 20%.
   */
  lemma TenLectureWalkthrough(s: Subject)
    requires s.totalLectures == Some(10) && s.completedLectures == []
    ensures var r1 := Reduce(s, ToggleLecture(5, true));
      && r1.completedLectures == [1, 2, 3, 4, 5]
      && LectureProgress(r1) == 50.0
      && var r2 := Reduce(r1, ToggleLecture(3, false));
         && r2.completedLectures == [1, 2]
         && LectureProgress(r2) == 20.0
  {
    CheckFiveOfTen(s);
    var r1 := Reduce(s, ToggleLecture(5, true));
    assert LectureProgress(r1) * 10.0 == 500.0;
    UncheckThreeOfTen(r1);
    var r2 := Reduce(r1, ToggleLecture(3, false));
    assert LectureProgress(r2) * 10.0 == 200.0;
  }

  /** After CLEAR_COMPLETED_LECTURES the card shows 0% lecture progress. */
  lemma ClearedSubjectHasNoLectureProgress(s: Subject)
    ensures LectureProgress(Reduce(s, ClearCompletedLectures)) == 0.0
  {
  }

  /**
    A count committed from the input box, whatever was typed, leaves the
    subject with a positive count to measure lecture progress against.
   */
  lemma CommittedCountIsUsable(s: Subject, text: string)
    ensures var r := Reduce(s, UpdateField(LectureCount(CommittedLectureCount(text))));
      && r.totalLectures.Some? && r.totalLectures.value >= 0
      && EffectiveLectureCount(r.totalLectures) > 0
  {
  }

  /** Checking lecture n takes every lecture up to n out of the not-completed grid. */
  lemma CheckEmptiesGridUpTo(s: Subject, number: int)
    ensures forall x :: x in UncompletedLectures(Reduce(s, ToggleLecture(number, true))) ==> x > number
  {
    var on := Reduce(s, ToggleLecture(number, true));
    var t := LecturesAfterToggle(Elems(s.completedLectures), number, true, s.totalLectures);
    ReduceToggleLecture(s, number, true);
    assert Elems(on.completedLectures) == t;
    var grid := UncompletedLectures(on);
    forall x | x in grid ensures x > number {
      assert x in Elems(grid);
    }
  }

  /** Unchecking lecture n puts n..totalLectures back into the not-completed grid. */
  lemma UncheckRefillsGrid(s: Subject, number: int)
    requires s.totalLectures.Some? && s.totalLectures.value > 0
    ensures forall x :: number <= x <= s.totalLectures.value && 1 <= x ==>
      x in UncompletedLectures(Reduce(s, ToggleLecture(number, false)))
  {
    var off := Reduce(s, ToggleLecture(number, false));
    var t := LecturesAfterToggle(Elems(s.completedLectures), number, false, s.totalLectures);
    ReduceToggleLecture(s, number, false);
    assert Elems(off.completedLectures) == t;
    assert EffectiveLectureCount(off.totalLectures) == s.totalLectures.value;
    var grid := UncompletedLectures(off);
    forall x | number <= x <= s.totalLectures.value && 1 <= x ensures x in grid {
      assert x in Elems(grid);
    }
  }

  /** Marking a chapter completed never lowers the completed-chapter count the card shows. */
  lemma {:induction false} MarkingDoneNeverLowersCount(cs: seq<Chapter>, id: string)
    ensures CompletedChapters(MarkChapter(cs, id, true)) >= CompletedChapters(cs)
  {
    if cs != [] {
      var front := cs[..|cs| - 1];
      assert MarkChapter(cs, id, true)[..|cs| - 1] == MarkChapter(front, id, true);
      MarkingDoneNeverLowersCount(front, id);
    }
  }

  /**
    Two subjects of 45 lectures, one fully done and one untouched: the page
    shows 50% overall.
   */
  lemma HalfDoneOverall(a: Subject, b: Subject)
    requires a.totalLectures == Some(45) && |a.completedLectures| == 45
    requires b.totalLectures == Some(45) && b.completedLectures == []
    ensures GlobalProgress([a, b]) == 50.0
  {
    assert [a, b][..1] == [a];
    assert [a][..0] == [];
    assert CountedLectures(a) == 45 && CountedLectures(b) == 45;
    assert TotalLectures([a]) == 45;
    assert TotalCompletedLectures([a]) == 45;
    assert TotalLectures([a, b]) == 90;
    assert TotalCompletedLectures([a, b]) == 45;
    var p := GlobalProgress([a, b]);
    assert p * 90.0 == 4500.0;
  }

  /** An empty subject list shows 0% overall. */
  lemma NoSubjectsNoProgress()
    ensures GlobalProgress([]) == 0.0
  {
  }
}
