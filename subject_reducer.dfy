/**
  The subject edit reducer of the subject detail modal: one edit action
  applied to one subject record gives the next record. Every arm is a total
  function; actions addressed at an id that no chapter has change nothing.

  `Reduce` is the specification of the whole reducer. The lecture toggle arm
  is computed imperatively by `ToggleLectures` (copy into a set, add or
  delete in a counting loop, sort), and `Dispatch` runs the reducer with that
  method, proved equal to `Reduce`.
 */
module SubjectReducer {
  import opened Options
  import opened LectureSets
  import opened Subjects

  /** The name every added chapter starts with. */
  const NewChapterName: string := "New Chapter"

  /**
    The fields an UPDATE_FIELD action may set, each with its new value. The
    modal dispatches startDate, courseLink and totalLectures; `Name` is the
    subject name, which the reducer's generic key arm accepts as well.
   */
  datatype Field =
    | Name(name: string)
    | StartDate(date: Option<string>)
    | CourseLink(link: string)
    | LectureCount(count: int)

  datatype Action =
    | UpdateField(field: Field)
    | AddChapter(freshId: string)
    | RemoveChapter(id: string)
    | ToggleChapter(id: string, completed: bool)
    | EditChapterName(id: string, name: string)
    | ToggleLecture(number: int, checked: bool)
    | ClearCompletedLectures
    | Unrecognised

  /** UPDATE_FIELD: the named field takes the value verbatim, without validation. */
  function SetField(s: Subject, f: Field): (r: Subject)
    ensures r.id == s.id && r.chapters == s.chapters && r.completedLectures == s.completedLectures
    ensures r.name == (if f.Name? then f.name else s.name)
    ensures r.startDate == (if f.StartDate? then f.date else s.startDate)
    ensures r.courseLink == (if f.CourseLink? then f.link else s.courseLink)
    ensures r.totalLectures == (if f.LectureCount? then Some(f.count) else s.totalLectures)
  {
    match f
    case Name(n) => s.(name := n)
    case StartDate(d) => s.(startDate := d)
    case CourseLink(l) => s.(courseLink := l)
    case LectureCount(c) => s.(totalLectures := Some(c))
  }

  /** ADD_CHAPTER: one incomplete chapter named "New Chapter" goes at the end. */
  function AppendChapter(cs: seq<Chapter>, freshId: string): (r: seq<Chapter>)
    ensures |r| == |cs| + 1
    ensures r[..|cs|] == cs
    ensures r[|cs|].id == freshId && r[|cs|].name == NewChapterName && !r[|cs|].completed
    ensures DistinctIds(cs) && IdAbsent(cs, freshId) ==> DistinctIds(r)
  {
    cs + [Chapter(freshId, NewChapterName, false)]
  }

  /** REMOVE_CHAPTER: the chapters whose id differs from the given one. */
  function WithoutChapter(cs: seq<Chapter>, id: string): (r: seq<Chapter>)
    ensures |r| <= |cs|
    ensures forall c :: c in r <==> c in cs && c.id != id
    ensures IdAbsent(r, id)
    ensures IdAbsent(cs, id) ==> r == cs
  {
    if cs == [] then []
    else
      var front := WithoutChapter(cs[..|cs| - 1], id);
      var last := cs[|cs| - 1];
      assert forall c :: c in cs <==> c in cs[..|cs| - 1] || c == last by {
        assert cs == cs[..|cs| - 1] + [last];
      }
      if last.id == id then front else front + [last]
  }

  /** Removing chapters keeps the remaining ids distinct. */
  lemma {:induction false} WithoutChapterKeepsDistinct(cs: seq<Chapter>, id: string)
    ensures DistinctIds(cs) ==> DistinctIds(WithoutChapter(cs, id))
  {
    if cs != [] && DistinctIds(cs) {
      var front := cs[..|cs| - 1];
      var last := cs[|cs| - 1];
      assert DistinctIds(front) by {
        forall i, j | 0 <= i < j < |front| ensures front[i].id != front[j].id {
          assert front[i] == cs[i] && front[j] == cs[j];
        }
      }
      WithoutChapterKeepsDistinct(front, id);
      var r := WithoutChapter(front, id);
      forall i | 0 <= i < |r| ensures r[i].id != last.id {
        assert r[i] in r;
        var j :| 0 <= j < |front| && front[j] == r[i];
        assert front[j] == cs[j];
      }
    }
  }

  /** Removing the chapters of a concatenation removes them from each part, keeping order. */
  lemma {:induction false} WithoutChapterConcat(a: seq<Chapter>, b: seq<Chapter>, id: string)
    ensures WithoutChapter(a + b, id) == WithoutChapter(a, id) + WithoutChapter(b, id)
  {
    if b != [] {
      var b' := b[..|b| - 1];
      assert (a + b)[..|a + b| - 1] == a + b';
      WithoutChapterConcat(a, b', id);
    } else {
      assert a + b == a;
    }
  }

  /** With distinct ids, removing a present id deletes exactly that chapter. */
  lemma RemovePresentChapter(cs: seq<Chapter>, id: string, k: int)
    requires DistinctIds(cs)
    requires 0 <= k < |cs| && cs[k].id == id
    ensures WithoutChapter(cs, id) == cs[..k] + cs[k + 1..]
  {
    var before, after := cs[..k], cs[k + 1..];
    assert cs == (before + [cs[k]]) + after;
    WithoutChapterConcat(before + [cs[k]], after, id);
    WithoutChapterConcat(before, [cs[k]], id);
    assert WithoutChapter([cs[k]], id) == [] by {
      assert [cs[k]][..0] == [];
    }
    OthersLackId(cs, k);
    var kept := WithoutChapter(before, id) + WithoutChapter([cs[k]], id);
    assert kept == before;
  }

  /** With distinct ids, no chapter but the k-th carries the k-th chapter's id. */
  lemma OthersLackId(cs: seq<Chapter>, k: int)
    requires DistinctIds(cs)
    requires 0 <= k < |cs|
    ensures IdAbsent(cs[..k], cs[k].id) && IdAbsent(cs[k + 1..], cs[k].id)
  {
    var before, after := cs[..k], cs[k + 1..];
    forall i | 0 <= i < |before| ensures before[i].id != cs[k].id {
      assert before[i] == cs[i];
    }
    forall i | 0 <= i < |after| ensures after[i].id != cs[k].id {
      assert after[i] == cs[k + 1 + i];
    }
  }

  /** TOGGLE_CHAPTER: matching chapters take the supplied completion value. */
  function MarkChapter(cs: seq<Chapter>, id: string, completed: bool): (r: seq<Chapter>)
    ensures |r| == |cs| && ChapterIds(r) == ChapterIds(cs)
    ensures forall i :: 0 <= i < |cs| ==>
      r[i].id == cs[i].id && r[i].name == cs[i].name &&
      r[i].completed == (if cs[i].id == id then completed else cs[i].completed)
    ensures IdAbsent(cs, id) ==> r == cs
  {
    seq(|cs|, i requires 0 <= i < |cs| => if cs[i].id == id then cs[i].(completed := completed) else cs[i])
  }

  /** EDIT_CHAPTER_NAME: matching chapters take the new name. */
  function RenameChapter(cs: seq<Chapter>, id: string, name: string): (r: seq<Chapter>)
    ensures |r| == |cs| && ChapterIds(r) == ChapterIds(cs)
    ensures forall i :: 0 <= i < |cs| ==>
      r[i].id == cs[i].id && r[i].completed == cs[i].completed &&
      r[i].name == (if cs[i].id == id then name else cs[i].name)
    ensures IdAbsent(cs, id) ==> r == cs
  {
    seq(|cs|, i requires 0 <= i < |cs| => if cs[i].id == id then cs[i].(name := name) else cs[i])
  }

  /** Chapter edits that keep the id list keep the ids distinct. */
  lemma SameIdsStayDistinct(cs: seq<Chapter>, r: seq<Chapter>)
    requires ChapterIds(r) == ChapterIds(cs)
    ensures DistinctIds(cs) ==> DistinctIds(r)
  {
    forall i, j | 0 <= i < j < |r| && DistinctIds(cs) ensures r[i].id != r[j].id {
      assert ChapterIds(r)[i] == ChapterIds(cs)[i] && ChapterIds(r)[j] == ChapterIds(cs)[j];
    }
  }

  /** Toggling a chapter twice with the same value equals toggling it once. */
  lemma MarkChapterIdempotent(cs: seq<Chapter>, id: string, completed: bool)
    ensures MarkChapter(MarkChapter(cs, id, completed), id, completed) == MarkChapter(cs, id, completed)
  {
  }

  /**
    TOGGLE_LECTURE on the set of completed lectures: checking `number` adds
    1..number; unchecking deletes number..totalLectures, and deletes nothing
    when the subject has no lecture count.
   */
  function LecturesAfterToggle(done: set<int>, number: int, checked: bool, total: Option<int>): (r: set<int>)
    ensures checked ==> forall x :: x in r <==> x in done || 1 <= x <= number
    ensures !checked ==> r <= done
    ensures !checked && total.Some? ==> forall x :: x in r <==> x in done && !(number <= x <= total.value)
    ensures !checked ==> forall x :: x in done && x < number ==> x in r
    ensures !checked && total.Some? ==> forall x :: x in done && x > total.value ==> x in r
    ensures !checked && (total.None? || total.value < number) ==> r == done
  {
    if checked then done + Range(1, number)
    else if total.Some? then done - Range(number, total.value)
    else done
  }

  /** Toggling the same lecture the same way twice equals doing it once. */
  lemma ToggleSetIdempotent(done: set<int>, number: int, checked: bool, total: Option<int>)
    ensures var once := LecturesAfterToggle(done, number, checked, total);
      LecturesAfterToggle(once, number, checked, total) == once
  {
  }

  /**
    The toggle keeps a completed prefix 1..k a prefix, as long as k does not
    exceed the lecture count the unchecking loop runs up to.
   */
  lemma TogglePrefix(k: int, number: int, checked: bool, total: Option<int>)
    requires 0 <= k && 1 <= number
    requires checked || total.None? || k <= total.value
    ensures LecturesAfterToggle(Range(1, k), number, checked, total) ==
      Range(1, if checked then (if k < number then number else k)
               else if total.None? then k
               else (if k < number - 1 then k else number - 1))
  {
  }

  /** The whole reducer, with the lecture toggle stored as an ascending array. */
  ghost function Reduce(s: Subject, a: Action): (r: Subject)
    ensures r.id == s.id
    ensures a.ToggleLecture? ==> StrictlyAscending(r.completedLectures)
    ensures StrictlyAscending(s.completedLectures) ==> StrictlyAscending(r.completedLectures)
    ensures !a.UpdateField? ==>
      r.name == s.name && r.totalLectures == s.totalLectures &&
      r.startDate == s.startDate && r.courseLink == s.courseLink
    ensures !a.ToggleLecture? && !a.ClearCompletedLectures? ==> r.completedLectures == s.completedLectures
    ensures a.UpdateField? || a.ToggleLecture? || a.ClearCompletedLectures? ==> r.chapters == s.chapters
    ensures a.ClearCompletedLectures? ==> r.completedLectures == []
    ensures DistinctIds(s.chapters) && (a.AddChapter? ==> IdAbsent(s.chapters, a.freshId)) ==>
      DistinctIds(r.chapters)
    ensures a.Unrecognised? ==> r == s
  {
    match a
    case UpdateField(f) => SetField(s, f)
    case AddChapter(freshId) => s.(chapters := AppendChapter(s.chapters, freshId))
    case RemoveChapter(id) =>
      WithoutChapterKeepsDistinct(s.chapters, id);
      s.(chapters := WithoutChapter(s.chapters, id))
    case ToggleChapter(id, completed) =>
      var cs := MarkChapter(s.chapters, id, completed);
      SameIdsStayDistinct(s.chapters, cs);
      s.(chapters := cs)
    case EditChapterName(id, name) =>
      var cs := RenameChapter(s.chapters, id, name);
      SameIdsStayDistinct(s.chapters, cs);
      s.(chapters := cs)
    case ToggleLecture(number, checked) =>
      s.(completedLectures :=
        Ascending(LecturesAfterToggle(Elems(s.completedLectures), number, checked, s.totalLectures)))
    case ClearCompletedLectures => s.(completedLectures := [])
    case Unrecognised => s
  }

  /**
    The TOGGLE_LECTURE arm as the modal runs it: copy the completed lectures
    into a set, add 1..number or delete number..totalLectures one at a time,
    then sort numerically.
   */
  method ToggleLectures(lectures: seq<int>, number: int, checked: bool, total: Option<int>) returns (r: seq<int>)
    ensures r == Ascending(LecturesAfterToggle(Elems(lectures), number, checked, total))
  {
    var completed := Elems(lectures);
    if checked {
      var i := 1;
      while i <= number
        invariant 1 <= i <= (if number < 1 then 1 else number + 1)
        invariant completed == Elems(lectures) + Range(1, i - 1)
        decreases number - i
      {
        completed := completed + {i};
        i := i + 1;
      }
      assert Range(1, i - 1) == Range(1, number);
    } else if total.Some? {
      var last := total.value;
      var i := number;
      while i <= last
        invariant number <= i <= (if last < number then number else last + 1)
        invariant completed == Elems(lectures) - Range(number, i - 1)
        decreases last - i
      {
        completed := completed - {i};
        i := i + 1;
      }
      assert Range(number, i - 1) == Range(number, last);
    }
    r := ToAscending(completed);
  }

  /** Applies one action as the modal does. */
  method Dispatch(s: Subject, a: Action) returns (r: Subject)
    ensures r == Reduce(s, a)
  {
    match a {
      case ToggleLecture(number, checked) =>
        var lectures := ToggleLectures(s.completedLectures, number, checked, s.totalLectures);
        r := s.(completedLectures := lectures);
      case UpdateField(f) =>
        r := SetField(s, f);
      case AddChapter(freshId) =>
        r := s.(chapters := AppendChapter(s.chapters, freshId));
      case RemoveChapter(id) =>
        r := s.(chapters := WithoutChapter(s.chapters, id));
      case ToggleChapter(id, completed) =>
        r := s.(chapters := MarkChapter(s.chapters, id, completed));
      case EditChapterName(id, name) =>
        r := s.(chapters := RenameChapter(s.chapters, id, name));
      case ClearCompletedLectures =>
        r := s.(completedLectures := []);
      case Unrecognised =>
        r := s;
    }
  }

  /** Applying the same lecture toggle twice gives the same record as applying it once. */
  lemma ToggleLectureIdempotent(s: Subject, number: int, checked: bool)
    ensures var once := Reduce(s, ToggleLecture(number, checked));
      Reduce(once, ToggleLecture(number, checked)) == once
  {
    var once := Reduce(s, ToggleLecture(number, checked));
    var t := LecturesAfterToggle(Elems(s.completedLectures), number, checked, s.totalLectures);
    assert Elems(once.completedLectures) == t;
    ToggleSetIdempotent(Elems(s.completedLectures), number, checked, s.totalLectures);
  }

  /**
    On a record whose completed lectures are exactly [1, ..., k], a toggle
    gives again an array [1, ..., k'].
   */
  lemma ToggleKeepsCompletedPrefix(s: Subject, k: int, number: int, checked: bool)
    requires 0 <= k && 1 <= number
    requires s.completedLectures == Numbered(k)
    requires checked || s.totalLectures.None? || k <= s.totalLectures.value
    ensures Reduce(s, ToggleLecture(number, checked)).completedLectures ==
      Numbered(if checked then (if k < number then number else k)
               else if s.totalLectures.None? then k
               else (if k < number - 1 then k else number - 1))
  {
    var k' := if checked then (if k < number then number else k)
              else if s.totalLectures.None? then k
              else (if k < number - 1 then k else number - 1);
    NumberedEnumeratesRange(k);
    TogglePrefix(k, number, checked, s.totalLectures);
    assert LecturesAfterToggle(Elems(s.completedLectures), number, checked, s.totalLectures) == Range(1, k');
    ReduceToggleLecture(s, number, checked);
    AscendingRange(k');
  }

  /** The TOGGLE_LECTURE arm of Reduce, unfolded. */
  lemma ReduceToggleLecture(s: Subject, number: int, checked: bool)
    ensures Reduce(s, ToggleLecture(number, checked)).completedLectures ==
      Ascending(LecturesAfterToggle(Elems(s.completedLectures), number, checked, s.totalLectures))
  {
  }

  /**
    With no lecture count, or a count of 0, unchecking a lecture from 1 on
    leaves every completed lecture in place.
   */
  lemma UncheckWithoutCountKeepsAll(s: Subject, number: int)
    requires 1 <= number
    requires s.totalLectures.None? || s.totalLectures == Some(0)
    requires StrictlyAscending(s.completedLectures)
    ensures Reduce(s, ToggleLecture(number, false)) == s
  {
    AscendingOfElems(s.completedLectures);
  }

  /** Applies the actions in order. */
  ghost function ReduceAll(s: Subject, actions: seq<Action>): Subject
    decreases |actions|
  {
    if actions == [] then s else ReduceAll(Reduce(s, actions[0]), actions[1..])
  }

  /** Every ADD_CHAPTER of the sequence brings an id that no chapter has at that point. */
  ghost predicate FreshAdds(s: Subject, actions: seq<Action>)
    decreases |actions|
  {
    actions == [] ||
    ((actions[0].AddChapter? ==> IdAbsent(s.chapters, actions[0].freshId)) &&
     FreshAdds(Reduce(s, actions[0]), actions[1..]))
  }

  /**
    Over any sequence of edits the subject keeps its id and its completed
    lectures stay strictly ascending; with fresh ids for added chapters the
    chapter ids stay distinct.
   */
  lemma {:induction false} ReduceAllInvariants(s: Subject, actions: seq<Action>)
    requires StrictlyAscending(s.completedLectures)
    ensures ReduceAll(s, actions).id == s.id
    ensures StrictlyAscending(ReduceAll(s, actions).completedLectures)
    ensures DistinctIds(s.chapters) && FreshAdds(s, actions) ==> DistinctIds(ReduceAll(s, actions).chapters)
    decreases |actions|
  {
    if actions != [] {
      ReduceAllInvariants(Reduce(s, actions[0]), actions[1..]);
    }
  }
}
