/**
  The records the tracker stores: a subject with its chapters, its completed
  lectures and its lecture count.
 */
module Subjects {
  import opened Options

  datatype Chapter = Chapter(id: string, name: string, completed: bool)

  /**
    A subject record. `totalLectures` is None when the record has no such
    field at all (the seed entry for Theory of Computation spells the key
    `totalLectules`); `startDate` is None for a null date.
   */
  datatype Subject = Subject(
    id: string,
    name: string,
    chapters: seq<Chapter>,
    completedLectures: seq<int>,
    totalLectures: Option<int>,
    startDate: Option<string>,
    courseLink: string)

  /** The ids of a chapter list, in order. */
  function ChapterIds(cs: seq<Chapter>): (ids: seq<string>)
    ensures |ids| == |cs|
    ensures forall i :: 0 <= i < |cs| ==> ids[i] == cs[i].id
  {
    seq(|cs|, i requires 0 <= i < |cs| => cs[i].id)
  }

  /** No chapter of the list carries the given id. */
  predicate IdAbsent(cs: seq<Chapter>, id: string) {
    forall i :: 0 <= i < |cs| ==> cs[i].id != id
  }

  /** No two chapters of the list share an id. */
  predicate DistinctIds(cs: seq<Chapter>) {
    forall i, j :: 0 <= i < j < |cs| ==> cs[i].id != cs[j].id
  }
}
