# GATE CSE syllabus tracker: subject editing and progress

A model of the core of a browser study tracker for the GATE CSE exam. The
tracker keeps one record per subject: its chapters (each with an id, a name
and a completed flag), the lecture numbers completed so far, a lecture count,
a start date and a course link.

The model covers four parts:

- The subject detail modal edits one record through a reducer with seven
  action kinds plus a default arm:
  - replace a field;
  - add, remove, toggle or rename a chapter;
  - toggle a lecture;
  - clear the completed lectures.
- Toggling lecture n on marks 1..n as done. Toggling it off removes
  n..totalLectures. The completed lectures are then stored as a sorted array.
- The subject card shows three figures:
  - lecture progress, measured against the lecture count, or 45 when the
    count is missing or 0;
  - chapter progress;
  - the number of completed chapters.
- The main page sums lectures over all subjects for an overall percentage.
  It replaces an edited subject by id. It seeds a catalogue of twelve
  subjects when nothing is stored.

Modules, one file each:

- `Options`: the Option datatype.
- `LectureSets`: the set view of a lecture array and the contiguous ranges the
  toggle uses. A finite set has a unique strictly ascending enumeration
  (`Ascending`), and `ToAscending` computes it with a loop.
- `Subjects`: the chapter and subject records. `totalLectures` is an
  `Option<int>`; `None` stands for a record without that field.
- `SubjectReducer`: the reducer. `LecturesAfterToggle` specifies the lecture
  toggle on sets. `Reduce` specifies the whole reducer. The method
  `ToggleLectures` performs the toggle as the modal code does: it copies the
  lectures into a set, adds or deletes one number per loop step, then sorts.
  `Dispatch` runs the reducer with that method and is proved equal to
  `Reduce`.
- `LectureInput`: `parseInt(text, 10)` and the on-blur commit of the
  lecture-count box.
- `LectureDisplay`: the lecture grid's split of 1..count into completed and
  not-completed lectures.
- `SubjectCard`: the card's fallback count and its two percentages.
- `Dashboard`: the page's overall totals, the replace-by-id update and the
  seed catalogue.
- `TrackerProperties`: properties that combine the reducer with the card,
  the grid and the page.

Percentages are exact `real`s. The chapter ids that the source draws from
`Math.random` are supplied by the caller.

Two points about what the source does and does not do:

- The card does not clamp lecture progress. Only the SVG renderer clamps,
  at src/utils/progress.js:8. `SubjectCard.LectureProgressUnclamped` proves
  that a lecture array longer than the count gives more than 100%.
- The source has no fully-covered predicate and no count of completed
  subjects, so the model has neither.

## Model

| member | source | states |
|---|---|---|
| SubjectReducer.SetField | src/components/SubjectDetailModal.js:7-8 | UPDATE_FIELD gives the named field the supplied value verbatim; the id, the chapters, the lectures and every other field are unchanged |
| SubjectReducer.AppendChapter | src/components/SubjectDetailModal.js:9-10 | ADD_CHAPTER appends exactly one chapter: it has the supplied id, the name "New Chapter" and is not completed; the existing chapters stay unchanged and in order; with a fresh id the ids stay distinct |
| SubjectReducer.WithoutChapter | src/components/SubjectDetailModal.js:11-12 | REMOVE_CHAPTER keeps exactly the chapters whose id differs; afterwards no chapter has that id; it is a no-op when the id is absent |
| SubjectReducer.WithoutChapterKeepsDistinct | src/components/SubjectDetailModal.js:12 | removing chapters keeps the remaining ids distinct |
| SubjectReducer.WithoutChapterConcat | src/components/SubjectDetailModal.js:12 | removal works piecewise over a concatenation, keeping the original order |
| SubjectReducer.RemovePresentChapter | src/components/SubjectDetailModal.js:12 | with distinct ids, removing the id of chapter k gives the list with just that chapter cut out |
| SubjectReducer.MarkChapter | src/components/SubjectDetailModal.js:13-15 | TOGGLE_CHAPTER sets `completed` to the supplied value (not a flip) on chapters with the matching id only; the ids, the names, the count and the order are unchanged; no-op for an absent id |
| SubjectReducer.MarkChapterIdempotent | src/components/SubjectDetailModal.js:15 | applying the same TOGGLE_CHAPTER twice equals applying it once |
| SubjectReducer.RenameChapter | src/components/SubjectDetailModal.js:16-17 | EDIT_CHAPTER_NAME changes only the name, and only of matching chapters; ids, completion, count and order are unchanged; no-op for an absent id |
| SubjectReducer.SameIdsStayDistinct | src/components/SubjectDetailModal.js:15-17 | an edit that keeps the id list keeps the ids distinct |
| SubjectReducer.LecturesAfterToggle | src/components/SubjectDetailModal.js:18-28 | checking adds exactly 1..n (the result is a superset of the old set and of 1..n); unchecking removes exactly n..totalLectures; entries below n and entries above the count survive; nothing is removed when the count is missing or below n |
| SubjectReducer.ToggleSetIdempotent | src/components/SubjectDetailModal.js:19-28 | repeating a lecture toggle changes nothing more |
| SubjectReducer.TogglePrefix | src/components/SubjectDetailModal.js:21-26 | a completed prefix 1..k stays a prefix 1..k' after a toggle, when k does not exceed the count |
| SubjectReducer.Reduce | src/components/SubjectDetailModal.js:5-35 | the whole reducer. It keeps the id. After a lecture toggle the lectures are strictly ascending, and ascending lectures stay ascending. Arms other than UPDATE_FIELD keep the scalar fields. Only the two lecture arms change the lectures, and the field and lecture arms keep the chapters. CLEAR_COMPLETED_LECTURES empties the lectures. Ids stay distinct when ADD_CHAPTER ids are fresh. An unrecognised action returns the record unchanged |
| SubjectReducer.ToggleLectures | src/components/SubjectDetailModal.js:19-29 | the add/delete loops followed by the numeric sort give the ascending enumeration of `LecturesAfterToggle` on the old lectures |
| SubjectReducer.Dispatch | src/components/SubjectDetailModal.js:5-35 | running the reducer with the looping toggle gives `Reduce` |
| SubjectReducer.ReduceToggleLecture | src/components/SubjectDetailModal.js:29 | the stored array after a toggle is the ascending enumeration of the toggled set |
| SubjectReducer.ToggleLectureIdempotent | src/components/SubjectDetailModal.js:18-29 | applying the same TOGGLE_LECTURE twice gives the same record as applying it once |
| SubjectReducer.ToggleKeepsCompletedPrefix | src/components/SubjectDetailModal.js:21-29 | lectures [1..k] with k no larger than the count become [1..k'] after any toggle of n >= 1; k' is max(k, n) when checking, min(k, n - 1) when unchecking |
| SubjectReducer.UncheckWithoutCountKeepsAll | src/components/SubjectDetailModal.js:26 | with the count missing or 0, unchecking any lecture from 1 up leaves a sorted record unchanged |
| SubjectReducer.ReduceAllInvariants | src/components/SubjectDetailModal.js:5-35 | over any sequence of actions, the id is kept and the lectures stay strictly ascending; with fresh ids for added chapters, the chapter ids stay distinct |
| LectureSets.ElemsAppend | src/components/SubjectDetailModal.js:72-75 | `Elems` is `new Set(array)`, built here from the completed lectures and at :19 in the reducer; the set of an array with one number appended is the set of the array plus that number, the step by which the two filters build their results |
| LectureSets.Range | src/components/SubjectDetailModal.js:22 | the numbers lo..hi that the toggle loops run over |
| LectureSets.Ascending | src/components/SubjectDetailModal.js:29 | a strictly ascending array holding exactly the members of the set |
| LectureSets.AscendingUnique | src/components/SubjectDetailModal.js:29 | two strictly ascending arrays with the same members are equal, so the sorted array is determined by the set |
| LectureSets.LeastOf | src/components/SubjectDetailModal.js:29 | the scan returns the least member of a non-empty set |
| LectureSets.ToAscending | src/components/SubjectDetailModal.js:29 | converting a set to a numerically sorted array yields `Ascending` of the set |
| LectureSets.Numbered | src/components/SubjectDetailModal.js:71 | `Array.from({length: count}, (_, i) => i + 1)`: count entries, entry i is i + 1, empty for a count that is not positive |
| LectureSets.AscendingRange | src/components/SubjectDetailModal.js:71 | the sorted array of 1..k is [1, ..., k] |
| LectureInput.TrimStart | src/components/SubjectDetailModal.js:182 | parseInt's leading skip returns a suffix of the text that does not start with white space; text that does not start with white space is returned whole |
| LectureInput.TrimStartDropsOnlySpace | src/components/SubjectDetailModal.js:182 | every character the leading skip drops is white space or a line terminator |
| LectureInput.DigitPrefix | src/components/SubjectDetailModal.js:182 | the longest prefix made of decimal digits |
| LectureInput.ParseInt | src/components/SubjectDetailModal.js:182 | parseInt gives NaN exactly when no digit follows the white space and optional sign |
| LectureInput.ParseDecimal | src/components/SubjectDetailModal.js:182 | parseInt reads the decimal text of any count back, also with a non-digit tail such as "12.5" |
| LectureInput.ParseLeadingDigits | src/components/SubjectDetailModal.js:182 | text starting with a digit reads as the value of its leading digit run |
| LectureInput.ParseMinusDigits | src/components/SubjectDetailModal.js:182 | text starting with "-" and a digit reads as the negated value of the digit run after the sign |
| LectureInput.ParseNegativeDecimal | src/components/SubjectDetailModal.js:182 | "-" followed by a count reads as its negation |
| LectureInput.DecimalString | src/components/SubjectDetailModal.js:191 | `newValue.toString()` for a count below 10^21 is a non-empty run of decimal digits without a leading zero, except for 0 itself |
| LectureInput.DigitRunValue | src/components/SubjectDetailModal.js:191 | the whole decimal text of a count is one digit run, and its value is the count |
| LectureInput.DecimalStringValue | src/components/SubjectDetailModal.js:191 | the text `toString` writes for a count has that count as its value |
| LectureInput.CommittedLectureCount | src/components/SubjectDetailModal.js:182-188 | the committed count is never negative; it is 0 when parsing fails, and it is the parsed value when that is not negative |
| LectureInput.CommitDecimal | src/components/SubjectDetailModal.js:182-185 | committing the decimal text of a count commits that count |
| LectureInput.CommitIdempotent | src/components/SubjectDetailModal.js:185-191 | committing again the text the box shows after a commit changes nothing |
| LectureInput.CommitNegative | src/components/SubjectDetailModal.js:185 | a typed negative count commits as 0 |
| LectureDisplay.AllLectures | src/components/SubjectDetailModal.js:70-71 | the drawn lectures are strictly ascending and are exactly 1..count, with the card's fallback count |
| LectureDisplay.UncompletedLectures | src/components/SubjectDetailModal.js:74 | the not-completed group is strictly ascending and holds exactly 1..count minus the completed set |
| LectureDisplay.ShownCompletedLectures | src/components/SubjectDetailModal.js:75 | the completed group is strictly ascending and holds exactly the completed lectures within 1..count |
| LectureDisplay.Select | src/components/SubjectDetailModal.js:74-75 | the filter keeps exactly the listed lectures that are in (or not in) the completed set, never more entries than it was given, in ascending order |
| LectureDisplay.SelectSplits | src/components/SubjectDetailModal.js:74-75 | every listed lecture lands in exactly one of the two filters |
| LectureDisplay.LecturePartition | src/components/SubjectDetailModal.js:70-75 | both groups are ascending. The completed group is the completed set within 1..count; the other group is 1..count minus the completed set. Their sizes add up to count. A completed entry above the count appears in neither |
| SubjectCard.EffectiveLectureCount | src/components/SubjectCard.js:8 | the count is `totalLectures` when present and non-zero, else 45; it is positive for a missing or non-negative count |
| SubjectCard.LectureProgress | src/components/SubjectCard.js:9 | progress is completed lectures divided by the count, times 100; it is 0 when the count is not positive, and never negative |
| SubjectCard.LectureProgressAtMostFull | src/components/SubjectCard.js:9 | progress stays within 100 while the array holds no more entries than the count |
| SubjectCard.LectureProgressUnclamped | src/components/SubjectCard.js:9 | more entries than the count give more than 100: the card does not clamp |
| SubjectCard.CompletedChapters | src/components/SubjectCard.js:13 | the number of completed chapters is at most the chapter count; it reaches the chapter count exactly when all chapters are completed, and is 0 exactly when none is |
| SubjectCard.CompletedChaptersCountsCompleted | src/components/SubjectCard.js:13 | the count is exactly the number of positions whose chapter has `completed` set |
| SubjectCard.CompletedChaptersSingle | src/components/SubjectCard.js:13 | one chapter counts 1 when completed and 0 otherwise |
| SubjectCard.CompletedChaptersConcat | src/components/SubjectCard.js:13 | the count of two lists put together is the sum of their counts |
| SubjectCard.ChapterProgress | src/components/SubjectCard.js:12-14 | 0 without chapters, otherwise completed / total * 100; always within [0, 100]; 100 exactly when there are chapters and all are completed |
| Percentages.Percent | src/components/SubjectCard.js:9 | the percentage p satisfies p * whole == part * 100, and it is not negative for a part that is not negative |
| Percentages.PercentFull | src/components/SubjectCard.js:14 | a percentage is 100 exactly when the part equals the whole |
| Dashboard.CountedLecturesZero | src/pages/index.js:178 | the total counts a subject as 0 lectures exactly when its count is missing or 0, and as its count whenever one is present |
| Dashboard.TotalLectures | src/pages/index.js:178 | the sum of the lecture counts, with a missing count adding 0; not negative when no count is negative |
| Dashboard.TotalCompletedLectures | src/pages/index.js:179 | the sum of the completed-lecture array lengths; it is 0 exactly when every array is empty |
| Dashboard.TotalsConcat | src/pages/index.js:178-179 | both sums split over a concatenation of subject lists |
| Dashboard.GlobalProgress | src/pages/index.js:177-185 | 0 when the lecture total is not positive, otherwise completed / total * 100; never negative |
| Dashboard.ReplaceById | src/pages/index.js:154 | every subject with the updated id is replaced; all others stay in place; the length and the ids are kept; no-op for an absent id |
| Dashboard.ReplaceAdjustsTotals | src/pages/index.js:154-185 | with distinct ids, replacing subject k moves both overall sums by exactly the difference between the old and the new record |
| Dashboard.CreateChapter | src/pages/index.js:20 | the chapter has the supplied id and name and is not completed |
| Dashboard.SeedSubject | src/pages/index.js:24-35 | a seed entry has its id, name and lecture count, one incomplete chapter per listed name in order, no completed lectures, a null date and an empty link |
| Dashboard.SeedTables | src/pages/index.js:22-36 | the twelve seed ids are distinct; only the "toc" entry lacks a lecture count |
| Dashboard.InitialSubjects | src/pages/index.js:22-36 | the seed catalogue has twelve subjects with distinct ids, no completed lectures, a null date, an empty link and only incomplete chapters. Every subject has 45 lectures except "toc", whose count is missing because of the `totalLectules` key |
| Dashboard.SeedChapterIdsDistinct | src/pages/index.js:20-36 | with an injective id supply, the chapters of each seed subject have distinct ids |
| Dashboard.TotalOfFortyFives | src/pages/index.js:178 | subjects that all count 45 lectures total 45 per subject |
| Dashboard.TotalSkippingMissing | src/pages/index.js:178 | one subject without a count among 45-lecture subjects adds nothing to the total |
| Dashboard.SeedTotals | src/pages/index.js:22-36 | the seed catalogue totals 495 lectures (toc adds 0), none completed, and shows 0% overall |
| TrackerProperties.CheckFiveOfTen | src/components/SubjectDetailModal.js:20-22 | with 10 lectures and none done, checking lecture 5 completes lectures 1 to 5 |
| TrackerProperties.UncheckThreeOfTen | src/components/SubjectDetailModal.js:23-26 | with lectures 1 to 5 of 10 done, unchecking lecture 3 leaves lectures 1 and 2 |
| TrackerProperties.TenLectureWalkthrough | src/components/SubjectCard.js:8-9 | the card then shows 50% after the first toggle and 20% after the second |
| TrackerProperties.ClearedSubjectHasNoLectureProgress | src/components/SubjectDetailModal.js:30-31 | after clearing the lectures the card shows 0% lecture progress |
| TrackerProperties.CommittedCountIsUsable | src/components/SubjectDetailModal.js:182-188 | whatever was typed, the committed count is present and not negative, so the card's count is positive |
| TrackerProperties.CheckEmptiesGridUpTo | src/components/SubjectDetailModal.js:74 | after checking n, every not-completed lecture the grid shows is above n |
| TrackerProperties.UncheckRefillsGrid | src/components/SubjectDetailModal.js:74 | after unchecking n with a positive count, every lecture from n (at least 1) up to the count is among the not-completed lectures |
| TrackerProperties.MarkingDoneNeverLowersCount | src/components/SubjectCard.js:13 | marking a chapter completed never lowers the completed-chapter count |
| TrackerProperties.HalfDoneOverall | src/pages/index.js:177-185 | two subjects of 45 lectures, one fully done and one untouched, show 50% overall |
| TrackerProperties.NoSubjectsNoProgress | src/pages/index.js:183 | an empty subject list shows 0% overall |

## Left out

- IndexedDB storage (src/utils/idb.js), the asynchronous load path and the save calls in src/pages/index.js: these are I/O effects. The model starts from a loaded subject list and returns the new one.
- React state, effects, JSX, CSS and event wiring: these are presentation code. The modal's effect that hands each new record to `updateSubject` is modelled only through `Dashboard.ReplaceById`.
- The modal's initial input text (`totalLectures.toString()` at src/components/SubjectDetailModal.js:54 and 57) is not modelled: it is display state. Note that it throws for a record without `totalLectures`, such as the seed "toc" entry.
- `CountdownTimer`, the `timeSince` day count and the ISO date conversion of the start date: these depend on the wall clock. A start date is an opaque optional string.
- src/utils/progress.js, src/utils/icons.js, src/components/GateYearModal.js, src/pages/_app.js and src/pages/_document.js: SVG drawing, icon lookup, a clock-driven year picker and framework shells.
- The "Show N Completed" toggle of the modal: it is display state.
- `Math.random` ids: ids are parameters. `AddChapter` takes the new id, and the seed catalogue takes an id function of the subject and chapter positions. Distinctness is proved under freshness or injectivity of these inputs.
- SubjectReducer.SetField: `UPDATE_FIELD` with an arbitrary key is left out. The modal dispatches only three keys: startDate (src/components/SubjectDetailModal.js:107), courseLink (:122) and totalLectures (:188). The closed `Field` datatype has these three and `Name`. `Name` has no dispatcher in the source; it stands for the generic key arm applied to the subject name. A field value of the wrong type cannot be written.
- SubjectCard.LectureProgress: exact reals, not IEEE doubles. Float rounding and `Math.round` in the display are not modelled.
- Dashboard.GlobalProgress: exact reals, not IEEE doubles, as for the card.
- LectureDisplay.AllLectures: a count of 2^32 or more is not modelled as an error. `Array.from({ length })` at src/components/SubjectDetailModal.js:71 throws RangeError for it, and the on-blur commit at :185 lets such a count through, so the modal's next render fails. The model lists 1..count for every count.
- LectureDisplay.UncompletedLectures, LectureDisplay.ShownCompletedLectures, LectureDisplay.LecturePartition: they inherit the 2^32 array-length limit that `LectureDisplay.AllLectures` does not model.
- LectureInput.DecimalString: plain digits for every count. `toString` at src/components/SubjectDetailModal.js:191 writes exponent form from 10^21 on ("1e+21"), so the model's text, and `LectureInput.CommitIdempotent` with it, agrees with the source only for counts below 10^21.
- LectureInput.ParseInt: the precision loss of parseInt above 2^53 is not modelled; an unbounded integer is returned.
- LectureSets.ToAscending: sorting via `Array.prototype.sort` is modelled as a selection loop over the set. The proved result is the same ascending array, which is unique (`LectureSets.AscendingUnique`).
- Chapters, lectures and subjects are values. The reducer returns new records and does not update in place, as in the source, so no aliasing is modelled.
