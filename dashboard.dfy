/**
  The main page: the overall lecture progress over all subjects, the
  replace-by-id update of the subject list, and the seed catalogue used when
  nothing has been stored yet.
 */
module Dashboard {
  import opened Options
  import opened Subjects
  import opened Percentages

  /** `s.totalLectures || 0`: a subject's share of the overall lecture count. */
  function CountedLectures(s: Subject): int {
    match s.totalLectures
    case None => 0
    case Some(t) => t
  }

  /** A subject adds nothing to the overall count exactly when its count is missing or 0. */
  lemma CountedLecturesZero(s: Subject)
    ensures CountedLectures(s) == 0 <==> s.totalLectures.None? || s.totalLectures == Some(0)
    ensures s.totalLectures.Some? ==> CountedLectures(s) == s.totalLectures.value
  {
  }

  /** `subjects.reduce((acc, s) => acc + (s.totalLectures || 0), 0)`, folded from the left. */
  function TotalLectures(ss: seq<Subject>): (t: int)
    ensures (forall i :: 0 <= i < |ss| ==> CountedLectures(ss[i]) >= 0) ==> t >= 0
  {
    if ss == [] then 0
    else
      assert forall i :: 0 <= i < |ss| - 1 ==> ss[..|ss| - 1][i] == ss[i];
      TotalLectures(ss[..|ss| - 1]) + CountedLectures(ss[|ss| - 1])
  }

  /** `subjects.reduce((acc, s) => acc + s.completedLectures.length, 0)`. */
  function TotalCompletedLectures(ss: seq<Subject>): (c: int)
    ensures c >= 0
    ensures c == 0 <==> forall i :: 0 <= i < |ss| ==> ss[i].completedLectures == []
  {
    if ss == [] then 0
    else
      var front := ss[..|ss| - 1];
      assert forall i :: 0 <= i < |front| ==> front[i] == ss[i];
      TotalCompletedLectures(front) + |ss[|ss| - 1].completedLectures|
  }

  /** Both sums split over a concatenation. */
  lemma {:induction false} TotalsConcat(a: seq<Subject>, b: seq<Subject>)
    ensures TotalLectures(a + b) == TotalLectures(a) + TotalLectures(b)
    ensures TotalCompletedLectures(a + b) == TotalCompletedLectures(a) + TotalCompletedLectures(b)
  {
    if b == [] {
      assert a + b == a;
    } else {
      var b' := b[..|b| - 1];
      assert (a + b)[..|a + b| - 1] == a + b';
      TotalsConcat(a, b');
    }
  }

  /** The overall percentage: 0 without any counted lecture, otherwise completed / total * 100. */
  function GlobalProgress(ss: seq<Subject>): (p: real)
    ensures TotalLectures(ss) <= 0 ==> p == 0.0
    ensures TotalLectures(ss) > 0 ==>
      p * TotalLectures(ss) as real == TotalCompletedLectures(ss) as real * 100.0
    ensures p >= 0.0
  {
    var total := TotalLectures(ss);
    if total > 0 then Percent(TotalCompletedLectures(ss), total) else 0.0
  }

  /** `updateSubject`: every subject with the updated subject's id is replaced by it. */
  function ReplaceById(ss: seq<Subject>, updated: Subject): (r: seq<Subject>)
    ensures |r| == |ss|
    ensures forall i :: 0 <= i < |ss| ==> r[i] == if ss[i].id == updated.id then updated else ss[i]
    ensures forall i :: 0 <= i < |ss| ==> r[i].id == ss[i].id
    ensures (forall i :: 0 <= i < |ss| ==> ss[i].id != updated.id) ==> r == ss
  {
    seq(|ss|, i requires 0 <= i < |ss| => if ss[i].id == updated.id then updated else ss[i])
  }

  predicate DistinctSubjectIds(ss: seq<Subject>) {
    forall i, j :: 0 <= i < j < |ss| ==> ss[i].id != ss[j].id
  }

  /**
    With distinct subject ids, replacing one subject moves both overall sums
    by exactly the difference between the old and the new record.
   */
  lemma {:induction false} ReplaceAdjustsTotals(ss: seq<Subject>, updated: Subject, k: int)
    requires DistinctSubjectIds(ss)
    requires 0 <= k < |ss| && ss[k].id == updated.id
    ensures TotalLectures(ReplaceById(ss, updated)) ==
      TotalLectures(ss) - CountedLectures(ss[k]) + CountedLectures(updated)
    ensures TotalCompletedLectures(ReplaceById(ss, updated)) ==
      TotalCompletedLectures(ss) - |ss[k].completedLectures| + |updated.completedLectures|
    decreases |ss|
  {
    var n := |ss|;
    var r := ReplaceById(ss, updated);
    var front := ss[..n - 1];
    assert r[..n - 1] == ReplaceById(front, updated);
    if k == n - 1 {
      assert ReplaceById(front, updated) == front;
    } else {
      ReplaceAdjustsTotals(front, updated, k);
    }
  }

  /** `createChapter(name)`, with the random id supplied by the caller. */
  function CreateChapter(id: string, name: string): (c: Chapter)
    ensures c.id == id && c.name == name && !c.completed
  {
    Chapter(id, name, false)
  }

  /** One entry of the seed catalogue; chapter j of subject `index` gets id chapterId(index, j). */
  function SeedSubject(index: nat, id: string, name: string, chapterNames: seq<string>,
                       total: Option<int>, chapterId: (nat, nat) -> string): (s: Subject)
    ensures s.id == id && s.name == name && s.totalLectures == total
    ensures s.completedLectures == [] && s.startDate == None && s.courseLink == ""
    ensures |s.chapters| == |chapterNames|
    ensures forall j :: 0 <= j < |s.chapters| ==>
      s.chapters[j].id == chapterId(index, j) && s.chapters[j].name == chapterNames[j] &&
      !s.chapters[j].completed
  {
    var chapters := seq(|chapterNames|, j requires 0 <= j < |chapterNames| =>
      CreateChapter(chapterId(index, j), chapterNames[j]));
    Subject(id, name, chapters, [], total, None, "")
  }

  const SeedIds: seq<string> := [
    "eng-math", "disc-math", "gen-apti", "dig-logic", "comp-org", "prog-ds",
    "algo", "toc", "comp-des", "os", "dbms", "comp-net"]

  const SeedNames: seq<string> := [
    "Engineering Mathematics", "Discrete Mathematics", "General Aptitude", "Digital Logic",
    "Computer Organization", "Programming & DS", "Algorithms", "Theory of Computation",
    "Compiler Design", "Operating System", "Database Management", "Computer Networks"]

  const SeedChapterNames: seq<seq<string>> := [
    ["Linear Algebra", "Calculus", "Probability and Statistics"],
    ["Propositional and First Order Logic", "Sets, Relations & Functions", "Monoids, Groups",
     "Graph Theory", "Combinatorics"],
    ["Quantitative Aptitude", "Analytical Aptitude", "Spatial Aptitude", "Verbal Aptitude"],
    ["Boolean Algebra", "Combinational and Sequential Circuits", "Minimization",
     "Number Representations & Computer Arithmetic"],
    ["Machine Instructions & Addressing Modes", "ALU, Data-path and Control Unit",
     "Instruction Pipelining", "Memory Hierarchy", "I/O Interface"],
    ["Programming in C", "Recursion", "Arrays, Stacks, Queues", "Linked Lists",
     "Trees, BSTs, Heaps", "Graphs"],
    ["Searching, Sorting, Hashing", "Asymptotic Complexity",
     "Greedy, Dynamic Programming, Divide-and-Conquer", "Graph Traversals",
     "Minimum Spanning Trees", "Shortest Paths"],
    ["Regular Expressions & Finite Automata", "Context-Free Grammars & Push-Down Automata",
     "Regular and Context-Free Languages", "Turing Machines and Undecidability"],
    ["Lexical Analysis", "Parsing, Syntax-Directed Translation", "Runtime Environments",
     "Intermediate Code Generation", "Local Optimisation & Data Flow Analyses"],
    ["System Calls, Processes, Threads", "Concurrency and Synchronization", "Deadlock",
     "CPU and I/O Scheduling", "Memory Management & Virtual Memory", "File Systems"],
    ["ER-model", "Relational Model (Algebra, Calculus, SQL)", "Integrity Constraints, Normal Forms",
     "File Organization, Indexing", "Transactions & Concurrency Control"],
    ["Layering Concepts (OSI/TCP/IP)", "Data Link Layer", "Routing Protocols",
     "IP Addressing & Support Protocols (v4)", "Transport Layer (TCP/UDP)",
     "Application Layer Protocols"]]

  /** The lecture count of each seed entry; the eighth one spells its key `totalLectules`. */
  const SeedLectureCounts: seq<Option<int>> := [
    Some(45), Some(45), Some(45), Some(45), Some(45), Some(45),
    Some(45), None, Some(45), Some(45), Some(45), Some(45)]

  /** The seed ids are distinct, and only the "toc" entry lacks a lecture count. */
  lemma SeedTables()
    ensures |SeedIds| == |SeedNames| == |SeedChapterNames| == |SeedLectureCounts| == 12
    ensures forall i, j :: 0 <= i < j < 12 ==> SeedIds[i] != SeedIds[j]
    ensures forall i :: 0 <= i < 12 ==>
      SeedLectureCounts[i] == if SeedIds[i] == "toc" then None else Some(45)
  {
  }

  /** `getInitialSubjects()`. The Theory of Computation entry has no lecture count. */
  function InitialSubjects(chapterId: (nat, nat) -> string): (ss: seq<Subject>)
    ensures |ss| == 12
    ensures forall i :: 0 <= i < 12 ==> ss[i].id == SeedIds[i] && ss[i].name == SeedNames[i]
    ensures DistinctSubjectIds(ss)
    ensures forall i :: 0 <= i < |ss| ==>
      ss[i].completedLectures == [] && ss[i].startDate == None && ss[i].courseLink == ""
    ensures forall i, j :: 0 <= i < |ss| && 0 <= j < |ss[i].chapters| ==> !ss[i].chapters[j].completed
    ensures forall i :: 0 <= i < |ss| ==>
      ss[i].totalLectures == if ss[i].id == "toc" then None else Some(45)
  {
    SeedTables();
    seq(12, i requires 0 <= i < 12 =>
      SeedSubject(i, SeedIds[i], SeedNames[i], SeedChapterNames[i], SeedLectureCounts[i], chapterId))
  }

  /** With an injective id supply, the chapters of every seed subject have distinct ids. */
  lemma SeedChapterIdsDistinct(chapterId: (nat, nat) -> string)
    requires forall a: nat, b: nat, c: nat, d: nat :: (a, b) != (c, d) ==> chapterId(a, b) != chapterId(c, d)
    ensures forall i :: 0 <= i < 12 ==> DistinctIds(InitialSubjects(chapterId)[i].chapters)
  {
    var ss := InitialSubjects(chapterId);
    forall i | 0 <= i < 12 ensures DistinctIds(ss[i].chapters) {
      forall j, l | 0 <= j < l < |ss[i].chapters| ensures ss[i].chapters[j].id != ss[i].chapters[l].id {
        assert ss[i].chapters[j].id == chapterId(i, j) && ss[i].chapters[l].id == chapterId(i, l);
        assert (i, j) != (i, l);
      }
    }
  }

  /** Every subject whose lecture count is 45 contributes 45 to the overall count. */
  lemma {:induction false} TotalOfFortyFives(ss: seq<Subject>)
    requires forall i :: 0 <= i < |ss| ==> ss[i].totalLectures == Some(45)
    ensures TotalLectures(ss) == 45 * |ss|
  {
    if ss != [] {
      TotalOfFortyFives(ss[..|ss| - 1]);
    }
  }

  /**
    The seed catalogue counts 11 * 45 = 495 lectures overall: the
    Theory of Computation entry adds nothing. Nothing is completed yet.
   */
  lemma SeedTotals(chapterId: (nat, nat) -> string)
    ensures TotalLectures(InitialSubjects(chapterId)) == 495
    ensures TotalCompletedLectures(InitialSubjects(chapterId)) == 0
    ensures GlobalProgress(InitialSubjects(chapterId)) == 0.0
  {
    var ss := InitialSubjects(chapterId);
    assert forall i :: 0 <= i < 12 ==> (SeedIds[i] == "toc" <==> i == 7);
    TotalSkippingMissing(ss, 7);
  }

  /** A list of 45-lecture subjects with one entry lacking a count totals 45 per other entry. */
  lemma {:induction false} TotalSkippingMissing(ss: seq<Subject>, k: int)
    requires 0 <= k < |ss| && ss[k].totalLectures.None?
    requires forall i :: 0 <= i < |ss| && i != k ==> ss[i].totalLectures == Some(45)
    ensures TotalLectures(ss) == 45 * (|ss| - 1)
  {
    var front := ss[..|ss| - 1];
    if k == |ss| - 1 {
      TotalOfFortyFives(front);
    } else {
      TotalSkippingMissing(front, k);
    }
  }
}
