/**
  Sets of lecture numbers and their ascending enumeration.

  The tracker keeps the completed lectures of a subject as an array that is
  always rebuilt from a set and sorted numerically. This module gives the set
  view (Elems), the contiguous ranges the toggle rule works with (Range), and
  the unique strictly ascending sequence that enumerates a finite set
  (Ascending), together with a loop that computes it.
 */
module LectureSets {

  /** The integers lo, lo + 1, ..., hi (empty when hi < lo). */
  function Range(lo: int, hi: int): (r: set<int>)
    ensures forall x :: x in r <==> lo <= x <= hi
    decreases hi - lo
  {
    if hi < lo then {} else Range(lo, hi - 1) + {hi}
  }

  /** The set of values held by a sequence. */
  function Elems(s: seq<int>): set<int> {
    set x | x in s
  }

  predicate StrictlyAscending(s: seq<int>) {
    forall i, j :: 0 <= i < j < |s| ==> s[i] < s[j]
  }

  predicate IsLeast(m: int, s: set<int>) {
    m in s && forall y :: y in s ==> m <= y
  }

  lemma ElemsAppend(xs: seq<int>, x: int)
    ensures Elems(xs + [x]) == Elems(xs) + {x}
  {
  }

  /** Values drawn from an ascending array's front lie below its last element. */
  lemma BelowLast(xs: seq<int>, r: seq<int>)
    requires xs != []
    requires Elems(r) <= Elems(xs[..|xs| - 1])
    ensures StrictlyAscending(xs) && StrictlyAscending(r) ==> StrictlyAscending(r + [xs[|xs| - 1]])
  {
    forall k | 0 <= k < |r| && StrictlyAscending(xs) ensures r[k] < xs[|xs| - 1] {
      assert r[k] in Elems(r);
      var j :| 0 <= j < |xs| - 1 && xs[j] == r[k];
    }
  }

  /** A set that differs from the empty set has a member. */
  lemma HasMember(s: set<int>)
    requires s != {}
    ensures exists x :: x in s
  {
    assert (forall x :: x !in s) ==> s == {};
  }

  /** The least element of a non-empty finite set. */
  ghost function Least(s: set<int>): (m: int)
    requires s != {}
    ensures IsLeast(m, s)
    decreases |s|
  {
    HasMember(s);
    var x :| x in s;
    if s == {x} then x
    else
      var r := Least(s - {x});
      assert forall y :: y in s ==> y == x || y in s - {x};
      if x <= r then x else r
  }

  /** The elements of s in strictly ascending order. */
  ghost function Ascending(s: set<int>): (r: seq<int>)
    ensures StrictlyAscending(r)
    ensures Elems(r) == s
    decreases |s|
  {
    if s == {} then []
    else
      var m := Least(s);
      RemoveMember(s, m);
      var rest := Ascending(s - {m});
      AboveLeast(m, s, rest);
      LeastThenAscending(m, rest);
      ElemsCons(m, rest, s);
      [m] + rest
  }

  /** What follows the least element lies strictly above it. */
  lemma AboveLeast(m: int, s: set<int>, rest: seq<int>)
    requires IsLeast(m, s) && Elems(rest) == s - {m}
    ensures forall k :: 0 <= k < |rest| ==> m < rest[k]
  {
    forall k | 0 <= k < |rest| ensures m < rest[k] {
      assert rest[k] in Elems(rest);
    }
  }

  /** Putting a member back in front of the enumeration of the others covers the set. */
  lemma ElemsCons(m: int, rest: seq<int>, s: set<int>)
    requires m in s && Elems(rest) == s - {m}
    ensures Elems([m] + rest) == s
  {
    forall y ensures y in Elems([m] + rest) <==> y in s {
      assert y in Elems([m] + rest) <==> y in [m] + rest;
      assert y in Elems(rest) <==> y in rest;
      assert y in [m] + rest <==> y == m || y in rest;
    }
  }

  /** The enumeration starts with the least element. */
  lemma AscendingStep(s: set<int>)
    requires s != {}
    ensures Ascending(s) == [Least(s)] + Ascending(s - {Least(s)})
  {
  }

  /** The enumeration of a non-empty set is its least element followed by the enumeration of the rest. */
  lemma EmitLeast(rest: set<int>, m: int)
    requires rest != {} && IsLeast(m, rest)
    ensures Ascending(rest) == [m] + Ascending(rest - {m})
  {
    LeastIsUnique(m, rest);
    AscendingStep(rest);
  }

  lemma AppendRegroup(r: seq<int>, m: int, tail: seq<int>)
    ensures (r + [m]) + tail == r + ([m] + tail)
  {
  }

  lemma LeastIsUnique(m: int, s: set<int>)
    requires s != {} && IsLeast(m, s)
    ensures m == Least(s)
  {
    var l := Least(s);
    assert m <= l && l <= m;
  }

  lemma RemoveMember(s: set<int>, m: int)
    requires m in s
    ensures |s - {m}| < |s|
  {
  }

  lemma LeastThenAscending(m: int, rest: seq<int>)
    requires StrictlyAscending(rest)
    requires forall k :: 0 <= k < |rest| ==> m < rest[k]
    ensures StrictlyAscending([m] + rest)
  {
  }

  /** A finite set has exactly one strictly ascending enumeration. */
  lemma {:induction false} AscendingUnique(a: seq<int>, b: seq<int>)
    requires StrictlyAscending(a) && StrictlyAscending(b)
    requires Elems(a) == Elems(b)
    ensures a == b
  {
    assert a != [] ==> a[0] in Elems(b);
    assert b != [] ==> b[0] in Elems(a);
    if a != [] && b != [] {
      assert a[0] <= b[0] by { assert b[0] in Elems(a); }
      assert b[0] <= a[0] by { assert a[0] in Elems(b); }
      assert Elems(a[1..]) == Elems(a) - {a[0]} by {
        forall x | x in Elems(a) - {a[0]} ensures x in Elems(a[1..]) {
          var i :| 0 <= i < |a| && a[i] == x;
        }
      }
      assert Elems(b[1..]) == Elems(b) - {b[0]} by {
        forall x | x in Elems(b) - {b[0]} ensures x in Elems(b[1..]) {
          var i :| 0 <= i < |b| && b[i] == x;
        }
      }
      AscendingUnique(a[1..], b[1..]);
      assert a == [a[0]] + a[1..];
      assert b == [b[0]] + b[1..];
    }
  }

  /** Any strictly ascending sequence is the ascending enumeration of its values. */
  lemma AscendingOfElems(a: seq<int>)
    requires StrictlyAscending(a)
    ensures Ascending(Elems(a)) == a
  {
    AscendingUnique(Ascending(Elems(a)), a);
  }

  /** The lectures 1..count as an array, empty for a count that is not positive. */
  function Numbered(count: int): (r: seq<int>)
    ensures |r| == if count <= 0 then 0 else count
    ensures forall i :: 0 <= i < |r| ==> r[i] == i + 1
  {
    if count <= 0 then [] else seq(count, i => i + 1)
  }

  lemma NumberedEnumeratesRange(count: int)
    ensures StrictlyAscending(Numbered(count))
    ensures Elems(Numbered(count)) == Range(1, count)
  {
    var r := Numbered(count);
    forall x | x in Range(1, count) ensures x in Elems(r) {
      assert r[x - 1] == x;
    }
  }

  /** The ascending enumeration of 1..k is the array [1, ..., k]. */
  lemma AscendingRange(k: int)
    ensures Ascending(Range(1, k)) == Numbered(k)
  {
    NumberedEnumeratesRange(k);
    AscendingOfElems(Numbered(k));
  }

  /** Selects the least element of a non-empty set by scanning it. */
  method LeastOf(s: set<int>) returns (m: int)
    requires s != {}
    ensures IsLeast(m, s)
  {
    HasMember(s);
    m :| m in s;
    var unseen := s - {m};
    while unseen != {}
      invariant unseen <= s
      invariant m in s
      invariant forall y :: y in s - unseen ==> m <= y
      decreases |unseen|
    {
      HasMember(unseen);
      var y :| y in unseen;
      assert s - (unseen - {y}) == (s - unseen) + {y};
      if y < m {
        m := y;
      }
      unseen := unseen - {y};
    }
    assert s - unseen == s;
  }

  /**
    Converts a set of lecture numbers into a numerically sorted array, as
    `Array.from(set).sort((a, b) => a - b)` does.
   */
  method ToAscending(s: set<int>) returns (r: seq<int>)
    ensures r == Ascending(s)
  {
    r := [];
    var rest := s;
    assert r + Ascending(rest) == Ascending(s);
    while rest != {}
      invariant r + Ascending(rest) == Ascending(s)
      decreases |rest|
    {
      var m := LeastOf(rest);
      EmitLeast(rest, m);
      RemoveMember(rest, m);
      AppendRegroup(r, m, Ascending(rest - {m}));
      r := r + [m];
      rest := rest - {m};
    }
    EmittedAll(r, s);
  }

  /** Once nothing is left to emit, the output is the whole enumeration. */
  lemma EmittedAll(r: seq<int>, s: set<int>)
    requires r + Ascending({}) == Ascending(s)
    ensures r == Ascending(s)
  {
    assert Ascending({}) == [];
    assert r + [] == r;
  }
}
