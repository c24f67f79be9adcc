/**
 * Sequence helpers shared by the graph and histogram modules: duplicate-free
 * sequences, insert-if-absent, and counting occurrences.
 */
module Seqs {

  /** No element occurs twice. */
  predicate Distinct<T(==)>(s: seq<T>)
  {
    forall i, j :: 0 <= i < j < |s| ==> s[i] != s[j]
  }

  /**
   * Appends `x` unless it is already present: the shape of every
   * "if (!Contains(x)) Add(x)" in the source.
   */
  function InsertIfAbsent<T(==)>(s: seq<T>, x: T): (r: seq<T>)
    ensures x in r && s <= r && |r| <= |s| + 1
    ensures forall i :: 0 <= i < |r| ==> r[i] in s || r[i] == x
    ensures x in s ==> r == s
    ensures Distinct(s) ==> Distinct(r)
  {
    if x in s then s else s + [x]
  }

  /** Number of positions of `s` holding `x`. */
  function Occurrences<T(==)>(s: seq<T>, x: T): nat
  {
    if s == [] then 0
    else Occurrences(s[..|s| - 1], x) + (if s[|s| - 1] == x then 1 else 0)
  }

  /** The positions of `s` that hold `x`. */
  ghost function Positions<T>(s: seq<T>, x: T): set<int>
  {
    set i | 0 <= i < |s| && s[i] == x
  }

  /** `Occurrences` counts exactly the positions that hold `x`. */
  lemma {:induction false} OccurrencesPositions<T>(s: seq<T>, x: T)
    ensures Occurrences(s, x) == |Positions(s, x)|
  {
    if s != [] {
      var init := s[..|s| - 1];
      var last := if s[|s| - 1] == x then {|s| - 1} else {};
      OccurrencesPositions(init, x);
      assert Positions(s, x) == Positions(init, x) + last by {
        forall i ensures i in Positions(s, x) <==> i in Positions(init, x) + last {
          if 0 <= i < |init| {
            assert s[i] == init[i];
          }
        }
      }
      assert |last| == if s[|s| - 1] == x then 1 else 0;
    }
  }

  lemma {:induction false} OccurrencesAbsent<T>(s: seq<T>, x: T)
    requires x !in s
    ensures Occurrences(s, x) == 0
  {
    if s != [] {
      assert x !in s[..|s| - 1] by {
        forall y | y in s[..|s| - 1] ensures y in s { }
      }
      OccurrencesAbsent(s[..|s| - 1], x);
    }
  }

  /** An element of a duplicate-free sequence occurs exactly once. */
  lemma {:induction false} OccurrencesDistinct<T>(s: seq<T>, x: T)
    requires Distinct(s) && x in s
    ensures Occurrences(s, x) == 1
  {
    var init := s[..|s| - 1];
    if s[|s| - 1] == x {
      assert x !in init;
      OccurrencesAbsent(init, x);
    } else {
      assert x in init by {
        var k :| 0 <= k < |s| && s[k] == x;
        assert init[k] == x;
      }
      OccurrencesDistinct(init, x);
    }
  }

  /** Counting from the front agrees with counting from the back. */
  lemma {:induction false} OccurrencesCons<T>(s: seq<T>, x: T)
    requires s != []
    ensures Occurrences(s, x) == (if s[0] == x then 1 else 0) + Occurrences(s[1..], x)
  {
    if |s| > 1 {
      var init := s[..|s| - 1];
      OccurrencesCons(init, x);
      assert init[1..] == s[1..][..|s[1..]| - 1];
    }
  }

  /** Sum of a sequence of integers. */
  function Sum(s: seq<int>): int
  {
    if s == [] then 0 else s[0] + Sum(s[1..])
  }
}
