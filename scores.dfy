/** Score functions (scores.py): compare a state list with a candidate's
    neighbour list; higher is better. The ratios are exact reals here. */
module Scores {
  import opened Types
  import opened GenericUtil

  /** `Score`: a comparison of two node lists that returns a number or raises. */
  type Score = (seq<Node>, seq<Node>) -> Result<real>

  /** A subset is no larger than its superset. */
  lemma {:induction false} SubsetCard<T>(a: set<T>, b: set<T>)
    requires a <= b
    ensures |a| <= |b|
    decreases |b|
  {
    if b != {} {
      var x :| x in b;
      SubsetCard(a - {x}, b - {x});
    }
  }

  /** A subset as large as its superset is the whole superset. */
  lemma {:induction false} SubsetSameCard<T>(a: set<T>, b: set<T>)
    requires a <= b && |a| == |b|
    ensures a == b
  {
    if a != b {
      assert !(b <= a);
      var x :| x in b && x !in a;
      SubsetCard(a, b - {x});
    }
  }

  /** A ratio of a count to a positive count no smaller lies in [0, 1]. */
  lemma {:induction false} RatioBounds(x: nat, y: nat)
    requires 0 < y && x <= y
    ensures 0.0 <= x as real / y as real <= 1.0
    ensures x as real / y as real == 1.0 <==> x == y
  {
  }

  /** `jaccard_similarity(a, b)`: |A ∩ B| / |A ∪ B| of the set views; it
      divides by zero when both lists are empty. */
  function Jaccard(a: seq<Node>, b: seq<Node>): (r: Result<real>)
    ensures r.Err? <==> a == [] && b == []
    ensures r.Err? ==> r.error == ZeroDivisionError
    ensures r.Ok? ==> 0.0 <= r.value <= 1.0
  {
    var s1, s2 := Elems(a), Elems(b);
    if a == [] && b == [] then
      Err(ZeroDivisionError)
    else
      assert (if a != [] then a[0] else b[0]) in s1 + s2;
      SubsetCard(s1 * s2, s1 + s2);
      RatioBounds(|s1 * s2|, |s1 + s2|);
      Ok(|s1 * s2| as real / |s1 + s2| as real)
  }

  /** Jaccard similarity is symmetric. */
  lemma {:induction false} JaccardSymmetric(a: seq<Node>, b: seq<Node>)
    ensures Jaccard(a, b) == Jaccard(b, a)
  {
    assert Elems(a) * Elems(b) == Elems(b) * Elems(a);
    assert Elems(a) + Elems(b) == Elems(b) + Elems(a);
  }

  /** The similarity is 1 exactly for two non-empty lists with the same elements. */
  lemma {:induction false} JaccardOne(a: seq<Node>, b: seq<Node>)
    ensures Jaccard(a, b) == Ok(1.0) <==> (a != [] || b != []) && Elems(a) == Elems(b)
  {
    var s1, s2 := Elems(a), Elems(b);
    if a != [] || b != [] {
      assert (if a != [] then a[0] else b[0]) in s1 + s2;
      SubsetCard(s1 * s2, s1 + s2);
      RatioBounds(|s1 * s2|, |s1 + s2|);
      if Jaccard(a, b) == Ok(1.0) {
        assert |s1 * s2| == |s1 + s2|;
        SubsetSameCard(s1 * s2, s1 + s2);
        assert s1 == s2;
      }
      if s1 == s2 {
        assert s1 * s2 == s1 + s2;
      }
    }
  }

  /** `presence_score(a, b)`: the number of distinct elements of `a` found in
      `b`, over the length of `a` (duplicates count in the divisor). */
  function Presence(a: seq<Node>, b: seq<Node>): (r: Result<real>)
    ensures r.Err? <==> a == []
    ensures r.Err? ==> r.error == ZeroDivisionError
    ensures r.Ok? ==> 0.0 <= r.value <= 1.0
  {
    if |a| == 0 then Err(ZeroDivisionError)
    else
      SubsetCard(Elems(a) * Elems(b), Elems(a));
      ElemsCard(a);
      RatioBounds(|Elems(a) * Elems(b)|, |a|);
      Ok(|Elems(a) * Elems(b)| as real / |a| as real)
  }

  /** The presence score is 1 exactly when `a` has no repeats and all its
      elements are in `b`. */
  lemma {:induction false} PresenceOne(a: seq<Node>, b: seq<Node>)
    ensures Presence(a, b) == Ok(1.0) <==> a != [] && Distinct(a) && Elems(a) <= Elems(b)
  {
    if a != [] {
      var i := Elems(a) * Elems(b);
      SubsetCard(i, Elems(a));
      ElemsCard(a);
      RatioBounds(|i|, |a|);
      if Presence(a, b) == Ok(1.0) {
        assert |i| == |a|;
        SubsetSameCard(i, Elems(a));
      }
      if Distinct(a) && Elems(a) <= Elems(b) {
        assert i == Elems(a);
      }
    }
  }

  /** `reverse_presence_score(a, b)`: the shared distinct elements over the length of `b`. */
  function ReversePresence(a: seq<Node>, b: seq<Node>): (r: Result<real>)
    ensures r.Err? <==> b == []
    ensures r.Err? ==> r.error == ZeroDivisionError
    ensures r.Ok? ==> 0.0 <= r.value <= 1.0
  {
    if |b| == 0 then Err(ZeroDivisionError)
    else
      SubsetCard(Elems(a) * Elems(b), Elems(b));
      ElemsCard(b);
      RatioBounds(|Elems(a) * Elems(b)|, |b|);
      Ok(|Elems(a) * Elems(b)| as real / |b| as real)
  }

  /** The reverse presence score is the presence score with the arguments swapped. */
  lemma {:induction false} PresenceReverse(a: seq<Node>, b: seq<Node>)
    ensures Presence(a, b) == ReversePresence(b, a)
  {
    assert Elems(a) * Elems(b) == Elems(b) * Elems(a);
  }

  /** `perfect_match(a, b)`: 1 if the set views are equal, else 0. */
  function PerfectMatch(a: seq<Node>, b: seq<Node>): int {
    if Elems(a) == Elems(b) then 1 else 0
  }

  /** `all_left_match(a, b)`: 1 if every element of `a` is in `b`, else 0. */
  function AllLeftMatch(a: seq<Node>, b: seq<Node>): int {
    if Elems(a) <= Elems(b) then 1 else 0
  }

  /** `all_right_match(a, b)`: 1 if every element of `b` is in `a`, else 0. */
  function AllRightMatch(a: seq<Node>, b: seq<Node>): int {
    if Elems(b) <= Elems(a) then 1 else 0
  }

  /** The discrete scorers return only 0 or 1; the perfect match is symmetric
      and is the conjunction of the two subset checks, and the right check is
      the left one with the arguments swapped. */
  lemma {:induction false} DiscreteScores(a: seq<Node>, b: seq<Node>)
    ensures PerfectMatch(a, b) in {0, 1} && AllLeftMatch(a, b) in {0, 1} && AllRightMatch(a, b) in {0, 1}
    ensures PerfectMatch(a, b) == PerfectMatch(b, a)
    ensures PerfectMatch(a, b) == AllLeftMatch(a, b) * AllRightMatch(a, b)
    ensures AllLeftMatch(a, b) == AllRightMatch(b, a)
  {
  }

  /** A 0/1 scorer used where a `Score` is expected. */
  function Discrete(f: (seq<Node>, seq<Node>) -> int): Score {
    (a, b) => Ok(f(a, b) as real)
  }

  /** The built-in scorers see only the set views of their arguments, except
      for the list lengths the presence scores divide by. */
  lemma {:induction false} ScoresSeeSets(a: seq<Node>, b: seq<Node>, a': seq<Node>, b': seq<Node>)
    requires Elems(a) == Elems(a') && Elems(b) == Elems(b')
    ensures Jaccard(a, b) == Jaccard(a', b')
    ensures |a| == |a'| ==> Presence(a, b) == Presence(a', b')
    ensures |b| == |b'| ==> ReversePresence(a, b) == ReversePresence(a', b')
    ensures PerfectMatch(a, b) == PerfectMatch(a', b')
    ensures AllLeftMatch(a, b) == AllLeftMatch(a', b')
    ensures AllRightMatch(a, b) == AllRightMatch(a', b')
  {
    assert a == [] <==> a' == [] by {
      assert a != [] ==> a[0] in Elems(a');
      assert a' != [] ==> a'[0] in Elems(a);
    }
    assert b == [] <==> b' == [] by {
      assert b != [] ==> b[0] in Elems(b');
      assert b' != [] ==> b'[0] in Elems(b);
    }
  }
}
