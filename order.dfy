/** Orders and sorting: Python's string comparison, and the stable sort
    behind `sorted(...)` and `Counter.most_common()`. */
module Order {
  import opened GenericUtil

  /** Python's `a < b` on strings: lexicographic by code point, a proper
      prefix being smaller. */
  predicate StrLt(a: string, b: string)
    decreases |a|
  {
    if |b| == 0 then false
    else if |a| == 0 then true
    else if a[0] != b[0] then a[0] < b[0]
    else StrLt(a[1..], b[1..])
  }

  lemma {:induction false} StrLtIrreflexive(a: string)
    ensures !StrLt(a, a)
    decreases |a|
  {
    if |a| > 0 {
      StrLtIrreflexive(a[1..]);
    }
  }

  lemma {:induction false} StrLtTransitive(a: string, b: string, c: string)
    requires StrLt(a, b) && StrLt(b, c)
    ensures StrLt(a, c)
    decreases |a|
  {
    if |a| > 0 && a[0] == b[0] && b[0] == c[0] {
      StrLtTransitive(a[1..], b[1..], c[1..]);
    }
  }

  lemma {:induction false} StrLtTotal(a: string, b: string)
    requires a != b
    ensures StrLt(a, b) || StrLt(b, a)
    decreases |a|
  {
    if |a| > 0 && |b| > 0 && a[0] == b[0] {
      assert a == [a[0]] + a[1..] && b == [b[0]] + b[1..];
      StrLtTotal(a[1..], b[1..]);
    }
  }

  /** A strict partial order: irreflexive and transitive. */
  ghost predicate StrictOrder<T(!new)>(lt: (T, T) -> bool) {
    && (forall x :: !lt(x, x))
    && (forall x, y, z :: lt(x, y) && lt(y, z) ==> lt(x, z))
  }

  /** A strict total order: a strict order relating any two distinct values. */
  ghost predicate StrictTotalOrder<T(!new)>(lt: (T, T) -> bool) {
    StrictOrder(lt) && forall x, y :: x != y ==> lt(x, y) || lt(y, x)
  }

  /** No element is strictly before an element that precedes it. */
  ghost predicate SortedBy<T>(s: seq<T>, lt: (T, T) -> bool) {
    forall i, j | 0 <= i < j < |s| :: !lt(s[j], s[i])
  }

  /** Every element is strictly before each element that follows it. */
  ghost predicate StrictlySortedBy<T>(s: seq<T>, lt: (T, T) -> bool) {
    forall i, j | 0 <= i < j < |s| :: lt(s[i], s[j])
  }

  lemma {:induction false} StrictOrderOfStrings()
    ensures StrictTotalOrder(StrLt)
  {
    forall x ensures !StrLt(x, x) {
      StrLtIrreflexive(x);
    }
    forall x, y, z | StrLt(x, y) && StrLt(y, z) ensures StrLt(x, z) {
      StrLtTransitive(x, y, z);
    }
    forall x, y | x != y ensures StrLt(x, y) || StrLt(y, x) {
      StrLtTotal(x, y);
    }
  }

  /** Inserts `x` just before the first element it is strictly before, that
      is after every element that is not strictly after it. */
  function InsertBy<T>(s: seq<T>, x: T, lt: (T, T) -> bool): (r: seq<T>)
    ensures multiset(r) == multiset(s) + multiset{x}
    ensures |r| == |s| + 1
    decreases |s|
  {
    if s == [] then [x]
    else if lt(x, s[0]) then [x] + s
    else
      assert s == [s[0]] + s[1..];
      [s[0]] + InsertBy(s[1..], x, lt)
  }

  /** Insertion sort: each element, in input order, is inserted into the
      sorted prefix after every element that is not strictly after it, so
      elements that are not ordered either way keep their input order. */
  function SortBy<T>(s: seq<T>, lt: (T, T) -> bool): (r: seq<T>)
    ensures multiset(r) == multiset(s)
    ensures |r| == |s|
    decreases |s|
  {
    if s == [] then []
    else
      assert s == s[..|s| - 1] + [s[|s| - 1]];
      InsertBy(SortBy(s[..|s| - 1], lt), s[|s| - 1], lt)
  }

  lemma {:induction false} InsertBySorted<T(!new)>(s: seq<T>, x: T, lt: (T, T) -> bool)
    requires StrictOrder(lt)
    requires SortedBy(s, lt)
    ensures SortedBy(InsertBy(s, x, lt), lt)
    decreases |s|
  {
    if s != [] && !lt(x, s[0]) {
      var t := InsertBy(s[1..], x, lt);
      InsertBySorted(s[1..], x, lt);
      assert multiset(t) == multiset(s[1..]) + multiset{x};
      forall j | 0 <= j < |t| ensures !lt(t[j], s[0]) {
        assert t[j] in multiset(t);
        if t[j] != x {
          assert t[j] in multiset(s[1..]);
          var k :| 0 <= k < |s[1..]| && s[1..][k] == t[j];
          assert s[k + 1] == t[j];
        }
      }
      var r := [s[0]] + t;
      forall i, j | 0 <= i < j < |r| ensures !lt(r[j], r[i]) {
        if i > 0 {
          assert r[i] == t[i - 1] && r[j] == t[j - 1];
        } else {
          assert r[j] == t[j - 1];
        }
      }
    } else if s != [] {
      var r := [x] + s;
      forall i, j | 0 <= i < j < |r| ensures !lt(r[j], r[i]) {
        if i > 0 {
          assert r[i] == s[i - 1] && r[j] == s[j - 1];
        } else {
          // lt(s[j - 1], x) with lt(x, s[0]) would put s[j - 1] before s[0]
          assert r[j] == s[j - 1];
          assert !lt(s[j - 1], s[0]);
        }
      }
    }
  }

  /** The insertion sort of a strict order is sorted by it. */
  lemma {:induction false} SortBySorted<T(!new)>(s: seq<T>, lt: (T, T) -> bool)
    requires StrictOrder(lt)
    ensures SortedBy(SortBy(s, lt), lt)
    decreases |s|
  {
    if s != [] {
      SortBySorted(s[..|s| - 1], lt);
      InsertBySorted(SortBy(s[..|s| - 1], lt), s[|s| - 1], lt);
    }
  }

  /** Under a strict total order, a sorted list without duplicates is
      strictly sorted. */
  lemma {:induction false} SortedDistinctIsStrict<T(!new)>(s: seq<T>, lt: (T, T) -> bool)
    requires StrictTotalOrder(lt)
    requires SortedBy(s, lt) && Distinct(s)
    ensures StrictlySortedBy(s, lt)
  {
  }

  /** Under a strict total order there is only one strictly sorted
      arrangement of a set of values: the sorted order is fully determined. */
  lemma {:induction false} StrictlySortedUnique<T(!new)>(s: seq<T>, t: seq<T>, lt: (T, T) -> bool)
    requires StrictOrder(lt)
    requires StrictlySortedBy(s, lt) && StrictlySortedBy(t, lt)
    requires Elems(s) == Elems(t)
    ensures s == t
    decreases |s|
  {
    if s != [] {
      assert s[0] in Elems(t);
    }
    if t != [] {
      assert t[0] in Elems(s);
    }
    if s != [] {
      var i :| 0 <= i < |t| && t[i] == s[0];
      var j :| 0 <= j < |s| && s[j] == t[0];
      assert s[0] == t[0];
      forall x | x in Elems(s[1..]) ensures x in Elems(t[1..]) {
        var i :| 1 <= i < |s| && s[i] == x;
        assert x in Elems(t);
        var j :| 0 <= j < |t| && t[j] == x;
        assert lt(s[0], s[i]);
        assert t[0] != x;
        assert t[1..][j - 1] == x;
      }
      forall x | x in Elems(t[1..]) ensures x in Elems(s[1..]) {
        var i :| 1 <= i < |t| && t[i] == x;
        assert x in Elems(s);
        var j :| 0 <= j < |s| && s[j] == x;
        assert lt(t[0], t[i]);
        assert s[0] != x;
        assert s[1..][j - 1] == x;
      }
      StrictlySortedUnique(s[1..], t[1..], lt);
      assert s == [s[0]] + s[1..] && t == [t[0]] + t[1..];
    }
  }
}
