/** The part of Python's `collections.Counter` the neighbour-intersection
    scanners use: counting a list, adding two counters, and `most_common()`.
    A counter is its list of (element, count) entries in insertion order,
    which is the order a Python dict iterates in. */
module Counters {
  import opened Types
  import opened GenericUtil
  import opened Order

  type Counter = seq<(Node, int)>

  /** `c[n]`: the count of `n`, 0 when `n` is absent. */
  function Get(c: Counter, n: Node): int
    decreases |c|
  {
    if c == [] then 0 else if c[0].0 == n then c[0].1 else Get(c[1..], n)
  }

  /** The invariant of every counter built here: each element has one
      entry and every count is positive. */
  predicate Proper(c: Counter) {
    Distinct(Firsts(c)) && forall i | 0 <= i < |c| :: c[i].1 > 0
  }

  /** `c[n] += 1`: the entry of `n` is incremented, or `(n, 1)` is appended. */
  function Bump(c: Counter, n: Node): Counter
    decreases |c|
  {
    if c == [] then [(n, 1)]
    else if c[0].0 == n then [(n, c[0].1 + 1)] + c[1..]
    else [c[0]] + Bump(c[1..], n)
  }

  /** `Counter(ns)`: the elements of `ns` counted in order. */
  function CounterOf(ns: seq<Node>): Counter
    decreases |ns|
  {
    if ns == [] then [] else Bump(CounterOf(ns[..|ns| - 1]), ns[|ns| - 1])
  }

  /** The entries of `c`, with the count in `d` added, that stay positive. */
  function AddLeft(c: Counter, d: Counter): Counter
    decreases |c|
  {
    if c == [] then []
    else
      var k := c[0].1 + Get(d, c[0].0);
      (if k > 0 then [(c[0].0, k)] else []) + AddLeft(c[1..], d)
  }

  /** The positive entries of `d` whose element is not in `c`. */
  function AddRight(c: Counter, d: Counter): Counter
    decreases |d|
  {
    if d == [] then []
    else (if d[0].0 !in Firsts(c) && d[0].1 > 0 then [d[0]] else []) + AddRight(c, d[1..])
  }

  /** `c + d`: the elements of `c` in their order, then the new elements of
      `d` in theirs, each with the sum of its counts, dropping counts that
      are not positive. */
  function Add(c: Counter, d: Counter): Counter {
    AddLeft(c, d) + AddRight(c, d)
  }

  /** The `most_common()` order: a higher count first. */
  predicate CountAbove(x: (Node, int), y: (Node, int)) {
    x.1 > y.1
  }

  /** `most_common()`: the entries sorted by count, highest first, entries
      with equal counts in insertion order. */
  function MostCommon(c: Counter): Counter {
    SortBy(c, CountAbove)
  }

  lemma {:induction false} GetAbsent(c: Counter, n: Node)
    requires n !in Firsts(c)
    ensures Get(c, n) == 0
    decreases |c|
  {
    if c != [] {
      assert Firsts(c)[1..] == Firsts(c[1..]);
      GetAbsent(c[1..], n);
    }
  }

  lemma {:induction false} GetAppend(a: Counter, b: Counter, n: Node)
    ensures Get(a + b, n) == if n in Firsts(a) then Get(a, n) else Get(b, n)
    decreases |a|
  {
    if a != [] {
      assert (a + b)[1..] == a[1..] + b;
      assert Firsts(a) == [a[0].0] + Firsts(a[1..]);
      GetAppend(a[1..], b, n);
    } else {
      assert a + b == b;
    }
  }

  /** The tail of a proper counter is proper and misses the head's element. */
  lemma {:induction false} ProperTail(c: Counter)
    requires Proper(c) && c != []
    ensures Firsts(c) == [c[0].0] + Firsts(c[1..])
    ensures Proper(c[1..]) && c[0].0 !in Firsts(c[1..])
  {
    var t := c[1..];
    assert Firsts(c) == [c[0].0] + Firsts(t);
    forall i, j | 0 <= i < j < |Firsts(t)| ensures Firsts(t)[i] != Firsts(t)[j] {
      assert Firsts(t)[i] == Firsts(c)[i + 1] && Firsts(t)[j] == Firsts(c)[j + 1];
    }
    forall i | 0 <= i < |t| ensures t[i].1 > 0 {
      assert t[i] == c[i + 1];
    }
    forall k | 0 <= k < |Firsts(t)| ensures Firsts(t)[k] != c[0].0 {
      assert Firsts(t)[k] == Firsts(c)[k + 1];
    }
  }

  /** A positive entry for a new element in front of a proper counter. */
  lemma {:induction false} ProperCons(x: (Node, int), t: Counter)
    requires Proper(t) && x.0 !in Firsts(t) && x.1 > 0
    ensures Firsts([x] + t) == [x.0] + Firsts(t)
    ensures Proper([x] + t)
  {
    var c := [x] + t;
    assert c[1..] == t;
    assert Firsts(c) == [x.0] + Firsts(t);
    DistinctAppend([x.0], Firsts(t));
    forall i | 0 <= i < |c| ensures c[i].1 > 0 {
      if i > 0 {
        assert c[i] == t[i - 1];
      }
    }
  }

  /** In a proper counter the count of an element is positive exactly when
      it has an entry (and 0 otherwise), and each entry holds the element's count. */
  lemma {:induction false} ProperEntries(c: Counter)
    requires Proper(c)
    ensures forall n :: Get(c, n) > 0 <==> n in Firsts(c)
    ensures forall n :: Get(c, n) >= 0
    ensures forall i | 0 <= i < |c| :: Get(c, c[i].0) == c[i].1
    ensures Distinct(c)
    decreases |c|
  {
    if c != [] {
      var t := c[1..];
      ProperTail(c);
      ProperEntries(t);
      forall i | 0 <= i < |c| ensures Get(c, c[i].0) == c[i].1 {
        if i > 0 {
          assert c[i] == t[i - 1];
          assert Firsts(c)[i] != Firsts(c)[0];
        }
      }
      forall i, j | 0 <= i < j < |c| ensures c[i] != c[j] {
        assert Firsts(c)[i] != Firsts(c)[j];
      }
    }
  }

  lemma {:induction false} BumpGet(c: Counter, n: Node, m: Node)
    ensures Get(Bump(c, n), m) == Get(c, m) + (if m == n then 1 else 0)
    decreases |c|
  {
    if c != [] && c[0].0 != n {
      assert Bump(c, n)[1..] == Bump(c[1..], n);
      BumpGet(c[1..], n, m);
    } else if c != [] {
      assert Bump(c, n)[1..] == c[1..];
    }
  }

  /** Bumping adds `n` to the elements, and no other element. */
  lemma {:induction false} BumpFirsts(c: Counter, n: Node)
    ensures forall m :: m in Firsts(Bump(c, n)) <==> m in Firsts(c) || m == n
    decreases |c|
  {
    if c != [] {
      var r := Bump(c, n);
      assert Firsts(c) == [c[0].0] + Firsts(c[1..]);
      assert Firsts(r) == [r[0].0] + Firsts(r[1..]);
      if c[0].0 != n {
        assert r[1..] == Bump(c[1..], n);
        BumpFirsts(c[1..], n);
      } else {
        assert r[1..] == c[1..];
      }
    }
  }

  lemma {:induction false} BumpProper(c: Counter, n: Node)
    requires Proper(c)
    ensures Proper(Bump(c, n))
    decreases |c|
  {
    if c == [] {
      assert Firsts(Bump(c, n)) == [n];
    } else {
      var t := c[1..];
      ProperTail(c);
      if c[0].0 == n {
        ProperCons((n, c[0].1 + 1), t);
      } else {
        BumpProper(t, n);
        BumpFirsts(t, n);
        ProperCons(c[0], Bump(t, n));
      }
    }
  }

  /** A counted list has one positive entry per distinct element, holding its
      number of occurrences. */
  lemma {:induction false} CounterOfFacts(ns: seq<Node>)
    ensures Proper(CounterOf(ns))
    ensures forall m :: Get(CounterOf(ns), m) == Count(ns, m)
    ensures Elems(Firsts(CounterOf(ns))) == Elems(ns)
    decreases |ns|
  {
    if ns != [] {
      var p, x := ns[..|ns| - 1], ns[|ns| - 1];
      assert ns == p + [x];
      assert multiset(ns) == multiset(p) + multiset{x};
      CounterOfFacts(p);
      BumpProper(CounterOf(p), x);
      BumpFirsts(CounterOf(p), x);
      assert Elems(ns) == Elems(p) + {x};
      forall m ensures Get(CounterOf(ns), m) == Count(ns, m) {
        BumpGet(CounterOf(p), x, m);
      }
    }
  }

  /** No count in a proper counter is negative. */
  lemma {:induction false} GetNonNegative(c: Counter, n: Node)
    requires Proper(c)
    ensures Get(c, n) >= 0
    decreases |c|
  {
    if c != [] && c[0].0 != n {
      ProperTail(c);
      GetNonNegative(c[1..], n);
    }
  }

  /** With proper counters the head entry stays, its counts added. */
  lemma {:induction false} AddLeftCons(c: Counter, d: Counter)
    requires Proper(c) && Proper(d) && c != []
    ensures AddLeft(c, d) == [(c[0].0, c[0].1 + Get(d, c[0].0))] + AddLeft(c[1..], d)
  {
    var k := c[0].1 + Get(d, c[0].0);
    assert c[0].1 > 0;
    GetNonNegative(d, c[0].0);
    var head := if k > 0 then [(c[0].0, k)] else [];
    assert AddLeft(c, d) == head + AddLeft(c[1..], d);
    assert head == [(c[0].0, k)];
    assert AddLeft(c, d) == [(c[0].0, k)] + AddLeft(c[1..], d);
  }

  lemma {:induction false} AddLeftFirsts(c: Counter, d: Counter)
    requires Proper(c) && Proper(d)
    ensures Firsts(AddLeft(c, d)) == Firsts(c)
    decreases |c|
  {
    if c != [] {
      var t := c[1..];
      assert Proper(t) by { ProperTail(c); }
      AddLeftFirsts(t, d);
      AddLeftCons(c, d);
      assert AddLeft(c, d)[1..] == AddLeft(t, d);
    }
  }

  lemma {:induction false} AddLeftProper(c: Counter, d: Counter)
    requires Proper(c) && Proper(d)
    ensures Proper(AddLeft(c, d))
    decreases |c|
  {
    if c != [] {
      var t, h := c[1..], c[0].0;
      assert Proper(t) && h !in Firsts(t) by { ProperTail(c); }
      AddLeftProper(t, d);
      AddLeftFirsts(t, d);
      AddLeftCons(c, d);
      assert Get(d, h) >= 0 by { GetNonNegative(d, h); }
      ProperCons((h, c[0].1 + Get(d, h)), AddLeft(t, d));
    }
  }

  lemma {:induction false} AddLeftGet(c: Counter, d: Counter, n: Node)
    requires Proper(c) && Proper(d) && n in Firsts(c)
    ensures Get(AddLeft(c, d), n) == Get(c, n) + Get(d, n)
    decreases |c|
  {
    var t, h := c[1..], c[0].0;
    AddLeftCons(c, d);
    assert AddLeft(c, d)[1..] == AddLeft(t, d);
    if n != h {
      assert Proper(t) && n in Firsts(t) by { ProperTail(c); }
      AddLeftGet(t, d, n);
    }
  }

  lemma {:induction false} AddLeftFacts(c: Counter, d: Counter)
    requires Proper(c) && Proper(d)
    ensures Firsts(AddLeft(c, d)) == Firsts(c)
    ensures Proper(AddLeft(c, d))
    ensures forall n | n in Firsts(c) :: Get(AddLeft(c, d), n) == Get(c, n) + Get(d, n)
  {
    AddLeftFirsts(c, d);
    AddLeftProper(c, d);
    forall n | n in Firsts(c) ensures Get(AddLeft(c, d), n) == Get(c, n) + Get(d, n) {
      AddLeftGet(c, d, n);
    }
  }

  lemma {:induction false} AddRightFacts(c: Counter, d: Counter)
    requires Proper(d)
    ensures Proper(AddRight(c, d))
    ensures forall n :: n in Firsts(AddRight(c, d)) <==> n in Firsts(d) && n !in Firsts(c)
    ensures forall n | n !in Firsts(c) :: Get(AddRight(c, d), n) == Get(d, n)
    decreases |d|
  {
    if d != [] {
      var t := d[1..];
      ProperTail(d);
      AddRightFacts(c, t);
      var rt := AddRight(c, t);
      if d[0].0 !in Firsts(c) {
        assert AddRight(c, d) == [d[0]] + rt;
        ProperCons(d[0], rt);
      } else {
        assert AddRight(c, d) == rt;
      }
    }
  }

  /** Two proper counters without common elements concatenate to a proper counter. */
  lemma {:induction false} ProperAppend(a: Counter, b: Counter)
    requires Proper(a) && Proper(b)
    requires forall x | x in Firsts(a) :: x !in Firsts(b)
    ensures Proper(a + b)
  {
    var s: Counter := a + b;
    assert Distinct(Firsts(s)) by {
      FirstsAppend(a, b);
      DistinctAppend(Firsts(a), Firsts(b));
    }
    forall i | 0 <= i < |s| ensures s[i].1 > 0 {
      if i >= |a| {
        assert s[i] == b[i - |a|];
      } else {
        assert s[i] == a[i];
      }
    }
  }

  /** Adding two proper counters gives a proper counter. */
  lemma {:induction false} AddProper(c: Counter, d: Counter)
    requires Proper(c) && Proper(d)
    ensures Proper(Add(c, d))
  {
    AddLeftFacts(c, d);
    AddRightFacts(c, d);
    ProperAppend(AddLeft(c, d), AddRight(c, d));
  }

  /** In the sum of two proper counters every count is the sum of the two counts. */
  lemma {:induction false} AddGet(c: Counter, d: Counter, n: Node)
    requires Proper(c) && Proper(d)
    ensures Get(Add(c, d), n) == Get(c, n) + Get(d, n)
  {
    var l, r := AddLeft(c, d), AddRight(c, d);
    AddLeftFacts(c, d);
    AddRightFacts(c, d);
    GetAppend(l, r, n);
    if n !in Firsts(c) {
      GetAbsent(c, n);
    }
  }

  /** Every element with a positive count has an entry in `most_common()`. */
  lemma {:induction false} MostCommonComplete(c: Counter, n: Node)
    requires Proper(c) && Get(c, n) > 0
    ensures exists i | 0 <= i < |MostCommon(c)| :: MostCommon(c)[i].0 == n
  {
    var r := MostCommon(c);
    ProperEntries(c);
    var k :| 0 <= k < |c| && Firsts(c)[k] == n;
    assert c[k] in multiset(c);
    assert c[k] in multiset(r);
    var i :| 0 <= i < |r| && r[i] == c[k];
  }

  /** `most_common()` lists every entry once, with its count, by count
      non-increasing. */
  lemma {:induction false} MostCommonFacts(c: Counter)
    requires Proper(c)
    ensures multiset(MostCommon(c)) == multiset(c)
    ensures forall i | 0 <= i < |MostCommon(c)| ::
      Get(c, MostCommon(c)[i].0) == MostCommon(c)[i].1 && MostCommon(c)[i].1 > 0
    ensures forall i, j | 0 <= i < j < |MostCommon(c)| ::
      MostCommon(c)[i].1 >= MostCommon(c)[j].1 && MostCommon(c)[i].0 != MostCommon(c)[j].0
  {
    var r := MostCommon(c);
    assert StrictOrder(CountAbove);
    SortBySorted(c, CountAbove);
    ProperEntries(c);
    DistinctPermutation(c, r);
    forall i | 0 <= i < |r| ensures Get(c, r[i].0) == r[i].1 && r[i].1 > 0 {
      assert r[i] in multiset(c);
      var k :| 0 <= k < |c| && c[k] == r[i];
    }
  }
}
