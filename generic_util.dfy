/** Sequence helpers: the elements of a list as a set, duplicate removal,
    concatenation of lists, and grouping by a key (Util/generic_util,
    whose source is not part of this model, by the meaning of its names). */
module GenericUtil {

  /** The set view of a list: Python's `set(s)`. */
  function Elems<T>(s: seq<T>): set<T> {
    set x | x in s
  }

  /** No element occurs twice. */
  predicate Distinct<T(==)>(s: seq<T>) {
    forall i, j | 0 <= i < j < |s| :: s[i] != s[j]
  }

  /** Number of occurrences of `x` in `s`. */
  function Count<T(==)>(s: seq<T>, x: T): nat {
    multiset(s)[x]
  }

  /** The elements of `s` without repetitions, in order of first occurrence.
      The model uses this order wherever Python iterates over `set(s)`;
      nothing proved about the callers depends on it. */
  function Dedup<T(==)>(s: seq<T>): (r: seq<T>)
    ensures Distinct(r)
    ensures Elems(r) == Elems(s)
    ensures |r| <= |s|
  {
    if s == [] then []
    else
      var d := Dedup(s[..|s| - 1]);
      var x := s[|s| - 1];
      assert Elems(s) == Elems(s[..|s| - 1]) + {x} by {
        assert s == s[..|s| - 1] + [x];
      }
      if x in d then d else d + [x]
  }

  /** `x` is appended unless it is already present. */
  function AppendNew<T(==)>(s: seq<T>, x: T): (r: seq<T>)
    ensures Elems(r) == Elems(s) + {x}
    ensures |r| <= |s| + 1
    ensures s <= r
  {
    if x in s then s else s + [x]
  }

  /** Every element of `t` not yet present is appended to `s`, in order. */
  function AppendAllNew<T(==)>(s: seq<T>, t: seq<T>): (r: seq<T>)
    ensures Elems(r) == Elems(s) + Elems(t)
    ensures s <= r
    decreases |t|
  {
    if t == [] then s
    else
      assert Elems(t) == {t[0]} + Elems(t[1..]) by {
        assert t == [t[0]] + t[1..];
      }
      var r := AppendAllNew(AppendNew(s, t[0]), t[1..]);
      r
  }

  /** Appending only absent elements keeps a list free of repeats. */
  lemma {:induction false} AppendNewDistinct<T>(s: seq<T>, x: T)
    requires Distinct(s)
    ensures Distinct(AppendNew(s, x))
  {
  }

  lemma {:induction false} AppendAllNewDistinct<T>(s: seq<T>, t: seq<T>)
    requires Distinct(s)
    ensures Distinct(AppendAllNew(s, t))
    decreases |t|
  {
    if t != [] {
      AppendNewDistinct(s, t[0]);
      AppendAllNewDistinct(AppendNew(s, t[0]), t[1..]);
    }
  }

  /** Appending elements that are all present already changes nothing. */
  lemma {:induction false} AppendAllNewPresent<T>(s: seq<T>, t: seq<T>)
    requires Elems(t) <= Elems(s)
    ensures AppendAllNew(s, t) == s
    decreases |t|
  {
    if t != [] {
      assert t[0] in Elems(t);
      assert Elems(t[1..]) <= Elems(t) by {
        assert t == [t[0]] + t[1..];
      }
      AppendAllNewPresent(s, t[1..]);
    }
  }

  /** Concatenation of the lists (`flatten` / `reduce(concat, ...)`). */
  function Flatten<T>(ss: seq<seq<T>>): seq<T>
    decreases |ss|
  {
    if ss == [] then [] else ss[0] + Flatten(ss[1..])
  }

  lemma {:induction false} FlattenMember<T>(ss: seq<seq<T>>, x: T)
    ensures x in Flatten(ss) <==> exists i :: 0 <= i < |ss| && x in ss[i]
    decreases |ss|
  {
    if ss != [] {
      FlattenMember(ss[1..], x);
      if x in Flatten(ss[1..]) {
        var i :| 0 <= i < |ss[1..]| && x in ss[1..][i];
        assert x in ss[i + 1];
      }
      forall i | 1 <= i < |ss| && x in ss[i]
        ensures x in Flatten(ss[1..])
      {
        assert x in ss[1..][i - 1];
      }
    }
  }

  lemma {:induction false} FlattenAppend<T>(ss: seq<seq<T>>, t: seq<T>)
    ensures Flatten(ss + [t]) == Flatten(ss) + t
    decreases |ss|
  {
    if ss == [] {
      assert [] + [t] == [t];
    } else {
      assert (ss + [t])[1..] == ss[1..] + [t];
      FlattenAppend(ss[1..], t);
    }
  }

  /** Membership in a non-empty list: the head or the tail. */
  lemma {:induction false} InCons<T>(s: seq<T>, x: T)
    requires s != []
    ensures x in s <==> x == s[0] || x in s[1..]
  {
    if x in s && x != s[0] {
      var i :| 0 <= i < |s| && s[i] == x;
      assert s[1..][i - 1] == x;
    }
  }

  /** A list is repeat-free iff its head is not in its tail and its tail
      is repeat-free. */
  lemma {:induction false} DistinctCons<T>(s: seq<T>)
    requires s != []
    ensures Distinct(s) <==> s[0] !in s[1..] && Distinct(s[1..])
  {
    var t := s[1..];
    if s[0] in t {
      var k :| 0 <= k < |t| && t[k] == s[0];
      assert s[0] == s[k + 1];
    } else if Distinct(t) {
      forall i, j | 0 <= i < j < |s| ensures s[i] != s[j] {
        if i > 0 {
          assert s[i] == t[i - 1] && s[j] == t[j - 1];
        } else {
          assert s[j] == t[j - 1];
        }
      }
    } else {
      var i, j :| 0 <= i < j < |t| && t[i] == t[j];
      assert s[i + 1] == s[j + 1];
    }
  }

  /** The number of elements of a list bounds the size of its set view, and
      equals it exactly when the list has no duplicates. */
  lemma {:induction false} ElemsCard<T>(s: seq<T>)
    ensures |Elems(s)| <= |s|
    ensures |Elems(s)| == |s| <==> Distinct(s)
    decreases |s|
  {
    if s != [] {
      var t := s[1..];
      ElemsCard(t);
      DistinctCons(s);
      assert Elems(s) == Elems(t) + {s[0]} by {
        assert s == [s[0]] + t;
      }
      if s[0] in t {
        assert Elems(s) == Elems(t);
      } else {
        assert |Elems(s)| == |Elems(t)| + 1;
      }
    }
  }

  /** Groups the elements of `s` by their value in `key` (`group_by` with the
      key function `lambda x: key[x]`), each group in input order. */
  function GroupBy<K(==), T(==)>(key: map<T, K>, s: seq<T>): map<K, seq<T>>
    requires forall x | x in s :: x in key
    decreases |s|
  {
    if s == [] then map[]
    else
      var m := GroupBy(key, s[..|s| - 1]);
      var k := key[s[|s| - 1]];
      m[k := (if k in m then m[k] else []) + [s[|s| - 1]]]
  }

  /** The groups are keyed by exactly the keys of the elements, and each group
      holds only elements of the input with that key. */
  lemma {:induction false} GroupByKeys<K, T>(key: map<T, K>, s: seq<T>)
    requires forall x | x in s :: x in key
    ensures forall k :: k in GroupBy(key, s) <==> exists x | x in s :: key[x] == k
    ensures forall k, x | k in GroupBy(key, s) && x in GroupBy(key, s)[k] :: x in s && key[x] == k
    decreases |s|
  {
    if s != [] {
      var p, x := s[..|s| - 1], s[|s| - 1];
      assert s == p + [x];
      GroupByKeys(key, p);
    }
  }

  /** Every element lands in the group of its own key as often as it occurs. */
  lemma {:induction false} GroupByCounts<K, T>(key: map<T, K>, s: seq<T>, y: T)
    requires forall x | x in s :: x in key
    requires y in s
    ensures key[y] in GroupBy(key, s)
    ensures Count(GroupBy(key, s)[key[y]], y) == Count(s, y)
    decreases |s|
  {
    var p, x := s[..|s| - 1], s[|s| - 1];
    assert s == p + [x];
    assert multiset(s) == multiset(p) + multiset{x};
    var m := GroupBy(key, p);
    var k := key[x];
    if y in p {
      GroupByCounts(key, p, y);
      if key[y] == k {
        assert GroupBy(key, s)[k] == m[k] + [x];
      }
    } else {
      assert y == x;
      if k in m {
        GroupByKeys(key, p);
        assert y !in m[k];
        assert GroupBy(key, s)[k] == m[k] + [x];
      } else {
        assert GroupBy(key, s)[k] == [x];
      }
    }
  }

  /** The first components of a list of pairs (the keys of a dict's items). */
  function Firsts<A, B>(s: seq<(A, B)>): (r: seq<A>)
    ensures |r| == |s|
    ensures forall i | 0 <= i < |s| :: r[i] == s[i].0
    decreases |s|
  {
    if s == [] then [] else [s[0].0] + Firsts(s[1..])
  }

  lemma {:induction false} FirstsAppend<A, B>(s: seq<(A, B)>, t: seq<(A, B)>)
    ensures Firsts(s + t) == Firsts(s) + Firsts(t)
    decreases |s|
  {
    if s == [] {
      assert s + t == t;
    } else {
      assert (s + t)[1..] == s[1..] + t;
      FirstsAppend(s[1..], t);
    }
  }

  /** In a list without repeats an element occurs once or not at all. */
  lemma {:induction false} DistinctCount<T>(s: seq<T>, x: T)
    requires Distinct(s)
    ensures Count(s, x) == if x in s then 1 else 0
    decreases |s|
  {
    if s != [] {
      assert s == [s[0]] + s[1..];
      assert multiset(s) == multiset{s[0]} + multiset(s[1..]);
      assert Distinct(s[1..]) by {
        forall i, j | 0 <= i < j < |s[1..]| ensures s[1..][i] != s[1..][j] {
          assert s[1..][i] == s[i + 1] && s[1..][j] == s[j + 1];
        }
      }
      DistinctCount(s[1..], x);
      if x == s[0] {
        forall k | 0 <= k < |s[1..]| ensures s[1..][k] != x {
          assert s[1..][k] == s[k + 1];
        }
      }
    }
  }

  /** Pairs with distinct first components are distinct. */
  lemma {:induction false} FirstsDistinct<A, B>(s: seq<(A, B)>)
    requires Distinct(Firsts(s))
    ensures Distinct(s)
  {
    forall i, j | 0 <= i < j < |s| ensures s[i] != s[j] {
      assert Firsts(s)[i] != Firsts(s)[j];
    }
  }

  /** A rearrangement of a list without repeats has no repeats. */
  lemma {:induction false} DistinctPermutation<T>(s: seq<T>, t: seq<T>)
    requires multiset(s) == multiset(t) && Distinct(s)
    ensures Distinct(t)
    ensures Elems(s) == Elems(t)
  {
    forall x ensures x in s <==> x in t {
      assert x in s <==> x in multiset(s);
      assert x in t <==> x in multiset(t);
    }
    assert Elems(s) == Elems(t);
    assert |s| == |multiset(s)| == |multiset(t)| == |t|;
    ElemsCard(s);
    ElemsCard(t);
  }

  /** Two lists without repeats and without common elements concatenate to a
      list without repeats. */
  lemma {:induction false} DistinctAppend<T>(a: seq<T>, b: seq<T>)
    requires Distinct(a) && Distinct(b)
    requires forall x | x in a :: x !in b
    ensures Distinct(a + b)
  {
    var c := a + b;
    forall i, j | 0 <= i < j < |c| ensures c[i] != c[j] {
      if j < |a| {
        assert c[i] == a[i] && c[j] == a[j];
      } else if i >= |a| {
        assert c[i] == b[i - |a|] && c[j] == b[j - |a|];
      } else {
        assert c[i] == a[i] && c[j] == b[j - |a|];
        assert a[i] in a;
      }
    }
  }

  /** The second component of a pair (`snd`). */
  function Snd<A, B>(p: (A, B)): B {
    p.1
  }
}
