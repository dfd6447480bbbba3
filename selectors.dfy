/** Selectors (selectors.py): the functions a controller applies to its
    state to get the list of nodes a scanner works around. */
module Selectors {
  import opened Types
  import opened GenericUtil

  /** `identity(state)`: a list state is its own node list. */
  function Identity(state: seq<Node>): (r: Result<seq<Node>>)
    ensures r.Ok? && r.value == state
  {
    Ok(state)
  }

  /** `last_only(state)`: the one-element list of the last state node;
      `state[-1]` raises IndexError on an empty state. */
  function LastOnly(state: seq<Node>): (r: Result<seq<Node>>)
    ensures r.Err? <==> state == []
    ensures r.Err? ==> r.error == IndexError
    ensures r.Ok? ==> |r.value| == 1 && r.value[0] == state[|state| - 1]
  {
    if state == [] then Err(IndexError) else Ok([state[|state| - 1]])
  }

  /** Whatever came before, `last_only` picks the node appended last. */
  lemma {:induction false} LastOnlyAppend(state: seq<Node>, n: Node)
    ensures LastOnly(state + [n]) == Ok([n])
  {
  }

  /** A dictionary state `Dict[str, List[Node]]`: its entries in insertion
      order, no key twice. */
  type DictState = s: seq<(string, seq<Node>)> | Distinct(Firsts(s)) witness []

  /** `state[k]`: the value stored under `k`, or KeyError. */
  function Lookup(s: seq<(string, seq<Node>)>, k: string): (r: Result<seq<Node>>)
    ensures r.Ok? <==> k in Firsts(s)
    ensures r.Err? ==> r.error == KeyError(k)
    ensures r.Ok? ==> (k, r.value) in s
    decreases |s|
  {
    if s == [] then Err(KeyError(k))
    else if s[0].0 == k then Ok(s[0].1)
    else Lookup(s[1..], k)
  }

  /** In a dictionary the lookup finds exactly the stored entry. */
  lemma {:induction false} LookupEntry(s: DictState, k: string, v: seq<Node>)
    ensures Lookup(s, k) == Ok(v) <==> (k, v) in s
    decreases |s|
  {
    if s != [] {
      var t: DictState := s[1..];
      if s[0].0 != k {
        LookupEntry(t, k, v);
        assert (k, v) in s <==> (k, v) in t;
      } else if (k, v) in s {
        var i :| 0 <= i < |s| && s[i] == (k, v);
        assert Firsts(s)[i] == Firsts(s)[0];
      }
    }
  }

  /** `state.values()`, in insertion order. */
  function Values(s: seq<(string, seq<Node>)>): (r: seq<seq<Node>>)
    ensures |r| == |s| && forall i | 0 <= i < |s| :: r[i] == s[i].1
    decreases |s|
  {
    if s == [] then [] else [s[0].1] + Values(s[1..])
  }

  /** The index of the first key that is not in the dictionary, or -1. */
  function FirstMissing(s: seq<(string, seq<Node>)>, keys: seq<string>): (r: int)
    ensures -1 <= r < |keys|
    ensures r == -1 <==> forall k | k in keys :: k in Firsts(s)
    ensures r >= 0 ==> keys[r] !in Firsts(s) && forall j | 0 <= j < r :: keys[j] in Firsts(s)
    decreases |keys|
  {
    if keys == [] then -1
    else
      assert forall x | x in keys :: x == keys[0] || x in keys[1..];
      if keys[0] !in Firsts(s) then 0
      else
        var k := FirstMissing(s, keys[1..]);
        if k == -1 then -1 else k + 1
  }

  /** `[state[k] for k in dict_keys]`: the values under the keys, in key
      order, or KeyError for the first key that is missing. */
  function Fields(s: DictState, keys: seq<string>): (r: Result<seq<seq<Node>>>)
    ensures r.Ok? <==> forall k | k in keys :: k in Firsts(s)
    ensures r.Err? ==> r.error == KeyError(keys[FirstMissing(s, keys)])
    ensures r.Ok? ==> |r.value| == |keys| && forall i | 0 <= i < |keys| :: Lookup(s, keys[i]) == Ok(r.value[i])
  {
    var m := FirstMissing(s, keys);
    if m >= 0 then Err(KeyError(keys[m]))
    else Ok(seq(|keys|, i requires 0 <= i < |keys| => Lookup(s, keys[i]).value))
  }

  /** The combined length of a list of lists. */
  function TotalLength(ss: seq<seq<Node>>): nat
    decreases |ss|
  {
    if ss == [] then 0 else |ss[0]| + TotalLength(ss[1..])
  }

  /** Concatenation adds up the lengths. */
  lemma {:induction false} FlattenLength(ss: seq<seq<Node>>)
    ensures |Flatten(ss)| == TotalLength(ss)
    decreases |ss|
  {
    if ss != [] {
      FlattenLength(ss[1..]);
    }
  }

  /** `reduce(concat, values)`: the concatenation; TypeError for no values. */
  function ConcatAll(vs: seq<seq<Node>>): (r: Result<seq<Node>>)
    ensures r.Err? <==> vs == []
    ensures r.Err? ==> r.error == TypeError
  {
    if vs == [] then Err(TypeError) else Ok(Flatten(vs))
  }

  /** `selected_fields_closure(state)`: the concatenation of the values
      under `dict_keys`, in key order. */
  function SelectedFields(keys: seq<string>, s: DictState): Result<seq<Node>> {
    var vs :- Fields(s, keys);
    ConcatAll(vs)
  }

  /** `all_dict_fields_closure(state)`: the concatenation of every value in
      insertion order. */
  function AllFields(s: DictState): Result<seq<Node>> {
    ConcatAll(Values(s))
  }

  /** `dict_fields_getter(dict_keys)`: the keyed selector for a non-empty
      key list, the every-field selector for an empty one. */
  function DictFieldsGetter(keys: seq<string>): DictState -> Result<seq<Node>> {
    if keys != [] then (s: DictState) => SelectedFields(keys, s) else (s: DictState) => AllFields(s)
  }

  /** The keyed selector raises KeyError for the first missing key, then
      returns exactly the nodes stored under the keys, as many as the stored
      lists hold together. */
  lemma {:induction false} SelectedFieldsFacts(keys: seq<string>, s: DictState)
    requires keys != []
    ensures SelectedFields(keys, s).Err? <==> exists k | k in keys :: k !in Firsts(s)
    ensures SelectedFields(keys, s).Err? ==> exists i | 0 <= i < |keys| ::
      && SelectedFields(keys, s).error == KeyError(keys[i]) && keys[i] !in Firsts(s)
      && forall j | 0 <= j < i :: keys[j] in Firsts(s)
    ensures SelectedFields(keys, s).Ok? ==> exists vs ::
      && Fields(s, keys) == Ok(vs)
      && |SelectedFields(keys, s).value| == TotalLength(vs)
      && forall x :: x in SelectedFields(keys, s).value <==>
           exists i | 0 <= i < |keys| :: (keys[i], vs[i]) in s && x in vs[i]
  {
    var fs := Fields(s, keys);
    if fs.Ok? {
      var vs := fs.value;
      FlattenLength(vs);
      forall x ensures x in Flatten(vs) <==> exists i | 0 <= i < |keys| :: (keys[i], vs[i]) in s && x in vs[i] {
        FlattenMember(vs, x);
        forall i | 0 <= i < |keys| ensures (keys[i], vs[i]) in s {
          LookupEntry(s, keys[i], vs[i]);
        }
      }
    }
  }

  /** The every-field selector returns exactly the stored nodes, as many as
      the stored lists hold together, and raises TypeError on an empty
      dictionary. */
  lemma {:induction false} AllFieldsFacts(s: DictState)
    ensures AllFields(s).Err? <==> s == []
    ensures AllFields(s).Err? ==> AllFields(s).error == TypeError
    ensures AllFields(s).Ok? ==> |AllFields(s).value| == TotalLength(Values(s))
    ensures AllFields(s).Ok? ==> forall x :: x in AllFields(s).value <==>
      exists i | 0 <= i < |s| :: x in s[i].1
  {
    if s != [] {
      FlattenLength(Values(s));
      forall x ensures x in Flatten(Values(s)) <==> exists i | 0 <= i < |s| :: x in s[i].1 {
        FlattenMember(Values(s), x);
      }
    }
  }

  /** The values of the entries `s` lists, in order. */
  lemma {:induction false} FieldsOfAllKeys(s: DictState, t: seq<(string, seq<Node>)>)
    requires forall i | 0 <= i < |t| :: t[i] in s
    ensures Fields(s, Firsts(t)) == Ok(Values(t))
  {
    var keys := Firsts(t);
    forall k | k in keys ensures k in Firsts(s) {
      var i :| 0 <= i < |t| && keys[i] == k;
      var j :| 0 <= j < |s| && s[j] == t[i];
      assert Firsts(s)[j] == k;
    }
    var f := Fields(s, keys);
    assert f.Ok?;
    var r := f.value;
    forall i | 0 <= i < |t| ensures r[i] == Values(t)[i] {
      LookupEntry(s, t[i].0, t[i].1);
      assert keys[i] == t[i].0;
    }
    assert r == Values(t);
  }

  /** Naming every key in insertion order selects the same nodes as naming
      none. */
  lemma {:induction false} SelectAllKeys(s: DictState)
    ensures SelectedFields(Firsts(s), s) == AllFields(s)
  {
    FieldsOfAllKeys(s, s);
  }

  /** Adding an entry under a new key keeps the dictionary a dictionary. */
  lemma {:induction false} AddFieldDict(s: DictState, k: string, v: seq<Node>)
    requires k !in Firsts(s)
    ensures Distinct(Firsts(s + [(k, v)]))
  {
    FirstsAppend(s, [(k, v)]);
    DistinctAppend(Firsts(s), [k]);
  }

  /** `state[k] = v` for a key `k` not yet present: the entry goes last. */
  function AddField(s: DictState, k: string, v: seq<Node>): (r: DictState)
    requires k !in Firsts(s)
    ensures r == s + [(k, v)]
  {
    AddFieldDict(s, k, v);
    s + [(k, v)]
  }

  /** A lookup in a dictionary grown by a new key finds the old entries as before. */
  lemma {:induction false} LookupAdded(s: seq<(string, seq<Node>)>, k: string, v: seq<Node>, key: string)
    requires key != k
    ensures Lookup(s + [(k, v)], key) == Lookup(s, key)
    decreases |s|
  {
    if s != [] {
      assert (s + [(k, v)])[1..] == s[1..] + [(k, v)];
      LookupAdded(s[1..], k, v, key);
    }
  }

  /** The key lookups avoiding the new key are unaffected by it. */
  lemma {:induction false} FieldsAdded(s: DictState, k: string, v: seq<Node>, keys: seq<string>)
    requires k !in Firsts(s) && k !in keys
    ensures Fields(AddField(s, k, v), keys) == Fields(s, keys)
  {
    var s' := AddField(s, k, v);
    FirstsAppend(s, [(k, v)]);
    assert Firsts([(k, v)]) == [k];
    FirstMissingAdded(s, k, v, keys);
    var f, f' := Fields(s, keys), Fields(s', keys);
    if f.Ok? {
      assert f'.Ok?;
      forall i | 0 <= i < |keys| ensures f'.value[i] == f.value[i] {
        LookupAdded(s, k, v, keys[i]);
      }
      assert f'.value == f.value;
    }
  }

  lemma {:induction false} FirstMissingAdded(s: DictState, k: string, v: seq<Node>, keys: seq<string>)
    requires k !in keys
    requires Firsts(s + [(k, v)]) == Firsts(s) + [k]
    ensures FirstMissing(s + [(k, v)], keys) == FirstMissing(s, keys)
    decreases |keys|
  {
    if keys != [] {
      assert keys[0] in keys && forall x | x in keys[1..] :: x in keys;
      assert keys[0] in Firsts(s + [(k, v)]) <==> keys[0] in Firsts(s);
      FirstMissingAdded(s, k, v, keys[1..]);
    }
  }

  /** A selector built with keys ignores a field added later under a key
      it does not name. */
  lemma {:induction false} SelectedFieldsNewField(keys: seq<string>, s: DictState, k: string, v: seq<Node>)
    requires k !in Firsts(s) && k !in keys
    ensures SelectedFields(keys, AddField(s, k, v)) == SelectedFields(keys, s)
  {
    FieldsAdded(s, k, v, keys);
  }

  /** The selector built without keys picks up a field added later, at the end. */
  lemma {:induction false} AllFieldsNewField(s: DictState, k: string, v: seq<Node>)
    requires k !in Firsts(s)
    ensures AllFields(AddField(s, k, v)) == if s == [] then Ok(v) else Ok(AllFields(s).value + v)
  {
    var s' := AddField(s, k, v);
    assert Values(s') == Values(s) + [v];
    FlattenAppend(Values(s), v);
    if s == [] {
      assert Values(s') == [v];
      assert Flatten([v]) == v + Flatten([]);
      assert v + [] == v;
    }
  }

  /** The getter picks the keyed selector exactly for a non-empty key list,
      so a field added later shows only when no keys were given. */
  lemma {:induction false} DictFieldsGetterChoice(keys: seq<string>, s: DictState)
    ensures keys != [] ==> DictFieldsGetter(keys)(s) == SelectedFields(keys, s)
    ensures keys == [] ==> DictFieldsGetter(keys)(s) == AllFields(s)
  {
  }
}
