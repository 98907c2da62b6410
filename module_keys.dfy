/** The fixed alphabet of feature-module keys and the two helpers that clean up a list of them:
    `normalizeModuleKeys` (keep valid keys, drop repeats) and `ensureBaseModules` (put the mandatory
    base key first, then the other valid keys). Both build an insertion-ordered set in a loop. */
module ModuleKeys {
  import opened Wrappers

  /** A JavaScript value as `isModuleKey` sees it: a string, or anything else. */
  datatype Value = Str(s: string) | NonString

  const AllModuleKeys: seq<string> := ["employee-dashboard", "timekeeping", "tasks", "reports", "team", "settings"]
  const BaseModuleKey: string := "employee-dashboard"
  const BaseModuleKeys: seq<string> := [BaseModuleKey]

  /** `isModuleKey`: a string equal to one of the six keys. */
  predicate IsModuleKey(v: Value) {
    v.Str? && v.s in AllModuleKeys
  }

  predicate NoDuplicates(xs: seq<string>) {
    forall i, j :: 0 <= i < j < |xs| ==> xs[i] != xs[j]
  }

  predicate AllKeys(xs: seq<string>) {
    forall i :: 0 <= i < |xs| ==> xs[i] in AllModuleKeys
  }

  /** The six keys are distinct, the base key is the first of them, and a value is a key exactly when it
      is the string of one of them. */
  lemma AlphabetFacts(v: Value)
    ensures |AllModuleKeys| == 6 && NoDuplicates(AllModuleKeys) && AllModuleKeys[0] == BaseModuleKey
    ensures IsModuleKey(v) <==> exists i :: 0 <= i < |AllModuleKeys| && v == Str(AllModuleKeys[i])
  {
  }

  /** The strings of `ms` seen as JavaScript values. */
  function Strs(ms: seq<string>): (r: seq<Value>)
    ensures |r| == |ms| && forall i :: 0 <= i < |ms| ==> r[i] == Str(ms[i])
  {
    seq(|ms|, i requires 0 <= i < |ms| => Str(ms[i]))
  }

  /** One loop step: add `v` to the insertion-ordered set `seen` if it is a key not yet present. */
  function Add(seen: seq<string>, v: Value): seq<string> {
    if IsModuleKey(v) && v.s !in seen then seen + [v.s] else seen
  }

  /** The set `seen` after the loop has run over `vs`, left to right. */
  function AddAll(seen: seq<string>, vs: seq<Value>): seq<string>
    decreases |vs|
  {
    if vs == [] then seen else Add(AddAll(seen, vs[..|vs| - 1]), vs[|vs| - 1])
  }

  /** What `normalizeModuleKeys` returns: nothing for `null`/`undefined`, else the loop's set. */
  function Normalized(values: Option<seq<Value>>): seq<string> {
    match values
    case None => []
    case Some(vs) => AddAll([], vs)
  }

  /** What `ensureBaseModules` returns: the loop's set, started from the base key. */
  function Merged(modules: seq<string>): seq<string> {
    AddAll(BaseModuleKeys, Strs(modules))
  }

  /** The smallest index at which `v` occurs in `vs`. */
  function FirstIndex(vs: seq<Value>, v: Value): (r: nat)
    requires v in vs
    ensures r < |vs| && vs[r] == v && v !in vs[..r]
  {
    if vs[0] == v then 0 else 1 + FirstIndex(vs[1..], v)
  }

  lemma {:induction false} FirstIndexInPrefix(p: seq<Value>, x: Value, v: Value)
    requires v in p
    ensures FirstIndex(p + [x], v) == FirstIndex(p, v)
  {
    if p[0] != v {
      assert (p + [x])[1..] == p[1..] + [x];
      FirstIndexInPrefix(p[1..], x, v);
    }
  }

  /** The loop keeps `seen` a prefix of its result, free of repeats and made only of keys, and adds
      exactly the keys of `vs`. */
  lemma {:induction false} AddAllFacts(seen: seq<string>, vs: seq<Value>)
    requires NoDuplicates(seen) && AllKeys(seen)
    ensures var r := AddAll(seen, vs);
      && NoDuplicates(r) && AllKeys(r) && |seen| <= |r| && r[..|seen|] == seen
      && forall k :: k in r <==> k in seen || (Str(k) in vs && k in AllModuleKeys)
    decreases |vs|
  {
    if vs != [] {
      var p := vs[..|vs| - 1];
      AddAllFacts(seen, p);
      assert vs == p + [vs[|vs| - 1]];
    }
  }

  /** The loop's result, from `seen`, over `a` then `b`, is the result over `a` fed into a loop over `b`. */
  lemma {:induction false} AddAllAppend(seen: seq<string>, a: seq<Value>, b: seq<Value>)
    ensures AddAll(seen, a + b) == AddAll(AddAll(seen, a), b)
    decreases |b|
  {
    if b == [] {
      assert a + b == a;
    } else {
      var b' := b[..|b| - 1];
      assert (a + b)[..|a + b| - 1] == a + b';
      AddAllAppend(seen, a, b');
    }
  }

  /** Running the loop from `seen` over the further keys `t` adds each of them in turn when none repeats. */
  lemma {:induction false} AddAllDistinct(seen: seq<string>, t: seq<string>)
    requires NoDuplicates(seen + t) && AllKeys(seen + t)
    ensures AddAll(seen, Strs(t)) == seen + t
    decreases |t|
  {
    if t != [] {
      var t' := t[..|t| - 1];
      assert (seen + t)[..|seen + t'|] == seen + t';
      assert Strs(t)[..|t| - 1] == Strs(t');
      AddAllDistinct(seen, t');
      assert (seen + t)[|seen + t| - 1] == t[|t| - 1];
      assert t[|t| - 1] !in seen + t' by {
        forall i | 0 <= i < |seen + t'| ensures (seen + t')[i] != t[|t| - 1] {
          assert (seen + t')[i] == (seen + t)[i];
        }
      }
      assert seen + t' + [t[|t| - 1]] == seen + t;
    }
  }

  /** `normalizeModuleKeys` yields only valid keys, never twice, and every valid key of the input. */
  lemma NormalizedFacts(values: Option<seq<Value>>)
    ensures var r := Normalized(values);
      && NoDuplicates(r) && AllKeys(r)
      && (values.None? ==> r == [])
      && forall k :: k in r <==> values.Some? && Str(k) in values.value && k in AllModuleKeys
  {
    if values.Some? {
      AddAllFacts([], values.value);
    }
  }

  /** The keys of `r` occur in `vs`, in the order of their first occurrence there. */
  predicate InFirstOccurrenceOrder(vs: seq<Value>, r: seq<string>) {
    forall i, j :: 0 <= i < j < |r| ==> PairInFirstOccurrenceOrder(vs, r, i, j)
  }

  predicate PairInFirstOccurrenceOrder(vs: seq<Value>, r: seq<string>, i: int, j: int)
    requires 0 <= i < j < |r|
  {
    Str(r[i]) in vs && Str(r[j]) in vs && FirstIndex(vs, Str(r[i])) < FirstIndex(vs, Str(r[j]))
  }

  /** `normalizeModuleKeys` lists the keys in the order of their first occurrence in the input. */
  lemma {:induction false} NormalizedInFirstOccurrenceOrder(vs: seq<Value>)
    ensures InFirstOccurrenceOrder(vs, AddAll([], vs))
    decreases |vs|
  {
    if vs != [] {
      var p, x := vs[..|vs| - 1], vs[|vs| - 1];
      assert vs == p + [x];
      NormalizedInFirstOccurrenceOrder(p);
      var r := AddAll([], vs);
      forall i, j | 0 <= i < j < |r| ensures PairInFirstOccurrenceOrder(vs, r, i, j) {
        FirstOccurrenceStep(p, x, i, j);
      }
    }
  }

  /** One more input value keeps the keys listed so far in first-occurrence order. */
  lemma FirstOccurrenceStep(p: seq<Value>, x: Value, i: nat, j: nat)
    requires InFirstOccurrenceOrder(p, AddAll([], p))
    requires i < j < |AddAll([], p + [x])|
    ensures PairInFirstOccurrenceOrder(p + [x], AddAll([], p + [x]), i, j)
  {
    var vs := p + [x];
    assert vs[..|vs| - 1] == p;
    AddAllFacts([], p);
    var rp := AddAll([], p);
    var r := AddAll([], vs);
    assert r == Add(rp, x);
    assert r[i] == rp[i] && rp[i] in rp;
    FirstIndexInPrefix(p, x, Str(rp[i]));
    if j < |rp| {
      assert r[j] == rp[j] && rp[j] in rp;
      assert PairInFirstOccurrenceOrder(p, rp, i, j);
      FirstIndexInPrefix(p, x, Str(rp[j]));
    } else {
      assert r == rp + [x.s] && x == Str(r[j]) && x !in p;
      assert FirstIndex(vs, x) == |p|;
    }
  }

  /** `ensureBaseModules(ms)` is `normalizeModuleKeys` of the base key followed by `ms`. */
  lemma MergedIsNormalizedWithBase(modules: seq<string>)
    ensures Merged(modules) == Normalized(Some([Str(BaseModuleKey)] + Strs(modules)))
  {
    AddAllAppend([], [Str(BaseModuleKey)], Strs(modules));
    assert AddAll([], [Str(BaseModuleKey)]) == BaseModuleKeys by {
      assert [Str(BaseModuleKey)][..0] == [];
    }
  }

  /** `ensureBaseModules` starts with the base key, repeats nothing, and holds exactly the base key and
      the valid keys of its input. */
  lemma MergedFacts(modules: seq<string>)
    ensures var r := Merged(modules);
      && |r| >= 1 && r[0] == BaseModuleKey && NoDuplicates(r) && AllKeys(r)
      && forall k :: k in r <==> k == BaseModuleKey || (k in modules && k in AllModuleKeys)
  {
    AddAllFacts(BaseModuleKeys, Strs(modules));
    var r := Merged(modules);
    forall k ensures Str(k) in Strs(modules) <==> k in modules {
      if k in modules {
        var i :| 0 <= i < |modules| && modules[i] == k;
        assert Strs(modules)[i] == Str(k);
      }
    }
    assert r[..1] == BaseModuleKeys;
  }

  lemma StrsCons(m: seq<string>)
    requires |m| >= 1
    ensures Strs(m) == [Str(m[0])] + Strs(m[1..])
  {
    assert forall i :: 0 <= i < |m| ==> Strs(m)[i] == ([Str(m[0])] + Strs(m[1..]))[i];
  }

  /** Feeding the base key to a set that already holds it changes nothing. */
  lemma AddBaseAgain()
    ensures AddAll(BaseModuleKeys, [Str(BaseModuleKey)]) == BaseModuleKeys
  {
    var one: seq<Value> := [Str(BaseModuleKey)];
    assert one[..0] == [];
    assert AddAll(BaseModuleKeys, one[..0]) == BaseModuleKeys;
  }

  /** A list that already starts with the base key and repeats no key is a fixed point of `ensureBaseModules`. */
  lemma MergedOfDistinct(m: seq<string>)
    requires |m| >= 1 && m[0] == BaseModuleKey && NoDuplicates(m) && AllKeys(m)
    ensures Merged(m) == m
  {
    var t := m[1..];
    StrsCons(m);
    AddAllAppend(BaseModuleKeys, [Str(BaseModuleKey)], Strs(t));
    AddBaseAgain();
    assert m == BaseModuleKeys + t;
    AddAllDistinct(BaseModuleKeys, t);
  }

  /** `ensureBaseModules` is idempotent. */
  lemma MergedIdempotent(modules: seq<string>)
    ensures Merged(Merged(modules)) == Merged(modules)
  {
    MergedFacts(modules);
    MergedOfDistinct(Merged(modules));
  }

  /** `ensureBaseModules(ALL_MODULE_KEYS)` is `ALL_MODULE_KEYS`, in the same order. */
  lemma MergedAllIsAll()
    ensures Merged(AllModuleKeys) == AllModuleKeys
  {
    AlphabetFacts(NonString);
    MergedOfDistinct(AllModuleKeys);
  }

  /** `normalizeModuleKeys`: the valid keys of `values`, each once, in first-occurrence order. */
  method NormalizeModuleKeys(values: Option<seq<Value>>) returns (keys: seq<string>)
    ensures keys == Normalized(values)
    ensures NoDuplicates(keys) && AllKeys(keys)
    ensures forall k :: k in keys <==> values.Some? && Str(k) in values.value && k in AllModuleKeys
  {
    NormalizedFacts(values);
    if values.None? {
      return [];
    }
    var vs := values.value;
    var seen: seq<string> := [];
    for i := 0 to |vs|
      invariant seen == AddAll([], vs[..i])
    {
      assert vs[..i + 1][..i] == vs[..i];
      if IsModuleKey(vs[i]) && vs[i].s !in seen {
        seen := seen + [vs[i].s];
      }
    }
    assert vs[..|vs|] == vs;
    keys := seen;
  }

  /** `ensureBaseModules`: the base key, then the other valid keys of `modules`, each once. */
  method EnsureBaseModules(modules: seq<string>) returns (merged: seq<string>)
    ensures merged == Merged(modules)
    ensures |merged| >= 1 && merged[0] == BaseModuleKey && NoDuplicates(merged) && AllKeys(merged)
    ensures forall k :: k in merged <==> k == BaseModuleKey || (k in modules && k in AllModuleKeys)
  {
    MergedFacts(modules);
    merged := BaseModuleKeys;
    for i := 0 to |modules|
      invariant merged == AddAll(BaseModuleKeys, Strs(modules[..i]))
    {
      assert Strs(modules[..i + 1])[..i] == Strs(modules[..i]);
      if IsModuleKey(Str(modules[i])) && modules[i] !in merged {
        merged := merged + [modules[i]];
      }
    }
    assert modules[..|modules|] == modules;
  }
}
