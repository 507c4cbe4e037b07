/**
 The settings store (src/krux/settings.py:79-91, 201-242): a nested dictionary addressed by namespace and
 name, refined against a flat map.

 A key is the namespace split at its dots followed by the setting's name.
 */
module Settings {
  import opened Bytes

  datatype Value = NoneValue | Text(text: string) | Number(number: int)

  datatype Node = Leaf(value: Value) | Dict(entries: Tree)
  type Tree = map<string, Node>
  type Key = k: seq<string> | |k| >= 1 witness [[]]

  // ---------------------------------------------------------------- operations on trees

  // s.get(level, {}) for the next level down.
  function Child(t: Tree, level: string): Tree {
    if level in t && t[level].Dict? then t[level].entries else map[]
  }

  function Get(t: Tree, key: Key): Option<Value>
    decreases |key|
  {
    if |key| == 1 then
      if key[0] in t && t[key[0]].Leaf? then Some(t[key[0]].value) else None
    else Get(Child(t, key[0]), key[1..])
  }

  function SetIn(t: Tree, key: Key, value: Value): Tree
    decreases |key|
  {
    if |key| == 1 then
      var old_ := if key[0] in t then t[key[0]] else Leaf(NoneValue);
      if old_ != Leaf(value) then t[key[0] := Leaf(value)] else t
    else t[key[0] := Dict(SetIn(Child(t, key[0]), key[1..], value))]
  }

  // Removes the setting, then every namespace on its path that is left empty.
  function DeleteIn(t: Tree, key: Key): Tree
    decreases |key|
  {
    if |key| == 1 then t - {key[0]}
    else Pruned(t, key[0], DeleteIn(Child(t, key[0]), key[1..]))
  }

  function Pruned(t: Tree, level: string, child: Tree): Tree {
    if child == map[] then t - {level} else t[level := Dict(child)]
  }

  // No namespace on the way is a setting, and the setting is not a namespace.
  ghost predicate Clear(t: Tree, key: Key)
    decreases |key|
  {
    if |key| == 1 then key[0] in t ==> t[key[0]].Leaf?
    else (key[0] in t ==> t[key[0]].Dict?) && Clear(Child(t, key[0]), key[1..])
  }

  // What is stored under a key, be it a value or a namespace, and the condition under which no operation raises:
  // no namespace on the way is a setting.
  function Lookup(t: Tree, key: Key): Option<Node>
    decreases |key|
  {
    if |key| == 1 then if key[0] in t then Some(t[key[0]]) else None
    else Lookup(Child(t, key[0]), key[1..])
  }

  ghost predicate PathClear(t: Tree, key: Key)
    decreases |key|
  {
    |key| > 1 ==> (key[0] in t ==> t[key[0]].Dict?) && PathClear(Child(t, key[0]), key[1..])
  }

  lemma {:induction false} LookupIsGet(t: Tree, key: Key)
    requires Clear(t, key)
    ensures PathClear(t, key)
    ensures Lookup(t, key) == match Get(t, key) case None => None case Some(v) => Some(Leaf(v))
    decreases |key|
  {
    if |key| > 1 {
      LookupIsGet(Child(t, key[0]), key[1..]);
    }
  }

  // ---------------------------------------------------------------- no clash between names

  predicate Apart(p: Key, q: Key)
    decreases |p|
  {
    if p[0] != q[0] then true
    else |p| > 1 && |q| > 1 && Apart(p[1..], q[1..])
  }

  /** A set of setting keys none of which is a namespace of another. */
  ghost predicate NoClash(keys: set<Key>) {
    forall p, q | p in keys && q in keys && p != q :: Apart(p, q)
  }

  ghost predicate Conforms(t: Tree, keys: set<Key>) {
    forall k | k in keys :: Clear(t, k)
  }

  lemma {:induction false} SetGet(t: Tree, p: Key, q: Key, value: Value)
    requires Clear(t, p) && Clear(t, q) && (p == q || Apart(p, q)) && value != NoneValue
    ensures Clear(SetIn(t, p, value), q)
    ensures Get(SetIn(t, p, value), q) == if p == q then Some(value) else Get(t, q)
    decreases |p|
  {
    if p[0] == q[0] && |p| > 1 {
      if p != q {
        assert p == [p[0]] + p[1..] && q == [q[0]] + q[1..];
      }
      SetGet(Child(t, p[0]), p[1..], q[1..], value);
    }
  }

  lemma {:induction false} DeleteGet(t: Tree, p: Key, q: Key)
    requires Clear(t, p) && Clear(t, q) && (p == q || Apart(p, q))
    ensures Clear(DeleteIn(t, p), q)
    ensures Get(DeleteIn(t, p), q) == if p == q then None else Get(t, q)
    decreases |p|
  {
    if p[0] == q[0] && |p| > 1 {
      if p != q {
        assert p == [p[0]] + p[1..] && q == [q[0]] + q[1..];
      }
      DeleteGet(Child(t, p[0]), p[1..], q[1..]);
      EmptyTree(q[1..]);
    }
  }

  lemma {:induction false} EmptyTree(q: Key)
    ensures Clear(map[], q) && Get(map[], q) == None
    decreases |q|
  {
    if |q| > 1 {
      EmptyTree(q[1..]);
    }
  }

  // ---------------------------------------------------------------- no empty namespaces

  ghost predicate FullNode(n: Node) {
    n.Dict? ==> n.entries != map[] && forall k | k in n.entries :: FullNode(n.entries[k])
  }

  ghost predicate NoEmpty(t: Tree) { forall k | k in t :: FullNode(t[k]) }

  lemma {:induction false} SetKeepsFull(t: Tree, key: Key, value: Value)
    requires NoEmpty(t) && Clear(t, key) && value != NoneValue
    ensures NoEmpty(SetIn(t, key, value)) && SetIn(t, key, value) != map[]
    decreases |key|
  {
    var r := SetIn(t, key, value);
    assert key[0] in r;
    if |key| > 1 {
      SetKeepsFull(Child(t, key[0]), key[1..], value);
    }
  }

  lemma {:induction false} DeleteKeepsFull(t: Tree, key: Key)
    requires NoEmpty(t) && Clear(t, key)
    ensures NoEmpty(DeleteIn(t, key))
    decreases |key|
  {
    if |key| > 1 {
      DeleteKeepsFull(Child(t, key[0]), key[1..]);
    }
  }

  // Below every namespace of such a tree there is a setting.
  lemma {:induction false} SomeLeaf(n: Node) returns (key: Key)
    requires n.Dict? && FullNode(n)
    ensures Get(n.entries, key).Some?
    decreases n
  {
    var t := n.entries;
    TreeKeys(t);
    LevelExists(t.Keys);
    var k :| k in t.Keys;
    if t[k].Leaf? {
      key := [k];
    } else {
      var rest := SomeLeaf(t[k]);
      key := [k] + rest;
      assert key[1..] == rest;
    }
  }

  lemma GetBelow(t: Tree, k: string, rest: Key)
    ensures Get(t, [k] + rest) == Get(Child(t, k), rest)
  {
    assert ([k] + rest)[1..] == rest;
  }

  // Same settings, then same node at every name.
  lemma {:induction false} SameNode(a: Node, t: Tree, u: Tree, k: string)
    requires k in t && t[k] == a && NoEmpty(t) && NoEmpty(u)
    requires forall key: Key :: Get(t, key) == Get(u, key)
    ensures k in u && u[k] == a
    decreases a
  {
    if a.Leaf? {
      assert Get(t, [k]) == Some(a.value);
      assert Get(u, [k]) == Some(a.value);
    } else {
      var rest := SomeLeaf(a);
      GetBelow(t, k, rest);
      GetBelow(u, k, rest);
      EmptyTree(rest);
      assert Child(u, k) != map[];
      var b := u[k];
      forall key: Key
        ensures Get(a.entries, key) == Get(b.entries, key)
      {
        GetBelow(t, k, key);
        GetBelow(u, k, key);
      }
      forall j | j in a.entries
        ensures j in b.entries && b.entries[j] == a.entries[j]
      {
        SameNode(a.entries[j], a.entries, b.entries, j);
      }
      forall j | j in b.entries
        ensures j in a.entries
      {
        if b.entries[j].Leaf? {
          assert Get(b.entries, [j]).Some?;
          assert Get(a.entries, [j]).Some?;
        } else {
          var below := SomeLeaf(b.entries[j]);
          GetBelow(b.entries, j, below);
          GetBelow(a.entries, j, below);
          EmptyTree(below);
        }
      }
      assert a.entries == b.entries;
    }
  }

  /** A tree without empty namespaces is determined by its settings alone. */
  lemma SettingsDetermineTree(t: Tree, u: Tree)
    requires NoEmpty(t) && NoEmpty(u) && forall key: Key :: Get(t, key) == Get(u, key)
    ensures t == u
  {
    forall k | k in t
      ensures k in u && u[k] == t[k]
    {
      SameNode(t[k], t, u, k);
    }
    forall k | k in u
      ensures k in t
    {
      SameNode(u[k], u, t, k);
    }
  }

  lemma TreeKeys(t: Tree)
    requires t != map[]
    ensures t.Keys != {}
  {
    if t.Keys == {} {
      assert false;
    }
  }

  lemma LevelExists(s: set<string>)
    requires s != {}
    ensures exists k :: k in s
  {
    if forall k :: k !in s {
      assert false;
    }
  }

  // ---------------------------------------------------------------- runs

  // Setting.__set__: defaults are deleted, other values stored.
  datatype Assignment = Assignment(key: Key, default: Value, value: Value)

  function Assign(t: Tree, a: Assignment): Tree {
    if a.value == a.default then DeleteIn(t, a.key) else SetIn(t, a.key, a.value)
  }

  function AssignAll(t: Tree, run: seq<Assignment>): Tree {
    if run == [] then t else Assign(AssignAll(t, run[..|run| - 1]), run[|run| - 1])
  }

  // The flat map the run should amount to.
  function Flat(m: map<Key, Value>, run: seq<Assignment>): map<Key, Value> {
    if run == [] then m
    else
      var before, a := Flat(m, run[..|run| - 1]), run[|run| - 1];
      if a.value == a.default then before - {a.key} else before[a.key := a.value]
  }

  ghost predicate Agrees(t: Tree, m: map<Key, Value>, keys: set<Key>) {
    forall k | k in keys :: Get(t, k) == if k in m then Some(m[k]) else None
  }

  /**
   The store refines a flat map.  Over any run of assignments of real values to settings none of which is a
   namespace of another, every lookup answers as the map does, nothing ever clashes, and from a tree
   without empty namespaces none ever appears.
   */
  lemma {:induction false} StoreRefinesMap(t: Tree, m: map<Key, Value>, keys: set<Key>, run: seq<Assignment>)
    requires NoClash(keys) && Conforms(t, keys) && Agrees(t, m, keys) && NoEmpty(t)
    requires forall a | a in run :: a.key in keys && a.value != NoneValue
    ensures Conforms(AssignAll(t, run), keys) && Agrees(AssignAll(t, run), Flat(m, run), keys)
    ensures NoEmpty(AssignAll(t, run))
  {
    if run != [] {
      var init, a := run[..|run| - 1], run[|run| - 1];
      assert a in run && forall b | b in init :: b in run;
      StoreRefinesMap(t, m, keys, init);
      var before := AssignAll(t, init);
      if a.value == a.default {
        DeleteKeepsFull(before, a.key);
      } else {
        SetKeepsFull(before, a.key, a.value);
      }
      forall k | k in keys
        ensures Clear(Assign(before, a), k)
        ensures Get(Assign(before, a), k) == if k in Flat(m, run) then Some(Flat(m, run)[k]) else None
      {
        if a.value == a.default {
          DeleteGet(before, a.key, k);
        } else {
          SetGet(before, a.key, k, a.value);
        }
      }
    }
  }

  // No assignment brings a setting other than its own to light.
  lemma {:induction false} SetAdds(t: Tree, p: Key, value: Value, q: Key)
    requires Get(SetIn(t, p, value), q).Some?
    ensures q == p || Get(t, q).Some?
    decreases |p|
  {
    var r := SetIn(t, p, value);
    if p[0] != q[0] {
      assert Child(r, q[0]) == Child(t, q[0]);
    } else if |q| == 1 {
      assert q == [q[0]];
      if |p| == 1 {
        assert p == [p[0]];
      }
    } else if |p| == 1 {
      EmptyTree(q[1..]);
    } else {
      SetAdds(Child(t, p[0]), p[1..], value, q[1..]);
      assert p == [p[0]] + p[1..] && q == [q[0]] + q[1..];
    }
  }

  lemma {:induction false} DeleteAdds(t: Tree, p: Key, q: Key)
    requires Get(DeleteIn(t, p), q).Some?
    ensures Get(t, q).Some?
    decreases |p|
  {
    if |q| > 1 {
      EmptyTree(q[1..]);
      if p[0] == q[0] && |p| > 1 {
        if DeleteIn(Child(t, p[0]), p[1..]) != map[] {
          DeleteAdds(Child(t, p[0]), p[1..], q[1..]);
        }
      }
    }
  }

  lemma {:induction false} OnlyAssigned(keys: set<Key>, run: seq<Assignment>, q: Key)
    requires forall a | a in run :: a.key in keys
    requires Get(AssignAll(map[], run), q).Some?
    ensures q in keys
  {
    EmptyTree(q);
    if run != [] {
      var init, a := run[..|run| - 1], run[|run| - 1];
      assert a in run && forall b | b in init :: b in run;
      var before := AssignAll(map[], init);
      if a.value == a.default {
        DeleteAdds(before, a.key, q);
      } else {
        SetAdds(before, a.key, a.value, q);
      }
      if q != a.key {
        OnlyAssigned(keys, init, q);
      }
    }
  }

  /** Whatever way it was reached, the stored tree depends only on the non-default values it holds. */
  lemma SameSettingsSameTree(keys: set<Key>, run: seq<Assignment>, other: seq<Assignment>)
    requires NoClash(keys) && Flat(map[], run) == Flat(map[], other)
    requires forall a | a in run || a in other :: a.key in keys && a.value != NoneValue
    ensures AssignAll(map[], run) == AssignAll(map[], other)
  {
    forall k: Key
      ensures Clear(map[], k) && Get(map[], k) == None
    {
      EmptyTree(k);
    }
    StoreRefinesMap(map[], map[], keys, run);
    StoreRefinesMap(map[], map[], keys, other);
    var t, u := AssignAll(map[], run), AssignAll(map[], other);
    forall key: Key
      ensures Get(t, key) == Get(u, key)
    {
      if key !in keys {
        if Get(t, key).Some? {
          OnlyAssigned(keys, run, key);
        } else if Get(u, key).Some? {
          OnlyAssigned(keys, other, key);
        }
      }
    }
    SettingsDetermineTree(t, u);
  }

  /**
   When storing leaves no empty namespace: exactly when the value is not None, or there is no namespace to be created
   for it.
   */
  lemma {:induction false} SetKeepsFullExactly(t: Tree, key: Key, value: Value)
    requires NoEmpty(t) && Clear(t, key)
    ensures NoEmpty(SetIn(t, key, value)) <==> value != NoneValue || |key| == 1 || Namespace(t, key) != map[]
    decreases |key|
  {
    if value != NoneValue {
      SetKeepsFull(t, key, value);
    } else if |key| > 1 {
      var child, rest := Child(t, key[0]), key[1..];
      SetKeepsFullExactly(child, rest, value);
      NoneInEmpty(child, rest);
      assert SetIn(t, key, value)[key[0]] == Dict(SetIn(child, rest, value));
    }
  }

  // Storing None leaves a tree empty only if it was empty and no namespace had to be created.
  lemma NoneInEmpty(t: Tree, key: Key)
    requires Clear(t, key)
    ensures SetIn(t, key, NoneValue) == map[] <==> t == map[] && |key| == 1
    ensures t == map[] ==> Namespace(t, key) == map[]
  {
    if |key| > 1 {
      assert key[0] in SetIn(t, key, NoneValue);
    }
    EmptyNamespace(key);
  }

  lemma {:induction false} EmptyNamespace(key: Key)
    ensures Namespace(map[], key) == map[]
    decreases |key|
  {
    if |key| > 1 {
      EmptyNamespace(key[1..]);
    }
  }

  /** The two conditions are needed: None leaves an empty namespace, and a clash loses a setting. */
  lemma NoneLeavesEmptyNamespace()
    ensures !NoEmpty(SetIn(map[], ["a", "b"], NoneValue))
  {
    assert ["a", "b"][1..] == ["b"];
    assert SetIn(map[], ["a", "b"], NoneValue)["a"] == Dict(map[]);
  }

  lemma ClashLosesSetting(v: Value, w: Value)
    requires v != NoneValue && w != NoneValue
    ensures var t := SetIn(map[], ["a", "b", "c"], v);
            Get(t, ["a", "b", "c"]) == Some(v) && Get(SetIn(t, ["a", "b"], w), ["a", "b", "c"]) == None
  {
    var long: Key, short: Key := ["a", "b", "c"], ["a", "b"];
    EmptyTree(long);
    SetGet(map[], long, long, v);
    LongerIsLost(SetIn(map[], long, v), short, long, w);
  }

  /** Storing a setting loses every setting inside a namespace of that name. */
  lemma {:induction false} LongerIsLost(t: Tree, p: Key, q: Key, value: Value)
    requires p <= q && p != q && value != NoneValue
    ensures Get(SetIn(t, p, value), q) == None
    decreases |p|
  {
    if |p| == 1 {
      EmptyTree(q[1..]);
    } else {
      LongerIsLost(Child(t, p[0]), p[1..], q[1..], value);
    }
  }

  /** Whatever is stored, storing one of two clashing settings shuts the other out. */
  lemma {:induction false} ClashShutsOut(t: Tree, p: Key, q: Key, value: Value)
    requires p != q && !Apart(p, q) && value != NoneValue
    ensures !Clear(SetIn(t, p, value), q)
    decreases |p|
  {
    if |p| > 1 && |q| > 1 {
      assert p == [p[0]] + p[1..] && q == [q[0]] + q[1..];
      ClashShutsOut(Child(t, p[0]), p[1..], q[1..], value);
    }
  }

  /** So the absence of clashes is exactly what storing any one setting without harm to the others takes. */
  lemma NoClashIsExact(keys: set<Key>, value: Value)
    requires value != NoneValue
    ensures NoClash(keys) <==> forall p | p in keys :: Conforms(SetIn(map[], p, value), keys)
  {
    forall p, q | p in keys && q in keys
      ensures Clear(SetIn(map[], p, value), q) <==> p == q || Apart(p, q)
    {
      EmptyTree(p);
      EmptyTree(q);
      if p == q || Apart(p, q) {
        SetGet(map[], p, q, value);
      } else {
        ClashShutsOut(map[], p, q, value);
      }
    }
  }

  // ---------------------------------------------------------------- what a setting reads as

  // Setting.__get__: the stored value, or the default.
  function Reads(t: Tree, key: Key, default: Value): Value {
    match Get(t, key) case None => default case Some(v) => v
  }

  // The value last assigned to a key, if any.
  function LastAssigned(run: seq<Assignment>, key: Key): Option<Value> {
    if run == [] then None
    else if run[|run| - 1].key == key then Some(run[|run| - 1].value)
    else LastAssigned(run[..|run| - 1], key)
  }

  /** From an empty store, a setting reads as the value last assigned to it, or as its default; a default is never stored. */
  lemma {:induction false} ReadsLastAssigned(keys: set<Key>, defaults: map<Key, Value>, run: seq<Assignment>, key: Key)
    requires NoClash(keys) && key in keys && keys <= defaults.Keys
    requires forall a | a in run :: a.key in keys && a.value != NoneValue && a.default == defaults[a.key]
    ensures var t := AssignAll(map[], run);
            && Reads(t, key, defaults[key]) ==
               (match LastAssigned(run, key) case None => defaults[key] case Some(v) => v)
            && Get(t, key) != Some(defaults[key])
  {
    forall k: Key
      ensures Clear(map[], k) && Get(map[], k) == None
    {
      EmptyTree(k);
    }
    if run != [] {
      var init, a := run[..|run| - 1], run[|run| - 1];
      assert a in run && forall b | b in init :: b in run;
      ReadsLastAssigned(keys, defaults, init, key);
      StoreRefinesMap(map[], map[], keys, init);
      var before := AssignAll(map[], init);
      if a.value == a.default {
        DeleteGet(before, a.key, key);
      } else {
        SetGet(before, a.key, key, a.value);
      }
    }
  }

  // ---------------------------------------------------------------- the object

  class Store {
    var settings: Tree
    var dirty: bool

    constructor ()
      ensures settings == map[] && !dirty
    {
      settings, dirty := map[], false;
    }

    /** The value stored, or the namespace of that name, or the default. */
    method GetSetting(key: Key, default: Value) returns (r: Node)
      requires PathClear(settings, key)
      ensures r == match Lookup(settings, key) case None => Leaf(default) case Some(n) => n
    {
      var s, i := settings, 0;
      assert key[0..] == key;
      while i < |key| - 1
        invariant 0 <= i < |key| && PathClear(s, key[i..]) && Lookup(s, key[i..]) == Lookup(settings, key)
      {
        s := Child(s, key[i]);
        assert key[i..][1..] == key[i + 1..];
        i := i + 1;
      }
      assert key[i..] == [key[i]];
      r := if key[i] in s then s[key[i]] else Leaf(default);
    }

    /** Stores a value; the dirty flag is raised exactly when the stored value changes. */
    method SetSetting(key: Key, value: Value)
      requires PathClear(settings, key)
      modifies this
      ensures settings == SetIn(old(settings), key, value)
      ensures dirty <==> old(dirty) || OrNone(Lookup(old(settings), key)) != Leaf(value)
    {
      var s, i := settings, 0;
      var levels: seq<(Tree, string)> := [];
      assert key[0..] == key;
      while i < |key| - 1
        invariant 0 <= i < |key| && PathClear(s, key[i..]) && Lookup(s, key[i..]) == Lookup(settings, key)
        invariant settings == old(settings) && dirty == old(dirty)
        invariant SetIn(settings, key, value) == Rebuilt(levels, SetIn(s, key[i..], value))
      {
        assert key[i..][1..] == key[i + 1..];
        RebuiltSnoc(levels, (s, key[i]), SetIn(Child(s, key[i]), key[i + 1..], value));
        levels := levels + [(s, key[i])];
        s := Child(s, key[i]);
        i := i + 1;
      }
      assert key[i..] == [key[i]];
      var previous := if key[i] in s then s[key[i]] else Leaf(NoneValue);
      assert previous == OrNone(Lookup(settings, key));
      if previous != Leaf(value) {
        s := s[key[i] := Leaf(value)];
        dirty := true;
      }
      settings := Rebuilt(levels, s);
    }

    /**
     Deletes a setting and the namespaces it leaves empty, bottom up.  The dirty flag is raised exactly
     when the setting was there or its namespace held nothing at all.
     */
    method DeleteSetting(key: Key)
      requires PathClear(settings, key)
      modifies this
      ensures settings == DeleteIn(old(settings), key)
      ensures dirty <==> old(dirty) || Lookup(old(settings), key).Some?
                         || (|key| > 1 && Namespace(old(settings), key) == map[])
    {
      var s, i := settings, 0;
      var levels: seq<(Tree, string)> := [];
      assert key[0..] == key;
      while i < |key| - 1
        invariant 0 <= i < |key| && |levels| == i && PathClear(s, key[i..])
        invariant Lookup(s, key[i..]) == Lookup(settings, key) && Namespace(s, key[i..]) == Namespace(settings, key)
        invariant settings == old(settings) && dirty == old(dirty)
        invariant DeleteIn(settings, key) == Unwound(levels, DeleteIn(s, key[i..]))
      {
        assert key[i..][1..] == key[i + 1..];
        UnwoundSnoc(levels, (s, key[i]), DeleteIn(Child(s, key[i]), key[i + 1..]));
        levels := levels + [(s, key[i])];
        s := Child(s, key[i]);
        i := i + 1;
      }
      assert key[i..] == [key[i]];
      if key[i] in s {
        dirty := true;
      }
      s := s - {key[i]};
      dirty, settings := ClimbBack(levels, s, dirty);
    }
  }

  /** The way back up of a deletion: each parent takes its child back, or drops it if it is empty. */
  method ClimbBack(levels: seq<(Tree, string)>, leaf: Tree, wasDirty: bool) returns (dirty: bool, s: Tree)
    ensures s == Unwound(levels, leaf)
    ensures dirty <==> wasDirty || (levels != [] && leaf == map[])
  {
    dirty, s := wasDirty, leaf;
    var i := |levels|;
    assert levels[..|levels|] == levels;
    while i > 0
      invariant 0 <= i <= |levels| && Unwound(levels[..i], s) == Unwound(levels, leaf)
      invariant i == |levels| ==> s == leaf
      invariant i < |levels| ==> (s == map[] ==> leaf == map[])
      invariant dirty <==> wasDirty || (i < |levels| && leaf == map[])
    {
      i := i - 1;
      var (t, level) := levels[i];
      if s == map[] {
        dirty := true;
      }
      assert s != map[] ==> level in Pruned(t, level, s);
      s := Pruned(t, level, s);
      assert levels[..i + 1][..i] == levels[..i];
    }
  }

  function OrNone(n: Option<Node>): Node { if n.Some? then n.value else Leaf(NoneValue) }

  // The innermost namespace of a setting, empty where the path is missing.
  function Namespace(t: Tree, key: Key): Tree
    decreases |key|
  {
    if |key| == 1 then t else Namespace(Child(t, key[0]), key[1..])
  }

  function Unwound(levels: seq<(Tree, string)>, s: Tree): Tree {
    if levels == [] then s
    else
      var (t, level) := levels[|levels| - 1];
      Unwound(levels[..|levels| - 1], Pruned(t, level, s))
  }

  lemma UnwoundSnoc(levels: seq<(Tree, string)>, last: (Tree, string), s: Tree)
    ensures Unwound(levels + [last], s) == Unwound(levels, Pruned(last.0, last.1, s))
  {
    assert (levels + [last])[..|levels|] == levels;
  }

  // The same path seen from the root after its innermost namespace was changed.
  function Rebuilt(levels: seq<(Tree, string)>, s: Tree): Tree {
    if levels == [] then s
    else
      var (t, level) := levels[|levels| - 1];
      Rebuilt(levels[..|levels| - 1], t[level := Dict(s)])
  }

  lemma RebuiltSnoc(levels: seq<(Tree, string)>, last: (Tree, string), s: Tree)
    ensures Rebuilt(levels + [last], s) == Rebuilt(levels, last.0[last.1 := Dict(s)])
  {
    assert (levels + [last])[..|levels|] == levels;
  }
}
