/**
 * A map keyed by paths of keys, stored as nested maps: each level maps a key to the next
 * level, and a reserved entry of a level holds the value stored for the path leading to it.
 */
module NestedKeyMap {
  import opened JsValues

  /** One level of nested maps: the reserved value entry, and the child levels. */
  datatype Trie<K(==), T> = Trie(value: Option<T>, children: map<K, Trie<K, T>>)

  function EmptyTrie<K(==), T>(): Trie<K, T>
  {
    Trie(None, map[])
  }

  /** `map.size === 0`: no value entry and no children. */
  predicate IsEmpty<K(==), T>(t: Trie<K, T>)
  {
    t.value.None? && |t.children| == 0
  }

  /** The value stored under `path`, if every level along it exists and holds one. */
  function Lookup<K(==), T>(t: Trie<K, T>, path: seq<K>): Option<T>
    decreases |path|
  {
    if |path| == 0 then t.value
    else if path[0] in t.children then Lookup(t.children[path[0]], path[1..])
    else None
  }

  /** Whether a nested map exists along the whole of `path`. */
  predicate Exists<K(==), T>(t: Trie<K, T>, path: seq<K>)
    decreases |path|
  {
    |path| == 0 || (path[0] in t.children && Exists(t.children[path[0]], path[1..]))
  }

  function ChildOrEmpty<K(==), T>(t: Trie<K, T>, k: K): Trie<K, T>
  {
    if k in t.children then t.children[k] else EmptyTrie()
  }

  /** The level reached along `path`, missing levels read as new empty ones. */
  function Descend<K(==), T>(t: Trie<K, T>, path: seq<K>): Trie<K, T>
    decreases |path|
  {
    if |path| == 0 then t else Descend(ChildOrEmpty(t, path[0]), path[1..])
  }

  /** `t` with `v` stored under `path`, creating missing levels. */
  function Insert<K(==), T>(t: Trie<K, T>, path: seq<K>, v: T): Trie<K, T>
    decreases |path|
  {
    if |path| == 0 then Trie(Some(v), t.children)
    else Trie(t.value, t.children[path[0] := Insert(ChildOrEmpty(t, path[0]), path[1..], v)])
  }

  /**
   * `t` with the value under `path` removed and levels left empty pruned on the way back up;
   * `t` itself when some level along `path` is missing.
   */
  function Remove<K(==), T>(t: Trie<K, T>, path: seq<K>): Trie<K, T>
    decreases |path|
  {
    if !Exists(t, path) then t
    else if |path| == 0 then Trie(None, t.children)
    else
      var c := Remove(t.children[path[0]], path[1..]);
      if IsEmpty(c) then Trie(t.value, t.children - {path[0]}) else Trie(t.value, t.children[path[0] := c])
  }

  /** No level below the top one is empty: each holds a value or a child level. */
  predicate Pruned<K(==), T>(t: Trie<K, T>)
  {
    forall k :: k in t.children ==> !IsEmpty(t.children[k]) && Pruned(t.children[k])
  }

  /** All stored (path, value) pairs. */
  function Entries<K(==), T(==)>(t: Trie<K, T>): set<(seq<K>, T)>
  {
    (if t.value.Some? then {([], t.value.value)} else {})
    + set k, e | k in t.children.Keys && e in Entries(t.children[k]) :: ([k] + e.0, e.1)
  }

  // ---------------------------------------------------------------- lemmas

  lemma {:induction false} DescendSnoc<K, T>(t: Trie<K, T>, path: seq<K>, k: K)
    ensures Descend(t, path + [k]) == ChildOrEmpty(Descend(t, path), k)
    decreases |path|
  {
    if |path| == 0 {
      assert path + [k] == [k];
    } else {
      assert (path + [k])[1..] == path[1..] + [k];
      DescendSnoc(ChildOrEmpty(t, path[0]), path[1..], k);
    }
  }

  /** After storing under a path, reading that path gives the value. */
  lemma {:induction false} LookupInsertSame<K, T>(t: Trie<K, T>, path: seq<K>, v: T)
    ensures Lookup(Insert(t, path, v), path) == Some(v)
    decreases |path|
  {
    if |path| > 0 {
      LookupInsertSame(ChildOrEmpty(t, path[0]), path[1..], v);
    }
  }

  lemma {:induction false} LookupEmpty<K, T>(path: seq<K>)
    ensures Lookup(EmptyTrie<K, T>(), path) == None
  {
  }

  /** Storing under a path leaves every other path's value unchanged. */
  lemma {:induction false} LookupInsertOther<K, T>(t: Trie<K, T>, path: seq<K>, v: T, other: seq<K>)
    requires other != path
    ensures Lookup(Insert(t, path, v), other) == Lookup(t, other)
    decreases |path|
  {
    if |path| == 0 {
      assert |other| > 0;
    } else if |other| > 0 {
      if other[0] == path[0] {
        assert other == [other[0]] + other[1..] && path == [path[0]] + path[1..];
        LookupInsertOther(ChildOrEmpty(t, path[0]), path[1..], v, other[1..]);
        if path[0] !in t.children {
          LookupEmpty<K, T>(other[1..]);
        }
      }
    }
  }

  /** Storing over an existing value replaces only that value: the shape of the levels stays. */
  lemma {:induction false} InsertExistingKeepsShape<K, T>(t: Trie<K, T>, path: seq<K>, v: T, other: seq<K>)
    requires Exists(t, path)
    ensures Exists(Insert(t, path, v), other) <==> Exists(t, other)
    decreases |path|
  {
    if |path| > 0 && |other| > 0 && other[0] == path[0] {
      InsertExistingKeepsShape(t.children[path[0]], path[1..], v, other[1..]);
    }
  }

  /** `has` is true for the empty path and for every prefix of a stored path. */
  lemma {:induction false} StoredPrefixesExist<K, T>(t: Trie<K, T>, path: seq<K>, n: nat)
    requires Lookup(t, path).Some? && n <= |path|
    ensures Exists(t, path[..n])
    decreases |path|
  {
    if n > 0 {
      StoredPrefixesExist(t.children[path[0]], path[1..], n - 1);
      assert path[..n][1..] == path[1..][..n - 1];
    }
  }

  /** Removing a path clears its value. */
  lemma {:induction false} LookupRemoveSame<K, T>(t: Trie<K, T>, path: seq<K>)
    ensures Lookup(Remove(t, path), path) == None
    decreases |path|
  {
    if |path| > 0 && path[0] in t.children {
      LookupRemoveSame(t.children[path[0]], path[1..]);
    }
  }

  /** An empty level stores nothing anywhere below it. */
  lemma {:induction false} EmptyStoresNothing<K, T>(t: Trie<K, T>, path: seq<K>)
    requires IsEmpty(t)
    ensures Lookup(t, path) == None
  {
  }

  /** Removing a path, pruning included, leaves every other path's value unchanged. */
  lemma {:induction false} LookupRemoveOther<K, T>(t: Trie<K, T>, path: seq<K>, other: seq<K>)
    requires other != path
    ensures Lookup(Remove(t, path), other) == Lookup(t, other)
    decreases |path|
  {
    if |path| == 0 {
      assert |other| > 0;
    } else if path[0] in t.children && |other| > 0 && other[0] == path[0] {
      assert other == [other[0]] + other[1..] && path == [path[0]] + path[1..];
      var c := Remove(t.children[path[0]], path[1..]);
      LookupRemoveOther(t.children[path[0]], path[1..], other[1..]);
      if IsEmpty(c) {
        EmptyStoresNothing(c, other[1..]);
      }
    }
  }

  /** Storing keeps every lower level non-empty. */
  lemma {:induction false} InsertKeepsPruned<K, T>(t: Trie<K, T>, path: seq<K>, v: T)
    requires Pruned(t)
    ensures Pruned(Insert(t, path, v))
    decreases |path|
  {
    if |path| > 0 {
      InsertKeepsPruned(ChildOrEmpty(t, path[0]), path[1..], v);
      InsertNotEmpty(ChildOrEmpty(t, path[0]), path[1..], v);
    }
  }

  lemma InsertNotEmpty<K, T>(t: Trie<K, T>, path: seq<K>, v: T)
    ensures !IsEmpty(Insert(t, path, v))
  {
  }

  /** Removing keeps every lower level non-empty: emptied levels are pruned. */
  lemma {:induction false} RemoveKeepsPruned<K, T>(t: Trie<K, T>, path: seq<K>)
    requires Pruned(t)
    ensures Pruned(Remove(t, path))
    decreases |path|
  {
    if |path| > 0 && path[0] in t.children {
      RemoveKeepsPruned(t.children[path[0]], path[1..]);
    }
  }

  /** Every stored pair is enumerated. */
  lemma {:induction false} EntriesComplete<K, T>(t: Trie<K, T>, path: seq<K>, v: T)
    requires Lookup(t, path) == Some(v)
    ensures (path, v) in Entries(t)
    decreases |path|
  {
    if |path| > 0 {
      var k := path[0];
      EntriesComplete(t.children[k], path[1..], v);
      assert path == [k] + path[1..];
    }
  }

  /** Only stored pairs are enumerated. */
  lemma {:induction false} EntriesSound<K, T>(t: Trie<K, T>, path: seq<K>, v: T)
    requires (path, v) in Entries(t)
    ensures Lookup(t, path) == Some(v)
    decreases |path|
  {
    if t.value.Some? && (path, v) == ([], t.value.value) {
    } else {
      var k, e :| k in t.children.Keys && e in Entries(t.children[k]) && ([k] + e.0, e.1) == (path, v);
      assert path[0] == k && path[1..] == e.0;
      EntriesSound(t.children[k], e.0, v);
    }
  }

  /** All stored values. */
  function ValuesOf<K(==), T(==)>(t: Trie<K, T>): set<T>
  {
    set e | e in Entries(t) :: e.1
  }

  /** Some path holds `v`. */
  ghost predicate Holds<K(!new), T(!new)>(t: Trie<K, T>, v: T)
  {
    exists p :: Lookup(t, p) == Some(v)
  }

  lemma StoredValuesExact<K(!new), T(!new)>(t: Trie<K, T>)
    ensures forall v :: v in ValuesOf(t) <==> Holds(t, v)
  {
    forall v | v in ValuesOf(t) ensures Holds(t, v) {
      var e :| e in Entries(t) && e.1 == v;
      EntriesSound(t, e.0, v);
    }
    forall v | Holds(t, v) ensures v in ValuesOf(t) {
      var p :| Lookup(t, p) == Some(v);
      EntriesComplete(t, p, v);
      var e := (p, v);
      assert e in Entries(t) && e.1 == v;
    }
  }

  // ---------------------------------------------------------------- the map object

  class MultiMap<K(==,!new), T(==,!new)> {
    var root: Trie<K, T>

    constructor()
      ensures root == EmptyTrie() && Pruned(root)
    {
      root := EmptyTrie();
    }

    /** `set(keys, value)`: walks down, creating missing levels, then stores the value. */
    method Set(keys: seq<K>, value: T)
      modifies this
      ensures root == Insert(old(root), keys, value)
      ensures Pruned(old(root)) ==> Pruned(root)
    {
      if Pruned(root) {
        InsertKeepsPruned(root, keys, value);
      }
      var map_ := root;
      var path: seq<Trie<K, T>> := [];
      var i := 0;
      while i < |keys|
        invariant 0 <= i <= |keys| && |path| == i && root == old(root)
        invariant map_ == Descend(root, keys[..i])
        invariant forall j :: 0 <= j < i ==> path[j] == Descend(root, keys[..j])
      {
        DescendSnoc(root, keys[..i], keys[i]);
        assert keys[..i + 1] == keys[..i] + [keys[i]];
        path := path + [map_];
        if keys[i] in map_.children {
          map_ := map_.children[keys[i]];
        } else {
          map_ := EmptyTrie();
        }
        i := i + 1;
      }
      var built := Trie(Some(value), map_.children);
      assert keys[i..] == [] && keys[..i] == keys;
      while i > 0
        invariant 0 <= i <= |keys| && |path| == |keys| && root == old(root)
        invariant forall j :: 0 <= j < |keys| ==> path[j] == Descend(root, keys[..j])
        invariant built == Insert(Descend(root, keys[..i]), keys[i..], value)
      {
        i := i - 1;
        DescendSnoc(root, keys[..i], keys[i]);
        assert keys[..i + 1] == keys[..i] + [keys[i]];
        assert keys[i..][1..] == keys[i + 1..];
        built := Trie(path[i].value, path[i].children[keys[i] := built]);
      }
      assert keys[..0] == [] && keys[0..] == keys;
      root := built;
    }

    /** `get(keys)`: undefined as soon as a level along the path is missing. */
    method Get(keys: seq<K>) returns (r: Option<T>)
      ensures r == Lookup(root, keys)
    {
      var map_ := root;
      var i := 0;
      while i < |keys|
        invariant 0 <= i <= |keys|
        invariant Lookup(root, keys) == Lookup(map_, keys[i..])
      {
        assert keys[i..][1..] == keys[i + 1..];
        if keys[i] !in map_.children {
          return None;
        }
        map_ := map_.children[keys[i]];
        i := i + 1;
      }
      return map_.value;
    }

    /** `has(keys)`: whether the nested levels exist along the whole path. */
    method Has(keys: seq<K>) returns (r: bool)
      ensures r == Exists(root, keys)
    {
      var map_ := root;
      var i := 0;
      while i < |keys|
        invariant 0 <= i <= |keys|
        invariant Exists(root, keys) == Exists(map_, keys[i..])
      {
        assert keys[i..][1..] == keys[i + 1..];
        if keys[i] !in map_.children {
          return false;
        }
        map_ := map_.children[keys[i]];
        i := i + 1;
      }
      return true;
    }

    /**
     * `delete(keys)`: returns early when a level is missing; otherwise removes the value
     * and, walking back up, drops each level left empty.
     */
    method Delete(keys: seq<K>)
      modifies this
      ensures root == Remove(old(root), keys)
      ensures !Exists(old(root), keys) ==> root == old(root)
      ensures Pruned(old(root)) ==> Pruned(root)
    {
      if Pruned(root) {
        RemoveKeepsPruned(root, keys);
      }
      var found, path := WalkDown(root, keys);
      if !found {
        return;
      }
      root := WalkUp(root, keys, path);
    }

    /** The first half of `delete`: the levels along `keys`, top first, when they all exist. */
    static method WalkDown(t: Trie<K, T>, keys: seq<K>) returns (found: bool, path: seq<Trie<K, T>>)
      ensures found == Exists(t, keys)
      ensures !found ==> Remove(t, keys) == t
      ensures found ==> |path| == |keys| + 1 && forall j :: 0 <= j <= |keys| ==> path[j] == Descend(t, keys[..j])
    {
      var map_ := t;
      path := [t];
      var i := 0;
      while i < |keys|
        invariant 0 <= i <= |keys| && |path| == i + 1
        invariant Exists(t, keys[..i])
        invariant map_ == Descend(t, keys[..i])
        invariant forall j :: 0 <= j <= i ==> path[j] == Descend(t, keys[..j])
      {
        DescendSnoc(t, keys[..i], keys[i]);
        assert keys[..i + 1] == keys[..i] + [keys[i]];
        if keys[i] !in map_.children {
          NotExistsExtension(t, keys, i);
          return false, path;
        }
        ExistsSnoc(t, keys[..i], keys[i]);
        map_ := map_.children[keys[i]];
        path := path + [map_];
        i := i + 1;
      }
      assert keys[..i] == keys;
      found := true;
    }

    /** The second half of `delete`: clears the last level's value and drops the levels left empty. */
    static method WalkUp(t: Trie<K, T>, keys: seq<K>, path: seq<Trie<K, T>>) returns (built: Trie<K, T>)
      requires Exists(t, keys)
      requires |path| == |keys| + 1 && forall j :: 0 <= j <= |keys| ==> path[j] == Descend(t, keys[..j])
      ensures built == Remove(t, keys)
    {
      var i := |keys|;
      assert keys[..i] == keys;
      built := Trie(None, path[i].children);
      assert keys[i..] == [];
      while i > 0
        invariant 0 <= i <= |keys|
        invariant built == Remove(Descend(t, keys[..i]), keys[i..])
      {
        i := i - 1;
        DescendSnoc(t, keys[..i], keys[i]);
        assert keys[..i + 1] == keys[..i] + [keys[i]];
        assert keys[i..][1..] == keys[i + 1..];
        ExistsSuffix(t, keys, i);
        if IsEmpty(built) {
          built := Trie(path[i].value, path[i].children - {keys[i]});
        } else {
          built := Trie(path[i].value, path[i].children[keys[i] := built]);
        }
      }
      assert keys[..0] == [] && keys[0..] == keys;
    }

    /** `clear()`: a fresh empty top level. */
    method Clear()
      modifies this
      ensures root == EmptyTrie() && Pruned(root)
      ensures forall p :: Lookup(root, p) == None
    {
      root := EmptyTrie();
      forall p ensures Lookup(root, p) == None {
        LookupEmpty<K, T>(p);
      }
    }

    /** `entries()`: every stored value with its key path (as a set: order is not modelled). */
    function EntryPairs(): (r: set<(seq<K>, T)>)
      reads this
      ensures forall p, v :: (p, v) in r <==> Lookup(root, p) == Some(v)
    {
      var r := Entries(root);
      assert forall p, v :: (p, v) in r <==> Lookup(root, p) == Some(v) by {
        forall p, v ensures (p, v) in r <==> Lookup(root, p) == Some(v) {
          if (p, v) in r {
            EntriesSound(root, p, v);
          }
          if Lookup(root, p) == Some(v) {
            EntriesComplete(root, p, v);
          }
        }
      }
      r
    }

    /** `keys()`: the key paths that hold a value. */
    function KeyPaths(): (r: set<seq<K>>)
      reads this
      ensures forall p :: p in r <==> Lookup(root, p).Some?
    {
      var r := set e | e in EntryPairs() :: e.0;
      assert forall p :: p in r <==> Lookup(root, p).Some? by {
        forall p ensures p in r <==> Lookup(root, p).Some? {
          if Lookup(root, p).Some? {
            assert (p, Lookup(root, p).value) in EntryPairs();
          }
        }
      }
      r
    }

    /** `values()`: the stored values (as a set: order and repeats are not modelled). */
    function StoredValues(): (r: set<T>)
      reads this
      ensures forall v :: v in r <==> Holds(root, v)
    {
      StoredValuesExact(root);
      ValuesOf(root)
    }
  }

  lemma {:induction false} ExistsSnoc<K, T>(t: Trie<K, T>, path: seq<K>, k: K)
    requires Exists(t, path) && k in Descend(t, path).children
    ensures Exists(t, path + [k])
    decreases |path|
  {
    if |path| == 0 {
      assert path + [k] == [k];
      assert ([k])[1..] == [];
    } else {
      assert (path + [k])[1..] == path[1..] + [k];
      ExistsSnoc(t.children[path[0]], path[1..], k);
    }
  }

  lemma {:induction false} ExistsSuffix<K, T>(t: Trie<K, T>, path: seq<K>, i: nat)
    requires Exists(t, path) && i <= |path|
    ensures Exists(Descend(t, path[..i]), path[i..])
    decreases i
  {
    if i == 0 {
      assert path[..0] == [] && path[0..] == path;
    } else {
      ExistsSuffix(t, path, i - 1);
      DescendSnoc(t, path[..i - 1], path[i - 1]);
      assert path[..i] == path[..i - 1] + [path[i - 1]];
      assert path[i - 1..][1..] == path[i..];
    }
  }

  lemma {:induction false} NotExistsExtension<K, T>(t: Trie<K, T>, path: seq<K>, i: nat)
    requires i < |path| && Exists(t, path[..i]) && path[i] !in Descend(t, path[..i]).children
    ensures !Exists(t, path)
    decreases i
  {
    if i == 0 {
    } else {
      assert path[..i][1..] == path[1..][..i - 1];
      NotExistsExtension(t.children[path[0]], path[1..], i - 1);
    }
  }
}
