/**
 * The older widget base: per-key property diffing, the child-widget cache keyed by id or
 * factory, and the dirty flag that decides whether `__render__` re-renders or returns the
 * cached node.
 */
module LegacyWidgetBase {
  import opened JsValues
  import opened DeepAssign
  import WidgetRegistries

  /** `formatTagNameAndClasses`: "tag", or "tag.c1.c2" when there are classes. */
  function FormatTagNameAndClasses(tagName: string, classes: seq<string>): (r: string)
    ensures |classes| == 0 ==> r == tagName
    ensures r == Join([tagName] + classes, '.')
  {
    if |classes| > 0 then
      assert ([tagName] + classes)[1..] == classes;
      tagName + "." + Join(classes, '.')
    else tagName
  }

  /** With no dot inside the tag or a class, the selector splits back into its parts. */
  lemma FormatTagNameAndClassesSplits(tagName: string, classes: seq<string>)
    requires '.' !in tagName
    requires forall i :: 0 <= i < |classes| ==> '.' !in classes[i]
    ensures Split(FormatTagNameAndClasses(tagName, classes), '.') == [tagName] + classes
  {
    SplitJoin([tagName] + classes, '.');
  }

  /** `Object.prototype.toString.call(v) === '[object Object]'`: plain objects only. */
  predicate IsObject(v: Value)
  {
    v.Obj?
  }

  predicate IsNullish(v: Value)
  {
    v.Undefined? || v.Null?
  }

  function EveryKeyIdentical(keys: seq<string>, from: Value, to: Value): (r: bool)
    ensures r <==> forall i :: 0 <= i < |keys| ==> StrictEq(Get(from, keys[i]), Get(to, keys[i]))
  {
    if |keys| == 0 then true
    else StrictEq(Get(from, keys[0]), Get(to, keys[0])) && EveryKeyIdentical(keys[1..], from, to)
  }

  /**
   * `shallowCompare(from, to)`: every own key of `from` maps to an identical value in `to`.
   * `Object.keys(null)` and reading a key of null or undefined throw.
   */
  function ShallowCompare(from: Value, to: Value): (r: Result<bool>)
    ensures IsNullish(from) ==> r.Err?
    ensures !IsNullish(from) && IsNullish(to) ==> (r.Err? <==> |OwnKeys(from)| > 0)
    ensures !IsNullish(from) && !IsNullish(to) ==> r.Ok?
    ensures r.Ok? ==> (r.value <==> forall i :: 0 <= i < |OwnKeys(from)| ==>
                          StrictEq(Get(from, OwnKeys(from)[i]), Get(to, OwnKeys(from)[i])))
  {
    if IsNullish(from) then Err("Cannot convert undefined or null to object")
    else if IsNullish(to) && |OwnKeys(from)| > 0 then Err("Cannot read property of undefined")
    else Ok(EveryKeyIdentical(OwnKeys(from), from, to))
  }

  /** The comparison is one-sided: extra keys of `to` are not looked at. */
  lemma ShallowCompareAsymmetric()
    ensures ShallowCompare(Obj(1, Props(["a"], map["a" := Num(1)])),
                           Obj(2, Props(["a", "b"], map["a" := Num(1), "b" := Num(2)]))) == Ok(true)
    ensures ShallowCompare(Obj(2, Props(["a", "b"], map["a" := Num(1), "b" := Num(2)])),
                           Obj(1, Props(["a"], map["a" := Num(1)]))) == Ok(false)
  {
    var small := Obj(1, Props(["a"], map["a" := Num(1)]));
    var big := Obj(2, Props(["a", "b"], map["a" := Num(1), "b" := Num(2)]));
    assert OwnKeys(big)[1] == "b";
    assert !StrictEq(Get(big, "b"), Get(small, "b"));
  }

  /**
   * `value.every((item, index) => ...)` over two arrays of the same length: objects are
   * compared shallowly, everything else by identity.  `every` stops at the first false,
   * so an exception from a later item is only reached when all earlier items are equal.
   */
  function ItemsEqual(items: seq<Value>, previous: seq<Value>): (r: Result<bool>)
    requires |items| == |previous|
    ensures r == Ok(true) ==> forall i :: 0 <= i < |items| && !IsObject(items[i]) ==> StrictEq(items[i], previous[i])
    ensures r == Ok(true) ==> forall i :: 0 <= i < |items| && IsObject(items[i]) ==> ShallowCompare(items[i], previous[i]) == Ok(true)
    ensures (forall i :: 0 <= i < |items| ==> !IsObject(items[i])) ==>
      r == Ok(forall i :: 0 <= i < |items| ==> StrictEq(items[i], previous[i]))
  {
    if |items| == 0 then Ok(true)
    else
      var first := if IsObject(items[0]) then ShallowCompare(items[0], previous[0]) else Ok(StrictEq(items[0], previous[0]));
      if first.Err? then Err(first.message)
      else if !first.value then Ok(false)
      else
        var rest := ItemsEqual(items[1..], previous[1..]);
        assert rest == Ok(true) ==> forall i :: 1 <= i < |items| && !IsObject(items[i]) ==> StrictEq(items[i], previous[i]) by {
          if rest == Ok(true) {
            forall i | 1 <= i < |items| && !IsObject(items[i])
              ensures StrictEq(items[i], previous[i])
            {
              assert items[1..][i - 1] == items[i] && previous[1..][i - 1] == previous[i];
            }
          }
        }
        assert rest == Ok(true) ==> forall i :: 1 <= i < |items| && IsObject(items[i]) ==> ShallowCompare(items[i], previous[i]) == Ok(true) by {
          if rest == Ok(true) {
            forall i | 1 <= i < |items| && IsObject(items[i])
              ensures ShallowCompare(items[i], previous[i]) == Ok(true)
            {
              assert items[1..][i - 1] == items[i] && previous[1..][i - 1] == previous[i];
            }
          }
        }
        rest
  }

  /**
   * Whether one property of the current bag equals its previous value (the body of the
   * `entries(this.properties).forEach` callback).
   */
  function PropertyEqual(previous: Props, key: string, value: Value): (r: Result<bool>)
    ensures key !in previous.vals ==> r == Ok(false)
    ensures key in previous.vals && value.Func? ==> r == Ok(true)
    ensures (key in previous.vals && value.Arr? && previous.vals[key].Arr?
             && |value.items| != |previous.vals[key].items|) ==> r == Ok(false)
    ensures key in previous.vals && IsObject(value) && IsObject(previous.vals[key]) ==> r.Ok?
    ensures (key in previous.vals && !value.Func? && !(value.Arr? && previous.vals[key].Arr?)
             && !(IsObject(value) && IsObject(previous.vals[key]))) ==> r == Ok(StrictEq(value, previous.vals[key]))
  {
    if key !in previous.vals then Ok(false)
    else
      var previousValue := previous.vals[key];
      if value.Func? then Ok(true)
      else if value.Arr? && previousValue.Arr? then
        (if |value.items| != |previousValue.items| then Ok(false) else ItemsEqual(value.items, previousValue.items))
      else if IsObject(value) && IsObject(previousValue) then ShallowCompare(value, previousValue)
      else Ok(StrictEq(value, previousValue))
  }

  /** The keys of `keys` whose property is reported as changed, in order. */
  function ChangedKeys(properties: Props, previous: Props, keys: seq<string>): (r: seq<string>)
    ensures forall k :: k in r ==> k in keys
  {
    if |keys| == 0 then []
    else
      (if PropertyEqual(previous, keys[0], PropGet(properties, keys[0])) == Ok(false) then [keys[0]] else [])
      + ChangedKeys(properties, previous, keys[1..])
  }

  /** Whether diffing any of `keys` throws. */
  predicate AnyThrows(properties: Props, previous: Props, keys: seq<string>)
  {
    exists i :: 0 <= i < |keys| && PropertyEqual(previous, keys[i], PropGet(properties, keys[i])).Err?
  }

  lemma ChangedKeysSnoc(properties: Props, previous: Props, keys: seq<string>, k: string)
    ensures ChangedKeys(properties, previous, keys + [k]) ==
      ChangedKeys(properties, previous, keys) + (if PropertyEqual(previous, k, PropGet(properties, k)) == Ok(false) then [k] else [])
  {
    if |keys| == 0 {
      assert keys + [k] == [k];
    } else {
      assert (keys + [k])[1..] == keys[1..] + [k];
      ChangedKeysSnoc(properties, previous, keys[1..], k);
    }
  }

  /**
   * `diffProperties(previousProperties)`: the keys of the current bag whose value changed,
   * in key order, or the exception a comparison threw.
   */
  method DiffProperties(properties: Props, previousProperties: Props) returns (r: Result<seq<string>>)
    ensures r.Err? <==> AnyThrows(properties, previousProperties, properties.keys)
    ensures r.Ok? ==> r.value == ChangedKeys(properties, previousProperties, properties.keys)
  {
    var changedPropertyKeys: seq<string> := [];
    var i := 0;
    while i < |properties.keys|
      invariant 0 <= i <= |properties.keys|
      invariant !AnyThrows(properties, previousProperties, properties.keys[..i])
      invariant changedPropertyKeys == ChangedKeys(properties, previousProperties, properties.keys[..i])
    {
      var key := properties.keys[i];
      assert properties.keys[..i + 1] == properties.keys[..i] + [key];
      var isEqual := PropertyEqual(previousProperties, key, PropGet(properties, key));
      if isEqual.Err? {
        return Err(isEqual.message);
      }
      ChangedKeysSnoc(properties, previousProperties, properties.keys[..i], key);
      if !isEqual.value {
        changedPropertyKeys := changedPropertyKeys + [key];
      }
      i := i + 1;
    }
    assert properties.keys[..i] == properties.keys;
    return Ok(changedPropertyKeys);
  }

  /** Keys removed since the previous render are never reported. */
  lemma RemovedKeysNotReported(properties: Props, previous: Props, k: string)
    requires k !in properties.keys
    ensures k !in ChangedKeys(properties, previous, properties.keys)
  {
  }

  /** A key the previous bag lacks is always reported; a function that was there never is. */
  lemma {:induction false} NewKeysReportedFunctionsNot(properties: Props, previous: Props, keys: seq<string>, k: string)
    requires k in keys
    ensures k !in previous.vals ==> k in ChangedKeys(properties, previous, keys)
    ensures k in previous.vals && PropGet(properties, k).Func? && (forall i, j :: 0 <= i < j < |keys| ==> keys[i] != keys[j])
            ==> k !in ChangedKeys(properties, previous, keys)
    decreases |keys|
  {
    if keys[0] != k {
      NewKeysReportedFunctionsNot(properties, previous, keys[1..], k);
    } else if k in previous.vals && PropGet(properties, k).Func? && (forall i, j :: 0 <= i < j < |keys| ==> keys[i] != keys[j]) {
      assert k !in keys[1..] by {
        forall j | 0 <= j < |keys[1..]| ensures keys[1..][j] != k {
          assert keys[1..][j] == keys[j + 1];
        }
      }
    }
  }

  /** Writing the widget's `id` into a bag keeps the identities it reaches, and lists the key. */
  lemma IdWrittenBelow(p: Props, id: string, n: nat)
    requires WellFormed(p) && PropsRefsBelow(p, n)
    ensures "id" in PropSet(p, "id", Str(id)).keys
    ensures PropsRefsBelow(PropSet(p, "id", Str(id)), n)
  {
    var r := PropSet(p, "id", Str(id));
    forall k | k in r.keys && k in r.vals
      ensures RefsBelow(r.vals[k], n)
    {
      if k != "id" {
        assert k in p.keys;
      }
    }
  }

  /** `generateProperties`: the changed keys' current values, and their previous values when truthy. */
  datatype ChangedProperties = ChangedProperties(currentProperties: Props, previousProperties: Props)

  method GenerateProperties(properties: Props, previousProperties: Props) returns (r: Result<ChangedProperties>)
    requires WellFormed(properties)
    ensures r.Err? <==> AnyThrows(properties, previousProperties, properties.keys)
    ensures r.Ok? ==> WellFormed(r.value.currentProperties) && WellFormed(r.value.previousProperties)
    ensures r.Ok? ==> r.value.currentProperties.keys == ChangedKeys(properties, previousProperties, properties.keys)
    ensures r.Ok? ==> forall k :: k in r.value.currentProperties.vals ==> r.value.currentProperties.vals[k] == PropGet(properties, k)
    ensures r.Ok? ==> forall k :: k in r.value.previousProperties.vals <==>
              k in r.value.currentProperties.vals && Truthy(PropGet(previousProperties, k))
    ensures r.Ok? ==> forall k :: k in r.value.previousProperties.vals ==> r.value.previousProperties.vals[k] == PropGet(previousProperties, k)
  {
    var diff := DiffProperties(properties, previousProperties);
    if diff.Err? {
      return Err(diff.message);
    }
    DistinctChangedKeys(properties, previousProperties, properties.keys);
    var current, previous := CollectChanged(diff.value, properties, previousProperties);
    return Ok(ChangedProperties(current, previous));
  }

  /** The `changedPropertyKeys.forEach` loop of `generateProperties`. */
  method CollectChanged(changedPropertyKeys: seq<string>, properties: Props, previousProperties: Props)
    returns (current: Props, previous: Props)
    requires forall i, j :: 0 <= i < j < |changedPropertyKeys| ==> changedPropertyKeys[i] != changedPropertyKeys[j]
    ensures WellFormed(current) && WellFormed(previous)
    ensures current.keys == changedPropertyKeys
    ensures forall k :: k in current.vals ==> current.vals[k] == PropGet(properties, k)
    ensures forall k :: k in previous.vals <==> k in current.vals && Truthy(PropGet(previousProperties, k))
    ensures forall k :: k in previous.vals ==> previous.vals[k] == PropGet(previousProperties, k)
  {
    current := EmptyProps;
    previous := EmptyProps;
    var i := 0;
    while i < |changedPropertyKeys|
      invariant 0 <= i <= |changedPropertyKeys|
      invariant WellFormed(current) && WellFormed(previous)
      invariant current.keys == changedPropertyKeys[..i]
      invariant forall k :: k in current.vals ==> current.vals[k] == PropGet(properties, k)
      invariant forall k :: k in previous.vals <==> k in current.vals && Truthy(PropGet(previousProperties, k))
      invariant forall k :: k in previous.vals ==> previous.vals[k] == PropGet(previousProperties, k)
    {
      var key := changedPropertyKeys[i];
      assert changedPropertyKeys[..i + 1] == changedPropertyKeys[..i] + [key];
      assert key !in current.vals by {
        forall j | 0 <= j < i ensures changedPropertyKeys[j] != key {
        }
      }
      current := PropSet(current, key, PropGet(properties, key));
      if Truthy(PropGet(previousProperties, key)) {
        previous := PropSet(previous, key, PropGet(previousProperties, key));
      }
      i := i + 1;
    }
    assert changedPropertyKeys[..i] == changedPropertyKeys;
  }

  lemma {:induction false} DistinctChangedKeys(properties: Props, previous: Props, keys: seq<string>)
    requires forall i, j :: 0 <= i < j < |keys| ==> keys[i] != keys[j]
    ensures forall i, j :: 0 <= i < j < |ChangedKeys(properties, previous, keys)| ==>
      ChangedKeys(properties, previous, keys)[i] != ChangedKeys(properties, previous, keys)[j]
    decreases |keys|
  {
    if |keys| > 0 {
      DistinctChangedKeys(properties, previous, keys[1..]);
      assert keys[0] !in keys[1..] by {
        forall j | 0 <= j < |keys[1..]| ensures keys[1..][j] != keys[0] {
          assert keys[1..][j] == keys[j + 1];
        }
      }
    }
  }

  /** A key is reported exactly when it is listed and its comparison says unequal. */
  lemma {:induction false} ChangedKeysHas(properties: Props, previous: Props, keys: seq<string>, k: string)
    ensures k in ChangedKeys(properties, previous, keys) <==>
      k in keys && PropertyEqual(previous, k, PropGet(properties, k)) == Ok(false)
    decreases |keys|
  {
    if |keys| > 0 {
      ChangedKeysHas(properties, previous, keys[1..], k);
    }
  }

  // ---------------------------------------------------------------- diffing against the deepAssign copy

  /** A plain object none of whose own keys holds a plain object or an array. */
  predicate ShallowValues(v: Value)
    requires v.Obj?
  {
    forall i :: 0 <= i < |v.props.keys| ==> !Container(PropGet(v.props, v.props.keys[i]))
  }

  /** An array item that compares equal to its copy: a shallow plain object, or anything but an array. */
  predicate FlatItem(x: Value)
  {
    if x.Obj? then ShallowValues(x) else !x.Arr?
  }

  /**
   * A property value at most one level deep: an array of flat items, a shallow plain object,
   * or anything that is neither.
   */
  predicate OneLevel(v: Value)
  {
    match v
    case Arr(_, items) => forall i :: 0 <= i < |items| ==> FlatItem(items[i])
    case Obj(_, _) => ShallowValues(v)
    case _ => true
  }

  /** `shallowCompare` of a plain object with its copy: true exactly when the object is shallow. */
  lemma ShallowCompareCopy(x: Value, y: Value, lo: nat)
    requires x.Obj? && CopyOf(x, y, lo) && RefsBelow(x, lo)
    ensures ShallowCompare(x, y) == Ok(ShallowValues(x))
  {
    forall i | 0 <= i < |OwnKeys(x)|
      ensures StrictEq(Get(x, OwnKeys(x)[i]), Get(y, OwnKeys(x)[i])) <==> !Container(PropGet(x.props, x.props.keys[i]))
    {
      var k := x.props.keys[i];
      if k in x.props.vals {
        CopyIdentical(x.props.vals[k], y.props.vals[k], lo);
      }
    }
  }

  /** The `every` over an array and its copy: true exactly when every item is flat. */
  lemma {:induction false} ItemsEqualCopy(items: seq<Value>, copies: seq<Value>, lo: nat)
    requires |items| == |copies|
    requires forall i :: 0 <= i < |items| ==> CopyOf(items[i], copies[i], lo) && RefsBelow(items[i], lo)
    ensures ItemsEqual(items, copies) == Ok(forall i :: 0 <= i < |items| ==> FlatItem(items[i]))
    decreases |items|
  {
    if |items| > 0 {
      if items[0].Obj? {
        ShallowCompareCopy(items[0], copies[0], lo);
      } else {
        CopyIdentical(items[0], copies[0], lo);
      }
      ItemsEqualCopy(items[1..], copies[1..], lo);
      assert (forall i :: 0 <= i < |items| ==> FlatItem(items[i])) <==>
             FlatItem(items[0]) && forall i :: 0 <= i < |items[1..]| ==> FlatItem(items[1..][i]) by {
        forall i | 1 <= i < |items| ensures items[i] == items[1..][i - 1] { }
      }
    }
  }

  /** One key compared with its copy: equal exactly when its value is at most one level deep. */
  lemma PropertyEqualCopy(previous: Props, k: string, v: Value, lo: nat)
    requires k in previous.vals && CopyOf(v, previous.vals[k], lo) && RefsBelow(v, lo)
    ensures PropertyEqual(previous, k, v) == Ok(OneLevel(v))
  {
    var y := previous.vals[k];
    match v
    case Arr(_, items) => ItemsEqualCopy(items, y.items, lo);
    case Obj(_, _) => ShallowCompareCopy(v, y, lo);
    case _ => StrictEqReflexive(v);
  }

  /**
   * Diffing a bag against a deep copy whose objects are all new throws nothing and reports
   * exactly the keys whose value nests a plain object or array more than one level deep.
   */
  lemma CopyDiff(properties: Props, previous: Props, lo: nat)
    requires WellFormed(properties)
    requires PropsCopyOf(properties, previous, lo) && PropsRefsBelow(properties, lo)
    ensures !AnyThrows(properties, previous, properties.keys)
    ensures forall k :: k in ChangedKeys(properties, previous, properties.keys) <==>
      k in properties.keys && !OneLevel(PropGet(properties, k))
    ensures (forall i :: 0 <= i < |properties.keys| ==> OneLevel(PropGet(properties, properties.keys[i]))) ==>
      ChangedKeys(properties, previous, properties.keys) == []
  {
    forall k | k in properties.keys
      ensures PropertyEqual(previous, k, PropGet(properties, k)) == Ok(OneLevel(PropGet(properties, k)))
    {
      PropertyEqualCopy(previous, k, properties.vals[k], lo);
    }
    forall k
      ensures k in ChangedKeys(properties, previous, properties.keys) <==> k in properties.keys && !OneLevel(PropGet(properties, k))
    {
      ChangedKeysHas(properties, previous, properties.keys, k);
    }
    var changed := ChangedKeys(properties, previous, properties.keys);
    if |changed| > 0 {
      assert changed[0] in changed;
    }
  }

  // ---------------------------------------------------------------- the widget object

  /** The key of the child cache: an explicit `id`, or else the factory. */
  datatype CacheKey = IdKey(id: string) | FactoryKey(factory: nat)

  /**
   * What the global `registry` of `src/d.ts` gives for a label: a loaded factory or a pending
   * promise; a label it does not hold gives null.  That registry itself is not part of this
   * model: its entries are an input.
   */
  datatype GlobalItem = Loaded(factory: nat) | Pending

  /** The factory of a child node: a constructor, or a label looked up in the registry. */
  datatype ChildFactory = Constructor(ref: nat) | Label(name: string)

  /** The outcome of resolving one child node. */
  datatype ChildOutcome = Child(child: nat) | NotYetLoaded

  /**
   * Whether `getFromRegistry(label)` makes `dNodeToVNode` throw: the widget's own registry
   * holds the label and its `get` throws (a stored constructor), or only the global registry
   * is asked and gives null.
   */
  predicate LabelFails(name: string, local: map<string, WidgetRegistries.RegistryItem>, registry: map<string, GlobalItem>)
  {
    if name in local then local[name].Constructor? else name !in registry
  }

  /** Whether `getFromRegistry(label)` gives a promise, so that the child is not rendered yet. */
  predicate LabelPending(name: string, local: map<string, WidgetRegistries.RegistryItem>, registry: map<string, GlobalItem>)
  {
    if name in local then !local[name].Constructor? else name in registry && registry[name].Pending?
  }

  /** Every label among the child widget nodes resolves without throwing. */
  predicate AllRegistered(childNodes: seq<(string, ChildFactory)>, local: map<string, WidgetRegistries.RegistryItem>,
                          registry: map<string, GlobalItem>)
  {
    forall i :: 0 <= i < |childNodes| && childNodes[i].1.Label? ==> !LabelFails(childNodes[i].1.name, local, registry)
  }

  /** `b` holds the labels of `a`, each a stored constructor exactly when it is one in `a`. */
  predicate SameConstructors(a: map<string, WidgetRegistries.RegistryItem>, b: map<string, WidgetRegistries.RegistryItem>)
  {
    a.Keys == b.Keys && forall l :: l in a ==> (a[l].Constructor? <==> b[l].Constructor?)
  }

  class Widget {
    /** Whether the next `__render__` must render again. */
    var dirty: bool
    /** The last truthy rendered node (undefined before the first). */
    var cachedVNode: Value
    var properties: Props
    /** The `deepAssign` copy of the properties taken at the last render (or at construction). */
    var previousProperties: Props
    /** Number for the next plain object or array the copies create. */
    var nextRef: nat
    var historicChildren: map<CacheKey, nat>
    var currentChildren: map<CacheKey, nat>
    /** Labels whose pending promise has been hooked to invalidate on resolution. */
    var initializedFactories: set<string>
    /** The widget's own `factoryRegistry`, asked before the global one. */
    var factoryRegistry: map<string, WidgetRegistries.RegistryItem>
    /** Identity of the promise the next factory function called by `get` returns. */
    var nextPromise: nat
    /** Identity of the next child widget created. */
    var nextChild: nat
    /** Child widgets created and owned, and child widgets destroyed, in order. */
    var owned: seq<nat>
    var destroyedChildren: seq<nat>
    /** Number of 'error' and 'invalidated' events emitted. */
    var errorEvents: nat
    var invalidatedEvents: nat

    /** Every cached child is owned, and identities handed out are below `nextChild`. */
    predicate Valid()
      reads this
    {
      && (forall k :: k in historicChildren ==> historicChildren[k] in owned)
      && (forall c :: c in owned ==> c < nextChild)
      && currentChildren.Keys <= historicChildren.Keys
      && WellFormed(properties)
      && PropsRefsBelow(properties, nextRef)
    }

    /**
     * The constructor: dirty, previous properties a `deepAssign` copy of the initial bag, then
     * `applyChangedProperties({}, properties)`, which for a non-empty bag writes the widget's
     * `id` into that very bag (the one kept as `properties`) and sets the state.  The
     * 'state:changed' handler is registered afterwards, so nothing is invalidated.
     */
    constructor(initial: Props, id: string)
      requires WellFormed(initial)
      ensures Valid()
      ensures dirty && cachedVNode == Undefined
      ensures properties == if |initial.keys| > 0 then PropSet(initial, "id", Str(id)) else initial
      ensures PropsCopyOf(initial, previousProperties, BagRefBound(initial)) && WellFormed(previousProperties)
      ensures |initial.keys| > 0 && "id" !in initial.vals ==>
        "id" in ChangedKeys(properties, previousProperties, properties.keys)
      ensures historicChildren == map[] && currentChildren == map[]
      ensures owned == [] && destroyedChildren == [] && errorEvents == 0
      ensures invalidatedEvents == 0 && factoryRegistry == map[]
    {
      dirty := true;
      cachedVNode := Undefined;
      var base := BagRefBound(initial);
      var copy := DeepAssignBag(initial, base);
      DeepAssignBagIsCopy(initial, base);
      PropsRefsBelowGrows(initial, base, copy.1);
      var current := if |initial.keys| > 0 then PropSet(initial, "id", Str(id)) else initial;
      if |initial.keys| > 0 {
        IdWrittenBelow(initial, id, copy.1);
        NewKeysReportedFunctionsNot(current, copy.0, current.keys, "id");
      }
      previousProperties := copy.0;
      nextRef := copy.1;
      properties := current;
      historicChildren := map[];
      currentChildren := map[];
      initializedFactories := {};
      factoryRegistry := map[];
      nextPromise := 0;
      nextChild := 0;
      owned := [];
      destroyedChildren := [];
      errorEvents := 0;
      invalidatedEvents := 0;
    }

    /** `invalidate()`: marks the widget dirty and emits 'invalidated'. */
    method Invalidate()
      modifies this
      ensures dirty
      ensures invalidatedEvents == old(invalidatedEvents) + 1
      ensures cachedVNode == old(cachedVNode) && properties == old(properties)
      ensures previousProperties == old(previousProperties)
      ensures historicChildren == old(historicChildren) && currentChildren == old(currentChildren)
      ensures owned == old(owned) && destroyedChildren == old(destroyedChildren)
      ensures nextChild == old(nextChild) && errorEvents == old(errorEvents)
      ensures initializedFactories == old(initializedFactories) && nextRef == old(nextRef)
      ensures factoryRegistry == old(factoryRegistry) && nextPromise == old(nextPromise)
    {
      dirty := true;
      invalidatedEvents := invalidatedEvents + 1;
    }

    /**
     * The cache part of `dNodeToVNode` for one widget node: resolves a label through the
     * widget's own registry when it holds the label, else through the global one; reuses the
     * child cached under `id || factory` or creates and owns a new one, reports a repeated
     * factory without an id, and records the child as current.
     */
    method ResolveChild(id: string, factory: ChildFactory, registry: map<string, GlobalItem>)
      returns (r: Result<ChildOutcome>)
      requires Valid()
      modifies this`factoryRegistry, this`nextPromise, this`initializedFactories, this`nextChild, this`historicChildren,
               this`owned, this`errorEvents, this`currentChildren
      ensures Valid()
      ensures r.Err? <==> factory.Label? && LabelFails(factory.name, old(factoryRegistry), registry)
      ensures r.Err? && factory.name in old(factoryRegistry) ==> r.message == WidgetRegistries.ConstructorCallError
      ensures factory.Label? && LabelPending(factory.name, old(factoryRegistry), registry) ==>
        r == Ok(NotYetLoaded) && initializedFactories == old(initializedFactories) + {factory.name}
      ensures !(factory.Label? && LabelPending(factory.name, old(factoryRegistry), registry)) ==>
        initializedFactories == old(initializedFactories)
      ensures factoryRegistry == if factory.Label? then WidgetRegistries.GetEntry(old(factoryRegistry), factory.name, old(nextPromise)).1
        else old(factoryRegistry)
      ensures nextPromise == old(nextPromise) +
        (if factory.Label? && factory.name in old(factoryRegistry) && old(factoryRegistry)[factory.name].Factory? then 1 else 0)
      ensures r.Ok? && r.value.Child? ==>
        var f := if factory.Constructor? then factory.ref else registry[factory.name].factory;
        var key := if id != "" then IdKey(id) else FactoryKey(f);
        && currentChildren == old(currentChildren)[key := r.value.child]
        && (key in old(historicChildren) ==> r.value.child == old(historicChildren)[key] && owned == old(owned))
        && (key !in old(historicChildren) ==> r.value.child == old(nextChild) && owned == old(owned) + [r.value.child])
        && historicChildren == old(historicChildren)[key := r.value.child]
        && errorEvents == old(errorEvents) + (if id == "" && FactoryKey(f) in old(currentChildren) then 1 else 0)
      ensures r.Err? || r == Ok(NotYetLoaded) ==>
        historicChildren == old(historicChildren) && currentChildren == old(currentChildren) && owned == old(owned)
    {
      var found := ResolveFactory(factory, registry);
      if found.Err? {
        return Err(found.message);
      }
      if found.value.None? {
        return Ok(NotYetLoaded);
      }
      var child := CacheChild(id, found.value.value);
      return Ok(Child(child));
    }

    /**
     * The constructor of a child widget node: its own, or the one `getFromRegistry` gives for
     * its label; `None` when that is a promise, which is hooked once to invalidate the widget
     * on resolution; an error when `getFromRegistry` throws or gives null.
     */
    method ResolveFactory(factory: ChildFactory, registry: map<string, GlobalItem>) returns (r: Result<Option<nat>>)
      modifies this`factoryRegistry, this`nextPromise, this`initializedFactories
      ensures r.Err? <==> factory.Label? && LabelFails(factory.name, old(factoryRegistry), registry)
      ensures r.Err? && factory.name in old(factoryRegistry) ==> r.message == WidgetRegistries.ConstructorCallError
      ensures r == Ok(None) <==> factory.Label? && LabelPending(factory.name, old(factoryRegistry), registry)
      ensures r.Ok? && r.value.Some? ==> r.value.value == if factory.Constructor? then factory.ref else registry[factory.name].factory
      ensures initializedFactories == old(initializedFactories) + (if r == Ok(None) then {factory.name} else {})
      ensures factoryRegistry == if factory.Label? then WidgetRegistries.GetEntry(old(factoryRegistry), factory.name, old(nextPromise)).1
        else old(factoryRegistry)
      ensures nextPromise == old(nextPromise) +
        (if factory.Label? && factory.name in old(factoryRegistry) && old(factoryRegistry)[factory.name].Factory? then 1 else 0)
    {
      match factory {
        case Constructor(c) =>
          return Ok(Some(c));
        case Label(l) =>
          if l in factoryRegistry {
            var got := GetLocal(l);
            return if got.Err? then Err(got.message) else Ok(None);
          }
          if l !in registry {
            return Err("factory not registered");
          }
          match registry[l] {
            case Pending =>
              initializedFactories := initializedFactories + {l};
              return Ok(None);
            case Loaded(c) =>
              return Ok(Some(c));
          }
      }
    }

    /**
     * The child of the widget node with `id` and constructor `f`: the child cached under
     * `id || f`, or a new one that is cached and owned; a repeated `f` without an id is
     * reported; the child is recorded as current.
     */
    method CacheChild(id: string, f: nat) returns (child: nat)
      requires Valid()
      modifies this`nextChild, this`historicChildren, this`owned, this`errorEvents, this`currentChildren
      ensures Valid()
      ensures var key := if id != "" then IdKey(id) else FactoryKey(f);
        && currentChildren == old(currentChildren)[key := child]
        && (key in old(historicChildren) ==> child == old(historicChildren)[key] && owned == old(owned))
        && (key !in old(historicChildren) ==> child == old(nextChild) && owned == old(owned) + [child])
        && historicChildren == old(historicChildren)[key := child]
        && errorEvents == old(errorEvents) + (if id == "" && FactoryKey(f) in old(currentChildren) then 1 else 0)
    {
      var key := if id != "" then IdKey(id) else FactoryKey(f);
      if key in historicChildren {
        child := historicChildren[key];
      } else {
        child := nextChild;
        nextChild := nextChild + 1;
        historicChildren := historicChildren[key := child];
        owned := owned + [child];
      }
      if id == "" && FactoryKey(f) in currentChildren {
        errorEvents := errorEvents + 1;
      }
      currentChildren := currentChildren[key := child];
    }

    /**
     * The label branch of `dNodeToVNode` when the widget's own registry holds the label: its
     * `get` throws for a stored constructor and otherwise gives a promise, which is hooked to
     * invalidate the widget on resolution, and no child is rendered yet.
     */
    method GetLocal(l: string) returns (r: Result<ChildOutcome>)
      requires l in factoryRegistry
      modifies this`factoryRegistry, this`nextPromise, this`initializedFactories
      ensures r.Err? <==> old(factoryRegistry)[l].Constructor?
      ensures r.Err? ==> r.message == WidgetRegistries.ConstructorCallError && initializedFactories == old(initializedFactories)
      ensures r.Ok? ==> r.value == NotYetLoaded && initializedFactories == old(initializedFactories) + {l}
      ensures factoryRegistry == WidgetRegistries.GetEntry(old(factoryRegistry), l, old(nextPromise)).1
      ensures nextPromise == old(nextPromise) + (if old(factoryRegistry)[l].Factory? then 1 else 0)
    {
      var got := WidgetRegistries.GetEntry(factoryRegistry, l, nextPromise);
      factoryRegistry := got.1;
      if got.0.Chained? {
        nextPromise := nextPromise + 1;
      }
      if got.0.Thrown? {
        return Err(got.0.message);
      }
      initializedFactories := initializedFactories + {l};
      return Ok(NotYetLoaded);
    }

    /**
     * `manageDetachedChildren`: destroys and forgets every cached child not used by this
     * render, then empties the current map.
     */
    method ManageDetachedChildren()
      requires Valid()
      modifies this`historicChildren, this`destroyedChildren, this`currentChildren
      ensures Valid()
      ensures historicChildren == map k | k in old(historicChildren) && k in old(currentChildren) :: old(historicChildren)[k]
      ensures currentChildren == map[]
      ensures |destroyedChildren| >= |old(destroyedChildren)| && destroyedChildren[..|old(destroyedChildren)|] == old(destroyedChildren)
      ensures forall c :: c in destroyedChildren[|old(destroyedChildren)|..] <==>
        exists k :: k in old(historicChildren) && k !in old(currentChildren) && old(historicChildren)[k] == c
    {
      var pending := historicChildren.Keys;
      ghost var start := destroyedChildren;
      ghost var h0 := historicChildren;
      while pending != {}
        invariant pending <= h0.Keys
        invariant historicChildren == map k | k in h0 && (k in pending || k in currentChildren) :: h0[k]
        invariant |destroyedChildren| >= |start| && destroyedChildren[..|start|] == start
        invariant forall c :: c in destroyedChildren[|start|..] <==>
          exists k :: k in h0 && k !in pending && k !in currentChildren && h0[k] == c
        invariant Valid()
        invariant currentChildren == old(currentChildren)
        decreases pending
      {
        var key :| key in pending;
        if key !in currentChildren {
          ghost var child, destroyed := h0[key], destroyedChildren;
          DestroyChild(key);
          assert destroyedChildren[|start|..] == destroyed[|start|..] + [child];
        }
        pending := pending - {key};
      }
      currentChildren := map[];
    }

    /** Destroys the cached child under `key`, which this render did not use, and forgets it. */
    method DestroyChild(key: CacheKey)
      requires Valid() && key in historicChildren && key !in currentChildren
      modifies this`historicChildren, this`destroyedChildren
      ensures Valid()
      ensures historicChildren == old(historicChildren) - {key}
      ensures destroyedChildren == old(destroyedChildren) + [old(historicChildren)[key]]
    {
      destroyedChildren := destroyedChildren + [historicChildren[key]];
      historicChildren := historicChildren - {key};
    }

    /**
     * `__render__`: diffs the properties (a change goes through setState and invalidates),
     * then either renders again (resolving `childNodes`, the widget nodes met while
     * converting the node tree, whose conversion yields `rendered`), or returns the cached
     * node when clean.
     */
    method Render(childNodes: seq<(string, ChildFactory)>, rendered: Value, registry: map<string, GlobalItem>)
      returns (r: Result<Value>)
      requires Valid()
      modifies this
      ensures Valid()
      ensures AnyThrows(properties, old(previousProperties), properties.keys) ==> r.Err? && dirty == old(dirty)
      ensures (!AnyThrows(properties, old(previousProperties), properties.keys) && !old(dirty) && Truthy(old(cachedVNode))
               && ChangedKeys(properties, old(previousProperties), properties.keys) == []) ==>
        r == Ok(old(cachedVNode)) && !dirty && cachedVNode == old(cachedVNode)
        && currentChildren == old(currentChildren) && historicChildren == old(historicChildren)
        && previousProperties == old(previousProperties)
      ensures (r.Ok? && (old(dirty) || !Truthy(old(cachedVNode))
                         || ChangedKeys(properties, old(previousProperties), properties.keys) != [])) ==>
        r == Ok(rendered) && !dirty && currentChildren == map[]
        && PropsCopyOf(properties, previousProperties, old(nextRef)) && WellFormed(previousProperties)
        && cachedVNode == (if Truthy(rendered) then rendered else old(cachedVNode))
      ensures !AnyThrows(properties, old(previousProperties), properties.keys) && AllRegistered(childNodes, old(factoryRegistry), registry) ==> r.Ok?
      ensures properties == old(properties)
    {
      var updated := GenerateProperties(properties, previousProperties);
      if updated.Err? {
        return Err(updated.message);
      }
      if |updated.value.currentProperties.keys| > 0 {
        Invalidate();
      }
      if dirty || !Truthy(cachedVNode) {
        r := RenderAgain(childNodes, rendered, registry);
        return;
      }
      return Ok(cachedVNode);
    }

    /**
     * The widget nodes met while converting the node tree, resolved in order until one
     * throws.
     */
    method ResolveChildren(childNodes: seq<(string, ChildFactory)>, registry: map<string, GlobalItem>)
      returns (error: Option<string>)
      requires Valid()
      modifies this`factoryRegistry, this`nextPromise, this`initializedFactories, this`nextChild, this`historicChildren,
               this`owned, this`errorEvents, this`currentChildren
      ensures Valid()
      ensures error.None? <==> AllRegistered(childNodes, old(factoryRegistry), registry)
    {
      var i := 0;
      while i < |childNodes|
        invariant 0 <= i <= |childNodes|
        invariant Valid()
        invariant AllRegistered(childNodes[..i], old(factoryRegistry), registry)
        invariant SameConstructors(old(factoryRegistry), factoryRegistry)
      {
        assert childNodes[..i + 1] == childNodes[..i] + [childNodes[i]];
        var resolved := ResolveChild(childNodes[i].0, childNodes[i].1, registry);
        if resolved.Err? {
          return Some(resolved.message);
        }
        i := i + 1;
      }
      assert childNodes[..i] == childNodes;
      error := None;
    }

    /**
     * The rendering half of `__render__`: resolves the widget nodes met while converting
     * the node tree, drops the unused cached children and caches the new node.
     */
    method RenderAgain(childNodes: seq<(string, ChildFactory)>, rendered: Value, registry: map<string, GlobalItem>)
      returns (r: Result<Value>)
      requires Valid() && (dirty || !Truthy(cachedVNode))
      modifies this
      ensures Valid()
      ensures r.Ok? ==>
        r == Ok(rendered) && !dirty && currentChildren == map[]
        && PropsCopyOf(properties, previousProperties, old(nextRef)) && WellFormed(previousProperties)
        && cachedVNode == (if Truthy(rendered) then rendered else old(cachedVNode))
      ensures AllRegistered(childNodes, old(factoryRegistry), registry) <==> r.Ok?
      ensures properties == old(properties)
    {
      var error := ResolveChildren(childNodes, registry);
      if error.Some? {
        return Err(error.value);
      }
      ManageDetachedChildren();
      if Truthy(rendered) {
        cachedVNode := rendered;
      }
      dirty := false;
      var copy := DeepAssignBag(properties, nextRef);
      DeepAssignBagIsCopy(properties, nextRef);
      PropsRefsBelowGrows(properties, nextRef, copy.1);
      previousProperties := copy.0;
      nextRef := copy.1;
      return Ok(rendered);
    }
  }

  /**
   * A clean widget with a cache whose property values are at most one level deep, and whose
   * previous properties are the copy taken at its last render, answers from its cache twice
   * in a row.
   */
  method RenderTwiceFromCache(w: Widget, registry: map<string, GlobalItem>, ghost lo: nat) returns (a: Result<Value>, b: Result<Value>)
    requires w.Valid() && !w.dirty && Truthy(w.cachedVNode)
    requires PropsCopyOf(w.properties, w.previousProperties, lo) && PropsRefsBelow(w.properties, lo)
    requires forall i :: 0 <= i < |w.properties.keys| ==> OneLevel(PropGet(w.properties, w.properties.keys[i]))
    modifies w
    ensures a == Ok(old(w.cachedVNode)) && b == a
  {
    CopyDiff(w.properties, w.previousProperties, lo);
    a := w.Render([], Null, registry);
    b := w.Render([], Null, registry);
  }

  /**
   * A widget with a property that nests a plain object or an array more than one level
   * deep renders again on every `__render__`: each copy gives the nested value a new
   * identity, so the next diff reports that key again.
   */
  method RenderNestedEveryTime(w: Widget, rendered: Value, registry: map<string, GlobalItem>, ghost lo: nat, ghost k: string)
    returns (a: Result<Value>, b: Result<Value>)
    requires w.Valid()
    requires PropsCopyOf(w.properties, w.previousProperties, lo) && PropsRefsBelow(w.properties, lo)
    requires k in w.properties.keys && !OneLevel(PropGet(w.properties, k))
    modifies w
    ensures a == Ok(rendered) && b == Ok(rendered) && !w.dirty
  {
    CopyDiff(w.properties, w.previousProperties, lo);
    ghost var n0 := w.nextRef;
    a := w.Render([], rendered, registry);
    CopyDiff(w.properties, w.previousProperties, n0);
    b := w.Render([], rendered, registry);
  }

  /** Comparing a bag with itself finds nothing changed and throws nothing. */
  lemma SelfDiffUnchanged(p: Props)
    requires WellFormed(p)
    ensures !AnyThrows(p, p, p.keys) && ChangedKeys(p, p, p.keys) == []
  {
    forall i | 0 <= i < |p.keys|
      ensures PropertyEqual(p, p.keys[i], PropGet(p, p.keys[i])) == Ok(true)
    {
      SelfEqual(p, p.keys[i]);
    }
    SelfChangedKeys(p, p.keys);
  }

  lemma {:induction false} SelfChangedKeys(p: Props, keys: seq<string>)
    requires forall i :: 0 <= i < |keys| ==> PropertyEqual(p, keys[i], PropGet(p, keys[i])) == Ok(true)
    ensures ChangedKeys(p, p, keys) == []
    decreases |keys|
  {
    if |keys| > 0 {
      SelfChangedKeys(p, keys[1..]);
    }
  }

  lemma SelfEqual(p: Props, k: string)
    requires WellFormed(p) && k in p.keys
    ensures PropertyEqual(p, k, PropGet(p, k)) == Ok(true)
  {
    var v := p.vals[k];
    StrictEqReflexive(v);
    if v.Arr? {
      SelfItemsEqual(v.items);
    } else if v.Obj? {
      forall i | 0 <= i < |OwnKeys(v)| ensures StrictEq(Get(v, OwnKeys(v)[i]), Get(v, OwnKeys(v)[i])) {
        StrictEqReflexive(Get(v, OwnKeys(v)[i]));
      }
    }
  }

  lemma {:induction false} SelfItemsEqual(items: seq<Value>)
    ensures ItemsEqual(items, items) == Ok(true)
    decreases |items|
  {
    if |items| > 0 {
      var x := items[0];
      StrictEqReflexive(x);
      if x.Obj? {
        forall i | 0 <= i < |OwnKeys(x)| ensures StrictEq(Get(x, OwnKeys(x)[i]), Get(x, OwnKeys(x)[i])) {
          StrictEqReflexive(Get(x, OwnKeys(x)[i]));
        }
      }
      SelfItemsEqual(items[1..]);
    }
  }
}
