/**
 * The property-diff policy: comparators that say whether a property changed and which
 * value to keep, and the loop that diffs a whole property bag.
 */
module PropertyDiff {
  import opened JsValues

  datatype ChangeRecord = ChangeRecord(changed: bool, value: Value)

  /** A diff function registered for one property name. */
  type DiffFn = (Value, Value) -> ChangeRecord

  function Always(previous: Value, next: Value): (r: ChangeRecord)
    ensures r.changed && r.value == next
  {
    ChangeRecord(true, next)
  }

  function Ignore(previous: Value, next: Value): (r: ChangeRecord)
    ensures !r.changed && r.value == next
  {
    ChangeRecord(false, next)
  }

  function Reference(previous: Value, next: Value): (r: ChangeRecord)
    ensures r.value == next
    ensures r.changed <==> !StrictEq(previous, next)
  {
    ChangeRecord(!StrictEq(previous, next), next)
  }

  /** `previousProperty && isObjectOrArray(previousProperty)` */
  predicate ShallowComparable(v: Value)
  {
    Truthy(v) && IsObjectOrArray(v)
  }

  /** `keys.some((key) => next[key] !== previous[key])` */
  function SomeKeyDiffers(keys: seq<string>, previous: Value, next: Value): (r: bool)
    ensures r <==> exists i :: 0 <= i < |keys| && !StrictEq(Get(next, keys[i]), Get(previous, keys[i]))
    decreases |keys|
  {
    if |keys| == 0 then false
    else if !StrictEq(Get(next, keys[0]), Get(previous, keys[0])) then true
    else
      var r := SomeKeyDiffers(keys[1..], previous, next);
      assert r <==> exists i :: 1 <= i < |keys| && !StrictEq(Get(next, keys[i]), Get(previous, keys[i])) by {
        if r {
          var i :| 0 <= i < |keys[1..]| && !StrictEq(Get(next, keys[1..][i]), Get(previous, keys[1..][i]));
          assert keys[1..][i] == keys[i + 1];
        }
        if exists i :: 1 <= i < |keys| && !StrictEq(Get(next, keys[i]), Get(previous, keys[i])) {
          var i :| 1 <= i < |keys| && !StrictEq(Get(next, keys[i]), Get(previous, keys[i]));
          assert keys[1..][i - 1] == keys[i];
        }
      }
      r
  }

  function Shallow(previous: Value, next: Value): (r: ChangeRecord)
    ensures r.value == next
    ensures !ShallowComparable(previous) || !ShallowComparable(next) ==> r.changed
    ensures ShallowComparable(previous) && ShallowComparable(next) ==>
      (r.changed <==>
        (|OwnKeys(previous)| != |OwnKeys(next)|
         || exists k :: k in OwnKeys(next) && !StrictEq(Get(next, k), Get(previous, k))))
  {
    if !ShallowComparable(previous) || !ShallowComparable(next) then ChangeRecord(true, next)
    else if |OwnKeys(previous)| != |OwnKeys(next)| then ChangeRecord(true, next)
    else
      var d := SomeKeyDiffers(OwnKeys(next), previous, next);
      assert d <==> exists k :: k in OwnKeys(next) && !StrictEq(Get(next, k), Get(previous, k)) by {
        if exists k :: k in OwnKeys(next) && !StrictEq(Get(next, k), Get(previous, k)) {
          var k :| k in OwnKeys(next) && !StrictEq(Get(next, k), Get(previous, k));
          var i :| 0 <= i < |OwnKeys(next)| && OwnKeys(next)[i] == k;
        }
      }
      ChangeRecord(d, next)
  }

  /** Arrays with the same items in another order are changed. */
  lemma ShallowReorderedArray()
    ensures Shallow(Arr(1, [Num(1), Num(2), Num(3)]), Arr(2, [Num(1), Num(3), Num(2)])).changed
  {
    var a := Arr(1, [Num(1), Num(2), Num(3)]);
    var b := Arr(2, [Num(1), Num(3), Num(2)]);
    GetArrayIndex(1, a.items, 1);
    GetArrayIndex(2, b.items, 1);
    assert OwnKeys(b)[1] == IndexKey(1);
  }

  /** Two distinct arrays with the same items in the same order are unchanged. */
  lemma ShallowSameItemsUnchanged()
    ensures !Shallow(Arr(1, [Num(1), Num(2), Num(3)]), Arr(2, [Num(1), Num(2), Num(3)])).changed
  {
    var a := Arr(1, [Num(1), Num(2), Num(3)]);
    var c := Arr(2, [Num(1), Num(2), Num(3)]);
    forall k | k in OwnKeys(c) ensures StrictEq(Get(c, k), Get(a, k)) {
      var i :| 0 <= i < 3 && OwnKeys(c)[i] == k;
      GetArrayIndex(1, a.items, i);
      GetArrayIndex(2, c.items, i);
    }
  }

  function Auto(previous: Value, next: Value): (r: ChangeRecord)
    ensures r.value == next
    ensures next.Func? && !next.widgetType ==> !r.changed
    ensures next.Func? && next.widgetType ==> r == Reference(previous, next)
    ensures IsObjectOrArray(next) ==> r == Shallow(previous, next)
    ensures !next.Func? && !IsObjectOrArray(next) ==> r == Reference(previous, next)
  {
    if next.Func? then
      (if next.widgetType then Reference(previous, next) else Ignore(previous, next))
    else if IsObjectOrArray(next) then Shallow(previous, next)
    else Reference(previous, next)
  }

  /**
   * The options of `diffProperties`: the bind target, the optional function that binds
   * function-valued properties, the names registered with their own diff functions, and
   * the diff functions registered per name (`getDecorator('diffProperty:<name>')`).
   */
  datatype DiffOptions = DiffOptions(
    bind: Value,
    bindFunctionProperty: Option<(Value, Value) -> Value>,
    registered: seq<string>,
    diffFunctions: map<string, seq<DiffFn>>)

  function FunctionsFor(opts: DiffOptions, name: string): seq<DiffFn>
  {
    if name in opts.diffFunctions then opts.diffFunctions[name] else []
  }

  /** The new value handed to the comparators for `name`. */
  function NewValue(opts: DiffOptions, next: Props, name: string): Value
  {
    if opts.bindFunctionProperty.Some? && Truthy(opts.bind)
    then opts.bindFunctionProperty.value(PropGet(next, name), opts.bind)
    else PropGet(next, name)
  }

  /** Whether `name` is reported as changed. */
  predicate KeyChanged(opts: DiffOptions, previous: Props, next: Props, name: string)
  {
    var pv := PropGet(previous, name);
    var nv := NewValue(opts, next, name);
    if name in opts.registered
    then exists j :: 0 <= j < |FunctionsFor(opts, name)| && FunctionsFor(opts, name)[j](pv, nv).changed
    else Auto(pv, nv).changed
  }

  /** Whether a value is stored for `name` in the result bag. */
  predicate HasResult(opts: DiffOptions, next: Props, name: string)
  {
    name in next.vals && (name in opts.registered ==> |FunctionsFor(opts, name)| > 0)
  }

  /** The value stored for `name`: the last registered function's, or `auto`'s. */
  function ResultValue(opts: DiffOptions, previous: Props, next: Props, name: string): Value
  {
    var pv := PropGet(previous, name);
    var nv := NewValue(opts, next, name);
    var fns := FunctionsFor(opts, name);
    if name in opts.registered && |fns| > 0 then fns[|fns| - 1](pv, nv).value else Auto(pv, nv).value
  }

  /** The order in which property names are examined: new keys, then previous keys. */
  function AllKeys(previous: Props, next: Props): seq<string>
  {
    next.keys + previous.keys
  }

  /**
   * Whether position i of `all` is examined.  The dedupe test is
   * `checkedProperties.indexOf(name) > 0`, so a repeat of the very first name is
   * examined again.
   */
  predicate Examined(all: seq<string>, i: nat)
    requires i < |all|
  {
    all[i] !in all[..i] || all[i] == all[0]
  }

  function ExaminedPrefix(all: seq<string>, n: nat): seq<string>
    requires n <= |all|
  {
    if n == 0 then [] else ExaminedPrefix(all, n - 1) + (if Examined(all, n - 1) then [all[n - 1]] else [])
  }

  function Filter(s: seq<string>, p: string -> bool): (r: seq<string>)
    ensures |r| <= |s|
  {
    if |s| == 0 then [] else (if p(s[0]) then [s[0]] else []) + Filter(s[1..], p)
  }

  lemma FilterMembers(s: seq<string>, p: string -> bool)
    ensures forall x :: x in Filter(s, p) <==> x in s && p(x)
  {
    if |s| > 0 {
      FilterMembers(s[1..], p);
      assert s == [s[0]] + s[1..];
    }
  }

  /** The names of `s` in order of first occurrence. */
  function Dedup(s: seq<string>): (r: seq<string>)
    ensures |r| <= |s|
  {
    if |s| == 0 then [] else
      var d := Dedup(s[..|s| - 1]);
      if s[|s| - 1] in d then d else d + [s[|s| - 1]]
  }

  lemma {:induction false} DedupMembers(s: seq<string>)
    ensures forall x :: x in Dedup(s) <==> x in s
    decreases |s|
  {
    if |s| > 0 {
      DedupMembers(s[..|s| - 1]);
      assert s == s[..|s| - 1] + [s[|s| - 1]];
    }
  }

  lemma {:induction false} DedupDistinct(s: seq<string>)
    ensures NoDuplicates(Dedup(s))
    decreases |s|
  {
    if |s| > 0 {
      var d := Dedup(s[..|s| - 1]);
      DedupDistinct(s[..|s| - 1]);
      var x := s[|s| - 1];
      assert Dedup(s) == if x in d then d else d + [x];
      if x !in d {
        forall i, j | 0 <= i < j < |d + [x]|
          ensures (d + [x])[i] != (d + [x])[j]
        {
          if j == |d| {
            assert (d + [x])[i] == d[i];
          }
        }
      }
    }
  }

  predicate NoDuplicates(s: seq<string>)
  {
    forall i, j :: 0 <= i < j < |s| ==> s[i] != s[j]
  }

  lemma {:induction false} FilterDistinct(s: seq<string>, p: string -> bool)
    requires NoDuplicates(s)
    ensures NoDuplicates(Filter(s, p))
    decreases |s|
  {
    if |s| > 0 {
      FilterDistinct(s[1..], p);
      FilterMembers(s[1..], p);
      var r := Filter(s, p);
      assert r == (if p(s[0]) then [s[0]] else []) + Filter(s[1..], p);
      forall j | 0 <= j < |s[1..]|
        ensures s[1..][j] != s[0]
      {
        assert s[1..][j] == s[j + 1];
      }
    }
  }

  lemma FilterSnoc(s: seq<string>, x: string, p: string -> bool)
    ensures Filter(s + [x], p) == Filter(s, p) + (if p(x) then [x] else [])
    decreases |s|
  {
    if |s| == 0 {
      assert s + [x] == [x];
    } else {
      assert (s + [x])[1..] == s[1..] + [x];
      FilterSnoc(s[1..], x, p);
    }
  }

  /** The test that selects the changed keys. */
  function ChangedTest(opts: DiffOptions, previous: Props, next: Props): string -> bool
  {
    k => KeyChanged(opts, previous, next, k)
  }

  /** The test that selects the keys stored in the result bag. */
  function ResultTest(opts: DiffOptions, next: Props): string -> bool
  {
    k => HasResult(opts, next, k)
  }

  /** What the loop of `diffProperties` has built after examining a prefix of the names. */
  datatype DiffState = DiffState(checked: seq<string>, changed: seq<string>, properties: Props)

  /** Stores `name`'s value in the result bag when it is a new key with a value. */
  function StoreResult(opts: DiffOptions, previous: Props, next: Props, name: string, bag: Props): Props
  {
    if HasResult(opts, next, name) then PropSet(bag, name, ResultValue(opts, previous, next, name)) else bag
  }

  /** The changed keys after the first n names: an examined name that changed and is not listed yet is appended. */
  function ChangedPrefix(opts: DiffOptions, previous: Props, next: Props, n: nat): seq<string>
    requires n <= |AllKeys(previous, next)|
  {
    if n == 0 then []
    else
      var changed := ChangedPrefix(opts, previous, next, n - 1);
      var name := AllKeys(previous, next)[n - 1];
      if Examined(AllKeys(previous, next), n - 1) && KeyChanged(opts, previous, next, name) && name !in changed
      then changed + [name] else changed
  }

  /** The result bag after the first n names: every examined name stores its result. */
  function ResultPrefix(opts: DiffOptions, previous: Props, next: Props, n: nat): Props
    requires n <= |AllKeys(previous, next)|
  {
    if n == 0 then EmptyProps
    else
      var bag := ResultPrefix(opts, previous, next, n - 1);
      if Examined(AllKeys(previous, next), n - 1)
      then StoreResult(opts, previous, next, AllKeys(previous, next)[n - 1], bag) else bag
  }

  /** The loop state after the first n names of `AllKeys(previous, next)`. */
  function DiffPrefix(opts: DiffOptions, previous: Props, next: Props, n: nat): DiffState
    requires n <= |AllKeys(previous, next)|
  {
    DiffState(ExaminedPrefix(AllKeys(previous, next), n), ChangedPrefix(opts, previous, next, n),
      ResultPrefix(opts, previous, next, n))
  }

  /**
   * The list of examined names holds every name seen so far, the first name first, so the
   * loop's test `indexOf(name) > 0` skips exactly the names that are not examined.
   */
  lemma {:induction false} ExaminedPrefixFacts(all: seq<string>, n: nat)
    requires n <= |all|
    ensures forall x :: x in ExaminedPrefix(all, n) <==> x in all[..n]
    ensures n > 0 ==> |ExaminedPrefix(all, n)| > 0 && ExaminedPrefix(all, n)[0] == all[0]
    ensures n < |all| ==> (IndexOf(ExaminedPrefix(all, n), all[n]) > 0 <==> !Examined(all, n))
  {
    if n > 0 {
      ExaminedPrefixFacts(all, n - 1);
      var before := ExaminedPrefix(all, n - 1);
      var added := if Examined(all, n - 1) then [all[n - 1]] else [];
      assert ExaminedPrefix(all, n) == before + added;
      PrefixSnoc(all, n);
      if n == 1 {
        assert all[..0] == [];
      }
    }
    if n < |all| {
      SkippedByIndexOf(ExaminedPrefix(all, n), all, n);
    }
  }

  /** With the examined names listed, first name first, `indexOf(name) > 0` means not examined. */
  lemma SkippedByIndexOf(examined: seq<string>, all: seq<string>, n: nat)
    requires n < |all|
    requires forall x :: x in examined <==> x in all[..n]
    requires n > 0 ==> |examined| > 0 && examined[0] == all[0]
    ensures IndexOf(examined, all[n]) > 0 <==> !Examined(all, n)
  {
    IndexOfFirst(examined, all[n]);
  }

  /** The changed keys are the distinct names, in first-seen order, whose comparison changed. */
  lemma {:induction false} ChangedPrefixKeys(opts: DiffOptions, previous: Props, next: Props, n: nat)
    requires n <= |AllKeys(previous, next)|
    ensures ChangedPrefix(opts, previous, next, n)
      == Filter(Dedup(AllKeys(previous, next)[..n]), ChangedTest(opts, previous, next))
  {
    var all := AllKeys(previous, next);
    if n > 0 {
      ChangedPrefixKeys(opts, previous, next, n - 1);
      ChangedStep(opts, previous, next, all[..n - 1], all[n - 1], Examined(all, n - 1),
        ChangedPrefix(opts, previous, next, n - 1), ChangedPrefix(opts, previous, next, n));
      PrefixSnoc(all, n);
    }
  }

  /** A step of the loop, examined or skipped, keeps the changed keys equal to the filtered names seen. */
  lemma ChangedStep(opts: DiffOptions, previous: Props, next: Props, seen: seq<string>, name: string,
                    examined: bool, before: seq<string>, after: seq<string>)
    requires before == Filter(Dedup(seen), ChangedTest(opts, previous, next))
    requires examined || name in seen
    requires after == if examined && KeyChanged(opts, previous, next, name) && name !in before then before + [name] else before
    ensures after == Filter(Dedup(seen + [name]), ChangedTest(opts, previous, next))
  {
    var p := ChangedTest(opts, previous, next);
    DedupSnoc(seen, name);
    FilterMembers(Dedup(seen), p);
    DedupMembers(seen);
    if name !in seen {
      FilterSnoc(Dedup(seen), name, p);
    }
  }

  /** The result bag holds the new keys with a value, in their order. */
  lemma {:induction false} ResultPrefixKeys(opts: DiffOptions, previous: Props, next: Props, n: nat)
    requires n <= |AllKeys(previous, next)|
    ensures WellFormed(ResultPrefix(opts, previous, next, n))
    ensures ResultPrefix(opts, previous, next, n).keys
      == Filter(Dedup(AllKeys(previous, next)[..n]), ResultTest(opts, next))
  {
    var all := AllKeys(previous, next);
    if n > 0 {
      ResultPrefixKeys(opts, previous, next, n - 1);
      ResultKeysStep(opts, previous, next, all[..n - 1], all[n - 1], Examined(all, n - 1),
        ResultPrefix(opts, previous, next, n - 1), ResultPrefix(opts, previous, next, n));
      PrefixSnoc(all, n);
    }
  }

  /** A step of the loop, examined or skipped, keeps the result keys equal to the filtered names seen. */
  lemma ResultKeysStep(opts: DiffOptions, previous: Props, next: Props, seen: seq<string>, name: string,
                       examined: bool, before: Props, after: Props)
    requires WellFormed(before)
    requires before.keys == Filter(Dedup(seen), ResultTest(opts, next))
    requires examined || name in seen
    requires after == if examined then StoreResult(opts, previous, next, name, before) else before
    ensures WellFormed(after)
    ensures after.keys == Filter(Dedup(seen + [name]), ResultTest(opts, next))
  {
    ResultKeysSnoc(opts, previous, next, seen, name, before);
  }

  /** A prefix one longer is the shorter prefix followed by the next name. */
  lemma PrefixSnoc(all: seq<string>, n: nat)
    requires 0 < n <= |all|
    ensures all[..n] == all[..n - 1] + [all[n - 1]]
  {
  }

  /** Storing a name's result extends the filtered key list by that name when it is new. */
  lemma ResultKeysSnoc(opts: DiffOptions, previous: Props, next: Props, seen: seq<string>, name: string, bag: Props)
    requires WellFormed(bag)
    requires bag.keys == Filter(Dedup(seen), ResultTest(opts, next))
    ensures name in seen ==> StoreResult(opts, previous, next, name, bag).keys == bag.keys
    ensures StoreResult(opts, previous, next, name, bag).keys == Filter(Dedup(seen + [name]), ResultTest(opts, next))
    ensures WellFormed(StoreResult(opts, previous, next, name, bag))
  {
    var p := ResultTest(opts, next);
    DedupSnoc(seen, name);
    FilterMembers(Dedup(seen), p);
    DedupMembers(seen);
    if name !in seen {
      FilterSnoc(Dedup(seen), name, p);
      assert name !in bag.vals;
    }
  }

  /** Every value in the result bag is the one its comparators produced. */
  lemma {:induction false} ResultPrefixValues(opts: DiffOptions, previous: Props, next: Props, n: nat)
    requires n <= |AllKeys(previous, next)|
    ensures forall k :: k in ResultPrefix(opts, previous, next, n).vals ==>
      ResultPrefix(opts, previous, next, n).vals[k] == ResultValue(opts, previous, next, k)
  {
    if n > 0 {
      ResultPrefixValues(opts, previous, next, n - 1);
    }
  }

  /** The outcome of the whole loop, in terms of the names and the comparators. */
  lemma DiffOutcome(opts: DiffOptions, previous: Props, next: Props)
    requires WellFormed(next)
    ensures var st := DiffPrefix(opts, previous, next, |AllKeys(previous, next)|);
      && WellFormed(st.properties)
      && st.changed == Filter(Dedup(AllKeys(previous, next)), ChangedTest(opts, previous, next))
      && NoDuplicates(st.changed)
      && st.properties.keys == Filter(next.keys, ResultTest(opts, next))
      && (forall k :: k in st.properties.vals <==> HasResult(opts, next, k))
      && (forall k :: k in st.properties.vals ==> st.properties.vals[k] == ResultValue(opts, previous, next, k))
      && st.checked == ExaminedPrefix(AllKeys(previous, next), |AllKeys(previous, next)|)
  {
    var all := AllKeys(previous, next);
    assert all[..|all|] == all;
    ChangedPrefixKeys(opts, previous, next, |all|);
    ResultPrefixKeys(opts, previous, next, |all|);
    ResultPrefixValues(opts, previous, next, |all|);
    DedupDistinct(all);
    FilterDistinct(Dedup(all), ChangedTest(opts, previous, next));
    ResultKeysInNewOrder(previous, next, opts);
    FilterMembers(next.keys, ResultTest(opts, next));
  }

  /**
   * Diffs a new property bag against the previous one.  Returns the bag of effective
   * values, the changed keys, and the names in the order the comparators were run on them.
   */
  method DiffProperties(previous: Props, next: Props, opts: DiffOptions)
    returns (properties: Props, changedPropertyKeys: seq<string>, examined: seq<string>)
    requires WellFormed(previous) && WellFormed(next)
    ensures WellFormed(properties)
    ensures changedPropertyKeys == Filter(Dedup(AllKeys(previous, next)), ChangedTest(opts, previous, next))
    ensures NoDuplicates(changedPropertyKeys)
    ensures properties.keys == Filter(next.keys, ResultTest(opts, next))
    ensures forall k :: k in properties.vals <==> HasResult(opts, next, k)
    ensures forall k :: k in properties.vals ==> properties.vals[k] == ResultValue(opts, previous, next, k)
    ensures examined == ExaminedPrefix(AllKeys(previous, next), |AllKeys(previous, next)|)
  {
    var st := DiffLoop(previous, next, opts);
    properties, changedPropertyKeys, examined := st.properties, st.changed, st.checked;
    DiffOutcome(opts, previous, next);
  }

  /** One more name of the loop: the state after `n` names from the state after `n - 1`. */
  lemma DiffPrefixNext(opts: DiffOptions, previous: Props, next: Props, n: nat)
    requires 0 < n <= |AllKeys(previous, next)|
    ensures var all := AllKeys(previous, next); var name := all[n - 1];
      && ExaminedPrefix(all, n) == ExaminedPrefix(all, n - 1) + (if Examined(all, n - 1) then [name] else [])
      && ChangedPrefix(opts, previous, next, n) ==
         (if Examined(all, n - 1) && KeyChanged(opts, previous, next, name) && name !in ChangedPrefix(opts, previous, next, n - 1)
          then ChangedPrefix(opts, previous, next, n - 1) + [name] else ChangedPrefix(opts, previous, next, n - 1))
      && ResultPrefix(opts, previous, next, n) ==
         (if Examined(all, n - 1) then StoreResult(opts, previous, next, name, ResultPrefix(opts, previous, next, n - 1))
          else ResultPrefix(opts, previous, next, n - 1))
  {
  }

  /** The loop of `diffProperties` over the new names followed by the old ones. */
  method DiffLoop(previous: Props, next: Props, opts: DiffOptions) returns (st: DiffState)
    requires WellFormed(previous) && WellFormed(next)
    ensures st == DiffPrefix(opts, previous, next, |AllKeys(previous, next)|)
  {
    var all := next.keys + previous.keys;
    var changedPropertyKeys := [];
    var checkedProperties: seq<string> := [];
    var properties := EmptyProps;
    var i := 0;
    while i < |all|
      invariant 0 <= i <= |all|
      invariant checkedProperties == ExaminedPrefix(all, i)
      invariant changedPropertyKeys == ChangedPrefix(opts, previous, next, i)
      invariant properties == ResultPrefix(opts, previous, next, i)
    {
      var propertyName := all[i];
      ExaminedPrefixFacts(all, i);
      DiffPrefixNext(opts, previous, next, i + 1);
      if IndexOf(checkedProperties, propertyName) <= 0 {
        checkedProperties := checkedProperties + [propertyName];
        var c, v := ExamineProperty(previous, next, opts, propertyName);
        if c && propertyName !in changedPropertyKeys {
          changedPropertyKeys := changedPropertyKeys + [propertyName];
        }
        if propertyName in next.vals && v.Some? {
          properties := PropSet(properties, propertyName, v.value);
        }
      }
      i := i + 1;
    }
    st := DiffState(checkedProperties, changedPropertyKeys, properties);
  }

  /** Runs the comparators on one name: whether it changed, and the value to store if any. */
  method ExamineProperty(previous: Props, next: Props, opts: DiffOptions, name: string)
    returns (changed: bool, value: Option<Value>)
    ensures changed == KeyChanged(opts, previous, next, name)
    ensures value.Some? <==> (name in opts.registered ==> |FunctionsFor(opts, name)| > 0)
    ensures value.Some? ==> value.value == ResultValue(opts, previous, next, name)
  {
    var previousProperty := PropGet(previous, name);
    var newProperty := NewValue(opts, next, name);
    if name in opts.registered {
      changed, value := RunDiffFunctions(FunctionsFor(opts, name), previousProperty, newProperty);
    } else {
      var result := Auto(previousProperty, newProperty);
      changed, value := result.changed, Some(result.value);
    }
  }

  function IndexOf(s: seq<string>, x: string): (r: int)
    ensures -1 <= r < |s|
    ensures r == -1 <==> x !in s
    ensures r >= 0 ==> s[r] == x && x !in s[..r]
  {
    if |s| == 0 then -1 else if s[0] == x then 0 else
      var r := IndexOf(s[1..], x);
      if r == -1 then -1 else r + 1
  }

  lemma IndexOfFirst(s: seq<string>, x: string)
    ensures |s| > 0 && s[0] == x ==> IndexOf(s, x) == 0
  {
  }

  /**
   * Runs the registered diff functions in order: the key is changed when any of them says
   * so, and the last one's value is kept (none when the list is empty).
   */
  method RunDiffFunctions(fns: seq<DiffFn>, previous: Value, next: Value) returns (changed: bool, value: Option<Value>)
    ensures changed <==> exists j :: 0 <= j < |fns| && fns[j](previous, next).changed
    ensures value == if |fns| == 0 then None else Some(fns[|fns| - 1](previous, next).value)
  {
    changed, value := false, None;
    var j := 0;
    while j < |fns|
      invariant 0 <= j <= |fns|
      invariant changed <==> exists t :: 0 <= t < j && fns[t](previous, next).changed
      invariant value == if j == 0 then None else Some(fns[j - 1](previous, next).value)
    {
      var result := fns[j](previous, next);
      if result.changed {
        changed := true;
      }
      value := Some(result.value);
      j := j + 1;
    }
  }

  /** Deduplicating keeps an already-distinct prefix and appends only names outside it. */
  lemma {:induction false} DedupAppend(a: seq<string>, b: seq<string>)
    requires NoDuplicates(a)
    ensures |Dedup(a + b)| >= |a| && Dedup(a + b)[..|a|] == a
    ensures forall i :: |a| <= i < |Dedup(a + b)| ==> Dedup(a + b)[i] !in a
    decreases |b|
  {
    if |b| == 0 {
      assert a + b == a;
      DedupOfDistinct(a);
    } else {
      var b' := b[..|b| - 1];
      DedupAppend(a, b');
      assert a + b == (a + b') + [b[|b| - 1]];
      assert (a + b)[..|a + b| - 1] == a + b';
    }
  }

  lemma {:induction false} DedupOfDistinct(a: seq<string>)
    requires NoDuplicates(a)
    ensures Dedup(a) == a
    decreases |a|
  {
    if |a| > 0 {
      DedupOfDistinct(a[..|a| - 1]);
      assert a == a[..|a| - 1] + [a[|a| - 1]];
      assert a[|a| - 1] !in a[..|a| - 1];
    }
  }

  lemma {:induction false} FilterAppend(a: seq<string>, b: seq<string>, p: string -> bool)
    ensures Filter(a + b, p) == Filter(a, p) + Filter(b, p)
    decreases |a|
  {
    if |a| == 0 {
      assert a + b == b;
    } else {
      var head := if p(a[0]) then [a[0]] else [];
      FilterAppend(a[1..], b, p);
      calc {
        Filter(a + b, p);
        { assert (a + b)[0] == a[0]; assert (a + b)[1..] == a[1..] + b; }
        head + Filter(a[1..] + b, p);
        head + (Filter(a[1..], p) + Filter(b, p));
        (head + Filter(a[1..], p)) + Filter(b, p);
      }
    }
  }

  /** The result bag lists its keys in the order of the new bag's keys. */
  lemma ResultKeysInNewOrder(previous: Props, next: Props, opts: DiffOptions)
    requires WellFormed(next)
    ensures Filter(Dedup(AllKeys(previous, next)), ResultTest(opts, next)) == Filter(next.keys, ResultTest(opts, next))
  {
    var p := ResultTest(opts, next);
    var d := Dedup(next.keys + previous.keys);
    DedupAppend(next.keys, previous.keys);
    var rest := d[|next.keys|..];
    assert d == next.keys + rest;
    FilterAppend(next.keys, rest, p);
    forall i | 0 <= i < |rest|
      ensures !p(rest[i])
    {
      assert rest[i] == d[|next.keys| + i];
      assert rest[i] !in next.keys;
      assert rest[i] !in next.vals;
    }
    FilterNone(rest, p);
    assert Filter(rest, p) == [];
    assert Filter(next.keys + rest, p) == Filter(next.keys, p) + [];
  }

  lemma DedupSnoc(s: seq<string>, x: string)
    ensures Dedup(s + [x]) == if x in s then Dedup(s) else Dedup(s) + [x]
  {
    assert (s + [x])[..|s|] == s;
    DedupMembers(s);
  }

  lemma {:induction false} FilterNone(s: seq<string>, p: string -> bool)
    requires forall i :: 0 <= i < |s| ==> !p(s[i])
    ensures Filter(s, p) == []
    decreases |s|
  {
    if |s| > 0 {
      FilterNone(s[1..], p);
    }
  }

  // ---------------------------------------------------------------- properties of the policy

  /** `auto` never reports a value compared with itself as changed. */
  lemma AutoSameValueUnchanged(v: Value)
    ensures !Auto(v, v).changed
  {
    StrictEqReflexive(v);
    if IsObjectOrArray(v) {
      forall k | k in OwnKeys(v)
        ensures StrictEq(Get(v, k), Get(v, k))
      {
        StrictEqReflexive(Get(v, k));
      }
    }
  }

  /**
   * A key only the previous bag has is compared with undefined by `auto`: it is changed
   * exactly when its old value was not undefined.
   */
  lemma RemovedKeyChanged(opts: DiffOptions, previous: Props, next: Props, name: string)
    requires name !in next.vals && name !in opts.registered && opts.bindFunctionProperty.None?
    ensures KeyChanged(opts, previous, next, name) <==> PropGet(previous, name) != Undefined
    ensures !HasResult(opts, next, name)
  {
  }

  /**
   * Diffing a bag against itself, with no registered comparators and no binding, reports
   * nothing changed and keeps every value.
   */
  lemma {:induction false} SameBagsUnchanged(opts: DiffOptions, bag: Props, n: nat)
    requires opts.registered == [] && opts.bindFunctionProperty.None?
    requires n <= |AllKeys(bag, bag)|
    ensures ChangedPrefix(opts, bag, bag, n) == []
  {
    if n > 0 {
      SameBagsUnchanged(opts, bag, n - 1);
      AutoSameValueUnchanged(PropGet(bag, AllKeys(bag, bag)[n - 1]));
    }
  }

  /**
   * The dedupe test `indexOf(name) > 0` lets a repeat of the first name through: a name
   * that is both the first new key and an old key is examined twice.
   */
  lemma FirstNameExaminedTwice(a: string)
    ensures ExaminedPrefix([a] + [a], 2) == [a, a]
    ensures ExaminedPrefix(["b"] + [a, "b"], 3) == ["b", a, "b"]
  {
    var s := [a] + [a];
    assert Examined(s, 0) && Examined(s, 1);
    assert ExaminedPrefix(s, 1) == [a];
    var t := ["b"] + [a, "b"];
    assert t[..1] == ["b"] && t[..2] == ["b", a];
    assert Examined(t, 0) && Examined(t, 1) && Examined(t, 2);
    assert ExaminedPrefix(t, 1) == ["b"];
    assert ExaminedPrefix(t, 2) == ["b", a];
  }
}
