/**
 * `deepAssign({}, source)` as the widget base uses it to remember the properties of the last
 * render: plain objects and arrays are copied at every depth and so get new identities,
 * while functions, other objects and primitives are shared.  Identities are reference
 * numbers handed out from a counter.
 */
module DeepAssign {
  import opened JsValues

  /** A plain object or an array: what the copy recreates. */
  predicate Container(v: Value)
  {
    v.Arr? || v.Obj?
  }

  function Max(a: nat, b: nat): nat
  {
    if a < b then b else a
  }

  /**
   * The copy of one value, whose new objects and arrays are numbered from `next` on; the
   * second component is the next unused number.
   */
  function DeepCopy(v: Value, next: nat): (r: (Value, nat))
    ensures r.1 >= next
    decreases v
  {
    match v
    case Arr(_, items) =>
      var c := CopyItems(items, next + 1);
      (Arr(next, c.0), c.1)
    case Obj(_, p) =>
      var c := CopyProps(p, p.keys, next + 1);
      (Obj(next, c.0), c.1)
    case _ => (v, next)
  }

  /** `copyArray`: every item copied, in order. */
  function CopyItems(items: seq<Value>, next: nat): (r: (seq<Value>, nat))
    ensures r.1 >= next
    decreases items
  {
    if |items| == 0 then ([], next)
    else
      var first := DeepCopy(items[0], next);
      var rest := CopyItems(items[1..], first.1);
      ([first.0] + rest.0, rest.1)
  }

  /** The `for (key in source)` loop of the mixin over the own keys `keys` of `p`, in order. */
  function CopyProps(p: Props, keys: seq<string>, next: nat): (r: (Props, nat))
    ensures r.1 >= next
    decreases p, |keys|
  {
    if |keys| == 0 then (EmptyProps, next)
    else if keys[0] in p.vals then
      var first := DeepCopy(p.vals[keys[0]], next);
      var rest := CopyProps(p, keys[1..], first.1);
      (Props([keys[0]] + rest.0.keys, rest.0.vals[keys[0] := first.0]), rest.1)
    else
      var rest := CopyProps(p, keys[1..], next);
      (Props([keys[0]] + rest.0.keys, rest.0.vals), rest.1)
  }

  /** `deepAssign({}, p)` for a bag of properties. */
  function DeepAssignBag(p: Props, next: nat): (r: (Props, nat))
    ensures r.1 >= next
  {
    CopyProps(p, p.keys, next)
  }

  /**
   * `y` is a copy of `x`: the same shape and keys, the same non-container values, and every
   * object or array a new one numbered `lo` or above.
   */
  predicate CopyOf(x: Value, y: Value, lo: nat)
    decreases x
  {
    match x
    case Arr(_, items) =>
      && y.Arr? && y.ref >= lo && |y.items| == |items|
      && forall i :: 0 <= i < |items| ==> CopyOf(items[i], y.items[i], lo)
    case Obj(_, p) => y.Obj? && y.ref >= lo && PropsCopyOf(p, y.props, lo)
    case _ => y == x
  }

  /** `q` is a copy of the own keys of `p`. */
  predicate PropsCopyOf(p: Props, q: Props, lo: nat)
    decreases p
  {
    && q.keys == p.keys
    && (forall k :: k in q.vals ==> k in p.keys)
    && (forall k :: k in p.keys ==> (k in q.vals <==> k in p.vals))
    && (forall k :: k in p.keys && k in p.vals ==> CopyOf(p.vals[k], q.vals[k], lo))
  }

  lemma {:induction false} DeepCopyIsCopy(v: Value, next: nat, lo: nat)
    requires lo <= next
    ensures CopyOf(v, DeepCopy(v, next).0, lo)
    decreases v, 1
  {
    match v
    case Arr(_, items) => CopyItemsAreCopies(items, next + 1, lo);
    case Obj(_, p) => CopyPropsIsCopy(p, p.keys, next + 1, lo);
    case _ =>
  }

  lemma {:induction false} CopyItemsAreCopies(items: seq<Value>, next: nat, lo: nat)
    requires lo <= next
    ensures |CopyItems(items, next).0| == |items|
    ensures forall i :: 0 <= i < |items| ==> CopyOf(items[i], CopyItems(items, next).0[i], lo)
    decreases items, 0
  {
    if |items| > 0 {
      var first := DeepCopy(items[0], next);
      DeepCopyIsCopy(items[0], next, lo);
      CopyItemsAreCopies(items[1..], first.1, lo);
      var r := CopyItems(items, next).0;
      forall i | 0 <= i < |items|
        ensures CopyOf(items[i], r[i], lo)
      {
        if i > 0 {
          assert items[i] == items[1..][i - 1];
        }
      }
    }
  }

  lemma {:induction false} CopyPropsIsCopy(p: Props, keys: seq<string>, next: nat, lo: nat)
    requires lo <= next
    ensures var q := CopyProps(p, keys, next).0;
      && q.keys == keys
      && (forall k :: k in q.vals ==> k in keys)
      && (forall k :: k in keys ==> (k in q.vals <==> k in p.vals))
      && (forall k :: k in keys && k in p.vals ==> CopyOf(p.vals[k], q.vals[k], lo))
    decreases p, 0, |keys|
  {
    if |keys| > 0 {
      var k0 := keys[0];
      if k0 in p.vals {
        var first := DeepCopy(p.vals[k0], next);
        DeepCopyIsCopy(p.vals[k0], next, lo);
        CopyPropsIsCopy(p, keys[1..], first.1, lo);
      } else {
        CopyPropsIsCopy(p, keys[1..], next, lo);
      }
    }
  }

  /** The copy of a bag is a copy of its own keys, and a well-formed bag gives a well-formed copy. */
  lemma DeepAssignBagIsCopy(p: Props, next: nat)
    ensures PropsCopyOf(p, DeepAssignBag(p, next).0, next)
    ensures WellFormed(p) ==> WellFormed(DeepAssignBag(p, next).0)
  {
    CopyPropsIsCopy(p, p.keys, next, next);
  }

  /** Every object and array reachable from `v` through own keys is numbered below `n`. */
  predicate RefsBelow(v: Value, n: nat)
    decreases v
  {
    match v
    case Arr(r, items) => r < n && forall i :: 0 <= i < |items| ==> RefsBelow(items[i], n)
    case Obj(r, p) => r < n && PropsRefsBelow(p, n)
    case _ => true
  }

  predicate PropsRefsBelow(p: Props, n: nat)
    decreases p
  {
    forall k :: k in p.keys && k in p.vals ==> RefsBelow(p.vals[k], n)
  }

  lemma {:induction false} RefsBelowGrows(v: Value, n: nat, m: nat)
    requires RefsBelow(v, n) && n <= m
    ensures RefsBelow(v, m)
    decreases v, 1
  {
    match v
    case Arr(_, items) =>
      forall i | 0 <= i < |items|
        ensures RefsBelow(items[i], m)
      {
        RefsBelowGrows(items[i], n, m);
      }
    case Obj(_, p) => PropsRefsBelowGrows(p, n, m);
    case _ =>
  }

  lemma {:induction false} PropsRefsBelowGrows(p: Props, n: nat, m: nat)
    requires PropsRefsBelow(p, n) && n <= m
    ensures PropsRefsBelow(p, m)
    decreases p, 0
  {
    forall k | k in p.keys && k in p.vals
      ensures RefsBelow(p.vals[k], m)
    {
      RefsBelowGrows(p.vals[k], n, m);
    }
  }

  /** One more than the largest number of an object or array reachable from `v`. */
  function RefBound(v: Value): nat
    decreases v
  {
    match v
    case Arr(r, items) => Max(r + 1, ItemsBound(items))
    case Obj(r, p) => Max(r + 1, KeysBound(p, p.keys))
    case _ => 0
  }

  function ItemsBound(items: seq<Value>): nat
    decreases items
  {
    if |items| == 0 then 0 else Max(RefBound(items[0]), ItemsBound(items[1..]))
  }

  function KeysBound(p: Props, keys: seq<string>): nat
    decreases p, |keys|
  {
    if |keys| == 0 then 0
    else Max(if keys[0] in p.vals then RefBound(p.vals[keys[0]]) else 0, KeysBound(p, keys[1..]))
  }

  /** The first number the copies of a bag may use without meeting one the bag already reaches. */
  function BagRefBound(p: Props): (n: nat)
    ensures PropsRefsBelow(p, n)
  {
    KeysBoundIsAbove(p, p.keys);
    KeysBound(p, p.keys)
  }

  lemma {:induction false} RefBoundIsAbove(v: Value)
    ensures RefsBelow(v, RefBound(v))
    decreases v, 1
  {
    match v
    case Arr(_, items) =>
      ItemsBoundIsAbove(items);
      forall i | 0 <= i < |items|
        ensures RefsBelow(items[i], RefBound(v))
      {
        RefsBelowGrows(items[i], ItemsBound(items), RefBound(v));
      }
    case Obj(_, p) =>
      KeysBoundIsAbove(p, p.keys);
      PropsRefsBelowGrows(p, KeysBound(p, p.keys), RefBound(v));
    case _ =>
  }

  lemma {:induction false} ItemsBoundIsAbove(items: seq<Value>)
    ensures forall i :: 0 <= i < |items| ==> RefsBelow(items[i], ItemsBound(items))
    decreases items, 0
  {
    if |items| > 0 {
      RefBoundIsAbove(items[0]);
      RefsBelowGrows(items[0], RefBound(items[0]), ItemsBound(items));
      ItemsBoundIsAbove(items[1..]);
      forall i | 1 <= i < |items|
        ensures RefsBelow(items[i], ItemsBound(items))
      {
        assert items[i] == items[1..][i - 1];
        RefsBelowGrows(items[i], ItemsBound(items[1..]), ItemsBound(items));
      }
    }
  }

  lemma {:induction false} KeysBoundIsAbove(p: Props, keys: seq<string>)
    ensures forall k :: k in keys && k in p.vals ==> RefsBelow(p.vals[k], KeysBound(p, keys))
    decreases p, 0, |keys|
  {
    if |keys| > 0 {
      KeysBoundIsAbove(p, keys[1..]);
      forall k | k in keys && k in p.vals
        ensures RefsBelow(p.vals[k], KeysBound(p, keys))
      {
        if k == keys[0] {
          RefBoundIsAbove(p.vals[k]);
          RefsBelowGrows(p.vals[k], RefBound(p.vals[k]), KeysBound(p, keys));
        } else {
          RefsBelowGrows(p.vals[k], KeysBound(p, keys[1..]), KeysBound(p, keys));
        }
      }
    }
  }

  /**
   * `===` between a value and its copy holds exactly for values that are not plain objects
   * or arrays, once the copy's numbers lie above the original's.
   */
  lemma CopyIdentical(x: Value, y: Value, lo: nat)
    requires CopyOf(x, y, lo) && RefsBelow(x, lo)
    ensures StrictEq(x, y) <==> !Container(x)
  {
    if !Container(x) {
      StrictEqReflexive(x);
    }
  }
}
