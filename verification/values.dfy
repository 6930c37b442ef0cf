/**
 * ECMAScript values as the framework sees them.
 *
 * Objects, arrays and functions carry an explicit reference number: `===` on them
 * compares references, never contents.  Plain objects keep their own enumerable keys
 * in insertion order, because `Object.keys` order is observable in several places
 * (changed-key lists, reverse lookups).  `Object.keys` lists integer-like keys first, in
 * ascending order; the model keeps every key in insertion order, so it agrees with
 * `Object.keys` for property bags without such keys.
 */
module JsValues {

  datatype Option<+T> = None | Some(value: T)

  /** A thrown exception is modelled as `Err` carrying the message. */
  datatype Result<+T> = Ok(value: T) | Err(message: string)

  datatype Value =
    | Undefined
    | Null
    | Bool(b: bool)
    | Num(n: int)
    | Str(s: string)
    /** `widgetType` is true for a widget constructor (its `_type` is the widget-base tag). */
    | Func(ref: nat, widgetType: bool)
    | Arr(ref: nat, items: seq<Value>)
    | Obj(ref: nat, props: Props)
    /** Any other object: a Date, a DOM node, a Promise ... (not a plain object or array). */
    | Other(ref: nat)

  /** A plain object: own enumerable keys in insertion order, and their values. */
  datatype Props = Props(keys: seq<string>, vals: map<string, Value>)

  /** What every JS object satisfies: keys listed once each, and exactly the keys present. */
  predicate WellFormed(p: Props)
  {
    && (forall i, j :: 0 <= i < j < |p.keys| ==> p.keys[i] != p.keys[j])
    && p.vals.Keys == set k | k in p.keys
  }

  const EmptyProps: Props := Props([], map[])

  /** `p[k]`: a missing key reads as undefined. */
  function PropGet(p: Props, k: string): Value
  {
    if k in p.vals then p.vals[k] else Undefined
  }

  /** `p[k] = v`: an existing key keeps its place, a new key goes last (in insertion order). */
  function PropSet(p: Props, k: string, v: Value): (r: Props)
    ensures r.vals == p.vals[k := v]
    ensures WellFormed(p) ==> WellFormed(r)
  {
    if k in p.vals then Props(p.keys, p.vals[k := v]) else Props(p.keys + [k], p.vals[k := v])
  }

  /** `Object.assign(target, source)` for a plain source object. */
  function Assign(target: Props, source: Props): (r: Props)
    requires WellFormed(source)
    ensures r.vals.Keys == target.vals.Keys + source.vals.Keys
    ensures forall k :: k in source.vals ==> r.vals[k] == source.vals[k]
    ensures forall k :: k in target.vals && k !in source.vals ==> r.vals[k] == target.vals[k]
    ensures WellFormed(target) ==> WellFormed(r)
    decreases |source.keys|
  {
    if |source.keys| == 0 then target
    else
      var k := source.keys[0];
      var rest := Props(source.keys[1..], source.vals - {k});
      DropFirstKey(source);
      Assign(PropSet(target, k, source.vals[k]), rest)
  }

  /** Removing the first key of a plain object leaves a plain object. */
  lemma DropFirstKey(source: Props)
    requires WellFormed(source) && |source.keys| > 0
    ensures WellFormed(Props(source.keys[1..], source.vals - {source.keys[0]}))
  {
    var rest := Props(source.keys[1..], source.vals - {source.keys[0]});
    forall x ensures x in rest.vals <==> x in rest.keys {
      if x in rest.keys {
        var j :| 0 <= j < |rest.keys| && rest.keys[j] == x;
        assert source.keys[j + 1] == x;
      }
    }
  }

  predicate Truthy(v: Value)
  {
    match v
    case Undefined => false
    case Null => false
    case Bool(b) => b
    case Num(n) => n != 0
    case Str(s) => s != ""
    case _ => true
  }

  predicate IsReference(v: Value)
  {
    v.Func? || v.Arr? || v.Obj? || v.Other?
  }

  /** `a === b` (NaN is not modelled: numbers are integers). */
  predicate StrictEq(a: Value, b: Value)
  {
    match (a, b)
    case (Func(r1, _), Func(r2, _)) => r1 == r2
    case (Arr(r1, _), Arr(r2, _)) => r1 == r2
    case (Obj(r1, _), Obj(r2, _)) => r1 == r2
    case (Other(r1), Other(r2)) => r1 == r2
    case _ => !IsReference(a) && !IsReference(b) && a == b
  }

  lemma StrictEqReflexive(v: Value)
    ensures StrictEq(v, v)
  {
  }

  /** `Object.prototype.toString` says `[object Object]`, or `Array.isArray` holds. */
  predicate IsObjectOrArray(v: Value)
  {
    v.Obj? || v.Arr?
  }

  // ---------------------------------------------------------------- array index keys

  function DigitChar(d: nat): char
    requires d < 10
  {
    (('0' as int) + d) as char
  }

  predicate IsDigit(c: char)
  {
    '0' <= c <= '9'
  }

  /** The decimal spelling of an array index, as `Object.keys` lists it. */
  function IndexKey(n: nat): (r: string)
    ensures |r| >= 1
    decreases n
  {
    if n < 10 then [DigitChar(n)] else IndexKey(n / 10) + [DigitChar(n % 10)]
  }

  function DigitsValue(s: string): nat
    requires forall i :: 0 <= i < |s| ==> IsDigit(s[i])
    decreases |s|
  {
    if |s| == 0 then 0 else DigitsValue(s[..|s| - 1]) * 10 + DigitValue(s[|s| - 1])
  }

  function DigitValue(c: char): nat
    requires IsDigit(c)
  {
    (c as int) - ('0' as int)
  }

  /** A canonical array index: digits only, no leading zero except "0" itself. */
  function ParseIndex(s: string): Option<nat>
  {
    if |s| == 0 || (|s| > 1 && s[0] == '0') || !(forall i :: 0 <= i < |s| ==> IsDigit(s[i])) then None
    else Some(DigitsValue(s))
  }

  lemma {:induction false} IndexKeyDigits(n: nat)
    ensures forall i :: 0 <= i < |IndexKey(n)| ==> IsDigit(IndexKey(n)[i])
    ensures n >= 1 ==> IndexKey(n)[0] != '0'
    ensures DigitsValue(IndexKey(n)) == n
    decreases n
  {
    if n >= 10 {
      IndexKeyDigits(n / 10);
      var a := IndexKey(n / 10);
      var s := IndexKey(n);
      assert s == a + [DigitChar(n % 10)];
      assert s[..|s| - 1] == a;
    }
  }

  /** Spelling an index and parsing it back gives the index again. */
  lemma IndexKeyRoundTrip(n: nat)
    ensures ParseIndex(IndexKey(n)) == Some(n)
  {
    IndexKeyDigits(n);
  }

  lemma IndexKeyInjective(m: nat, n: nat)
    requires IndexKey(m) == IndexKey(n)
    ensures m == n
  {
    IndexKeyRoundTrip(m);
    IndexKeyRoundTrip(n);
  }

  function IndexKeys(n: nat): (r: seq<string>)
    ensures |r| == n
    ensures forall i :: 0 <= i < n ==> r[i] == IndexKey(i)
  {
    seq(n, i requires 0 <= i => IndexKey(i))
  }

  /** `Object.keys(v)` for a value that is not null or undefined. */
  function OwnKeys(v: Value): seq<string>
  {
    match v
    case Obj(_, p) => p.keys
    case Arr(_, items) => IndexKeys(|items|)
    case Str(s) => IndexKeys(|s|)
    case _ => []
  }

  /** `v[k]` for a value that is not null or undefined. */
  function Get(v: Value, k: string): Value
  {
    match v
    case Obj(_, p) => PropGet(p, k)
    case Arr(_, items) =>
      if k == "length" then Num(|items|)
      else (match ParseIndex(k) case Some(i) => if i < |items| then items[i] else Undefined case None => Undefined)
    case Str(s) =>
      if k == "length" then Num(|s|)
      else (match ParseIndex(k) case Some(i) => if i < |s| then Str([s[i]]) else Undefined case None => Undefined)
    case _ => Undefined
  }

  lemma GetArrayIndex(r: nat, items: seq<Value>, i: nat)
    requires i < |items|
    ensures Get(Arr(r, items), IndexKey(i)) == items[i]
  {
    IndexKeyRoundTrip(i);
    IndexKeyDigits(i);
    assert IndexKey(i) != "length" by {
      assert IsDigit(IndexKey(i)[0]);
    }
  }

  // ---------------------------------------------------------------- strings

  /** `s.split(sep)` for a one-character separator: "" splits to [""]. */
  function Split(s: string, sep: char): (r: seq<string>)
    ensures |r| >= 1
    decreases |s|
  {
    if |s| == 0 then [""]
    else
      var rest := Split(s[1..], sep);
      if s[0] == sep then [""] + rest else [[s[0]] + rest[0]] + rest[1..]
  }

  /** `parts.join(sep)` */
  function Join(parts: seq<string>, sep: char): string
    decreases |parts|
  {
    if |parts| == 0 then ""
    else if |parts| == 1 then parts[0]
    else parts[0] + [sep] + Join(parts[1..], sep)
  }

  lemma {:induction false} SplitNoSep(a: string, sep: char)
    requires sep !in a
    ensures Split(a, sep) == [a]
    decreases |a|
  {
    if |a| > 0 {
      SplitNoSep(a[1..], sep);
      assert [a[0]] + a[1..] == a;
    }
  }

  lemma {:induction false} SplitAtSep(a: string, sep: char, b: string)
    requires sep !in a
    ensures Split(a + [sep] + b, sep) == [a] + Split(b, sep)
    decreases |a|
  {
    if |a| == 0 {
      assert (a + [sep] + b)[1..] == b;
    } else {
      var s := a + [sep] + b;
      assert s[1..] == a[1..] + [sep] + b;
      SplitAtSep(a[1..], sep, b);
      assert [a[0]] + a[1..] == a;
    }
  }

  /** Splitting a join gives back the parts, when no part holds the separator. */
  lemma {:induction false} SplitJoin(parts: seq<string>, sep: char)
    requires |parts| >= 1
    requires forall i :: 0 <= i < |parts| ==> sep !in parts[i]
    ensures Split(Join(parts, sep), sep) == parts
    decreases |parts|
  {
    if |parts| == 1 {
      SplitNoSep(parts[0], sep);
    } else {
      SplitJoin(parts[1..], sep);
      SplitAtSep(parts[0], sep, Join(parts[1..], sep));
      assert [parts[0]] + parts[1..] == parts;
    }
  }

  /** Joining a split gives back the string. */
  lemma {:induction false} JoinSplit(s: string, sep: char)
    ensures Join(Split(s, sep), sep) == s
    decreases |s|
  {
    if |s| > 0 {
      JoinSplit(s[1..], sep);
      var rest := Split(s[1..], sep);
      if s[0] == sep {
        assert Split(s, sep) == [""] + rest;
        assert ([""] + rest)[1..] == rest;
        assert [s[0]] + s[1..] == s;
      } else {
        var r := Split(s, sep);
        assert r == [[s[0]] + rest[0]] + rest[1..];
        if |rest| == 1 {
          assert [s[0]] + rest[0] == s;
        } else {
          assert r[1..] == rest[1..];
          assert Join(rest, sep) == rest[0] + [sep] + Join(rest[1..], sep);
          assert s == [s[0]] + s[1..];
        }
      }
    }
  }
}
