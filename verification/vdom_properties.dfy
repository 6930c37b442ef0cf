/**
 * `setProperties` of `src/vdom4.ts`: how the reconciler writes a virtual node's properties
 * onto its element.  The element is abstract: its class list as a set of tokens, its style,
 * attributes and plain fields as maps, the node operations it was asked to perform (`focus`,
 * `blur`, ...) as a log, and its listeners as (event name, handler) pairs.
 */
module DomProperties {
  import opened JsValues

  // ---------------------------------------------------------------- class names

  /** A `SupportedClassName`: a string, or null/undefined (`None`). */
  type ClassName = Option<string>

  /** A class-name entry read from a property value; anything but a string counts as null. */
  function ClassNameOf(v: Value): ClassName
  {
    if v.Str? then Some(v.s) else None
  }

  /** `Array.isArray(v) ? v : [v]` for a `classes` property. */
  function ClassList(v: Value): (r: seq<ClassName>)
    ensures v.Arr? ==> |r| == |v.items|
    ensures !v.Arr? ==> r == [ClassNameOf(v)]
  {
    if v.Arr? then seq(|v.items|, i requires 0 <= i < |v.items| => ClassNameOf(v.items[i]))
    else [ClassNameOf(v)]
  }

  /** A truthy entry: `addClasses` and `removeClasses` ignore the others. */
  predicate Present(c: ClassName)
  {
    c.Some? && c.value != ""
  }

  function Elements(s: seq<string>): (r: set<string>)
    ensures forall x :: x in r <==> x in s
  {
    set x | x in s
  }

  /** The tokens `classes.split(' ')` gives for one entry; none for an absent entry. */
  function Tokens(c: ClassName): (r: set<string>)
    ensures !Present(c) ==> r == {}
  {
    if Present(c) then Elements(Split(c.value, ' ')) else {}
  }

  /** The tokens of every entry of a class list. */
  function TokensOf(entries: seq<ClassName>): (r: set<string>)
    decreases |entries|
  {
    if |entries| == 0 then {}
    else TokensOf(entries[..|entries| - 1]) + Tokens(entries[|entries| - 1])
  }

  lemma {:induction false} TokensOfHas(entries: seq<ClassName>, x: string)
    ensures x in TokensOf(entries) <==> exists i :: 0 <= i < |entries| && x in Tokens(entries[i])
    decreases |entries|
  {
    if |entries| > 0 {
      var front := entries[..|entries| - 1];
      TokensOfHas(front, x);
      if x in TokensOf(entries) && x !in Tokens(entries[|entries| - 1]) {
        var i :| 0 <= i < |front| && x in Tokens(front[i]);
        assert entries[i] == front[i];
      }
      if exists i :: 0 <= i < |entries| && x in Tokens(entries[i]) {
        var i :| 0 <= i < |entries| && x in Tokens(entries[i]);
        if i < |front| {
          assert front[i] == entries[i];
        }
      }
    }
  }

  lemma TokensOfEntry(entries: seq<ClassName>, e: ClassName)
    requires e in entries
    ensures Tokens(e) <= TokensOf(entries)
  {
    var i :| 0 <= i < |entries| && entries[i] == e;
    forall x | x in Tokens(e)
      ensures x in TokensOf(entries)
    {
      TokensOfHas(entries, x);
    }
  }

  /** `addClasses(domNode, c)` */
  function AddTokens(classList: set<string>, c: ClassName): (r: set<string>)
  {
    classList + Tokens(c)
  }

  /** `removeClasses(domNode, c)` */
  function RemoveTokens(classList: set<string>, c: ClassName): (r: set<string>)
  {
    classList - Tokens(c)
  }

  /** `addClasses` over a list of entries, in order. */
  function AddAll(classList: set<string>, entries: seq<ClassName>): (r: set<string>)
    decreases |entries|
  {
    if |entries| == 0 then classList
    else AddTokens(AddAll(classList, entries[..|entries| - 1]), entries[|entries| - 1])
  }

  /** `removeClasses` over a list of entries, in order. */
  function RemoveAll(classList: set<string>, entries: seq<ClassName>): (r: set<string>)
    decreases |entries|
  {
    if |entries| == 0 then classList
    else RemoveTokens(RemoveAll(classList, entries[..|entries| - 1]), entries[|entries| - 1])
  }

  lemma {:induction false} AddAllIsUnion(classList: set<string>, entries: seq<ClassName>)
    ensures AddAll(classList, entries) == classList + TokensOf(entries)
    decreases |entries|
  {
    if |entries| > 0 {
      AddAllIsUnion(classList, entries[..|entries| - 1]);
    }
  }

  lemma {:induction false} RemoveAllIsDifference(classList: set<string>, entries: seq<ClassName>)
    ensures RemoveAll(classList, entries) == classList - TokensOf(entries)
    decreases |entries|
  {
    if |entries| > 0 {
      RemoveAllIsDifference(classList, entries[..|entries| - 1]);
    }
  }

  /** `newClasses.indexOf(c)`: the first position holding `c`, or -1. */
  function IndexOf(entries: seq<ClassName>, c: ClassName): (r: int)
    ensures r == -1 <==> c !in entries
    ensures r != -1 ==> 0 <= r < |entries| && entries[r] == c && c !in entries[..r]
    decreases |entries|
  {
    if |entries| == 0 then -1
    else if entries[0] == c then 0
    else
      var k := IndexOf(entries[1..], c);
      assert k != -1 ==> entries[1..][..k] == entries[1..k + 1];
      if k == -1 then -1 else k + 1
  }

  /**
   * The loop over the previous entries: a truthy previous entry still listed is struck off
   * the new list (first occurrence), one no longer listed has its tokens removed.
   */
  function MatchPrevious(classList: set<string>, previous: seq<ClassName>, newClasses: seq<ClassName>)
    : (r: (set<string>, seq<ClassName>))
    decreases |previous|
  {
    if |previous| == 0 then (classList, newClasses)
    else
      var front := MatchPrevious(classList, previous[..|previous| - 1], newClasses);
      var p := previous[|previous| - 1];
      if !Present(p) then front
      else
        var classIndex := IndexOf(front.1, p);
        if classIndex == -1 then (RemoveTokens(front.0, p), front.1)
        else (front.0, front.1[..classIndex] + front.1[classIndex + 1..])
  }

  /** The `classes` branch of `setProperties` as written: only the unmatched new entries are added. */
  function ReconcileAsWritten(classList: set<string>, previousValue: Value, propValue: Value): set<string>
  {
    var previousClasses := ClassList(previousValue);
    var currentClasses := ClassList(propValue);
    if |previousClasses| > 0 then
      if !Truthy(propValue) || StrictEq(Get(propValue, "length"), Num(0)) then RemoveAll(classList, previousClasses)
      else
        var m := MatchPrevious(classList, previousClasses, currentClasses);
        AddAll(m.0, m.1)
    else AddAll(classList, currentClasses)
  }

  /**
   * The `classes` branch with every new entry added after the removals, so that a token a
   * removed entry shares with a kept entry is put back.
   */
  function Reconcile(classList: set<string>, previousValue: Value, propValue: Value): set<string>
  {
    var previousClasses := ClassList(previousValue);
    var currentClasses := ClassList(propValue);
    if |previousClasses| > 0 then
      if !Truthy(propValue) || StrictEq(Get(propValue, "length"), Num(0)) then RemoveAll(classList, previousClasses)
      else
        var m := MatchPrevious(classList, previousClasses, currentClasses);
        AddAll(m.0, currentClasses)
    else AddAll(classList, currentClasses)
  }

  /** What the loop over previous entries keeps true, for the corrected and the written version. */
  lemma MatchPreviousFacts(classList: set<string>, previous: seq<ClassName>, current: seq<ClassName>)
    ensures var m := MatchPrevious(classList, previous, current);
      && m.0 <= classList
      && (forall x :: x in classList && x !in m.0 ==> x in TokensOf(previous))
      && (forall x :: x in TokensOf(previous) && x !in TokensOf(current) ==> x !in m.0)
      && (forall e :: e in m.1 ==> e in current)
      && (forall e :: e in current && (forall i :: 0 <= i < |previous| && Present(previous[i]) ==> previous[i] != e) ==> e in m.1)
  {
    MatchedEntries(classList, previous, current);
    MatchedTokens(classList, previous, current);
  }

  /** The entries left over are new entries, and every new entry no previous entry names is among them. */
  lemma {:induction false} MatchedEntries(classList: set<string>, previous: seq<ClassName>, current: seq<ClassName>)
    ensures var m := MatchPrevious(classList, previous, current);
      && (forall e :: e in m.1 ==> e in current)
      && (forall e :: e in current && (forall i :: 0 <= i < |previous| && Present(previous[i]) ==> previous[i] != e) ==> e in m.1)
    decreases |previous|
  {
    if |previous| > 0 {
      var front := previous[..|previous| - 1];
      var p := previous[|previous| - 1];
      MatchedEntries(classList, front, current);
      var f := MatchPrevious(classList, front, current);
      forall e | e in current && (forall i :: 0 <= i < |previous| && Present(previous[i]) ==> previous[i] != e)
        ensures e in f.1 && (Present(p) ==> p != e)
      {
        forall i | 0 <= i < |front| && Present(front[i])
          ensures front[i] != e
        {
          assert front[i] == previous[i];
        }
      }
      if Present(p) {
        var classIndex := IndexOf(f.1, p);
        if classIndex != -1 {
          RemovedAt(f.1, classIndex);
        }
      }
    }
  }

  /** Only tokens of previous entries are removed, and every one of them no new entry carries is. */
  lemma {:induction false} MatchedTokens(classList: set<string>, previous: seq<ClassName>, current: seq<ClassName>)
    ensures var m := MatchPrevious(classList, previous, current);
      && m.0 <= classList
      && (forall x :: x in classList && x !in m.0 ==> x in TokensOf(previous))
      && (forall x :: x in TokensOf(previous) && x !in TokensOf(current) ==> x !in m.0)
    decreases |previous|
  {
    if |previous| > 0 {
      var front := previous[..|previous| - 1];
      var p := previous[|previous| - 1];
      MatchedTokens(classList, front, current);
      assert TokensOf(previous) == TokensOf(front) + Tokens(p);
      if Present(p) {
        var f := MatchPrevious(classList, front, current);
        if IndexOf(f.1, p) != -1 {
          MatchedEntries(classList, front, current);
          TokensOfEntry(current, p);
        }
      }
    }
  }

  /** Taking out the entry at `k` keeps the other entries and adds none. */
  lemma RemovedAt(s: seq<ClassName>, k: int)
    requires 0 <= k < |s|
    ensures forall e :: e in s[..k] + s[k + 1..] ==> e in s
    ensures forall e :: e in s && e != s[k] ==> e in s[..k] + s[k + 1..]
  {
    var rest := s[..k] + s[k + 1..];
    forall e | e in rest
      ensures e in s
    {
      var j :| 0 <= j < |rest| && rest[j] == e;
      if j < k {
        assert e == s[j];
      } else {
        assert e == s[j + 1];
      }
    }
    forall e | e in s && e != s[k]
      ensures e in rest
    {
      var j :| 0 <= j < |s| && s[j] == e;
      if j < k {
        assert rest[j] == e;
      } else {
        assert rest[j - 1] == e;
      }
    }
  }

  /**
   * The class list after reconciliation: the tokens of the previous entries that no new entry
   * carries are removed and every token of the new entries is present; nothing else changes.
   * A falsy or empty new value carries no tokens, so all previous tokens go.
   */
  lemma ReconcileExact(classList: set<string>, previousValue: Value, propValue: Value)
    ensures Reconcile(classList, previousValue, propValue)
      == (classList - (TokensOf(ClassList(previousValue)) - TokensOf(ClassList(propValue)))) + TokensOf(ClassList(propValue))
  {
    var previousClasses := ClassList(previousValue);
    var currentClasses := ClassList(propValue);
    if |previousClasses| > 0 {
      if !Truthy(propValue) || StrictEq(Get(propValue, "length"), Num(0)) {
        RemoveAllIsDifference(classList, previousClasses);
        ClearingValueHasNoTokens(propValue);
      } else {
        MatchedThenAdded(classList, previousClasses, currentClasses);
      }
    } else {
      assert previousValue.Arr? && previousClasses == [];
      AddAllIsUnion(classList, currentClasses);
    }
  }

  /** A falsy or empty new value carries no tokens. */
  lemma ClearingValueHasNoTokens(propValue: Value)
    requires !Truthy(propValue) || StrictEq(Get(propValue, "length"), Num(0))
    ensures TokensOf(ClassList(propValue)) == {}
  {
    var currentClasses := ClassList(propValue);
    if propValue.Arr? {
      assert |propValue.items| == 0;
      assert currentClasses == [];
    } else {
      assert currentClasses == [ClassNameOf(propValue)];
      assert currentClasses[..|currentClasses| - 1] == [];
      assert !Present(ClassNameOf(propValue));
      assert TokensOf(currentClasses) == TokensOf([]) + Tokens(ClassNameOf(propValue));
    }
  }

  /** The matching loop followed by adding every new entry gives the exact class list. */
  lemma MatchedThenAdded(classList: set<string>, previous: seq<ClassName>, current: seq<ClassName>)
    ensures AddAll(MatchPrevious(classList, previous, current).0, current)
      == (classList - (TokensOf(previous) - TokensOf(current))) + TokensOf(current)
  {
    var m := MatchPrevious(classList, previous, current);
    MatchPreviousFacts(classList, previous, current);
    AddAllIsUnion(m.0, current);
  }

  /** As written, the tokens no new entry carries are still removed ... */
  lemma StaleTokensRemovedAsWritten(classList: set<string>, previousValue: Value, propValue: Value, x: string)
    requires x in TokensOf(ClassList(previousValue)) && x !in TokensOf(ClassList(propValue))
    ensures x !in ReconcileAsWritten(classList, previousValue, propValue)
  {
    var previousClasses := ClassList(previousValue);
    var currentClasses := ClassList(propValue);
    if !Truthy(propValue) || StrictEq(Get(propValue, "length"), Num(0)) {
      RemoveAllIsDifference(classList, previousClasses);
    } else {
      var m := MatchPrevious(classList, previousClasses, currentClasses);
      MatchPreviousFacts(classList, previousClasses, currentClasses);
      AddAllIsUnion(m.0, m.1);
      if x in TokensOf(m.1) {
        TokensOfHas(m.1, x);
        var i :| 0 <= i < |m.1| && x in Tokens(m.1[i]);
        TokensOfEntry(currentClasses, m.1[i]);
      }
    }
  }

  /**
   * ... but a token of a new entry that equals a previous entry can be lost: previous
   * `["a", "a"]`, new `["a"]` on an element with class `a` leaves it without `a`.
   */
  lemma RepeatedPreviousEntryLosesClass()
    ensures var previousValue := Arr(1, [Str("a"), Str("a")]);
      var propValue := Arr(2, [Str("a")]);
      && "a" in TokensOf(ClassList(propValue))
      && ReconcileAsWritten({"a"}, previousValue, propValue) == {}
      && Reconcile({"a"}, previousValue, propValue) == {"a"}
  {
    var previousValue := Arr(1, [Str("a"), Str("a")]);
    var propValue := Arr(2, [Str("a")]);
    var pc := ClassList(previousValue);
    var cc := ClassList(propValue);
    assert pc == [Some("a"), Some("a")];
    assert cc == [Some("a")];
    assert "a"[1..] == "";
    assert Split("", ' ') == [""];
    assert Split("a", ' ') == [['a'] + ""] + [""][1..];
    assert ['a'] + "" == "a" && [""][1..] == [];
    assert Split("a", ' ') == ["a"];
    assert Tokens(Some("a")) == {"a"};
    assert cc[..0] == [];
    assert TokensOf(cc) == {"a"};
    assert pc[..1] == [Some("a")];
    assert pc[..1][..0] == [];
    assert IndexOf(cc, Some("a")) == 0;
    assert MatchPrevious({"a"}, pc[..1][..0], cc) == ({"a"}, cc);
    assert cc[..0] + cc[1..] == [];
    assert MatchPrevious({"a"}, pc[..1], cc) == ({"a"}, []);
    assert IndexOf([], Some("a")) == -1;
    assert pc[..|pc| - 1] == pc[..1];
    assert RemoveTokens({"a"}, Some("a")) == {};
    assert MatchPrevious({"a"}, pc, cc) == ({}, []);
    AddAllIsUnion({}, cc);
  }

  /** Entries at different positions share no token (so no entry is repeated either). */
  predicate TokensDisjoint(entries: seq<ClassName>)
  {
    forall i, j :: 0 <= i < j < |entries| ==> Tokens(entries[i]) !! Tokens(entries[j])
  }

  /**
   * When the class list carries the previous entries' tokens and those entries share no
   * token, the matching loop keeps every token of the new entries, in the class list or in
   * the entries left over to add.
   */
  lemma {:induction false} MatchKeepsNewTokens(classList: set<string>, previous: seq<ClassName>, current: seq<ClassName>)
    requires TokensOf(previous) <= classList
    requires TokensDisjoint(previous)
    ensures var m := MatchPrevious(classList, previous, current);
      TokensOf(current) <= m.0 + TokensOf(m.1)
    decreases |previous|
  {
    if |previous| > 0 {
      var front := previous[..|previous| - 1];
      var p := previous[|previous| - 1];
      assert TokensOf(previous) == TokensOf(front) + Tokens(p);
      assert TokensDisjoint(front) by {
        forall i, j | 0 <= i < j < |front|
          ensures Tokens(front[i]) !! Tokens(front[j])
        {
          assert front[i] == previous[i] && front[j] == previous[j];
        }
      }
      MatchKeepsNewTokens(classList, front, current);
      if Present(p) {
        var f := MatchPrevious(classList, front, current);
        var classIndex := IndexOf(f.1, p);
        forall x | x in TokensOf(current)
          ensures x in MatchPrevious(classList, previous, current).0 + TokensOf(MatchPrevious(classList, previous, current).1)
        {
          if classIndex == -1 {
            if x in Tokens(p) {
              UnmatchedKeeps(classList, previous, current, x);
            }
          } else if x !in f.0 {
            MatchedKeeps(classList, previous, current, x);
          }
        }
      }
    }
  }

  /** A token of a new entry that the unmatched last previous entry removes is in a left-over entry. */
  lemma UnmatchedKeeps(classList: set<string>, previous: seq<ClassName>, current: seq<ClassName>, x: string)
    requires |previous| > 0 && TokensDisjoint(previous)
    requires var f := MatchPrevious(classList, previous[..|previous| - 1], current);
      Present(previous[|previous| - 1]) && IndexOf(f.1, previous[|previous| - 1]) == -1
    requires x in TokensOf(current) && x in Tokens(previous[|previous| - 1])
    ensures x in TokensOf(MatchPrevious(classList, previous[..|previous| - 1], current).1)
  {
    var front := previous[..|previous| - 1];
    TokensOfHas(current, x);
    var i :| 0 <= i < |current| && x in Tokens(current[i]);
    var c := current[i];
    forall k | 0 <= k < |front| && Present(front[k])
      ensures front[k] != c
    {
      assert previous[k] == front[k];
    }
    MatchedEntries(classList, front, current);
    TokensOfEntry(MatchPrevious(classList, front, current).1, c);
  }

  /** A token of the left-over entries survives striking the matched last previous entry off. */
  lemma MatchedKeeps(classList: set<string>, previous: seq<ClassName>, current: seq<ClassName>, x: string)
    requires |previous| > 0 && TokensDisjoint(previous)
    requires TokensOf(previous) <= classList
    requires var f := MatchPrevious(classList, previous[..|previous| - 1], current);
      Present(previous[|previous| - 1]) && IndexOf(f.1, previous[|previous| - 1]) != -1
      && x in f.0 + TokensOf(f.1) && x !in f.0
    ensures x in TokensOf(MatchPrevious(classList, previous, current).1)
  {
    var front := previous[..|previous| - 1];
    var p := previous[|previous| - 1];
    var f := MatchPrevious(classList, front, current);
    NotInLastEntry(classList, previous, current, x);
    StrikeKeepsToken(f.1, IndexOf(f.1, p), x);
  }

  /** A token the matching loop over the earlier entries removed is not a token of the last entry. */
  lemma NotInLastEntry(classList: set<string>, previous: seq<ClassName>, current: seq<ClassName>, x: string)
    requires |previous| > 0 && TokensDisjoint(previous)
    requires TokensOf(previous) <= classList
    requires x !in MatchPrevious(classList, previous[..|previous| - 1], current).0
    ensures x !in Tokens(previous[|previous| - 1])
  {
    var front := previous[..|previous| - 1];
    var p := previous[|previous| - 1];
    forall k | 0 <= k < |front| && x in Tokens(p)
      ensures x !in Tokens(front[k])
    {
      assert previous[k] == front[k];
    }
    TokensOfHas(front, x);
    MatchedTokens(classList, front, current);
    assert TokensOf(previous) == TokensOf(front) + Tokens(p);
  }

  /** Striking an entry off a list keeps every token some other entry carries. */
  lemma StrikeKeepsToken(entries: seq<ClassName>, k: int, x: string)
    requires 0 <= k < |entries|
    requires x in TokensOf(entries) && x !in Tokens(entries[k])
    ensures x in TokensOf(entries[..k] + entries[k + 1..])
  {
    TokensOfHas(entries, x);
    var j :| 0 <= j < |entries| && x in Tokens(entries[j]);
    RemovedAt(entries, k);
    TokensOfEntry(entries[..k] + entries[k + 1..], entries[j]);
  }

  /**
   * The rule as written agrees with every new entry being added when the element carries the
   * previous entries' tokens and no two previous entries share a token.
   */
  lemma AsWrittenIsReconcile(classList: set<string>, previousValue: Value, propValue: Value)
    requires TokensOf(ClassList(previousValue)) <= classList
    requires TokensDisjoint(ClassList(previousValue))
    ensures ReconcileAsWritten(classList, previousValue, propValue) == Reconcile(classList, previousValue, propValue)
  {
    var previousClasses := ClassList(previousValue);
    var currentClasses := ClassList(propValue);
    if |previousClasses| > 0 && !(!Truthy(propValue) || StrictEq(Get(propValue, "length"), Num(0))) {
      var m := MatchPrevious(classList, previousClasses, currentClasses);
      MatchKeepsNewTokens(classList, previousClasses, currentClasses);
      MatchedEntries(classList, previousClasses, currentClasses);
      forall x | x in TokensOf(m.1)
        ensures x in TokensOf(currentClasses)
      {
        TokensOfHas(m.1, x);
        var j :| 0 <= j < |m.1| && x in Tokens(m.1[j]);
        TokensOfEntry(currentClasses, m.1[j]);
      }
      AddAllIsUnion(m.0, m.1);
      AddAllIsUnion(m.0, currentClasses);
    }
  }

  // ---------------------------------------------------------------- the element and its other properties

  datatype ElementState = ElementState(
    classList: set<string>,
    style: map<string, Value>,
    attributes: map<string, string>,
    fields: map<string, Value>,
    calls: seq<string>,
    listeners: set<(string, Value)>)

  /** `domNode[name]`: a field never written reads as undefined. */
  function Field(fields: map<string, Value>, name: string): Value
  {
    if name in fields then fields[name] else Undefined
  }

  /** `nodeOperations` */
  const NodeOperations: seq<string> := ["focus", "blur", "scrollIntoView", "click"]

  /**
   * `nodeOperation`: a function value is called (`invoke` gives what it returns) and the
   * operation runs iff the call returned `true`; any other value runs it iff it is truthy and
   * the previous value was falsy.
   */
  predicate OperationFires(propValue: Value, previousValue: Value, invoke: Value -> Value)
  {
    var result := if propValue.Func? then invoke(propValue)
      else if !Truthy(propValue) then propValue
      else Bool(!Truthy(previousValue));
    result == Bool(true)
  }

  /** A flag kept truthy across renders runs its operation once, when it first turns truthy. */
  lemma OperationIsOneShot(propValue: Value, previousValue: Value, invoke: Value -> Value)
    requires !propValue.Func?
    ensures OperationFires(propValue, previousValue, invoke) <==> Truthy(propValue) && !Truthy(previousValue)
  {
  }

  /** `previousValue && previousValue[styleName]` */
  function OldStyle(previousValue: Value, styleName: string): Value
  {
    if Truthy(previousValue) then Get(previousValue, styleName) else previousValue
  }

  /** The style after the loop over the style names `names` of `propValue`. */
  function StylesWritten(style: map<string, Value>, propValue: Value, previousValue: Value, names: seq<string>)
    : (r: map<string, Value>)
    decreases |names|
  {
    if |names| == 0 then style
    else
      var front := StylesWritten(style, propValue, previousValue, names[..|names| - 1]);
      var styleName := names[|names| - 1];
      var newStyleValue := Get(propValue, styleName);
      if StrictEq(newStyleValue, OldStyle(previousValue, styleName)) then front
      else front[styleName := if Truthy(newStyleValue) then newStyleValue else Str("")]
  }

  /**
   * A style whose value is identical to the previous one is not written; any other named
   * style is set to its value, or to "" when that is falsy; unnamed styles are untouched.
   */
  lemma {:induction false} StylesWrittenExact(style: map<string, Value>, propValue: Value, previousValue: Value,
                                              names: seq<string>, k: string)
    ensures var r := StylesWritten(style, propValue, previousValue, names);
      var v := Get(propValue, k);
      if k in names && !StrictEq(v, OldStyle(previousValue, k))
      then k in r && r[k] == (if Truthy(v) then v else Str(""))
      else (k in r <==> k in style) && (k in style ==> r[k] == style[k])
    decreases |names|
  {
    if |names| > 0 {
      StylesWrittenExact(style, propValue, previousValue, names[..|names| - 1], k);
      assert names == names[..|names| - 1] + [names[|names| - 1]];
    }
  }

  /** The `value` guard: the field is written only when it differs and the user has not typed over it. */
  function ValueWritten(fields: map<string, Value>, propValue: Value, previousValue: Value): (r: map<string, Value>)
  {
    var domValue := Field(fields, "value");
    var typed := Field(fields, "oninput-value");
    if !StrictEq(domValue, propValue)
       && (if Truthy(typed) then StrictEq(domValue, typed) else !StrictEq(propValue, previousValue))
    then fields["value" := propValue]["oninput-value" := Undefined]
    else fields
  }

  /**
   * After the guard the element shows the rendered value, unless the user's input holds it
   * back: what was typed differs from the element's value, or nothing was typed and the
   * rendered value did not change since the last render.  A write forgets the typed value.
   */
  lemma ValueGuard(fields: map<string, Value>, propValue: Value, previousValue: Value)
    ensures var r := ValueWritten(fields, propValue, previousValue);
      var typed := Field(fields, "oninput-value");
      && (StrictEq(Field(r, "value"), propValue)
          || (Truthy(typed) && !StrictEq(Field(fields, "value"), typed))
          || (!Truthy(typed) && StrictEq(propValue, previousValue)))
      && (r != fields ==> Field(r, "value") == propValue && Field(r, "oninput-value") == Undefined)
      && (forall k :: k != "value" && k != "oninput-value" ==> Field(r, k) == Field(fields, k))
  {
  }

  predicate IsEventProperty(name: string)
  {
    |name| >= 2 && name[..2] == "on"
  }

  /** Two `on...` property names with the same event name are the same name. */
  lemma EventNameDetermines(n: string, m: string)
    requires IsEventProperty(n) && IsEventProperty(m) && n[2..] == m[2..]
    ensures n == m
  {
    assert n == n[..2] + n[2..] && m == m[..2] + m[2..];
  }

  /** `updateEvent`: the previous handler's listener is removed and the new one added. */
  function EventUpdated(listeners: set<(string, Value)>, eventName: string, handler: Value, previousValue: Value)
    : (r: set<(string, Value)>)
    ensures (eventName, handler) in r
    ensures forall l :: l in r && l != (eventName, handler) ==> l in listeners
  {
    (if Truthy(previousValue) then listeners - {(eventName, previousValue)} else listeners) + {(eventName, handler)}
  }

  /** The last branch of the loop: listeners, attributes and plain fields. */
  function OtherWritten(s: ElementState, name: string, propValue: Value, previousValue: Value): (r: ElementState)
    ensures r.classList == s.classList && r.style == s.style && r.calls == s.calls
    ensures name == "key" || StrictEq(propValue, previousValue) ==> r == s
    ensures forall l :: l in r.listeners && l !in s.listeners ==>
      IsEventProperty(name) && propValue.Func? && l == (name[2..], propValue)
  {
    if name == "key" || StrictEq(propValue, previousValue) then s
    else if propValue.Func? && IsEventProperty(name) then
      s.(listeners := EventUpdated(s.listeners, name[2..], propValue, previousValue))
    else if propValue.Str? && name != "innerHTML" then
      if name == "role" && propValue.s == "" then s.(attributes := s.attributes - {name})
      else s.(attributes := s.attributes[name := propValue.s])
    else if name == "scrollLeft" || name == "scrollTop" then
      if StrictEq(Field(s.fields, name), propValue) then s else s.(fields := s.fields[name := propValue])
    else s.(fields := s.fields[name := propValue])
  }

  /** `Object.keys(propValue)` in the `styles` branch throws a TypeError for null and undefined. */
  predicate StylesThrow(name: string, propValue: Value)
  {
    name == "styles" && (propValue.Null? || propValue.Undefined?)
  }

  /**
   * One round of the loop over the new property names, for a round that does not throw (the
   * loop stops before a `styles` value that is null or undefined, see `Reached`).
   */
  function KeyStep(s: ElementState, name: string, propValue: Value, previousValue: Value, invoke: Value -> Value)
    : (r: ElementState)
    ensures name != "classes" ==> r.classList == s.classList
    ensures name != "styles" ==> r.style == s.style
  {
    if name == "classes" then s.(classList := ReconcileAsWritten(s.classList, previousValue, propValue))
    else OtherKeyStep(s, name, propValue, previousValue, invoke)
  }

  /** A round for a name other than `classes`. */
  function OtherKeyStep(s: ElementState, name: string, propValue: Value, previousValue: Value, invoke: Value -> Value)
    : (r: ElementState)
    requires name != "classes"
    ensures r.classList == s.classList
    ensures name != "styles" ==> r.style == s.style
  {
    if name in NodeOperations then
      if OperationFires(propValue, previousValue, invoke) then s.(calls := s.calls + [name]) else s
    else if name == "styles" then
      s.(style := StylesWritten(s.style, propValue, previousValue, OwnKeys(propValue)))
    else
      var v := if !Truthy(propValue) && previousValue.Str? then Str("") else propValue;
      if name == "value" then s.(fields := ValueWritten(s.fields, v, previousValue))
      else OtherWritten(s, name, v, previousValue)
  }

  /** The loop over the new property names `names`, in order. */
  function KeysApplied(s: ElementState, current: Props, next: Props, names: seq<string>, invoke: Value -> Value)
    : ElementState
    decreases |names|
  {
    if |names| == 0 then s
    else
      var n := names[|names| - 1];
      KeyStep(KeysApplied(s, current, next, names[..|names| - 1], invoke), n, PropGet(next, n), PropGet(current, n), invoke)
  }

  /** One more name of the loop is one more `KeyStep`. */
  lemma KeysAppliedNext(s: ElementState, current: Props, next: Props, names: seq<string>, i: nat, invoke: Value -> Value)
    requires i < |names|
    ensures var n := names[i];
      KeysApplied(s, current, next, names[..i + 1], invoke)
        == KeyStep(KeysApplied(s, current, next, names[..i], invoke), n, PropGet(next, n), PropGet(current, n), invoke)
  {
    assert names[..i + 1][..i] == names[..i];
  }

  /** `removeOrphanedEvents` over the previous property names `names`. */
  function OrphansRemoved(listeners: set<(string, Value)>, current: Props, next: Props, names: seq<string>)
    : (r: set<(string, Value)>)
    ensures r <= listeners
    decreases |names|
  {
    if |names| == 0 then listeners
    else
      var front := OrphansRemoved(listeners, current, next, names[..|names| - 1]);
      var n := names[|names| - 1];
      if IsEventProperty(n) && !Truthy(PropGet(next, n)) then front - {(n[2..], PropGet(current, n))} else front
  }

  lemma {:induction false} OrphansRemovedExact(listeners: set<(string, Value)>, current: Props, next: Props,
                                               names: seq<string>, n: string)
    requires n in names && IsEventProperty(n) && !Truthy(PropGet(next, n))
    ensures (n[2..], PropGet(current, n)) !in OrphansRemoved(listeners, current, next, names)
    decreases |names|
  {
    if names[|names| - 1] != n {
      OrphansRemovedExact(listeners, current, next, names[..|names| - 1], n);
    }
  }

  /** The names the loop over `names` gets through: up to the first that throws, or all of them. */
  function Reached(next: Props, names: seq<string>): (r: seq<string>)
    ensures |r| <= |names| && r == names[..|r|]
    ensures forall k :: 0 <= k < |r| ==> !StylesThrow(r[k], PropGet(next, r[k]))
    ensures |r| < |names| ==> StylesThrow(names[|r|], PropGet(next, names[|r|]))
    decreases |names|
  {
    if |names| == 0 then []
    else if StylesThrow(names[0], PropGet(next, names[0])) then []
    else
      var rest := Reached(next, names[1..]);
      assert [names[0]] + rest == names[..|rest| + 1] by {
        assert names[1..][..|rest|] == names[1..|rest| + 1];
      }
      [names[0]] + rest
  }

  /** The loop stops exactly at the first name that throws. */
  lemma ReachedAt(next: Props, names: seq<string>, i: nat)
    requires i <= |names|
    requires forall k :: 0 <= k < i ==> !StylesThrow(names[k], PropGet(next, names[k]))
    requires i < |names| ==> StylesThrow(names[i], PropGet(next, names[i]))
    ensures Reached(next, names) == names[..i]
  {
  }

  /** `setProperties` throws: some new property name is `styles` with a null or undefined value. */
  predicate SetPropertiesThrows(next: Props)
  {
    |Reached(next, next.keys)| < |next.keys|
  }

  lemma ThrowsIffNullishStyles(next: Props)
    ensures SetPropertiesThrows(next) <==> "styles" in next.keys && StylesThrow("styles", PropGet(next, "styles"))
  {
    var r := Reached(next, next.keys);
    if "styles" in next.keys && StylesThrow("styles", PropGet(next, "styles")) {
      var k :| 0 <= k < |next.keys| && next.keys[k] == "styles";
    }
  }

  /**
   * `setProperties(domNode, current, next)`: the element after the call, or, when a `styles`
   * value is null or undefined, at the point where the call throws.
   */
  function SetPropertiesSpec(s: ElementState, current: Props, next: Props, invoke: Value -> Value): ElementState
  {
    var previousClasses := PropGet(current, "classes");
    var classList := if "classes" !in next.keys && Truthy(previousClasses)
      then RemoveAll(s.classList, ClassList(previousClasses)) else s.classList;
    var s1 := s.(classList := classList, listeners := OrphansRemoved(s.listeners, current, next, current.keys));
    KeysApplied(s1, current, next, Reached(next, next.keys), invoke)
  }

  /** Over names listed once each, the class list changes only in the round for `classes`. */
  lemma {:induction false} KeysAppliedClasses(s: ElementState, current: Props, next: Props, names: seq<string>,
                                              invoke: Value -> Value)
    requires forall i, j :: 0 <= i < j < |names| ==> names[i] != names[j]
    ensures var r := KeysApplied(s, current, next, names, invoke);
      r.classList == if "classes" in names
        then ReconcileAsWritten(s.classList, PropGet(current, "classes"), PropGet(next, "classes"))
        else s.classList
    decreases |names|
  {
    if |names| > 0 {
      var front := names[..|names| - 1];
      KeysAppliedClasses(s, current, next, front, invoke);
      assert "classes" in names <==> "classes" in front || names[|names| - 1] == "classes";
    }
  }

  /**
   * After `setProperties` the class list is what the `classes` round makes of it, when the
   * loop gets that far; it is unchanged when the loop throws first; when the new properties
   * have no `classes` key all previous tokens are removed.
   */
  lemma ClassesAfterSetProperties(s: ElementState, current: Props, next: Props, invoke: Value -> Value)
    requires WellFormed(next)
    ensures var r := SetPropertiesSpec(s, current, next, invoke);
      var done := Reached(next, next.keys);
      && ("classes" in done ==>
            r.classList == ReconcileAsWritten(s.classList, PropGet(current, "classes"), PropGet(next, "classes")))
      && ("classes" in next.keys && "classes" !in done ==> r.classList == s.classList)
      && ("classes" !in next.keys ==> r.classList == s.classList - TokensOf(ClassList(PropGet(current, "classes"))))
  {
    var previousClasses := PropGet(current, "classes");
    var classList := if "classes" !in next.keys && Truthy(previousClasses)
      then RemoveAll(s.classList, ClassList(previousClasses)) else s.classList;
    var s1 := s.(classList := classList, listeners := OrphansRemoved(s.listeners, current, next, current.keys));
    var done := Reached(next, next.keys);
    assert forall i, j :: 0 <= i < j < |done| ==> done[i] != done[j] by {
      forall i, j | 0 <= i < j < |done|
        ensures done[i] != done[j]
      {
        assert done[i] == next.keys[i] && done[j] == next.keys[j];
      }
    }
    KeysAppliedClasses(s1, current, next, done, invoke);
    if "classes" !in next.keys {
      assert "classes" !in done;
      if Truthy(previousClasses) {
        RemoveAllIsDifference(s.classList, ClassList(previousClasses));
      } else {
        var cl := ClassList(previousClasses);
        assert cl == [ClassNameOf(previousClasses)] && cl[..0] == [];
        assert TokensOf(cl) == TokensOf([]) + Tokens(ClassNameOf(previousClasses));
      }
    }
  }

  /**
   * When `setProperties` does not throw, the element carries the previous entries' tokens and
   * those entries share no token, the class list afterwards has every token of the new
   * `classes`, has lost the previous tokens the new ones lack, and is otherwise unchanged.
   */
  lemma ClassesAfterSetPropertiesExact(s: ElementState, current: Props, next: Props, invoke: Value -> Value)
    requires WellFormed(next) && "classes" in next.keys && !SetPropertiesThrows(next)
    requires TokensOf(ClassList(PropGet(current, "classes"))) <= s.classList
    requires TokensDisjoint(ClassList(PropGet(current, "classes")))
    ensures var P := TokensOf(ClassList(PropGet(current, "classes")));
      var N := TokensOf(ClassList(PropGet(next, "classes")));
      SetPropertiesSpec(s, current, next, invoke).classList == (s.classList - (P - N)) + N
  {
    var previousValue := PropGet(current, "classes");
    var propValue := PropGet(next, "classes");
    ClassesAfterSetProperties(s, current, next, invoke);
    assert Reached(next, next.keys) == next.keys;
    AsWrittenIsReconcile(s.classList, previousValue, propValue);
    ReconcileExact(s.classList, previousValue, propValue);
  }

  lemma {:induction false} KeysAppliedListeners(s: ElementState, current: Props, next: Props, names: seq<string>,
                                                invoke: Value -> Value)
    ensures forall l :: l in KeysApplied(s, current, next, names, invoke).listeners && l !in s.listeners ==>
      (exists n :: n in names && IsEventProperty(n) && PropGet(next, n).Func? && l == (n[2..], PropGet(next, n)))
    decreases |names|
  {
    if |names| > 0 {
      var front := names[..|names| - 1];
      KeysAppliedListeners(s, current, next, front, invoke);
      var n := names[|names| - 1];
      forall l | l in KeysApplied(s, current, next, names, invoke).listeners && l !in s.listeners
        ensures exists m :: m in names && IsEventProperty(m) && PropGet(next, m).Func? && l == (m[2..], PropGet(next, m))
      {
        if l in KeysApplied(s, current, next, front, invoke).listeners {
          var m :| m in front && IsEventProperty(m) && PropGet(next, m).Func? && l == (m[2..], PropGet(next, m));
          assert m in names;
        } else {
          assert IsEventProperty(n) && PropGet(next, n).Func? && l == (n[2..], PropGet(next, n));
        }
      }
    }
  }

  /**
   * After `setProperties` every listener of a previous `on...` handler whose new value is
   * falsy is gone, and every listener added serves a function under an `on...` name of the
   * new properties.
   */
  lemma ListenersAfterSetProperties(s: ElementState, current: Props, next: Props, invoke: Value -> Value)
    ensures var r := SetPropertiesSpec(s, current, next, invoke);
      && (forall n :: n in current.keys && IsEventProperty(n) && !Truthy(PropGet(next, n)) ==>
            (n[2..], PropGet(current, n)) !in r.listeners)
      && (forall l :: l in r.listeners && l !in s.listeners ==>
            (exists n :: n in next.keys && IsEventProperty(n) && PropGet(next, n).Func? && l == (n[2..], PropGet(next, n))))
  {
    var r := SetPropertiesSpec(s, current, next, invoke);
    var previousClasses := PropGet(current, "classes");
    var classList := if "classes" !in next.keys && Truthy(previousClasses)
      then RemoveAll(s.classList, ClassList(previousClasses)) else s.classList;
    var s1 := s.(classList := classList, listeners := OrphansRemoved(s.listeners, current, next, current.keys));
    var done := Reached(next, next.keys);
    KeysAppliedListeners(s1, current, next, done, invoke);
    assert forall n :: n in done ==> n in next.keys;
    forall n | n in current.keys && IsEventProperty(n) && !Truthy(PropGet(next, n))
      ensures (n[2..], PropGet(current, n)) !in r.listeners
    {
      OrphansRemovedExact(s.listeners, current, next, current.keys, n);
      if (n[2..], PropGet(current, n)) in r.listeners {
        var m :| m in next.keys && IsEventProperty(m) && PropGet(next, m).Func?
          && (n[2..], PropGet(current, n)) == (m[2..], PropGet(next, m));
        EventNameDetermines(n, m);
        assert false;
      }
    }
  }

  /** The node operations that run during the loop over `names`, in order. */
  function Fired(current: Props, next: Props, names: seq<string>, invoke: Value -> Value): (r: seq<string>)
    decreases |names|
  {
    if |names| == 0 then []
    else
      var n := names[|names| - 1];
      Fired(current, next, names[..|names| - 1], invoke)
        + (if n in NodeOperations && OperationFires(PropGet(next, n), PropGet(current, n), invoke) then [n] else [])
  }

  lemma {:induction false} FiredExact(current: Props, next: Props, names: seq<string>, invoke: Value -> Value, x: string)
    ensures x in Fired(current, next, names, invoke) <==>
      x in names && x in NodeOperations && OperationFires(PropGet(next, x), PropGet(current, x), invoke)
    decreases |names|
  {
    if |names| > 0 {
      FiredExact(current, next, names[..|names| - 1], invoke, x);
      assert names == names[..|names| - 1] + [names[|names| - 1]];
    }
  }

  lemma {:induction false} KeysAppliedCalls(s: ElementState, current: Props, next: Props, names: seq<string>,
                                            invoke: Value -> Value)
    ensures KeysApplied(s, current, next, names, invoke).calls == s.calls + Fired(current, next, names, invoke)
    decreases |names|
  {
    if |names| > 0 {
      KeysAppliedCalls(s, current, next, names[..|names| - 1], invoke);
    }
  }

  /**
   * `setProperties` performs exactly the node operations named among the new properties the
   * loop reaches (all of them when it does not throw) whose rule fires, in the order of the
   * names, and nothing else is logged.
   */
  lemma CallsAfterSetProperties(s: ElementState, current: Props, next: Props, invoke: Value -> Value)
    ensures var r := SetPropertiesSpec(s, current, next, invoke);
      var done := Reached(next, next.keys);
      && |r.calls| >= |s.calls| && r.calls[..|s.calls|] == s.calls
      && (forall x :: x in r.calls[|s.calls|..] <==>
            x in done && x in NodeOperations && OperationFires(PropGet(next, x), PropGet(current, x), invoke))
  {
    var previousClasses := PropGet(current, "classes");
    var classList := if "classes" !in next.keys && Truthy(previousClasses)
      then RemoveAll(s.classList, ClassList(previousClasses)) else s.classList;
    var s1 := s.(classList := classList, listeners := OrphansRemoved(s.listeners, current, next, current.keys));
    var done := Reached(next, next.keys);
    KeysAppliedCalls(s1, current, next, done, invoke);
    var r := SetPropertiesSpec(s, current, next, invoke);
    assert r.calls[|s.calls|..] == Fired(current, next, done, invoke);
    forall x
      ensures x in r.calls[|s.calls|..] <==>
        x in done && x in NodeOperations && OperationFires(PropGet(next, x), PropGet(current, x), invoke)
    {
      FiredExact(current, next, done, invoke, x);
    }
  }

  // ---------------------------------------------------------------- the element as an object

  class DomElement {
    var classList: set<string>
    var style: map<string, Value>
    var attributes: map<string, string>
    var fields: map<string, Value>
    var calls: seq<string>
    var listeners: set<(string, Value)>

    function State(): ElementState
      reads this
    {
      ElementState(classList, style, attributes, fields, calls, listeners)
    }

    constructor ()
      ensures State() == ElementState({}, map[], map[], map[], [], {})
    {
      classList := {};
      style := map[];
      attributes := map[];
      fields := map[];
      calls := [];
      listeners := {};
    }

    /** `addClasses(domNode, classes)` */
    method AddClasses(classes: ClassName)
      modifies this`classList
      ensures classList == AddTokens(old(classList), classes)
    {
      if Present(classes) {
        var classNames := Split(classes.value, ' ');
        var i := 0;
        while i < |classNames|
          invariant 0 <= i <= |classNames|
          invariant classList == old(classList) + Elements(classNames[..i])
        {
          assert classNames[..i + 1] == classNames[..i] + [classNames[i]];
          classList := classList + {classNames[i]};
          i := i + 1;
        }
        assert classNames[..i] == classNames;
      }
    }

    /** `removeClasses(domNode, classes)` */
    method RemoveClasses(classes: ClassName)
      modifies this`classList
      ensures classList == RemoveTokens(old(classList), classes)
    {
      if Present(classes) {
        var classNames := Split(classes.value, ' ');
        var i := 0;
        while i < |classNames|
          invariant 0 <= i <= |classNames|
          invariant classList == old(classList) - Elements(classNames[..i])
        {
          assert classNames[..i + 1] == classNames[..i] + [classNames[i]];
          classList := classList - {classNames[i]};
          i := i + 1;
        }
        assert classNames[..i] == classNames;
      }
    }

    method AddEach(entries: seq<ClassName>)
      modifies this`classList
      ensures classList == AddAll(old(classList), entries)
    {
      var i := 0;
      while i < |entries|
        invariant 0 <= i <= |entries|
        invariant classList == AddAll(old(classList), entries[..i])
      {
        assert entries[..i + 1][..i] == entries[..i];
        AddClasses(entries[i]);
        i := i + 1;
      }
      assert entries[..i] == entries;
    }

    method RemoveEach(entries: seq<ClassName>)
      modifies this`classList
      ensures classList == RemoveAll(old(classList), entries)
    {
      var i := 0;
      while i < |entries|
        invariant 0 <= i <= |entries|
        invariant classList == RemoveAll(old(classList), entries[..i])
      {
        assert entries[..i + 1][..i] == entries[..i];
        RemoveClasses(entries[i]);
        i := i + 1;
      }
      assert entries[..i] == entries;
    }

    /** The `classes` branch of the loop in `setProperties`: the new entries left unmatched are added at the end. */
    method ReconcileClasses(previousValue: Value, propValue: Value)
      modifies this`classList
      ensures classList == ReconcileAsWritten(old(classList), previousValue, propValue)
    {
      var previousClasses := ClassList(previousValue);
      var currentClasses := ClassList(propValue);
      if |previousClasses| > 0 {
        if !Truthy(propValue) || StrictEq(Get(propValue, "length"), Num(0)) {
          RemoveEach(previousClasses);
        } else {
          var newClasses := MatchEach(previousClasses, currentClasses);
          AddEach(newClasses);
        }
      } else {
        AddEach(currentClasses);
      }
    }

    /**
     * The matching loop of the `classes` branch: each previous entry found among the new
     * entries is spliced out of them, and each one not found is removed from the element.
     */
    method MatchEach(previousClasses: seq<ClassName>, currentClasses: seq<ClassName>) returns (newClasses: seq<ClassName>)
      modifies this`classList
      ensures (classList, newClasses) == MatchPrevious(old(classList), previousClasses, currentClasses)
    {
      newClasses := currentClasses;
      var i := 0;
      while i < |previousClasses|
        invariant 0 <= i <= |previousClasses|
        invariant (classList, newClasses) == MatchPrevious(old(classList), previousClasses[..i], currentClasses)
      {
        assert previousClasses[..i + 1][..i] == previousClasses[..i];
        var previousClassName := previousClasses[i];
        if Present(previousClassName) {
          var classIndex := IndexOf(newClasses, previousClassName);
          if classIndex == -1 {
            RemoveClasses(previousClassName);
          } else {
            newClasses := newClasses[..classIndex] + newClasses[classIndex + 1..];
          }
        }
        i := i + 1;
      }
      assert previousClasses[..i] == previousClasses;
    }

    /** `nodeOperation(propName, propValue, previousValue, domNode)` */
    method NodeOperation(propName: string, propValue: Value, previousValue: Value, invoke: Value -> Value)
      modifies this`calls
      ensures calls == old(calls) + (if OperationFires(propValue, previousValue, invoke) then [propName] else [])
    {
      var result;
      if propValue.Func? {
        result := invoke(propValue);
      } else if !Truthy(propValue) {
        result := propValue;
      } else {
        result := Bool(!Truthy(previousValue));
      }
      if result == Bool(true) {
        calls := calls + [propName];
      }
    }

    /**
     * The `styles` branch: one write per style name whose value changed; `Object.keys` throws
     * a TypeError for a null or undefined value and nothing is written.
     */
    method SetStyles(propValue: Value, previousValue: Value) returns (error: Option<string>)
      modifies this`style
      ensures error.Some? <==> StylesThrow("styles", propValue)
      ensures error.Some? ==> error == Some("TypeError") && style == old(style)
      ensures error.None? ==> style == StylesWritten(old(style), propValue, previousValue, OwnKeys(propValue))
    {
      if propValue.Null? || propValue.Undefined? {
        return Some("TypeError");
      }
      WriteStyles(OwnKeys(propValue), propValue, previousValue);
      error := None;
    }

    /** The loop over `Object.keys(propValue)` in the `styles` branch. */
    method WriteStyles(styleNames: seq<string>, propValue: Value, previousValue: Value)
      modifies this`style
      ensures style == StylesWritten(old(style), propValue, previousValue, styleNames)
    {
      var j := 0;
      while j < |styleNames|
        invariant 0 <= j <= |styleNames|
        invariant style == StylesWritten(old(style), propValue, previousValue, styleNames[..j])
      {
        assert styleNames[..j + 1][..j] == styleNames[..j];
        var styleName := styleNames[j];
        var newStyleValue := Get(propValue, styleName);
        var oldStyleValue := OldStyle(previousValue, styleName);
        if !StrictEq(newStyleValue, oldStyleValue) {
          style := style[styleName := if Truthy(newStyleValue) then newStyleValue else Str("")];
        }
        j := j + 1;
      }
      assert styleNames[..j] == styleNames;
    }

    /** `removeOrphanedEvents(domNode, currentProperties, nextProperties)` */
    method RemoveOrphanedEvents(current: Props, next: Props)
      modifies this`listeners
      ensures listeners == OrphansRemoved(old(listeners), current, next, current.keys)
    {
      var propNames := current.keys;
      var i := 0;
      while i < |propNames|
        invariant 0 <= i <= |propNames|
        invariant listeners == OrphansRemoved(old(listeners), current, next, propNames[..i])
      {
        assert propNames[..i + 1][..i] == propNames[..i];
        var propName := propNames[i];
        if IsEventProperty(propName) && !Truthy(PropGet(next, propName)) {
          listeners := listeners - {(propName[2..], PropGet(current, propName))};
        }
        i := i + 1;
      }
      assert propNames[..i] == propNames;
    }

    /** The `value` branch. */
    method SetValue(propValue: Value, previousValue: Value)
      modifies this`fields
      ensures fields == ValueWritten(old(fields), propValue, previousValue)
    {
      var domValue := Field(fields, "value");
      var typed := Field(fields, "oninput-value");
      if !StrictEq(domValue, propValue)
         && (if Truthy(typed) then StrictEq(domValue, typed) else !StrictEq(propValue, previousValue))
      {
        fields := fields["value" := propValue];
        fields := fields["oninput-value" := Undefined];
      }
    }

    /** The last branch: listeners, attributes, scroll offsets and other fields. */
    method SetOther(propName: string, propValue: Value, previousValue: Value)
      modifies this`listeners, this`attributes, this`fields
      ensures State() == OtherWritten(old(State()), propName, propValue, previousValue)
    {
      if propName != "key" && !StrictEq(propValue, previousValue) {
        if propValue.Func? && IsEventProperty(propName) {
          if Truthy(previousValue) {
            listeners := listeners - {(propName[2..], previousValue)};
          }
          listeners := listeners + {(propName[2..], propValue)};
        } else if propValue.Str? && propName != "innerHTML" {
          if propName == "role" && propValue.s == "" {
            attributes := attributes - {propName};
          } else {
            attributes := attributes[propName := propValue.s];
          }
        } else if propName == "scrollLeft" || propName == "scrollTop" {
          if !StrictEq(Field(fields, propName), propValue) {
            fields := fields[propName := propValue];
          }
        } else {
          fields := fields[propName := propValue];
        }
      }
    }

    /**
     * `setProperties(domNode, currentProperties, nextProperties)`; a TypeError stops it where a
     * `styles` value is null or undefined.
     */
    method SetProperties(current: Props, next: Props, invoke: Value -> Value) returns (error: Option<string>)
      modifies this
      ensures State() == SetPropertiesSpec(old(State()), current, next, invoke)
      ensures error.Some? <==> SetPropertiesThrows(next)
      ensures error.Some? ==> error == Some("TypeError")
    {
      var propNames := next.keys;
      var previousClasses := PropGet(current, "classes");
      if "classes" !in propNames && Truthy(previousClasses) {
        RemoveEach(ClassList(previousClasses));
      }
      RemoveOrphanedEvents(current, next);
      error := ApplyKeys(current, next, propNames, invoke);
    }

    /** The loop over the new property names in `setProperties`, up to the name that throws. */
    method ApplyKeys(current: Props, next: Props, propNames: seq<string>, invoke: Value -> Value) returns (error: Option<string>)
      modifies this
      ensures State() == KeysApplied(old(State()), current, next, Reached(next, propNames), invoke)
      ensures error.Some? <==> |Reached(next, propNames)| < |propNames|
      ensures error.Some? ==> error == Some("TypeError")
    {
      var i := 0;
      while i < |propNames|
        invariant 0 <= i <= |propNames|
        invariant forall k :: 0 <= k < i ==> !StylesThrow(propNames[k], PropGet(next, propNames[k]))
        invariant State() == KeysApplied(old(State()), current, next, propNames[..i], invoke)
      {
        var name := propNames[i];
        error := ApplyKey(name, PropGet(next, name), PropGet(current, name), invoke);
        if error.Some? {
          ReachedAt(next, propNames, i);
          return;
        }
        KeysAppliedNext(old(State()), current, next, propNames, i, invoke);
        i := i + 1;
      }
      assert propNames[..i] == propNames;
      ReachedAt(next, propNames, i);
      error := None;
    }

    /** One pass of the loop over the new property names in `setProperties`. */
    method ApplyKey(propName: string, propValue: Value, previousValue: Value, invoke: Value -> Value) returns (error: Option<string>)
      modifies this
      ensures error.Some? <==> StylesThrow(propName, propValue)
      ensures error.Some? ==> error == Some("TypeError") && State() == old(State())
      ensures error.None? ==> State() == KeyStep(old(State()), propName, propValue, previousValue, invoke)
    {
      if propName == "classes" {
        SetClasses(previousValue, propValue, invoke);
        error := None;
      } else {
        error := ApplyOtherKey(propName, propValue, previousValue, invoke);
      }
    }

    /** A pass for a name other than `classes`. */
    method ApplyOtherKey(propName: string, propValue: Value, previousValue: Value, invoke: Value -> Value) returns (error: Option<string>)
      requires propName != "classes"
      modifies this
      ensures error.Some? <==> StylesThrow(propName, propValue)
      ensures error.Some? ==> error == Some("TypeError") && State() == old(State())
      ensures error.None? ==> State() == OtherKeyStep(old(State()), propName, propValue, previousValue, invoke)
    {
      ghost var s := State();
      error := None;
      if propName in NodeOperations {
        NodeOperation(propName, propValue, previousValue, invoke);
        assert State() == s.(calls := calls);
      } else if propName == "styles" {
        error := SetStyles(propValue, previousValue);
        if error.Some? {
          return;
        }
        assert State() == s.(style := style);
      } else {
        SetField(propName, propValue, previousValue);
      }
    }

    /** The `classes` round of the loop. */
    method SetClasses(previousValue: Value, propValue: Value, ghost invoke: Value -> Value)
      modifies this`classList
      ensures State() == KeyStep(old(State()), "classes", propValue, previousValue, invoke)
    {
      ghost var s := State();
      ReconcileClasses(previousValue, propValue);
      assert State() == s.(classList := classList);
    }

    /**
     * The branch for the remaining names: a falsy value replacing a string becomes "", then
     * the `value` guard or the last branch applies.
     */
    method SetField(propName: string, propValue: Value, previousValue: Value)
      requires propName != "classes" && propName !in NodeOperations && propName != "styles"
      modifies this`listeners, this`attributes, this`fields
      ensures var v := if !Truthy(propValue) && previousValue.Str? then Str("") else propValue;
        State() == if propName == "value" then old(State()).(fields := ValueWritten(old(fields), v, previousValue))
                   else OtherWritten(old(State()), propName, v, previousValue)
    {
      var v := if !Truthy(propValue) && previousValue.Str? then Str("") else propValue;
      if propName == "value" {
        SetValue(v, previousValue);
      } else {
        SetOther(propName, v, previousValue);
      }
    }
  }
}
