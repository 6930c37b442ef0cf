/**
 * The class-name computation of the themeable mixin in `src/mixins/Themeable.ts`: splitting
 * class strings into flags, the reverse lookup from base-theme class values to their keys,
 * the precedence of theme, base theme and extra classes, and the `classes()` chain.
 *
 * A class-names object (`{ [key]: string }`) is the list of assignments that built it: a
 * later entry for the same key wins, so `Object.assign(a, b)` is `a + b`.
 */
module Themes {
  import opened JsValues

  type ClassNames = seq<(string, string)>
  /** `ClassNameFlags`: class name to applied or not. */
  type Flags = map<string, bool>
  /** A theme: theme key to the class names it overrides. */
  type Theme = map<string, ClassNames>

  /** A base theme registered with the `theme` decorator; `ref` is its object identity. */
  datatype BaseTheme = BaseTheme(ref: nat, classes: ClassNames)

  const ThemeKey: string := " _key"

  /** `c[k]`: the last assignment to `k`, or undefined. */
  function ClassOf(c: ClassNames, k: string): Option<string>
    decreases |c|
  {
    if |c| == 0 then None
    else if c[|c| - 1].0 == k then Some(c[|c| - 1].1)
    else ClassOf(c[..|c| - 1], k)
  }

  /** `c[k]` is the value of the last entry for `k`, and undefined when no entry has `k`. */
  lemma {:induction false} ClassOfLast(c: ClassNames, k: string)
    ensures ClassOf(c, k).None? <==> forall i :: 0 <= i < |c| ==> c[i].0 != k
    ensures ClassOf(c, k).Some? ==> exists i :: (0 <= i < |c| && c[i] == (k, ClassOf(c, k).value)
      && forall j :: i < j < |c| ==> c[j].0 != k)
    decreases |c|
  {
    if |c| > 0 {
      var n := |c|;
      var front := c[..n - 1];
      ClassOfLast(front, k);
      if c[n - 1].0 == k {
        assert c[n - 1] == (k, ClassOf(c, k).value);
      } else if ClassOf(c, k).Some? {
        var i :| 0 <= i < |front| && front[i] == (k, ClassOf(c, k).value) && forall j :: i < j < |front| ==> front[j].0 != k;
        assert c[i] == front[i];
        forall j | i < j < n
          ensures c[j].0 != k
        {
          if j < n - 1 {
            assert c[j] == front[j];
          }
        }
      } else {
        forall i | 0 <= i < n
          ensures c[i].0 != k
        {
          if i < n - 1 {
            assert c[i] == front[i];
          }
        }
      }
    }
  }

  /** A class string read from an object is truthy: present and not empty. */
  predicate Present(o: Option<string>)
  {
    o.Some? && o.value != ""
  }

  /** After `Object.assign(a, b)`, a key reads from `b` when `b` has it and from `a` otherwise. */
  lemma {:induction false} ClassOfAppend(a: ClassNames, b: ClassNames, k: string)
    ensures ClassOf(a + b, k) == if ClassOf(b, k).Some? then ClassOf(b, k) else ClassOf(a, k)
    decreases |b|
  {
    if |b| == 0 {
      assert a + b == a;
    } else {
      assert (a + b)[..|a + b| - 1] == a + b[..|b| - 1];
      ClassOfAppend(a, b[..|b| - 1], k);
    }
  }

  // ---------------------------------------------------------------- createClassNameObject

  /** Every piece in `pieces` set to `applied`, on top of `m`. */
  function Flagged(m: Flags, pieces: seq<string>, applied: bool): (r: Flags)
    ensures r.Keys == m.Keys + set p | p in pieces
    ensures forall k :: k in r ==> r[k] == if k in pieces then applied else m[k]
  {
    m + map p | p in pieces :: applied
  }

  /**
   * `createClassNameObject(classNames, applied)`: each space-separated piece of each non-empty
   * name maps to `applied`; null and empty names add nothing.
   */
  function CreateClassNameObject(classNames: seq<Option<string>>, applied: bool): (r: Flags)
    ensures forall k :: k in r ==> r[k] == applied
    decreases |classNames|
  {
    if |classNames| == 0 then map[]
    else
      var front := CreateClassNameObject(classNames[..|classNames| - 1], applied);
      var last := classNames[|classNames| - 1];
      if Present(last) then Flagged(front, Split(last.value, ' '), applied) else front
  }

  function Elements(s: seq<string>): (r: set<string>)
    ensures forall p :: p in r <==> p in s
  {
    set p | p in s
  }

  /** The pieces of the non-empty names, split at spaces. */
  ghost function Pieces(classNames: seq<Option<string>>): set<string>
  {
    set i, p | 0 <= i < |classNames| && Present(classNames[i]) && p in Split(classNames[i].value, ' ') :: p
  }

  lemma {:induction false} ClassNameObjectKeys(classNames: seq<Option<string>>, applied: bool)
    ensures CreateClassNameObject(classNames, applied).Keys == Pieces(classNames)
    decreases |classNames|
  {
    if |classNames| > 0 {
      var n := |classNames|;
      var front := classNames[..n - 1];
      ClassNameObjectKeys(front, applied);
      assert forall i :: 0 <= i < n - 1 ==> front[i] == classNames[i];
      var added := if Present(classNames[n - 1]) then Elements(Split(classNames[n - 1].value, ' ')) else {};
      forall p | p in Pieces(classNames)
        ensures p in Pieces(front) + added
      {
        var i :| 0 <= i < n && Present(classNames[i]) && p in Split(classNames[i].value, ' ');
        if i < n - 1 {
          assert Present(front[i]) && p in Split(front[i].value, ' ');
        }
      }
      forall p | p in Pieces(front) + added
        ensures p in Pieces(classNames)
      {
        if p in Pieces(front) {
          var i :| 0 <= i < n - 1 && Present(front[i]) && p in Split(front[i].value, ' ');
          assert Present(classNames[i]) && p in Split(classNames[i].value, ' ');
        } else {
          assert Present(classNames[n - 1]) && p in Split(classNames[n - 1].value, ' ');
        }
      }
    }
  }

  /** No piece of a split holds the separator. */
  lemma {:induction false} SplitPiecesLackSeparator(s: string, sep: char)
    ensures forall i :: 0 <= i < |Split(s, sep)| ==> sep !in Split(s, sep)[i]
    decreases |s|
  {
    if |s| > 0 {
      SplitPiecesLackSeparator(s[1..], sep);
    }
  }

  // ---------------------------------------------------------------- createThemeClassesLookup

  /** The key of the last entry of `c` whose value is `v`. */
  function KeyFor(c: ClassNames, v: string): Option<string>
    decreases |c|
  {
    if |c| == 0 then None
    else if c[|c| - 1].1 == v then Some(c[|c| - 1].0)
    else KeyFor(c[..|c| - 1], v)
  }

  /** `KeyFor` finds an entry of `c` holding `v` whenever there is one. */
  lemma {:induction false} KeyForFinds(c: ClassNames, v: string)
    ensures KeyFor(c, v).None? <==> forall i :: 0 <= i < |c| ==> c[i].1 != v
    ensures KeyFor(c, v).Some? ==> (KeyFor(c, v).value, v) in c
    decreases |c|
  {
    if |c| > 0 {
      var front := c[..|c| - 1];
      KeyForFinds(front, v);
      assert forall i :: 0 <= i < |c| - 1 ==> front[i] == c[i];
    }
  }

  /** One base theme's entries written into the lookup, value to key, in key order. */
  function Overlay(m: map<string, string>, c: ClassNames): (r: map<string, string>)
    decreases |c|
  {
    if |c| == 0 then m
    else Overlay(m, c[..|c| - 1])[c[|c| - 1].1 := c[|c| - 1].0]
  }

  lemma {:induction false} OverlayAt(m: map<string, string>, c: ClassNames, v: string)
    ensures v in Overlay(m, c) <==> v in m || KeyFor(c, v).Some?
    ensures v in Overlay(m, c) ==> Overlay(m, c)[v] == if KeyFor(c, v).Some? then KeyFor(c, v).value else m[v]
    decreases |c|
  {
    if |c| > 0 {
      OverlayAt(m, c[..|c| - 1], v);
    }
  }

  /** `createThemeClassesLookup(classes)`: class value to class key over all base themes. */
  function CreateThemeClassesLookup(classes: seq<ClassNames>): (r: map<string, string>)
    decreases |classes|
  {
    if |classes| == 0 then map[]
    else Overlay(CreateThemeClassesLookup(classes[..|classes| - 1]), classes[|classes| - 1])
  }

  /** A value is in the reverse lookup iff some base theme holds it. */
  lemma {:induction false} ThemeClassesLookupHas(classes: seq<ClassNames>, v: string)
    ensures v in CreateThemeClassesLookup(classes) <==> exists i :: 0 <= i < |classes| && KeyFor(classes[i], v).Some?
    decreases |classes|
  {
    if |classes| > 0 {
      var n := |classes|;
      var front := classes[..n - 1];
      ThemeClassesLookupHas(front, v);
      OverlayAt(CreateThemeClassesLookup(front), classes[n - 1], v);
      if exists i :: 0 <= i < n && KeyFor(classes[i], v).Some? {
        var i :| 0 <= i < n && KeyFor(classes[i], v).Some?;
        if i < n - 1 {
          assert front[i] == classes[i];
        }
      }
      if exists i :: 0 <= i < n - 1 && KeyFor(front[i], v).Some? {
        var i :| 0 <= i < n - 1 && KeyFor(front[i], v).Some?;
        assert front[i] == classes[i];
      }
    }
  }

  /** A value in the reverse lookup maps to its key in the last base theme holding it. */
  lemma ThemeClassesLookupLast(classes: seq<ClassNames>, v: string)
    requires v in CreateThemeClassesLookup(classes)
    ensures exists i :: (0 <= i < |classes| && KeyFor(classes[i], v) == Some(CreateThemeClassesLookup(classes)[v])
      && forall j :: i < j < |classes| ==> KeyFor(classes[j], v).None?)
  {
    var i := LastHolder(classes, v);
  }

  /** The position of the last base theme holding the class value `v`. */
  lemma {:induction false} LastHolder(classes: seq<ClassNames>, v: string) returns (i: nat)
    requires v in CreateThemeClassesLookup(classes)
    ensures i < |classes| && KeyFor(classes[i], v) == Some(CreateThemeClassesLookup(classes)[v])
    ensures forall j :: i < j < |classes| ==> KeyFor(classes[j], v).None?
    decreases |classes|
  {
    var n := |classes|;
    var front := classes[..n - 1];
    var r := CreateThemeClassesLookup(classes);
    OverlayAt(CreateThemeClassesLookup(front), classes[n - 1], v);
    if KeyFor(classes[n - 1], v).Some? {
      i := n - 1;
    } else {
      i := LastHolder(front, v);
      assert KeyFor(classes[i], v) == Some(r[v]);
      assert forall j :: i < j < n - 1 ==> front[j] == classes[j];
    }
  }

  /** A later base theme overrides earlier ones for the same class value. */
  lemma LaterBaseThemeWins(classes: seq<ClassNames>, later: ClassNames, v: string)
    requires KeyFor(later, v).Some?
    ensures v in CreateThemeClassesLookup(classes + [later])
    ensures CreateThemeClassesLookup(classes + [later])[v] == KeyFor(later, v).value
  {
    var all := classes + [later];
    assert all[..|all| - 1] == classes && all[|all| - 1] == later;
    OverlayAt(CreateThemeClassesLookup(classes), later, v);
  }

  // ---------------------------------------------------------------- the classes chain

  /** The two halves a `classes(...)` chain keeps: theme flags and fixed flags. */
  datatype Chain = Chain(themeClasses: Flags, fixedClasses: Flags)

  /** `.fixed(...classes)`: replaces the fixed flags; the names bypass theming. */
  function ChainFixed(chain: Chain, classNames: seq<Option<string>>): (r: Chain)
    ensures r.themeClasses == chain.themeClasses
    ensures forall k :: k in r.fixedClasses ==> r.fixedClasses[k]
  {
    chain.(fixedClasses := CreateClassNameObject(classNames, true))
  }

  /** `.get()`: theme flags and fixed flags together, a fixed flag winning over a theme flag. */
  function ChainGet(chain: Chain): (r: Flags)
    ensures r.Keys == chain.themeClasses.Keys + chain.fixedClasses.Keys
    ensures forall k :: k in chain.fixedClasses ==> r[k] == chain.fixedClasses[k]
    ensures forall k :: k in chain.themeClasses && k !in chain.fixedClasses ==> r[k] == chain.themeClasses[k]
  {
    chain.themeClasses + chain.fixedClasses
  }

  // ---------------------------------------------------------------- theme class resolution

  /** `_getBaseThemeClass`: the entry of the first base theme with a truthy one, else "". */
  function BaseThemeClass(themes: seq<BaseTheme>, className: string): (r: string)
    decreases |themes|
  {
    if |themes| == 0 then ""
    else if Present(ClassOf(themes[0].classes, className)) then ClassOf(themes[0].classes, className).value
    else BaseThemeClass(themes[1..], className)
  }

  lemma {:induction false} BaseThemeClassFirst(themes: seq<BaseTheme>, className: string)
    ensures BaseThemeClass(themes, className) == "" <==>
      forall i :: 0 <= i < |themes| ==> !Present(ClassOf(themes[i].classes, className))
    ensures BaseThemeClass(themes, className) != "" ==>
      exists i :: 0 <= i < |themes| && ClassOf(themes[i].classes, className) == Some(BaseThemeClass(themes, className))
        && forall j :: 0 <= j < i ==> !Present(ClassOf(themes[j].classes, className))
    decreases |themes|
  {
    if |themes| > 0 {
      BaseThemeClassFirst(themes[1..], className);
      if !Present(ClassOf(themes[0].classes, className)) && BaseThemeClass(themes, className) != "" {
        var i :| 0 <= i < |themes| - 1 && ClassOf(themes[1..][i].classes, className) == Some(BaseThemeClass(themes, className))
          && forall j :: 0 <= j < i ==> !Present(ClassOf(themes[1..][j].classes, className));
        assert forall j :: 1 <= j < i + 1 ==> themes[j] == themes[1..][j - 1];
        assert ClassOf(themes[i + 1].classes, className) == Some(BaseThemeClass(themes, className));
      }
    }
  }

  /** The class string registered for a class key: the theme's when truthy, else the base theme's. */
  function ThemeClassFor(theme: ClassNames, themes: seq<BaseTheme>, className: string): (r: string)
    ensures Present(ClassOf(theme, className)) ==> r == ClassOf(theme, className).value
    ensures !Present(ClassOf(theme, className)) ==> r == BaseThemeClass(themes, className)
  {
    if Present(ClassOf(theme, className)) then ClassOf(theme, className).value else BaseThemeClass(themes, className)
  }

  /** The `extraClasses` entry for a class key, split at spaces, or nothing when it is falsy. */
  function ExtraPieces(extraClasses: ClassNames, className: string): (r: seq<string>)
    ensures !Present(ClassOf(extraClasses, className)) ==> r == []
  {
    if Present(ClassOf(extraClasses, className)) then Split(ClassOf(extraClasses, className).value, ' ') else []
  }

  function Somes(s: seq<string>): (r: seq<Option<string>>)
    ensures |r| == |s| && forall i :: 0 <= i < |s| ==> r[i] == Some(s[i])
  {
    seq(|s|, i requires 0 <= i < |s| => Some(s[i]))
  }

  /** `_registerThemeClass(className)`: the flags stored for a class key. */
  function RegisteredFlags(theme: ClassNames, themes: seq<BaseTheme>, extraClasses: ClassNames, className: string): Flags
  {
    CreateClassNameObject(Somes(Split(ThemeClassFor(theme, themes, className), ' ') + ExtraPieces(extraClasses, className)), true)
  }

  /**
   * A registered class key applies exactly the non-empty pieces of its theme (or base theme)
   * class and of its extra classes.
   */
  lemma RegisteredFlagsExact(theme: ClassNames, themes: seq<BaseTheme>, extraClasses: ClassNames, className: string)
    ensures forall k :: k in RegisteredFlags(theme, themes, extraClasses, className) ==> RegisteredFlags(theme, themes, extraClasses, className)[k]
    ensures RegisteredFlags(theme, themes, extraClasses, className).Keys ==
      (set p | p in Split(ThemeClassFor(theme, themes, className), ' ') && p != "")
      + (set p | p in ExtraPieces(extraClasses, className) && p != "")
  {
    var a := Split(ThemeClassFor(theme, themes, className), ' ');
    var b := ExtraPieces(extraClasses, className);
    var names := Somes(a + b);
    ClassNameObjectKeys(names, true);
    SplitPiecesLackSeparator(ThemeClassFor(theme, themes, className), ' ');
    if Present(ClassOf(extraClasses, className)) {
      SplitPiecesLackSeparator(ClassOf(extraClasses, className).value, ' ');
    }
    forall i | 0 <= i < |a + b|
      ensures ' ' !in (a + b)[i]
    {
      if i >= |a| {
        assert (a + b)[i] == b[i - |a|];
      }
    }
    forall p | p in Pieces(names)
      ensures p != "" && p in a + b
    {
      var i :| 0 <= i < |names| && Present(names[i]) && p in Split(names[i].value, ' ');
      SplitNoSep((a + b)[i], ' ');
    }
    forall p | p in a + b && p != ""
      ensures p in Pieces(names)
    {
      var i :| 0 <= i < |a + b| && (a + b)[i] == p;
      SplitNoSep(p, ' ');
      assert Present(names[i]) && p in Split(names[i].value, ' ');
    }
  }

  /** The theme key a base theme declares under `" _key"` (undefined reads as "undefined"). */
  function ThemeKeyOf(b: BaseTheme): string
  {
    match ClassOf(b.classes, ThemeKey)
    case Some(k) => k
    case None => "undefined"
  }

  function ThemeKeys(themes: seq<BaseTheme>): (r: seq<string>)
    ensures |r| == |themes| && forall i :: 0 <= i < |themes| ==> r[i] == ThemeKeyOf(themes[i])
  {
    seq(|themes|, i requires 0 <= i < |themes| => ThemeKeyOf(themes[i]))
  }

  function ClassesOf(themes: seq<BaseTheme>): (r: seq<ClassNames>)
    ensures |r| == |themes| && forall i :: 0 <= i < |themes| ==> r[i] == themes[i].classes
  {
    seq(|themes|, i requires 0 <= i < |themes| => themes[i].classes)
  }

  /** The part of a theme under one theme key; a missing key assigns nothing. */
  function ThemePart(theme: Theme, themeKey: string): ClassNames
  {
    if themeKey in theme then theme[themeKey] else []
  }

  /** The loaded theme: the theme's parts for each base theme's key, assigned in order. */
  function ComposeTheme(themeKeys: seq<string>, theme: Theme): (r: ClassNames)
    decreases |themeKeys|
  {
    if |themeKeys| == 0 then []
    else ComposeTheme(themeKeys[..|themeKeys| - 1], theme) + ThemePart(theme, themeKeys[|themeKeys| - 1])
  }

  /** A class key of the loaded theme is defined iff the part of some theme key sets it. */
  lemma {:induction false} ComposeThemeHas(themeKeys: seq<string>, theme: Theme, k: string)
    ensures ClassOf(ComposeTheme(themeKeys, theme), k).Some? <==>
      exists i :: 0 <= i < |themeKeys| && ClassOf(ThemePart(theme, themeKeys[i]), k).Some?
    decreases |themeKeys|
  {
    var n := |themeKeys|;
    if n > 0 {
      var front := themeKeys[..n - 1];
      ComposeThemeHas(front, theme, k);
      ClassOfAppend(ComposeTheme(front, theme), ThemePart(theme, themeKeys[n - 1]), k);
      if ClassOf(ComposeTheme(front, theme), k).Some? {
        var i :| 0 <= i < n - 1 && ClassOf(ThemePart(theme, front[i]), k).Some?;
        assert themeKeys[i] == front[i];
      }
      if exists i :: 0 <= i < n && ClassOf(ThemePart(theme, themeKeys[i]), k).Some? {
        var i :| 0 <= i < n && ClassOf(ThemePart(theme, themeKeys[i]), k).Some?;
        if i < n - 1 {
          assert front[i] == themeKeys[i];
        }
      }
    }
  }

  /** A defined class key of the loaded theme reads from the last theme key's part that sets it. */
  lemma ComposeThemeLastWins(themeKeys: seq<string>, theme: Theme, k: string)
    requires ClassOf(ComposeTheme(themeKeys, theme), k).Some?
    ensures exists i :: (0 <= i < |themeKeys| && ClassOf(ThemePart(theme, themeKeys[i]), k) == ClassOf(ComposeTheme(themeKeys, theme), k)
      && forall j :: i < j < |themeKeys| ==> ClassOf(ThemePart(theme, themeKeys[j]), k).None?)
  {
    var i := LastSetter(themeKeys, theme, k);
  }

  /** The position of the last theme key whose part sets `k`. */
  lemma {:induction false} LastSetter(themeKeys: seq<string>, theme: Theme, k: string) returns (i: nat)
    requires ClassOf(ComposeTheme(themeKeys, theme), k).Some?
    ensures i < |themeKeys| && ClassOf(ThemePart(theme, themeKeys[i]), k) == ClassOf(ComposeTheme(themeKeys, theme), k)
    ensures forall j :: i < j < |themeKeys| ==> ClassOf(ThemePart(theme, themeKeys[j]), k).None?
    decreases |themeKeys|
  {
    var n := |themeKeys|;
    var front := themeKeys[..n - 1];
    var last := ThemePart(theme, themeKeys[n - 1]);
    assert ComposeTheme(themeKeys, theme) == ComposeTheme(front, theme) + last;
    ClassOfAppend(ComposeTheme(front, theme), last, k);
    if ClassOf(last, k).None? {
      i := LastSetter(front, theme, k);
      assert themeKeys[i] == front[i];
      forall j | i < j < n
        ensures ClassOf(ThemePart(theme, themeKeys[j]), k).None?
      {
        if j < n - 1 {
          assert themeKeys[j] == front[j];
        }
      }
    } else {
      i := n - 1;
    }
  }

  /** `theme` when given, else the injected theme, else an empty theme. */
  function EffectiveTheme(themeProperty: Option<Theme>, injectedTheme: Option<Theme>): (r: Theme)
    ensures themeProperty.Some? ==> r == themeProperty.value
    ensures themeProperty.None? && injectedTheme.Some? ==> r == injectedTheme.value
  {
    if themeProperty.Some? then themeProperty.value else if injectedTheme.Some? then injectedTheme.value else map[]
  }

  function Reversed(s: seq<BaseTheme>): (r: seq<BaseTheme>)
    ensures |r| == |s| && forall i :: 0 <= i < |s| ==> r[i] == s[|s| - 1 - i]
  {
    seq(|s|, i requires 0 <= i < |s| => s[|s| - 1 - i])
  }

  // ---------------------------------------------------------------- _getThemeClasses

  /** The class keys `_getThemeClasses` finds: non-empty names with a truthy reverse lookup. */
  function MappedNames(lookup: map<string, string>, classNames: seq<Option<string>>, n: nat): (r: seq<string>)
    requires n <= |classNames|
    ensures |r| <= n
    decreases n
  {
    if n == 0 then []
    else
      var front := MappedNames(lookup, classNames, n - 1);
      var last := classNames[n - 1];
      if Present(last) && last.value in lookup && lookup[last.value] != "" then front + [lookup[last.value]] else front
  }

  /** Null names, empty names and names without a class key are skipped; the others map to theirs. */
  lemma {:induction false} MappedNamesExact(lookup: map<string, string>, classNames: seq<Option<string>>, n: nat, m: string)
    requires n <= |classNames|
    ensures m in MappedNames(lookup, classNames, n) <==>
      exists i :: 0 <= i < n && Present(classNames[i]) && classNames[i].value in lookup
        && lookup[classNames[i].value] == m && m != ""
    decreases n
  {
    if n > 0 {
      MappedNamesExact(lookup, classNames, n - 1, m);
      if m in MappedNames(lookup, classNames, n) && m !in MappedNames(lookup, classNames, n - 1) {
        assert Present(classNames[n - 1]) && classNames[n - 1].value in lookup && lookup[classNames[n - 1].value] == m && m != "";
      }
    }
  }


  /** The flags of the given class keys, assigned in order. */
  function UnionFlags(registered: map<string, Flags>, keys: seq<string>): (r: Flags)
    requires forall k :: k in keys ==> k in registered
    decreases |keys|
  {
    if |keys| == 0 then map[]
    else UnionFlags(registered, keys[..|keys| - 1]) + registered[keys[|keys| - 1]]
  }

  /** Only the entries for the keys asked for matter to `UnionFlags`. */
  lemma {:induction false} UnionFlagsFrame(a: map<string, Flags>, b: map<string, Flags>, keys: seq<string>)
    requires forall k :: k in keys ==> k in a && k in b && a[k] == b[k]
    ensures UnionFlags(a, keys) == UnionFlags(b, keys)
    decreases |keys|
  {
    if |keys| > 0 {
      UnionFlagsFrame(a, b, keys[..|keys| - 1]);
    }
  }

  /** When every registered flag set applies its classes, so does their union. */
  lemma {:induction false} UnionFlagsApplied(registered: map<string, Flags>, keys: seq<string>)
    requires forall k :: k in keys ==> k in registered
    requires forall k, c :: k in registered && c in registered[k] ==> registered[k][c]
    ensures forall c :: c in UnionFlags(registered, keys) ==> UnionFlags(registered, keys)[c]
    decreases |keys|
  {
    if |keys| > 0 {
      UnionFlagsApplied(registered, keys[..|keys| - 1]);
    }
  }

  /**
   * The registered classes after `_getThemeClasses` has asked for `keys` in order: a key not
   * yet registered gets the flags `_registerThemeClass` computes for it.
   */
  function RegisterAll(registered: map<string, Flags>, keys: seq<string>, theme: ClassNames, themes: seq<BaseTheme>,
                       extraClasses: ClassNames): (r: map<string, Flags>)
    ensures forall k :: k in keys ==> k in r
    decreases |keys|
  {
    if |keys| == 0 then registered
    else
      var front := RegisterAll(registered, keys[..|keys| - 1], theme, themes, extraClasses);
      var last := keys[|keys| - 1];
      if last in front then front else front[last := RegisteredFlags(theme, themes, extraClasses, last)]
  }

  /**
   * Registering keeps every entry already there, adds exactly the keys asked for that were
   * missing, and gives each the flags of its key.
   */
  lemma {:induction false} RegisterAllExact(registered: map<string, Flags>, keys: seq<string>, theme: ClassNames,
                                            themes: seq<BaseTheme>, extraClasses: ClassNames, k: string)
    ensures var r := RegisterAll(registered, keys, theme, themes, extraClasses);
      && (k in r <==> k in registered || k in keys)
      && (k in registered ==> r[k] == registered[k])
      && (k in r && k !in registered ==> r[k] == RegisteredFlags(theme, themes, extraClasses, k))
    decreases |keys|
  {
    if |keys| > 0 {
      var front := keys[..|keys| - 1];
      var last := keys[|keys| - 1];
      RegisterAllExact(registered, front, theme, themes, extraClasses, k);
      var f := RegisterAll(registered, front, theme, themes, extraClasses);
      assert RegisterAll(registered, keys, theme, themes, extraClasses)
        == if last in f then f else f[last := RegisteredFlags(theme, themes, extraClasses, last)];
      assert k in keys <==> k in front || k == last by {
        assert keys == front + [last];
      }
    }
  }

  // ---------------------------------------------------------------- the themeable widget

  class Themeable {
    /** `getDecorator('baseThemeClasses')`: the base themes of the class hierarchy. */
    const decoratedBaseThemes: seq<BaseTheme>
    var themeProperty: Option<Theme>
    var injectedTheme: Option<Theme>
    var extraClasses: ClassNames

    /** `_registeredBaseThemes` is loaded once, on the first recalculation. */
    var baseThemesLoaded: bool
    var registeredBaseThemes: seq<BaseTheme>
    var reverseLookup: map<string, string>
    var recalculateClasses: bool
    var registeredClasses: map<string, Flags>
    var theme: ClassNames

    /** Every registered class key applies its classes: flags are only ever created as true. */
    ghost predicate Valid()
      reads this
    {
      forall k, c :: k in registeredClasses && c in registeredClasses[k] ==> registeredClasses[k][c]
    }

    constructor(decorated: seq<BaseTheme>)
      ensures Valid()
      ensures decoratedBaseThemes == decorated && recalculateClasses && !baseThemesLoaded
      ensures registeredClasses == map[] && theme == [] && reverseLookup == map[]
      ensures themeProperty == None && injectedTheme == None && extraClasses == []
    {
      decoratedBaseThemes := decorated;
      themeProperty := None;
      injectedTheme := None;
      extraClasses := [];
      baseThemesLoaded := false;
      registeredBaseThemes := [];
      reverseLookup := map[];
      recalculateClasses := true;
      registeredClasses := map[];
      theme := [];
    }

    /**
     * New `theme`, `injectedTheme` and `extraClasses` properties; `changed` is whether the
     * shallow diff reported `theme` or `extraClasses` as changed (`onPropertiesChanged`).
     */
    method SetProperties(themeProp: Option<Theme>, injected: Option<Theme>, extra: ClassNames, changed: bool)
      modifies this`themeProperty, this`injectedTheme, this`extraClasses, this`recalculateClasses
      ensures themeProperty == themeProp && injectedTheme == injected && extraClasses == extra
      ensures recalculateClasses == (old(recalculateClasses) || changed)
    {
      themeProperty := themeProp;
      injectedTheme := injected;
      extraClasses := extra;
      if changed {
        recalculateClasses := true;
      }
    }

    /**
     * The theme injector's `getProperties`: without a `theme` property the classes are
     * recalculated (the loaded theme is a fresh object, never the injected one).
     */
    method InjectorProperties(injected: Theme) returns (r: Theme)
      modifies this`recalculateClasses
      ensures r == injected
      ensures recalculateClasses == (old(recalculateClasses) || themeProperty.None?)
    {
      if themeProperty.None? {
        recalculateClasses := true;
      }
      return injected;
    }

    /** `_isDuplicate(key, origin)`: whether another registered base theme has a truthy `key`. */
    method IsDuplicate(key: string, origin: BaseTheme) returns (duplicate: bool)
      ensures duplicate <==> (key != ThemeKey && exists i :: (0 <= i < |registeredBaseThemes|
        && registeredBaseThemes[i].ref != origin.ref && Present(ClassOf(registeredBaseThemes[i].classes, key))))
    {
      duplicate := false;
      if key != ThemeKey {
        var i := 0;
        while i < |registeredBaseThemes|
          invariant 0 <= i <= |registeredBaseThemes|
          invariant forall j :: 0 <= j < i ==>
            registeredBaseThemes[j].ref == origin.ref || !Present(ClassOf(registeredBaseThemes[j].classes, key))
        {
          if origin.ref == registeredBaseThemes[i].ref {
            i := i + 1;
            continue;
          }
          if Present(ClassOf(registeredBaseThemes[i].classes, key)) {
            duplicate := true;
            break;
          }
          i := i + 1;
        }
      }
    }

    /** `_registerThemeClass(className)` */
    method RegisterThemeClass(className: string)
      requires Valid()
      modifies this`registeredClasses
      ensures Valid()
      ensures registeredClasses == old(registeredClasses)[className := RegisteredFlags(theme, registeredBaseThemes, extraClasses, className)]
    {
      var themeClass := if Present(ClassOf(theme, className)) then ClassOf(theme, className).value else BaseThemeClass(registeredBaseThemes, className);
      var extra := ClassOf(extraClasses, className);
      var extraArray := if Present(extra) then Split(extra.value, ' ') else [];
      var cssClassNames := Split(themeClass, ' ') + extraArray;
      registeredClasses := registeredClasses[className := CreateClassNameObject(Somes(cssClassNames), true)];
    }

    /**
     * `_getThemeClasses(classNames)`: the flags of every class key the names map to, each
     * key registered on first use.
     */
    method GetThemeClasses(classNames: seq<Option<string>>) returns (applied: Flags)
      requires Valid()
      modifies this`registeredClasses
      ensures Valid()
      ensures registeredClasses == RegisterAll(old(registeredClasses), MappedNames(reverseLookup, classNames, |classNames|),
                                               theme, registeredBaseThemes, extraClasses)
      ensures applied == UnionFlags(registeredClasses, MappedNames(reverseLookup, classNames, |classNames|))
    {
      applied := map[];
      var i := 0;
      while i < |classNames|
        invariant 0 <= i <= |classNames| && Valid()
        invariant registeredClasses == RegisterAll(old(registeredClasses), MappedNames(reverseLookup, classNames, i),
                                                   theme, registeredBaseThemes, extraClasses)
        invariant applied == UnionFlags(registeredClasses, MappedNames(reverseLookup, classNames, i))
      {
        applied := TakeClassName(classNames, i, old(registeredClasses), applied);
        i := i + 1;
      }
    }

    /**
     * One name of `_getThemeClasses`: a name with a class key has that key registered and its
     * flags added to `applied`; any other name changes nothing.
     */
    method TakeClassName(classNames: seq<Option<string>>, i: nat, ghost before: map<string, Flags>, applied: Flags)
      returns (r: Flags)
      requires i < |classNames| && Valid()
      requires registeredClasses == RegisterAll(before, MappedNames(reverseLookup, classNames, i), theme, registeredBaseThemes, extraClasses)
      requires applied == UnionFlags(registeredClasses, MappedNames(reverseLookup, classNames, i))
      modifies this`registeredClasses
      ensures Valid()
      ensures registeredClasses == RegisterAll(before, MappedNames(reverseLookup, classNames, i + 1), theme, registeredBaseThemes, extraClasses)
      ensures r == UnionFlags(registeredClasses, MappedNames(reverseLookup, classNames, i + 1))
    {
      ghost var names := MappedNames(reverseLookup, classNames, i);
      r := applied;
      var className := classNames[i];
      if Present(className) && className.value in reverseLookup && reverseLookup[className.value] != "" {
        var mapped := reverseLookup[className.value];
        EnsureRegistered(mapped, before, names);
        ghost var after := names + [mapped];
        assert after[..|names|] == names;
        r := applied + registeredClasses[mapped];
      }
    }

    /** One class key of `_getThemeClasses`: registered unless it already is. */
    method EnsureRegistered(mapped: string, ghost before: map<string, Flags>, ghost names: seq<string>)
      requires Valid() && registeredClasses == RegisterAll(before, names, theme, registeredBaseThemes, extraClasses)
      modifies this`registeredClasses
      ensures Valid() && registeredClasses == RegisterAll(before, names + [mapped], theme, registeredBaseThemes, extraClasses)
      ensures UnionFlags(registeredClasses, names) == UnionFlags(old(registeredClasses), names)
    {
      ghost var after := names + [mapped];
      assert after[..|names|] == names;
      if mapped !in registeredClasses {
        ghost var b := registeredClasses;
        RegisterThemeClass(mapped);
        UnionFlagsFrame(b, registeredClasses, names);
      }
    }

    /** Every registered class key registered again, for the current theme (`forEach` over the map). */
    method ReregisterAll()
      requires Valid()
      modifies this`registeredClasses
      ensures Valid()
      ensures registeredClasses.Keys == old(registeredClasses).Keys
      ensures forall k :: k in registeredClasses ==> registeredClasses[k] == RegisteredFlags(theme, registeredBaseThemes, extraClasses, k)
    {
      var todo := registeredClasses.Keys;
      while todo != {}
        invariant todo <= registeredClasses.Keys
        invariant Valid()
        invariant registeredClasses.Keys == old(registeredClasses).Keys
        invariant forall k :: k in registeredClasses && k !in todo ==>
          registeredClasses[k] == RegisteredFlags(theme, registeredBaseThemes, extraClasses, k)
        decreases todo
      {
        var key :| key in todo;
        RegisterThemeClass(key);
        todo := todo - {key};
      }
    }

    /**
     * `_recalculateThemeClasses()`: loads the base themes once (the decorator order reversed),
     * rebuilds the reverse lookup and the loaded theme, re-registers every registered key and
     * clears the flag.
     */
    method RecalculateThemeClasses()
      requires Valid()
      modifies this`baseThemesLoaded, this`registeredBaseThemes, this`reverseLookup, this`theme
      modifies this`registeredClasses, this`recalculateClasses
      ensures Valid()
      ensures baseThemesLoaded
      ensures registeredBaseThemes == if old(baseThemesLoaded) then old(registeredBaseThemes) else Reversed(decoratedBaseThemes)
      ensures reverseLookup == CreateThemeClassesLookup(ClassesOf(registeredBaseThemes))
      ensures theme == ComposeTheme(ThemeKeys(registeredBaseThemes), EffectiveTheme(themeProperty, injectedTheme))
      ensures registeredClasses.Keys == old(registeredClasses).Keys
      ensures forall k :: k in registeredClasses ==> registeredClasses[k] == RegisteredFlags(theme, registeredBaseThemes, extraClasses, k)
      ensures !recalculateClasses
    {
      if !baseThemesLoaded {
        registeredBaseThemes := Reversed(decoratedBaseThemes);
        baseThemesLoaded := true;
      }
      reverseLookup := CreateThemeClassesLookup(ClassesOf(registeredBaseThemes));
      theme := ComposeTheme(ThemeKeys(registeredBaseThemes), EffectiveTheme(themeProperty, injectedTheme));
      ReregisterAll();
      recalculateClasses := false;
    }

    /**
     * `classes(...classNames)`: recalculates first only when flagged, then starts a chain
     * holding the theme flags of the names.
     */
    method Classes(classNames: seq<Option<string>>) returns (chain: Chain)
      requires Valid()
      modifies this`baseThemesLoaded, this`registeredBaseThemes, this`reverseLookup, this`theme
      modifies this`registeredClasses, this`recalculateClasses
      ensures Valid()
      ensures !recalculateClasses
      ensures !old(recalculateClasses) ==> (theme == old(theme) && reverseLookup == old(reverseLookup)
        && registeredBaseThemes == old(registeredBaseThemes))
      ensures forall m :: m in MappedNames(reverseLookup, classNames, |classNames|) ==> m in registeredClasses
      ensures chain.fixedClasses == map[]
      ensures chain.themeClasses == UnionFlags(registeredClasses, MappedNames(reverseLookup, classNames, |classNames|))
      ensures forall c :: c in chain.themeClasses ==> chain.themeClasses[c]
    {
      if recalculateClasses {
        RecalculateThemeClasses();
      }
      var applied := GetThemeClasses(classNames);
      UnionFlagsApplied(registeredClasses, MappedNames(reverseLookup, classNames, |classNames|));
      chain := Chain(applied, map[]);
    }
  }
}
