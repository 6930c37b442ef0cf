# widget-core in Dafny

A model of the core of widget-core, the widget library of the Dojo 2 toolkit, with
proofs about it. Widgets describe their view as a tree of `DNode`s: element nodes made
by `v()` and widget nodes made by `w()`. The renderer (`src/vdom4.ts`) turns that tree
into wrappers, instantiates widgets, pairs old children with new ones, and replays DOM
instructions. Widgets decide whether to re-render by diffing their properties
(`src/diff.ts`).

The model covers these source files:

- **`values.dfy`** (`JsValues`): the JavaScript values the library handles.
  - Object identity is an explicit reference number on functions, arrays and objects.
  - Own keys are kept in insertion order. This is the `Object.keys` order for keys that are not integer-like; `Object.keys` lists integer-like keys (`"0"`, `"12"`) first, in ascending order, and the model does not.
  - Truthiness, `===` and `Object.assign` are modelled, and strings are split and joined.
- **`diff.ts`** (`PropertyDiff`): the comparison functions `always`, `ignore`,
  `reference`, `shallow` and `auto`, and the `diffProperties` loop.
  - The loop is an imperative method proved against prefix specifications.
- **`d.ts`** (`Nodes`): the `w`/`v` constructors, the node type guards, and the `decorate`
  worklist traversal.
- **`WidgetBase.ts`** (`LegacyWidgetBase`): the older class-based widget.
  - Modelled: its property diff, child cache, detached-child clean-up and `__render__`.
  - The `deepAssign` copy kept as the previous properties is `DeepAssign`
    (`deep_assign.dfy`): plain objects and arrays are copied at every depth with new
    identities. dojo-core's `lang.ts` is not part of this model; its copy rule is stated
    there.
- **`MultiMap.ts`** (`NestedKeyMap`): a map keyed by sequences of keys, stored as a
  nested trie.
- **`mixins/Themeable.ts`** (`Themes`): theme and override class composition, and the
  `classes()` chain.
- **`mixins/Projector.ts`** (`Projectors`): the projector state machine.
  - Covers attach, pause, resume, async/sync mode and render scheduling.
- **`util/eventHandler.ts`** (`EventListeners`): listener normalisation and the
  snabbdom-style listener update.
- **`WidgetRegistry.ts`** (`WidgetRegistries`): the label registry, including its
  lazy-loading entries.
- **`customElements.ts`** (`CustomElements`): custom-element descriptors and the
  attribute/property/event bridge.
- **`Evented.ts`** (`Events`): handlers registered per event type and called in registration order by `emit`.
- **`bases/Destroyable.ts`** (`Destroyables`): the handle list and `destroy`.
- **`vdom4.ts`**, split over five modules:
  - `ChildMatching`: `same`, `findIndexOfChild` and child pairing in `_process`.
    - The renderer runs the pairing as written (`Pairing`).
    - A corrected pairing that handles each old child once is proved beside it.
  - `DomProperties`: the rules of `setProperties`.
    - The element, and so the renderer, runs the `classes` rule as written
      (`ReconcileAsWritten`).
    - The corrected rule (`Reconcile`) is proved to agree with it when no two previous
      entries share a token.
    - A null or undefined `styles` value throws a TypeError, as `Object.keys` does.
  - `TargetTree`: the DOM tree that instructions act on.
  - `RenderTables`: parent lookup, and the wrapper and instance tables.
  - `Reconciler`: the `Renderer` class with its queues and the per-instruction handlers.

Where something in the source is an object updated in place (a widget, a projector, a
registry, the renderer, a DOM element), the model has a `class` with those fields and
methods that state the whole new state. Pure helpers are functions, with lemmas about them.

## Model

| member | source | states |
|---|---|---|
| PropertyDiff.Always | src/diff.ts:8-13 | always reports a change and passes the new value through |
| PropertyDiff.Ignore | src/diff.ts:15-20 | never reports a change and passes the new value through |
| PropertyDiff.Reference | src/diff.ts:22-27 | changed exactly when the two values are not `===`; the value is the new one |
| PropertyDiff.Shallow | src/diff.ts:29-57 | changed when either side is not a truthy object or array; otherwise changed exactly when the key counts differ or some key of the new value has a value that is not `===` to the old one |
| PropertyDiff.SomeKeyDiffers | src/diff.ts:49-51 | true exactly when some listed key maps to values that are not identical in the two objects |
| PropertyDiff.ShallowReorderedArray | src/diff.ts:29-57 | the same items in another order count as a change |
| PropertyDiff.ShallowSameItemsUnchanged | src/diff.ts:29-57 | two distinct arrays with the same items count as unchanged |
| PropertyDiff.Auto | src/diff.ts:59-76 | dispatches on the new value: a widget constructor is compared by reference, any other function is ignored, objects and arrays are compared shallowly, and everything else by reference |
| PropertyDiff.AutoSameValueUnchanged | src/diff.ts:59-76 | a value compared with itself is never reported as changed |
| PropertyDiff.ExamineProperty | src/diff.ts:112-138 | examining one name: changed exactly when the decorator functions (or `auto`) report a change; a value is stored unless the name is registered with no functions |
| PropertyDiff.RunDiffFunctions | src/diff.ts:119-128 | changed exactly when some registered diff function reports a change; the kept value is the last function's value |
| PropertyDiff.IndexOf | src/diff.ts:108 | `indexOf` returns -1 exactly when the name is absent, and otherwise the first position holding it |
| PropertyDiff.ExaminedPrefixFacts | src/diff.ts:106-111 | after n steps the examined list holds exactly the first n names; its head is the first name; a name is skipped exactly when it was seen before and is not the first name |
| PropertyDiff.ChangedPrefixKeys | src/diff.ts:106-139 | the changed keys after n steps are the distinct names among the first n, in first-seen order, whose comparison reports a change |
| PropertyDiff.ResultPrefixKeys | src/diff.ts:106-139 | the result bag after n steps is well formed, and its keys are the distinct names among the first n that are present in the new properties and have a result |
| PropertyDiff.ResultPrefixValues | src/diff.ts:106-139 | every stored result is the value the comparison returned for that name |
| PropertyDiff.ResultKeysInNewOrder | src/diff.ts:100-137 | the result keys follow the order of the new properties' own keys |
| PropertyDiff.DiffOutcome | src/diff.ts:97-145 | the full run yields distinct changed keys and a result bag in new-key order holding exactly the stored values |
| PropertyDiff.DiffLoop | src/diff.ts:106-139 | the loop computes the prefix specification over all names: examined list, changed keys and results |
| PropertyDiff.DiffProperties | src/diff.ts:97-145 | `diffProperties`: the changed keys are the distinct names over new then old keys whose comparison reports a change, with no duplicates; the result keys are the new keys that have a result, each holding its comparison value |
| PropertyDiff.RemovedKeyChanged | src/diff.ts:112-137 | a name only in the old properties is reported changed exactly when its old value was not `undefined`, and gets no result |
| PropertyDiff.SameBagsUnchanged | src/diff.ts:97-145 | diffing a property bag against itself with no decorators reports no changes |
| PropertyDiff.FirstNameExaminedTwice | src/diff.ts:108 | because the test is `indexOf > 0`, a repeated first name is examined again |
| PropertyDiff.SkippedByIndexOf | src/diff.ts:107-110 | a name is skipped by the `indexOf > 0` test exactly when it was examined before and is not the first name |
| Nodes.IsWNode | src/d.ts:28-32 | true exactly for widget nodes; false for `undefined`, `null` and strings |
| Nodes.IsVNode | src/d.ts:37-39 | true exactly for element nodes; no node is both kinds |
| Nodes.W | src/d.ts:122-133 | builds a widget node with the given constructor and properties; children default to none |
| Nodes.V | src/d.ts:141-166 | builds an element node: an array second argument gives the children and empty properties; a function gives a deferred-properties callback and empty properties; otherwise the argument is the properties |
| Nodes.Decorate | src/d.ts:86-117 | returns its input unchanged and applies the modifier to exactly the worklist sequence `Decorated`, in order |
| Nodes.DecoratedStep | src/d.ts:101-115 | one worklist step: a selected node whose breaker fires ends the walk; otherwise the node is kept if selected, and its children are queued unless the walk is shallow |
| Nodes.DecoratedPrefix | src/d.ts:101-115 | with no predicate, breaker or shallow flag, visiting `a + b` yields the truthy nodes of `a`, then the visit of `b` followed by the children of `a` |
| Nodes.DecorateIsLevelOrder | src/d.ts:101-115 | with no predicate, breaker or shallow flag, `decorate` visits the truthy nodes level by level (breadth first) |
| Nodes.ShallowVisitsTopLevel | src/d.ts:108-113 | a shallow walk with no breaker visits exactly the selected top-level nodes |
| Nodes.DecoratedSelectedAndStops | src/d.ts:102-113 | every node given to the modifier satisfies the predicate and is truthy; the breaker fires on none but the last |
| Nodes.BreakerOnFirst | src/d.ts:102-113 | a breaker that fires on the first selected node stops the walk after that node |
| LegacyWidgetBase.FormatTagNameAndClasses | src/WidgetBase.ts:14-19 | the tag name alone when there are no classes; otherwise the tag and the classes joined by `.` |
| LegacyWidgetBase.FormatTagNameAndClassesSplits | src/WidgetBase.ts:14-19 | splitting the result on `.` gives back the tag and the classes when none contains a `.` |
| LegacyWidgetBase.ShallowCompare | src/WidgetBase.ts:25-27 | a TypeError when `from` is nullish, or when `to` is nullish and `from` has keys; otherwise true exactly when every own key of `from` maps to `===` values in both |
| LegacyWidgetBase.EveryKeyIdentical | src/WidgetBase.ts:26 | true exactly when every listed key maps to identical values in the two objects |
| LegacyWidgetBase.ShallowCompareAsymmetric | src/WidgetBase.ts:25-27 | only the keys of `from` are compared, so the comparison is not symmetric |
| LegacyWidgetBase.ItemsEqual | src/WidgetBase.ts:296-303 | equal arrays have `===` plain items and shallow-equal object items; for plain items this is exact |
| LegacyWidgetBase.PropertyEqual | src/WidgetBase.ts:287-316 | a key missing from the previous properties is unequal; functions are always equal; arrays of different length are unequal; two objects are compared shallowly; everything else uses `===` |
| LegacyWidgetBase.DiffProperties | src/WidgetBase.ts:283-322 | fails exactly when a comparison throws; otherwise returns the keys of the current properties, in order, whose comparison reports inequality |
| LegacyWidgetBase.RemovedKeysNotReported | src/WidgetBase.ts:286-320 | a key absent from the current properties is never reported |
| LegacyWidgetBase.NewKeysReportedFunctionsNot | src/WidgetBase.ts:288-316 | a key new in the current properties is reported; a function-valued key already present is not |
| LegacyWidgetBase.DistinctChangedKeys | src/WidgetBase.ts:283-322 | distinct keys yield distinct changed keys |
| LegacyWidgetBase.GenerateProperties | src/WidgetBase.ts:29-44 | the current bag holds exactly the changed keys with their current values; the previous bag holds those of them whose previous value is truthy, with that value |
| LegacyWidgetBase.CollectChanged | src/WidgetBase.ts:36-41 | the loop over the changed keys builds the two bags stated for `generateProperties` |
| LegacyWidgetBase.SelfDiffUnchanged | src/WidgetBase.ts:283-322 | a well-formed property bag diffed against itself throws nothing and reports no key |
| LegacyWidgetBase.SelfEqual | src/WidgetBase.ts:287-316 | every present key compares equal to itself |
| LegacyWidgetBase.IdWrittenBelow | src/WidgetBase.ts:276-281 | writing the widget's `id` into a bag lists the key and adds no new object identity |
| LegacyWidgetBase.Widget.constructor | src/WidgetBase.ts:108-125 | starts dirty, with no cached node or children; the previous properties are a `deepAssign` copy of the initial bag; a non-empty bag then gains the widget's `id` in place, so the first diff reports `id` when the bag lacked it; no invalidation, because the `state:changed` handler is registered afterwards |
| LegacyWidgetBase.Widget.Invalidate | src/WidgetBase.ts:268-274 | marks the widget dirty and emits one `invalidated` event; nothing else changes |
| LegacyWidgetBase.Widget.ResolveChild | src/WidgetBase.ts:153-204 | an error exactly when the label is a stored constructor in the widget's own registry (the `get` throw) or is held by neither registry (`item === null`); a pending label is hooked once and yields nothing; otherwise the child is the cached child for `id \|\| factory`, or a new one that is owned, and it is recorded as current; a repeated unkeyed constructor emits an error event |
| LegacyWidgetBase.Widget.ResolveFactory | src/WidgetBase.ts:156-175 | the constructor of a child node: its own; for a label, the own registry's outcome when it holds the label (a throw for a stored constructor, a promise otherwise), else the global registry's factory, a hooked promise, or an error for an unknown label |
| LegacyWidgetBase.Widget.GetLocal | src/WidgetBase.ts:160-172 | a label held by the widget's own registry: its `get` throws for a stored constructor and leaves the registry alone, and otherwise gives a promise (the registry entry as `get` leaves it), which is hooked and renders nothing yet |
| LegacyWidgetBase.Widget.CacheChild | src/WidgetBase.ts:177-201 | the child cached under `id \|\| factory`, or a new owned one that is cached; a repeated constructor without an id emits one error event; the child becomes current |
| LegacyWidgetBase.Widget.ResolveChildren | src/WidgetBase.ts:147-214 | resolving the widget nodes of a render fails exactly when one of their labels fails in the registries as they were before the render |
| LegacyWidgetBase.Widget.ManageDetachedChildren | src/WidgetBase.ts:216-224 | keeps exactly the historic children that are current, destroys each of the others once, and clears the current map |
| LegacyWidgetBase.Widget.DestroyChild | src/WidgetBase.ts:217-221 | removes one detached child from the cache and destroys it |
| LegacyWidgetBase.Widget.Render | src/WidgetBase.ts:324-339 | a throwing diff is an error; a clean widget with a cached node and no changed keys returns the cache untouched; otherwise it renders again and keeps a fresh `deepAssign` copy of the properties; it succeeds whenever the diff does not throw and no child label fails in the widget's own or the global registry |
| LegacyWidgetBase.Widget.RenderAgain | src/WidgetBase.ts:328-336 | fails exactly when a child label fails in the widget's own or the global registry; otherwise the widget is clean, the previous properties are a copy of the current ones whose plain objects and arrays all have new identities, the current child map is empty, and a truthy result is cached |
| LegacyWidgetBase.RenderTwiceFromCache | src/WidgetBase.ts:324-339 | a clean widget with a cached node, whose previous properties are the copy of its last render and whose property values are at most one level deep, returns the same cached node twice |
| LegacyWidgetBase.RenderNestedEveryTime | src/WidgetBase.ts:324-339 | a widget with a property value that nests a plain object or array more than one level deep renders again on each of two successive `__render__` calls, and ends clean |
| LegacyWidgetBase.ChangedKeysHas | src/WidgetBase.ts:283-322 | a key is reported exactly when it is one of the keys and its comparison says unequal |
| LegacyWidgetBase.ShallowCompareCopy | src/WidgetBase.ts:25-27 | `shallowCompare` of a plain object with its `deepAssign` copy is true exactly when none of its own keys holds a plain object or array |
| LegacyWidgetBase.ItemsEqualCopy | src/WidgetBase.ts:296-303 | the item comparison of an array with its copy never throws and is true exactly when no item is an array or a plain object holding one |
| LegacyWidgetBase.PropertyEqualCopy | src/WidgetBase.ts:287-316 | a property compared with its copy is equal exactly when its value is at most one level deep |
| LegacyWidgetBase.CopyDiff | src/WidgetBase.ts:283-322 | diffing the properties against the copy taken at the last render throws nothing and reports exactly the keys whose values nest deeper than one level, so none when all are at most one level deep |
| DeepAssign.DeepCopyIsCopy | src/WidgetBase.ts:115 | `deepAssign` gives a value of the same shape whose plain objects and arrays are all new, numbered from the counter on, and shares everything else |
| DeepAssign.CopyItemsAreCopies | src/WidgetBase.ts:115 | an array's copy has as many items, each a copy of the original item |
| DeepAssign.CopyPropsIsCopy | src/WidgetBase.ts:115 | the copy of an object has the same keys in the same order, and each present key holds a copy of its value |
| DeepAssign.DeepAssignBagIsCopy | src/WidgetBase.ts:115 | `deepAssign({}, properties)` is a copy of the bag, well-formed when the bag is |
| DeepAssign.BagRefBound | src/WidgetBase.ts:115 | every object or array the bag reaches is numbered below the bound, so copies numbered from it are new |
| DeepAssign.RefBoundIsAbove | src/WidgetBase.ts:115 | every object or array reachable from a value is numbered below its bound |
| DeepAssign.CopyIdentical | src/WidgetBase.ts:291-309 | a value and its copy are `===` exactly when the value is neither a plain object nor an array |
| NestedKeyMap.MultiMap.constructor | src/MultiMap.ts:7-10 | starts with an empty, pruned map |
| NestedKeyMap.MultiMap.Set | src/MultiMap.ts:12-27 | stores the value under the key path, reusing existing levels and creating missing ones; a pruned map stays pruned |
| NestedKeyMap.LookupInsertSame | src/MultiMap.ts:12-41 | `get` after `set` on the same path returns the stored value |
| NestedKeyMap.LookupInsertOther | src/MultiMap.ts:12-41 | `set` on one path leaves `get` on every other path unchanged |
| NestedKeyMap.InsertExistingKeepsShape | src/MultiMap.ts:12-53 | overwriting an existing path changes no answer of `has` |
| NestedKeyMap.InsertNotEmpty | src/MultiMap.ts:12-27 | after `set` the map is not empty |
| NestedKeyMap.InsertKeepsPruned | src/MultiMap.ts:12-27 | `set` creates no empty level |
| NestedKeyMap.MultiMap.Get | src/MultiMap.ts:29-41 | returns the value stored under exactly that path, or nothing when a level is missing |
| NestedKeyMap.LookupEmpty | src/MultiMap.ts:7-41 | a fresh map stores nothing |
| NestedKeyMap.MultiMap.Has | src/MultiMap.ts:43-53 | true exactly when every level of the path exists, even if no value is stored at its end |
| NestedKeyMap.StoredPrefixesExist | src/MultiMap.ts:29-53 | every prefix of a stored path answers `has` with true |
| NestedKeyMap.NotExistsExtension | src/MultiMap.ts:43-53 | a missing level makes every longer path missing |
| NestedKeyMap.MultiMap.Delete | src/MultiMap.ts:55-76 | removes the value at the path and prunes the levels left empty, bottom up; a missing path leaves the map unchanged; a pruned map stays pruned |
| NestedKeyMap.MultiMap.WalkDown | src/MultiMap.ts:56-65 | the downward walk finds the path exactly when it exists, recording the level at each depth |
| NestedKeyMap.MultiMap.WalkUp | src/MultiMap.ts:67-75 | the upward pass over the recorded levels yields the map with the path removed and the empty levels pruned |
| NestedKeyMap.LookupRemoveSame | src/MultiMap.ts:55-76 | after `delete`, `get` on that path returns nothing |
| NestedKeyMap.LookupRemoveOther | src/MultiMap.ts:55-76 | `delete` on one path leaves `get` on every other path unchanged |
| NestedKeyMap.RemoveKeepsPruned | src/MultiMap.ts:67-75 | deleting from a pruned map leaves no empty level |
| NestedKeyMap.EmptyStoresNothing | src/MultiMap.ts:29-41 | a map with no levels and no value stores nothing |
| NestedKeyMap.MultiMap.StoredValues | src/MultiMap.ts:78-94 | `values()` holds exactly the values stored somewhere in the map |
| NestedKeyMap.StoredValuesExact | src/MultiMap.ts:78-94 | the values collected by the walk are exactly the stored values |
| NestedKeyMap.MultiMap.KeyPaths | src/MultiMap.ts:96-113 | `keys()` holds exactly the paths under which a value is stored |
| NestedKeyMap.MultiMap.EntryPairs | src/MultiMap.ts:115-132 | `entries()` holds exactly the stored (path, value) pairs |
| NestedKeyMap.EntriesComplete | src/MultiMap.ts:115-132 | every stored value appears in the entries under its path |
| NestedKeyMap.EntriesSound | src/MultiMap.ts:115-132 | every entry is stored in the map under its path |
| NestedKeyMap.MultiMap.Clear | src/MultiMap.ts:134-136 | afterwards no path stores a value |
| Themes.ClassOfLast | src/mixins/Themeable.ts:297-299 | reading a key of an object built by assignments gives the value of the last assignment to it, or undefined when there is none |
| Themes.ClassOfAppend | src/mixins/Themeable.ts:297-299 | after `assign(a, b)` a key reads from `b` when `b` sets it, and from `a` otherwise |
| Themes.Flagged | src/mixins/Themeable.ts:124-126 | each piece is set to the applied flag on top of the earlier flags, which are otherwise kept |
| Themes.CreateClassNameObject | src/mixins/Themeable.ts:121-130 | every flag in the result equals the `applied` argument |
| Themes.ClassNameObjectKeys | src/mixins/Themeable.ts:121-130 | the keys are exactly the space-separated pieces of the non-empty names; null and empty names add nothing |
| Themes.SplitPiecesLackSeparator | src/mixins/Themeable.ts:124 | no piece of a split contains the separator |
| Themes.KeyForFinds | src/mixins/Themeable.ts:140-142 | the reverse entry of one base theme finds a key holding the class value whenever there is one |
| Themes.OverlayAt | src/mixins/Themeable.ts:139-144 | one base theme written into the lookup: its values map to their keys, and other values keep their earlier key |
| Themes.ThemeClassesLookupHas | src/mixins/Themeable.ts:138-145 | a class value is in the reverse lookup exactly when some base theme holds it |
| Themes.ThemeClassesLookupLast | src/mixins/Themeable.ts:138-145 | a class value maps to its key in the last base theme holding it |
| Themes.LaterBaseThemeWins | src/mixins/Themeable.ts:138-145 | a later base theme overrides earlier ones for the same class value |
| Themes.ChainFixed | src/mixins/Themeable.ts:74-77 | `fixed()` replaces the fixed flags with applied flags and keeps the theme flags |
| Themes.ChainGet | src/mixins/Themeable.ts:65-67 | `get()` holds both sets of flags, and a fixed flag wins over a theme flag |
| Themes.BaseThemeClassFirst | src/mixins/Themeable.ts:310-315 | the base theme class is empty exactly when no base theme has a truthy entry; otherwise it comes from the first base theme that has one |
| Themes.ThemeClassFor | src/mixins/Themeable.ts:276 | the loaded theme's class when truthy, else the base theme class |
| Themes.ExtraPieces | src/mixins/Themeable.ts:277-278 | a missing or empty extra-classes entry adds no pieces |
| Themes.RegisteredFlagsExact | src/mixins/Themeable.ts:274-281 | a registered class key applies exactly the non-empty pieces of its theme (or base theme) class and of its extra classes, all set to true |
| Themes.ComposeThemeHas | src/mixins/Themeable.ts:292-299 | a class key is defined in the loaded theme exactly when the theme part under some base theme's key defines it |
| Themes.ComposeThemeLastWins | src/mixins/Themeable.ts:292-299 | a defined class key of the loaded theme reads from the last theme part that defines it |
| Themes.EffectiveTheme | src/mixins/Themeable.ts:287 | the `theme` property when given, otherwise the injected theme |
| Themes.MappedNamesExact | src/mixins/Themeable.ts:251-261 | null names, empty names and names with no reverse entry are skipped; each other name contributes its class key |
| Themes.UnionFlagsFrame | src/mixins/Themeable.ts:251-267 | only the registered flags of the keys asked for affect the applied classes |
| Themes.UnionFlagsApplied | src/mixins/Themeable.ts:251-267 | when every registered flag is true, so is every applied flag |
| Themes.Themeable.constructor | src/mixins/Themeable.ts:168-197 | starts needing a recalculation, with no base themes loaded and no registered classes |
| Themes.Themeable.SetProperties | src/mixins/Themeable.ts:242-246 | stores the new properties and requests a recalculation when `theme` or `extraClasses` changed |
| Themes.Themeable.InjectorProperties | src/mixins/Themeable.ts:225-230 | passes the injected theme on, and requests a recalculation when there is no `theme` property |
| Themes.Themeable.IsDuplicate | src/mixins/Themeable.ts:331-347 | true exactly when the key is not the theme key and some other registered base theme has a truthy entry for it |
| Themes.Themeable.RegisterThemeClass | src/mixins/Themeable.ts:274-281 | stores the flags of that class key and changes no other registered key |
| Themes.RegisterAllExact | src/mixins/Themeable.ts:251-267 | asking for class keys in order keeps every registration already there, adds exactly the missing keys asked for, and gives each the flags of its key |
| Themes.Themeable.GetThemeClasses | src/mixins/Themeable.ts:251-267 | the registered classes become the old ones with each missing mapped class key registered (as `RegisterAllExact` describes); returns the union of the mapped keys' flags, in order |
| Themes.Themeable.TakeClassName | src/mixins/Themeable.ts:253-265 | one name of the loop: a name with a non-empty class key registers it if needed and adds its flags; any other name changes nothing |
| Themes.Themeable.EnsureRegistered | src/mixins/Themeable.ts:262-264 | registers one class key when missing and leaves existing registrations, and the union over earlier keys, unchanged |
| Themes.Themeable.ReregisterAll | src/mixins/Themeable.ts:301-303 | re-registers every class key already registered, under the current theme, and adds none |
| Themes.Themeable.RecalculateThemeClasses | src/mixins/Themeable.ts:286-305 | loads the base themes once, in reverse decorator order; rebuilds the reverse lookup and the loaded theme; re-registers every class key; clears the recalculation flag |
| Themes.Themeable.Classes | src/mixins/Themeable.ts:210-215 | recalculates only when flagged; the chain's theme flags are the union of the mapped class keys' flags, all applied, and it starts with no fixed flags |
| Projectors.Initial | src/mixins/Projector.ts:108-128 | a new projector is detached, asynchronous, not paused, with no frame scheduled |
| Projectors.InitialConsistent | src/mixins/Projector.ts:108-128 | the initial state satisfies the projector invariant |
| Projectors.DoRenderStep | src/mixins/Projector.ts:219-225 | clears the scheduled frame and updates the projection when there is one |
| Projectors.ScheduleStep | src/mixins/Projector.ts:161-175 | nothing happens when detached, paused or already scheduled; otherwise async mode requests exactly one frame and sync mode renders at once |
| Projectors.PauseStep | src/mixins/Projector.ts:148-154 | cancels a pending frame, if any, and pauses |
| Projectors.ResumeStep | src/mixins/Projector.ts:156-159 | unpauses, then schedules a render |
| Projectors.SetAsyncStep | src/mixins/Projector.ts:181-186 | fails with the "already attached" error exactly when attached; otherwise sets the mode |
| Projectors.AttachStep | src/mixins/Projector.ts:227-238 | marks the projector attached and creates a projection by append or merge, synchronous exactly when not async |
| Projectors.StepsKeepConsistent | src/mixins/Projector.ts:148-238 | every step preserves the projector invariant |
| Projectors.AtMostOneFrame | src/mixins/Projector.ts:161-175 | any number of scheduled renders requests at most one animation frame, and none when one is already pending |
| Projectors.PausedSchedulesNothing | src/mixins/Projector.ts:166 | a paused projector ignores every scheduled render |
| Projectors.DetachedSchedulesNothing | src/mixins/Projector.ts:162 | a detached projector ignores every scheduled render |
| Projectors.PauseResumeReplacesFrame | src/mixins/Projector.ts:148-159 | pausing cancels the pending frame, and resuming requests a new one |
| Projectors.FrameThenScheduleAgain | src/mixins/Projector.ts:161-225 | once the frame has rendered, the next scheduled render requests a new frame |
| Projectors.SyncRendersEveryTime | src/mixins/Projector.ts:170-172 | in sync mode every scheduled render updates the projection at once |
| Projectors.AfterRender | src/mixins/Projector.ts:209-217 | a string, `null` or `undefined` result becomes a `span` with no properties whose child is the result; any other node is returned as is |
| Projectors.Projector.constructor | src/mixins/Projector.ts:115-128 | starts in the initial state with no properties, children or effects |
| Projectors.Projector.DoRender | src/mixins/Projector.ts:219-225 | performs the render step and logs its effects |
| Projectors.Projector.ScheduleRender | src/mixins/Projector.ts:161-175 | performs the schedule step and logs its effects |
| Projectors.Projector.Pause | src/mixins/Projector.ts:148-154 | performs the pause step and logs its effects |
| Projectors.Projector.Resume | src/mixins/Projector.ts:156-159 | performs the resume step and logs its effects |
| Projectors.Projector.GetAsync | src/mixins/Projector.ts:177-179 | returns the current mode |
| Projectors.Projector.SetAsync | src/mixins/Projector.ts:181-186 | an error when attached, with the state unchanged; otherwise the mode is set |
| Projectors.Projector.SetChildren | src/mixins/Projector.ts:188-196 | stores the children, then schedules a render |
| Projectors.Projector.SetProperties | src/mixins/Projector.ts:198-207 | stores the properties, then schedules a render |
| Projectors.Projector.Attach | src/mixins/Projector.ts:130-146 | performs the attach step and logs the projection it creates |
| Projectors.AsyncProjectorRun | src/mixins/Projector.ts:130-238 | a sample run: append, two schedules (one frame), a render, another schedule (a new frame); changing the mode while attached fails |
| EventListeners.RemovalOpsExact | src/util/eventHandler.ts:58-70 | the old listener is removed from the old element for exactly the old names that the new `on` object lacks (all of them when there is no new `on`) |
| EventListeners.AdditionOpsExact | src/util/eventHandler.ts:72-87 | the listener is added to the new element for exactly the new names the old `on` object lacks (all of them when there was none) |
| EventListeners.ListenerUpdate.constructor | src/util/eventHandler.ts:46-52 | starts with no listener handed to a node and no listener operations |
| EventListeners.ListenerUpdate.Run | src/util/eventHandler.ts:46-88 | `updateEventListeners`: nothing when both nodes share the same `on` object; otherwise the removals, then the additions; the new node gets the old node's listener, or a new one |
| EventListeners.RemovalsRemove | src/util/eventHandler.ts:58-70 | after the removals, a name is still registered exactly when it was and is not unwanted by the new `on` object |
| EventListeners.AdditionsAdd | src/util/eventHandler.ts:72-87 | after the additions, a name is registered exactly when it was, or it is new and was not registered before |
| EventListeners.ListenersFollowOn | src/util/eventHandler.ts:46-88 | when every handler is truthy, the names registered after an update are exactly the names of the new `on` object |
| EventListeners.FunctionHandlerCall | src/util/eventHandler.ts:10-12 | a function handler is called once, bound to `data.bind` or the node, with the event and then the node |
| EventListeners.ArrayHandlerCalls | src/util/eventHandler.ts:13-22 | an array whose head is a function makes exactly one call, to that function |
| EventListeners.NestedHandlerLosesEvent | src/util/eventHandler.ts:23-27 | as written, an inner handler of a nested array is called with neither the event nor the node |
| EventListeners.PassingOnKeepsEvent | src/util/eventHandler.ts:9-29 | corrected dispatch: every call, at any depth of nesting, receives the event and the node as its last two arguments |
| EventListeners.PassingOnEachKeepsEvent | src/util/eventHandler.ts:23-27 | corrected dispatch over the elements of a handler array keeps the event and the node in every call |
| WidgetRegistries.DefineEntry | src/WidgetRegistry.ts:29-34 | defining a label already present throws the "already been registered" error; otherwise the label maps to the item and every other entry is unchanged |
| WidgetRegistries.GetEntry | src/WidgetRegistry.ts:36-56 | an unknown label gives null; a stored promise is returned as it is; a stored constructor, called without `new`, throws and leaves the registry alone; a factory function is called, its promise replaces the entry, and `get` returns a promise chained on it; other entries are unchanged |
| WidgetRegistries.DefineTwiceFails | src/WidgetRegistry.ts:29-34 | a second `define` of the same label fails |
| WidgetRegistries.SecondGetReturnsPromise | src/WidgetRegistry.ts:41-48 | after a first `get` of a factory entry, a second `get` returns the promise the first one stored |
| WidgetRegistries.FactoryRegistry.constructor | src/WidgetRegistry.ts:21-23 | starts empty |
| WidgetRegistries.FactoryRegistry.Has | src/WidgetRegistry.ts:25-27 | true exactly when the label is defined |
| WidgetRegistries.FactoryRegistry.Define | src/WidgetRegistry.ts:29-34 | performs `define` on the stored map, leaving it unchanged on the error |
| WidgetRegistries.FactoryRegistry.Get | src/WidgetRegistry.ts:36-56 | performs `get` on the stored map, a stored constructor included |
| WidgetRegistries.DefineThenHas | src/WidgetRegistry.ts:21-34 | on a new registry, `define` succeeds and `has` then reports the label |
| CustomElements.WidgetPropertyFromAttribute | src/customElements.ts:173-181 | targets the descriptor's `propertyName`, by default the attribute's name; the value is the attribute value, the conversion function applied to it, or the descriptor's fixed value |
| CustomElements.WithProperty | src/customElements.ts:234-236 | `assign({}, properties, {[name]: value})`: sets that one property and keeps every other |
| CustomElements.AfterAttributeChanged | src/customElements.ts:324-337 | the properties after an attribute change are still a well-formed bag: each own key listed once, in order, with a value |
| CustomElements.UndeclaredAttributeIgnored | src/customElements.ts:324-337 | a change to an attribute no descriptor declares leaves the widget's properties unchanged |
| CustomElements.AttributeChangeKeepsOthers | src/customElements.ts:324-337 | an attribute change affects no property other than the ones its descriptors target |
| CustomElements.LastMatchingDescriptorWins | src/customElements.ts:327-335 | when several descriptors name the attribute, the last one decides the stored value |
| CustomElements.AttributeProperties | src/customElements.ts:216-221 | the initial properties hold a property for every declared attribute |
| CustomElements.EventProperties | src/customElements.ts:268-277 | adding event properties keeps every property already present |
| CustomElements.EventPropertiesDefined | src/customElements.ts:268-277 | every declared event gets a function-valued property |
| CustomElements.EventsKeepAttributes | src/customElements.ts:268-277 | a property no event names keeps its value from the attributes |
| CustomElements.Accessors | src/customElements.ts:223-265 | accessors are defined for every attribute's target property and every declared property, and a property descriptor wins over an attribute of the same name |
| CustomElements.AttributeAccessors | src/customElements.ts:225-241 | every attribute's target property gets an attribute accessor |
| CustomElements.PropertyAccessorRoundTrip | src/customElements.ts:247-259 | reading a property accessor after setting it gives the stored value (through `setValue`) seen through `getValue` |
| CustomElements.AttributeAccessorRoundTrip | src/customElements.ts:228-237 | reading an attribute accessor after setting it gives the converted value |
| CustomElements.ReadAttributes | src/customElements.ts:216-221 | the attribute loop builds the initial properties |
| CustomElements.DefineAccessors | src/customElements.ts:223-265 | the two descriptor loops build the accessor table |
| CustomElements.AddEventProperties | src/customElements.ts:268-277 | the event loop adds one dispatching function per event |
| CustomElements.CustomElement.constructor | src/customElements.ts:127-132 | keeps the descriptor lists and the element's attributes; the element has no widget instance yet and no accessors |
| CustomElements.CustomElement.Initialize | src/customElements.ts:205-314 | the initial properties come from the attributes, then the events; the accessors are defined; the element gets a new widget instance, which starts with no properties and receives the initial ones now only when the children do not wait to connect |
| CustomElements.CustomElement.HandleAttributeChanged | src/customElements.ts:324-337 | with a widget instance, its properties after an attribute change are as the attribute descriptors prescribe; before `initializeElement`, a watched attribute throws a TypeError (there is no instance to read) and an unwatched one changes nothing |
| CustomElements.CustomElement.GetProperty | src/customElements.ts:229-251 | reads through the accessor defined for the name, if any |
| CustomElements.CustomElement.SetProperty | src/customElements.ts:232-259 | writes through the accessor defined for the name; an undefined name changes nothing |
| Events.AddHandler | src/Evented.ts:6-14 | appends the handler to the list of its event type, creating the list when missing; other types keep their lists |
| Events.AddHandlerKeepsLists | src/Evented.ts:6-14 | no registered event type ever has an empty list |
| Events.RegistrationOrder | src/Evented.ts:6-14 | two handlers registered for one type follow the earlier ones, in registration order |
| Events.Evented.constructor | src/Evented.ts:4 | starts with no handlers |
| Events.Evented.On | src/Evented.ts:6-14 | registers the handler as `AddHandler` states |
| Events.Evented.Emit | src/Evented.ts:16-24 | calls exactly the handlers of the event's type, in registration order, and none for an unknown type |
| Destroyables.IndexOf | src/bases/Destroyable.ts:24 | `indexOf` returns -1 exactly when the handle is absent, and otherwise its first position |
| Destroyables.SpliceFrom | src/bases/Destroyable.ts:24 | `splice(start)` keeps the handles before `start`; `splice(-1)` drops the last one |
| Destroyables.ReleaseTruncates | src/bases/Destroyable.ts:22-27 | releasing an owned handle removes it and every handle owned after it, and keeps the ones before |
| Destroyables.ReleaseMissingDropsLast | src/bases/Destroyable.ts:24 | releasing a handle no longer in the list drops the last owned handle instead |
| Destroyables.DestroyCalls | src/bases/Destroyable.ts:32-34 | exactly the truthy handles with a `destroy` method are destroyed |
| Destroyables.DestroyCallsAll | src/bases/Destroyable.ts:32-34 | when every handle can be destroyed, all are destroyed, in ownership order |
| Destroyables.Destroyable.constructor | src/bases/Destroyable.ts:15-17 | starts with no handles, not destroyed |
| Destroyables.Destroyable.Own | src/bases/Destroyable.ts:19-36 | appends the handle; after `destroy` it throws "Call made to destroyed method" and changes nothing |
| Destroyables.Destroyable.Release | src/bases/Destroyable.ts:23-26 | the returned handle's `destroy` splices the list at the handle's index and destroys the handle; a handle without `destroy` is a TypeError |
| Destroyables.Destroyable.Destroy | src/bases/Destroyable.ts:30-39 | the first call destroys the handles and resolves to true; later calls resolve to false and destroy nothing |
| Destroyables.DestroyThenOwn | src/bases/Destroyable.ts:30-39 | after `destroy`, `own` fails and a second `destroy` does nothing |
| ChildMatching.Same | src/vdom4.ts:273-295 | two element nodes match exactly when their tags and keys are equal; two widget nodes match exactly when the second names its constructor directly (not by a registry label), the constructors are identical and the keys are equal; nodes of different kinds never match |
| ChildMatching.SameReflexive | src/vdom4.ts:273-295 | every element node, and every widget node with a direct constructor, matches itself |
| ChildMatching.LabelledWidgetNeverSame | src/vdom4.ts:283-285 | no node matches a widget node whose constructor is a registry label |
| ChildMatching.FirstSame | src/vdom4.ts:297-304 | the first index from `start` on whose child matches, or -1 exactly when none does |
| ChildMatching.FindIndexOfChild | src/vdom4.ts:297-304 | the search loop returns that first matching index |
| ChildMatching.PairChildren | src/vdom4.ts:563-586 | the pairing loops of `_process` build the instruction list of the pairing specification |
| ChildMatching.NextPassInRange | src/vdom4.ts:566-580 | every instruction of the first pairing loop, as written, names an existing old and new position |
| ChildMatching.PairingInRange | src/vdom4.ts:566-586 | every instruction of the pairing as written names an existing old and new position, even when one old child is named twice |
| ChildMatching.NextPassCountNext | src/vdom4.ts:566-580 | after n new children, each of them appears as `next` in exactly one instruction |
| ChildMatching.NewChildHandledOnce | src/vdom4.ts:566-586 | every new child appears as `next` in exactly one instruction |
| ChildMatching.NextPassShape | src/vdom4.ts:566-580 | each instruction of the first loop is an update of a child matched at its own index, a removal of a child matched elsewhere, or a creation of a child not matched at its own index |
| ChildMatching.UpdateOrCreate | src/vdom4.ts:569-579 | a new child is updated in place exactly when the search from its own index finds it there, and is created otherwise |
| ChildMatching.RemovalsHaveNoNext | src/vdom4.ts:582-586 | the closing loop only removes old children whose index was not found |
| ChildMatching.RemovalsComplete | src/vdom4.ts:582-586 | every old index that was not found is removed |
| ChildMatching.UnmatchedOldChildRemoved | src/vdom4.ts:566-586 | an old child that no new child matched is removed |
| ChildMatching.DoubleRemoval | src/vdom4.ts:566-586 | as written, the old children `span, span, div` replaced by `div, div` give two removals of the old `div` |
| ChildMatching.FirstUnfound | src/vdom4.ts:569 | corrected search: the first matching index from `start` on that was not found already, or -1 when there is none |
| ChildMatching.FindUnfoundChild | src/vdom4.ts:569 | the corrected search loop returns that index |
| ChildMatching.PairChildrenDistinct | src/vdom4.ts:563-586 | the corrected pairing loops build the corrected pairing specification |
| ChildMatching.DistinctPassCounts | src/vdom4.ts:566-580 | in the corrected first loop, each new child so far appears once as `next`, and each old child appears as `current` exactly when it was found |
| ChildMatching.OldChildHandledOnce | src/vdom4.ts:566-586 | with the corrected search, every old child appears as `current` in exactly one instruction |
| ChildMatching.DistinctNewChildHandledOnce | src/vdom4.ts:566-586 | with the corrected search, every new child appears as `next` in exactly one instruction |
| ChildMatching.DistinctPairingInRange | src/vdom4.ts:566-586 | every corrected instruction refers to valid old and new indexes |
| DomProperties.ClassList | src/vdom4.ts:349-350 | a `classes` value that is an array gives its entries; any other value gives a single entry |
| DomProperties.TokensOfHas | src/vdom4.ts:306-322 | a class token belongs to a list of entries exactly when it is a space-separated piece of one of them |
| DomProperties.AddAllIsUnion | src/vdom4.ts:306-313 | adding each entry in turn adds exactly all their tokens to the class list |
| DomProperties.RemoveAllIsDifference | src/vdom4.ts:315-322 | removing each entry in turn removes exactly all their tokens from the class list |
| DomProperties.IndexOf | src/vdom4.ts:361 | `indexOf` returns -1 exactly when the entry is absent, and otherwise its first position |
| DomProperties.MatchPreviousFacts | src/vdom4.ts:357-368 | the matching loop only removes tokens of previous entries; it removes every previous token absent from the new classes; the entries left to add are new entries, including every new entry no previous entry equals |
| DomProperties.StaleTokensRemovedAsWritten | src/vdom4.ts:348-377 | as written, a previous token that the new classes lack is removed from the element |
| DomProperties.RepeatedPreviousEntryLosesClass | src/vdom4.ts:356-371 | as written, previous classes `["a", "a"]` replaced by `["a"]` leave the element without `a`; the corrected rule keeps it |
| DomProperties.MatchedThenAdded | src/vdom4.ts:356-371 | corrected rule: after the matching loop, adding every new entry gives the old list minus the stale previous tokens, plus the new tokens |
| DomProperties.ReconcileExact | src/vdom4.ts:348-377 | corrected rule: the class list afterwards is the old list minus the previous tokens the new classes lack, plus all new tokens |
| DomProperties.ClearingValueHasNoTokens | src/vdom4.ts:352 | a falsy or empty `classes` value contributes no token |
| DomProperties.OperationIsOneShot | src/vdom4.ts:133-148 | a non-function node operation (`focus`, `blur`, `scrollIntoView`, `click`) fires exactly when it turns from falsy to truthy |
| DomProperties.StylesWrittenExact | src/vdom4.ts:380-391 | a style is written exactly when its new value differs from the old one, and a falsy value is written as the empty string; other styles are untouched |
| DomProperties.ValueGuard | src/vdom4.ts:396-406 | the `value` field is written only when it differs, and then only if the user's typed value is still shown or, with no typed value, the property changed; writing it clears the typed value; no other field changes |
| DomProperties.EventNameDetermines | src/vdom4.ts:409-410 | two `on` properties with the same event name are the same property |
| DomProperties.EventUpdated | src/vdom4.ts:150-174 | the new handler is registered for the event, and no other listener is added |
| DomProperties.OtherWritten | src/vdom4.ts:392-424 | other properties leave classes, styles and calls alone; `key` and unchanged values change nothing; the only listener added is the new handler of an `on` function property |
| DomProperties.KeyStep | src/vdom4.ts:344-426 | one property that does not throw changes the class list only when it is `classes` (by the rule as written: matched entries spliced out, only the rest added) and the styles only when it is `styles` |
| DomProperties.OtherKeyStep | src/vdom4.ts:378-425 | a property other than `classes` leaves the class list alone, and the styles too unless it is `styles` |
| DomProperties.Reached | src/vdom4.ts:344-381 | the names the property loop gets through: the longest prefix before the first `styles` that is null or undefined, where `Object.keys` throws (class-token throws are not modelled) |
| DomProperties.ReachedAt | src/vdom4.ts:344-381 | a prefix with no throwing `styles`, followed by one or by the end, is the part the loop gets through, class tokens being read as well formed |
| DomProperties.ThrowsIffNullishStyles | src/vdom4.ts:344-381 | with class tokens read as well formed, `setProperties` throws exactly when the new properties have a `styles` key that is null or undefined |
| DomProperties.OrphansRemovedExact | src/vdom4.ts:176-193 | the listener of every `on` property that the new properties leave falsy is removed |
| DomProperties.KeysAppliedClasses | src/vdom4.ts:344-377 | over the property loop, the class list is changed once, by the `classes` rule as written, when `classes` is among the names, and is untouched otherwise |
| DomProperties.ClassesAfterSetProperties | src/vdom4.ts:324-377 | after `setProperties`, a `classes` property the loop reaches sets the class list by the rule as written; one after a throwing `styles` leaves it alone; without one, all previous tokens are removed |
| DomProperties.MatchKeepsNewTokens | src/vdom4.ts:357-368 | when the element carries the previous entries' tokens and no two previous entries share one, every token of the new entries survives the matching loop or is among the entries left to add |
| DomProperties.UnmatchedKeeps | src/vdom4.ts:361-364 | a new token removed with an unmatched previous entry belongs to an entry left to add |
| DomProperties.MatchedKeeps | src/vdom4.ts:361-366 | striking off a matched previous entry keeps every other left-over token |
| DomProperties.NotInLastEntry | src/vdom4.ts:357-364 | a token the earlier previous entries removed is not a token of the last one, when previous entries share no token |
| DomProperties.StrikeKeepsToken | src/vdom4.ts:366 | splicing one entry out of a list keeps every token another entry carries |
| DomProperties.AsWrittenIsReconcile | src/vdom4.ts:348-377 | the rule as written agrees with the corrected one when the element carries the previous tokens and no two previous entries share a token |
| DomProperties.ClassesAfterSetPropertiesExact | src/vdom4.ts:324-377 | under the same conditions, `setProperties` with a `classes` property leaves the old class list minus the stale previous tokens, plus the new ones |
| DomProperties.KeysAppliedListeners | src/vdom4.ts:344-426 | every listener the property loop adds is the handler of an `on` function property |
| DomProperties.ListenersAfterSetProperties | src/vdom4.ts:324-427 | after `setProperties`, orphaned event listeners are gone, and every new listener is the handler of an `on` function property of the new properties |
| DomProperties.FiredExact | src/vdom4.ts:378-379 | the node operations performed are exactly those among the names that fire |
| DomProperties.KeysAppliedCalls | src/vdom4.ts:344-426 | the property loop appends exactly the fired node operations to the calls |
| DomProperties.CallsAfterSetProperties | src/vdom4.ts:324-427 | `setProperties` appends to the calls exactly the node operations of the new properties that fire |
| DomProperties.DomElement.constructor | src/vdom4.ts:324-329 | a new element has no classes, styles, fields, attributes, calls or listeners |
| DomProperties.DomElement.AddClasses | src/vdom4.ts:306-313 | adds the tokens of a truthy class string |
| DomProperties.DomElement.RemoveClasses | src/vdom4.ts:315-322 | removes the tokens of a truthy class string |
| DomProperties.DomElement.AddEach | src/vdom4.ts:369-376 | adds every entry in turn, each as `addClasses` does (no token throws) |
| DomProperties.DomElement.RemoveEach | src/vdom4.ts:333-355 | removes every entry in turn, each as `removeClasses` does (no token throws) |
| DomProperties.DomElement.ReconcileClasses | src/vdom4.ts:348-377 | applies the `classes` rule as written: stale previous entries are removed, matched entries are spliced out of the new list, and only the rest are added |
| DomProperties.DomElement.MatchEach | src/vdom4.ts:357-368 | the matching loop leaves the class list and the entries left to add that the as-written matching specifies: a matched previous entry is spliced out of the new entries, an unmatched one is removed from the element |
| DomProperties.DomElement.NodeOperation | src/vdom4.ts:133-148 | records the operation exactly when it fires |
| DomProperties.DomElement.SetStyles | src/vdom4.ts:380-391 | a null or undefined value is a TypeError and writes nothing; otherwise it writes the styles for the new value's own keys |
| DomProperties.DomElement.WriteStyles | src/vdom4.ts:383-391 | the style loop writes the styles as specified for the given names |
| DomProperties.DomElement.RemoveOrphanedEvents | src/vdom4.ts:176-193 | removes the listeners of the orphaned `on` properties, over the previous keys in order |
| DomProperties.DomElement.SetValue | src/vdom4.ts:396-406 | applies the guarded `value` write |
| DomProperties.DomElement.SetOther | src/vdom4.ts:392-424 | writes one other property: an event, an attribute, a scroll position or a plain field |
| DomProperties.DomElement.SetProperties | src/vdom4.ts:324-427 | the element state afterwards is the `setProperties` specification applied to the state before, and the result is a TypeError exactly when a `styles` value is null or undefined (the one throw modelled) |
| DomProperties.DomElement.ApplyKeys | src/vdom4.ts:344-426 | the property loop applies each name in turn until a throwing `styles`, and reports the TypeError exactly then |
| DomProperties.DomElement.ApplyKey | src/vdom4.ts:345-425 | one property is applied according to its kind; a null or undefined `styles` is a TypeError that changes nothing |
| DomProperties.DomElement.ApplyOtherKey | src/vdom4.ts:378-425 | a property other than `classes` is applied according to its kind, with the same TypeError for `styles` |
| DomProperties.DomElement.SetClasses | src/vdom4.ts:348-377 | the `classes` round changes only the class list, as one loop step specifies; class-token throws are not modelled |
| DomProperties.DomElement.SetField | src/vdom4.ts:392-424 | a falsy value replacing a string is written as the empty string, then the `value` guard or the last branch applies |
| TargetTree.Position | src/vdom4.ts:510 | the first position of a child in its parent's child list |
| TargetTree.Without | src/vdom4.ts:510-519 | removing a node from a child list keeps every other child and keeps the list free of duplicates |
| TargetTree.Create | src/vdom4.ts:771-775 | `createElement`/`createTextNode` add one fresh node with no parent and no children; a consistent tree stays consistent |
| TargetTree.Detach | src/vdom4.ts:510-519 | taking a node out of its parent clears its parent link and changes no other node's links, except the old parent's child list |
| TargetTree.DetachConsistent | src/vdom4.ts:510-519 | detaching keeps the tree consistent and leaves the node in no child list |
| TargetTree.AppendChild | src/vdom4.ts:512 | `appendChild` succeeds exactly when both nodes exist and differ (the one hierarchy error modelled is a node appended to itself); the node then becomes the parent's last child |
| TargetTree.AppendChildConsistent | src/vdom4.ts:512 | `appendChild` keeps parent links and child lists in agreement |
| TargetTree.Adopt | src/vdom4.ts:510-512 | gives the node its new parent and the parent its new child list |
| TargetTree.Attach | src/vdom4.ts:510-512 | adopting a detached node into a child list that fits keeps the tree consistent |
| TargetTree.PlaceBefore | src/vdom4.ts:510 | the reference child's list with the node placed before it holds exactly the old children and the node |
| TargetTree.PlaceBeforeDistinct | src/vdom4.ts:510 | placing a new node keeps the child list free of duplicates |
| TargetTree.InsertBefore | src/vdom4.ts:510 | `insertBefore` succeeds only when the reference node is a child of the parent and the node is not the parent itself (the one hierarchy error modelled); the inserted node then has that parent |
| TargetTree.InsertBeforeConsistent | src/vdom4.ts:510 | `insertBefore` keeps the tree consistent |
| TargetTree.RemoveChild | src/vdom4.ts:519 | `removeChild` succeeds exactly when the node is a child of the parent; the node then has no parent |
| TargetTree.RemoveChildConsistent | src/vdom4.ts:519 | `removeChild` keeps the tree consistent and the node leaves the parent's child list |
| TargetTree.ReplaceChild | src/vdom4.ts:792 | `replaceChild` succeeds only when the old node is a child of the parent; the new node takes its parent and the old one is detached |
| RenderTables.Ancestors | src/vdom4.ts:229-245 | the wrappers `findParentNodes` visits: each is a recorded wrapper nearer the root than the last, and the chain is empty exactly when the node has no recorded parent |
| RenderTables.FirstElementWithNode | src/vdom4.ts:234-235 | the index of the first wrapper of a chain that is an element with a target node, or -1 exactly when none is |
| RenderTables.FirstWidget | src/vdom4.ts:236-237 | the index of the first widget wrapper of a chain, or -1 exactly when none is |
| RenderTables.ContinueStep | src/vdom4.ts:232-243 | the whole-chain description of the walk agrees with its step-by-step loop: looking at one wrapper, then continuing up the rest |
| RenderTables.NearestWidgetAncestor | src/vdom4.ts:229-245 | the widget wrapper found is the nearest ancestor widget wrapper, and it is missing exactly when no ancestor is a widget |
| RenderTables.FirstWidgetNearest | src/vdom4.ts:236-237 | along a chain of decreasing depth, no wrapper deeper than the first widget wrapper is a widget wrapper |
| RenderTables.NearestElementAncestor | src/vdom4.ts:229-245 | the target node found is that of the nearest ancestor element with a node, and it is missing exactly when no ancestor element has one |
| RenderTables.FirstElementNearest | src/vdom4.ts:234-235 | along a chain of decreasing depth, no wrapper deeper than the first element with a node is one |
| RenderTables.InsertBeforeWalk | src/vdom4.ts:614-638 | a node found to insert before is the attached target node of some recorded sibling |
| RenderTables.WalkWithoutSiblings | src/vdom4.ts:614-638 | when neither the new node nor any wrapper above it has a recorded sibling, the walk ends with nothing to insert before (the node is appended) |
| RenderTables.AncestorsSameShape | src/vdom4.ts:229-245 | the ancestor chain depends only on the nodes and depths of the wrappers |
| RenderTables.FirstsSameShape | src/vdom4.ts:233-238 | the first element and first widget of a chain depend only on nodes and element target nodes |
| RenderTables.ParentNodesSameShape | src/vdom4.ts:229-245 | recording widget target nodes or children does not change what `findParentNodes` returns |
| Reconciler.NodesOf | src/vdom4.ts:563-565 | the nodes of a list of wrappers, in order, with a missing wrapper read as undefined |
| Reconciler.Renderer.constructor | src/vdom4.ts:430-446 | a new renderer is asynchronous, has no registry, empty queues and identity tables, and renders into the document body |
| Reconciler.Renderer.RenderedToWrapper | src/vdom4.ts:195-227 | a TypeError, with the tables unchanged, exactly when some rendered item is a string, `null` or `undefined`, which cannot key the parent WeakMap; otherwise one fresh wrapper per rendered node, one level below the parent, recorded under that parent and chained to the next one in the sibling table; every other entry is kept |
| Reconciler.Renderer.WrapRendered | src/vdom4.ts:203-225 | with node objects only: one fresh wrapper per rendered node, consecutive from the next id, one level below the parent, recorded under it and chained as siblings; all other entries kept |
| Reconciler.Renderer.WrapEach | src/vdom4.ts:203-225 | the loop of `renderedToWrapper` over node objects: fresh consecutive wrappers from one template, each under the parent and each the sibling of the one before it |
| Reconciler.Renderer.FindParentNodes | src/vdom4.ts:229-245 | the loop returns what the whole-chain description finds (and so, by the `RenderTables` lemmas, the nearest ancestor element and widget) |
| Reconciler.Renderer.FindInsertBefore | src/vdom4.ts:614-638 | the loop returns what the walk description finds, with a bound larger than any chain of wrappers |
| Reconciler.Renderer.WrapChildren | src/vdom4.ts:775-783 | the children of a node are wrapped under its wrapper, and only that wrapper's recorded children change; a TypeError that changes nothing exactly when one child is a string, `null` or `undefined` |
| Reconciler.Renderer.CreateDom | src/vdom4.ts:769-784 | `_createDom` makes a target node exactly for text and tagged element nodes, records it in the wrapper and wraps the node's children; it fails with a TypeError, after recording the node, exactly when a child is a string, `null` or `undefined`; a node without a target node leaves the tree and tables alone |
| Reconciler.Renderer.CreateRecordedDom | src/vdom4.ts:604-605 | the new target node is recorded in the wrapper and, when its children wrap, in the target-node-to-wrapper table; when `_createDom` makes no node, recording `undefined` in the WeakMap is a TypeError and nothing changes; a primitive child is a TypeError too |
| Reconciler.Renderer.CreateAndAdopt | src/vdom4.ts:604-611 | a TypeError exactly when no target node is made or a child is a string, `null` or `undefined`; otherwise the nearest widget ancestor without a target node adopts it, and the parent nodes returned are those `findParentNodes` gives |
| Reconciler.Renderer.AdoptDomNode | src/vdom4.ts:607-611 | a widget wrapper takes the new target node only when it has none, and this does not change what `findParentNodes` returns |
| Reconciler.Renderer.CreateInstruction | src/vdom4.ts:612-650 | a `create` instruction for the new wrapper with its parent nodes, preceded by the diff of its children when it has any; a node to insert before is the attached node of a recorded sibling |
| Reconciler.Renderer.CreateElement | src/vdom4.ts:603-650 | the create-element branch: a node-less VNode, or one with a string, `null` or `undefined` child, is a TypeError with no instruction; otherwise the target node is made and recorded, an ancestor widget adopts it, and the instruction carries the parent nodes `findParentNodes` finds |
| Reconciler.Renderer.ResolveCtor | src/vdom4.ts:697-716 | null and undefined nodes are errors, a constructor is used as given, and a label found in a registry resolves to a widget node's constructor |
| Reconciler.Renderer.CreateWidget | src/vdom4.ts:697-740 | `_createWidget` fails exactly when the constructor cannot be resolved, or when the first render returns a string, `null` or `undefined` item (a TypeError after the instance is recorded); otherwise a new instance is recorded with the node's properties and children and one render, and its rendered nodes are wrapped under the widget |
| Reconciler.Renderer.UpdateWidget | src/vdom4.ts:742-760 | `_updateWidget` fails exactly when the wrapper has no known instance, or when a re-render returns a string, `null` or `undefined` item (a TypeError); otherwise the instance takes the new properties and children, re-renders exactly when it is dirty or they changed, and stays dirty only if it invalidated itself while rendering |
| Reconciler.Renderer.RenderIfDirty | src/vdom4.ts:749-759 | a dirty instance is rendered and its nodes wrapped, a TypeError exactly when one of them is a string, `null` or `undefined`; a clean one keeps its previous children wrappers |
| Reconciler.Renderer.UpdateWidgetItem | src/vdom4.ts:671-676 | the update-widget branch: the wrapper takes over the instance, the instance points to the new wrapper, and the old and new children are queued for diffing |
| Reconciler.Renderer.UpdateDom | src/vdom4.ts:786-802 | `_updateDom` replaces a text node whose text changed and otherwise keeps the target node, wrapping the new children (a string, `null` or `undefined` child is a TypeError before any property is set) and setting its properties by the rules as written (a null or undefined `styles` is a TypeError) |
| Reconciler.Renderer.UpdateText | src/vdom4.ts:789-793 | a changed text node is replaced in its parent by a fresh text node |
| Reconciler.Renderer.UpdateInPlace | src/vdom4.ts:794-800 | the new wrapper keeps the old target node and wraps the new children, failing with a TypeError exactly when one is a string, `null` or `undefined`; otherwise the node's properties are set from the old and new properties as `setProperties` does, and the TypeError of a null or undefined `styles` is passed on |
| Reconciler.Renderer.ReplaceText | src/vdom4.ts:790-793 | the fresh text node replaces the old one through `replaceChild`; without a parent node this is a TypeError and nothing changes |
| Reconciler.Renderer.SetNodeProperties | src/vdom4.ts:797 | the target node's element state becomes what `setProperties` specifies; a missing node or a null or undefined `styles` is a TypeError |
| Reconciler.Renderer.UpdateElement | src/vdom4.ts:657-670 | the update-element branch: a TypeError when the target node has no recorded wrapper; otherwise the new wrapper takes its place in the target-node table and its children are queued for diffing |
| Reconciler.Renderer.UpdateRecorded | src/vdom4.ts:660-663 | the old target node leaves the target-node table and the new one maps to the new wrapper |
| Reconciler.Renderer.CheckKeyedParent | src/vdom4.ts:664-668 | the keyed-node check throws a TypeError exactly when there is no parent widget or a keyed node's parent widget has no instance |
| Reconciler.Renderer.RemoveElement | src/vdom4.ts:678-687 | the element wrapper leaves the sibling, parent and target-node tables, and a `delete` instruction follows exactly when its node is attached |
| Reconciler.Renderer.RemoveWidget | src/vdom4.ts:688-692 | the instance's wrapper leaves the sibling, parent and instance tables and its children are queued for removal; a wrapper whose instance is not recorded is a TypeError |
| Reconciler.Renderer.ProcessOne | src/vdom4.ts:601-695 | identical or kind-mismatched pairs do nothing; every branch keeps the wrapper tables growing and valid |
| Reconciler.Renderer.MarkEach | src/vdom4.ts:566-568 | every new child is marked with whether there were previous siblings, and nothing else changes |
| Reconciler.Renderer.PairChildren | src/vdom4.ts:563-586 | the instructions are the pairing as written (with `findIndexOfChild`) over the wrappers' nodes, each in range of the two lists, after marking the new children |
| Reconciler.Renderer.Process | src/vdom4.ts:559-599 | `_process` pushes its items onto the render queue, and an error leaves the queue as it was |
| Reconciler.Renderer.ApplyInstruction | src/vdom4.ts:504-522 | a `create` places the node under its parent node (before the given node when one is found); a `delete` detaches an attached node |
| Reconciler.Renderer.RunDomInstructionQueue | src/vdom4.ts:504-522 | the queue is worked from the end and emptied, and an error leaves the instructions not yet applied |
| Reconciler.Renderer.RunRenderQueue | src/vdom4.ts:492-502 | the render and target-tree queues are both empty when the pass ends without error |
| Reconciler.Renderer.QueueInvalidation | src/vdom4.ts:531-547 | a fresh widget wrapper for the instance, at the same depth and under the same parent as its current one, is queued for an update from it |
| Reconciler.Renderer.UpdateInvalidated | src/vdom4.ts:484-488 | a queued invalidation updates the widget and queues the diff of its children, failing exactly when the instance is unknown or the re-render returns a string, `null` or `undefined` item |
| Reconciler.Renderer.RunNextInvalidation | src/vdom4.ts:481-489 | the last queued invalidation is taken off and its render pass completes |
| Reconciler.Renderer.RunInvalidationQueue | src/vdom4.ts:479-490 | the pass clears the schedule flag and empties the invalidation queue; an empty queue changes nothing |
| Reconciler.Renderer.Schedule | src/vdom4.ts:466-474 | in sync mode the queue runs at once; otherwise at most one animation frame is requested and nothing else changes |
| Reconciler.Renderer.Invalidate | src/vdom4.ts:722-728 | an invalidation while rendering, or of an instance not in the tree, only marks it dirty; otherwise it is queued and scheduled |
| Reconciler.Renderer.SetSync | src/vdom4.ts:448-450 | the sync flag takes the new value |
| Reconciler.Renderer.SetRegistry | src/vdom4.ts:452-454 | the registry takes the new value |
| Reconciler.Renderer.QueueRoot | src/vdom4.ts:456-463 | `append` wraps the render result at depth 1 under a fake wrapper for the root node and queues it for creation |
| Reconciler.Renderer.Append | src/vdom4.ts:456-464 | after `append` the root node is the given one (the body otherwise); a render result that is a string, `null` or `undefined` is a TypeError that queues nothing; otherwise a complete pass leaves both queues empty |

## Left out

- Reconciler.Renderer.ProcessOne: its own contract states only the cases that do nothing (identical wrappers, an element paired with a widget) and the table invariants; what each branch does is stated by the branch methods it calls (`CreateElement`, `CreateWidget`, `UpdateElement`, `UpdateWidgetItem`, `RemoveElement`, `RemoveWidget`).
- Reconciler.Renderer.Process: states how the render queue grows; the effect of each instruction is stated by the branch methods, not gathered into one contract.
- Reconciler.Renderer.RunRenderQueue: the drain is bounded by the renderer's `fuel` (a render that keeps producing work makes the source loop forever); running out is returned as an error, and the contract states the emptied queues, not the final tree.
- Reconciler.Renderer.RunInvalidationQueue: states the emptied queue and the cleared schedule flag, not the final tree.
- RenderTables.InsertBeforeWalk: the walk is bounded by a step count; a walk that would not end in the source (a sibling that is neither an element nor a widget wrapper, or a cycle) is an error outcome. `Reconciler.Renderer.FindInsertBefore` passes a bound larger than any chain of wrappers.
- Reconciler.Renderer.ApplyInstruction: `instanceData.nodeHandler.add` for keyed nodes is a call into the newer widget base, which is not part of this model; only the check that the parent widget has an instance is kept.
- The newer `WidgetBase` (render bodies, `__setProperties__`, `__setChildren__`, `registry.base`) is not part of this model: render results, the "properties changed" decision and local registry lookups are inputs (`Reconciler.Widgets`).
- The browser DOM is replaced by `TargetTree`: ids with parent links and ordered child lists. Element attributes other than classes, styles, `value`, listeners and one-shot operations, `innerHTML` and scroll positions are not modelled.
- `requestAnimationFrame` is a counter of requested frames and a pending flag; the frame callback is `RunInvalidationQueue`, called by the environment.
- A thrown TypeError (reading a property of undefined, a missing map entry) is an error outcome that ends the current pass and keeps the changes made before it. A missing map entry stands for `undefined`.
- Object identity is an explicit reference number. The renderer's WeakMaps are maps keyed by wrapper, instance and target-node ids. The source keys its parent table by the node object, not by its wrapper: a node object rendered in two places (a shared node, or one a widget returns again) has one parent entry there, and one per wrapper here.
- Reconciler.Renderer.RemoveElement: deletes the parent entry of the removed wrapper only; where the source deletes the entry of a node object that is also rendered elsewhere, that other place loses its parent too, which the model does not capture.
- Reconciler.Renderer.RemoveWidget: the same for the parent entry of the removed widget wrapper.
- Reconciler.Renderer.QueueInvalidation: the new wrapper gets the old wrapper's parent as its own entry; in the source, the node object shared with other places takes the write, which the model does not capture.
- Reconciler.Renderer.RenderedToWrapper: on the TypeError for a primitive item, the parent entries the source writes for the items before it are not kept; the table is unchanged.
- DomProperties.DomElement.AddClasses: `classList.add` throws for a token that is empty (a class string with a leading, trailing or doubled space gives an empty piece of `split(' ')`: SyntaxError) or holds other whitespace such as a tab (InvalidCharacterError); `.split` throws for a truthy entry that is not a string. The model reads a non-string entry as absent and adds every piece, so these throws are not modelled.
- DomProperties.DomElement.RemoveClasses: the same throws of `classList.remove` and `.split` are not modelled.
- DomProperties.DomElement.AddEach: inherits those unmodelled class-token throws.
- DomProperties.DomElement.RemoveEach: inherits those unmodelled class-token throws.
- DomProperties.DomElement.ReconcileClasses: inherits those unmodelled class-token throws.
- DomProperties.DomElement.MatchEach: inherits those unmodelled class-token throws.
- DomProperties.DomElement.SetClasses: inherits those unmodelled class-token throws.
- DomProperties.DomElement.ApplyKey: the error it returns is the nullish-`styles` TypeError only, never a class-token throw.
- DomProperties.DomElement.ApplyKeys: the error it returns is the nullish-`styles` TypeError only, never a class-token throw.
- DomProperties.DomElement.SetProperties: the error it returns is the nullish-`styles` TypeError only, never a class-token throw.
- DomProperties.Reached: the property loop is stated to stop only at a nullish `styles`, not at a class-token throw.
- DomProperties.ReachedAt: the property loop is stated to stop only at a nullish `styles`, not at a class-token throw.
- DomProperties.ThrowsIffNullishStyles: the property loop is stated to stop only at a nullish `styles`, not at a class-token throw.
- Reconciler.Renderer.SetNodeProperties: passes on the nullish-`styles` error of `setProperties`, but no class-token throw.
- Reconciler.Renderer.UpdateDom: passes on the nullish-`styles` error of `setProperties`, but no class-token throw.
- Reconciler.Renderer.UpdateInPlace: passes on the nullish-`styles` error of `setProperties`, but no class-token throw.
- TargetTree.AppendChild: the DOM raises HierarchyRequestError when the node is the parent or any ancestor of it; only the first case is modelled; an ancestor appended below its descendant is not refused.
- TargetTree.InsertBefore: the same; only a node inserted into itself is refused.
- Numbers are integers; NaN, floating point and `Number` parsing are not modelled.
- JsValues.PropSet: keeps every new key last, in insertion order; `Object.keys` puts integer-like property names first, in ascending order, which is not modelled.
- PropertyDiff.ResultKeysInNewOrder: the order stated is the insertion order of the new properties' keys, which is the `Object.keys` order only when no property name is integer-like.
- PropertyDiff.DiffProperties: the changed keys and result keys follow insertion order, as above; for integer-like property names the source's `Object.keys` order differs.
- LegacyWidgetBase.DiffProperties: the changed keys follow insertion order, as above.
- NestedKeyMap.MultiMap.StoredValues: the values are a set, so the insertion order and the repeats of the source's `values()` are not stated; the nested levels are maps, which have no order.
- NestedKeyMap.MultiMap.KeyPaths: the stored key paths are a set, so the insertion order of `keys()` is not stated, for the same reason.
- NestedKeyMap.MultiMap.EntryPairs: the entries are a set of pairs, so the insertion order of `entries()` is not stated, for the same reason.
- WidgetRegistries.GetEntry: a stored constructor called without `new` throws, as compiled ES2015 classes do; a down-level compiled constructor that returns normally (the source would then store `undefined` and throw at `.then`) is not modelled.
- DeepAssign.DeepCopy: new identities are numbered from a counter the widget keeps above every identity its properties reach; they are fresh with respect to those values, not to the whole heap. Getters, symbols and inherited enumerable keys are not copied.
- `NestedKeyMap.MultiMap`: the nested `Map`s are one trie value that each update rebuilds; aliasing of the inner maps is not captured.
- The reverse lookup of `Themeable.ts` reads through object prototypes for names such as `constructor`; the model's lookup holds only own keys.
- `_checkForDuplicates` in `Themeable.ts` only writes a console warning; `IsDuplicate` models the test it relies on, and the warning is left out.
- `decorate` passes nodes to a modifier that may mutate them; the model records which nodes are selected and in what order, not the modifier's effect.
- `handleEvent` and `createListener` of `util/eventHandler.ts` (the DOM listener object) are not modelled; `InvokeHandler` models the dispatch once the handler is known.
- The `.then` step of `WidgetRegistry.get` that stores a loaded constructor, and the registry promises of `WidgetBase.ts`, are asynchronous and left out.
- `CustomElementWrapper`, the `connected` and child handling, the `initialization` callback and the `CustomEvent` dispatch of `customElements.ts` are DOM plumbing and left out.
- Console output is left out everywhere.
- `src/vdom2.ts` and `src/vdom3.ts` are entirely commented out; `Stateful.ts`, the dojo-core `Evented` base, `Projector.ts` (the Maquette wrapper), injectors, containers and decorators are not part of this model.

## Findings

| source | as written | input that shows it | evidently intended | confidence | as-written member | corrected member |
|---|---|---|---|---|---|---|
| src/util/eventHandler.ts:23-27 | a handler array whose first item is not a function calls `invokeHandler(handler[i])` for each item, without the node and the event | `[[f]]` dispatched for an event: `f` is called with `undefined` for both | the inner handlers receive the same node and event as the outer call | not executed | EventListeners.NestedHandlerLosesEvent | EventListeners.PassingOnKeepsEvent |
| src/vdom4.ts:566-586 | `findIndexOfChild` ignores the old indexes already matched, so two new children can match the same later old child | old children `span, span, div`, new children `div, div`: the old `div` gets two remove instructions | each old child is updated or removed exactly once | not executed | ChildMatching.DoubleRemoval | ChildMatching.OldChildHandledOnce |
| src/vdom4.ts:356-371 | each previous class entry is looked up in the new list and the match spliced out, so a repeated previous entry finds nothing the second time and is removed | previous classes `["a", "a"]`, new classes `["a"]`: the element ends without `a` | the element's classes are the old ones, minus the previous classes no longer listed, plus the new ones | not executed | DomProperties.RepeatedPreviousEntryLosesClass | DomProperties.ReconcileExact |

The members that model the running code use the code as written: `Reconciler.Renderer.PairChildren` emits `ChildMatching.Pairing`, and `DomProperties.DomElement.SetProperties` applies `ReconcileAsWritten`. The corrected members are definitions with their properties proved beside them; `DomProperties.AsWrittenIsReconcile` states when the two class rules agree.
