/**
 * The widget label registry of `src/WidgetRegistry.ts`: a map from labels to a widget
 * constructor, a promise of one, or a factory function that produces such a promise.
 * Promise settlement (the `.then` step that stores the resolved constructor) is not modelled.
 */
module WidgetRegistries {
  import opened JsValues

  datatype RegistryItem =
    | Constructor(ref: nat)
    | Promised(promise: nat)
    | Factory(ref: nat)

  /**
   * What `get` hands back: null, the stored promise, or the promise chained on a new one;
   * or the exception it throws.
   */
  datatype GetOutcome = NoEntry | SamePromise(promise: nat) | Chained(on: nat) | Thrown(message: string)

  /** Calling a widget class without `new`. */
  const ConstructorCallError := "TypeError: class constructor cannot be invoked without 'new'"

  function DuplicateMessage(factoryLabel: string): string
  {
    "factory has already been registered for '" + factoryLabel + "'"
  }

  /** The registry after `define`, or the error it throws. */
  function DefineEntry(registry: map<string, RegistryItem>, factoryLabel: string, item: RegistryItem): (r: Result<map<string, RegistryItem>>)
    ensures r.Err? <==> factoryLabel in registry
    ensures r.Err? ==> r.message == DuplicateMessage(factoryLabel)
    ensures r.Ok? ==> factoryLabel in r.value && r.value[factoryLabel] == item
    ensures r.Ok? ==> forall other :: other != factoryLabel ==> (other in r.value <==> other in registry)
    ensures r.Ok? ==> forall other :: other in registry ==> r.value[other] == registry[other]
  {
    if factoryLabel in registry then Err(DuplicateMessage(factoryLabel)) else Ok(registry[factoryLabel := item])
  }

  /**
   * The outcome of `get` and the registry after it.  `called` is the promise the stored
   * function returns when `get` calls it.  A stored constructor is not a promise either,
   * so `get` calls it too, without `new`, and that call throws before anything is stored.
   */
  function GetEntry(registry: map<string, RegistryItem>, factoryLabel: string, called: nat): (r: (GetOutcome, map<string, RegistryItem>))
    ensures factoryLabel !in registry ==> r == (NoEntry, registry)
    ensures factoryLabel in registry && registry[factoryLabel].Promised? ==> r == (SamePromise(registry[factoryLabel].promise), registry)
    ensures factoryLabel in registry && registry[factoryLabel].Constructor? ==> r == (Thrown(ConstructorCallError), registry)
    ensures factoryLabel in registry && registry[factoryLabel].Factory? ==>
      r.0 == Chained(called) && r.1.Keys == registry.Keys && r.1[factoryLabel] == Promised(called)
    ensures forall other :: other in registry && other != factoryLabel ==> other in r.1 && r.1[other] == registry[other]
  {
    if factoryLabel !in registry then (NoEntry, registry)
    else match registry[factoryLabel]
      case Promised(p) => (SamePromise(p), registry)
      case Constructor(_) => (Thrown(ConstructorCallError), registry)
      case Factory(_) => (Chained(called), registry[factoryLabel := Promised(called)])
  }

  /** A second definition of a label fails whatever the first one stored. */
  lemma DefineTwiceFails(registry: map<string, RegistryItem>, factoryLabel: string, a: RegistryItem, b: RegistryItem)
    requires DefineEntry(registry, factoryLabel, a).Ok?
    ensures DefineEntry(DefineEntry(registry, factoryLabel, a).value, factoryLabel, b) == Err(DuplicateMessage(factoryLabel))
  {
  }

  /** Calling a factory once leaves a promise behind: the next `get` returns that promise. */
  lemma {:induction false} SecondGetReturnsPromise(registry: map<string, RegistryItem>, factoryLabel: string, first: nat, second: nat)
    requires factoryLabel in registry && registry[factoryLabel].Factory?
    ensures GetEntry(GetEntry(registry, factoryLabel, first).1, factoryLabel, second).0 == SamePromise(first)
  {
    var after := GetEntry(registry, factoryLabel, first).1;
    assert after[factoryLabel] == Promised(first);
  }

  class FactoryRegistry {
    var registry: map<string, RegistryItem>

    constructor()
      ensures registry == map[]
    {
      registry := map[];
    }

    /** `has(factoryLabel)` */
    method Has(factoryLabel: string) returns (r: bool)
      ensures r <==> factoryLabel in registry
    {
      return factoryLabel in registry;
    }

    /** `define(factoryLabel, item)`: throws on a label already registered, leaving the map as it was. */
    method Define(factoryLabel: string, item: RegistryItem) returns (r: Result<()>)
      modifies this
      ensures DefineEntry(old(registry), factoryLabel, item).Ok? ==> r == Ok(()) && registry == DefineEntry(old(registry), factoryLabel, item).value
      ensures DefineEntry(old(registry), factoryLabel, item).Err? ==> r == Err(DuplicateMessage(factoryLabel)) && registry == old(registry)
    {
      var known := Has(factoryLabel);
      if known {
        return Err(DuplicateMessage(factoryLabel));
      }
      registry := registry[factoryLabel := item];
      return Ok(());
    }

    /**
     * `get(factoryLabel)`, synchronous part: a factory's promise replaces the factory; a
     * stored constructor makes the call throw.
     */
    method Get(factoryLabel: string, called: nat) returns (r: GetOutcome)
      modifies this
      ensures (r, registry) == GetEntry(old(registry), factoryLabel, called)
    {
      var known := Has(factoryLabel);
      if !known {
        return NoEntry;
      }
      var item := registry[factoryLabel];
      if item.Promised? {
        return SamePromise(item.promise);
      }
      if item.Constructor? {
        return Thrown(ConstructorCallError);
      }
      registry := registry[factoryLabel := Promised(called)];
      return Chained(called);
    }
  }

  /** After `define` on a fresh label, `has` holds for it. */
  method DefineThenHas(factoryLabel: string, item: RegistryItem) returns (defined: Result<()>, present: bool)
    ensures defined == Ok(()) && present
  {
    var reg := new FactoryRegistry();
    defined := reg.Define(factoryLabel, item);
    present := reg.Has(factoryLabel);
  }
}
