/**
 * The attribute and property plumbing of `src/customElements.ts`: how a custom element's
 * declared attributes, properties and events become properties of the widget it wraps.
 *
 * The wrapped widget is represented by its property bag; `setProperties` replaces the bag.
 * Value-conversion functions of descriptors are opaque functions on values.
 */
module CustomElements {
  import opened JsValues

  /** A descriptor's `value`: absent, a conversion function, or any other (non-function) value. */
  datatype ValueField = Unset | Convert(f: Value -> Value) | Fixed(v: Value)

  datatype AttributeDescriptor = AttributeDescriptor(attributeName: string, propertyName: Option<string>, value: ValueField)

  datatype PropertyDescriptor = PropertyDescriptor(
    propertyName: string,
    widgetPropertyName: Option<string>,
    getValue: Option<Value -> Value>,
    setValue: Option<Value -> Value>)

  datatype EventDescriptor = EventDescriptor(propertyName: string, eventName: string)

  /** The accessor `Object.defineProperties` installs on the element under one name. */
  datatype Accessor = FromAttribute(attribute: AttributeDescriptor) | FromProperty(property: PropertyDescriptor)

  /** `getAttribute(name)`: the string, or null when the element has no such attribute. */
  function AttributeValue(attrs: map<string, string>, name: string): Value
  {
    if name in attrs then Str(attrs[name]) else Null
  }

  /** The widget property an attribute descriptor targets: its `propertyName`, by default the attribute's name. */
  function TargetName(d: AttributeDescriptor, attributeName: string): string
  {
    if d.propertyName.Some? then d.propertyName.value else attributeName
  }

  /** `getWidgetPropertyFromAttribute(attributeName, attributeValue, descriptor)` */
  function WidgetPropertyFromAttribute(attributeName: string, attributeValue: Value, d: AttributeDescriptor): (r: (string, Value))
    ensures r.0 == TargetName(d, attributeName)
    ensures d.value.Unset? ==> r.1 == attributeValue
    ensures d.value.Convert? ==> r.1 == d.value.f(attributeValue)
    ensures d.value.Fixed? ==> r.1 == d.value.v
  {
    var value := match d.value
      case Unset => attributeValue
      case Convert(f) => f(attributeValue)
      case Fixed(v) => v;
    (TargetName(d, attributeName), value)
  }

  /** `assign({}, properties, { [name]: value })` on a well-formed bag. */
  function WithProperty(properties: Props, name: string, value: Value): (r: Props)
    requires WellFormed(properties)
    ensures WellFormed(r)
    ensures name in r.vals && r.vals[name] == value
    ensures forall k :: k != name ==> (k in r.vals <==> k in properties.vals)
    ensures forall k :: k != name && k in properties.vals ==> r.vals[k] == properties.vals[k]
  {
    PropSet(properties, name, value)
  }

  // ---------------------------------------------------------------- attribute changes

  /** The widget properties after `handleAttributeChanged` has run over the descriptors `ds`. */
  function AfterAttributeChanged(ds: seq<AttributeDescriptor>, name: string, newValue: Value, properties: Props): (r: Props)
    requires WellFormed(properties)
    ensures WellFormed(r)
    decreases |ds|
  {
    if |ds| == 0 then properties
    else
      var before := AfterAttributeChanged(ds[..|ds| - 1], name, newValue, properties);
      var d := ds[|ds| - 1];
      if d.attributeName == name then
        var (pn, pv) := WidgetPropertyFromAttribute(name, newValue, d);
        WithProperty(before, pn, pv)
      else before
  }

  /** A change to an attribute no descriptor declares leaves the widget properties alone. */
  lemma {:induction false} UndeclaredAttributeIgnored(ds: seq<AttributeDescriptor>, name: string, newValue: Value, properties: Props)
    requires WellFormed(properties)
    requires forall i :: 0 <= i < |ds| ==> ds[i].attributeName != name
    ensures AfterAttributeChanged(ds, name, newValue, properties) == properties
    decreases |ds|
  {
    if |ds| > 0 {
      UndeclaredAttributeIgnored(ds[..|ds| - 1], name, newValue, properties);
    }
  }

  /** Only the properties the matching descriptors target change; all others keep their values. */
  lemma {:induction false} AttributeChangeKeepsOthers(ds: seq<AttributeDescriptor>, name: string, newValue: Value, properties: Props, k: string)
    requires WellFormed(properties)
    requires forall i :: 0 <= i < |ds| && ds[i].attributeName == name ==> TargetName(ds[i], name) != k
    ensures k in AfterAttributeChanged(ds, name, newValue, properties).vals <==> k in properties.vals
    ensures k in properties.vals ==> AfterAttributeChanged(ds, name, newValue, properties).vals[k] == properties.vals[k]
    decreases |ds|
  {
    if |ds| > 0 {
      AttributeChangeKeepsOthers(ds[..|ds| - 1], name, newValue, properties, k);
    }
  }

  /** The last matching descriptor decides the value its property ends up with. */
  lemma LastMatchingDescriptorWins(ds: seq<AttributeDescriptor>, name: string, newValue: Value, properties: Props)
    requires WellFormed(properties) && |ds| > 0 && ds[|ds| - 1].attributeName == name
    ensures var (pn, pv) := WidgetPropertyFromAttribute(name, newValue, ds[|ds| - 1]);
      AfterAttributeChanged(ds, name, newValue, properties).vals[pn] == pv
  {
  }

  // ---------------------------------------------------------------- initial properties

  /** `initialProperties` after the attribute `forEach`: one entry per declared attribute. */
  function AttributeProperties(attrs: seq<AttributeDescriptor>, dom: map<string, string>): (r: Props)
    ensures WellFormed(r)
    ensures forall i :: 0 <= i < |attrs| ==> TargetName(attrs[i], attrs[i].attributeName) in r.vals
    decreases |attrs|
  {
    if |attrs| == 0 then EmptyProps
    else
      var before := AttributeProperties(attrs[..|attrs| - 1], dom);
      var a := attrs[|attrs| - 1];
      var (pn, pv) := WidgetPropertyFromAttribute(a.attributeName, AttributeValue(dom, a.attributeName), a);
      WithProperty(before, pn, pv)
  }

  /**
   * `initialProperties` after the first `n` steps of the event `forEach`: each of those
   * declared events' property holds a new dispatching function (the `i`-th one has reference
   * `firstRef + i`).
   */
  function EventProperties(events: seq<EventDescriptor>, n: nat, firstRef: nat, properties: Props): (r: Props)
    requires WellFormed(properties) && n <= |events|
    ensures WellFormed(r)
    ensures forall k :: k in properties.vals ==> k in r.vals
    decreases n
  {
    if n == 0 then properties
    else WithProperty(EventProperties(events, n - 1, firstRef, properties), events[n - 1].propertyName, Func(firstRef + n - 1, false))
  }

  /** Every declared event's property ends up holding a dispatching function. */
  lemma {:induction false} EventPropertiesDefined(events: seq<EventDescriptor>, n: nat, firstRef: nat, properties: Props, i: nat)
    requires WellFormed(properties) && i < n <= |events|
    ensures events[i].propertyName in EventProperties(events, n, firstRef, properties).vals
    ensures EventProperties(events, n, firstRef, properties).vals[events[i].propertyName].Func?
    decreases n
  {
    var before := EventProperties(events, n - 1, firstRef, properties);
    EventPropertiesNext(events, n - 1, firstRef, properties);
    if i < n - 1 {
      EventPropertiesDefined(events, n - 1, firstRef, properties, i);
      var name := events[i].propertyName;
      if name != events[n - 1].propertyName {
        ShadowFree(before, events[n - 1].propertyName, Func(firstRef + n - 1, false), name);
      }
    }
  }

  /** An attribute that no event shadows keeps the value read from the element. */
  lemma {:induction false} EventsKeepAttributes(events: seq<EventDescriptor>, n: nat, firstRef: nat, properties: Props, k: string)
    requires WellFormed(properties) && k in properties.vals && n <= |events|
    requires forall i :: 0 <= i < |events| ==> events[i].propertyName != k
    ensures EventProperties(events, n, firstRef, properties).vals[k] == properties.vals[k]
    decreases n
  {
    if n > 0 {
      EventsKeepAttributes(events, n - 1, firstRef, properties, k);
      var before := EventProperties(events, n - 1, firstRef, properties);
      var name := events[n - 1].propertyName;
      assert name != k;
      EventPropertiesNext(events, n - 1, firstRef, properties);
      ShadowFree(before, name, Func(firstRef + n - 1, false), k);
    }
  }

  /** The element accessors after the two `reduce` calls: property descriptors override attribute ones. */
  function Accessors(attrs: seq<AttributeDescriptor>, props: seq<PropertyDescriptor>): (r: map<string, Accessor>)
    ensures forall i :: 0 <= i < |attrs| ==> TargetName(attrs[i], attrs[i].attributeName) in r
    ensures forall i :: 0 <= i < |props| ==> props[i].propertyName in r && r[props[i].propertyName].FromProperty?
    decreases |props|
  {
    if |props| == 0 then AttributeAccessors(attrs)
    else
      var p := props[|props| - 1];
      Accessors(attrs, props[..|props| - 1])[p.propertyName := FromProperty(p)]
  }

  function AttributeAccessors(attrs: seq<AttributeDescriptor>): (r: map<string, Accessor>)
    ensures forall i :: 0 <= i < |attrs| ==> TargetName(attrs[i], attrs[i].attributeName) in r
    ensures forall n :: n in r ==> r[n].FromAttribute?
    decreases |attrs|
  {
    if |attrs| == 0 then map[]
    else
      var a := attrs[|attrs| - 1];
      AttributeAccessors(attrs[..|attrs| - 1])[TargetName(a, a.attributeName) := FromAttribute(a)]
  }

  // ---------------------------------------------------------------- accessors

  /** What reading the element property through `acc` yields. */
  function AccessorGet(acc: Accessor, properties: Props): Value
  {
    match acc
    case FromAttribute(a) => PropGet(properties, TargetName(a, a.attributeName))
    case FromProperty(p) =>
      var v := PropGet(properties, if p.widgetPropertyName.Some? then p.widgetPropertyName.value else p.propertyName);
      if p.getValue.Some? then p.getValue.value(v) else v
  }

  /** The widget properties after writing `value` to the element property through `acc`. */
  function AccessorSet(acc: Accessor, properties: Props, value: Value): (r: Props)
    requires WellFormed(properties)
    ensures WellFormed(r)
  {
    match acc
    case FromAttribute(a) =>
      var (pn, pv) := WidgetPropertyFromAttribute(a.attributeName, value, a);
      WithProperty(properties, pn, pv)
    case FromProperty(p) =>
      WithProperty(properties, if p.widgetPropertyName.Some? then p.widgetPropertyName.value else p.propertyName,
                   if p.setValue.Some? then p.setValue.value(value) else value)
  }

  /**
   * A property accessor reads back what was written, passed through `setValue` and then
   * `getValue`; without either it is the value itself.
   */
  lemma PropertyAccessorRoundTrip(p: PropertyDescriptor, properties: Props, value: Value)
    requires WellFormed(properties)
    ensures var stored := if p.setValue.Some? then p.setValue.value(value) else value;
      AccessorGet(FromProperty(p), AccessorSet(FromProperty(p), properties, value))
        == if p.getValue.Some? then p.getValue.value(stored) else stored
  {
  }

  /** An attribute accessor reads back the converted value of what was written. */
  lemma AttributeAccessorRoundTrip(a: AttributeDescriptor, properties: Props, value: Value)
    requires WellFormed(properties)
    ensures AccessorGet(FromAttribute(a), AccessorSet(FromAttribute(a), properties, value))
      == WidgetPropertyFromAttribute(a.attributeName, value, a).1
  {
  }

  /** The attribute `forEach` of `initializeElement`. */
  method ReadAttributes(attributes: seq<AttributeDescriptor>, dom: map<string, string>) returns (initial: Props)
    ensures initial == AttributeProperties(attributes, dom)
  {
    initial := EmptyProps;
    var i := 0;
    while i < |attributes|
      invariant 0 <= i <= |attributes|
      invariant initial == AttributeProperties(attributes[..i], dom)
    {
      assert attributes[..i + 1][..i] == attributes[..i];
      var a := attributes[i];
      var (pn, pv) := WidgetPropertyFromAttribute(a.attributeName, AttributeValue(dom, a.attributeName), a);
      initial := WithProperty(initial, pn, pv);
      i := i + 1;
    }
    assert attributes[..i] == attributes;
  }

  /** The two `reduce` calls building the accessor map of `initializeElement`. */
  method DefineAccessors(attributes: seq<AttributeDescriptor>, properties: seq<PropertyDescriptor>) returns (defined: map<string, Accessor>)
    ensures defined == Accessors(attributes, properties)
  {
    defined := map[];
    var i := 0;
    while i < |attributes|
      invariant 0 <= i <= |attributes|
      invariant defined == AttributeAccessors(attributes[..i])
    {
      assert attributes[..i + 1][..i] == attributes[..i];
      var a := attributes[i];
      defined := defined[TargetName(a, a.attributeName) := FromAttribute(a)];
      i := i + 1;
    }
    assert attributes[..i] == attributes;
    i := 0;
    while i < |properties|
      invariant 0 <= i <= |properties|
      invariant defined == Accessors(attributes, properties[..i])
    {
      assert properties[..i + 1][..i] == properties[..i];
      defined := defined[properties[i].propertyName := FromProperty(properties[i])];
      i := i + 1;
    }
    assert properties[..i] == properties;
  }

  /** One more step of the event `forEach`. */
  lemma EventPropertiesNext(events: seq<EventDescriptor>, i: nat, firstRef: nat, properties: Props)
    requires WellFormed(properties) && i < |events|
    ensures EventProperties(events, i + 1, firstRef, properties)
      == WithProperty(EventProperties(events, i, firstRef, properties), events[i].propertyName, Func(firstRef + i, false))
  {
  }

  /** Setting one property leaves every other one as it was. */
  lemma ShadowFree(properties: Props, name: string, value: Value, k: string)
    requires WellFormed(properties) && k in properties.vals && k != name
    ensures k in WithProperty(properties, name, value).vals
    ensures WithProperty(properties, name, value).vals[k] == properties.vals[k]
  {
  }

  /** The event `forEach` of `initializeElement`. */
  method AddEventProperties(events: seq<EventDescriptor>, firstRef: nat, fromAttributes: Props) returns (initial: Props)
    requires WellFormed(fromAttributes)
    ensures initial == EventProperties(events, |events|, firstRef, fromAttributes)
  {
    initial := fromAttributes;
    var i := 0;
    while i < |events|
      invariant 0 <= i <= |events|
      invariant initial == EventProperties(events, i, firstRef, fromAttributes)
    {
      EventPropertiesNext(events, i, firstRef, fromAttributes);
      initial := WithProperty(initial, events[i].propertyName, Func(firstRef + i, false));
      i := i + 1;
    }
  }

  // ---------------------------------------------------------------- the element

  const TypeError := "TypeError"

  /** Whether some attribute descriptor watches the attribute `name`. */
  predicate Declared(attributes: seq<AttributeDescriptor>, name: string)
  {
    exists i :: 0 <= i < |attributes| && attributes[i].attributeName == name
  }

  class CustomElement {
    const attributes: seq<AttributeDescriptor>
    const properties: seq<PropertyDescriptor>
    const events: seq<EventDescriptor>
    /** The element's HTML attributes. */
    var dom: map<string, string>
    /**
     * The properties of the element's widget instance; `None` while `getWidgetInstance()` is
     * still undefined, before `initializeElement` sets the instance.
     */
    var widgetProperties: Option<Props>
    /** The element properties defined by `initializeElement`. */
    var accessors: map<string, Accessor>

    /** The properties are a well-formed bag, and accessors exist only once there is an instance. */
    ghost predicate Valid()
      reads this
    {
      && (widgetProperties.Some? ==> WellFormed(widgetProperties.value))
      && (widgetProperties.None? ==> accessors == map[])
    }

    constructor(attributes: seq<AttributeDescriptor>, properties: seq<PropertyDescriptor>, events: seq<EventDescriptor>, dom: map<string, string>)
      ensures this.attributes == attributes && this.properties == properties && this.events == events
      ensures this.dom == dom && widgetProperties == None && accessors == map[]
      ensures Valid()
    {
      this.attributes := attributes;
      this.properties := properties;
      this.events := events;
      this.dom := dom;
      widgetProperties := None;
      accessors := map[];
    }

    /**
     * `initializeElement`: computes the initial properties, defines the element accessors,
     * makes a new widget instance, which starts with no properties and, when the element's
     * children are not wrapped widgets waiting to connect, takes the initial properties, and
     * sets it as the element's instance.
     */
    method Initialize(firstRef: nat, passPropertiesNow: bool) returns (initial: Props)
      requires Valid()
      modifies this
      ensures initial == EventProperties(events, |events|, firstRef, AttributeProperties(attributes, dom))
      ensures accessors == Accessors(attributes, properties)
      ensures widgetProperties == Some(if passPropertiesNow then initial else EmptyProps)
      ensures dom == old(dom) && Valid()
    {
      initial := ReadAttributes(attributes, dom);
      accessors := DefineAccessors(attributes, properties);
      initial := AddEventProperties(events, firstRef, initial);
      widgetProperties := Some(if passPropertiesNow then initial else EmptyProps);
    }

    /**
     * `handleAttributeChanged(element, name, newValue, oldValue)`: before the element has a
     * widget instance, a watched attribute throws a TypeError and changes nothing.
     */
    method HandleAttributeChanged(name: string, newValue: Value) returns (error: Option<string>)
      requires Valid()
      modifies this
      ensures error.Some? <==> old(widgetProperties).None? && Declared(attributes, name)
      ensures error.Some? ==> error == Some(TypeError)
      ensures old(widgetProperties).None? ==> widgetProperties == None
      ensures old(widgetProperties).Some? ==>
        widgetProperties == Some(AfterAttributeChanged(attributes, name, newValue, old(widgetProperties).value))
      ensures dom == old(dom) && accessors == old(accessors) && Valid()
    {
      if widgetProperties.None? {
        return if Declared(attributes, name) then Some(TypeError) else None;
      }
      var current := widgetProperties.value;
      var i := 0;
      while i < |attributes|
        invariant 0 <= i <= |attributes|
        invariant current == AfterAttributeChanged(attributes[..i], name, newValue, old(widgetProperties).value)
      {
        assert attributes[..i + 1][..i] == attributes[..i];
        var a := attributes[i];
        if a.attributeName == name {
          var (pn, pv) := WidgetPropertyFromAttribute(name, newValue, a);
          current := WithProperty(current, pn, pv);
        }
        i := i + 1;
      }
      assert attributes[..i] == attributes;
      widgetProperties := Some(current);
      error := None;
    }

    /** Reading an element property defined by `initializeElement`; None for any other name. */
    method GetProperty(name: string) returns (r: Option<Value>)
      requires Valid()
      ensures name !in accessors ==> r == None
      ensures name in accessors ==> r == Some(AccessorGet(accessors[name], widgetProperties.value))
    {
      if name !in accessors {
        return None;
      }
      return Some(AccessorGet(accessors[name], widgetProperties.value));
    }

    /** Writing an element property defined by `initializeElement`; other names are not modelled. */
    method SetProperty(name: string, value: Value)
      requires Valid()
      modifies this
      ensures name in old(accessors) ==> widgetProperties == Some(AccessorSet(old(accessors)[name], old(widgetProperties).value, value))
      ensures name !in old(accessors) ==> widgetProperties == old(widgetProperties)
      ensures accessors == old(accessors) && dom == old(dom) && Valid()
    {
      if name in accessors {
        widgetProperties := Some(AccessorSet(accessors[name], widgetProperties.value, value));
      }
    }
  }
}
