/**
 * What the plugin reads from the host's scene graph: nodes, instances,
 * their main components and the component sets those belong to. The
 * host's asynchronous lookups (`getMainComponentAsync`) are resolved in
 * advance and stored in the records.
 */
module Scene {
  import opened Wrappers
  import opened Utils

  datatype PropertyType = Variant | BooleanProperty | TextProperty | InstanceSwap

  /** One entry of a component set's `componentPropertyDefinitions`. */
  datatype PropertyDefinition = PropertyDefinition(propType: PropertyType, variantOptions: Option<seq<string>>)

  /** The parent of a main component: a COMPONENT_SET with its property definitions (in key order), or another node. */
  datatype ComponentParent =
    | ComponentSet(id: string, name: string, definitions: seq<(string, PropertyDefinition)>)
    | OtherParent(id: string)

  datatype MainComponent = MainComponent(id: string, name: string, parent: Option<ComponentParent>)

  /**
   * An INSTANCE node: its id, name, resolved main component (None when it
   * cannot be resolved) and `componentProperties` as entries in key order.
   */
  datatype Instance = Instance(
    id: string,
    name: string,
    mainComponent: Option<MainComponent>,
    componentProperties: seq<(string, JsValue)>)

  /** A scene node: an instance, or any other node; leaves have no children. */
  datatype SceneNode =
    | InstanceNode(instance: Instance, children: seq<SceneNode>)
    | OtherNode(id: string, name: string, children: seq<SceneNode>)

  /** `obj[key]` on an object given by its entries: the first entry with that key. */
  function Lookup<V>(entries: seq<(string, V)>, key: string): (r: Option<V>)
    ensures r.Some? <==> exists k :: 0 <= k < |entries| && entries[k].0 == key
    ensures r.Some? ==> exists k :: 0 <= k < |entries| && entries[k] == (key, r.value)
  {
    if entries == [] then None
    else if entries[0].0 == key then Some(entries[0].1)
    else Lookup(entries[1..], key)
  }

  /** The component set an instance's main component sits in, if any. */
  function ComponentSetOf(inst: Instance): Option<ComponentParent>
  {
    if inst.mainComponent.Some? && inst.mainComponent.value.parent.Some?
       && inst.mainComponent.value.parent.value.ComponentSet?
    then inst.mainComponent.value.parent
    else None
  }

  /**
   * The string value of property `prop` on an instance: `''` when the
   * property is missing or falsy, else `extractPropertyValue` of it.
   */
  function PropertyValue(inst: Instance, prop: string): string
  {
    match Lookup(inst.componentProperties, prop)
    case Some(v) => if Truthy(v) then ExtractPropertyValue(v) else ""
    case None => ""
  }

  /** The node ids of a list of instances. */
  function NodeIds(instances: seq<Instance>): (r: seq<string>)
    ensures |r| == |instances| && forall i :: 0 <= i < |instances| ==> r[i] == instances[i].id
  {
    seq(|instances|, i requires 0 <= i < |instances| => instances[i].id)
  }
}
