/**
 * src/plugin/component-analyzer.ts: finding the instances nested in the
 * selected node, grouping them by component family, and resolving the
 * user's property name to a VARIANT property of the family.
 */
module ComponentAnalyzer {
  import opened Wrappers
  import opened Strings
  import opened Utils
  import opened Scene

  // ---------------------------------------------------------------------
  // Instance discovery
  // ---------------------------------------------------------------------

  /** The instances of a subtree in pre-order: the node itself first, then its children's subtrees in order. */
  function Flatten(n: SceneNode): seq<Instance>
    decreases n
  {
    (if n.InstanceNode? then [n.instance] else []) + FlattenAll(n.children)
  }

  /** The instances of a list of subtrees, one subtree after the other. */
  function FlattenAll(ns: seq<SceneNode>): seq<Instance>
    decreases ns
  {
    if ns == [] then [] else FlattenAll(ns[..|ns| - 1]) + Flatten(ns[|ns| - 1])
  }

  /** Some node of the forest `ns`, at any depth, is an INSTANCE node holding `x`. */
  predicate InForest(ns: seq<SceneNode>, x: Instance)
    decreases ns
  {
    exists k :: 0 <= k < |ns| && ((ns[k].InstanceNode? && ns[k].instance == x) || InForest(ns[k].children, x))
  }

  /**
   * The traversal is complete and adds nothing: an instance is listed
   * exactly when some node of the forest holds it.
   */
  lemma {:induction false} FlattenAllMembers(ns: seq<SceneNode>, x: Instance)
    ensures x in FlattenAll(ns) <==> InForest(ns, x)
    decreases ns, 1
  {
    if ns != [] {
      var init, last := ns[..|ns| - 1], ns[|ns| - 1];
      FlattenAllMembers(init, x);
      FlattenAllMembers(last.children, x);
      if InForest(ns, x) {
        var k :| 0 <= k < |ns| && ((ns[k].InstanceNode? && ns[k].instance == x) || InForest(ns[k].children, x));
        if k < |ns| - 1 {
          assert init[k] == ns[k];
          assert InForest(init, x);
        } else {
          FlattenAllMembers(ns[k].children, x);
        }
      }
      if x in FlattenAll(init) {
        var k :| 0 <= k < |init| && ((init[k].InstanceNode? && init[k].instance == x) || InForest(init[k].children, x));
        assert ns[k] == init[k];
      }
      if x in Flatten(last) {
        assert (last.InstanceNode? && last.instance == x) || x in FlattenAll(last.children);
        assert ns[|ns| - 1] == last;
      }
    }
  }

  /** The root itself is left out: the listed instances are those strictly below it. */
  lemma NestedInstancesAreProperDescendants(root: SceneNode, x: Instance)
    ensures x in FlattenAll(root.children) <==> InForest(root.children, x)
    ensures Flatten(root) == (if root.InstanceNode? then [root.instance] else []) + FlattenAll(root.children)
  {
    FlattenAllMembers(root.children, x);
  }

  /** A root without children has no nested instances. */
  lemma ChildlessRootHasNoNestedInstances(root: SceneNode)
    requires root.children == []
    ensures FlattenAll(root.children) == []
  {
  }

  /** traverse(node), appending to `acc`. */
  method Traverse(node: SceneNode, acc: seq<Instance>) returns (r: seq<Instance>)
    ensures r == acc + Flatten(node)
    decreases node
  {
    r := acc;
    var own := if node.InstanceNode? then [node.instance] else [];
    r := r + own;
    for k := 0 to |node.children|
      invariant r == acc + own + FlattenAll(node.children[..k])
    {
      assert node.children[..k + 1][..k] == node.children[..k];
      r := Traverse(node.children[k], r);
    }
    assert node.children[..|node.children|] == node.children;
  }

  /** findNestedInstances: traverse each child of the root, never the root itself. */
  method FindNestedInstances(root: SceneNode) returns (instances: seq<Instance>)
    ensures instances == FlattenAll(root.children)
    ensures forall x :: x in instances <==> InForest(root.children, x)
  {
    instances := [];
    for k := 0 to |root.children|
      invariant instances == FlattenAll(root.children[..k])
    {
      assert root.children[..k + 1][..k] == root.children[..k];
      instances := Traverse(root.children[k], instances);
    }
    assert root.children[..|root.children|] == root.children;
    forall x ensures x in instances <==> InForest(root.children, x) {
      FlattenAllMembers(root.children, x);
    }
  }

  // ---------------------------------------------------------------------
  // Grouping
  // ---------------------------------------------------------------------

  /** One group: a component set (all its variants) or a standalone component. */
  datatype ComponentInfo = ComponentInfo(
    id: string,
    name: string,
    instances: seq<Instance>,
    properties: map<string, seq<string>>)

  /**
   * The grouping id and name of an instance: its component set's when its
   * main component sits in one, else the main component's own; None when
   * the main component does not resolve.
   */
  function GroupKey(inst: Instance): Option<(string, string)>
  {
    match inst.mainComponent
    case None => None
    case Some(mc) =>
      if mc.parent.Some? && mc.parent.value.ComponentSet?
      then Some((mc.parent.value.id, mc.parent.value.name))
      else Some((mc.id, mc.name))
  }

  predicate HasKey(inst: Instance, id: string)
  {
    GroupKey(inst).Some? && GroupKey(inst).value.0 == id
  }

  /** Position of the group with this id (the Map lookup), or `|groups|`. */
  function GroupIndex(groups: seq<ComponentInfo>, id: string): (r: nat)
    ensures r <= |groups|
    ensures r < |groups| ==> groups[r].id == id
    ensures forall k :: 0 <= k < r ==> groups[k].id != id
  {
    if groups == [] then 0
    else if groups[0].id == id then 0
    else 1 + GroupIndex(groups[1..], id)
  }

  /** `components.find(c => c.id === id)`: the first group with that id. */
  function FindComponent(components: seq<ComponentInfo>, id: string): (r: Option<ComponentInfo>)
    ensures r.Some? <==> exists k :: 0 <= k < |components| && components[k].id == id
    ensures r.Some? ==> r.value.id == id && r.value == components[GroupIndex(components, id)]
  {
    var k := GroupIndex(components, id);
    if k < |components| then Some(components[k]) else None
  }

  /**
   * Appending a definition's variant options to a property's value list;
   * with `dedup`, an option already listed is skipped.
   */
  function AddOptions(list: seq<string>, options: seq<string>, dedup: bool): seq<string>
  {
    if options == [] then list
    else
      var l := AddOptions(list, options[..|options| - 1], dedup);
      var o := options[|options| - 1];
      if dedup && o in l then l else l + [o]
  }

  /** One property name of an instance: ensure its list exists, then add the VARIANT definition's options. */
  function RecordProperty(props: map<string, seq<string>>, name: string,
                          definitions: seq<(string, PropertyDefinition)>, dedup: bool): map<string, seq<string>>
  {
    var p := if name in props then props else props[name := []];
    match Lookup(definitions, name)
    case Some(d) =>
      if d.propType == Variant && d.variantOptions.Some?
      then p[name := AddOptions(p[name], d.variantOptions.value, dedup)]
      else p
    case None => p
  }

  /** All property names of an instance, in key order. */
  function RecordProperties(props: map<string, seq<string>>, entries: seq<(string, JsValue)>,
                            definitions: seq<(string, PropertyDefinition)>, dedup: bool): map<string, seq<string>>
  {
    if entries == [] then props
    else RecordProperty(RecordProperties(props, entries[..|entries| - 1], definitions, dedup),
                        entries[|entries| - 1].0, definitions, dedup)
  }

  /** One step of the grouping loop. */
  function AddInstance(groups: seq<ComponentInfo>, inst: Instance, dedup: bool): seq<ComponentInfo>
  {
    match GroupKey(inst)
    case None => groups
    case Some(key) =>
      var p := GroupIndex(groups, key.0);
      var g := if p < |groups| then groups[p] else ComponentInfo(key.0, key.1, [], map[]);
      var props := match ComponentSetOf(inst)
                   case Some(set_) => RecordProperties(g.properties, inst.componentProperties, set_.definitions, dedup)
                   case None => g.properties;
      var g' := g.(instances := g.instances + [inst], properties := props);
      if p < |groups| then groups[p := g'] else groups + [g']
  }

  /** The groups built from a list of instances, in order. */
  function Grouped(instances: seq<Instance>, dedup: bool): seq<ComponentInfo>
  {
    if instances == [] then []
    else AddInstance(Grouped(instances[..|instances| - 1], dedup), instances[|instances| - 1], dedup)
  }

  /** The instances with a given grouping id, in input order. */
  function WithKey(instances: seq<Instance>, id: string): seq<Instance>
  {
    if instances == [] then []
    else WithKey(instances[..|instances| - 1], id)
         + (if HasKey(instances[|instances| - 1], id) then [instances[|instances| - 1]] else [])
  }

  predicate NoDuplicates(s: seq<string>)
  {
    forall i, j :: 0 <= i < j < |s| ==> s[i] != s[j]
  }

  /** Collects a list of values into a group's list: the old list stays a prefix, and the result holds exactly both lists' values. */
  lemma {:induction false} AddOptionsContents(list: seq<string>, options: seq<string>, dedup: bool)
    ensures |list| <= |AddOptions(list, options, dedup)|
    ensures AddOptions(list, options, dedup)[..|list|] == list
    ensures forall o :: o in AddOptions(list, options, dedup) <==> o in list || o in options
  {
    if options != [] {
      AddOptionsContents(list, options[..|options| - 1], dedup);
      forall o ensures o in options <==> o in options[..|options| - 1] || o == options[|options| - 1] {
        if o in options {
          var k :| 0 <= k < |options| && options[k] == o;
          if k < |options| - 1 { assert options[..|options| - 1][k] == o; }
        }
      }
    }
  }

  /**
   * An independent reading of `includes`-then-`push`, front to back: the
   * options not yet seen, each kept at its first occurrence.
   */
  function FirstSeen(options: seq<string>, seen: seq<string>): (r: seq<string>)
    ensures forall o :: o in r ==> o in options && o !in seen
  {
    if options == [] then []
    else if options[0] in seen then FirstSeen(options[1..], seen)
    else [options[0]] + FirstSeen(options[1..], seen + [options[0]])
  }

  /** Adding two runs of options one after the other is adding their concatenation. */
  lemma {:induction false} AddOptionsAppend(list: seq<string>, a: seq<string>, b: seq<string>, dedup: bool)
    ensures AddOptions(list, a + b, dedup) == AddOptions(AddOptions(list, a, dedup), b, dedup)
  {
    if b == [] {
      assert a + b == a;
    } else {
      AddOptionsAppend(list, a, b[..|b| - 1], dedup);
      assert (a + b)[..|a + b| - 1] == a + b[..|b| - 1];
    }
  }

  /** With de-duplication, the list gains exactly the new options in first-seen order. */
  lemma {:induction false} AddOptionsFirstSeen(list: seq<string>, options: seq<string>)
    ensures AddOptions(list, options, true) == list + FirstSeen(options, list)
    decreases |options|
  {
    if options != [] {
      var o, rest := options[0], options[1..];
      assert options == [o] + rest;
      AddOptionsAppend(list, [o], rest, true);
      assert [o][..0] == [];
      var list' := AddOptions(list, [o], true);
      AddOptionsFirstSeen(list', rest);
      if o !in list {
        assert list' == list + [o];
      }
    }
  }

  /** With de-duplication the list never repeats a value. */
  lemma {:induction false} AddOptionsNoDuplicates(list: seq<string>, options: seq<string>)
    requires NoDuplicates(list)
    ensures NoDuplicates(AddOptions(list, options, true))
  {
    if options != [] {
      AddOptionsNoDuplicates(list, options[..|options| - 1]);
    }
  }

  /** Without de-duplication, options are simply concatenated. */
  lemma {:induction false} AddOptionsConcatenates(list: seq<string>, options: seq<string>)
    ensures AddOptions(list, options, false) == list + options
  {
    if options != [] {
      AddOptionsConcatenates(list, options[..|options| - 1]);
      assert options == options[..|options| - 1] + [options[|options| - 1]];
    }
  }

  predicate AllListsDistinct(props: map<string, seq<string>>)
  {
    forall p :: p in props ==> NoDuplicates(props[p])
  }

  lemma {:induction false} RecordPropertiesNoDuplicates(props: map<string, seq<string>>, entries: seq<(string, JsValue)>,
                                                        definitions: seq<(string, PropertyDefinition)>)
    requires AllListsDistinct(props)
    ensures AllListsDistinct(RecordProperties(props, entries, definitions, true))
  {
    if entries != [] {
      var before := RecordProperties(props, entries[..|entries| - 1], definitions, true);
      RecordPropertiesNoDuplicates(props, entries[..|entries| - 1], definitions);
      var name := entries[|entries| - 1].0;
      var p := if name in before then before else before[name := []];
      assert AllListsDistinct(p);
      if Lookup(definitions, name).Some? {
        AddOptionsNoDuplicates(p[name], Lookup(definitions, name).value.variantOptions.GetOr([]));
      }
    }
  }

  predicate IdsDistinct(groups: seq<ComponentInfo>)
  {
    forall k, l :: 0 <= k < l < |groups| ==> groups[k].id != groups[l].id
  }

  /** Some instance of the list has this grouping id. */
  predicate AnyHasKey(instances: seq<Instance>, id: string)
  {
    exists j :: 0 <= j < |instances| && HasKey(instances[j], id)
  }

  lemma AnyHasKeySnoc(instances: seq<Instance>, id: string)
    requires instances != []
    ensures AnyHasKey(instances, id)
            <==> AnyHasKey(instances[..|instances| - 1], id) || HasKey(instances[|instances| - 1], id)
  {
    var init := instances[..|instances| - 1];
    if AnyHasKey(instances, id) {
      var j :| 0 <= j < |instances| && HasKey(instances[j], id);
      if j < |init| { assert init[j] == instances[j]; }
    }
    if AnyHasKey(init, id) {
      var j :| 0 <= j < |init| && HasKey(init[j], id);
      assert instances[j] == init[j];
    }
  }

  /** What one grouping step does to the groups: the instance joins the group with its id, or opens a new one at the end. */
  lemma AddInstanceEffect(gs: seq<ComponentInfo>, x: Instance, dedup: bool)
    requires IdsDistinct(gs)
    ensures var gs' := AddInstance(gs, x, dedup);
      && |gs'| == |gs| + (if GroupKey(x).Some? && GroupIndex(gs, GroupKey(x).value.0) == |gs| then 1 else 0)
      && (forall k :: 0 <= k < |gs| ==> gs'[k].id == gs[k].id)
      && (|gs'| > |gs| ==> gs'[|gs|].id == GroupKey(x).value.0 && gs'[|gs|].instances == [x])
      && (forall k :: 0 <= k < |gs| ==>
            gs'[k].instances == gs[k].instances + (if HasKey(x, gs[k].id) then [x] else []))
  {
  }

  /** Group ids are pairwise distinct. */
  lemma {:induction false} GroupedIdsDistinct(instances: seq<Instance>, dedup: bool)
    ensures IdsDistinct(Grouped(instances, dedup))
  {
    if instances != [] {
      var init, x := instances[..|instances| - 1], instances[|instances| - 1];
      GroupedIdsDistinct(init, dedup);
      AddInstanceEffect(Grouped(init, dedup), x, dedup);
    }
  }

  /** There is a group for an id exactly when some instance has that id: unresolved instances open no group. */
  lemma {:induction false} GroupedIds(instances: seq<Instance>, dedup: bool, id: string)
    ensures GroupIndex(Grouped(instances, dedup), id) < |Grouped(instances, dedup)| <==> AnyHasKey(instances, id)
  {
    if instances != [] {
      var init, x := instances[..|instances| - 1], instances[|instances| - 1];
      GroupedIds(init, dedup, id);
      GroupedIdsDistinct(init, dedup);
      AnyHasKeySnoc(instances, id);
      var gs := Grouped(init, dedup);
      AddInstanceEffect(gs, x, dedup);
      var gs' := Grouped(instances, dedup);
      if GroupIndex(gs, id) < |gs| {
        assert gs'[GroupIndex(gs, id)].id == id;
      }
    }
  }

  /** Each group holds exactly the instances with its id, in input order. */
  lemma {:induction false} GroupedMembers(instances: seq<Instance>, dedup: bool)
    ensures forall k :: 0 <= k < |Grouped(instances, dedup)| ==>
              Grouped(instances, dedup)[k].instances == WithKey(instances, Grouped(instances, dedup)[k].id)
  {
    if instances != [] {
      var init, x := instances[..|instances| - 1], instances[|instances| - 1];
      GroupedMembers(init, dedup);
      GroupedIdsDistinct(init, dedup);
      var gs := Grouped(init, dedup);
      AddInstanceEffect(gs, x, dedup);
      var gs' := Grouped(instances, dedup);
      forall k | 0 <= k < |gs'| ensures gs'[k].instances == WithKey(instances, gs'[k].id) {
        if k == |gs| {
          GroupedIds(init, dedup, gs'[k].id);
          assert WithKey(init, gs'[k].id) == [] by {
            if WithKey(init, gs'[k].id) != [] { WithKeyNonEmpty(init, gs'[k].id); }
          }
        }
      }
    }
  }

  /** A non-empty WithKey witnesses an instance with that id. */
  lemma {:induction false} WithKeyNonEmpty(instances: seq<Instance>, id: string)
    requires WithKey(instances, id) != []
    ensures AnyHasKey(instances, id)
  {
    var init := instances[..|instances| - 1];
    AnyHasKeySnoc(instances, id);
    if !HasKey(instances[|instances| - 1], id) {
      WithKeyNonEmpty(init, id);
    }
  }

  /** With de-duplication (component-analyzer.ts), no property's value list of any group repeats a value. */
  lemma {:induction false} GroupedPropertiesDistinct(instances: seq<Instance>)
    ensures forall k :: 0 <= k < |Grouped(instances, true)| ==> AllListsDistinct(Grouped(instances, true)[k].properties)
  {
    if instances != [] {
      var init, x := instances[..|instances| - 1], instances[|instances| - 1];
      GroupedPropertiesDistinct(init);
      var gs := Grouped(init, true);
      var key := GroupKey(x);
      if key.Some? {
        var p := GroupIndex(gs, key.value.0);
        var g := if p < |gs| then gs[p] else ComponentInfo(key.value.0, key.value.1, [], map[]);
        if ComponentSetOf(x).Some? {
          RecordPropertiesNoDuplicates(g.properties, x.componentProperties, ComponentSetOf(x).value.definitions);
        }
      }
    }
  }

  /** The definitions list VARIANT options for this property name. */
  predicate ListsOptions(definitions: seq<(string, PropertyDefinition)>, name: string)
  {
    Lookup(definitions, name).Some? && Lookup(definitions, name).value.propType == Variant
    && Lookup(definitions, name).value.variantOptions.Some?
  }

  /**
   * A property whose definition is missing, is not VARIANT or has no
   * options is still recorded when an instance carries it, with an empty
   * list (or the list it already had).
   */
  lemma {:induction false} NonVariantGetsEmptyList(props: map<string, seq<string>>, entries: seq<(string, JsValue)>,
                                                   definitions: seq<(string, PropertyDefinition)>, dedup: bool, name: string)
    requires !ListsOptions(definitions, name)
    ensures var r := RecordProperties(props, entries, definitions, dedup);
            (name in r <==> name in props || exists j :: 0 <= j < |entries| && entries[j].0 == name)
            && (name in r ==> r[name] == if name in props then props[name] else [])
  {
    if entries != [] {
      var init := entries[..|entries| - 1];
      NonVariantGetsEmptyList(props, init, definitions, dedup, name);
      if exists j :: 0 <= j < |init| && init[j].0 == name {
        var j :| 0 <= j < |init| && init[j].0 == name;
        assert entries[j] == init[j];
      }
      if exists j :: 0 <= j < |entries| && entries[j].0 == name {
        var j :| 0 <= j < |entries| && entries[j].0 == name;
        if j < |init| { assert init[j] == entries[j]; }
      }
    }
  }

  /**
   * Lifted to the groups: when no instance with grouping id `id` lists
   * options for the property, its list is empty in that id's group,
   * whatever other groups' definitions say.
   */
  lemma {:induction false} GroupedNonVariantLists(instances: seq<Instance>, dedup: bool, id: string, name: string)
    requires forall j :: 0 <= j < |instances| && HasKey(instances[j], id) && ComponentSetOf(instances[j]).Some? ==>
               !ListsOptions(ComponentSetOf(instances[j]).value.definitions, name)
    ensures forall k :: 0 <= k < |Grouped(instances, dedup)| && Grouped(instances, dedup)[k].id == id
                        && name in Grouped(instances, dedup)[k].properties ==>
              Grouped(instances, dedup)[k].properties[name] == []
  {
    if instances != [] {
      var init, x := instances[..|instances| - 1], instances[|instances| - 1];
      GroupedNonVariantLists(init, dedup, id, name);
      var gs := Grouped(init, dedup);
      var key := GroupKey(x);
      if key.Some? {
        var p := GroupIndex(gs, key.value.0);
        var g := if p < |gs| then gs[p] else ComponentInfo(key.value.0, key.value.1, [], map[]);
        if ComponentSetOf(x).Some? && key.value.0 == id {
          NonVariantGetsEmptyList(g.properties, x.componentProperties, ComponentSetOf(x).value.definitions, dedup, name);
        }
      }
    }
  }

  /** The same, read off one group's own instances. */
  lemma GroupNonVariantLists(instances: seq<Instance>, dedup: bool, k: nat, name: string)
    requires k < |Grouped(instances, dedup)|
    requires forall x :: x in Grouped(instances, dedup)[k].instances && ComponentSetOf(x).Some? ==>
               !ListsOptions(ComponentSetOf(x).value.definitions, name)
    requires name in Grouped(instances, dedup)[k].properties
    ensures Grouped(instances, dedup)[k].properties[name] == []
  {
    var id := Grouped(instances, dedup)[k].id;
    GroupedMembers(instances, dedup);
    forall j | 0 <= j < |instances| && HasKey(instances[j], id) && ComponentSetOf(instances[j]).Some?
      ensures !ListsOptions(ComponentSetOf(instances[j]).value.definitions, name)
    {
      WithKeyHolds(instances, id, j);
    }
    GroupedNonVariantLists(instances, dedup, id, name);
  }

  /**
   * Property values are only recorded from instances whose main component
   * sits in a component set: a group none of whose instances has one
   * records no properties.
   */
  lemma {:induction false} PropertiesOnlyFromComponentSets(instances: seq<Instance>, dedup: bool, id: string)
    requires forall j :: 0 <= j < |instances| && HasKey(instances[j], id) ==> ComponentSetOf(instances[j]).None?
    ensures forall k :: 0 <= k < |Grouped(instances, dedup)| && Grouped(instances, dedup)[k].id == id ==>
              Grouped(instances, dedup)[k].properties == map[]
  {
    if instances != [] {
      PropertiesOnlyFromComponentSets(instances[..|instances| - 1], dedup, id);
    }
  }

  /** Every instance with a grouping id is in that id's list. */
  lemma {:induction false} WithKeyHolds(instances: seq<Instance>, id: string, j: nat)
    requires j < |instances| && HasKey(instances[j], id)
    ensures instances[j] in WithKey(instances, id)
  {
    if j < |instances| - 1 {
      WithKeyHolds(instances[..|instances| - 1], id, j);
    }
  }

  /** The same, read off one group's own instances. */
  lemma GroupWithoutComponentSetHasNoProperties(instances: seq<Instance>, dedup: bool, k: nat)
    requires k < |Grouped(instances, dedup)|
    requires forall x :: x in Grouped(instances, dedup)[k].instances ==> ComponentSetOf(x).None?
    ensures Grouped(instances, dedup)[k].properties == map[]
  {
    var id := Grouped(instances, dedup)[k].id;
    GroupedMembers(instances, dedup);
    forall j | 0 <= j < |instances| && HasKey(instances[j], id) ensures ComponentSetOf(instances[j]).None? {
      WithKeyHolds(instances, id, j);
    }
    PropertiesOnlyFromComponentSets(instances, dedup, id);
  }

  /** A component set's definitions for one VARIANT property `state` with options `a`, `b`. */
  function StateSet(): ComponentParent
  {
    ComponentSet("set", "Button", [("state", PropertyDefinition(Variant, Some(["a", "b"])))])
  }

  function StateInstance(id: string): Instance
  {
    Instance(id, id, Some(MainComponent(id, "variant", Some(StateSet()))), [("state", JsString("a"))])
  }

  /** Adding the options `a`, `b` to an empty list and then again. */
  lemma AddStateOptions(dedup: bool)
    ensures AddOptions([], ["a", "b"], dedup) == ["a", "b"]
    ensures AddOptions(["a", "b"], ["a", "b"], dedup) == if dedup then ["a", "b"] else ["a", "b", "a", "b"]
  {
    var opts := ["a", "b"];
    assert opts[..1] == ["a"] && opts[..1][..0] == [];
    assert AddOptions([], opts[..1], dedup) == ["a"];
    if dedup {
      assert AddOptions(opts, opts[..1], true) == opts;
    } else {
      AddOptionsConcatenates(opts, opts);
      assert opts + opts == ["a", "b", "a", "b"];
    }
  }

  /** Recording a single VARIANT entry adds its definition's options to the entry's list. */
  lemma RecordVariantEntry(props: map<string, seq<string>>, name: string, v: JsValue,
                           definitions: seq<(string, PropertyDefinition)>, options: seq<string>, dedup: bool)
    requires Lookup(definitions, name) == Some(PropertyDefinition(Variant, Some(options)))
    ensures RecordProperties(props, [(name, v)], definitions, dedup)
            == props[name := AddOptions(if name in props then props[name] else [], options, dedup)]
  {
    assert [(name, v)][..0] == [];
  }

  /** Two instances of one component set form one group, recording both instances' properties. */
  lemma TwoOfOneComponentSet(x: Instance, y: Instance, dedup: bool)
    requires GroupKey(x).Some? && GroupKey(y) == GroupKey(x)
    requires ComponentSetOf(x).Some? && ComponentSetOf(y) == ComponentSetOf(x)
    ensures var defs := ComponentSetOf(x).value.definitions;
            Grouped([x, y], dedup)
            == [ComponentInfo(GroupKey(x).value.0, GroupKey(x).value.1, [x, y],
                              RecordProperties(RecordProperties(map[], x.componentProperties, defs, dedup),
                                               y.componentProperties, defs, dedup))]
  {
    var key := GroupKey(x).value;
    var defs := ComponentSetOf(x).value.definitions;
    assert [x, y][..1] == [x] && [x][..0] == [];
    var g1 := ComponentInfo(key.0, key.1, [x], RecordProperties(map[], x.componentProperties, defs, dedup));
    assert GroupIndex([], key.0) == 0;
    var g0 := ComponentInfo(key.0, key.1, [], map[]);
    assert g0.(instances := g0.instances + [x],
               properties := RecordProperties(g0.properties, x.componentProperties, defs, dedup)) == g1;
    assert Grouped([x], dedup) == AddInstance([], x, dedup) == [] + [g1];
    assert GroupIndex([g1], key.0) == 0;
    var g2 := g1.(instances := g1.instances + [y],
                  properties := RecordProperties(g1.properties, y.componentProperties, defs, dedup));
    assert g1.instances + [y] == [x, y];
    assert Grouped([x, y], dedup) == AddInstance([g1], y, dedup) == [g1][0 := g2] == [g2];
  }

  /**
   * code.js:195-197 appends every option without checking for it: two
   * instances of one component set list `state`'s options twice. The
   * de-duplicating loop of component-analyzer.ts:97-101 lists them once.
   */
  lemma LegacyGroupingRepeatsOptions(dedup: bool)
    ensures var g := Grouped([StateInstance("1"), StateInstance("2")], dedup);
            |g| == 1 && "state" in g[0].properties
            && g[0].properties["state"] == if dedup then ["a", "b"] else ["a", "b", "a", "b"]
  {
    var x1, x2 := StateInstance("1"), StateInstance("2");
    var defs := StateSet().definitions;
    var opts := ["a", "b"];
    assert GroupKey(x1) == Some(("set", "Button")) == GroupKey(x2);
    assert ComponentSetOf(x1) == Some(StateSet()) == ComponentSetOf(x2);
    TwoOfOneComponentSet(x1, x2, dedup);
    assert Lookup(defs, "state") == Some(PropertyDefinition(Variant, Some(opts)));
    AddStateOptions(dedup);
    RecordVariantEntry(map[], "state", JsString("a"), defs, opts, dedup);
    RecordVariantEntry(map["state" := opts], "state", JsString("a"), defs, opts, dedup);
  }

  /** Recording an instance's properties (the inner loops of the grouping loop). */
  method RecordComponentProperties(props: map<string, seq<string>>, entries: seq<(string, JsValue)>,
                                   definitions: seq<(string, PropertyDefinition)>, dedup: bool)
    returns (r: map<string, seq<string>>)
    ensures r == RecordProperties(props, entries, definitions, dedup)
  {
    r := props;
    for e := 0 to |entries|
      invariant r == RecordProperties(props, entries[..e], definitions, dedup)
    {
      assert entries[..e + 1][..e] == entries[..e];
      var name := entries[e].0;
      if name !in r {
        r := r[name := []];
      }
      var def := Lookup(definitions, name);
      if def.Some? && def.value.propType == Variant && def.value.variantOptions.Some? {
        var options := def.value.variantOptions.value;
        var list := r[name];
        for o := 0 to |options|
          invariant list == AddOptions(r[name], options[..o], dedup)
        {
          assert options[..o + 1][..o] == options[..o];
          if !dedup || options[o] !in list {
            list := list + [options[o]];
          }
        }
        assert options[..|options|] == options;
        r := r[name := list];
      }
    }
    assert entries[..|entries|] == entries;
  }

  /**
   * groupInstancesByComponent: one pass over the instances, each joining
   * the group of its grouping id (component-analyzer.ts with `dedup`,
   * code.js without).
   */
  method GroupInstances(instances: seq<Instance>, dedup: bool) returns (groups: seq<ComponentInfo>)
    ensures groups == Grouped(instances, dedup)
    ensures IdsDistinct(groups)
    ensures forall k :: 0 <= k < |groups| ==> groups[k].instances == WithKey(instances, groups[k].id)
    ensures forall id :: GroupIndex(groups, id) < |groups| <==> AnyHasKey(instances, id)
  {
    groups := [];
    for k := 0 to |instances|
      invariant groups == Grouped(instances[..k], dedup)
    {
      assert instances[..k + 1][..k] == instances[..k];
      var inst := instances[k];
      if inst.mainComponent.Some? {
        var mc := inst.mainComponent.value;
        var groupingId, groupingName;
        if mc.parent.Some? && mc.parent.value.ComponentSet? {
          groupingId, groupingName := mc.parent.value.id, mc.parent.value.name;
        } else {
          groupingId, groupingName := mc.id, mc.name;
        }
        var p := GroupIndex(groups, groupingId);
        var info := if p < |groups| then groups[p] else ComponentInfo(groupingId, groupingName, [], map[]);
        info := info.(instances := info.instances + [inst]);
        if mc.parent.Some? && mc.parent.value.ComponentSet? {
          var props := RecordComponentProperties(info.properties, inst.componentProperties,
                                                 mc.parent.value.definitions, dedup);
          info := info.(properties := props);
        }
        if p < |groups| {
          groups := groups[p := info];
        } else {
          groups := groups + [info];
        }
      }
    }
    assert instances[..|instances|] == instances;
    GroupedIdsDistinct(instances, dedup);
    GroupedMembers(instances, dedup);
    forall id ensures GroupIndex(groups, id) < |groups| <==> AnyHasKey(instances, id) {
      GroupedIds(instances, dedup, id);
    }
  }

  /** groupInstancesByComponent of component-analyzer.ts: value lists are de-duplicated. */
  method GroupInstancesByComponent(instances: seq<Instance>) returns (groups: seq<ComponentInfo>)
    ensures groups == Grouped(instances, true)
    ensures forall k :: 0 <= k < |groups| ==> AllListsDistinct(groups[k].properties)
  {
    groups := GroupInstances(instances, true);
    GroupedPropertiesDistinct(instances);
  }

  // ---------------------------------------------------------------------
  // Variant resolution
  // ---------------------------------------------------------------------

  datatype PropertyAnalysis = PropertyAnalysis(actualPropertyName: Option<string>, isVariantProperty: bool)

  /** A definition that is of type VARIANT and whose name matches, ignoring case. */
  predicate MatchesVariant(def: (string, PropertyDefinition), primaryProp: string)
  {
    def.1.propType == Variant && SameIgnoringCase(def.0, primaryProp)
  }

  /** Position of the first matching definition, or `|definitions|`. */
  function FirstVariantMatch(definitions: seq<(string, PropertyDefinition)>, primaryProp: string): (k: nat)
    ensures k <= |definitions|
    ensures k < |definitions| ==> MatchesVariant(definitions[k], primaryProp)
    ensures forall j :: 0 <= j < k ==> !MatchesVariant(definitions[j], primaryProp)
  {
    if definitions == [] then 0
    else if MatchesVariant(definitions[0], primaryProp) then 0
    else 1 + FirstVariantMatch(definitions[1..], primaryProp)
  }

  /**
   * findVariantProperty: only the first instance is inspected; if its main
   * component sits in a component set, the first VARIANT definition whose
   * name matches `primaryProp` ignoring case is returned with its own casing.
   */
  function FindVariantProperty(primaryProp: string, instances: seq<Instance>): (r: PropertyAnalysis)
    ensures r.isVariantProperty <==> r.actualPropertyName.Some?
    ensures r.isVariantProperty <==>
              |instances| > 0 && ComponentSetOf(instances[0]).Some?
              && exists k :: 0 <= k < |ComponentSetOf(instances[0]).value.definitions|
                             && MatchesVariant(ComponentSetOf(instances[0]).value.definitions[k], primaryProp)
    ensures r.isVariantProperty ==>
              var defs := ComponentSetOf(instances[0]).value.definitions;
              exists k :: 0 <= k < |defs| && defs[k].0 == r.actualPropertyName.value
                          && MatchesVariant(defs[k], primaryProp)
                          && forall j :: 0 <= j < k ==> !MatchesVariant(defs[j], primaryProp)
  {
    if |instances| == 0 then PropertyAnalysis(None, false)
    else match ComponentSetOf(instances[0])
      case None => PropertyAnalysis(None, false)
      case Some(set_) =>
        var k := FirstVariantMatch(set_.definitions, primaryProp);
        if k < |set_.definitions| then PropertyAnalysis(Some(set_.definitions[k].0), true)
        else PropertyAnalysis(None, false)
  }

  /** The test `actualPropertyName && isVariantProperty`: a resolved, non-empty property name. */
  predicate Resolved(a: PropertyAnalysis)
  {
    a.isVariantProperty && a.actualPropertyName.Some? && a.actualPropertyName.value != ""
  }

  /** The resolved name names the same property as the request: it differs at most in case. */
  lemma ResolvedNameMatchesRequest(primaryProp: string, instances: seq<Instance>)
    requires FindVariantProperty(primaryProp, instances).isVariantProperty
    ensures Lower(FindVariantProperty(primaryProp, instances).actualPropertyName.value) == Lower(primaryProp)
  {
  }
}
