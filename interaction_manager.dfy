// The interaction manager of the modular plugin
// (src/plugin/interaction-manager.ts): the component data it was given, the
// interactions it created, and the pipeline that turns one interaction into
// variables and ON_CLICK reactions on the component's instances. Unlike the
// legacy pipeline (plugin_code.dfy) it gives each instance only one action,
// setting its own variable; conditional rules produce no action, only a log
// line of what a cross-component action would do.

module InteractionManager {
  import opened Wrappers
  import opened Utils
  import opened Scene
  import opened ComponentAnalyzer
  import opened Storage
  import opened Host
  import StateCompiler
  import VariableManager

  // ---------------------------------------------------------------------
  // What a pass of applyInteractionToInstances writes
  // ---------------------------------------------------------------------

  /**
   * The one reaction each of `n` instances is given: an ON_CLICK setting
   * its own variable to the primary value when there are variables, and
   * an ON_CLICK with no action otherwise.
   */
  function SelfReactions(n: nat, primaryValue: Option<string>, varIds: seq<nat>): seq<seq<Reaction>>
    requires varIds == [] || |varIds| == n
  {
    seq(n, i requires 0 <= i < n =>
      [Reaction(OnClick, if varIds == [] then [] else [SetVariable(varIds[i], StateCompiler.Show(primaryValue))])])
  }

  /** The writes of a clearing pass over the instances followed by an installing pass. */
  function PassWrites(instances: seq<Instance>, planned: seq<seq<Reaction>>, rejects: set<string>): seq<ReactionWrite>
    requires |planned| == |instances|
  {
    AcceptedWrites(NodeIds(instances), Cleared(|instances|), rejects)
    + AcceptedWrites(NodeIds(instances), planned, rejects)
  }

  /**
   * After the two passes, every instance the host accepts holds exactly
   * its own single reaction (when no later instance is the same node), and
   * nodes outside the group keep what they had.
   */
  lemma PassOutcome(reactions: map<string, seq<Reaction>>, instances: seq<Instance>, planned: seq<seq<Reaction>>,
                    rejects: set<string>, i: nat, other: string)
    requires |planned| == |instances| && i < |instances| && instances[i].id !in rejects
    requires forall j :: i < j < |instances| ==> instances[j].id != instances[i].id
    requires forall j :: 0 <= j < |instances| ==> instances[j].id != other
    ensures var after := ApplyWrites(reactions, PassWrites(instances, planned, rejects));
      && instances[i].id in after && after[instances[i].id] == planned[i]
      && (other in after <==> other in reactions)
      && (other in reactions ==> after[other] == reactions[other])
  {
    var ids := NodeIds(instances);
    var clears := AcceptedWrites(ids, Cleared(|instances|), rejects);
    ApplyWritesAppend(reactions, clears, AcceptedWrites(ids, planned, rejects));
    AcceptedWritesFinal(ApplyWrites(reactions, clears), ids, planned, rejects, i);
    assert other !in ids;
    AcceptedWritesElsewhere(reactions, ids, Cleared(|instances|), rejects, other);
    AcceptedWritesElsewhere(ApplyWrites(reactions, clears), ids, planned, rejects, other);
  }

  // ---------------------------------------------------------------------
  // Cross-component rules: logged, not applied
  // ---------------------------------------------------------------------

  /** The log line `Would set <target> to <value> when <component> is <condition value>`, as data. */
  datatype Intent = Intent(target: string, targetValue: string, conditionValue: string)

  /** A rule the cross-component loop looks at: it has a condition containing `=`, an action and a target. */
  predicate CrossComponentCandidate(rule: ConditionalRule)
  {
    rule.condition != "" && rule.action != "" && rule.targetComponent.Some? && rule.targetComponent.value != ""
    && '=' in rule.condition
  }

  /** The value a cross-component action would set: `default` for a reset, the part after `=`, or the action itself. */
  function CrossTargetValue(action: string): string
  {
    if action == StateCompiler.RESET_TO_INITIAL then "default"
    else if '=' in action then StateCompiler.SplitPair(action).value.value
    else action
  }

  /** What one rule logs for an instance, if anything. */
  function IntentOf(rule: ConditionalRule, instance: Instance, components: seq<ComponentInfo>): Option<Intent>
  {
    if !CrossComponentCandidate(rule) then None
    else
      var condition := StateCompiler.SplitPair(rule.condition);
      if PropertyValue(instance, condition.prop) != condition.value.value then None
      else match FindComponent(components, rule.targetComponent.value)
        case None => None
        case Some(target) => Some(Intent(target.name, CrossTargetValue(rule.action), condition.value.value))
  }

  /** The defined results of `f` over `xs`, in order. */
  function Collect<A, B>(xs: seq<A>, f: A -> Option<B>): seq<B>
  {
    if xs == [] then []
    else Collect(xs[..|xs| - 1], f) + match f(xs[|xs| - 1]) case None => [] case Some(y) => [y]
  }

  /** Exactly the defined results of `f` over `xs` are collected. */
  lemma {:induction false} CollectMembers<A, B>(xs: seq<A>, f: A -> Option<B>)
    ensures forall y :: y in Collect(xs, f) ==> exists k :: 0 <= k < |xs| && f(xs[k]) == Some(y)
    ensures forall y, k :: 0 <= k < |xs| && f(xs[k]) == Some(y) ==> y in Collect(xs, f)
  {
    if xs != [] {
      var n := |xs| - 1;
      CollectMembers(xs[..n], f);
      assert forall k :: 0 <= k < n ==> xs[..n][k] == xs[k];
    }
  }

  /** What the rule loop logs for an instance, in rule order. */
  function Intents(rules: seq<ConditionalRule>, instance: Instance, components: seq<ComponentInfo>): seq<Intent>
  {
    Collect(rules, rule => IntentOf(rule, instance, components))
  }

  lemma IntentsStep(rules: seq<ConditionalRule>, r: nat, instance: Instance, components: seq<ComponentInfo>)
    requires r < |rules|
    ensures Intents(rules[..r + 1], instance, components)
            == Intents(rules[..r], instance, components)
               + match IntentOf(rules[r], instance, components) case None => [] case Some(x) => [x]
  {
    assert rules[..r + 1][..r] == rules[..r];
  }

  /**
   * The log lists exactly the intents of the rules whose condition holds
   * on the instance and whose target is a known component.
   */
  lemma IntentsAreMatchingRules(rules: seq<ConditionalRule>, instance: Instance, components: seq<ComponentInfo>)
    ensures forall x :: x in Intents(rules, instance, components) <==>
              exists k :: 0 <= k < |rules| && IntentOf(rules[k], instance, components) == Some(x)
  {
    CollectMembers(rules, rule => IntentOf(rule, instance, components));
  }

  /** A logged intent names a known component and a condition value the instance has. */
  lemma IntentSound(rule: ConditionalRule, instance: Instance, components: seq<ComponentInfo>)
    requires IntentOf(rule, instance, components).Some?
    ensures var x := IntentOf(rule, instance, components).value;
      && CrossComponentCandidate(rule)
      && StateCompiler.SplitPair(rule.condition).value == Some(x.conditionValue)
      && PropertyValue(instance, StateCompiler.SplitPair(rule.condition).prop) == x.conditionValue
      && (exists k :: 0 <= k < |components| && components[k].id == rule.targetComponent.value
                      && components[k].name == x.target)
  {
  }

  // ---------------------------------------------------------------------
  // The module's state and the pipeline
  // ---------------------------------------------------------------------

  /** The name shown in the success message: the component's name, or `Unknown Component` when it has none. */
  function ComponentName(components: seq<ComponentInfo>, id: string): string
  {
    match FindComponent(components, id)
    case Some(c) => if c.name != "" then c.name else "Unknown Component"
    case None => "Unknown Component"
  }

  /** The interactions created for the nested actions whose component is known. */
  function NestedInteractions(id: string, nestedActions: seq<NestedAction>, components: seq<ComponentInfo>): seq<Interaction>
  {
    if nestedActions == [] then []
    else
      var last := nestedActions[|nestedActions| - 1];
      NestedInteractions(id, nestedActions[..|nestedActions| - 1], components)
      + match FindComponent(components, last.componentId)
        case None => []
        case Some(c) => [Interaction(id + "_nested_" + c.id, c.id, last.action, [], [])]
  }

  /**
   * Each nested interaction targets a known component, carries the action
   * of a nested action naming it, has no rules, and has an id extending
   * the parent's, so a cleanup of the parent's id also retires its
   * variables.
   */
  lemma {:induction false} NestedInteractionsShape(id: string, nestedActions: seq<NestedAction>, components: seq<ComponentInfo>)
    ensures forall x :: x in NestedInteractions(id, nestedActions, components) ==>
      && x.id == id + "_nested_" + x.component
      && Strings.StartsWith(x.id, id)
      && x.conditionalRules == [] && x.nestedActions == []
      && (exists c :: c in components && c.id == x.component)
      && (exists k :: 0 <= k < |nestedActions| && nestedActions[k].componentId == x.component
                      && nestedActions[k].action == x.primaryAction)
  {
    if nestedActions != [] {
      var n := |nestedActions| - 1;
      NestedInteractionsShape(id, nestedActions[..n], components);
      forall x | x in NestedInteractions(id, nestedActions, components)
        ensures && x.id == id + "_nested_" + x.component
                && Strings.StartsWith(x.id, id)
                && x.conditionalRules == [] && x.nestedActions == []
                && (exists c :: c in components && c.id == x.component)
                && (exists k :: 0 <= k < |nestedActions| && nestedActions[k].componentId == x.component
                                && nestedActions[k].action == x.primaryAction)
      {
        Strings.StartsWithAppend(id, "_nested_" + x.component);
        assert id + "_nested_" + x.component == id + ("_nested_" + x.component);
        if x in NestedInteractions(id, nestedActions[..n], components) {
          var k :| 0 <= k < n && nestedActions[..n][k].componentId == x.component
                   && nestedActions[..n][k].action == x.primaryAction;
          assert nestedActions[k] == nestedActions[..n][k];
        } else {
          var c := FindComponent(components, nestedActions[n].componentId).value;
          assert c == components[GroupIndex(components, nestedActions[n].componentId)];
        }
      }
    }
  }

  // ---------------------------------------------------------------------
  // What a whole createInteraction may touch
  // ---------------------------------------------------------------------

  /** The node is one of the instances of the component with that id. */
  predicate OnInstanceOf(node: string, components: seq<ComponentInfo>, componentId: string)
  {
    FindComponent(components, componentId).Some?
    && exists x :: x in FindComponent(components, componentId).value.instances && x.id == node
  }

  /** Every write went to an accepted instance of one of the named components. */
  ghost predicate WritesWithin(writes: seq<ReactionWrite>, rejects: set<string>, components: seq<ComponentInfo>,
                               componentIds: set<string>)
  {
    forall k :: 0 <= k < |writes| ==>
      writes[k].0 !in rejects && exists c :: c in componentIds && OnInstanceOf(writes[k].0, components, c)
  }

  /**
   * Between two canvas states: the write log only grew, every new write
   * went to an accepted instance of one of the named components, and the
   * reactions are exactly what those writes leave.
   */
  ghost predicate TouchesOnly(writes0: seq<ReactionWrite>, writes: seq<ReactionWrite>,
                              reactions0: map<string, seq<Reaction>>, reactions: map<string, seq<Reaction>>,
                              rejects: set<string>, components: seq<ComponentInfo>, componentIds: set<string>)
  {
    && writes0 <= writes
    && reactions == ApplyWrites(reactions0, writes[|writes0|..])
    && WritesWithin(writes[|writes0|..], rejects, components, componentIds)
  }

  lemma WritesWithinAppend(a: seq<ReactionWrite>, b: seq<ReactionWrite>, rejects: set<string>,
                           components: seq<ComponentInfo>, ids1: set<string>, ids2: set<string>, ids: set<string>)
    requires WritesWithin(a, rejects, components, ids1) && WritesWithin(b, rejects, components, ids2)
    requires ids1 <= ids && ids2 <= ids
    ensures WritesWithin(a + b, rejects, components, ids)
  {
    forall k | 0 <= k < |a + b|
      ensures (a + b)[k].0 !in rejects && exists c :: c in ids && OnInstanceOf((a + b)[k].0, components, c)
    {
      if k < |a| {
        assert (a + b)[k] == a[k];
        var c :| c in ids1 && OnInstanceOf(a[k].0, components, c);
        assert c in ids;
      } else {
        assert (a + b)[k] == b[k - |a|];
        var c :| c in ids2 && OnInstanceOf(b[k - |a|].0, components, c);
        assert c in ids;
      }
    }
  }

  /** The components named by a list of nested actions. */
  function NestedComponentIds(nestedActions: seq<NestedAction>): (r: set<string>)
    ensures forall j :: 0 <= j < |nestedActions| ==> nestedActions[j].componentId in r
  {
    set j | 0 <= j < |nestedActions| :: nestedActions[j].componentId
  }

  /** The variables hold the interaction's primary flag, false, in the collection. */
  predicate HasPrimaryFlag(variables: seq<Variable>, interactionId: string, collectionId: nat)
  {
    exists k :: 0 <= k < |variables| && variables[k].name == VariableManager.PrimaryVarName(interactionId)
                && variables[k].collectionId == collectionId && variables[k].value == BoolValue(false)
  }

  lemma HasPrimaryFlagGrows(variables: seq<Variable>, variables': seq<Variable>, interactionId: string, collectionId: nat)
    requires variables <= variables' && HasPrimaryFlag(variables, interactionId, collectionId)
    ensures HasPrimaryFlag(variables', interactionId, collectionId)
  {
    var k :| 0 <= k < |variables| && variables[k].name == VariableManager.PrimaryVarName(interactionId)
             && variables[k].collectionId == collectionId && variables[k].value == BoolValue(false);
    assert variables'[k] == variables[k];
  }

  lemma HasPrimaryFlagsGrow(nested: seq<Interaction>, variables: seq<Variable>, variables': seq<Variable>, collectionId: nat)
    requires variables <= variables'
    requires forall x :: x in nested ==> HasPrimaryFlag(variables, x.id, collectionId)
    ensures forall x :: x in nested ==> HasPrimaryFlag(variables', x.id, collectionId)
  {
    forall x | x in nested ensures HasPrimaryFlag(variables', x.id, collectionId) {
      HasPrimaryFlagGrows(variables, variables', x.id, collectionId);
    }
  }

  lemma TouchesNothing(writes: seq<ReactionWrite>, reactions: map<string, seq<Reaction>>, rejects: set<string>,
                       components: seq<ComponentInfo>, componentIds: set<string>)
    ensures TouchesOnly(writes, writes, reactions, reactions, rejects, components, componentIds)
  {
    assert writes[|writes|..] == [];
  }

  /** The two passes over a component's instances touch only that component. */
  lemma PassTouchesOnly(writes0: seq<ReactionWrite>, reactions0: map<string, seq<Reaction>>, instances: seq<Instance>,
                        planned: seq<seq<Reaction>>, rejects: set<string>, components: seq<ComponentInfo>, componentId: string)
    requires |planned| == |instances|
    requires FindComponent(components, componentId).Some? && FindComponent(components, componentId).value.instances == instances
    ensures var passes := PassWrites(instances, planned, rejects);
            TouchesOnly(writes0, writes0 + passes, reactions0, ApplyWrites(reactions0, passes), rejects, components, {componentId})
  {
    var ids := NodeIds(instances);
    AcceptedWithin(instances, Cleared(|instances|), rejects, components, componentId);
    AcceptedWithin(instances, planned, rejects, components, componentId);
    var passes := PassWrites(instances, planned, rejects);
    WritesWithinAppend(AcceptedWrites(ids, Cleared(|instances|), rejects), AcceptedWrites(ids, planned, rejects),
                       rejects, components, {componentId}, {componentId}, {componentId});
    assert (writes0 + passes)[|writes0|..] == passes;
  }

  /** One pass over a component's instances writes only to accepted instances of it. */
  lemma AcceptedWithin(instances: seq<Instance>, planned: seq<seq<Reaction>>, rejects: set<string>,
                       components: seq<ComponentInfo>, componentId: string)
    requires |planned| == |instances|
    requires FindComponent(components, componentId).Some? && FindComponent(components, componentId).value.instances == instances
    ensures WritesWithin(AcceptedWrites(NodeIds(instances), planned, rejects), rejects, components, {componentId})
  {
    var ids := NodeIds(instances);
    var ws := AcceptedWrites(ids, planned, rejects);
    AcceptedWritesMembers(ids, planned, rejects);
    forall m | 0 <= m < |ws|
      ensures ws[m].0 !in rejects && OnInstanceOf(ws[m].0, components, componentId)
    {
      var i :| 0 <= i < |ids| && ids[i] !in rejects && ws[m] == (ids[i], planned[i]);
      assert instances[i] in FindComponent(components, componentId).value.instances;
    }
  }

  /** Two stretches of touching compose. */
  lemma TouchesOnlyTrans(w0: seq<ReactionWrite>, w1: seq<ReactionWrite>, w2: seq<ReactionWrite>,
                         r0: map<string, seq<Reaction>>, r1: map<string, seq<Reaction>>, r2: map<string, seq<Reaction>>,
                         rejects: set<string>, components: seq<ComponentInfo>,
                         ids1: set<string>, ids2: set<string>, ids: set<string>)
    requires TouchesOnly(w0, w1, r0, r1, rejects, components, ids1)
    requires TouchesOnly(w1, w2, r1, r2, rejects, components, ids2)
    requires ids1 <= ids && ids2 <= ids
    ensures TouchesOnly(w0, w2, r0, r2, rejects, components, ids)
  {
    assert w2[|w0|..] == w1[|w0|..] + w2[|w1|..];
    ApplyWritesAppend(r0, w1[|w0|..], w2[|w1|..]);
    WritesWithinAppend(w1[|w0|..], w2[|w1|..], rejects, components, ids1, ids2, ids);
  }

  /** The module-level `componentData` and `interactions` of interaction-manager.ts. */
  class InteractionManager {
    var componentData: seq<ComponentInfo>
    var interactions: seq<Interaction>

    constructor ()
      ensures componentData == [] && interactions == []
    {
      componentData := [];
      interactions := [];
    }

    /** setComponentData. */
    method SetComponentData(data: seq<ComponentInfo>)
      modifies this
      ensures componentData == data && interactions == old(interactions)
    {
      componentData := data;
    }

    /**
     * applyVariableBasedReactions: the instance gets one ON_CLICK reaction
     * setting its own variable to the primary value; the conditional rules
     * only produce the returned log of what they would do.
     */
    method ApplyVariableBasedReactions(canvas: Canvas, instance: Instance, instanceIndex: nat, interaction: Interaction,
                                       instanceVars: seq<Variable>, primaryValue: Option<string>)
      returns (logged: seq<Intent>)
      requires instanceIndex < |instanceVars|
      modifies canvas
      ensures logged == Intents(interaction.conditionalRules, instance, componentData)
      ensures var rs := [Reaction(OnClick, [SetVariable(instanceVars[instanceIndex].id, StateCompiler.Show(primaryValue))])];
        && canvas.writes == (if instance.id in canvas.rejects then old(canvas.writes) else old(canvas.writes) + [(instance.id, rs)])
        && canvas.reactions == (if instance.id in canvas.rejects then old(canvas.reactions) else old(canvas.reactions)[instance.id := rs])
      ensures canvas.bindings == old(canvas.bindings)
    {
      var actions := [SetVariable(instanceVars[instanceIndex].id, StateCompiler.Show(primaryValue))];
      var rules := interaction.conditionalRules;
      logged := [];
      for r := 0 to |rules|
        modifies {}
        invariant logged == Intents(rules[..r], instance, componentData)
      {
        IntentsStep(rules, r, instance, componentData);
        var rule := rules[r];
        if !CrossComponentCandidate(rule) {
          assert IntentOf(rule, instance, componentData).None?;
          continue;
        }
        var condition := StateCompiler.SplitPair(rule.condition);
        var conditionValue := condition.value.value;
        var currentInstanceValue := PropertyValue(instance, condition.prop);
        if currentInstanceValue == conditionValue {
          var targetComponent := FindComponent(componentData, rule.targetComponent.value);
          if targetComponent.None? {
            assert IntentOf(rule, instance, componentData).None?;
            continue;
          }
          var targetValue := rule.action;
          if rule.action == StateCompiler.RESET_TO_INITIAL {
            targetValue := "default";
          } else if '=' in rule.action {
            targetValue := StateCompiler.SplitPair(rule.action).value.value;
          }
          assert IntentOf(rule, instance, componentData) == Some(Intent(targetComponent.value.name, targetValue, conditionValue));
          logged := logged + [Intent(targetComponent.value.name, targetValue, conditionValue)];
        } else {
          assert IntentOf(rule, instance, componentData).None?;
        }
      }
      assert rules[..|rules|] == rules;
      var _ := canvas.SetReactions(instance.id, [Reaction(OnClick, actions)]);
    }

    /**
     * applyInteractionToInstances: nothing for an unknown component; when
     * the primary property resolves to a VARIANT property, one seeded and
     * bound variable per instance (or, with no collection, the error ends
     * the call before any reaction is touched); then every instance's
     * reactions cleared, then each given its one ON_CLICK reaction.
     */
    method ApplyInteractionToInstances(vm: VariableManager.VariableManager, store: VariableStore, canvas: Canvas,
                                       interaction: Interaction)
      requires store.Valid()
      modifies store, canvas
      ensures store.Valid()
      ensures store.collections == old(store.collections)
      ensures old(store.variables) <= store.variables
      ensures TouchesOnly(old(canvas.writes), canvas.writes, old(canvas.reactions), canvas.reactions, canvas.rejects,
                          componentData, {interaction.component})
      ensures FindComponent(componentData, interaction.component).None? ==>
                && store.variables == old(store.variables) && store.nextId == old(store.nextId)
                && canvas.writes == old(canvas.writes) && canvas.reactions == old(canvas.reactions)
                && canvas.bindings == old(canvas.bindings)
      ensures FindComponent(componentData, interaction.component).Some? ==>
        var instances := FindComponent(componentData, interaction.component).value.instances;
        var primary := StateCompiler.SplitPair(interaction.primaryAction);
        var analysis := FindVariantProperty(primary.prop, instances);
        if Resolved(analysis) && vm.variableCollection.None? then
          && store.variables == old(store.variables) && store.nextId == old(store.nextId)
          && canvas.writes == old(canvas.writes) && canvas.reactions == old(canvas.reactions)
          && canvas.bindings == old(canvas.bindings)
        else
          var varIds := if Resolved(analysis) then FreshIds(old(store.nextId), |instances|) else [];
          var writes := PassWrites(instances, SelfReactions(|instances|, primary.value, varIds), canvas.rejects);
          && canvas.writes == old(canvas.writes) + writes
          && canvas.reactions == ApplyWrites(old(canvas.reactions), writes)
          && (Resolved(analysis) ==>
                var name := analysis.actualPropertyName.value;
                && store.variables
                   == old(store.variables)
                      + VariableManager.InstanceVariables(old(store.nextId), vm.variableCollection.value.id, interaction.id,
                                                          instances, name, primary.prop)
                && canvas.bindings
                   == VariableManager.BoundProperties(old(canvas.bindings), instances, name, old(store.nextId), canvas.bindRejects))
          && (!Resolved(analysis) ==>
                store.variables == old(store.variables) && store.nextId == old(store.nextId)
                && canvas.bindings == old(canvas.bindings))
    {
      var component := FindComponent(componentData, interaction.component);
      if component.None? {
        TouchesNothing(canvas.writes, canvas.reactions, canvas.rejects, componentData, {interaction.component});
        return;
      }
      var primary := StateCompiler.SplitPair(interaction.primaryAction);
      var analysis := FindVariantProperty(primary.prop, component.value.instances);
      ApplyToInstances(vm, store, canvas, interaction, component.value, primary, analysis);
      ghost var instances := component.value.instances;
      if Resolved(analysis) && vm.variableCollection.None? {
        TouchesNothing(canvas.writes, canvas.reactions, canvas.rejects, componentData, {interaction.component});
      } else {
        ghost var varIds := if Resolved(analysis) then FreshIds(old(store.nextId), |instances|) else [];
        PassTouchesOnly(old(canvas.writes), old(canvas.reactions), instances, SelfReactions(|instances|, primary.value, varIds),
                        canvas.rejects, componentData, interaction.component);
      }
    }

    /**
     * applyInteractionToInstances once the component is found, the primary
     * action split and the variant property looked up.
     */
    method ApplyToInstances(vm: VariableManager.VariableManager, store: VariableStore, canvas: Canvas,
                            interaction: Interaction, component: ComponentInfo,
                            primary: StateCompiler.Split, analysis: PropertyAnalysis)
      requires store.Valid()
      modifies store, canvas
      ensures store.Valid()
      ensures store.collections == old(store.collections)
      ensures var instances := component.instances;
        if Resolved(analysis) && vm.variableCollection.None? then
          && store.variables == old(store.variables) && store.nextId == old(store.nextId)
          && canvas.writes == old(canvas.writes) && canvas.reactions == old(canvas.reactions)
          && canvas.bindings == old(canvas.bindings)
        else
          var varIds := if Resolved(analysis) then FreshIds(old(store.nextId), |instances|) else [];
          var writes := PassWrites(instances, SelfReactions(|instances|, primary.value, varIds), canvas.rejects);
          && canvas.writes == old(canvas.writes) + writes
          && canvas.reactions == ApplyWrites(old(canvas.reactions), writes)
          && (Resolved(analysis) ==>
                var name := analysis.actualPropertyName.value;
                && store.variables
                   == old(store.variables)
                      + VariableManager.InstanceVariables(old(store.nextId), vm.variableCollection.value.id, interaction.id,
                                                          instances, name, primary.prop)
                && canvas.bindings
                   == VariableManager.BoundProperties(old(canvas.bindings), instances, name, old(store.nextId), canvas.bindRejects))
          && (!Resolved(analysis) ==>
                store.variables == old(store.variables) && store.nextId == old(store.nextId)
                && canvas.bindings == old(canvas.bindings))
    {
      var instances := component.instances;
      ghost var firstId := store.nextId;
      var instanceVars: seq<Variable> := [];
      if Resolved(analysis) {
        var result := vm.CreateAndBindVariables(store, canvas, interaction, component,
                                                analysis.actualPropertyName.value, primary.prop);
        if result.Failure? {
          return;
        }
        instanceVars := result.value.instanceVars;
      }
      assert VarIds(instanceVars) == if Resolved(analysis) then FreshIds(firstId, |instances|) else [];
      ReplaceReactions(canvas, instances, interaction, instanceVars, primary.value);
    }

    /** The two passes of applyInteractionToInstances: clear every instance's reactions, then install each one's. */
    method ReplaceReactions(canvas: Canvas, instances: seq<Instance>, interaction: Interaction,
                            instanceVars: seq<Variable>, primaryValue: Option<string>)
      requires instanceVars == [] || |instanceVars| == |instances|
      modifies canvas
      ensures var writes := PassWrites(instances, SelfReactions(|instances|, primaryValue, VarIds(instanceVars)),
                                       canvas.rejects);
        && canvas.writes == old(canvas.writes) + writes
        && canvas.reactions == ApplyWrites(old(canvas.reactions), writes)
      ensures canvas.bindings == old(canvas.bindings)
    {
      ghost var planned := SelfReactions(|instances|, primaryValue, VarIds(instanceVars));
      ghost var clearing := AcceptedWrites(NodeIds(instances), Cleared(|instances|), canvas.rejects);
      ghost var installing := AcceptedWrites(NodeIds(instances), planned, canvas.rejects);
      ClearReactions(canvas, NodeIds(instances));
      InstallReactions(canvas, instances, interaction, instanceVars, primaryValue);
      ApplyWritesAppend(old(canvas.reactions), clearing, installing);
    }

    /**
     * The second loop of applyInteractionToInstances: each instance is
     * given its reaction, a failure on one not stopping the others.
     */
    method InstallReactions(canvas: Canvas, instances: seq<Instance>, interaction: Interaction,
                            instanceVars: seq<Variable>, primaryValue: Option<string>)
      requires instanceVars == [] || |instanceVars| == |instances|
      modifies canvas
      ensures var planned := SelfReactions(|instances|, primaryValue, VarIds(instanceVars));
        && canvas.writes == old(canvas.writes) + AcceptedWrites(NodeIds(instances), planned, canvas.rejects)
        && canvas.reactions == ApplyWrites(old(canvas.reactions), AcceptedWrites(NodeIds(instances), planned, canvas.rejects))
      ensures canvas.bindings == old(canvas.bindings)
    {
      ghost var planned := SelfReactions(|instances|, primaryValue, VarIds(instanceVars));
      var ids := NodeIds(instances);
      for i := 0 to |instances|
        invariant canvas.writes == old(canvas.writes) + AcceptedWrites(ids[..i], planned[..i], canvas.rejects)
        invariant canvas.reactions == ApplyWrites(old(canvas.reactions), AcceptedWrites(ids[..i], planned[..i], canvas.rejects))
        invariant canvas.bindings == old(canvas.bindings)
      {
        AcceptedWritesStep(ids, planned, canvas.rejects, i);
        ApplyWritesSnoc(old(canvas.reactions), AcceptedWrites(ids[..i], planned[..i], canvas.rejects), (ids[i], planned[i]));
        InstallOne(canvas, instances, i, interaction, instanceVars, primaryValue);
        if ids[i] in canvas.rejects {
          assert AcceptedWrites(ids[..i + 1], planned[..i + 1], canvas.rejects) == AcceptedWrites(ids[..i], planned[..i], canvas.rejects);
        }
      }
      assert ids[..|instances|] == ids && planned[..|instances|] == planned;
    }

    /** One iteration of the installing loop: the instance's planned reaction, unless the host refuses it. */
    method InstallOne(canvas: Canvas, instances: seq<Instance>, i: nat, interaction: Interaction,
                      instanceVars: seq<Variable>, primaryValue: Option<string>)
      requires i < |instances|
      requires instanceVars == [] || |instanceVars| == |instances|
      modifies canvas
      ensures var rs := SelfReactions(|instances|, primaryValue, VarIds(instanceVars))[i];
        && canvas.writes == (if instances[i].id in canvas.rejects then old(canvas.writes)
                             else old(canvas.writes) + [(instances[i].id, rs)])
        && canvas.reactions == (if instances[i].id in canvas.rejects then old(canvas.reactions)
                                else old(canvas.reactions)[instances[i].id := rs])
      ensures canvas.bindings == old(canvas.bindings)
    {
      if |instanceVars| > 0 {
        var _ := ApplyVariableBasedReactions(canvas, instances[i], i, interaction, instanceVars, primaryValue);
      } else {
        var _ := canvas.SetReactions(instances[i].id, [Reaction(OnClick, [])]);
      }
    }

    /**
     * createInteraction: set up the collection, clean up the interaction's
     * previous variables, create its flags, record and store it, apply it
     * to its component's instances, then create and apply one interaction
     * per nested action whose component is known. Without a collection the
     * flags cannot be created and the error message is all that happens.
     */
    method CreateInteraction(vm: VariableManager.VariableManager, store: VariableStore, canvas: Canvas,
                             storage: ClientStorage, interaction: Interaction)
      returns (message: UiMessage, nested: seq<Interaction>)
      requires store.Valid()
      modifies this, vm, store, canvas, storage
      ensures store.Valid()
      ensures componentData == old(componentData)
      ensures vm.variableCollection
              == if store.listingUnavailable then old(vm.variableCollection)
                 else FindCollection(store.collections, VariableManager.VARIABLE_COLLECTION_NAME)
      ensures vm.variableCollection.None? ==>
                && message == UiMessage("error", ErrorMessage("Failed to create interaction",
                                                              ErrorObject("Variable collection not initialized")))
                && nested == [] && interactions == old(interactions) && storage.data == old(storage.data)
                && store.variables == old(store.variables)
                && canvas.writes == old(canvas.writes) && canvas.reactions == old(canvas.reactions)
      ensures vm.variableCollection.Some? ==>
                && message == UiMessage("interaction-created",
                                        "Interaction created successfully for " + ComponentName(componentData, interaction.component))
                && nested == NestedInteractions(interaction.id, interaction.nestedActions, componentData)
                && interactions == old(interactions) + [interaction]
                && storage.data == (if StorageKey(interaction.component) in storage.unavailable then old(storage.data)
                                    else old(storage.data)[StorageKey(interaction.component) := interaction])
                && (exists k :: 0 <= k < |store.variables|
                                && store.variables[k].name == VariableManager.PrimaryVarName(interaction.id)
                                && store.variables[k].collectionId == vm.variableCollection.value.id
                                && store.variables[k].value == BoolValue(false))
      ensures vm.variableCollection.Some? && !store.listingUnavailable ==>
                VariableManager.PrefixCleanup(old(store.variables), store.undeletable, vm.variableCollection.value.id,
                                              interaction.id).remaining <= store.variables
      ensures vm.variableCollection.Some? ==>
                forall x :: x in nested ==> HasPrimaryFlag(store.variables, x.id, vm.variableCollection.value.id)
      ensures TouchesOnly(old(canvas.writes), canvas.writes, old(canvas.reactions), canvas.reactions, canvas.rejects,
                          componentData, {interaction.component} + NestedComponentIds(interaction.nestedActions))
    {
      vm.SetupVariableCollection(store);
      vm.CleanupExistingInteraction(store, interaction.id);
      var flags := vm.CreateInteractionVariables(store, interaction);
      if flags.Failure? {
        TouchesNothing(canvas.writes, canvas.reactions, canvas.rejects, componentData,
                       {interaction.component} + NestedComponentIds(interaction.nestedActions));
        return UiMessage("error", ErrorMessage("Failed to create interaction", ErrorObject(flags.message))), [];
      }
      ghost var primaryAt := |store.variables| - 1 - |flags.value.conditionalVars|;
      assert store.variables[primaryAt] == flags.value.primaryVar;
      ghost var withFlags := store.variables;
      nested := RecordInteraction(vm, store, canvas, storage, interaction);
      assert withFlags <= store.variables;
      assert store.variables[primaryAt] == flags.value.primaryVar;
      message := UiMessage("interaction-created",
                           "Interaction created successfully for " + ComponentName(componentData, interaction.component));
    }

    /** The steps of createInteraction once the flags exist: record, store, apply, then the nested actions. */
    method RecordInteraction(vm: VariableManager.VariableManager, store: VariableStore, canvas: Canvas,
                             storage: ClientStorage, interaction: Interaction)
      returns (nested: seq<Interaction>)
      requires store.Valid()
      modifies this, store, canvas, storage
      ensures store.Valid()
      ensures componentData == old(componentData) && interactions == old(interactions) + [interaction]
      ensures storage.data == (if StorageKey(interaction.component) in storage.unavailable then old(storage.data)
                               else old(storage.data)[StorageKey(interaction.component) := interaction])
      ensures store.collections == old(store.collections) && old(store.variables) <= store.variables
      ensures vm.variableCollection.Some? ==> nested == NestedInteractions(interaction.id, interaction.nestedActions, componentData)
      ensures vm.variableCollection.Some? ==>
                forall x :: x in nested ==> HasPrimaryFlag(store.variables, x.id, vm.variableCollection.value.id)
      ensures TouchesOnly(old(canvas.writes), canvas.writes, old(canvas.reactions), canvas.reactions, canvas.rejects,
                          componentData, {interaction.component} + NestedComponentIds(interaction.nestedActions))
      ensures FindComponent(componentData, interaction.component).Some? ==>
        var instances := FindComponent(componentData, interaction.component).value.instances;
        var primary := StateCompiler.SplitPair(interaction.primaryAction);
        var analysis := FindVariantProperty(primary.prop, instances);
        var varIds := if Resolved(analysis) then FreshIds(old(store.nextId), |instances|) else [];
        (vm.variableCollection.Some? || !Resolved(analysis)) ==>
          && old(canvas.writes) + PassWrites(instances, SelfReactions(|instances|, primary.value, varIds), canvas.rejects)
             <= canvas.writes
          && (Resolved(analysis) ==>
                old(store.variables)
                + VariableManager.InstanceVariables(old(store.nextId), vm.variableCollection.value.id, interaction.id,
                                                    instances, analysis.actualPropertyName.value, primary.prop)
                <= store.variables)
    {
      interactions := interactions + [interaction];
      StoreInteractionData(storage, interaction);
      ApplyInteractionToInstances(vm, store, canvas, interaction);
      ghost var w1, r1 := canvas.writes, canvas.reactions;
      nested := ApplyNestedActions(vm, store, canvas, interaction);
      TouchesOnlyTrans(old(canvas.writes), w1, canvas.writes, old(canvas.reactions), r1, canvas.reactions, canvas.rejects,
                       componentData, {interaction.component}, NestedComponentIds(interaction.nestedActions),
                       {interaction.component} + NestedComponentIds(interaction.nestedActions));
    }
  
    /**
     * One nested action: nothing when its component is unknown; otherwise
     * an interaction of its own with its flags, applied to that component's
     * instances. `failed` when the flags cannot be created.
     */
    method ApplyNestedAction(vm: VariableManager.VariableManager, store: VariableStore, canvas: Canvas,
                             parentId: string, nestedAction: NestedAction)
      returns (made: Option<Interaction>, failed: bool)
      requires store.Valid()
      modifies store, canvas
      ensures store.Valid()
      ensures store.collections == old(store.collections)
      ensures old(store.variables) <= store.variables
      ensures TouchesOnly(old(canvas.writes), canvas.writes, old(canvas.reactions), canvas.reactions, canvas.rejects,
                          componentData, {nestedAction.componentId})
      ensures failed == (FindComponent(componentData, nestedAction.componentId).Some? && vm.variableCollection.None?)
      ensures vm.variableCollection.Some? ==>
                made == match FindComponent(componentData, nestedAction.componentId)
                        case None => None
                        case Some(c) => Some(Interaction(parentId + "_nested_" + c.id, c.id, nestedAction.action, [], []))
      ensures vm.variableCollection.Some? && made.Some? ==>
                HasPrimaryFlag(store.variables, made.value.id, vm.variableCollection.value.id)
    {
      var nestedComponent := FindComponent(componentData, nestedAction.componentId);
      if nestedComponent.None? {
        TouchesNothing(canvas.writes, canvas.reactions, canvas.rejects, componentData, {nestedAction.componentId});
        return None, false;
      }
      var fake := Interaction(parentId + "_nested_" + nestedComponent.value.id, nestedComponent.value.id,
                              nestedAction.action, [], []);
      ghost var before := store.variables;
      var flags := vm.CreateInteractionVariables(store, fake);
      if flags.Failure? {
        TouchesNothing(canvas.writes, canvas.reactions, canvas.rejects, componentData, {nestedAction.componentId});
        return None, true;
      }
      ghost var withFlag := store.variables;
      assert withFlag[|before|] == flags.value.primaryVar;
      ApplyInteractionToInstances(vm, store, canvas, fake);
      assert store.variables[|before|] == withFlag[|before|];
      made, failed := Some(fake), false;
    }

    /**
     * The nested-action loop of createInteraction: for each nested action
     * whose component is known, an interaction of its own, with its flags,
     * applied to that component's instances.
     */
    method ApplyNestedActions(vm: VariableManager.VariableManager, store: VariableStore, canvas: Canvas,
                              interaction: Interaction)
      returns (nested: seq<Interaction>)
      requires store.Valid()
      modifies store, canvas
      ensures store.Valid()
      ensures store.collections == old(store.collections)
      ensures old(store.variables) <= store.variables
      ensures TouchesOnly(old(canvas.writes), canvas.writes, old(canvas.reactions), canvas.reactions, canvas.rejects,
                          componentData, NestedComponentIds(interaction.nestedActions))
      ensures vm.variableCollection.Some? ==> nested == NestedInteractions(interaction.id, interaction.nestedActions, componentData)
      ensures vm.variableCollection.Some? ==>
                forall x :: x in nested ==> HasPrimaryFlag(store.variables, x.id, vm.variableCollection.value.id)
    {
      nested := [];
      var nestedActions := interaction.nestedActions;
      ghost var ids := NestedComponentIds(nestedActions);
      TouchesNothing(canvas.writes, canvas.reactions, canvas.rejects, componentData, ids);
      for k := 0 to |nestedActions|
        invariant store.Valid()
        invariant store.collections == old(store.collections)
        invariant old(store.variables) <= store.variables
        invariant TouchesOnly(old(canvas.writes), canvas.writes, old(canvas.reactions), canvas.reactions, canvas.rejects,
                              componentData, ids)
        invariant vm.variableCollection.Some? ==> nested == NestedInteractions(interaction.id, nestedActions[..k], componentData)
        invariant vm.variableCollection.Some? ==>
                    forall x :: x in nested ==> HasPrimaryFlag(store.variables, x.id, vm.variableCollection.value.id)
      {
        assert nestedActions[..k + 1][..k] == nestedActions[..k];
        ghost var before, w1, r1 := store.variables, canvas.writes, canvas.reactions;
        var made, failed := ApplyNestedAction(vm, store, canvas, interaction.id, nestedActions[k]);
        TouchesOnlyTrans(old(canvas.writes), w1, canvas.writes, old(canvas.reactions), r1, canvas.reactions,
                         canvas.rejects, componentData, ids, {nestedActions[k].componentId}, ids);
        if failed {
          return;
        }
        if vm.variableCollection.Some? {
          HasPrimaryFlagsGrow(nested, before, store.variables, vm.variableCollection.value.id);
        }
        if made.Some? {
          nested := nested + [made.value];
        }
      }
      assert nestedActions[..|nestedActions|] == nestedActions;
    }
  }
}
