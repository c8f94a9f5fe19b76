// The legacy single-file plugin (code.js): its module state (the component
// data, the interactions created so far and the variable collection), the
// selection checks of initializePlugin, the interaction bookkeeping of
// cleanupExistingInteraction and performComprehensiveCleanup, and the
// pipeline that compiles an interaction into one ON_CLICK reaction per
// instance, each setting every instance's variable (StateCompiler).

module PluginCode {
  import opened Wrappers
  import opened Utils
  import opened Scene
  import opened ComponentAnalyzer
  import opened Storage
  import opened Host
  import StateCompiler
  import VariableManager
  import InteractionManager

  // ---------------------------------------------------------------------
  // The interactions list
  // ---------------------------------------------------------------------

  /** `interactions.findIndex(i => i.id === id)`, with `|xs|` for -1. */
  function InteractionIndex(xs: seq<Interaction>, id: string): (r: nat)
    ensures r <= |xs|
    ensures r < |xs| ==> xs[r].id == id
    ensures forall k :: 0 <= k < r ==> xs[k].id != id
  {
    if xs == [] then 0
    else if xs[0].id == id then 0
    else 1 + InteractionIndex(xs[1..], id)
  }

  /** `splice(findIndex(...), 1)` when the index is not -1. */
  function RemoveFirst(xs: seq<Interaction>, id: string): seq<Interaction>
  {
    var k := InteractionIndex(xs, id);
    if k < |xs| then xs[..k] + xs[k + 1..] else xs
  }

  /**
   * Splicing by id drops exactly one entry, the first with that id, and
   * keeps every other entry in order; with no such entry nothing changes.
   */
  lemma RemoveFirstDropsOne(xs: seq<Interaction>, id: string)
    ensures (forall k :: 0 <= k < |xs| ==> xs[k].id != id) ==> RemoveFirst(xs, id) == xs
    ensures (exists k :: 0 <= k < |xs| && xs[k].id == id) ==>
              && |RemoveFirst(xs, id)| == |xs| - 1
              && multiset(RemoveFirst(xs, id)) + multiset{xs[InteractionIndex(xs, id)]} == multiset(xs)
              && xs[InteractionIndex(xs, id)].id == id
              && forall x: Interaction :: x.id != id ==> (x in RemoveFirst(xs, id) <==> x in xs)
  {
    var k := InteractionIndex(xs, id);
    if k < |xs| {
      SpliceParts(xs, k);
    }
  }

  /** Splicing out position `k` keeps the rest: the removed entry and the remainder make up the whole. */
  lemma SpliceParts(xs: seq<Interaction>, k: nat)
    requires k < |xs|
    ensures multiset(xs[..k] + xs[k + 1..]) + multiset{xs[k]} == multiset(xs)
    ensures forall x :: x in xs <==> x in xs[..k] + xs[k + 1..] || x == xs[k]
  {
    assert xs == xs[..k] + [xs[k]] + xs[k + 1..];
  }

  /**
   * With distinct ids, splicing out an interaction's id and then pushing
   * the interaction again leaves exactly one entry with that id.
   */
  lemma RecreateKeepsOneEntry(xs: seq<Interaction>, x: Interaction)
    requires forall i, j :: 0 <= i < j < |xs| ==> xs[i].id != xs[j].id
    ensures var ys := RemoveFirst(xs, x.id) + [x];
      && (forall i, j :: 0 <= i < j < |ys| ==> ys[i].id != ys[j].id)
      && ys[|ys| - 1] == x
  {
    var k := InteractionIndex(xs, x.id);
    var ys := RemoveFirst(xs, x.id) + [x];
    if k < |xs| {
      forall i, j | 0 <= i < j < |ys|
        ensures ys[i].id != ys[j].id
      {
        var i' := if i < k then i else i + 1;
        if j < |ys| - 1 {
          var j' := if j < k then j else j + 1;
          assert ys[i] == xs[i'] && ys[j] == xs[j'];
        } else {
          assert ys[i] == xs[i'];
        }
      }
    } else {
      forall i, j | 0 <= i < j < |ys|
        ensures ys[i].id != ys[j].id
      {
        if j == |ys| - 1 {
          assert ys[i] == xs[i];
        }
      }
    }
  }

  // ---------------------------------------------------------------------
  // The compiled reactions
  // ---------------------------------------------------------------------

  /** SET_VARIABLE actions carrying out compiled assignments on the instances' variables. */
  function ToActions(assignments: seq<StateCompiler.Assignment>, varIds: seq<nat>): seq<Action>
    requires forall k :: 0 <= k < |assignments| ==> assignments[k].instance < |varIds|
  {
    seq(|assignments|, k requires 0 <= k < |assignments| => SetVariable(varIds[assignments[k].instance], assignments[k].value))
  }

  /** The reaction a click on instance `i` carries: the compiled assignments on the variables. */
  function ClickReaction(i: nat, primaryAction: string, rules: seq<ConditionalRule>, states: seq<string>,
                         varIds: seq<nat>): Reaction
    requires i < |states| == |varIds|
  {
    StateCompiler.ReactionShape(i, primaryAction, rules, states, states);
    Reaction(OnClick, ToActions(StateCompiler.Reaction(i, primaryAction, rules, states, states), varIds))
  }

  /**
   * The reaction each instance is given: its compiled click reaction when
   * there are variables, and an ON_CLICK with no action otherwise. The
   * values each instance holds at compile time are its original states.
   */
  function LegacyReactions(n: nat, primaryAction: string, rules: seq<ConditionalRule>, states: seq<string>,
                           varIds: seq<nat>): seq<seq<Reaction>>
    requires varIds == [] || |varIds| == |states| == n
  {
    seq(n, i requires 0 <= i < n =>
      [if varIds == [] then Reaction(OnClick, []) else ClickReaction(i, primaryAction, rules, states, varIds)])
  }

  /**
   * A click on instance `i` sets every instance's variable exactly once:
   * its own to the primary value, each other to the target its rules
   * compute from its state.
   */
  lemma ClickSetsEachVariableOnce(i: nat, primaryAction: string, rules: seq<ConditionalRule>, states: seq<string>,
                                  varIds: seq<nat>, j: nat)
    requires i < |states| == |varIds| && j < |states|
    requires forall a, b :: 0 <= a < b < |varIds| ==> varIds[a] != varIds[b]
    ensures var actions := ClickReaction(i, primaryAction, rules, states, varIds).actions;
            var primary := StateCompiler.SplitPair(primaryAction);
      && |actions| == |states|
      && (exists m :: 0 <= m < |actions| && actions[m].SetVariable? && actions[m].variableId == varIds[j])
      && (forall m :: 0 <= m < |actions| && actions[m].SetVariable? && actions[m].variableId == varIds[j] ==>
            actions[m].value == if j == i then StateCompiler.Show(primary.value)
                                else StateCompiler.SiblingTarget(StateCompiler.TableOf(rules, primary.prop, primary.value),
                                                                 states[j], states[j], primary.prop))
  {
    var primary := StateCompiler.SplitPair(primaryAction);
    var r := StateCompiler.Reaction(i, primaryAction, rules, states, states);
    StateCompiler.ReactionShape(i, primaryAction, rules, states, states);
    StateCompiler.ReactionCoversEachInstanceOnce(i, primaryAction, rules, states, states, j);
    var actions := ClickReaction(i, primaryAction, rules, states, varIds).actions;
    var p := StateCompiler.Position(i, j);
    assert actions[p] == SetVariable(varIds[j], r[p].value);
    forall m | 0 <= m < |actions| && actions[m].SetVariable? && actions[m].variableId == varIds[j]
      ensures actions[m].value == if j == i then StateCompiler.Show(primary.value)
                                  else StateCompiler.SiblingTarget(StateCompiler.TableOf(rules, primary.prop, primary.value),
                                                                   states[j], states[j], primary.prop)
    {
      assert varIds[r[m].instance] == varIds[j];
      assert r[m].instance == j;
      assert m == p;
      if m > 0 {
        assert r[m].instance == StateCompiler.SiblingIndex(i, m - 1);
      }
    }
  }

  /**
   * After the clearing and installing passes with variables, every
   * instance the host accepts (and that is not repeated later) holds one
   * ON_CLICK reaction that sets its own variable to the primary value
   * first and assigns each of the group's variables.
   */
  lemma LegacyPassInstallsClickReactions(reactions: map<string, seq<Reaction>>, instances: seq<Instance>,
                                         primaryAction: string, rules: seq<ConditionalRule>, states: seq<string>,
                                         varIds: seq<nat>, rejects: set<string>, i: nat)
    requires |varIds| == |states| == |instances| && i < |instances| && instances[i].id !in rejects
    requires forall j :: i < j < |instances| ==> instances[j].id != instances[i].id
    ensures var after := ApplyWrites(reactions, InteractionManager.PassWrites(
                           instances, LegacyReactions(|instances|, primaryAction, rules, states, varIds), rejects));
      && instances[i].id in after && |after[instances[i].id]| == 1
      && after[instances[i].id][0].trigger == OnClick
      && |after[instances[i].id][0].actions| == |instances|
      && after[instances[i].id][0].actions[0]
         == SetVariable(varIds[i], StateCompiler.Show(StateCompiler.SplitPair(primaryAction).value))
      && forall j :: 0 <= j < |instances| ==>
           exists m :: 0 <= m < |instances| && after[instances[i].id][0].actions[m].SetVariable?
                                && after[instances[i].id][0].actions[m].variableId == varIds[j]
  {
    var planned := LegacyReactions(|instances|, primaryAction, rules, states, varIds);
    var ids := NodeIds(instances);
    var clears := AcceptedWrites(ids, Cleared(|instances|), rejects);
    ApplyWritesAppend(reactions, clears, AcceptedWrites(ids, planned, rejects));
    AcceptedWritesFinal(ApplyWrites(reactions, clears), ids, planned, rejects, i);
    var r := StateCompiler.Reaction(i, primaryAction, rules, states, states);
    StateCompiler.ReactionShape(i, primaryAction, rules, states, states);
    var actions := ClickReaction(i, primaryAction, rules, states, varIds).actions;
    forall j | 0 <= j < |instances|
      ensures exists m :: 0 <= m < |instances| && actions[m].SetVariable? && actions[m].variableId == varIds[j]
    {
      StateCompiler.ReactionCoversEachInstanceOnce(i, primaryAction, rules, states, states, j);
      var p := StateCompiler.Position(i, j);
      assert actions[p] == SetVariable(varIds[r[p].instance], r[p].value);
    }
  }

  /**
   * The modular rewrite keeps only the first action of the legacy click
   * reaction: both set the clicked instance's own variable to the primary
   * value, and the rewrite drops the sibling assignments.
   */
  lemma RewriteKeepsOnlyOwnAssignment(i: nat, primaryAction: string, rules: seq<ConditionalRule>, states: seq<string>,
                                      varIds: seq<nat>)
    requires i < |states| == |varIds|
    ensures var legacy := ClickReaction(i, primaryAction, rules, states, varIds);
            var rewrite := InteractionManager.SelfReactions(|states|, StateCompiler.SplitPair(primaryAction).value, varIds)[i];
      && |rewrite| == 1 && rewrite[0].trigger == legacy.trigger == OnClick
      && |legacy.actions| == |states| && rewrite[0].actions == legacy.actions[..1]
  {
    StateCompiler.ReactionShape(i, primaryAction, rules, states, states);
  }

  // ---------------------------------------------------------------------
  // The plugin
  // ---------------------------------------------------------------------

  /** `componentData.find(c => c.id === id)?.name`. */
  function ComponentNameOption(components: seq<ComponentInfo>, id: string): (r: Option<string>)
    ensures r.Some? <==> exists k :: 0 <= k < |components| && components[k].id == id
    ensures r.Some? ==> r.value == components[GroupIndex(components, id)].name
  {
    var c := FindComponent(components, id);
    if c.Some? then Some(c.value.name) else None
  }

  /** What initializePlugin posts to the UI. */
  datatype InitMessage =
    | InitError(text: string)
    | InitSuccess(selectedInstance: string, components: seq<ComponentInfo>, existingInteractions: map<string, Interaction>)

  /** The module-level state of code.js. */
  class Plugin {
    var componentData: seq<ComponentInfo>
    var interactions: seq<Interaction>
    var variableCollection: Option<Collection>

    constructor ()
      ensures componentData == [] && interactions == [] && variableCollection == None
    {
      componentData := [];
      interactions := [];
      variableCollection := None;
    }

    /**
     * initializePlugin: exactly one selected node, an instance, with nested
     * instances; then the instances grouped by component (options not
     * deduplicated), the collection set up, and the stored interactions
     * of the groups looked up.
     */
    method InitializePlugin(store: VariableStore, storage: ClientStorage, selection: seq<SceneNode>)
      returns (message: InitMessage)
      requires store.Valid()
      modifies this, store
      ensures store.Valid()
      ensures interactions == old(interactions) && store.variables == old(store.variables)
      ensures |selection| != 1 ==>
                message == InitError("Please select exactly one component instance.")
      ensures |selection| == 1 && !selection[0].InstanceNode? ==>
                message == InitError("Selected element must be a component instance.")
      ensures |selection| == 1 && selection[0].InstanceNode? && FlattenAll(selection[0].children) == [] ==>
                message == InitError("No nested component instances found in selection.")
      ensures message.InitError? ==>
                componentData == old(componentData) && variableCollection == old(variableCollection)
                && store.collections == old(store.collections)
      ensures message.InitSuccess? <==>
                |selection| == 1 && selection[0].InstanceNode? && FlattenAll(selection[0].children) != []
      ensures message.InitSuccess? ==>
                && componentData == Grouped(FlattenAll(selection[0].children), false)
                && message.selectedInstance == selection[0].instance.name
                && message.components == componentData
                && (store.listingUnavailable ==> variableCollection == old(variableCollection))
                && (!store.listingUnavailable ==>
                      variableCollection == FindCollection(store.collections, VariableManager.VARIABLE_COLLECTION_NAME))
                && (forall id :: id in message.existingInteractions <==>
                      (exists j :: 0 <= j < |componentData| && componentData[j].id == id)
                      && Retrieved(storage.data, storage.unavailable, id).Some?)
                && (forall id :: id in message.existingInteractions ==>
                      Some(message.existingInteractions[id]) == Retrieved(storage.data, storage.unavailable, id))
    {
      if |selection| != 1 {
        return InitError("Please select exactly one component instance.");
      }
      var selectedNode := selection[0];
      if !selectedNode.InstanceNode? {
        return InitError("Selected element must be a component instance.");
      }
      var nestedInstances := FindNestedInstances(selectedNode);
      if |nestedInstances| == 0 {
        return InitError("No nested component instances found in selection.");
      }
      componentData := GroupInstances(nestedInstances, false);
      variableCollection := VariableManager.SetupCollection(store, variableCollection);
      var existing := GetExistingInteractions(storage, componentData);
      message := InitSuccess(selectedNode.instance.name, componentData, existing);
    }

    /**
     * cleanupExistingInteraction: remove the collection's variables whose
     * name starts with the id; only when every removal succeeded is the
     * first interaction with that id spliced out of the list.
     */
    method CleanupExistingInteraction(store: VariableStore, interactionId: string)
      requires store.Valid()
      modifies this, store
      ensures store.Valid()
      ensures componentData == old(componentData) && variableCollection == old(variableCollection)
      ensures store.collections == old(store.collections) && store.nextId == old(store.nextId)
      ensures variableCollection.None? || store.listingUnavailable ==>
                store.variables == old(store.variables) && interactions == old(interactions)
      ensures variableCollection.Some? && !store.listingUnavailable ==>
                var cleanup := VariableManager.PrefixCleanup(old(store.variables), store.undeletable,
                                                             variableCollection.value.id, interactionId);
                && store.variables == cleanup.remaining
                && interactions == if cleanup.completed then RemoveFirst(old(interactions), interactionId)
                                   else old(interactions)
    {
      if variableCollection.None? {
        return;
      }
      var completed := VariableManager.RemoveByPrefix(store, variableCollection.value.id, interactionId);
      if completed {
        var existingIndex := InteractionIndex(interactions, interactionId);
        if existingIndex < |interactions| {
          interactions := interactions[..existingIndex] + interactions[existingIndex + 1..];
        }
      }
    }

    /**
     * performComprehensiveCleanup: the orphan sweep; the interactions list
     * is emptied only when the sweep ran to its end.
     */
    method PerformComprehensiveCleanup(store: VariableStore, canvas: Canvas)
      requires store.Valid()
      modifies this, store
      ensures store.Valid()
      ensures componentData == old(componentData) && variableCollection == old(variableCollection)
      ensures store.collections == old(store.collections) && store.nextId == old(store.nextId)
      ensures var found := FindCollection(store.collections, VariableManager.VARIABLE_COLLECTION_NAME);
        if !store.listingUnavailable && found.Some? && VariableManager.InCollection(old(store.variables), found.value.id) != [] then
          && interactions == []
          && store.variables == VariableManager.Swept(old(store.variables), found.value.id, canvas.reactions, store.undeletable)
        else
          interactions == old(interactions) && store.variables == old(store.variables)
    {
      var reachedEnd := VariableManager.PerformComprehensiveCleanup(store, canvas);
      if reachedEnd {
        interactions := [];
      }
    }

    /**
     * applyInteractionToInstances: nothing for an unknown component; when
     * the primary property resolves to a VARIANT property, one seeded and
     * bound variable per instance; then every instance's reactions
     * cleared, then each given its compiled click reaction.
     */
    method ApplyInteractionToInstances(store: VariableStore, canvas: Canvas, interaction: Interaction)
      requires store.Valid()
      modifies store, canvas
      ensures store.Valid()
      ensures store.collections == old(store.collections)
      ensures old(store.variables) <= store.variables
      ensures FindComponent(componentData, interaction.component).None? ==>
                && store.variables == old(store.variables) && store.nextId == old(store.nextId)
                && canvas.writes == old(canvas.writes) && canvas.reactions == old(canvas.reactions)
                && canvas.bindings == old(canvas.bindings)
      ensures FindComponent(componentData, interaction.component).Some? ==>
        var instances := FindComponent(componentData, interaction.component).value.instances;
        var primary := StateCompiler.SplitPair(interaction.primaryAction);
        var analysis := FindVariantProperty(primary.prop, instances);
        ApplyOutcome(old(store.variables), store.variables, old(store.nextId), store.nextId,
                     old(canvas.writes), canvas.writes, old(canvas.reactions), canvas.reactions,
                     old(canvas.bindings), canvas.bindings, canvas.rejects, canvas.bindRejects,
                     variableCollection, interaction, instances, primary, analysis)
    {
      var component := FindComponent(componentData, interaction.component);
      if component.None? {
        return;
      }
      var primary := StateCompiler.SplitPair(interaction.primaryAction);
      var analysis := FindVariantProperty(primary.prop, component.value.instances);
      ApplyToInstances(store, canvas, interaction, component.value.instances, primary, analysis);
    }

    /** applyInteractionToInstances once the component is found and its variant property looked up. */
    method ApplyToInstances(store: VariableStore, canvas: Canvas, interaction: Interaction, instances: seq<Instance>,
                            primary: StateCompiler.Split, analysis: PropertyAnalysis)
      requires store.Valid()
      modifies store, canvas
      ensures store.Valid()
      ensures store.collections == old(store.collections)
      ensures old(store.variables) <= store.variables
      ensures ApplyOutcome(old(store.variables), store.variables, old(store.nextId), store.nextId,
                           old(canvas.writes), canvas.writes, old(canvas.reactions), canvas.reactions,
                           old(canvas.bindings), canvas.bindings, canvas.rejects, canvas.bindRejects,
                           variableCollection, interaction, instances, primary, analysis)
    {
      ghost var firstId := store.nextId;
      if Resolved(analysis) && variableCollection.None? {
        // createVariable throws on a missing collection; the error is caught.
        return;
      }
      var originalStates: seq<string> := [];
      var varIds: seq<nat> := [];
      if Resolved(analysis) {
        var b := VariableManager.BindInstanceVariables(store, canvas, variableCollection.value.id, interaction.id, instances,
                                                       analysis.actualPropertyName.value, primary.prop);
        originalStates, varIds := b.originalStates, VarIds(b.instanceVars);
        assert varIds == FreshIds(firstId, |instances|);
      }
      ReplaceReactions(canvas, instances, interaction, originalStates, varIds);
    }

    /** The two passes: clear every instance's reactions, then install each one's compiled reaction. */
    method ReplaceReactions(canvas: Canvas, instances: seq<Instance>, interaction: Interaction,
                            originalStates: seq<string>, varIds: seq<nat>)
      requires varIds == [] || |varIds| == |originalStates| == |instances|
      modifies canvas
      ensures var planned := LegacyReactions(|instances|, interaction.primaryAction, interaction.conditionalRules,
                                             originalStates, varIds);
              var writes := InteractionManager.PassWrites(instances, planned, canvas.rejects);
        && canvas.writes == old(canvas.writes) + writes
        && canvas.reactions == ApplyWrites(old(canvas.reactions), writes)
      ensures canvas.bindings == old(canvas.bindings)
    {
      ghost var planned := LegacyReactions(|instances|, interaction.primaryAction, interaction.conditionalRules,
                                           originalStates, varIds);
      ghost var clearing := AcceptedWrites(NodeIds(instances), Cleared(|instances|), canvas.rejects);
      ghost var installing := AcceptedWrites(NodeIds(instances), planned, canvas.rejects);
      ClearReactions(canvas, NodeIds(instances));
      InstallReactions(canvas, instances, interaction, originalStates, varIds);
      ApplyWritesAppend(old(canvas.reactions), clearing, installing);
    }

    /**
     * The second loop: each instance is given its compiled reaction (the
     * ruleMap pass and the sibling pass of StateCompiler.CompileReaction),
     * a failure on one not stopping the others.
     */
    method InstallReactions(canvas: Canvas, instances: seq<Instance>, interaction: Interaction,
                            originalStates: seq<string>, varIds: seq<nat>)
      requires varIds == [] || |varIds| == |originalStates| == |instances|
      modifies canvas
      ensures var planned := LegacyReactions(|instances|, interaction.primaryAction, interaction.conditionalRules,
                                             originalStates, varIds);
        && canvas.writes == old(canvas.writes) + AcceptedWrites(NodeIds(instances), planned, canvas.rejects)
        && canvas.reactions == ApplyWrites(old(canvas.reactions), AcceptedWrites(NodeIds(instances), planned, canvas.rejects))
      ensures canvas.bindings == old(canvas.bindings)
    {
      ghost var planned := LegacyReactions(|instances|, interaction.primaryAction, interaction.conditionalRules,
                                           originalStates, varIds);
      var ids := NodeIds(instances);
      for i := 0 to |instances|
        invariant canvas.writes == old(canvas.writes) + AcceptedWrites(ids[..i], planned[..i], canvas.rejects)
        invariant canvas.reactions == ApplyWrites(old(canvas.reactions), AcceptedWrites(ids[..i], planned[..i], canvas.rejects))
        invariant canvas.bindings == old(canvas.bindings)
      {
        AcceptedWritesStep(ids, planned, canvas.rejects, i);
        ApplyWritesSnoc(old(canvas.reactions), AcceptedWrites(ids[..i], planned[..i], canvas.rejects), (ids[i], planned[i]));
        var reaction := Reaction(OnClick, []);
        if |varIds| > 0 {
          reaction := CompileClick(i, interaction, originalStates, varIds);
        }
        assert planned[i] == [reaction];
        var _ := canvas.SetReactions(instances[i].id, [reaction]);
        if ids[i] in canvas.rejects {
          assert AcceptedWrites(ids[..i + 1], planned[..i + 1], canvas.rejects) == AcceptedWrites(ids[..i], planned[..i], canvas.rejects);
        }
      }
      assert ids[..|instances|] == ids && planned[..|instances|] == planned;
    }

    /** The reaction of one clicked instance: its compiled assignments as SET_VARIABLE actions. */
    method CompileClick(i: nat, interaction: Interaction, originalStates: seq<string>, varIds: seq<nat>)
      returns (reaction: Reaction)
      requires i < |originalStates| == |varIds|
      ensures reaction == ClickReaction(i, interaction.primaryAction, interaction.conditionalRules, originalStates, varIds)
    {
      var assignments := StateCompiler.CompileReaction(i, interaction.primaryAction, interaction.conditionalRules,
                                                       originalStates, originalStates);
      StateCompiler.ReactionShape(i, interaction.primaryAction, interaction.conditionalRules, originalStates, originalStates);
      reaction := Reaction(OnClick, ToActions(assignments, varIds));
    }

    /**
     * createInteraction: set up the collection if there is none (an error
     * when that fails), clean up the interaction's previous variables and
     * entry, create its flags, record and store it, and apply it to its
     * component's instances.
     */
    method CreateInteraction(store: VariableStore, canvas: Canvas, storage: ClientStorage, interaction: Interaction)
      returns (message: UiMessage)
      requires store.Valid()
      modifies this, store, canvas, storage
      ensures store.Valid()
      ensures componentData == old(componentData)
      ensures variableCollection
              == if old(variableCollection).Some? || store.listingUnavailable then old(variableCollection)
                 else FindCollection(store.collections, VariableManager.VARIABLE_COLLECTION_NAME)
      ensures variableCollection.None? ==>
                && message == UiMessage("error", ErrorMessage("Failed to create interaction",
                                                              ErrorObject("Failed to create variable collection")))
                && interactions == old(interactions) && storage.data == old(storage.data)
                && store.variables == old(store.variables)
                && canvas.writes == old(canvas.writes) && canvas.reactions == old(canvas.reactions)
      ensures variableCollection.Some? ==>
                && message == UiMessage("interaction-created",
                                        "Interaction created successfully for "
                                        + StateCompiler.Show(ComponentNameOption(componentData, interaction.component)))
                && storage.data == (if StorageKey(interaction.component) in storage.unavailable then old(storage.data)
                                    else old(storage.data)[StorageKey(interaction.component) := interaction])
                && (exists k :: 0 <= k < |store.variables|
                                && store.variables[k].name == VariableManager.PrimaryVarName(interaction.id)
                                && store.variables[k].collectionId == variableCollection.value.id
                                && store.variables[k].value == BoolValue(false))
      ensures variableCollection.Some? && !store.listingUnavailable ==>
                var cleanup := VariableManager.PrefixCleanup(old(store.variables), store.undeletable,
                                                             variableCollection.value.id, interaction.id);
                && cleanup.remaining <= store.variables
                && interactions == (if cleanup.completed then RemoveFirst(old(interactions), interaction.id)
                                    else old(interactions)) + [interaction]
      ensures variableCollection.Some? && store.listingUnavailable ==> interactions == old(interactions) + [interaction]
    {
      if variableCollection.None? {
        variableCollection := VariableManager.SetupCollection(store, variableCollection);
      }
      if variableCollection.None? {
        return UiMessage("error", ErrorMessage("Failed to create interaction", ErrorObject("Failed to create variable collection")));
      }
      ghost var withFlags, firstId := RecordInteraction(store, canvas, storage, interaction);
      message := UiMessage("interaction-created",
                           "Interaction created successfully for "
                           + StateCompiler.Show(ComponentNameOption(componentData, interaction.component)));
    }

    /**
     * The part of createInteraction once there is a collection: clean up,
     * create the flags, push the interaction, store it and apply it.
     */
    method RecordInteraction(store: VariableStore, canvas: Canvas, storage: ClientStorage, interaction: Interaction)
      returns (ghost withFlags: seq<Variable>, ghost firstId: nat)
      requires store.Valid() && variableCollection.Some?
      modifies this, store, canvas, storage
      ensures store.Valid()
      ensures componentData == old(componentData) && variableCollection == old(variableCollection)
      ensures store.collections == old(store.collections)
      ensures storage.data == (if StorageKey(interaction.component) in storage.unavailable then old(storage.data)
                               else old(storage.data)[StorageKey(interaction.component) := interaction])
      ensures exists k :: 0 <= k < |store.variables|
                          && store.variables[k].name == VariableManager.PrimaryVarName(interaction.id)
                          && store.variables[k].collectionId == variableCollection.value.id
                          && store.variables[k].value == BoolValue(false)
      ensures !store.listingUnavailable ==>
                var cleanup := VariableManager.PrefixCleanup(old(store.variables), store.undeletable,
                                                             variableCollection.value.id, interaction.id);
                && cleanup.remaining <= store.variables
                && interactions == (if cleanup.completed then RemoveFirst(old(interactions), interaction.id)
                                    else old(interactions)) + [interaction]
      ensures store.listingUnavailable ==> interactions == old(interactions) + [interaction]
      ensures withFlags == WithFreshFlags(old(store.variables), store.undeletable, store.listingUnavailable,
                                          variableCollection.value.id, interaction, old(store.nextId))
      ensures firstId == old(store.nextId) + 1 + |interaction.conditionalRules|
      ensures FindComponent(componentData, interaction.component).None? ==>
                && store.variables == withFlags && store.nextId == firstId
                && canvas.writes == old(canvas.writes) && canvas.reactions == old(canvas.reactions)
                && canvas.bindings == old(canvas.bindings)
      ensures FindComponent(componentData, interaction.component).Some? ==>
        var instances := FindComponent(componentData, interaction.component).value.instances;
        var primary := StateCompiler.SplitPair(interaction.primaryAction);
        var analysis := FindVariantProperty(primary.prop, instances);
        ApplyOutcome(withFlags, store.variables, firstId, store.nextId,
                     old(canvas.writes), canvas.writes, old(canvas.reactions), canvas.reactions,
                     old(canvas.bindings), canvas.bindings, canvas.rejects, canvas.bindRejects,
                     variableCollection, interaction, instances, primary, analysis)
    {
      ghost var primaryAt := ReplaceFlags(store, interaction);
      withFlags, firstId := store.variables, store.nextId;
      ghost var kept := if store.listingUnavailable then old(store.variables)
                        else VariableManager.PrefixCleanup(old(store.variables), store.undeletable,
                                                           variableCollection.value.id, interaction.id).remaining;
      assert kept <= withFlags;
      PushAndApply(store, canvas, storage, interaction);
      assert kept <= store.variables;
      assert store.variables[primaryAt] == withFlags[primaryAt];
    }

    /** The last steps of createInteraction: record the interaction, store it, apply it. */
    method PushAndApply(store: VariableStore, canvas: Canvas, storage: ClientStorage, interaction: Interaction)
      requires store.Valid()
      modifies this, store, canvas, storage
      ensures store.Valid()
      ensures componentData == old(componentData) && variableCollection == old(variableCollection)
      ensures interactions == old(interactions) + [interaction]
      ensures storage.data == (if StorageKey(interaction.component) in storage.unavailable then old(storage.data)
                               else old(storage.data)[StorageKey(interaction.component) := interaction])
      ensures store.collections == old(store.collections) && old(store.variables) <= store.variables
      ensures FindComponent(componentData, interaction.component).None? ==>
                && store.variables == old(store.variables) && store.nextId == old(store.nextId)
                && canvas.writes == old(canvas.writes) && canvas.reactions == old(canvas.reactions)
                && canvas.bindings == old(canvas.bindings)
      ensures FindComponent(componentData, interaction.component).Some? ==>
        var instances := FindComponent(componentData, interaction.component).value.instances;
        var primary := StateCompiler.SplitPair(interaction.primaryAction);
        var analysis := FindVariantProperty(primary.prop, instances);
        ApplyOutcome(old(store.variables), store.variables, old(store.nextId), store.nextId,
                     old(canvas.writes), canvas.writes, old(canvas.reactions), canvas.reactions,
                     old(canvas.bindings), canvas.bindings, canvas.rejects, canvas.bindRejects,
                     variableCollection, interaction, instances, primary, analysis)
    {
      interactions := interactions + [interaction];
      StoreInteractionData(storage, interaction);
      ApplyInteractionToInstances(store, canvas, interaction);
    }

    /** The first two steps of createInteraction with a collection: clean up, then create the flags. */
    method ReplaceFlags(store: VariableStore, interaction: Interaction) returns (ghost primaryAt: nat)
      requires store.Valid() && variableCollection.Some?
      modifies this, store
      ensures store.Valid()
      ensures componentData == old(componentData) && variableCollection == old(variableCollection)
      ensures store.collections == old(store.collections)
      ensures store.nextId == old(store.nextId) + 1 + |interaction.conditionalRules|
      ensures store.variables == WithFreshFlags(old(store.variables), store.undeletable, store.listingUnavailable,
                                                variableCollection.value.id, interaction, old(store.nextId))
      ensures primaryAt < |store.variables|
              && store.variables[primaryAt] == VariableManager.FlagVariablesFor(old(store.nextId), variableCollection.value.id,
                                                                                interaction.id,
                                                                                |interaction.conditionalRules|).primaryVar
      ensures !store.listingUnavailable ==>
                var cleanup := VariableManager.PrefixCleanup(old(store.variables), store.undeletable,
                                                             variableCollection.value.id, interaction.id);
                && interactions == (if cleanup.completed then RemoveFirst(old(interactions), interaction.id)
                                    else old(interactions))
      ensures store.listingUnavailable ==> interactions == old(interactions)
    {
      CleanupExistingInteraction(store, interaction.id);
      primaryAt := |store.variables|;
      var flags := VariableManager.CreateFlagVariables(store, variableCollection.value.id, interaction.id,
                                                        |interaction.conditionalRules|);
      assert store.variables[primaryAt] == flags.primaryVar;
    }
  }

  /**
   * The variables createInteraction leaves before applying: the
   * interaction's old variables cleaned up (unless the listing fails), then
   * its flags, numbered from `nextId`.
   */
  function WithFreshFlags(variables: seq<Variable>, undeletable: set<nat>, listingUnavailable: bool, collectionId: nat,
                          interaction: Interaction, nextId: nat): seq<Variable>
  {
    var f := VariableManager.FlagVariablesFor(nextId, collectionId, interaction.id, |interaction.conditionalRules|);
    var kept := if listingUnavailable then variables
                else VariableManager.PrefixCleanup(variables, undeletable, collectionId, interaction.id).remaining;
    kept + [f.primaryVar] + f.conditionalVars
  }

  /**
   * The state applyInteractionToInstances leaves: unchanged when the
   * property resolves but there is no collection; otherwise the variables
   * (when it resolves) and the two passes of reaction writes.
   */
  ghost predicate ApplyOutcome(variables0: seq<Variable>, variables: seq<Variable>, nextId0: nat, nextId: nat,
                               writes0: seq<ReactionWrite>, writes: seq<ReactionWrite>,
                               reactions0: map<string, seq<Reaction>>, reactions: map<string, seq<Reaction>>,
                               bindings0: map<(string, string), nat>, bindings: map<(string, string), nat>,
                               rejects: set<string>, bindRejects: set<string>, collection: Option<Collection>, interaction: Interaction,
                               instances: seq<Instance>, primary: StateCompiler.Split, analysis: PropertyAnalysis)
  {
    if Resolved(analysis) && collection.None? then
      variables == variables0 && nextId == nextId0 && writes == writes0 && reactions == reactions0 && bindings == bindings0
    else
      var name := if Resolved(analysis) then analysis.actualPropertyName.value else "";
      var states := if Resolved(analysis) then VariableManager.OriginalStates(instances, name) else [];
      var varIds := if Resolved(analysis) then FreshIds(nextId0, |instances|) else [];
      var planned := LegacyReactions(|instances|, interaction.primaryAction, interaction.conditionalRules, states, varIds);
      var passes := InteractionManager.PassWrites(instances, planned, rejects);
      && writes == writes0 + passes
      && reactions == ApplyWrites(reactions0, passes)
      && (Resolved(analysis) ==>
            && variables == variables0 + VariableManager.InstanceVariables(nextId0, collection.value.id, interaction.id,
                                                                           instances, name, primary.prop)
            && nextId == nextId0 + |instances|
            && bindings == VariableManager.BoundProperties(bindings0, instances, name, nextId0, bindRejects))
      && (!Resolved(analysis) ==> variables == variables0 && nextId == nextId0 && bindings == bindings0)
  }
}
