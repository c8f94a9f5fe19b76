# State machine plugin for Figma, modelled in Dafny

The plugin turns a group of component instances nested in one selected
instance into a small state machine. The user picks a component family and
writes a primary action such as `state=active`. They may also write
conditional rules such as `state=hover -> RESET_TO_INITIAL`. The plugin then
does the following:

- it creates a variable collection named `state-machine`;
- it creates one STRING variable per instance, seeded with that instance's
  current variant value and bound to its VARIANT property;
- it creates BOOLEAN flag variables for the interaction;
- it gives every instance an ON_CLICK prototype reaction made of
  SET_VARIABLE actions;
- it persists the interaction in the client storage under
  `interaction_<component id>`.

This project models that core, in two forms:

- the legacy single-file plugin, `code.js`;
- its modular rewrite, `src/plugin/*.ts`.

The two differ in what a click does:

- In `code.js`, the ON_CLICK reaction sets the clicked instance to the
  primary value. It also sets every sibling to a target computed from the
  conditional rules. This is the sibling-propagation compiler.
- In the rewrite, the reaction only sets the clicked instance. Rules that
  name a target component yield a log line and no action.

Modules, one per source file or concern:

| module | file | models |
|---|---|---|
| `Wrappers` | wrappers.dfy | `Option`, `Result` |
| `Strings` | strings.dfy | `includes`/`split` on one character, ASCII `toLowerCase`, `startsWith`, decimal rendering of indices |
| `Utils` | utils.dfy | `extractPropertyValue`, the `handleError` message format, UI messages |
| `Scene` | scene.dfy | instance nodes, component sets and their property definitions |
| `Host` | host.dfy | the host's variable store (`VariableStore`) and prototype canvas (`Canvas`) as classes |
| `Storage` | storage.dfy | the client storage (`ClientStorage`) and storage.ts |
| `ComponentAnalyzer` | component_analyzer.dfy | component-analyzer.ts, and the legacy grouping of code.js |
| `VariableManager` | variable_manager.dfy | variable-manager.ts (class `VariableManager`), and the variable steps shared with code.js |
| `StateCompiler` | state_compiler.dfy | the rule lookup and the sibling targets of code.js:438-549 |
| `InteractionManager` | interaction_manager.dfy | interaction-manager.ts (class `InteractionManager`) |
| `PluginCode` | plugin_code.dfy | the rest of code.js (class `Plugin`) |

Host calls that can fail are modelled as fixed host state:

| host state | calls that fail |
|---|---|
| `Canvas.rejects` | node ids whose `setReactionsAsync` throws |
| `Canvas.bindRejects` | node ids whose `setProperties` throws |
| `VariableStore.undeletable` | variable ids whose `remove()` throws |
| `VariableStore.listingUnavailable` | the listing calls, which then throw |
| `ClientStorage.unavailable` | keys whose storage calls throw |

Each `try`/`catch` of the source becomes the corresponding branch. This
lets the contracts state what survives a failure. The other host calls are
modelled as never failing (see "## Left out").

One consequence of the legacy pipeline's shape is worth stating. Siblings'
"current" values are read at compile time, from the same property that
seeded their variables. So the current values equal the original states.
`StateCompiler` takes both inputs and is proved for any pair. `PluginCode`
passes the original states for both.

A second observation, recorded but not listed under Findings: both
pipelines clean up an interaction's previous variables by prefix, but they
use the *incoming* interaction id. That id is built fresh on every save, as
`<component>_<timestamp>` (`src/ui/ui.js:77`). So a re-created
interaction's previous variables survive:

- `VariableManager.IncomingIdKeepsPreviousVariables` exhibits this case;
- `VariableManager.RetiringCleanupRetiresPrevious` proves that a cleanup by
  the previous ids would retire them.

The model keeps the source's behaviour.

## Model

| member | source | states |
|---|---|---|
| Strings.IndexOf | code.js:481-484 | the first position of a character (or the length when absent): everything before it differs from the character |
| Strings.IndexOfFound | code.js:481 | `includes(c)` holds exactly when the first position is inside the string |
| Strings.Lower | code.js:486 | `toLowerCase` keeps the length and folds each character |
| Strings.LowerIdempotent | code.js:486 | folding twice is folding once |
| Strings.SameIgnoringCaseIsFoldedEquality | code.js:486 | the test `a === b \|\| a.toLowerCase() === b.toLowerCase()` is exactly equality after folding |
| Strings.SameIgnoringCaseIsEquivalence | src/plugin/component-analyzer.ts:133-134 | the property-name match is reflexive, symmetric and transitive |
| Strings.StartsWithAppend | src/plugin/variable-manager.ts:165-166 | a name built as prefix + rest starts with the prefix |
| Strings.NatToString | src/plugin/variable-manager.ts:62 | a rendered index is a non-empty digit string without a leading zero |
| Strings.NatToStringRoundTrip | src/plugin/variable-manager.ts:62 | reading the rendered index back yields the index |
| Strings.NatToStringInjective | src/plugin/variable-manager.ts:198 | different indices render differently |
| Utils.ExtractPropertyValue | src/plugin/utils.ts:7-24 | a string is returned as is; an object yields `String(value)` if it has `value`, else `String(name)` if it has `name`; anything else is `String(x)` |
| Utils.ExtractIdempotent | src/plugin/utils.ts:7-10 | extracting from an extracted value returns it unchanged |
| Utils.ErrorMessage | src/plugin/utils.ts:36-40 | the message is the context, `": "`, then the error's message or `Unknown error` for a non-Error |
| Utils.ErrorMessageInjective | src/plugin/utils.ts:37-39 | for contexts that hold no `": "`, the context and the cause can be recovered from the message |
| Utils.ContextEndsAtFirstSeparator | src/plugin/utils.ts:39 | for such a context, the message's first `": "` is the one that ends the context |
| Utils.PluginErrorMessagesInjective | src/plugin/utils.ts:36-40 | the contexts the plugin reports under hold no `": "`: `Message handler` and `Initialization failed` (main.ts:55, 110), `Failed to create interaction` (interaction-manager.ts:66). So the plugin's error messages determine context and cause |
| Scene.Lookup | src/plugin/variable-manager.ts:69-70 | `obj[key]` is defined exactly when some entry has the key, and is that entry's value |
| Scene.NodeIds | src/plugin/interaction-manager.ts:100-103 | the node ids of the instances, position by position |
| ComponentAnalyzer.FlattenAllMembers | src/plugin/component-analyzer.ts:23-33 | the traversal lists an instance exactly when some node of the forest, at any depth, holds it |
| ComponentAnalyzer.NestedInstancesAreProperDescendants | src/plugin/component-analyzer.ts:35-40 | the selected node itself is left out: the listed instances are exactly those strictly below it |
| ComponentAnalyzer.ChildlessRootHasNoNestedInstances | src/plugin/component-analyzer.ts:36-42 | a node without children yields no instances |
| ComponentAnalyzer.Traverse | src/plugin/component-analyzer.ts:23-33 | `traverse` appends the node's pre-order instances to the list |
| ComponentAnalyzer.FindNestedInstances | src/plugin/component-analyzer.ts:20-43 | the result is the children's pre-order instance list, and holds exactly the instances of the subtrees below the root |
| ComponentAnalyzer.GroupIndex | src/plugin/component-analyzer.ts:70-80 | the Map lookup: the position of the first group with that id, or the length |
| ComponentAnalyzer.FindComponent | src/plugin/interaction-manager.ts:80-81 | `find(c => c.id === id)` succeeds exactly when some group has the id, and returns the first such group |
| ComponentAnalyzer.AddOptionsContents | src/plugin/component-analyzer.ts:97-101 | adding options keeps the old list as a prefix and holds exactly the old values and the options |
| ComponentAnalyzer.AddOptionsFirstSeen | src/plugin/component-analyzer.ts:97-101 | with the `includes` check, the list gains exactly the options it lacked, each at its first occurrence, in order |
| ComponentAnalyzer.AddOptionsNoDuplicates | src/plugin/component-analyzer.ts:98 | with the `includes` check, a duplicate-free list stays duplicate-free |
| ComponentAnalyzer.AddOptionsConcatenates | code.js:195-197 | without the check, the options are simply appended |
| ComponentAnalyzer.RecordPropertiesNoDuplicates | src/plugin/component-analyzer.ts:87-104 | recording an instance's properties with the check keeps every value list duplicate-free |
| ComponentAnalyzer.AnyHasKeySnoc | src/plugin/component-analyzer.ts:51-68 | some instance has a grouping id exactly when the prefix has one or the last instance has it |
| ComponentAnalyzer.AddInstanceEffect | src/plugin/component-analyzer.ts:70-81 | one step: the instance joins the group with its id, or opens a new group at the end; unresolved instances change nothing |
| ComponentAnalyzer.GroupedIdsDistinct | src/plugin/component-analyzer.ts:70-78 | no two groups share an id |
| ComponentAnalyzer.GroupedIds | src/plugin/component-analyzer.ts:52-53 | a group exists for an id exactly when some instance resolves to that id |
| ComponentAnalyzer.GroupedMembers | src/plugin/component-analyzer.ts:80-81 | each group holds exactly the instances with its id, in input order |
| ComponentAnalyzer.WithKeyNonEmpty | src/plugin/component-analyzer.ts:80-81 | a non-empty member list witnesses an instance with that id |
| ComponentAnalyzer.GroupedPropertiesDistinct | src/plugin/component-analyzer.ts:97-101 | with de-duplication, no value list of any group repeats a value |
| ComponentAnalyzer.NonVariantGetsEmptyList | src/plugin/component-analyzer.ts:87-101 | a property whose definition is missing, not VARIANT or without options is recorded exactly when an instance carries it, with an empty list (or the list it had) |
| ComponentAnalyzer.GroupedNonVariantLists | src/plugin/component-analyzer.ts:87-101 | when no instance with a grouping id lists options for a property, that id's group has an empty list for it, whatever other groups' definitions say |
| ComponentAnalyzer.GroupNonVariantLists | src/plugin/component-analyzer.ts:87-101 | the same, read off one group's own instances |
| ComponentAnalyzer.PropertiesOnlyFromComponentSets | src/plugin/component-analyzer.ts:84 | a grouping id none of whose instances sits in a component set gets a group with no properties |
| ComponentAnalyzer.GroupWithoutComponentSetHasNoProperties | src/plugin/component-analyzer.ts:84 | a group none of whose own instances sits in a component set records no properties |
| ComponentAnalyzer.RecordVariantEntry | src/plugin/component-analyzer.ts:87-101 | a single VARIANT entry adds its definition's options to that property's list, creating the list when missing |
| ComponentAnalyzer.TwoOfOneComponentSet | src/plugin/component-analyzer.ts:51-104 | two instances of one component set form a single group holding both, with both instances' properties recorded in order |
| ComponentAnalyzer.LegacyGroupingRepeatsOptions | code.js:195-197 | two instances of one component set with options `a`, `b` list them twice without de-duplication (code.js) and once with it (the rewrite) |
| ComponentAnalyzer.RecordComponentProperties | src/plugin/component-analyzer.ts:87-104 | the property loop computes the recorded properties |
| ComponentAnalyzer.GroupInstances | code.js:152-205 | the grouping loop yields the specified groups: distinct ids, each group exactly its instances in order, a group exactly for each resolved id |
| ComponentAnalyzer.GroupInstancesByComponent | src/plugin/component-analyzer.ts:48-109 | the rewrite's grouping, whose value lists never repeat a value |
| ComponentAnalyzer.FirstVariantMatch | src/plugin/component-analyzer.ts:131-137 | the first definition that is VARIANT and matches ignoring case; none before it matches |
| ComponentAnalyzer.FindVariantProperty | src/plugin/component-analyzer.ts:114-142 | resolves exactly when the first instance's main component sits in a component set with a VARIANT definition matching ignoring case; the name is the first such definition's |
| ComponentAnalyzer.ResolvedNameMatchesRequest | src/plugin/component-analyzer.ts:134 | the resolved name equals the requested one up to case |
| Storage.StorageKey | src/plugin/storage.ts:26 | the key is `interaction_` followed by the component id |
| Storage.StorageKeyInjective | src/plugin/storage.ts:38 | different components never share a key |
| Storage.StoreInteractionData | src/plugin/storage.ts:24-31 | the record is written under its component's key, or, when the host fails, the storage is unchanged |
| Storage.StoreLeavesOthers | src/plugin/storage.ts:24-31 | storing for one component leaves every other component's record as it was |
| Storage.StoreOverwrites | src/plugin/storage.ts:24-31 | storing twice for a component keeps only the second record |
| Storage.RetrieveInteractionData | src/plugin/storage.ts:36-48 | the stored record, or null when nothing is stored or the host fails |
| Storage.DeletedKeysBounds | src/plugin/storage.ts:53-62 | only listed components' keys are deleted; without a failure, all of them are |
| Storage.CleanupStoredInteractions | src/plugin/storage.ts:53-62 | the storage loses exactly the keys deleted before the first failure |
| Storage.DeletedKeysSnoc | src/plugin/storage.ts:55-58 | one more component without failure deletes one more key |
| Storage.GetExistingInteractions | src/plugin/storage.ts:67-80 | the dictionary has an entry exactly for each listed component with a retrievable record, and that entry is the record |
| Host.FindCollection | src/plugin/variable-manager.ts:23 | the first collection with the name, found exactly when one exists |
| Host.Keep | src/plugin/variable-manager.ts:140 | removal keeps exactly the variables whose ids are not removed |
| Host.KeepKeep | src/plugin/variable-manager.ts:137-146 | removing in two steps is removing the union |
| Host.KeepKeepsIdsDistinct | src/plugin/variable-manager.ts:140 | removal preserves distinct ids |
| Host.ApplyWritesElsewhere | src/plugin/interaction-manager.ts:103 | nodes not written keep their reactions |
| Host.ApplyWritesLast | src/plugin/interaction-manager.ts:132 | a node ends with the last reactions written to it |
| Host.AcceptedWritesMembers | src/plugin/interaction-manager.ts:110-138 | every accepted write sets some non-rejected instance to its planned reactions |
| Host.AcceptedWritesFinal | src/plugin/interaction-manager.ts:110-138 | after a pass, an accepted instance holds its planned reactions |
| Host.AcceptedWritesElsewhere | src/plugin/interaction-manager.ts:110-138 | a pass leaves nodes outside the group untouched |
| Host.ClearsPrecedeInstalls | src/plugin/interaction-manager.ts:99-110 | no reaction list is cleared after any instance has been given its new reaction |
| Host.ClearReactions | src/plugin/interaction-manager.ts:100-107 | the clearing loop writes `[]` to each accepted instance, a failure not stopping the others |
| VariableManager.VariableNamesCarryId | src/plugin/variable-manager.ts:62-198 | every variable of an interaction is named with the interaction id as prefix |
| VariableManager.InstanceVarNamesDistinct | src/plugin/variable-manager.ts:62 | two instances of one interaction never share a variable name |
| VariableManager.ConditionalVarNamesDistinct | src/plugin/variable-manager.ts:198 | two rules of one interaction never share a flag name |
| VariableManager.VariableKindsDistinct | src/plugin/variable-manager.ts:62-198 | primary flag, rule flags and instance variables have different names |
| VariableManager.FirstBlocked | src/plugin/variable-manager.ts:164-168 | the first matching variable the host refuses to remove; none before it is refused |
| VariableManager.PrefixCleanupRemovesExactlyMatches | src/plugin/variable-manager.ts:158-174 | a completed cleanup removes exactly the collection's variables named with the prefix, and completes exactly when none is refused; an interrupted one keeps everything from the refused one on |
| VariableManager.MatchingIdsAppend | src/plugin/variable-manager.ts:164-169 | matching ids grow by the appended variable exactly when it matches |
| VariableManager.PrefixCleanupStep | src/plugin/variable-manager.ts:164-169 | one iteration of the removal loop |
| VariableManager.RemoveByPrefix | code.js:285-296 | the removal loop computes the specified cleanup; a listing failure removes nothing and does not complete |
| VariableManager.IncomingIdKeepsPreviousVariables | src/plugin/interaction-manager.ts:40 | cleaning up with a fresh interaction id keeps the previous interaction's variables |
| VariableManager.RunCleanupsRemovesEveryPrefix | src/plugin/variable-manager.ts:158-174 | repeated prefix cleanups without refusal leave exactly the variables matching none of the prefixes |
| VariableManager.RetiringCleanupRetiresPrevious | src/plugin/variable-manager.ts:158-174 | a cleanup by the previous ids and the incoming one leaves none of their variables and keeps every other |
| VariableManager.RunCleanupsCompletes | src/plugin/variable-manager.ts:164-169 | with no undeletable variable in the collection, every cleanup completes and only removes |
| VariableManager.InCollection | src/plugin/variable-manager.ts:110 | `filter` keeps exactly the collection's variables |
| VariableManager.OrphanIdsAppend | src/plugin/variable-manager.ts:137-146 | orphan ids grow by the appended variable exactly when it is unreferenced and removable |
| VariableManager.SweepStep | src/plugin/variable-manager.ts:137-146 | one iteration of the orphan sweep |
| VariableManager.SweptKeepsExactly | src/plugin/variable-manager.ts:97-153 | the sweep removes exactly the collection's unreferenced, removable variables; referenced ones, refused ones and other collections' variables stay |
| VariableManager.CollectVariablesInUse | src/plugin/variable-manager.ts:117-133 | the collected set is exactly the ids set by some SET_VARIABLE action of some node |
| VariableManager.PerformComprehensiveCleanup | src/plugin/variable-manager.ts:97-153 | the removal loop is reached exactly when listing works, the collection exists and has variables; then the variables are the swept ones, otherwise unchanged |
| VariableManager.FindCollectionAppend | src/plugin/variable-manager.ts:25-27 | a created collection is then the one found by name |
| VariableManager.SetupCollection | src/plugin/variable-manager.ts:19-32 | the found or newly created `state-machine` collection; a listing failure keeps the current one |
| VariableManager.InstanceVariablesSeededWithOriginals | src/plugin/variable-manager.ts:57-78 | each instance variable is STRING, in the collection, seeded with that instance's original state, with an id and a name no other instance's variable shares |
| VariableManager.AcceptedInstancesAreBound | src/plugin/variable-manager.ts:81-88 | a refused binding does not stop the loop: every accepted instance is bound to its own variable |
| VariableManager.BoundPropertiesStep | src/plugin/variable-manager.ts:81-88 | one binding step |
| VariableManager.InstanceVariablesStep | src/plugin/variable-manager.ts:57-78 | one creation step |
| VariableManager.BindInstanceVariables | src/plugin/variable-manager.ts:54-91 | the creation loop appends exactly the specified variables, returns the original states, and binds the accepted instances |
| VariableManager.CreateFlagVariables | src/plugin/variable-manager.ts:186-204 | appends the primary flag and one flag per rule, all BOOLEAN and false |
| VariableManager.FlagVariablesShape | src/plugin/variable-manager.ts:186-204 | 1 + rules flags with distinct names, each prefixed by the interaction id |
| VariableManager.CleanupRetiresOwnVariables | src/plugin/variable-manager.ts:158-174 | a completed cleanup by an interaction's id leaves none of its flags, instance variables or nested interactions' flags |
| VariableManager.VariableManager.SetupVariableCollection | src/plugin/variable-manager.ts:19-32 | remembers the found or created collection, keeping the old one on a listing failure |
| VariableManager.VariableManager.CreateAndBindVariables | src/plugin/variable-manager.ts:44-92 | fails with `Variable collection not initialized` without a collection; otherwise the seeded, bound instance variables |
| VariableManager.VariableManager.CleanupExistingInteraction | src/plugin/variable-manager.ts:158-174 | nothing without a collection; otherwise the prefix cleanup over the collection |
| VariableManager.VariableManager.CreateInteractionVariables | src/plugin/variable-manager.ts:179-205 | fails with `Variable collection not initialized` without a collection; otherwise the flags |
| StateCompiler.SplitPair | code.js:438 | `split('=')`: the text before the first `=`, and the text up to the next `=` if there is one |
| StateCompiler.IndexOfAt | code.js:484 | characterises the first `=` |
| StateCompiler.SplitPairRoundTrip | code.js:484 | joining a property and a value with `=` and splitting gives them back |
| StateCompiler.FoldAppend | code.js:480-492 | the rule loop over two parts is the loop over the second from the first's table |
| StateCompiler.DeletingRuleThatDoesNotApply | code.js:481-486 | a rule that is skipped, or is on another property, changes no table entry |
| StateCompiler.TableHasEntry | code.js:486-487 | the table has an entry for a value exactly when some applying rule has that condition value |
| StateCompiler.TableLastRuleWins | code.js:487 | the entry is the action of the last applying rule with that condition value |
| StateCompiler.LastRuleForExtends | code.js:487 | the last rule with a value stays last when later rules have other values |
| StateCompiler.MainResetIsPrimaryEntry | code.js:488-490 | the main reset value is the table entry for the primary value |
| StateCompiler.TableActionsFromRules | code.js:487 | every action in the table is some rule's action |
| StateCompiler.SpecificRuleWins | code.js:508-520 | a specific rule that resolves wins over the main reset and the original state |
| StateCompiler.SpecificResetYieldsOriginal | code.js:510-512 | a specific RESET_TO_INITIAL gives the original state |
| StateCompiler.UnresolvedSpecificFallsThrough | code.js:514-520 | a specific action without `=` or on another property is passed over |
| StateCompiler.MainResetWins | code.js:522-535 | with no specific rule that resolves, a main reset that resolves wins over the original state |
| StateCompiler.PrimaryRuleResetWins | code.js:522-535 | the same over the rules: the sibling follows the resolved rule listed for the primary's own value |
| StateCompiler.DefaultsToOriginal | code.js:536-539 | without a usable rule the sibling returns to its original state |
| StateCompiler.TargetProvenance | code.js:504-539 | a target is the original state or the value part of some rule's action |
| StateCompiler.NoApplicableRulesMeansOriginal | code.js:480-539 | with no applying rule every sibling returns to its original state |
| StateCompiler.SiblingsShape | code.js:494-549 | the sibling assignments cover the other instances in ascending order, each with its target |
| StateCompiler.ReactionShape | code.js:465-549 | N assignments: the clicked instance to the primary value first, then every sibling once in ascending order with its target |
| StateCompiler.ReactionCoversEachInstanceOnce | code.js:465-549 | every instance of the group is assigned exactly once per click |
| StateCompiler.DeletingMalformedRuleChangesNothing | code.js:481-483 | deleting a rule without a condition, an action or `=` in the condition changes no assignment |
| StateCompiler.CompileReaction | code.js:465-549 | the imperative rule and sibling loops compute the specified assignments |
| StateCompiler.WorkedExample | code.js:504-539 | a three-instance group: the hover sibling resets, the default one stays |
| InteractionManager.PassOutcome | src/plugin/interaction-manager.ts:99-138 | after clearing and installing, each accepted instance holds its planned reaction and other nodes are untouched |
| InteractionManager.CollectMembers | src/plugin/interaction-manager.ts:173-215 | the log holds exactly the results of the rules that yield one |
| InteractionManager.IntentsStep | src/plugin/interaction-manager.ts:173-215 | one iteration of the rule loop |
| InteractionManager.IntentsAreMatchingRules | src/plugin/interaction-manager.ts:173-215 | the log lists exactly the rules whose condition holds on the instance and whose target is a known component |
| InteractionManager.IntentSound | src/plugin/interaction-manager.ts:174-206 | a logged intent names a known component and a condition value the instance has |
| InteractionManager.NestedInteractionsShape | src/plugin/interaction-manager.ts:47-60 | nested interactions target known components, carry their action, have no rules, and have ids extending the parent's |
| InteractionManager.InteractionManager.SetComponentData | src/plugin/interaction-manager.ts:23-25 | replaces the component data only |
| InteractionManager.InteractionManager.ApplyVariableBasedReactions | src/plugin/interaction-manager.ts:148-225 | the instance gets one ON_CLICK reaction setting its own variable to the primary value; the rules only yield the log |
| InteractionManager.InteractionManager.ApplyInteractionToInstances | src/plugin/interaction-manager.ts:73-143 | unknown component: nothing; otherwise variables when the property resolves, then the clearing and installing passes; only accepted instances of the component are written |
| InteractionManager.PassTouchesOnly | src/plugin/interaction-manager.ts:111-137 | the two passes write only to accepted instances of the component, and the reactions are what the writes leave |
| InteractionManager.InteractionManager.ApplyToInstances | src/plugin/interaction-manager.ts:89-138 | the same, once the component is found |
| InteractionManager.InteractionManager.ReplaceReactions | src/plugin/interaction-manager.ts:99-138 | the two passes' writes and the resulting reactions |
| InteractionManager.InteractionManager.InstallReactions | src/plugin/interaction-manager.ts:110-138 | the installing pass |
| InteractionManager.InteractionManager.InstallOne | src/plugin/interaction-manager.ts:111-137 | one iteration: the instance's planned reaction is installed unless the host refuses it |
| InteractionManager.InteractionManager.CreateInteraction | src/plugin/interaction-manager.ts:37-68 | without a collection, the error message and no change; otherwise the success message, the pushed and stored interaction, its flags, the nested interactions with their flags, and writes only on instances of the component or a nested action's component |
| InteractionManager.InteractionManager.RecordInteraction | src/plugin/interaction-manager.ts:43-61 | the interaction is pushed and stored; its own variables and two passes come first; then one nested interaction with its primary flag per nested action with a known component; every write is on an instance of the component or of a nested action's component |
| InteractionManager.InteractionManager.ApplyNestedActions | src/plugin/interaction-manager.ts:47-61 | one interaction per nested action with a known component, each with its primary flag; writes only on instances of the nested actions' components |
| InteractionManager.InteractionManager.ApplyNestedAction | src/plugin/interaction-manager.ts:49-59 | unknown component: nothing; otherwise the derived interaction with its primary flag, applied to that component only; a failure exactly when there is no collection |
| PluginCode.InteractionIndex | code.js:297 | `findIndex`: the first entry with the id, or the length |
| PluginCode.RemoveFirstDropsOne | code.js:297-300 | splicing drops exactly the first entry with the id and keeps every other entry; without one, nothing changes |
| PluginCode.RecreateKeepsOneEntry | code.js:297-334 | with distinct ids, splicing and pushing again leaves exactly one entry with that id, the new one |
| PluginCode.ClickSetsEachVariableOnce | code.js:465-549 | a click sets every instance's variable exactly once: its own to the primary value, each sibling to its target |
| PluginCode.LegacyPassInstallsClickReactions | code.js:450-570 | after both passes, each accepted instance holds one ON_CLICK reaction that sets its own variable first and assigns every variable of the group |
| PluginCode.RewriteKeepsOnlyOwnAssignment | src/plugin/interaction-manager.ts:158-170 | the rewrite's reaction is the first action of the legacy one; the sibling assignments are dropped |
| PluginCode.ComponentNameOption | code.js:341 | `componentData.find(...)?.name`: defined exactly when some group has the id |
| PluginCode.Plugin.InitializePlugin | code.js:72-122 | the three selection errors exactly when their checks fail; otherwise the groups (not de-duplicated), the collection, and the retrievable stored interactions |
| PluginCode.Plugin.CleanupExistingInteraction | code.js:285-305 | the prefix cleanup; the first entry with the id is spliced out only when every removal succeeded |
| PluginCode.Plugin.PerformComprehensiveCleanup | code.js:221-271 | the orphan sweep; the interactions list is emptied exactly when the sweep reached its end |
| PluginCode.Plugin.ApplyInteractionToInstances | code.js:431-575 | unknown component: nothing; otherwise variables when the property resolves, then the clearing pass and the compiled click reactions |
| PluginCode.Plugin.ApplyToInstances | code.js:438-570 | the same, once the component is found |
| PluginCode.Plugin.ReplaceReactions | code.js:450-570 | the clearing and installing passes' writes and the resulting reactions |
| PluginCode.Plugin.InstallReactions | code.js:460-570 | each accepted instance gets its compiled click reaction, or an empty ON_CLICK without variables |
| PluginCode.Plugin.CompileClick | code.js:465-556 | the compiled assignments as SET_VARIABLE actions on the instances' variables |
| PluginCode.Plugin.CreateInteraction | code.js:307-350 | `Failed to create variable collection` when there is still no collection; otherwise the success message naming the component (or `undefined`), the stored record, the primary flag, and the interactions spliced and pushed |
| PluginCode.Plugin.RecordInteraction | code.js:316-338 | once there is a collection: the whole new state, i.e. the variables cleaned up, the flags, then the outcome of applying (variables, bindings, writes and reactions) |
| PluginCode.Plugin.ReplaceFlags | code.js:316-332 | the cleanup, then the flags numbered from the next id |
| PluginCode.Plugin.PushAndApply | code.js:333-338 | the interaction pushed and stored, then the outcome of applying it |

## Left out

- The host's asynchrony, the UI thread, `figma.showUI`, the selection-change listener and the message dispatch (code.js:1-70, `src/plugin/main.ts`) are not modelled; each handler is modelled as one call.
- JSON serialisation in the client storage is taken as an exact round trip: the store holds the records themselves.
- `toLowerCase` is modelled as ASCII case folding only.
- Interaction and rule ids (`Date.now()` in `src/ui/ui.js`) are inputs. Host variable ids are natural numbers drawn in order.
- `console.log`/`console.error` output is not modelled. The rewrite's cross-component log line is returned as data (`Intent`).
- Variable modes: values are set for the default mode only, so a variable holds one value.
- Prototype actions other than SET_VARIABLE, and triggers other than ON_CLICK, are opaque.
- The unused `primaryVar`/`conditionalVars` parameters of `applyInteractionToInstances` are not passed.
- The catch path `Initialization failed: …` of `initializePlugin` (code.js:123-128) is not modelled. Every call inside the `try` either catches its own errors or is modelled without failure.
- `createVariableCollection`, `createVariable` and `setValueForMode` are modelled as never failing (code.js:213, code.js:322-331, code.js:406-414; src/plugin/variable-manager.ts:26, 61-77, 190-200). The one exception is `createVariable` on a missing collection. None of these calls has a `try` of its own. A failure would reach the outer `catch`: `Failed to create interaction: …` (code.js:344-349, src/plugin/interaction-manager.ts:64-67) with the interaction neither pushed nor stored, or code.js:573-575 before any reaction pass. Those failure paths are not modelled.
- `getMainComponentAsync` is a resolved field of the instance, `None` when it does not resolve.
- PluginCode.Plugin.CreateInteraction: does not restate the final reactions and bindings. Those are stated by `PluginCode.Plugin.RecordInteraction`, which it calls once there is a collection. Of the flags, only the primary flag's presence is stated.
- InteractionManager.InteractionManager.CreateInteraction: does not restate the final reactions and bindings either. It states only which nodes may be written and that the reactions follow the writes. The interaction's own passes are stated by `InteractionManager.InteractionManager.RecordInteraction`. Of the flags, only the primary flags' presence is stated.
- InteractionManager.InteractionManager.RecordInteraction: for the nested interactions, states their primary flags and which nodes their writes reach. It does not state their passes, instance variables or bindings; each is what `InteractionManager.InteractionManager.ApplyInteractionToInstances` states for the derived interaction, from the store as the previous one left it.
- InteractionManager.InteractionManager.ApplyNestedActions: the same limit, for the same reason. Each nested interaction's outcome depends on the ids and variables that the earlier ones drew.
- `figma.currentPage.findAll()` in the sweep: the page's nodes are the keys of `Canvas.reactions`.

## Findings

| source | as written | input that shows it | evidently intended | confidence | as-written member | corrected member |
|---|---|---|---|---|---|---|
| code.js:195-197 | every VARIANT option of a property is appended for every instance of the set | two instances of one component set with options `a`, `b`: the list is `a, b, a, b` | each option listed once, as the rewrite's `includes` check does (src/plugin/component-analyzer.ts:97-101) | high, not executed | ComponentAnalyzer.LegacyGroupingRepeatsOptions | ComponentAnalyzer.GroupedPropertiesDistinct |
