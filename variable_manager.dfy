/**
 * src/plugin/variable-manager.ts: the plugin's variable collection, the
 * variables it creates for an interaction (one STRING variable per
 * instance, seeded with the instance's original state; BOOLEAN flags for
 * the primary action and each conditional rule), and the two ways it
 * removes them (by name prefix, and the sweep of unreferenced variables).
 * code.js:206-305 and 320-332, 400-429 do the same; the shared steps are
 * the module-level methods here.
 */
module VariableManager {
  import opened Wrappers
  import opened Strings
  import opened Scene
  import opened ComponentAnalyzer
  import opened Storage
  import opened Host

  const VARIABLE_COLLECTION_NAME := "state-machine"

  // ---------------------------------------------------------------------
  // Variable names
  // ---------------------------------------------------------------------

  function PrimaryVarName(interactionId: string): string
  {
    interactionId + "_primary"
  }

  function ConditionalVarName(interactionId: string, i: nat): string
  {
    interactionId + "_conditional_" + NatToString(i)
  }

  function InstanceVarName(interactionId: string, i: nat, primaryProp: string): string
  {
    interactionId + "_instance_" + NatToString(i) + "_" + primaryProp
  }

  /** Every variable of an interaction is named with the interaction's id as a prefix. */
  lemma VariableNamesCarryId(interactionId: string, i: nat, primaryProp: string)
    ensures StartsWith(PrimaryVarName(interactionId), interactionId)
    ensures StartsWith(ConditionalVarName(interactionId, i), interactionId)
    ensures StartsWith(InstanceVarName(interactionId, i, primaryProp), interactionId)
  {
    StartsWithAppend(interactionId, "_primary");
    StartsWithAppend(interactionId, "_conditional_" + NatToString(i));
    assert ConditionalVarName(interactionId, i) == interactionId + ("_conditional_" + NatToString(i));
    StartsWithAppend(interactionId, "_instance_" + NatToString(i) + "_" + primaryProp);
    assert InstanceVarName(interactionId, i, primaryProp) == interactionId + ("_instance_" + NatToString(i) + "_" + primaryProp);
  }

  /** Two instances of one interaction never share a variable name. */
  lemma InstanceVarNamesDistinct(interactionId: string, i: nat, j: nat, primaryProp: string)
    requires i != j
    ensures InstanceVarName(interactionId, i, primaryProp) != InstanceVarName(interactionId, j, primaryProp)
  {
    var a, b := NatToString(i), NatToString(j);
    var n := |interactionId + "_instance_"|;
    if InstanceVarName(interactionId, i, primaryProp) == InstanceVarName(interactionId, j, primaryProp) {
      var s := InstanceVarName(interactionId, i, primaryProp);
      assert |a| == |b|;
      assert a == s[n..n + |a|];
      assert b == InstanceVarName(interactionId, j, primaryProp)[n..n + |b|];
      NatToStringInjective(i, j);
    }
  }

  /** Two rules of one interaction never share a flag variable name. */
  lemma ConditionalVarNamesDistinct(interactionId: string, i: nat, j: nat)
    requires i != j
    ensures ConditionalVarName(interactionId, i) != ConditionalVarName(interactionId, j)
  {
    var n := |interactionId + "_conditional_"|;
    if ConditionalVarName(interactionId, i) == ConditionalVarName(interactionId, j) {
      assert NatToString(i) == ConditionalVarName(interactionId, i)[n..];
      assert NatToString(j) == ConditionalVarName(interactionId, j)[n..];
      NatToStringInjective(i, j);
    }
  }

  /** The primary flag, the rule flags and the instance variables have different names. */
  lemma VariableKindsDistinct(interactionId: string, i: nat, j: nat, primaryProp: string)
    ensures PrimaryVarName(interactionId) != ConditionalVarName(interactionId, i)
    ensures PrimaryVarName(interactionId) != InstanceVarName(interactionId, j, primaryProp)
    ensures ConditionalVarName(interactionId, i) != InstanceVarName(interactionId, j, primaryProp)
  {
    var n := |interactionId| + 1;
    assert PrimaryVarName(interactionId)[n] == 'p';
    assert ConditionalVarName(interactionId, i)[n] == 'c';
    assert InstanceVarName(interactionId, j, primaryProp)[n] == 'i';
  }

  // ---------------------------------------------------------------------
  // Removal by name prefix (cleanupExistingInteraction)
  // ---------------------------------------------------------------------

  /** A variable of the collection whose name starts with the prefix. */
  predicate Matches(v: Variable, collectionId: nat, prefix: string)
  {
    v.collectionId == collectionId && StartsWith(v.name, prefix)
  }

  /** Position of the first matching variable the host refuses to remove, or `|variables|`. */
  function FirstBlocked(variables: seq<Variable>, undeletable: set<nat>, collectionId: nat, prefix: string): (k: nat)
    ensures k <= |variables|
    ensures k < |variables| ==> Matches(variables[k], collectionId, prefix) && variables[k].id in undeletable
    ensures forall j :: 0 <= j < k ==> !(Matches(variables[j], collectionId, prefix) && variables[j].id in undeletable)
  {
    if variables == [] then 0
    else if Matches(variables[0], collectionId, prefix) && variables[0].id in undeletable then 0
    else 1 + FirstBlocked(variables[1..], undeletable, collectionId, prefix)
  }

  function MatchingIds(variables: seq<Variable>, collectionId: nat, prefix: string): set<nat>
  {
    set v | v in variables && Matches(v, collectionId, prefix) :: v.id
  }

  /** What a prefix cleanup leaves, and whether it went through every variable. */
  datatype Cleanup = Cleanup(remaining: seq<Variable>, completed: bool)

  /**
   * The removal loop over the listed variables: every matching variable is
   * removed, in order, until the host refuses one; that failure ends the
   * loop (the error is caught outside it).
   */
  function PrefixCleanup(variables: seq<Variable>, undeletable: set<nat>, collectionId: nat, prefix: string): Cleanup
  {
    var k := FirstBlocked(variables, undeletable, collectionId, prefix);
    Cleanup(Keep(variables, MatchingIds(variables[..k], collectionId, prefix)), k == |variables|)
  }

  /**
   * A completed cleanup removes exactly the variables of the collection
   * whose names start with the prefix; it completes exactly when the host
   * refuses none of those. An interrupted one keeps every variable from
   * the refused one on.
   */
  lemma PrefixCleanupRemovesExactlyMatches(variables: seq<Variable>, undeletable: set<nat>, collectionId: nat, prefix: string)
    requires VariableIdsDistinct(variables)
    ensures var c := PrefixCleanup(variables, undeletable, collectionId, prefix);
      && (c.completed <==> forall v :: v in variables && Matches(v, collectionId, prefix) ==> v.id !in undeletable)
      && (c.completed ==> forall v :: v in c.remaining <==> v in variables && !Matches(v, collectionId, prefix))
      && (!c.completed ==> forall j :: FirstBlocked(variables, undeletable, collectionId, prefix) <= j < |variables|
                                       ==> variables[j] in c.remaining)
  {
    var k := FirstBlocked(variables, undeletable, collectionId, prefix);
    var c := PrefixCleanup(variables, undeletable, collectionId, prefix);
    if k == |variables| {
      assert variables[..k] == variables;
      forall v | v in variables && Matches(v, collectionId, prefix)
        ensures v.id !in undeletable
      {
        var j :| 0 <= j < |variables| && variables[j] == v;
      }
      forall v | v in variables && !Matches(v, collectionId, prefix)
        ensures v.id !in MatchingIds(variables, collectionId, prefix)
      {
      }
    } else {
      assert variables[k] in variables;
      forall j | k <= j < |variables|
        ensures variables[j].id !in MatchingIds(variables[..k], collectionId, prefix)
      {
      }
    }
  }

  lemma MatchingIdsAppend(variables: seq<Variable>, x: Variable, collectionId: nat, prefix: string)
    ensures MatchingIds(variables + [x], collectionId, prefix)
            == MatchingIds(variables, collectionId, prefix) + (if Matches(x, collectionId, prefix) then {x.id} else {})
  {
    var t := variables + [x];
    var rhs := MatchingIds(variables, collectionId, prefix) + (if Matches(x, collectionId, prefix) then {x.id} else {});
    forall n | n in MatchingIds(t, collectionId, prefix)
      ensures n in rhs
    {
      var v :| v in t && Matches(v, collectionId, prefix) && v.id == n;
      if v != x {
        assert v in variables;
      }
    }
    forall n | n in rhs
      ensures n in MatchingIds(t, collectionId, prefix)
    {
      if n in MatchingIds(variables, collectionId, prefix) {
        var v :| v in variables && Matches(v, collectionId, prefix) && v.id == n;
        assert v in t;
      } else {
        assert x in t;
      }
    }
  }

  /** One step of the removal loop: removing the i-th variable when it matches. */
  lemma PrefixCleanupStep(variables: seq<Variable>, i: nat, collectionId: nat, prefix: string)
    requires i < |variables|
    ensures Matches(variables[i], collectionId, prefix) ==>
              Keep(Keep(variables, MatchingIds(variables[..i], collectionId, prefix)), {variables[i].id})
              == Keep(variables, MatchingIds(variables[..i + 1], collectionId, prefix))
    ensures !Matches(variables[i], collectionId, prefix) ==>
              MatchingIds(variables[..i + 1], collectionId, prefix) == MatchingIds(variables[..i], collectionId, prefix)
  {
    assert variables[..i + 1] == variables[..i] + [variables[i]];
    MatchingIdsAppend(variables[..i], variables[i], collectionId, prefix);
    KeepKeep(variables, MatchingIds(variables[..i], collectionId, prefix), {variables[i].id});
  }

  /** The removal loop of cleanupExistingInteraction, over the variables listed at its start. */
  method RemoveByPrefix(store: VariableStore, collectionId: nat, prefix: string) returns (completed: bool)
    requires store.Valid()
    modifies store
    ensures store.Valid()
    ensures store.listingUnavailable ==> !completed && store.variables == old(store.variables)
    ensures !store.listingUnavailable ==>
              Cleanup(store.variables, completed) == PrefixCleanup(old(store.variables), store.undeletable, collectionId, prefix)
    ensures store.collections == old(store.collections) && store.nextId == old(store.nextId)
  {
    if store.listingUnavailable {
      return false;
    }
    var existing := store.variables;
    KeepNothing(existing);
    assert MatchingIds(existing[..0], collectionId, prefix) == {};
    for i := 0 to |existing|
      invariant store.Valid()
      invariant i <= FirstBlocked(existing, store.undeletable, collectionId, prefix)
      invariant store.variables == Keep(existing, MatchingIds(existing[..i], collectionId, prefix))
      invariant store.collections == old(store.collections) && store.nextId == old(store.nextId)
    {
      var v := existing[i];
      PrefixCleanupStep(existing, i, collectionId, prefix);
      if v.collectionId == collectionId && StartsWith(v.name, prefix) {
        var ok := store.Remove(v.id);
        if !ok {
          return false;
        }
      }
    }
    assert existing[..|existing|] == existing;
    completed := true;
  }

  /**
   * The defect of calling the cleanup with the incoming id: ids are
   * `<component>_<timestamp>`, so the previous interaction's variables
   * for the same component do not start with the new id and stay.
   */
  lemma IncomingIdKeepsPreviousVariables()
    ensures var previous := Variable(0, PrimaryVarName("set_100"), 7, BooleanVar, BoolValue(false));
            var c := PrefixCleanup([previous], {}, 7, "set_200");
            c.completed && c.remaining == [previous]
  {
    var previous := Variable(0, PrimaryVarName("set_100"), 7, BooleanVar, BoolValue(false));
    assert previous.name[..7] == "set_100";
    assert !Matches(previous, 7, "set_200");
    assert [previous][..1] == [previous];
    assert MatchingIds([previous], 7, "set_200") == {};
  }

  /**
   * Cleanup that retires a component's previous interactions: the prefix
   * cleanup run for each previous id, then for the incoming one.
   */
  function RetiringCleanup(variables: seq<Variable>, undeletable: set<nat>, collectionId: nat,
                           previousIds: seq<string>, incomingId: string): Cleanup
  {
    var ids := previousIds + [incomingId];
    RunCleanups(variables, undeletable, collectionId, ids)
  }

  function RunCleanups(variables: seq<Variable>, undeletable: set<nat>, collectionId: nat, ids: seq<string>): Cleanup
  {
    if ids == [] then Cleanup(variables, true)
    else
      var before := RunCleanups(variables, undeletable, collectionId, ids[..|ids| - 1]);
      if !before.completed then before
      else PrefixCleanup(before.remaining, undeletable, collectionId, ids[|ids| - 1])
  }

  lemma {:induction false} RunCleanupsRemovesEveryPrefix(variables: seq<Variable>, undeletable: set<nat>, collectionId: nat, ids: seq<string>)
    requires VariableIdsDistinct(variables)
    ensures VariableIdsDistinct(RunCleanups(variables, undeletable, collectionId, ids).remaining)
    ensures var c := RunCleanups(variables, undeletable, collectionId, ids);
            c.completed ==> forall v :: v in c.remaining <==>
                              v in variables && forall k :: 0 <= k < |ids| ==> !Matches(v, collectionId, ids[k])
  {
    if ids != [] {
      var init := ids[..|ids| - 1];
      RunCleanupsRemovesEveryPrefix(variables, undeletable, collectionId, init);
      var before := RunCleanups(variables, undeletable, collectionId, init);
      if before.completed {
        var last := ids[|ids| - 1];
        PrefixCleanupRemovesExactlyMatches(before.remaining, undeletable, collectionId, last);
        KeepKeepsIdsDistinct(before.remaining,
          MatchingIds(before.remaining[..FirstBlocked(before.remaining, undeletable, collectionId, last)], collectionId, last));
        var c := PrefixCleanup(before.remaining, undeletable, collectionId, last);
        if c.completed {
          forall v
            ensures v in c.remaining <==> v in variables && forall k :: 0 <= k < |ids| ==> !Matches(v, collectionId, ids[k])
          {
            if v in variables && forall k :: 0 <= k < |init| ==> !Matches(v, collectionId, init[k]) {
              assert forall k :: 0 <= k < |init| ==> init[k] == ids[k];
            }
            if !(forall k :: 0 <= k < |init| ==> !Matches(v, collectionId, init[k])) {
              var k :| 0 <= k < |init| && Matches(v, collectionId, init[k]);
              assert ids[k] == init[k];
            }
          }
        }
      }
    }
  }

  /**
   * The corrected cleanup retires the previous interactions: when the
   * host refuses no removal, no variable of the collection named with a
   * previous id (or the incoming one) is left, and every other stays.
   */
  lemma RetiringCleanupRetiresPrevious(variables: seq<Variable>, undeletable: set<nat>, collectionId: nat,
                                       previousIds: seq<string>, incomingId: string)
    requires VariableIdsDistinct(variables)
    requires forall v :: v in variables && v.collectionId == collectionId ==> v.id !in undeletable
    ensures var c := RetiringCleanup(variables, undeletable, collectionId, previousIds, incomingId);
      && c.completed
      && (forall k, v :: 0 <= k < |previousIds| && v in c.remaining ==> !Matches(v, collectionId, previousIds[k]))
      && (forall v :: v in variables && v.collectionId != collectionId ==> v in c.remaining)
  {
    var ids := previousIds + [incomingId];
    RunCleanupsCompletes(variables, undeletable, collectionId, ids);
    RunCleanupsRemovesEveryPrefix(variables, undeletable, collectionId, ids);
    var c := RunCleanups(variables, undeletable, collectionId, ids);
    forall k, v | 0 <= k < |previousIds| && v in c.remaining
      ensures !Matches(v, collectionId, previousIds[k])
    {
      assert ids[k] == previousIds[k];
    }
  }

  lemma {:induction false} RunCleanupsCompletes(variables: seq<Variable>, undeletable: set<nat>, collectionId: nat, ids: seq<string>)
    requires VariableIdsDistinct(variables)
    requires forall v :: v in variables && v.collectionId == collectionId ==> v.id !in undeletable
    ensures RunCleanups(variables, undeletable, collectionId, ids).completed
    ensures forall v :: v in RunCleanups(variables, undeletable, collectionId, ids).remaining ==> v in variables
  {
    if ids != [] {
      var init := ids[..|ids| - 1];
      RunCleanupsCompletes(variables, undeletable, collectionId, init);
      RunCleanupsRemovesEveryPrefix(variables, undeletable, collectionId, init);
      var before := RunCleanups(variables, undeletable, collectionId, init);
      PrefixCleanupRemovesExactlyMatches(before.remaining, undeletable, collectionId, ids[|ids| - 1]);
    }
  }

  // ---------------------------------------------------------------------
  // The sweep of unreferenced variables (performComprehensiveCleanup)
  // ---------------------------------------------------------------------

  /** The variables a list of actions sets. */
  function ActionIds(actions: seq<Action>): set<nat>
  {
    if actions == [] then {}
    else ActionIds(actions[..|actions| - 1])
         + (if actions[|actions| - 1].SetVariable? then {actions[|actions| - 1].variableId} else {})
  }

  /** The variables a node's reactions set. */
  function ReactionIds(rs: seq<Reaction>): set<nat>
  {
    if rs == [] then {} else ReactionIds(rs[..|rs| - 1]) + ActionIds(rs[|rs| - 1].actions)
  }

  /** Some node's reaction sets this variable. */
  predicate InUse(reactions: map<string, seq<Reaction>>, variableId: nat)
  {
    exists node :: node in reactions && variableId in ReactionIds(reactions[node])
  }

  /** The variables of a collection, in order. */
  function InCollection(variables: seq<Variable>, collectionId: nat): (r: seq<Variable>)
    ensures forall v :: v in r <==> v in variables && v.collectionId == collectionId
  {
    if variables == [] then []
    else (if variables[0].collectionId == collectionId then [variables[0]] else [])
         + InCollection(variables[1..], collectionId)
  }

  /** The ids the sweep removes: unreferenced variables of the collection that the host lets go. */
  function OrphanIds(stateVariables: seq<Variable>, reactions: map<string, seq<Reaction>>, undeletable: set<nat>): set<nat>
  {
    set v | v in stateVariables && !InUse(reactions, v.id) && v.id !in undeletable :: v.id
  }

  lemma OrphanIdsAppend(stateVariables: seq<Variable>, x: Variable, reactions: map<string, seq<Reaction>>, undeletable: set<nat>)
    ensures OrphanIds(stateVariables + [x], reactions, undeletable)
            == OrphanIds(stateVariables, reactions, undeletable)
               + (if !InUse(reactions, x.id) && x.id !in undeletable then {x.id} else {})
  {
    var t := stateVariables + [x];
    var rhs := OrphanIds(stateVariables, reactions, undeletable)
               + (if !InUse(reactions, x.id) && x.id !in undeletable then {x.id} else {});
    forall n | n in OrphanIds(t, reactions, undeletable)
      ensures n in rhs
    {
      var v :| v in t && !InUse(reactions, v.id) && v.id !in undeletable && v.id == n;
      if v != x {
        assert v in stateVariables;
      }
    }
    forall n | n in rhs
      ensures n in OrphanIds(t, reactions, undeletable)
    {
      if n in OrphanIds(stateVariables, reactions, undeletable) {
        var v :| v in stateVariables && !InUse(reactions, v.id) && v.id !in undeletable && v.id == n;
        assert v in t;
      } else {
        assert x in t;
      }
    }
  }

  /** One step of the sweep's removal loop. */
  lemma SweepStep(variables: seq<Variable>, stateVariables: seq<Variable>, i: nat,
                  reactions: map<string, seq<Reaction>>, undeletable: set<nat>)
    requires i < |stateVariables|
    ensures var before := OrphanIds(stateVariables[..i], reactions, undeletable);
            var after := OrphanIds(stateVariables[..i + 1], reactions, undeletable);
            var id := stateVariables[i].id;
      && (!InUse(reactions, id) && id !in undeletable ==> Keep(Keep(variables, before), {id}) == Keep(variables, after))
      && (InUse(reactions, id) || id in undeletable ==> after == before)
  {
    assert stateVariables[..i + 1] == stateVariables[..i] + [stateVariables[i]];
    OrphanIdsAppend(stateVariables[..i], stateVariables[i], reactions, undeletable);
    KeepKeep(variables, OrphanIds(stateVariables[..i], reactions, undeletable), {stateVariables[i].id});
  }

  /** The sweep's result, when it reaches its removal loop. */
  function Swept(variables: seq<Variable>, collectionId: nat, reactions: map<string, seq<Reaction>>,
                 undeletable: set<nat>): seq<Variable>
  {
    Keep(variables, OrphanIds(InCollection(variables, collectionId), reactions, undeletable))
  }

  /**
   * The sweep removes exactly the collection's variables that no
   * SET_VARIABLE action references and that the host lets go; referenced
   * variables, undeletable ones and other collections' variables stay.
   */
  lemma SweptKeepsExactly(variables: seq<Variable>, collectionId: nat, reactions: map<string, seq<Reaction>>,
                          undeletable: set<nat>)
    requires VariableIdsDistinct(variables)
    ensures forall v :: v in Swept(variables, collectionId, reactions, undeletable) <==>
              v in variables
              && (v.collectionId != collectionId || InUse(reactions, v.id) || v.id in undeletable)
  {
    var state := InCollection(variables, collectionId);
    forall v | v in variables && (v.collectionId != collectionId || InUse(reactions, v.id) || v.id in undeletable)
      ensures v.id !in OrphanIds(state, reactions, undeletable)
    {
    }
  }

  /** `variablesInUse`: the ids set by any SET_VARIABLE action of any node. */
  method CollectVariablesInUse(canvas: Canvas) returns (inUse: set<nat>)
    ensures forall n :: n in inUse <==> InUse(canvas.reactions, n)
  {
    inUse := {};
    var pending := canvas.reactions.Keys;
    while pending != {}
      invariant pending <= canvas.reactions.Keys
      invariant forall n :: n in inUse <==>
                  exists node :: node in canvas.reactions && node !in pending && n in ReactionIds(canvas.reactions[node])
      decreases pending
    {
      var node :| node in pending;
      var rs := canvas.reactions[node];
      ghost var before := inUse;
      for r := 0 to |rs|
        invariant inUse == before + ReactionIds(rs[..r])
      {
        assert rs[..r + 1][..r] == rs[..r];
        var actions := rs[r].actions;
        ghost var mid := inUse;
        for a := 0 to |actions|
          invariant inUse == mid + ActionIds(actions[..a])
        {
          assert actions[..a + 1][..a] == actions[..a];
          if actions[a].SetVariable? {
            inUse := inUse + {actions[a].variableId};
          }
        }
        assert actions[..|actions|] == actions;
      }
      assert rs[..|rs|] == rs;
      forall n
        ensures n in inUse <==>
                exists m :: m in canvas.reactions && m !in pending - {node} && n in ReactionIds(canvas.reactions[m])
      {
        if n in ReactionIds(rs) {
          assert node in canvas.reactions && node !in pending - {node};
        }
      }
      pending := pending - {node};
    }
  }

  /**
   * performComprehensiveCleanup: find the collection named
   * `state-machine`; if it has variables, remove each one that no
   * reaction references, going on past a refused removal. `reachedEnd`
   * says whether it got to the removal loop.
   */
  method PerformComprehensiveCleanup(store: VariableStore, canvas: Canvas) returns (reachedEnd: bool)
    requires store.Valid()
    modifies store
    ensures store.Valid()
    ensures store.collections == old(store.collections) && store.nextId == old(store.nextId)
    ensures var found := FindCollection(store.collections, VARIABLE_COLLECTION_NAME);
            reachedEnd <==> !store.listingUnavailable && found.Some? && InCollection(old(store.variables), found.value.id) != []
    ensures reachedEnd ==>
              store.variables == Swept(old(store.variables), FindCollection(store.collections, VARIABLE_COLLECTION_NAME).value.id,
                                       canvas.reactions, store.undeletable)
    ensures !reachedEnd ==> store.variables == old(store.variables)
  {
    if store.listingUnavailable {
      return false;
    }
    var allVariables := store.variables;
    var stateCollection := FindCollection(store.collections, VARIABLE_COLLECTION_NAME);
    if stateCollection.None? {
      return false;
    }
    var stateVariables := InCollection(allVariables, stateCollection.value.id);
    if |stateVariables| == 0 {
      return false;
    }
    var inUse := CollectVariablesInUse(canvas);
    KeepNothing(allVariables);
    assert OrphanIds(stateVariables[..0], canvas.reactions, store.undeletable) == {};
    for i := 0 to |stateVariables|
      invariant store.Valid()
      invariant store.variables == Keep(allVariables, OrphanIds(stateVariables[..i], canvas.reactions, store.undeletable))
      invariant store.collections == old(store.collections) && store.nextId == old(store.nextId)
    {
      var variable := stateVariables[i];
      SweepStep(allVariables, stateVariables, i, canvas.reactions, store.undeletable);
      if variable.id !in inUse {
        var ok := store.Remove(variable.id);
      }
    }
    assert stateVariables[..|stateVariables|] == stateVariables;
    reachedEnd := true;
  }

  // ---------------------------------------------------------------------
  // The collection (setupVariableCollection)
  // ---------------------------------------------------------------------

  lemma FindCollectionAppend(collections: seq<Collection>, c: Collection)
    requires FindCollection(collections, c.name).None?
    ensures FindCollection(collections + [c], c.name) == Some(c)
  {
    var r := FindCollection(collections + [c], c.name);
    assert (collections + [c])[|collections|] == c;
    assert forall j :: 0 <= j < |collections| ==> (collections + [c])[j].name != c.name;
    var k :| 0 <= k < |collections + [c]| && (collections + [c])[k] == r.value && r.value.name == c.name;
    assert k == |collections|;
  }

  /**
   * Find the collection named `state-machine`, creating it when there is
   * none. When the host's listing fails the error is caught and the
   * plugin's collection stays `current`.
   */
  method SetupCollection(store: VariableStore, current: Option<Collection>) returns (c: Option<Collection>)
    requires store.Valid()
    modifies store
    ensures store.Valid()
    ensures store.variables == old(store.variables)
    ensures store.listingUnavailable ==>
              c == current && store.collections == old(store.collections) && store.nextId == old(store.nextId)
    ensures !store.listingUnavailable ==> c.Some? && c == FindCollection(store.collections, VARIABLE_COLLECTION_NAME)
    ensures !store.listingUnavailable ==>
              store.collections == if FindCollection(old(store.collections), VARIABLE_COLLECTION_NAME).Some?
                                   then old(store.collections)
                                   else old(store.collections) + [Collection(old(store.nextId), VARIABLE_COLLECTION_NAME)]
  {
    if store.listingUnavailable {
      return current;
    }
    c := FindCollection(store.collections, VARIABLE_COLLECTION_NAME);
    if c.None? {
      FindCollectionAppend(store.collections, Collection(store.nextId, VARIABLE_COLLECTION_NAME));
      var created := store.CreateCollection(VARIABLE_COLLECTION_NAME);
      c := Some(created);
    }
  }

  // ---------------------------------------------------------------------
  // Creating variables (createAndBindVariables, createInteractionVariables)
  // ---------------------------------------------------------------------

  /** What createAndBindVariables returns: one variable and one original state per instance. */
  datatype Binding = Binding(instanceVars: seq<Variable>, originalStates: seq<string>)

  /** What createInteractionVariables returns. */
  datatype FlagVariables = FlagVariables(primaryVar: Variable, conditionalVars: seq<Variable>)

  /** Each instance's original state of the property. */
  function OriginalStates(instances: seq<Instance>, prop: string): seq<string>
  {
    seq(|instances|, i requires 0 <= i < |instances| => PropertyValue(instances[i], prop))
  }

  /** The STRING variables created for the instances, with ids from `firstId` on. */
  function InstanceVariables(firstId: nat, collectionId: nat, interactionId: string, instances: seq<Instance>,
                             prop: string, primaryProp: string): seq<Variable>
  {
    seq(|instances|, i requires 0 <= i < |instances| =>
      Variable(firstId + i, InstanceVarName(interactionId, i, primaryProp), collectionId, StringVar,
               StringValue(PropertyValue(instances[i], prop))))
  }

  /** The property bindings after binding each instance's property to its variable; rejected nodes are skipped. */
  function BoundProperties(bindings: map<(string, string), nat>, instances: seq<Instance>, prop: string,
                           firstId: nat, rejects: set<string>): map<(string, string), nat>
  {
    if instances == [] then bindings
    else
      var before := BoundProperties(bindings, instances[..|instances| - 1], prop, firstId, rejects);
      var last := instances[|instances| - 1];
      if last.id in rejects then before else before[(last.id, prop) := firstId + |instances| - 1]
  }

  /**
   * Each instance's variable is seeded with that instance's original state,
   * is named for its index, and has an id no earlier variable had.
   */
  lemma InstanceVariablesSeededWithOriginals(firstId: nat, collectionId: nat, interactionId: string, instances: seq<Instance>,
                                             prop: string, primaryProp: string, i: nat, j: nat)
    requires i < |instances| && j < |instances| && i != j
    ensures var vs := InstanceVariables(firstId, collectionId, interactionId, instances, prop, primaryProp);
      && vs[i].value == StringValue(OriginalStates(instances, prop)[i])
      && vs[i].varType == StringVar && vs[i].collectionId == collectionId
      && vs[i].id >= firstId
      && vs[i].id != vs[j].id && vs[i].name != vs[j].name
  {
    InstanceVarNamesDistinct(interactionId, i, j, primaryProp);
  }

  /**
   * A binding that the host refuses on one instance does not stop the
   * others: every accepted instance ends bound to its own variable (unless
   * a later instance is the same node).
   */
  lemma {:induction false} AcceptedInstancesAreBound(bindings: map<(string, string), nat>, instances: seq<Instance>, prop: string,
                                                     firstId: nat, rejects: set<string>, i: nat)
    requires i < |instances| && instances[i].id !in rejects
    requires forall j :: i < j < |instances| ==> instances[j].id != instances[i].id
    ensures (instances[i].id, prop) in BoundProperties(bindings, instances, prop, firstId, rejects)
    ensures BoundProperties(bindings, instances, prop, firstId, rejects)[(instances[i].id, prop)] == firstId + i
  {
    if i < |instances| - 1 {
      var init := instances[..|instances| - 1];
      assert init[i] == instances[i];
      AcceptedInstancesAreBound(bindings, init, prop, firstId, rejects, i);
    }
  }

  lemma BoundPropertiesStep(bindings: map<(string, string), nat>, instances: seq<Instance>, prop: string,
                            firstId: nat, rejects: set<string>, i: nat)
    requires i < |instances|
    ensures BoundProperties(bindings, instances[..i + 1], prop, firstId, rejects)
            == var before := BoundProperties(bindings, instances[..i], prop, firstId, rejects);
               if instances[i].id in rejects then before else before[(instances[i].id, prop) := firstId + i]
  {
    assert instances[..i + 1][..i] == instances[..i];
  }

  lemma InstanceVariablesStep(firstId: nat, collectionId: nat, interactionId: string, instances: seq<Instance>,
                              prop: string, primaryProp: string, i: nat)
    requires i < |instances|
    ensures OriginalStates(instances[..i + 1], prop) == OriginalStates(instances[..i], prop) + [PropertyValue(instances[i], prop)]
    ensures InstanceVariables(firstId, collectionId, interactionId, instances[..i + 1], prop, primaryProp)
            == InstanceVariables(firstId, collectionId, interactionId, instances[..i], prop, primaryProp)
               + [Variable(firstId + i, InstanceVarName(interactionId, i, primaryProp), collectionId, StringVar,
                           StringValue(PropertyValue(instances[i], prop)))]
  {
  }

  /** The loop of createAndBindVariables, with the collection at hand. */
  method BindInstanceVariables(store: VariableStore, canvas: Canvas, collectionId: nat, interactionId: string,
                               instances: seq<Instance>, actualPropertyName: string, primaryProp: string)
    returns (b: Binding)
    requires store.Valid()
    modifies store, canvas
    ensures store.Valid()
    ensures b.originalStates == OriginalStates(instances, actualPropertyName)
    ensures b.instanceVars
            == InstanceVariables(old(store.nextId), collectionId, interactionId, instances, actualPropertyName, primaryProp)
    ensures store.variables == old(store.variables) + b.instanceVars
    ensures store.collections == old(store.collections) && store.nextId == old(store.nextId) + |instances|
    ensures canvas.bindings
            == BoundProperties(old(canvas.bindings), instances, actualPropertyName, old(store.nextId), canvas.bindRejects)
    ensures canvas.reactions == old(canvas.reactions) && canvas.writes == old(canvas.writes)
  {
    var instanceVars: seq<Variable> := [];
    var originalStates: seq<string> := [];
    ghost var firstId := store.nextId;
    for i := 0 to |instances|
      invariant store.Valid()
      invariant originalStates == OriginalStates(instances[..i], actualPropertyName)
      invariant instanceVars == InstanceVariables(firstId, collectionId, interactionId, instances[..i], actualPropertyName, primaryProp)
      invariant store.variables == old(store.variables) + instanceVars
      invariant store.collections == old(store.collections) && store.nextId == firstId + i
      invariant canvas.bindings == BoundProperties(old(canvas.bindings), instances[..i], actualPropertyName, firstId, canvas.bindRejects)
      invariant canvas.reactions == old(canvas.reactions) && canvas.writes == old(canvas.writes)
    {
      var instance := instances[i];
      var originalState := PropertyValue(instance, actualPropertyName);
      InstanceVariablesStep(firstId, collectionId, interactionId, instances, actualPropertyName, primaryProp, i);
      BoundPropertiesStep(old(canvas.bindings), instances, actualPropertyName, firstId, canvas.bindRejects, i);
      originalStates := originalStates + [originalState];
      var instanceVar := store.CreateVariable(InstanceVarName(interactionId, i, primaryProp), collectionId,
                                              StringVar, StringValue(originalState));
      instanceVars := instanceVars + [instanceVar];
      var _ := canvas.BindProperty(instance.id, actualPropertyName, instanceVar.id);
    }
    assert instances[..|instances|] == instances;
    b := Binding(instanceVars, originalStates);
  }

  /** The BOOLEAN flags created for an interaction, with ids from `firstId` on, all false. */
  function FlagVariablesFor(firstId: nat, collectionId: nat, interactionId: string, ruleCount: nat): FlagVariables
  {
    FlagVariables(
      Variable(firstId, PrimaryVarName(interactionId), collectionId, BooleanVar, BoolValue(false)),
      seq(ruleCount, i requires 0 <= i < ruleCount =>
        Variable(firstId + 1 + i, ConditionalVarName(interactionId, i), collectionId, BooleanVar, BoolValue(false))))
  }

  /** The loop of createInteractionVariables, with the collection at hand. */
  method CreateFlagVariables(store: VariableStore, collectionId: nat, interactionId: string, ruleCount: nat)
    returns (f: FlagVariables)
    requires store.Valid()
    modifies store
    ensures store.Valid()
    ensures f == FlagVariablesFor(old(store.nextId), collectionId, interactionId, ruleCount)
    ensures store.variables == old(store.variables) + [f.primaryVar] + f.conditionalVars
    ensures store.collections == old(store.collections) && store.nextId == old(store.nextId) + 1 + ruleCount
  {
    ghost var firstId := store.nextId;
    var primaryVar := store.CreateVariable(PrimaryVarName(interactionId), collectionId, BooleanVar, BoolValue(false));
    var conditionalVars: seq<Variable> := [];
    for i := 0 to ruleCount
      invariant store.Valid()
      invariant |conditionalVars| == i
      invariant forall k :: 0 <= k < i ==>
                  conditionalVars[k] == Variable(firstId + 1 + k, ConditionalVarName(interactionId, k), collectionId,
                                                 BooleanVar, BoolValue(false))
      invariant store.variables == old(store.variables) + [primaryVar] + conditionalVars
      invariant store.collections == old(store.collections) && store.nextId == firstId + 1 + i
    {
      var conditionalVar := store.CreateVariable(ConditionalVarName(interactionId, i), collectionId, BooleanVar, BoolValue(false));
      conditionalVars := conditionalVars + [conditionalVar];
    }
    f := FlagVariables(primaryVar, conditionalVars);
  }

  /**
   * An interaction has 1 + |rules| flags, all BOOLEAN and false, with
   * distinct names, each starting with the interaction's id.
   */
  lemma FlagVariablesShape(firstId: nat, collectionId: nat, interactionId: string, ruleCount: nat)
    ensures var f := FlagVariablesFor(firstId, collectionId, interactionId, ruleCount);
      && |[f.primaryVar] + f.conditionalVars| == 1 + ruleCount
      && (forall v :: v in [f.primaryVar] + f.conditionalVars ==>
            v.varType == BooleanVar && v.value == BoolValue(false) && v.collectionId == collectionId
            && StartsWith(v.name, interactionId))
      && (forall i, j :: 0 <= i < j < |f.conditionalVars| ==> f.conditionalVars[i].name != f.conditionalVars[j].name)
      && (forall i :: 0 <= i < |f.conditionalVars| ==> f.conditionalVars[i].name != f.primaryVar.name)
  {
    var f := FlagVariablesFor(firstId, collectionId, interactionId, ruleCount);
    VariableNamesCarryId(interactionId, 0, "");
    forall v | v in [f.primaryVar] + f.conditionalVars
      ensures StartsWith(v.name, interactionId)
    {
      if v != f.primaryVar {
        var i :| 0 <= i < |f.conditionalVars| && f.conditionalVars[i] == v;
        VariableNamesCarryId(interactionId, i, "");
      }
    }
    forall i, j | 0 <= i < j < |f.conditionalVars|
      ensures f.conditionalVars[i].name != f.conditionalVars[j].name
    {
      ConditionalVarNamesDistinct(interactionId, i, j);
    }
    forall i | 0 <= i < |f.conditionalVars|
      ensures f.conditionalVars[i].name != f.primaryVar.name
    {
      VariableKindsDistinct(interactionId, i, 0, "");
    }
  }

  /**
   * A completed cleanup with an interaction's id leaves none of that
   * interaction's variables in the collection: its flags, its instance
   * variables and those of its nested interactions.
   */
  lemma CleanupRetiresOwnVariables(variables: seq<Variable>, undeletable: set<nat>, collectionId: nat, interactionId: string,
                                   v: Variable, i: nat, primaryProp: string, suffix: string)
    requires VariableIdsDistinct(variables)
    requires PrefixCleanup(variables, undeletable, collectionId, interactionId).completed
    requires v in PrefixCleanup(variables, undeletable, collectionId, interactionId).remaining && v.collectionId == collectionId
    ensures v.name != PrimaryVarName(interactionId)
    ensures v.name != ConditionalVarName(interactionId, i)
    ensures v.name != InstanceVarName(interactionId, i, primaryProp)
    ensures v.name != PrimaryVarName(interactionId + suffix)
  {
    PrefixCleanupRemovesExactlyMatches(variables, undeletable, collectionId, interactionId);
    VariableNamesCarryId(interactionId, i, primaryProp);
    VariableNamesCarryId(interactionId + suffix, i, primaryProp);
    StartsWithAppend(interactionId, suffix);
    assert PrimaryVarName(interactionId + suffix)[..|interactionId|] == (interactionId + suffix)[..|interactionId|];
  }

  // ---------------------------------------------------------------------
  // The module's state: the plugin's variable collection
  // ---------------------------------------------------------------------

  /** The module-level `variableCollection` of variable-manager.ts and the functions that use it. */
  class VariableManager {
    var variableCollection: Option<Collection>

    constructor ()
      ensures variableCollection == None
    {
      variableCollection := None;
    }

    /** setupVariableCollection: find or create `state-machine` and remember it. */
    method SetupVariableCollection(store: VariableStore)
      requires store.Valid()
      modifies this, store
      ensures store.Valid()
      ensures store.variables == old(store.variables)
      ensures store.listingUnavailable ==>
                variableCollection == old(variableCollection) && store.collections == old(store.collections)
                && store.nextId == old(store.nextId)
      ensures !store.listingUnavailable ==>
                variableCollection.Some? && variableCollection == FindCollection(store.collections, VARIABLE_COLLECTION_NAME)
      ensures !store.listingUnavailable ==>
                store.collections == if FindCollection(old(store.collections), VARIABLE_COLLECTION_NAME).Some?
                                     then old(store.collections)
                                     else old(store.collections) + [Collection(old(store.nextId), VARIABLE_COLLECTION_NAME)]
    {
      variableCollection := SetupCollection(store, variableCollection);
    }

    /**
     * createAndBindVariables: fails when no collection is set up; otherwise
     * one seeded STRING variable per instance, bound to the instance's
     * property where the host accepts the binding.
     */
    method CreateAndBindVariables(store: VariableStore, canvas: Canvas, interaction: Interaction, component: ComponentInfo,
                                  actualPropertyName: string, primaryProp: string)
      returns (r: Result<Binding>)
      requires store.Valid()
      modifies store, canvas
      ensures store.Valid()
      ensures variableCollection.None? ==>
                r == Failure("Variable collection not initialized")
                && store.variables == old(store.variables) && store.nextId == old(store.nextId)
                && canvas.bindings == old(canvas.bindings)
      ensures variableCollection.Some? ==>
                && r.Success?
                && r.value.originalStates == OriginalStates(component.instances, actualPropertyName)
                && r.value.instanceVars == InstanceVariables(old(store.nextId), variableCollection.value.id, interaction.id,
                                                             component.instances, actualPropertyName, primaryProp)
                && store.variables == old(store.variables) + r.value.instanceVars
                && store.nextId == old(store.nextId) + |component.instances|
                && canvas.bindings == BoundProperties(old(canvas.bindings), component.instances, actualPropertyName,
                                                      old(store.nextId), canvas.bindRejects)
      ensures store.collections == old(store.collections)
      ensures canvas.reactions == old(canvas.reactions) && canvas.writes == old(canvas.writes)
    {
      if variableCollection.None? {
        return Failure("Variable collection not initialized");
      }
      var b := BindInstanceVariables(store, canvas, variableCollection.value.id, interaction.id, component.instances,
                                     actualPropertyName, primaryProp);
      r := Success(b);
    }

    /**
     * cleanupExistingInteraction: nothing without a collection; otherwise
     * the prefix removal over the collection.
     */
    method CleanupExistingInteraction(store: VariableStore, interactionId: string)
      requires store.Valid()
      modifies store
      ensures store.Valid()
      ensures store.collections == old(store.collections) && store.nextId == old(store.nextId)
      ensures variableCollection.None? || store.listingUnavailable ==> store.variables == old(store.variables)
      ensures variableCollection.Some? && !store.listingUnavailable ==>
                store.variables
                == PrefixCleanup(old(store.variables), store.undeletable, variableCollection.value.id, interactionId).remaining
    {
      if variableCollection.None? {
        return;
      }
      var _ := RemoveByPrefix(store, variableCollection.value.id, interactionId);
    }

    /** createInteractionVariables: fails when no collection is set up; otherwise the flags. */
    method CreateInteractionVariables(store: VariableStore, interaction: Interaction) returns (r: Result<FlagVariables>)
      requires store.Valid()
      modifies store
      ensures store.Valid()
      ensures store.collections == old(store.collections)
      ensures variableCollection.None? ==>
                r == Failure("Variable collection not initialized")
                && store.variables == old(store.variables) && store.nextId == old(store.nextId)
      ensures variableCollection.Some? ==>
                && r == Success(FlagVariablesFor(old(store.nextId), variableCollection.value.id, interaction.id,
                                                 |interaction.conditionalRules|))
                && store.variables == old(store.variables) + [r.value.primaryVar] + r.value.conditionalVars
                && store.nextId == old(store.nextId) + 1 + |interaction.conditionalRules|
    {
      if variableCollection.None? {
        return Failure("Variable collection not initialized");
      }
      var f := CreateFlagVariables(store, variableCollection.value.id, interaction.id, |interaction.conditionalRules|);
      r := Success(f);
    }
  }
}
