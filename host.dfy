/**
 * The host state the plugin changes: the local variable collections and
 * variables, and the prototype reactions and property bindings of the
 * scene's nodes. A host call that can fail is modelled by a fixed set of
 * ids (or a flag) on which the host rejects the call.
 */
module Host {
  import opened Wrappers

  datatype Collection = Collection(id: nat, name: string)

  datatype VarType = BooleanVar | StringVar

  /** A variable's value in the collection's default mode. */
  datatype VarValue = BoolValue(b: bool) | StringValue(s: string)

  datatype Variable = Variable(id: nat, name: string, collectionId: nat, varType: VarType, value: VarValue)

  /** `collections.find(c => c.name === name)`: the first collection with that name. */
  function FindCollection(collections: seq<Collection>, name: string): (r: Option<Collection>)
    ensures r.Some? <==> exists k :: 0 <= k < |collections| && collections[k].name == name
    ensures r.Some? ==> exists k :: 0 <= k < |collections| && collections[k] == r.value && r.value.name == name
                                    && forall j :: 0 <= j < k ==> collections[j].name != name
  {
    if collections == [] then None
    else if collections[0].name == name then Some(collections[0])
    else
      var r := FindCollection(collections[1..], name);
      if r.Some? then
        var k :| 0 <= k < |collections[1..]| && collections[1..][k] == r.value && r.value.name == name
                 && forall j :: 0 <= j < k ==> collections[1..][j].name != name;
        assert collections[k + 1] == r.value;
        r
      else r
  }

  /** The variables whose ids are not in `gone`, in their order. */
  function Keep(variables: seq<Variable>, gone: set<nat>): (r: seq<Variable>)
    ensures forall v :: v in r <==> v in variables && v.id !in gone
    ensures |r| <= |variables|
  {
    if variables == [] then []
    else (if variables[0].id in gone then [] else [variables[0]]) + Keep(variables[1..], gone)
  }

  lemma {:induction false} KeepNothing(variables: seq<Variable>)
    ensures Keep(variables, {}) == variables
  {
    if variables != [] {
      KeepNothing(variables[1..]);
      assert variables == [variables[0]] + variables[1..];
    }
  }

  /** Removing in two steps is removing the union. */
  lemma {:induction false} KeepKeep(variables: seq<Variable>, a: set<nat>, b: set<nat>)
    ensures Keep(Keep(variables, a), b) == Keep(variables, a + b)
  {
    if variables != [] {
      KeepKeep(variables[1..], a, b);
      var head := if variables[0].id in a then [] else [variables[0]];
      assert Keep(variables, a) == head + Keep(variables[1..], a);
      if variables[0].id !in a {
        assert Keep(variables, a)[1..] == Keep(variables[1..], a);
      } else {
        assert Keep(variables, a) == Keep(variables[1..], a);
      }
    }
  }

  /** Distinct variables have distinct ids. */
  predicate VariableIdsDistinct(variables: seq<Variable>)
  {
    forall j, k :: 0 <= j < k < |variables| ==> variables[j].id != variables[k].id
  }

  lemma {:induction false} KeepKeepsIdsDistinct(variables: seq<Variable>, gone: set<nat>)
    requires VariableIdsDistinct(variables)
    ensures VariableIdsDistinct(Keep(variables, gone))
  {
    if variables != [] {
      KeepKeepsIdsDistinct(variables[1..], gone);
      var rest := Keep(variables[1..], gone);
      if variables[0].id !in gone {
        forall k | 0 <= k < |rest|
          ensures rest[k].id != variables[0].id
        {
          assert rest[k] in variables[1..];
        }
      }
    }
  }

  /**
   * `figma.variables`: the local collections and variables. Ids are drawn
   * from `nextId`; `listingUnavailable` makes the host's listing calls
   * fail; removing a variable whose id is in `undeletable` fails.
   */
  class VariableStore {
    var collections: seq<Collection>
    var variables: seq<Variable>
    var nextId: nat
    const listingUnavailable: bool
    const undeletable: set<nat>

    /** Every id is below `nextId`, and no two variables share one. */
    ghost predicate Valid()
      reads this
    {
      && (forall k :: 0 <= k < |collections| ==> collections[k].id < nextId)
      && (forall k :: 0 <= k < |variables| ==> variables[k].id < nextId)
      && VariableIdsDistinct(variables)
    }

    constructor (listingUnavailable: bool, undeletable: set<nat>)
      ensures Valid()
      ensures collections == [] && variables == [] && nextId == 0
      ensures this.listingUnavailable == listingUnavailable && this.undeletable == undeletable
    {
      collections := [];
      variables := [];
      nextId := 0;
      this.listingUnavailable := listingUnavailable;
      this.undeletable := undeletable;
    }

    /** `createVariableCollection(name)`. */
    method CreateCollection(name: string) returns (c: Collection)
      requires Valid()
      modifies this
      ensures Valid()
      ensures c == Collection(old(nextId), name)
      ensures collections == old(collections) + [c] && variables == old(variables) && nextId == old(nextId) + 1
    {
      c := Collection(nextId, name);
      collections := collections + [c];
      nextId := nextId + 1;
    }

    /** `createVariable(name, collection, type)` followed by `setValueForMode` on the default mode. */
    method CreateVariable(name: string, collectionId: nat, varType: VarType, value: VarValue) returns (v: Variable)
      requires Valid()
      modifies this
      ensures Valid()
      ensures v == Variable(old(nextId), name, collectionId, varType, value)
      ensures variables == old(variables) + [v] && collections == old(collections) && nextId == old(nextId) + 1
    {
      v := Variable(nextId, name, collectionId, varType, value);
      variables := variables + [v];
      nextId := nextId + 1;
    }

    /** `variable.remove()`: fails, changing nothing, for an undeletable id. */
    method Remove(id: nat) returns (ok: bool)
      requires Valid()
      modifies this
      ensures Valid()
      ensures ok == (id !in undeletable)
      ensures variables == if ok then Keep(old(variables), {id}) else old(variables)
      ensures collections == old(collections) && nextId == old(nextId)
    {
      ok := id !in undeletable;
      if ok {
        KeepKeepsIdsDistinct(variables, {id});
        variables := Keep(variables, {id});
      }
    }
  }

  datatype Trigger = OnClick | OtherTrigger

  /** A prototype action: SET_VARIABLE with a string value, or any other kind. */
  datatype Action = SetVariable(variableId: nat, value: string) | OtherAction

  datatype Reaction = Reaction(trigger: Trigger, actions: seq<Action>)

  /** One successful `setReactionsAsync` call: the node and the reactions it now has. */
  type ReactionWrite = (string, seq<Reaction>)

  /** The reactions after a sequence of successful writes. */
  function ApplyWrites(reactions: map<string, seq<Reaction>>, writes: seq<ReactionWrite>): map<string, seq<Reaction>>
  {
    if writes == [] then reactions
    else ApplyWrites(reactions, writes[..|writes| - 1])[writes[|writes| - 1].0 := writes[|writes| - 1].1]
  }

  /** A node is left as it was by writes that do not name it. */
  lemma {:induction false} ApplyWritesElsewhere(reactions: map<string, seq<Reaction>>, writes: seq<ReactionWrite>, id: string)
    requires forall k :: 0 <= k < |writes| ==> writes[k].0 != id
    ensures id in ApplyWrites(reactions, writes) <==> id in reactions
    ensures id in reactions ==> ApplyWrites(reactions, writes)[id] == reactions[id]
  {
    if writes != [] {
      ApplyWritesElsewhere(reactions, writes[..|writes| - 1], id);
    }
  }

  /** A node ends with the last value written to it. */
  lemma {:induction false} ApplyWritesLast(reactions: map<string, seq<Reaction>>, writes: seq<ReactionWrite>, k: nat)
    requires k < |writes| && forall m :: k < m < |writes| ==> writes[m].0 != writes[k].0
    ensures writes[k].0 in ApplyWrites(reactions, writes)
    ensures ApplyWrites(reactions, writes)[writes[k].0] == writes[k].1
  {
    if k < |writes| - 1 {
      ApplyWritesLast(reactions, writes[..|writes| - 1], k);
    }
  }

  /**
   * The scene's prototype state: each node's reactions, the variable bound
   * to each (node, property), and every successful `setReactionsAsync`
   * in order. `setReactionsAsync` on a node in `rejects` and
   * `setProperties` on a node in `bindRejects` fail and change nothing.
   */
  class Canvas {
    var reactions: map<string, seq<Reaction>>
    var bindings: map<(string, string), nat>
    var writes: seq<ReactionWrite>
    const rejects: set<string>
    const bindRejects: set<string>

    constructor (reactions: map<string, seq<Reaction>>, rejects: set<string>, bindRejects: set<string>)
      ensures this.reactions == reactions && bindings == map[] && writes == []
      ensures this.rejects == rejects && this.bindRejects == bindRejects
    {
      this.reactions := reactions;
      bindings := map[];
      writes := [];
      this.rejects := rejects;
      this.bindRejects := bindRejects;
    }

    /** `node.setReactionsAsync(rs)`. */
    method SetReactions(nodeId: string, rs: seq<Reaction>) returns (ok: bool)
      modifies this
      ensures ok == (nodeId !in rejects)
      ensures writes == if ok then old(writes) + [(nodeId, rs)] else old(writes)
      ensures reactions == if ok then old(reactions)[nodeId := rs] else old(reactions)
      ensures bindings == old(bindings)
    {
      ok := nodeId !in rejects;
      if ok {
        writes := writes + [(nodeId, rs)];
        reactions := reactions[nodeId := rs];
      }
    }

    /** `node.setProperties({[prop]: alias(variable)})`: binds the property to the variable. */
    method BindProperty(nodeId: string, prop: string, variableId: nat) returns (ok: bool)
      modifies this
      ensures ok == (nodeId !in bindRejects)
      ensures bindings == if ok then old(bindings)[(nodeId, prop) := variableId] else old(bindings)
      ensures reactions == old(reactions) && writes == old(writes)
    {
      ok := nodeId !in bindRejects;
      if ok {
        bindings := bindings[(nodeId, prop) := variableId];
      }
    }
  }

  /** Ids `first`, `first + 1`, ..., `n` of them: those of `n` variables created in a row. */
  function FreshIds(first: nat, n: nat): seq<nat>
  {
    seq(n, i requires 0 <= i < n => first + i)
  }

  /** The ids of a list of variables. */
  function VarIds(variables: seq<Variable>): seq<nat>
  {
    seq(|variables|, i requires 0 <= i < |variables| => variables[i].id)
  }

  /** `n` empty reaction lists: the clearing pass. */
  function Cleared(n: nat): seq<seq<Reaction>>
  {
    seq(n, i requires 0 <= i < n => [])
  }

  /** The successful writes of a pass setting node `ids[i]` to `planned[i]` in order; rejected nodes are skipped. */
  function AcceptedWrites(ids: seq<string>, planned: seq<seq<Reaction>>, rejects: set<string>): seq<ReactionWrite>
    requires |planned| == |ids|
  {
    if ids == [] then []
    else AcceptedWrites(ids[..|ids| - 1], planned[..|planned| - 1], rejects)
         + (if ids[|ids| - 1] in rejects then [] else [(ids[|ids| - 1], planned[|planned| - 1])])
  }

  lemma AcceptedWritesStep(ids: seq<string>, planned: seq<seq<Reaction>>, rejects: set<string>, i: nat)
    requires |planned| == |ids| && i < |ids|
    ensures AcceptedWrites(ids[..i + 1], planned[..i + 1], rejects)
            == AcceptedWrites(ids[..i], planned[..i], rejects) + (if ids[i] in rejects then [] else [(ids[i], planned[i])])
  {
    assert ids[..i + 1][..i] == ids[..i];
    assert planned[..i + 1][..i] == planned[..i];
  }

  lemma ApplyWritesSnoc(reactions: map<string, seq<Reaction>>, writes: seq<ReactionWrite>, w: ReactionWrite)
    ensures ApplyWrites(reactions, writes + [w]) == ApplyWrites(reactions, writes)[w.0 := w.1]
  {
    assert (writes + [w])[..|writes|] == writes;
  }

  lemma {:induction false} ApplyWritesAppend(reactions: map<string, seq<Reaction>>, a: seq<ReactionWrite>, b: seq<ReactionWrite>)
    ensures ApplyWrites(reactions, a + b) == ApplyWrites(ApplyWrites(reactions, a), b)
  {
    if b == [] {
      assert a + b == a;
    } else {
      ApplyWritesAppend(reactions, a, b[..|b| - 1]);
      assert (a + b)[..|a + b| - 1] == a + b[..|b| - 1];
    }
  }

  /** Each accepted write is some node's planned value, for a node the host does not reject. */
  lemma {:induction false} AcceptedWritesMembers(ids: seq<string>, planned: seq<seq<Reaction>>, rejects: set<string>)
    requires |planned| == |ids|
    ensures forall k :: 0 <= k < |AcceptedWrites(ids, planned, rejects)| ==>
              exists i :: 0 <= i < |ids| && ids[i] !in rejects && AcceptedWrites(ids, planned, rejects)[k] == (ids[i], planned[i])
  {
    if ids != [] {
      var n := |ids| - 1;
      AcceptedWritesMembers(ids[..n], planned[..n], rejects);
      var before := AcceptedWrites(ids[..n], planned[..n], rejects);
      var w := AcceptedWrites(ids, planned, rejects);
      assert w == before + (if ids[n] in rejects then [] else [(ids[n], planned[n])]);
      forall k | 0 <= k < |w|
        ensures exists i :: 0 <= i < |ids| && ids[i] !in rejects && w[k] == (ids[i], planned[i])
      {
        if k < |before| {
          var i :| 0 <= i < n && ids[..n][i] !in rejects && before[k] == (ids[..n][i], planned[..n][i]);
          assert ids[i] == ids[..n][i] && planned[i] == planned[..n][i];
          assert w[k] == before[k];
          assert 0 <= i < |ids| && ids[i] !in rejects && w[k] == (ids[i], planned[i]);
        } else {
          assert 0 <= n < |ids| && ids[n] !in rejects && w[k] == (ids[n], planned[n]);
        }
      }
    } else {
      assert AcceptedWrites(ids, planned, rejects) == [];
    }
  }

  /**
   * After a pass, an accepted node holds its planned reactions (unless a
   * later entry names the same node), and a node the pass does not name
   * keeps what it had.
   */
  lemma {:induction false} AcceptedWritesFinal(reactions: map<string, seq<Reaction>>, ids: seq<string>,
                                               planned: seq<seq<Reaction>>, rejects: set<string>, i: nat)
    requires |planned| == |ids| && i < |ids| && ids[i] !in rejects
    requires forall j :: i < j < |ids| ==> ids[j] != ids[i]
    ensures ids[i] in ApplyWrites(reactions, AcceptedWrites(ids, planned, rejects))
    ensures ApplyWrites(reactions, AcceptedWrites(ids, planned, rejects))[ids[i]] == planned[i]
  {
    var n := |ids| - 1;
    var before := AcceptedWrites(ids[..n], planned[..n], rejects);
    if ids[n] !in rejects {
      ApplyWritesSnoc(reactions, before, (ids[n], planned[n]));
    } else {
      assert AcceptedWrites(ids, planned, rejects) == before;
    }
    if i < n {
      assert ids[..n][i] == ids[i] && planned[..n][i] == planned[i];
      AcceptedWritesFinal(reactions, ids[..n], planned[..n], rejects, i);
    }
  }

  lemma AcceptedWritesElsewhere(reactions: map<string, seq<Reaction>>, ids: seq<string>,
                                planned: seq<seq<Reaction>>, rejects: set<string>, id: string)
    requires |planned| == |ids| && id !in ids
    ensures id in ApplyWrites(reactions, AcceptedWrites(ids, planned, rejects)) <==> id in reactions
    ensures id in reactions ==> ApplyWrites(reactions, AcceptedWrites(ids, planned, rejects))[id] == reactions[id]
  {
    AcceptedWritesMembers(ids, planned, rejects);
    ApplyWritesElsewhere(reactions, AcceptedWrites(ids, planned, rejects), id);
  }

  /**
   * A clearing pass followed by an installing pass of non-empty lists:
   * no node is cleared after any node has been given its new reactions.
   */
  lemma ClearsPrecedeInstalls(ids: seq<string>, planned: seq<seq<Reaction>>, rejects: set<string>)
    requires |planned| == |ids| && forall i :: 0 <= i < |planned| ==> planned[i] != []
    ensures var w := AcceptedWrites(ids, Cleared(|ids|), rejects) + AcceptedWrites(ids, planned, rejects);
            forall p, q :: 0 <= p < q < |w| && w[p].1 != [] ==> w[q].1 != []
  {
    var clears := AcceptedWrites(ids, Cleared(|ids|), rejects);
    var installs := AcceptedWrites(ids, planned, rejects);
    AcceptedWritesMembers(ids, Cleared(|ids|), rejects);
    AcceptedWritesMembers(ids, planned, rejects);
    var w := clears + installs;
    forall p, q | 0 <= p < q < |w| && w[p].1 != []
      ensures w[q].1 != []
    {
      var j :| 0 <= j < |ids| && ids[j] !in rejects && installs[q - |clears|] == (ids[j], planned[j]);
    }
  }

  /**
   * The first pass over a component's instances: `setReactionsAsync([])`
   * on each, a failure on one node not stopping the others.
   */
  method ClearReactions(canvas: Canvas, ids: seq<string>)
    modifies canvas
    ensures canvas.writes == old(canvas.writes) + AcceptedWrites(ids, Cleared(|ids|), canvas.rejects)
    ensures canvas.reactions == ApplyWrites(old(canvas.reactions), AcceptedWrites(ids, Cleared(|ids|), canvas.rejects))
    ensures canvas.bindings == old(canvas.bindings)
  {
    var clears := Cleared(|ids|);
    for i := 0 to |ids|
      invariant canvas.writes == old(canvas.writes) + AcceptedWrites(ids[..i], clears[..i], canvas.rejects)
      invariant canvas.reactions == ApplyWrites(old(canvas.reactions), AcceptedWrites(ids[..i], clears[..i], canvas.rejects))
      invariant canvas.bindings == old(canvas.bindings)
    {
      AcceptedWritesStep(ids, clears, canvas.rejects, i);
      ApplyWritesSnoc(old(canvas.reactions), AcceptedWrites(ids[..i], clears[..i], canvas.rejects), (ids[i], clears[i]));
      assert clears[i] == [];
      var ok := canvas.SetReactions(ids[i], clears[i]);
      if !ok {
        assert AcceptedWrites(ids[..i + 1], clears[..i + 1], canvas.rejects) == AcceptedWrites(ids[..i], clears[..i], canvas.rejects);
      }
    }
    assert ids[..|ids|] == ids && clears[..|ids|] == clears;
  }
}
