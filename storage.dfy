/**
 * src/plugin/storage.ts: the authored interaction records, and their
 * persistence in the host's client storage under `interaction_<component id>`.
 * Serialising to JSON and parsing back is taken as an exact round trip, so
 * the store holds the records themselves.
 */
module Storage {
  import opened Wrappers
  import opened Strings
  import ComponentAnalyzer

  const STORAGE_KEY_PREFIX := "interaction_"

  /** A conditional rule: `condition` and `action` are `"prop=value"` texts (`''` when missing). */
  datatype ConditionalRule = ConditionalRule(
    id: int,
    condition: string,
    action: string,
    targetComponent: Option<string>)

  /** A nested action: drive another group's property from the same click. */
  datatype NestedAction = NestedAction(componentId: string, action: string)

  /** An authored interaction, as the UI sends it and as it is stored. */
  datatype Interaction = Interaction(
    id: string,
    component: string,
    primaryAction: string,
    conditionalRules: seq<ConditionalRule>,
    nestedActions: seq<NestedAction>)

  /** The client-storage key of a component's interaction. */
  function StorageKey(componentId: string): (k: string)
    ensures StartsWith(k, STORAGE_KEY_PREFIX)
    ensures k[|STORAGE_KEY_PREFIX|..] == componentId
  {
    STORAGE_KEY_PREFIX + componentId
  }

  /** Different components never share a key. */
  lemma StorageKeyInjective(a: string, b: string)
    requires StorageKey(a) == StorageKey(b)
    ensures a == b
  {
    assert a == StorageKey(a)[|STORAGE_KEY_PREFIX|..] == StorageKey(b)[|STORAGE_KEY_PREFIX|..] == b;
  }

  /**
   * The host's client storage. `unavailable` holds the keys whose
   * `setAsync`/`getAsync`/`deleteAsync` calls the host rejects.
   */
  class ClientStorage {
    var data: map<string, Interaction>
    const unavailable: set<string>

    constructor (data: map<string, Interaction>, unavailable: set<string>)
      ensures this.data == data && this.unavailable == unavailable
    {
      this.data := data;
      this.unavailable := unavailable;
    }

    method SetAsync(key: string, value: Interaction) returns (ok: bool)
      modifies this
      ensures ok == (key !in unavailable)
      ensures data == if ok then old(data)[key := value] else old(data)
    {
      ok := key !in unavailable;
      if ok {
        data := data[key := value];
      }
    }

    method GetAsync(key: string) returns (ok: bool, value: Option<Interaction>)
      ensures ok == (key !in unavailable)
      ensures ok ==> value == if key in data then Some(data[key]) else None
    {
      ok := key !in unavailable;
      value := if ok && key in data then Some(data[key]) else None;
    }

    method DeleteAsync(key: string) returns (ok: bool)
      modifies this
      ensures ok == (key !in unavailable)
      ensures data == if ok then old(data) - {key} else old(data)
    {
      ok := key !in unavailable;
      if ok {
        data := data - {key};
      }
    }
  }

  /** What retrieveInteractionData yields: the stored record, or null when nothing is stored or the host fails. */
  function Retrieved(data: map<string, Interaction>, unavailable: set<string>, componentId: string): Option<Interaction>
  {
    var key := StorageKey(componentId);
    if key in unavailable || key !in data then None else Some(data[key])
  }

  /** storeInteractionData: write the record under its component's key; a host failure is swallowed. */
  method StoreInteractionData(storage: ClientStorage, interaction: Interaction)
    modifies storage
    ensures storage.data == if StorageKey(interaction.component) in storage.unavailable then old(storage.data)
                            else old(storage.data)[StorageKey(interaction.component) := interaction]
    ensures StorageKey(interaction.component) !in storage.unavailable ==>
              Retrieved(storage.data, storage.unavailable, interaction.component) == Some(interaction)
  {
    var _ := storage.SetAsync(StorageKey(interaction.component), interaction);
  }

  /** Storing for one component leaves every other component's record as it was. */
  lemma StoreLeavesOthers(data: map<string, Interaction>, unavailable: set<string>, interaction: Interaction, other: string)
    requires other != interaction.component
    ensures Retrieved(data[StorageKey(interaction.component) := interaction], unavailable, other)
            == Retrieved(data, unavailable, other)
  {
    if StorageKey(other) == StorageKey(interaction.component) {
      StorageKeyInjective(other, interaction.component);
    }
  }

  /** Storing twice for one component keeps only the second record. */
  lemma StoreOverwrites(data: map<string, Interaction>, unavailable: set<string>, first: Interaction, second: Interaction)
    requires first.component == second.component && StorageKey(first.component) !in unavailable
    ensures Retrieved(data[StorageKey(first.component) := first][StorageKey(second.component) := second],
                      unavailable, first.component) == Some(second)
  {
  }

  /** retrieveInteractionData. */
  method RetrieveInteractionData(storage: ClientStorage, componentId: string) returns (r: Option<Interaction>)
    ensures r == Retrieved(storage.data, storage.unavailable, componentId)
    ensures r.Some? ==> StorageKey(componentId) in storage.data && r.value == storage.data[StorageKey(componentId)]
  {
    var ok, stored := storage.GetAsync(StorageKey(componentId));
    if ok && stored.Some? {
      return stored;
    }
    return None;
  }

  /**
   * The keys cleanupStoredInteractions deletes: those of the listed
   * components up to, not including, the first key the host rejects.
   */
  function DeletedKeys(components: seq<ComponentAnalyzer.ComponentInfo>, unavailable: set<string>): set<string>
  {
    if components == [] then {}
    else if StorageKey(components[0].id) in unavailable then {}
    else {StorageKey(components[0].id)} + DeletedKeys(components[1..], unavailable)
  }

  /** Only listed components' keys are ever deleted; with no host failure, all of them are. */
  lemma {:induction false} DeletedKeysBounds(components: seq<ComponentAnalyzer.ComponentInfo>, unavailable: set<string>)
    ensures forall k :: k in DeletedKeys(components, unavailable) ==>
              exists j :: 0 <= j < |components| && k == StorageKey(components[j].id)
    ensures (forall j :: 0 <= j < |components| ==> StorageKey(components[j].id) !in unavailable) ==>
              forall j :: 0 <= j < |components| ==> StorageKey(components[j].id) in DeletedKeys(components, unavailable)
  {
    if components != [] {
      DeletedKeysBounds(components[1..], unavailable);
      forall k | k in DeletedKeys(components, unavailable)
        ensures exists j :: 0 <= j < |components| && k == StorageKey(components[j].id)
      {
        if k != StorageKey(components[0].id) {
          assert k in DeletedKeys(components[1..], unavailable);
          var j :| 0 <= j < |components[1..]| && k == StorageKey(components[1..][j].id);
          assert components[j + 1] == components[1..][j];
        }
      }
      if forall j :: 0 <= j < |components| ==> StorageKey(components[j].id) !in unavailable {
        forall j | 0 <= j < |components| ensures StorageKey(components[j].id) in DeletedKeys(components, unavailable) {
          if j > 0 { assert components[1..][j - 1] == components[j]; }
        }
      }
    }
  }

  /** cleanupStoredInteractions: delete each listed component's key; the first host failure ends the loop. */
  method CleanupStoredInteractions(storage: ClientStorage, components: seq<ComponentAnalyzer.ComponentInfo>)
    modifies storage
    ensures storage.data == old(storage.data) - DeletedKeys(components, storage.unavailable)
  {
    var k := 0;
    while k < |components|
      invariant 0 <= k <= |components|
      invariant DeletedKeys(components, storage.unavailable)
                == DeletedKeys(components[..k], storage.unavailable) + DeletedKeys(components[k..], storage.unavailable)
      invariant forall j :: 0 <= j < k ==> StorageKey(components[j].id) !in storage.unavailable
      invariant storage.data == old(storage.data) - DeletedKeys(components[..k], storage.unavailable)
    {
      var ok := storage.DeleteAsync(StorageKey(components[k].id));
      if !ok {
        return;
      }
      DeletedKeysSnoc(components[..k + 1], storage.unavailable);
      assert components[..k + 1][..k] == components[..k];
      assert components[k..][1..] == components[k + 1..];
      k := k + 1;
    }
    assert components[..k] == components;
  }

  lemma {:induction false} DeletedKeysSnoc(components: seq<ComponentAnalyzer.ComponentInfo>, unavailable: set<string>)
    requires components != []
    requires forall j :: 0 <= j < |components| ==> StorageKey(components[j].id) !in unavailable
    ensures DeletedKeys(components, unavailable)
            == DeletedKeys(components[..|components| - 1], unavailable) + {StorageKey(components[|components| - 1].id)}
  {
    if |components| > 1 {
      DeletedKeysSnoc(components[1..], unavailable);
      assert components[1..][..|components| - 2] == components[..|components| - 1][1..];
    }
  }

  /**
   * getExistingInteractions: a dictionary with an entry for exactly the
   * listed components whose record can be retrieved.
   */
  method GetExistingInteractions(storage: ClientStorage, components: seq<ComponentAnalyzer.ComponentInfo>)
    returns (existing: map<string, Interaction>)
    ensures forall id :: id in existing <==>
              (exists j :: 0 <= j < |components| && components[j].id == id)
              && Retrieved(storage.data, storage.unavailable, id).Some?
    ensures forall id :: id in existing ==> Some(existing[id]) == Retrieved(storage.data, storage.unavailable, id)
  {
    existing := map[];
    for k := 0 to |components|
      invariant forall id :: id in existing <==>
                  (exists j :: 0 <= j < k && components[j].id == id)
                  && Retrieved(storage.data, storage.unavailable, id).Some?
      invariant forall id :: id in existing ==> Some(existing[id]) == Retrieved(storage.data, storage.unavailable, id)
    {
      var found := RetrieveInteractionData(storage, components[k].id);
      if found.Some? {
        existing := existing[components[k].id := found.value];
      }
    }
  }
}
