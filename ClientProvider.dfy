/**
 * The registry of Demandware clients: one client per instance id, bound and
 * unbound by the OSGi framework, looked up by instance id or by the transport
 * URI of a replication agent ("demandware://<instance id>").
 */
module ClientProvider {
  import opened Wrappers
  import opened JavaStrings
  import opened Client

  /** The scheme a replication agent's transport URI starts with. */
  const DemandwareScheme: string := "demandware://"

  /** The registry key a lookup uses: the requested id with every "/" removed. */
  function LookupKey(instanceId: string): (k: JString)
    ensures k.Some? && '/' !in k.value
  {
    RemoveCharLeavesNone(instanceId, '/');
    Some(ReplaceAll(instanceId, "/", ""))
  }

  /** getClientForSpecificInstance(String) over a given registry. */
  function Lookup(clients: map<JString, DemandwareClient>, instanceId: string): (r: Option<DemandwareClient>)
    ensures r.Some? <==> LookupKey(instanceId) in clients
    ensures r.Some? ==> r.value == clients[LookupKey(instanceId)]
  {
    var key := LookupKey(instanceId);
    if key in clients then Some(clients[key]) else None
  }

  /** getInstanceId(AgentConfig): the transport URI with every occurrence of the scheme removed,
      or "" when the agent has no transport URI. */
  function InstanceIdOf(transportUri: JString): (id: string)
    ensures transportUri.None? ==> id == ""
  {
    if transportUri.None? then "" else ReplaceAll(transportUri.value, DemandwareScheme, "")
  }

  /** A client bound under an id without "/" is found under that id. */
  lemma LookupAfterBind(clients: map<JString, DemandwareClient>, client: DemandwareClient, id: string)
    requires '/' !in id
    ensures Lookup(clients[Some(id) := client], id) == Some(client)
  {
    ReplaceAbsentChar(id, '/', "");
  }

  /** Binding under another key leaves every other lookup as it was. */
  lemma LookupAfterBindElsewhere(clients: map<JString, DemandwareClient>, client: DemandwareClient,
                                 key: JString, instanceId: string)
    requires LookupKey(instanceId) != key
    ensures Lookup(clients[key := client], instanceId) == Lookup(clients, instanceId)
  {
  }

  /** After unbinding, the lookups that reached the removed client find nothing, and the others are unchanged. */
  lemma LookupAfterUnbind(clients: map<JString, DemandwareClient>, key: JString, instanceId: string)
    ensures LookupKey(instanceId) == key ==> Lookup(clients - {key}, instanceId) == None
    ensures LookupKey(instanceId) != key ==> Lookup(clients - {key}, instanceId) == Lookup(clients, instanceId)
  {
  }

  /** A client whose id contains "/", or which has no id, can be bound but is never found. */
  lemma UnreachableKeys(clients: map<JString, DemandwareClient>, client: DemandwareClient,
                        key: JString, instanceId: string)
    requires key.None? || '/' in key.value
    ensures Lookup(clients[key := client], instanceId) == Lookup(clients, instanceId)
  {
  }

  /** Slashes in the requested id are ignored: removing them first changes nothing. */
  lemma LookupIgnoresSlashes(clients: map<JString, DemandwareClient>, instanceId: string)
    ensures Lookup(clients, ReplaceAll(instanceId, "/", "")) == Lookup(clients, instanceId)
  {
    RemoveCharLeavesNone(instanceId, '/');
    ReplaceAbsentChar(ReplaceAll(instanceId, "/", ""), '/', "");
  }

  /** An agent whose transport URI is the scheme followed by an id in which the scheme does not
      occur names that id. */
  lemma InstanceIdOfTransportUri(id: string)
    requires forall i :: 0 <= i <= |id| ==> !OccursAt(id, DemandwareScheme, i)
    ensures InstanceIdOf(Some(DemandwareScheme + id)) == id
  {
    ReplaceAllLeading(DemandwareScheme, id, "");
    ReplaceAllAbsent(id, DemandwareScheme, "");
  }

  /** The replication agent for "demandware://<id>" reaches the client bound under that id. */
  lemma AgentReachesBoundClient(clients: map<JString, DemandwareClient>, client: DemandwareClient, id: string)
    requires '/' !in id
    ensures Lookup(clients[Some(id) := client], InstanceIdOf(Some(DemandwareScheme + id))) == Some(client)
  {
    assert DemandwareScheme[11] == '/';
    forall i | 0 <= i <= |id| ensures !OccursAt(id, DemandwareScheme, i) {
      if i + |DemandwareScheme| <= |id| {
        assert id[i..i + |DemandwareScheme|][11] == id[i + 11];
      }
    }
    InstanceIdOfTransportUri(id);
    LookupAfterBind(clients, client, id);
  }

  /** DemandwareClientProviderImpl: the map is created on the first bind. */
  class DemandwareClientProvider {
    var demandwareClients: Option<map<JString, DemandwareClient>>

    constructor()
      ensures demandwareClients.None?
    {
      demandwareClients := None;
    }

    /** getDemandwareClients. */
    function GetDemandwareClients(): Option<map<JString, DemandwareClient>>
      reads this
    {
      demandwareClients
    }

    /** getClientForSpecificInstance(String). The framework binds at least one client before the
        provider is used (the reference is mandatory), so the map exists. */
    function GetClientForSpecificInstance(instanceId: string): (r: Option<DemandwareClient>)
      reads this
      requires demandwareClients.Some?
      ensures r == Lookup(demandwareClients.value, instanceId)
    {
      var key := LookupKey(instanceId);
      if key in demandwareClients.value then Some(demandwareClients.value[key]) else None
    }

    /** getClientForSpecificInstance(AgentConfig), given the agent's transport URI. */
    function GetClientForAgentConfig(transportUri: JString): (r: Option<DemandwareClient>)
      reads this
      requires demandwareClients.Some?
      ensures r == Lookup(demandwareClients.value, InstanceIdOf(transportUri))
    {
      GetClientForSpecificInstance(InstanceIdOf(transportUri))
    }

    /** bindDemandwareClient: creates the map when needed and puts the client under its instance id. */
    method BindDemandwareClient(client: DemandwareClient)
      modifies this
      ensures demandwareClients.Some?
      ensures old(demandwareClients).None? ==> demandwareClients.value == map[client.instanceId := client]
      ensures old(demandwareClients).Some? ==>
        demandwareClients.value == old(demandwareClients).value[client.instanceId := client]
    {
      if demandwareClients.None? {
        demandwareClients := Some(map[]);
      }
      demandwareClients := Some(demandwareClients.value[client.GetInstanceId() := client]);
    }

    /** unbindDemandwareClient: removes whatever is stored under the client's instance id. */
    method UnbindDemandwareClient(client: DemandwareClient)
      modifies this
      requires demandwareClients.Some?
      ensures demandwareClients == Some(old(demandwareClients).value - {client.instanceId})
    {
      demandwareClients := Some(demandwareClients.value - {client.GetInstanceId()});
    }
  }
}
