/**
 * The version-gated keygroup config update (tasks/UpdateKeygroupConfigTask.java):
 * a config is stored only if no config is stored for its keygroup or the stored one
 * has a strictly smaller version; then the keygroup's record table is made to
 * exist, the subscriptions are rebuilt and, if asked, the config is published.
 */
module ConfigUpdate {
  import opened Types
  import opened Subscriptions
  import opened DbConnector
  import opened SubscriptionUpdate

  datatype Command = UpdateKeygroupConfigCommand

  /** A published envelope; the config value stands for its JSON content. */
  datatype Envelope = Envelope(keygroup: KeygroupId, command: Command, content: KeygroupConfig)

  /** A message sent, with the secret and algorithm it is encrypted with. */
  datatype Sent = Sent(envelope: Envelope, secret: string, algorithm: EncryptionAlgorithm)

  /** This machine's publisher, reduced to the log of what it sent. */
  class Publisher {
    var sent: seq<Sent>

    constructor ()
      ensures sent == []
    {
      sent := [];
    }

    method Send(envelope: Envelope, secret: string, algorithm: EncryptionAlgorithm)
      modifies this
      ensures sent == old(sent) + [Sent(envelope, secret, algorithm)]
    {
      sent := sent + [Sent(envelope, secret, algorithm)];
    }
  }

  /** The version gate: no config is stored for the keygroup, or the stored one is strictly older. */
  predicate Newer(config: KeygroupConfig, stored: map<KeygroupId, KeygroupConfig>) {
    config.id !in stored || stored[config.id].version < config.version
  }

  /** The record tables after keygroup_create with its "already exists" failure ignored. */
  function WithTable(t: Tables, k: KeygroupId): Tables {
    if k in t then t else CreateTable(t, k).value
  }

  /**
   * Storing a config that passes the gate raises the stored version and makes the
   * same config fail the gate afterwards: a config delivered twice is applied once.
   */
  lemma GateAfterStore(config: KeygroupConfig, stored: map<KeygroupId, KeygroupConfig>)
    requires Newer(config, stored)
    ensures config.id in stored ==> stored[config.id].version < stored[config.id := config][config.id].version
    ensures !Newer(config, stored[config.id := config])
  {
  }

  /** A config whose version is not above the stored one never passes the gate. */
  lemma GateRejectsOlder(config: KeygroupConfig, stored: map<KeygroupId, KeygroupConfig>)
    requires config.id in stored && config.version <= stored[config.id].version
    ensures !Newer(config, stored)
  {
  }

  /** The keygroup's table exists afterwards, keeping its records if it already existed. */
  lemma WithTableExists(t: Tables, k: KeygroupId, other: KeygroupId)
    ensures k in WithTable(t, k)
    ensures k in t ==> WithTable(t, k) == t
    ensures k !in t ==> WithTable(t, k)[k] == map[]
    ensures other != k ==> (other in WithTable(t, k) <==> other in t) && (other in t ==> WithTable(t, k)[other] == t[other])
  {
  }

  /**
   * executeFunctionality. The subscription task is run to completion in place of
   * the source's wait of up to one second on it; it is witnessed by the single
   * increment of the keygroup's responsibility entry.
   */
  method UpdateKeygroupConfig(config: KeygroupConfig, publish: bool, own: NodeId, ownMachine: string,
                              remote: NodeId -> RemoteAnswer,
                              connector: OnHeapDBConnector, registry: SubscriptionRegistry, publisher: Publisher)
    returns (stored: bool)
    requires connector.Valid() && registry.Valid()
    modifies connector`records, connector`keygroupConfigs, connector`keygroupSubscribers, registry, publisher
    ensures connector.Valid() && registry.Valid()
    ensures stored <==> Newer(config, old(connector.keygroupConfigs))
    ensures !stored ==>
      && connector.records == old(connector.records)
      && connector.keygroupConfigs == old(connector.keygroupConfigs)
      && connector.keygroupSubscribers == old(connector.keygroupSubscribers)
      && registry.activeSubscriptions == old(registry.activeSubscriptions)
      && registry.events == old(registry.events)
      && registry.nextSerial == old(registry.nextSerial)
      && publisher.sent == old(publisher.sent)
    ensures stored ==>
      && connector.records == WithTable(old(connector.records), config.id)
      && connector.keygroupConfigs == old(connector.keygroupConfigs)[config.id := config]
      && connector.keygroupSubscribers == BumpSubscriber(old(connector.keygroupSubscribers), config.id, ownMachine).0
      && SubscriptionsUpdated(config, own, connector.nodeConfigs, remote,
           old(registry.activeSubscriptions), old(registry.events), old(registry.nextSerial),
           registry.activeSubscriptions, registry.events, registry.nextSerial)
      && publisher.sent == old(publisher.sent) +
           (if publish then [Sent(Envelope(config.id, UpdateKeygroupConfigCommand, config), config.secret, config.algorithm)] else [])
  {
    var oldConfig := connector.KeygroupConfigGet(config.id);
    if oldConfig.Some? && oldConfig.value.version >= config.version {
      return false;
    }
    var _ := connector.KeygroupCreate(config.id);
    connector.KeygroupConfigPut(config.id, config);
    var _ := UpdateKeygroupSubscriptions(config, own, ownMachine, remote, registry, connector);
    if publish {
      var e := Envelope(config.id, UpdateKeygroupConfigCommand, config);
      publisher.Send(e, config.secret, config.algorithm);
    }
    stored := true;
  }
}
