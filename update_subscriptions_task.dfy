/**
 * The task that rebuilds this machine's subscriptions for one keygroup
 * (tasks/UpdateKeygroupSubscriptionsTask.java): with a replica node collection, the
 * keygroup's old subscribers are detached, one subscriber is started per machine of
 * every other replica node whose configuration can be found, and then the old
 * subscribers are stopped. In every case the keygroup's responsibility entry is
 * put with this machine's name.
 */
module SubscriptionUpdate {
  import opened Types
  import opened Subscriptions
  import opened DbConnector

  /** The naming service's answer to a node config read: a config or null, or no connection. */
  datatype RemoteAnswer = Answered(config: Option<NodeConfig>) | Unreachable

  /**
   * The node config lookup (storageconnector/ConfigAccessHelper.java): the local
   * store first, the naming service when the store holds nothing.
   */
  function Resolve(local: map<NodeId, NodeConfig>, remote: NodeId -> RemoteAnswer, n: NodeId): Option<NodeConfig> {
    if n in local then Some(local[n])
    else match remote(n)
      case Answered(c) => c
      case Unreachable => None
  }

  /** A machine to subscribe to: its address and its node's publisher port. */
  type Target = (string, int)

  function MachineTargets(nc: NodeConfig): (r: seq<Target>)
    ensures |r| == |nc.machines|
  {
    seq(|nc.machines|, j requires 0 <= j < |nc.machines| => (nc.machines[j], nc.publisherPort))
  }

  function NodeTargets(r: ReplicaNode, own: NodeId, local: map<NodeId, NodeConfig>, remote: NodeId -> RemoteAnswer): seq<Target> {
    if r.node == own then []
    else match Resolve(local, remote, r.node)
      case Some(nc) => MachineTargets(nc)
      case None => []
  }

  /** The machines subscribed to, in the order the replica nodes and their machines are visited. */
  function Targets(replicas: seq<ReplicaNode>, own: NodeId, local: map<NodeId, NodeConfig>, remote: NodeId -> RemoteAnswer): seq<Target>
    decreases |replicas|
  {
    if replicas == [] then []
    else
      var n := |replicas| - 1;
      Targets(replicas[..n], own, local, remote) + NodeTargets(replicas[n], own, local, remote)
  }

  /** A target belongs to replica node `r`: a foreign node with a known config listing the machine. */
  predicate Serves(r: ReplicaNode, own: NodeId, local: map<NodeId, NodeConfig>, remote: NodeId -> RemoteAnswer, t: Target) {
    && r.node != own
    && Resolve(local, remote, r.node).Some?
    && t.0 in Resolve(local, remote, r.node).value.machines
    && t.1 == Resolve(local, remote, r.node).value.publisherPort
  }

  /**
   * Exactly the machines of the foreign replica nodes with a known config are
   * subscribed to, each at its node's publisher port: nothing of this node itself,
   * nothing of an unknown or unreachable node.
   */
  lemma {:induction false} TargetsExact(replicas: seq<ReplicaNode>, own: NodeId, local: map<NodeId, NodeConfig>, remote: NodeId -> RemoteAnswer, t: Target)
    ensures t in Targets(replicas, own, local, remote) <==>
      exists i | 0 <= i < |replicas| :: Serves(replicas[i], own, local, remote, t)
    decreases |replicas|
  {
    if replicas != [] {
      var n := |replicas| - 1;
      var init := replicas[..n];
      TargetsExact(init, own, local, remote, t);
      assert t in NodeTargets(replicas[n], own, local, remote) <==> Serves(replicas[n], own, local, remote, t) by {
        if Serves(replicas[n], own, local, remote, t) {
          var nc := Resolve(local, remote, replicas[n].node).value;
          var j :| 0 <= j < |nc.machines| && nc.machines[j] == t.0;
          assert MachineTargets(nc)[j] == t;
        }
      }
      if exists i | 0 <= i < |replicas| :: Serves(replicas[i], own, local, remote, t) {
        var i :| 0 <= i < |replicas| && Serves(replicas[i], own, local, remote, t);
        if i < n {
          assert init[i] == replicas[i];
        }
      }
      if exists i | 0 <= i < |init| :: Serves(init[i], own, local, remote, t) {
        var i :| 0 <= i < |init| && Serves(init[i], own, local, remote, t);
        assert replicas[i] == init[i];
      }
    }
  }

  /** A foreign replica node with a known config contributes one subscription per listed machine, in order. */
  lemma TargetsStep(replicas: seq<ReplicaNode>, i: nat, own: NodeId, local: map<NodeId, NodeConfig>, remote: NodeId -> RemoteAnswer)
    requires i < |replicas|
    ensures Targets(replicas[..i + 1], own, local, remote) == Targets(replicas[..i], own, local, remote) + NodeTargets(replicas[i], own, local, remote)
  {
    assert replicas[..i + 1][..i] == replicas[..i];
  }

  /** The subscribers started for the targets, numbered on from the registry's next serial. */
  function Planned(targets: seq<Target>, serial: nat, config: KeygroupConfig): (r: seq<Subscriber>)
    ensures |r| == |targets|
  {
    seq(|targets|, j requires 0 <= j < |targets| =>
      Subscriber(serial + j, targets[j].0, targets[j].1, config.secret, config.algorithm, config.id))
  }

  /** Every planned subscriber listens at its target with the keygroup's secret, algorithm and id. */
  lemma PlannedFields(targets: seq<Target>, serial: nat, config: KeygroupConfig, j: nat)
    requires j < |targets|
    ensures var s := Planned(targets, serial, config)[j];
      && (s.address, s.port) == targets[j]
      && s.secret == config.secret && s.algorithm == config.algorithm && s.keygroup == config.id
      && s.serial == serial + j
  {
  }

  lemma PlannedAppend(a: seq<Target>, b: seq<Target>, serial: nat, config: KeygroupConfig)
    ensures Planned(a + b, serial, config) == Planned(a, serial, config) + Planned(b, serial + |a|, config)
  {
    var l := Planned(a + b, serial, config);
    var r := Planned(a, serial, config) + Planned(b, serial + |a|, config);
    forall j | 0 <= j < |l| ensures l[j] == r[j] {
      if j >= |a| {
        assert (a + b)[j] == b[j - |a|];
      }
    }
  }

  /** The registry map after appending `subs` to `k`'s list, one subscribeTo at a time. */
  function Appended(m: Active, k: KeygroupId, subs: seq<Subscriber>): Active {
    if subs == [] then m else m[k := (if k in m then m[k] else []) + subs]
  }

  lemma AppendedAppend(m: Active, k: KeygroupId, a: seq<Subscriber>, b: seq<Subscriber>)
    ensures Appended(Appended(m, k, a), k, b) == Appended(m, k, a + b)
  {
    if a == [] {
      assert a + b == b;
    } else if b == [] {
      assert a + b == a;
    } else {
      var l := if k in m then m[k] else [];
      assert l + a + b == l + (a + b);
    }
  }

  lemma AppendedOne(m: Active, s: Subscriber, a: seq<Subscriber>)
    ensures Subscribed(Appended(m, s.keygroup, a), s) == Appended(m, s.keygroup, a + [s])
  {
    AppendedAppend(m, s.keygroup, a, [s]);
  }

  /** The inner loop: one subscription per machine of the node, at the node's publisher port. */
  method SubscribeToMachines(registry: SubscriptionRegistry, nc: NodeConfig, config: KeygroupConfig)
    requires registry.Valid()
    modifies registry
    ensures registry.Valid()
    ensures registry.nextSerial == old(registry.nextSerial) + |nc.machines|
    ensures registry.activeSubscriptions ==
      Appended(old(registry.activeSubscriptions), config.id, Planned(MachineTargets(nc), old(registry.nextSerial), config))
    ensures registry.events == old(registry.events) + Starts(Planned(MachineTargets(nc), old(registry.nextSerial), config))
  {
    ghost var serial := registry.nextSerial;
    ghost var targets := MachineTargets(nc);
    var j := 0;
    while j < |nc.machines|
      invariant 0 <= j <= |nc.machines|
      invariant registry.Valid()
      invariant registry.nextSerial == serial + j
      invariant registry.activeSubscriptions ==
        Appended(old(registry.activeSubscriptions), config.id, Planned(targets[..j], serial, config))
      invariant registry.events == old(registry.events) + Starts(Planned(targets[..j], serial, config))
    {
      ghost var before := Planned(targets[..j], serial, config);
      var s := registry.SubscribeTo(nc.machines[j], nc.publisherPort, config.secret, config.algorithm, config.id);
      assert targets[..j + 1] == targets[..j] + [targets[j]];
      PlannedAppend(targets[..j], [targets[j]], serial, config);
      assert Planned([targets[j]], serial + j, config) == [s];
      AppendedOne(old(registry.activeSubscriptions), s, before);
      StartsAppend(before, [s]);
      j := j + 1;
    }
    assert targets[..j] == targets;
  }

  /** One replica node: skipped if it is this node; otherwise its config is resolved and all its machines subscribed to. */
  method SubscribeToReplica(r: ReplicaNode, config: KeygroupConfig, own: NodeId, remote: NodeId -> RemoteAnswer,
                            registry: SubscriptionRegistry, connector: OnHeapDBConnector)
    requires registry.Valid()
    modifies registry
    ensures registry.Valid()
    ensures var planned := Planned(NodeTargets(r, own, connector.nodeConfigs, remote), old(registry.nextSerial), config);
      && registry.nextSerial == old(registry.nextSerial) + |planned|
      && registry.activeSubscriptions == Appended(old(registry.activeSubscriptions), config.id, planned)
      && registry.events == old(registry.events) + Starts(planned)
  {
    if r.node != own {
      var nodeConfig := connector.NodeConfigGet(r.node);
      if nodeConfig.None? {
        match remote(r.node)
        case Answered(c) => nodeConfig := c;
        case Unreachable =>
      }
      if nodeConfig.Some? {
        SubscribeToMachines(registry, nodeConfig.value, config);
        return;
      }
    }
    assert Starts([]) == [];
  }

  /** The replica loop: each replica node in order, continuing past any with no known config. */
  method SubscribeToReplicas(replicas: seq<ReplicaNode>, config: KeygroupConfig, own: NodeId, remote: NodeId -> RemoteAnswer,
                             registry: SubscriptionRegistry, connector: OnHeapDBConnector)
    requires registry.Valid()
    modifies registry
    ensures registry.Valid()
    ensures var planned := Planned(Targets(replicas, own, connector.nodeConfigs, remote), old(registry.nextSerial), config);
      && registry.nextSerial == old(registry.nextSerial) + |planned|
      && registry.activeSubscriptions == Appended(old(registry.activeSubscriptions), config.id, planned)
      && registry.events == old(registry.events) + Starts(planned)
  {
    ghost var serial := registry.nextSerial;
    ghost var base := registry.activeSubscriptions;
    ghost var local := connector.nodeConfigs;
    var i := 0;
    while i < |replicas|
      invariant 0 <= i <= |replicas|
      invariant registry.Valid()
      invariant registry.nextSerial == serial + |Targets(replicas[..i], own, local, remote)|
      invariant registry.activeSubscriptions == Appended(base, config.id, Planned(Targets(replicas[..i], own, local, remote), serial, config))
      invariant registry.events == old(registry.events) + Starts(Planned(Targets(replicas[..i], own, local, remote), serial, config))
    {
      ghost var sofar := Targets(replicas[..i], own, local, remote);
      ghost var next := NodeTargets(replicas[i], own, local, remote);
      ghost var mid := registry.nextSerial;
      SubscribeToReplica(replicas[i], config, own, remote, registry, connector);
      TargetsStep(replicas, i, own, local, remote);
      PlannedAppend(sofar, next, serial, config);
      AppendedAppend(base, config.id, Planned(sofar, serial, config), Planned(next, mid, config));
      StartsAppend(Planned(sofar, serial, config), Planned(next, mid, config));
      i := i + 1;
    }
    assert replicas[..i] == replicas;
  }

  /** The whole task's effect on the registry for a replica node collection. */
  ghost predicate Rebuilt(before: Active, beforeEvents: seq<Event>,
                          after: Active, afterEvents: seq<Event>, planned: seq<Subscriber>, k: KeygroupId)
  {
    var oldList := if k in before then before[k] else [];
    && after == Appended(before - {k}, k, planned)
    && afterEvents == beforeEvents + Starts(planned) + Stops(oldList)
  }

  /**
   * After a rebuild the keygroup's list is exactly the new subscribers (and absent
   * if there are none), no other keygroup changes, and the log shows every new
   * subscriber started before any old one is stopped.
   */
  lemma RebuiltEffects(before: Active, beforeEvents: seq<Event>, after: Active, afterEvents: seq<Event>,
                       planned: seq<Subscriber>, k: KeygroupId, other: KeygroupId, i: nat)
    requires Rebuilt(before, beforeEvents, after, afterEvents, planned, k)
    ensures k in after <==> planned != []
    ensures k in after ==> after[k] == planned
    ensures other != k ==> (other in after <==> other in before) && (other in before ==> after[other] == before[other])
    ensures |beforeEvents| <= i < |afterEvents| ==>
      (afterEvents[i].Started? <==> i < |beforeEvents| + |planned|)
    ensures |afterEvents| == |beforeEvents| + |planned| + Count(before, k)
  {
  }

  /**
   * Every new subscriber listens for the keygroup with its secret and algorithm, at
   * a machine and publisher port of a foreign replica node whose config is known.
   */
  lemma NewSubscribersServeReplicas(replicas: seq<ReplicaNode>, own: NodeId, local: map<NodeId, NodeConfig>,
                                    remote: NodeId -> RemoteAnswer, serial: nat, config: KeygroupConfig, s: Subscriber)
    requires s in Planned(Targets(replicas, own, local, remote), serial, config)
    ensures s.keygroup == config.id && s.secret == config.secret && s.algorithm == config.algorithm
    ensures exists i | 0 <= i < |replicas| :: Serves(replicas[i], own, local, remote, (s.address, s.port))
    ensures s.serial >= serial
  {
    var targets := Targets(replicas, own, local, remote);
    var j :| 0 <= j < |targets| && Planned(targets, serial, config)[j] == s;
    PlannedFields(targets, serial, config, j);
    TargetsExact(replicas, own, local, remote, targets[j]);
  }

  /**
   * The task's whole effect on the registry: nothing without a replica node
   * collection; otherwise the keygroup's subscriptions are rebuilt for the targets.
   */
  ghost predicate SubscriptionsUpdated(config: KeygroupConfig, own: NodeId, local: map<NodeId, NodeConfig>,
                                       remote: NodeId -> RemoteAnswer,
                                       before: Active, beforeEvents: seq<Event>, beforeSerial: nat,
                                       after: Active, afterEvents: seq<Event>, afterSerial: nat)
  {
    if config.replicaNodes.None? then
      after == before && afterEvents == beforeEvents && afterSerial == beforeSerial
    else
      var planned := Planned(Targets(config.replicaNodes.value, own, local, remote), beforeSerial, config);
      && afterSerial == beforeSerial + |planned|
      && Rebuilt(before, beforeEvents, after, afterEvents, planned, config.id)
  }

  /**
   * executeFunctionality. `own` and `ownMachine` are this node's id and this
   * machine's name; the node configs are resolved through the connector's store
   * and, failing that, the naming service's answers `remote`.
   */
  method UpdateKeygroupSubscriptions(config: KeygroupConfig, own: NodeId, ownMachine: string,
                                     remote: NodeId -> RemoteAnswer,
                                     registry: SubscriptionRegistry, connector: OnHeapDBConnector)
    returns (done: bool)
    requires registry.Valid() && connector.Valid()
    modifies registry, connector`keygroupSubscribers
    ensures registry.Valid() && connector.Valid()
    ensures done
    ensures SubscriptionsUpdated(config, own, connector.nodeConfigs, remote,
      old(registry.activeSubscriptions), old(registry.events), old(registry.nextSerial),
      registry.activeSubscriptions, registry.events, registry.nextSerial)
    ensures connector.keygroupSubscribers == BumpSubscriber(old(connector.keygroupSubscribers), config.id, ownMachine).0
  {
    if config.replicaNodes.Some? {
      var oldSubscriber := registry.RemoveSubscriberForKeygroup(config.id);
      SubscribeToReplicas(config.replicaNodes.value, config, own, remote, registry, connector);
      if oldSubscriber.Some? {
        registry.StopAll(oldSubscriber.value);
      } else {
        assert Stops([]) == [];
      }
    }
    var _ := connector.KeyGroupSubscriberMachinesPut(config.id, ownMachine);
    done := true;
  }
}
