/**
 * The convenience client's keygroup membership reconciliation
 * (src/main/kotlin/client/SimpleClient.kt): read the keygroup's config once, create
 * the keygroup if it is missing (add only), then for clients, replica nodes and
 * trigger nodes in that order, and each list in input order, issue one add or
 * delete call only where the snapshot read at the start says it is needed.
 *
 * The node's keygroup resource is the class `KeygroupService`: it holds the configs
 * a read returns and the log of the requests it received. How the node handles the
 * requests, and what they answer, is not part of this model: the client only logs
 * the answers and never reads the config again.
 */
module KeygroupClient {
  import opened Types

  /** The requests the client sends to the node's keygroup resource. */
  datatype Call =
    | ReadConfig(keygroup: KeygroupId)
    | CreateKeygroup(config: KeygroupConfig)
    | AddClient(keygroup: KeygroupId, client: ClientId)
    | AddReplicaNode(keygroup: KeygroupId, replica: ReplicaNode)
    | AddTriggerNode(keygroup: KeygroupId, node: NodeId)
    | DeleteClient(keygroup: KeygroupId, client: ClientId)
    | DeleteNode(keygroup: KeygroupId, node: NodeId)

  /** The config stored for a keygroup, or nothing (null). */
  function Lookup(configs: map<KeygroupId, KeygroupConfig>, k: KeygroupId): Option<KeygroupConfig> {
    if k in configs then Some(configs[k]) else None
  }

  /** How often `x` occurs in `s`; `OccurrencesMultiplicity` shows it is the multiplicity of `x` in `multiset(s)`. */
  function Occurrences<T(==)>(s: seq<T>, x: T): nat
    decreases |s|
  {
    if s == [] then 0 else Occurrences(s[..|s| - 1], x) + (if s[|s| - 1] == x then 1 else 0)
  }

  lemma {:induction false} OccurrencesConcat<T>(a: seq<T>, b: seq<T>, x: T)
    ensures Occurrences(a + b, x) == Occurrences(a, x) + Occurrences(b, x)
    decreases |b|
  {
    if b == [] {
      assert a + b == a;
    } else {
      var n := |b| - 1;
      assert (a + b)[..|a + b| - 1] == a + b[..n] && (a + b)[|a + b| - 1] == b[n];
      OccurrencesConcat(a, b[..n], x);
    }
  }

  lemma OccurrencesSingleton<T>(y: T, x: T)
    ensures Occurrences([y], x) == if y == x then 1 else 0
  {
    assert [y][..0] == [];
  }

  lemma {:induction false} OccurrencesMultiplicity<T>(s: seq<T>, x: T)
    ensures Occurrences(s, x) == multiset(s)[x]
    decreases |s|
  {
    if s != [] {
      var n := |s| - 1;
      assert s == s[..n] + [s[n]];
      OccurrencesMultiplicity(s[..n], x);
    }
  }

  /** The node's keygroup resource with the configs it holds and the requests it received, in order. */
  class KeygroupService {
    var configs: map<KeygroupId, KeygroupConfig>
    var log: seq<Call>

    constructor (configs: map<KeygroupId, KeygroupConfig>)
      ensures this.configs == configs && log == []
    {
      this.configs := configs;
      log := [];
    }

    /** updateLocalKeygroupConfig: the keygroup's config, or nothing (null). */
    method UpdateLocalKeygroupConfig(k: KeygroupId) returns (config: Option<KeygroupConfig>)
      modifies this`log
      ensures config == Lookup(configs, k)
      ensures log == old(log) + [ReadConfig(k)]
    {
      config := Lookup(configs, k);
      log := log + [ReadConfig(k)];
    }

    method Send(call: Call)
      modifies this`log
      ensures log == old(log) + [call]
    {
      log := log + [call];
    }
  }

  /**
   * The config the client creates for a missing keygroup: secret "passw", AES and
   * no members. The model class's constructor is not part of this model; version 0
   * stands for its initial version.
   */
  function FreshConfig(k: KeygroupId): KeygroupConfig {
    KeygroupConfig(k, "passw", AES, {}, Some([]), {}, 0)
  }

  /** The six member loops of the two operations, and the trigger node removal as evidently intended. */
  datatype Loop =
    | AddClients
    | AddReplicaNodes(ttl: int)
    | AddTriggerNodes
    | DeleteClients
    | DeleteReplicaNodes
    | DeleteTriggerNodes
    | DeleteTriggerNodesIntended
  {
    /** The loops of removeFromKeygroup. */
    static predicate Deletes(loop: Loop) {
      !loop.AddClients? && !loop.AddReplicaNodes? && !loop.AddTriggerNodes?
    }
  }

  /**
   * Whether a loop issues its call for id `s`, judged against the config `cfg`.
   * The trigger node removal as written skips the ids the config DOES list.
   */
  predicate Needed(loop: Loop, cfg: KeygroupConfig, s: string) {
    match loop
    case AddClients => ClientId(s) !in cfg.clients
    case AddReplicaNodes(_) => !cfg.ContainsReplicaNode(NodeId(s))
    case AddTriggerNodes => !cfg.ContainsTriggerNode(NodeId(s))
    case DeleteClients => ClientId(s) in cfg.clients
    case DeleteReplicaNodes => cfg.ContainsReplicaNode(NodeId(s))
    case DeleteTriggerNodes => !cfg.ContainsTriggerNode(NodeId(s))
    case DeleteTriggerNodesIntended => cfg.ContainsTriggerNode(NodeId(s))
  }

  /** The call a loop issues for id `s`; replica and trigger nodes are both removed with deleteNode. */
  function Make(loop: Loop, k: KeygroupId, s: string): Call {
    match loop
    case AddClients => AddClient(k, ClientId(s))
    case AddReplicaNodes(ttl) => AddReplicaNode(k, ReplicaNode(NodeId(s), ttl))
    case AddTriggerNodes => AddTriggerNode(k, NodeId(s))
    case DeleteClients => DeleteClient(k, ClientId(s))
    case _ => DeleteNode(k, NodeId(s))
  }

  /** The calls one loop issues: for each id in order, its call exactly when it is needed. */
  function Decide(loop: Loop, cfg: KeygroupConfig, k: KeygroupId, ids: seq<string>): seq<Call>
    decreases |ids|
  {
    if ids == [] then []
    else
      var n := |ids| - 1;
      Decide(loop, cfg, k, ids[..n]) + (if Needed(loop, cfg, ids[n]) then [Make(loop, k, ids[n])] else [])
  }

  lemma DecideStep(loop: Loop, cfg: KeygroupConfig, k: KeygroupId, ids: seq<string>, i: nat)
    requires i < |ids|
    ensures Decide(loop, cfg, k, ids[..i + 1])
         == Decide(loop, cfg, k, ids[..i]) + (if Needed(loop, cfg, ids[i]) then [Make(loop, k, ids[i])] else [])
  {
    assert ids[..i + 1][..i] == ids[..i];
  }

  /**
   * Each id's call is issued once per occurrence of the id when needed and never
   * otherwise: a duplicate id in one input list gives repeated calls.
   */
  lemma {:induction false} DecideCount(loop: Loop, cfg: KeygroupConfig, k: KeygroupId, ids: seq<string>, s: string)
    ensures Occurrences(Decide(loop, cfg, k, ids), Make(loop, k, s)) == if Needed(loop, cfg, s) then Occurrences(ids, s) else 0
    decreases |ids|
  {
    if ids != [] {
      var n := |ids| - 1;
      DecideCount(loop, cfg, k, ids[..n], s);
      var tail := if Needed(loop, cfg, ids[n]) then [Make(loop, k, ids[n])] else [];
      OccurrencesConcat(Decide(loop, cfg, k, ids[..n]), tail, Make(loop, k, s));
      OccurrencesSingleton(Make(loop, k, ids[n]), Make(loop, k, s));
      MakeInjective(loop, k, ids[n], s);
      assert ids == ids[..n] + [ids[n]];
      OccurrencesConcat(ids[..n], [ids[n]], s);
      OccurrencesSingleton(ids[n], s);
    }
  }

  /** Distinct ids give distinct calls. */
  lemma MakeInjective(loop: Loop, k: KeygroupId, a: string, b: string)
    ensures Make(loop, k, a) == Make(loop, k, b) <==> a == b
  {
  }

  /** Every call a loop issues is made from an id of its list for which it was needed. */
  lemma {:induction false} DecideImage(loop: Loop, cfg: KeygroupConfig, k: KeygroupId, ids: seq<string>, c: Call)
    requires c in Decide(loop, cfg, k, ids)
    ensures exists s | s in ids :: Needed(loop, cfg, s) && c == Make(loop, k, s)
    decreases |ids|
  {
    var n := |ids| - 1;
    if c in Decide(loop, cfg, k, ids[..n]) {
      DecideImage(loop, cfg, k, ids[..n], c);
      var s :| s in ids[..n] && Needed(loop, cfg, s) && c == Make(loop, k, s);
      assert s in ids;
    } else {
      assert ids[n] in ids;
    }
  }

  /** The order of the requests: the read, the create, clients, replica nodes, trigger nodes. */
  function Rank(c: Call): nat {
    match c
    case ReadConfig(_) => 0
    case CreateKeygroup(_) => 1
    case AddClient(_, _) => 2
    case DeleteClient(_, _) => 2
    case AddReplicaNode(_, _) => 3
    case AddTriggerNode(_, _) => 4
    case DeleteNode(_, _) => 3
  }

  function LoopRank(loop: Loop): nat {
    match loop
    case AddClients => 2
    case DeleteClients => 2
    case AddReplicaNodes(_) => 3
    case DeleteReplicaNodes => 3
    case _ => if loop.AddTriggerNodes? then 4 else 3
  }

  ghost predicate AllRank(calls: seq<Call>, r: nat) {
    forall i | 0 <= i < |calls| :: Rank(calls[i]) == r
  }

  /** Each loop issues calls of its own rank only, all for the keygroup, never a read or a create. */
  lemma LoopCalls(loop: Loop, cfg: KeygroupConfig, k: KeygroupId, ids: seq<string>)
    ensures AllRank(Decide(loop, cfg, k, ids), LoopRank(loop))
    ensures forall c | c in Decide(loop, cfg, k, ids) :: c.keygroup == k && !c.ReadConfig? && !c.CreateKeygroup?
  {
    var calls := Decide(loop, cfg, k, ids);
    forall c | c in calls
      ensures Rank(c) == LoopRank(loop) && c.keygroup == k && !c.ReadConfig? && !c.CreateKeygroup?
    {
      DecideImage(loop, cfg, k, ids, c);
    }
    forall i | 0 <= i < |calls| ensures Rank(calls[i]) == LoopRank(loop) {
      assert calls[i] in calls;
    }
  }

  /** The replica node loop of addToKeygroup adds replica nodes only, each with the loop's ttl. */
  lemma ReplicaTtl(ttl: int, cfg: KeygroupConfig, k: KeygroupId, ids: seq<string>)
    ensures forall c | c in Decide(AddReplicaNodes(ttl), cfg, k, ids) :: c.AddReplicaNode? && c.replica.ttl == ttl
  {
    forall c | c in Decide(AddReplicaNodes(ttl), cfg, k, ids) ensures c.AddReplicaNode? && c.replica.ttl == ttl {
      DecideImage(AddReplicaNodes(ttl), cfg, k, ids, c);
    }
  }

  /** The loops of removeFromKeygroup issue deletions only. */
  lemma DeleteKinds(loop: Loop, cfg: KeygroupConfig, k: KeygroupId, ids: seq<string>)
    requires Loop.Deletes(loop)
    ensures forall c | c in Decide(loop, cfg, k, ids) :: c.DeleteClient? || c.DeleteNode?
  {
    forall c | c in Decide(loop, cfg, k, ids) ensures c.DeleteClient? || c.DeleteNode? {
      DecideImage(loop, cfg, k, ids, c);
    }
  }

  lemma ConcatCount(p: seq<Call>, q: seq<Call>, r: seq<Call>, s: seq<Call>, x: Call)
    ensures Occurrences(p + q + r + s, x) == Occurrences(p, x) + Occurrences(q, x) + Occurrences(r, x) + Occurrences(s, x)
  {
    OccurrencesConcat(p, q, x);
    OccurrencesConcat(p + q, r, x);
    OccurrencesConcat(p + q + r, s, x);
  }

  ghost predicate RankOrdered(calls: seq<Call>) {
    forall i, j | 0 <= i < j < |calls| :: Rank(calls[i]) <= Rank(calls[j])
  }

  lemma RankOrderedAppend(a: seq<Call>, b: seq<Call>, r: nat)
    requires RankOrdered(a) && AllRank(b, r)
    requires forall i | 0 <= i < |a| :: Rank(a[i]) <= r
    ensures RankOrdered(a + b)
    ensures forall i | 0 <= i < |a + b| :: Rank((a + b)[i]) <= r
  {
  }

  // ---------------------------------------------------------------------------
  // addToKeygroup

  /** The config the member decisions are judged against: the snapshot, or the fresh config when there was none. */
  function Basis(k: KeygroupId, snapshot: Option<KeygroupConfig>): KeygroupConfig {
    if snapshot.Some? then snapshot.value else FreshConfig(k)
  }

  /** The requests addToKeygroup sends for a parsed id, given the snapshot the read returned. */
  function AddCalls(k: KeygroupId, snapshot: Option<KeygroupConfig>, clientIds: seq<string> := [],
                    replicaNodeIds: seq<string> := [], ttl: int := -1, triggerNodeIds: seq<string> := []): seq<Call>
  {
    var cfg := Basis(k, snapshot);
    [ReadConfig(k)] + (if snapshot.None? then [CreateKeygroup(cfg)] else [])
      + Decide(AddClients, cfg, k, clientIds)
      + Decide(AddReplicaNodes(ttl), cfg, k, replicaNodeIds)
      + Decide(AddTriggerNodes, cfg, k, triggerNodeIds)
  }

  /**
   * On add: a client, replica node or trigger node already in the snapshot (in the
   * fresh config, when the keygroup was created) gets no call; an absent one gets
   * one add call of its kind per occurrence in its list.
   */
  lemma AddCallsCount(k: KeygroupId, snapshot: Option<KeygroupConfig>, clientIds: seq<string>,
                      replicaNodeIds: seq<string>, ttl: int, triggerNodeIds: seq<string>, s: string)
    ensures var calls := AddCalls(k, snapshot, clientIds, replicaNodeIds, ttl, triggerNodeIds);
      var cfg := Basis(k, snapshot);
      && Occurrences(calls, AddClient(k, ClientId(s))) == (if ClientId(s) in cfg.clients then 0 else Occurrences(clientIds, s))
      && Occurrences(calls, AddReplicaNode(k, ReplicaNode(NodeId(s), ttl))) == (if cfg.ContainsReplicaNode(NodeId(s)) then 0 else Occurrences(replicaNodeIds, s))
      && Occurrences(calls, AddTriggerNode(k, NodeId(s))) == (if cfg.ContainsTriggerNode(NodeId(s)) then 0 else Occurrences(triggerNodeIds, s))
  {
    AddClientsPart(k, snapshot, clientIds, replicaNodeIds, ttl, triggerNodeIds, s);
    AddReplicaNodesPart(k, snapshot, clientIds, replicaNodeIds, ttl, triggerNodeIds, s);
    AddTriggerNodesPart(k, snapshot, clientIds, replicaNodeIds, ttl, triggerNodeIds, s);
  }

  lemma AddClientsPart(k: KeygroupId, snapshot: Option<KeygroupConfig>, clientIds: seq<string>,
                       replicaNodeIds: seq<string>, ttl: int, triggerNodeIds: seq<string>, s: string)
    ensures Occurrences(AddCalls(k, snapshot, clientIds, replicaNodeIds, ttl, triggerNodeIds), Make(AddClients, k, s))
      == (if Needed(AddClients, Basis(k, snapshot), s) then Occurrences(clientIds, s) else 0)
  {
    var cfg, x := Basis(k, snapshot), Make(AddClients, k, s);
    DecideOtherAbsent(AddReplicaNodes(ttl), cfg, k, replicaNodeIds, x);
    DecideOtherAbsent(AddTriggerNodes, cfg, k, triggerNodeIds, x);
    DecideCount(AddClients, cfg, k, clientIds, s);
    AddCallsSum(k, snapshot, clientIds, replicaNodeIds, ttl, triggerNodeIds, x);
  }

  lemma AddReplicaNodesPart(k: KeygroupId, snapshot: Option<KeygroupConfig>, clientIds: seq<string>,
                       replicaNodeIds: seq<string>, ttl: int, triggerNodeIds: seq<string>, s: string)
    ensures Occurrences(AddCalls(k, snapshot, clientIds, replicaNodeIds, ttl, triggerNodeIds), Make(AddReplicaNodes(ttl), k, s))
      == (if Needed(AddReplicaNodes(ttl), Basis(k, snapshot), s) then Occurrences(replicaNodeIds, s) else 0)
  {
    var cfg, x := Basis(k, snapshot), Make(AddReplicaNodes(ttl), k, s);
    DecideOtherAbsent(AddClients, cfg, k, clientIds, x);
    DecideOtherAbsent(AddTriggerNodes, cfg, k, triggerNodeIds, x);
    DecideCount(AddReplicaNodes(ttl), cfg, k, replicaNodeIds, s);
    AddCallsSum(k, snapshot, clientIds, replicaNodeIds, ttl, triggerNodeIds, x);
  }

  lemma AddTriggerNodesPart(k: KeygroupId, snapshot: Option<KeygroupConfig>, clientIds: seq<string>,
                       replicaNodeIds: seq<string>, ttl: int, triggerNodeIds: seq<string>, s: string)
    ensures Occurrences(AddCalls(k, snapshot, clientIds, replicaNodeIds, ttl, triggerNodeIds), Make(AddTriggerNodes, k, s))
      == (if Needed(AddTriggerNodes, Basis(k, snapshot), s) then Occurrences(triggerNodeIds, s) else 0)
  {
    var cfg, x := Basis(k, snapshot), Make(AddTriggerNodes, k, s);
    DecideOtherAbsent(AddClients, cfg, k, clientIds, x);
    DecideOtherAbsent(AddReplicaNodes(ttl), cfg, k, replicaNodeIds, x);
    DecideCount(AddTriggerNodes, cfg, k, triggerNodeIds, s);
    AddCallsSum(k, snapshot, clientIds, replicaNodeIds, ttl, triggerNodeIds, x);
  }

  /** A member loop makes no call of another loop's kind. */
  lemma {:induction false} DecideOtherAbsent(loop: Loop, cfg: KeygroupConfig, k: KeygroupId, ids: seq<string>, c: Call)
    ensures Rank(c) != LoopRank(loop) ==> Occurrences(Decide(loop, cfg, k, ids), c) == 0
    decreases |ids|
  {
    if ids != [] && Rank(c) != LoopRank(loop) {
      var n := |ids| - 1;
      DecideOtherAbsent(loop, cfg, k, ids[..n], c);
      var tail := if Needed(loop, cfg, ids[n]) then [Make(loop, k, ids[n])] else [];
      assert Rank(Make(loop, k, ids[n])) == LoopRank(loop);
      OccurrencesConcat(Decide(loop, cfg, k, ids[..n]), tail, c);
    }
  }

  /** How often a member call occurs in addToKeygroup's requests: the sum over its three loops. */
  lemma AddCallsSum(k: KeygroupId, snapshot: Option<KeygroupConfig>, clientIds: seq<string>,
                    replicaNodeIds: seq<string>, ttl: int, triggerNodeIds: seq<string>, x: Call)
    ensures var cfg := Basis(k, snapshot);
      !x.ReadConfig? && !x.CreateKeygroup? ==>
      Occurrences(AddCalls(k, snapshot, clientIds, replicaNodeIds, ttl, triggerNodeIds), x)
        == Occurrences(Decide(AddClients, cfg, k, clientIds), x)
         + Occurrences(Decide(AddReplicaNodes(ttl), cfg, k, replicaNodeIds), x)
         + Occurrences(Decide(AddTriggerNodes, cfg, k, triggerNodeIds), x)
  {
    var cfg := Basis(k, snapshot);
    var head: seq<Call> := [ReadConfig(k)] + (if snapshot.None? then [CreateKeygroup(cfg)] else []);
    var cs := Decide(AddClients, cfg, k, clientIds);
    var rs := Decide(AddReplicaNodes(ttl), cfg, k, replicaNodeIds);
    var ts := Decide(AddTriggerNodes, cfg, k, triggerNodeIds);
    if !x.ReadConfig? && !x.CreateKeygroup? {
      assert [ReadConfig(k)][..0] == [];
      assert Occurrences([ReadConfig(k)], x) == 0;
      if snapshot.None? {
        assert head[..1] == [ReadConfig(k)] && head[1] == CreateKeygroup(cfg);
      }
      assert Occurrences(head, x) == 0;
    }
    assert AddCalls(k, snapshot, clientIds, replicaNodeIds, ttl, triggerNodeIds) == head + cs + rs + ts;
    ConcatCount(head, cs, rs, ts, x);
  }

  /**
   * addToKeygroup issues, in this order: the one read, then exactly one create
   * (of the fresh config) if and only if the keygroup was absent, then the client
   * calls, the replica node calls and the trigger node calls; every replica node
   * added carries the caller's ttl.
   */
  lemma AddCallsOrder(k: KeygroupId, snapshot: Option<KeygroupConfig>, clientIds: seq<string>,
                      replicaNodeIds: seq<string>, ttl: int, triggerNodeIds: seq<string>)
    ensures var calls := AddCalls(k, snapshot, clientIds, replicaNodeIds, ttl, triggerNodeIds);
      && calls[0] == ReadConfig(k)
      && RankOrdered(calls)
      && (forall i | 0 <= i < |calls| :: calls[i].CreateKeygroup? <==> i == 1 && snapshot.None?)
      && (snapshot.None? ==> calls[1] == CreateKeygroup(FreshConfig(k)))
      && (forall i | 1 <= i < |calls| :: !calls[i].ReadConfig?)
      && (forall c | c in calls && c.AddReplicaNode? :: c.replica.ttl == ttl)
  {
    AddCallsRanked(k, snapshot, clientIds, replicaNodeIds, ttl, triggerNodeIds);
    AddCallsTail(k, snapshot, clientIds, replicaNodeIds, ttl, triggerNodeIds);
    var head: seq<Call> := [ReadConfig(k)] + (if snapshot.None? then [CreateKeygroup(FreshConfig(k))] else []);
    assert AddCalls(k, snapshot, clientIds, replicaNodeIds, ttl, triggerNodeIds)[..|head|] == head;
  }
  /** A ttl left out of addToKeygroup is -1: every replica node added is kept forever. */
  lemma OmittedTtlIsForever(k: KeygroupId, snapshot: Option<KeygroupConfig>, clientIds: seq<string>,
                            replicaNodeIds: seq<string>, triggerNodeIds: seq<string>)
    ensures forall c | c in AddCalls(k, snapshot, clientIds, replicaNodeIds, triggerNodeIds := triggerNodeIds) && c.AddReplicaNode? ::
      c.replica.ttl == -1
  {
    AddCallsOrder(k, snapshot, clientIds, replicaNodeIds, -1, triggerNodeIds);
  }


  /** addToKeygroup's requests start with the read and are ordered by kind. */
  lemma AddCallsRanked(k: KeygroupId, snapshot: Option<KeygroupConfig>, clientIds: seq<string>,
                      replicaNodeIds: seq<string>, ttl: int, triggerNodeIds: seq<string>)
    ensures var calls := AddCalls(k, snapshot, clientIds, replicaNodeIds, ttl, triggerNodeIds);
      calls[0] == ReadConfig(k) && RankOrdered(calls)
  {
    var cfg := Basis(k, snapshot);
    var head: seq<Call> := [ReadConfig(k)] + (if snapshot.None? then [CreateKeygroup(cfg)] else []);
    var cs := Decide(AddClients, cfg, k, clientIds);
    var rs := Decide(AddReplicaNodes(ttl), cfg, k, replicaNodeIds);
    var ts := Decide(AddTriggerNodes, cfg, k, triggerNodeIds);
    LoopCalls(AddClients, cfg, k, clientIds);
    LoopCalls(AddReplicaNodes(ttl), cfg, k, replicaNodeIds);
    LoopCalls(AddTriggerNodes, cfg, k, triggerNodeIds);
    assert RankOrdered(head);
    RankOrderedAppend(head, cs, 2);
    RankOrderedAppend(head + cs, rs, 3);
    RankOrderedAppend(head + cs + rs, ts, 4);
    assert head + cs + rs + ts == AddCalls(k, snapshot, clientIds, replicaNodeIds, ttl, triggerNodeIds);
  }

  /** After the read and the create, addToKeygroup sends member calls only, each replica node with the caller's ttl. */
  lemma AddCallsTail(k: KeygroupId, snapshot: Option<KeygroupConfig>, clientIds: seq<string>,
                      replicaNodeIds: seq<string>, ttl: int, triggerNodeIds: seq<string>)
    ensures var calls := AddCalls(k, snapshot, clientIds, replicaNodeIds, ttl, triggerNodeIds);
      var h := if snapshot.None? then 2 else 1;
      && h <= |calls|
      && (forall i | h <= i < |calls| :: !calls[i].ReadConfig? && !calls[i].CreateKeygroup?)
      && (forall c | c in calls && c.AddReplicaNode? :: c.replica.ttl == ttl)
  {
    var cfg := Basis(k, snapshot);
    var head: seq<Call> := [ReadConfig(k)] + (if snapshot.None? then [CreateKeygroup(cfg)] else []);
    var cs := Decide(AddClients, cfg, k, clientIds);
    var rs := Decide(AddReplicaNodes(ttl), cfg, k, replicaNodeIds);
    var ts := Decide(AddTriggerNodes, cfg, k, triggerNodeIds);
    LoopCalls(AddClients, cfg, k, clientIds);
    LoopCalls(AddReplicaNodes(ttl), cfg, k, replicaNodeIds);
    LoopCalls(AddTriggerNodes, cfg, k, triggerNodeIds);
    ReplicaTtl(ttl, cfg, k, replicaNodeIds);
    var calls := head + cs + rs + ts;
    assert calls == AddCalls(k, snapshot, clientIds, replicaNodeIds, ttl, triggerNodeIds);
    forall i | |head| <= i < |calls| ensures !calls[i].ReadConfig? && !calls[i].CreateKeygroup? {
      var j := i - |head|;
      if j < |cs| {
        assert calls[i] == cs[j] && cs[j] in cs;
      } else if j < |cs| + |rs| {
        assert calls[i] == rs[j - |cs|] && rs[j - |cs|] in rs;
      } else {
        assert calls[i] == ts[j - |cs| - |rs|] && ts[j - |cs| - |rs|] in ts;
      }
    }
    forall c | c in calls && c.AddReplicaNode? ensures c.replica.ttl == ttl {
      assert c in head || c in cs || c in rs || c in ts;
    }
  }

  // ---------------------------------------------------------------------------
  // removeFromKeygroup

  /**
   * The requests removeFromKeygroup sends for a parsed id: the read, and only if
   * the keygroup exists, the deletions, with the trigger node loop as written
   * (`triggers`: DeleteTriggerNodes) or corrected (DeleteTriggerNodesIntended).
   */
  function RemoveCallsWith(triggers: Loop, k: KeygroupId, snapshot: Option<KeygroupConfig>, clientIds: seq<string>,
                           replicaNodeIds: seq<string>, triggerNodeIds: seq<string>): seq<Call>
  {
    if snapshot.None? then [ReadConfig(k)]
    else
      var cfg := snapshot.value;
      [ReadConfig(k)] + Decide(DeleteClients, cfg, k, clientIds)
        + Decide(DeleteReplicaNodes, cfg, k, replicaNodeIds)
        + Decide(triggers, cfg, k, triggerNodeIds)
  }

  /** The requests of removeFromKeygroup as written. */
  function RemoveCalls(k: KeygroupId, snapshot: Option<KeygroupConfig>, clientIds: seq<string> := [],
                       replicaNodeIds: seq<string> := [], triggerNodeIds: seq<string> := []): seq<Call>
  {
    RemoveCallsWith(DeleteTriggerNodes, k, snapshot, clientIds, replicaNodeIds, triggerNodeIds)
  }

  /** The requests of removeFromKeygroup with its trigger node loop corrected to skip absent trigger nodes. */
  function RemoveCallsIntended(k: KeygroupId, snapshot: Option<KeygroupConfig>, clientIds: seq<string>,
                               replicaNodeIds: seq<string>, triggerNodeIds: seq<string>): seq<Call>
  {
    RemoveCallsWith(DeleteTriggerNodesIntended, k, snapshot, clientIds, replicaNodeIds, triggerNodeIds)
  }

  /** Removing from a missing keygroup sends only the read, so no mutation request. */
  lemma RemoveFromMissing(k: KeygroupId, clientIds: seq<string>, replicaNodeIds: seq<string>, triggerNodeIds: seq<string>)
    ensures RemoveCalls(k, None, clientIds, replicaNodeIds, triggerNodeIds) == [ReadConfig(k)]
    ensures RemoveCallsIntended(k, None, clientIds, replicaNodeIds, triggerNodeIds) == [ReadConfig(k)]
  {
  }

  /**
   * On remove from an existing keygroup (as written or corrected): the read comes
   * first and is followed by deletions only, the client deletions before the
   * replica node and trigger node deletions.
   */
  lemma RemoveCallsOrder(triggers: Loop, k: KeygroupId, cfg: KeygroupConfig, clientIds: seq<string>,
                         replicaNodeIds: seq<string>, triggerNodeIds: seq<string>)
    requires triggers == DeleteTriggerNodes || triggers == DeleteTriggerNodesIntended
    ensures var calls := RemoveCallsWith(triggers, k, Some(cfg), clientIds, replicaNodeIds, triggerNodeIds);
      && calls[0] == ReadConfig(k)
      && (forall c | c in calls[1..] :: c.DeleteClient? || c.DeleteNode?)
      && RankOrdered(calls)
  {
    var cs := Decide(DeleteClients, cfg, k, clientIds);
    var rs := Decide(DeleteReplicaNodes, cfg, k, replicaNodeIds);
    var ts := Decide(triggers, cfg, k, triggerNodeIds);
    LoopCalls(DeleteClients, cfg, k, clientIds);
    LoopCalls(DeleteReplicaNodes, cfg, k, replicaNodeIds);
    LoopCalls(triggers, cfg, k, triggerNodeIds);
    var head := [ReadConfig(k)];
    assert RankOrdered(head);
    RankOrderedAppend(head, cs, 2);
    RankOrderedAppend(head + cs, rs, 3);
    RankOrderedAppend(head + cs + rs, ts, 3);
    var calls := head + cs + rs + ts;
    assert calls == RemoveCallsWith(triggers, k, Some(cfg), clientIds, replicaNodeIds, triggerNodeIds);
    DeleteKinds(DeleteClients, cfg, k, clientIds);
    DeleteKinds(DeleteReplicaNodes, cfg, k, replicaNodeIds);
    DeleteKinds(triggers, cfg, k, triggerNodeIds);
    assert calls[1..] == cs + rs + ts;
  }

  /** Every call of a removal loop is a deleteClient for the client loop and a deleteNode for the two node loops. */
  lemma DeleteLoopKinds(loop: Loop, cfg: KeygroupConfig, k: KeygroupId, ids: seq<string>)
    requires Loop.Deletes(loop)
    ensures forall c | c in Decide(loop, cfg, k, ids) :: if loop == DeleteClients then c.DeleteClient? else c.DeleteNode?
  {
    forall c | c in Decide(loop, cfg, k, ids) ensures if loop == DeleteClients then c.DeleteClient? else c.DeleteNode? {
      DecideImage(loop, cfg, k, ids, c);
    }
  }

  /**
   * On remove from an existing keygroup (as written or corrected), the requests
   * after the read fall into three segments in source order: the client loop's
   * deleteClient calls, then the replica node loop's deleteNode calls, then the
   * trigger node loop's deleteNode calls.
   */
  lemma RemoveCallsSegments(triggers: Loop, k: KeygroupId, cfg: KeygroupConfig, clientIds: seq<string>,
                            replicaNodeIds: seq<string>, triggerNodeIds: seq<string>)
    requires triggers == DeleteTriggerNodes || triggers == DeleteTriggerNodesIntended
    ensures var calls := RemoveCallsWith(triggers, k, Some(cfg), clientIds, replicaNodeIds, triggerNodeIds);
      var p := 1 + |Decide(DeleteClients, cfg, k, clientIds)|;
      var q := p + |Decide(DeleteReplicaNodes, cfg, k, replicaNodeIds)|;
      && q <= |calls|
      && calls[1..p] == Decide(DeleteClients, cfg, k, clientIds)
      && calls[p..q] == Decide(DeleteReplicaNodes, cfg, k, replicaNodeIds)
      && calls[q..] == Decide(triggers, cfg, k, triggerNodeIds)
      && (forall i | 1 <= i < p :: calls[i].DeleteClient?)
      && (forall i | p <= i < |calls| :: calls[i].DeleteNode?)
  {
    var cs := Decide(DeleteClients, cfg, k, clientIds);
    var rs := Decide(DeleteReplicaNodes, cfg, k, replicaNodeIds);
    var ts := Decide(triggers, cfg, k, triggerNodeIds);
    var calls := [ReadConfig(k)] + cs + rs + ts;
    assert calls == RemoveCallsWith(triggers, k, Some(cfg), clientIds, replicaNodeIds, triggerNodeIds);
    var p := 1 + |cs|;
    var q := p + |rs|;
    assert calls[1..p] == cs && calls[p..q] == rs && calls[q..] == ts;
    DeleteLoopKinds(DeleteClients, cfg, k, clientIds);
    DeleteLoopKinds(DeleteReplicaNodes, cfg, k, replicaNodeIds);
    DeleteLoopKinds(triggers, cfg, k, triggerNodeIds);
    forall i | 1 <= i < p ensures calls[i].DeleteClient? {
      assert calls[i] == cs[i - 1] && cs[i - 1] in cs;
    }
    forall i | p <= i < |calls| ensures calls[i].DeleteNode? {
      if i < q {
        assert calls[i] == rs[i - p] && rs[i - p] in rs;
      } else {
        assert calls[i] == ts[i - q] && ts[i - q] in ts;
      }
    }
  }

  /**
   * On remove from an existing keygroup (as written or corrected), a client gets
   * one deleteClient per occurrence in the list exactly when the snapshot lists it.
   */
  lemma ClientDeletes(triggers: Loop, k: KeygroupId, cfg: KeygroupConfig, clientIds: seq<string>,
                      replicaNodeIds: seq<string>, triggerNodeIds: seq<string>, s: string)
    requires triggers == DeleteTriggerNodes || triggers == DeleteTriggerNodesIntended
    ensures Occurrences(RemoveCallsWith(triggers, k, Some(cfg), clientIds, replicaNodeIds, triggerNodeIds), DeleteClient(k, ClientId(s)))
         == (if ClientId(s) in cfg.clients then Occurrences(clientIds, s) else 0)
  {
    var dc := DeleteClient(k, ClientId(s));
    DecideOtherAbsent(DeleteReplicaNodes, cfg, k, replicaNodeIds, dc);
    DecideOtherAbsent(triggers, cfg, k, triggerNodeIds, dc);
    DecideCount(DeleteClients, cfg, k, clientIds, s);
    RemoveCallsSum(triggers, k, cfg, clientIds, replicaNodeIds, triggerNodeIds, dc);
  }

  /** How often a deletion occurs in removeFromKeygroup's requests: the sum over its three loops. */
  lemma RemoveCallsSum(triggers: Loop, k: KeygroupId, cfg: KeygroupConfig, clientIds: seq<string>,
                       replicaNodeIds: seq<string>, triggerNodeIds: seq<string>, x: Call)
    ensures !x.ReadConfig? ==>
      Occurrences(RemoveCallsWith(triggers, k, Some(cfg), clientIds, replicaNodeIds, triggerNodeIds), x)
        == Occurrences(Decide(DeleteClients, cfg, k, clientIds), x)
         + Occurrences(Decide(DeleteReplicaNodes, cfg, k, replicaNodeIds), x)
         + Occurrences(Decide(triggers, cfg, k, triggerNodeIds), x)
  {
    var cs := Decide(DeleteClients, cfg, k, clientIds);
    var rs := Decide(DeleteReplicaNodes, cfg, k, replicaNodeIds);
    var ts := Decide(triggers, cfg, k, triggerNodeIds);
    var head := [ReadConfig(k)];
    assert head[..0] == [];
    assert RemoveCallsWith(triggers, k, Some(cfg), clientIds, replicaNodeIds, triggerNodeIds) == head + cs + rs + ts;
    ConcatCount(head, cs, rs, ts, x);
  }

  /** The deleteNode requests for node `s` of a removal whose trigger node loop is `triggers`. */
  lemma NodeDeletes(triggers: Loop, k: KeygroupId, cfg: KeygroupConfig, clientIds: seq<string>,
                    replicaNodeIds: seq<string>, triggerNodeIds: seq<string>, s: string)
    requires triggers == DeleteTriggerNodes || triggers == DeleteTriggerNodesIntended
    ensures Occurrences(RemoveCallsWith(triggers, k, Some(cfg), clientIds, replicaNodeIds, triggerNodeIds), DeleteNode(k, NodeId(s)))
         == (if cfg.ContainsReplicaNode(NodeId(s)) then Occurrences(replicaNodeIds, s) else 0)
          + (if Needed(triggers, cfg, s) then Occurrences(triggerNodeIds, s) else 0)
  {
    var dn := DeleteNode(k, NodeId(s));
    DecideOtherAbsent(DeleteClients, cfg, k, clientIds, dn);
    DecideCount(DeleteReplicaNodes, cfg, k, replicaNodeIds, s);
    DecideCount(triggers, cfg, k, triggerNodeIds, s);
    RemoveCallsSum(triggers, k, cfg, clientIds, replicaNodeIds, triggerNodeIds, dn);
  }

  /**
   * As written, removal sends deleteNode for a node once per occurrence in the
   * replica node list when it is a replica node, and once per occurrence in the
   * trigger node list exactly when it is NOT a trigger node: a listed trigger node
   * is never removed through the trigger node list.
   */
  lemma TriggerDeletesInverted(k: KeygroupId, cfg: KeygroupConfig, clientIds: seq<string>,
                               replicaNodeIds: seq<string>, triggerNodeIds: seq<string>, s: string)
    ensures Occurrences(RemoveCalls(k, Some(cfg), clientIds, replicaNodeIds, triggerNodeIds), DeleteNode(k, NodeId(s)))
         == (if cfg.ContainsReplicaNode(NodeId(s)) then Occurrences(replicaNodeIds, s) else 0)
          + (if cfg.ContainsTriggerNode(NodeId(s)) then 0 else Occurrences(triggerNodeIds, s))
  {
    NodeDeletes(DeleteTriggerNodes, k, cfg, clientIds, replicaNodeIds, triggerNodeIds, s);
  }

  /**
   * The input that shows it: removing trigger node "T" from a keygroup whose only
   * trigger node is "T" sends no deletion, while removing the absent "U" sends one.
   */
  lemma TriggerDeletesCounterexample(k: KeygroupId)
    ensures var cfg := KeygroupConfig(k, "passw", AES, {}, Some([]), {NodeId("T")}, 0);
      && RemoveCalls(k, Some(cfg), [], [], ["T"]) == [ReadConfig(k)]
      && RemoveCalls(k, Some(cfg), [], [], ["U"]) == [ReadConfig(k), DeleteNode(k, NodeId("U"))]
      && RemoveCallsIntended(k, Some(cfg), [], [], ["T"]) == [ReadConfig(k), DeleteNode(k, NodeId("T"))]
  {
    var cfg := KeygroupConfig(k, "passw", AES, {}, Some([]), {NodeId("T")}, 0);
    assert ["T"][..0] == [] && ["U"][..0] == [];
    assert NodeId("U") != NodeId("T") by {
      assert "U"[0] != "T"[0];
    }
  }

  /**
   * Corrected, removal sends deleteNode for a node once per occurrence in the
   * replica node list when it is a replica node and once per occurrence in the
   * trigger node list when it is a trigger node, like the other member loops.
   */
  lemma IntendedTriggerDeletesCount(k: KeygroupId, cfg: KeygroupConfig, clientIds: seq<string>,
                                    replicaNodeIds: seq<string>, triggerNodeIds: seq<string>, s: string)
    ensures Occurrences(RemoveCallsIntended(k, Some(cfg), clientIds, replicaNodeIds, triggerNodeIds), DeleteNode(k, NodeId(s)))
         == (if cfg.ContainsReplicaNode(NodeId(s)) then Occurrences(replicaNodeIds, s) else 0)
          + (if cfg.ContainsTriggerNode(NodeId(s)) then Occurrences(triggerNodeIds, s) else 0)
  {
    NodeDeletes(DeleteTriggerNodesIntended, k, cfg, clientIds, replicaNodeIds, triggerNodeIds, s);
  }

  /** Appending the parts of a request sequence one by one appends the whole sequence. */
  lemma AppendFive(log: seq<Call>, a: seq<Call>, b: seq<Call>, c: seq<Call>, d: seq<Call>, e: seq<Call>)
    ensures log + a + b + c + d + e == log + (a + b + c + d + e)
  {
  }

  lemma AppendFour(log: seq<Call>, a: seq<Call>, b: seq<Call>, c: seq<Call>, d: seq<Call>)
    ensures log + a + b + c + d == log + (a + b + c + d)
  {
  }

  // ---------------------------------------------------------------------------
  // The client

  /** The client of a node at `address` and `port`. */
  class Client {
    const address: string
    const port: int

    constructor (address: string, port: int)
      ensures this.address == address && this.port == port
    {
      this.address := address;
      this.port := port;
    }

    /** One member loop: for each id in order, its call, or `continue` when the config says it is not needed. */
    method Issue(service: KeygroupService, loop: Loop, cfg: KeygroupConfig, k: KeygroupId, ids: seq<string>)
      modifies service`log
      ensures service.log == old(service.log) + Decide(loop, cfg, k, ids)
    {
      var i := 0;
      while i < |ids|
        invariant 0 <= i <= |ids|
        invariant service.log == old(service.log) + Decide(loop, cfg, k, ids[..i])
      {
        DecideStep(loop, cfg, k, ids, i);
        if Needed(loop, cfg, ids[i]) {
          service.Send(Make(loop, k, ids[i]));
        }
        i := i + 1;
      }
      assert ids[..i] == ids;
    }

    /**
     * addToKeygroup. `parse` stands for KeygroupID.createFromString; the replica
     * nodes added carry `ttl` (the source's default is -1, infinite).
     */
    method AddToKeygroup(service: KeygroupService, parse: string -> Option<KeygroupId>, keygroupId: string,
                         clientIds: seq<string> := [], replicaNodeIds: seq<string> := [], ttl: int := -1,
                         triggerNodeIds: seq<string> := [])
      modifies service`log
      ensures parse(keygroupId).None? ==> service.log == old(service.log)
      ensures parse(keygroupId).Some? ==>
        var k := parse(keygroupId).value;
        service.log == old(service.log) + AddCalls(k, Lookup(service.configs, k), clientIds, replicaNodeIds, ttl, triggerNodeIds)
    {
      var parsed := parse(keygroupId);
      if parsed.None? {
        return;
      }
      var k := parsed.value;
      ghost var start := service.log;
      var keygroupConfig := service.UpdateLocalKeygroupConfig(k);
      ghost var snapshot := keygroupConfig;
      if keygroupConfig.None? {
        keygroupConfig := Some(FreshConfig(k));
        service.Send(CreateKeygroup(keygroupConfig.value));
      }
      var cfg := keygroupConfig.value;
      ghost var create: seq<Call> := if snapshot.None? then [CreateKeygroup(cfg)] else [];
      assert service.log == start + [ReadConfig(k)] + create;
      Issue(service, AddClients, cfg, k, clientIds);
      Issue(service, AddReplicaNodes(ttl), cfg, k, replicaNodeIds);
      Issue(service, AddTriggerNodes, cfg, k, triggerNodeIds);
      AppendFive(start, [ReadConfig(k)], create, Decide(AddClients, cfg, k, clientIds),
                 Decide(AddReplicaNodes(ttl), cfg, k, replicaNodeIds), Decide(AddTriggerNodes, cfg, k, triggerNodeIds));
    }

    /** removeFromKeygroup, with the trigger node loop as written. */
    method RemoveFromKeygroup(service: KeygroupService, parse: string -> Option<KeygroupId>, keygroupId: string,
                              clientIds: seq<string> := [], replicaNodeIds: seq<string> := [],
                              triggerNodeIds: seq<string> := [])
      modifies service`log
      ensures parse(keygroupId).None? ==> service.log == old(service.log)
      ensures parse(keygroupId).Some? ==>
        var k := parse(keygroupId).value;
        service.log == old(service.log) + RemoveCalls(k, Lookup(service.configs, k), clientIds, replicaNodeIds, triggerNodeIds)
    {
      var parsed := parse(keygroupId);
      if parsed.None? {
        return;
      }
      var k := parsed.value;
      var keygroupConfig := service.UpdateLocalKeygroupConfig(k);
      if keygroupConfig.None? {
        return;
      }
      var cfg := keygroupConfig.value;
      Issue(service, DeleteClients, cfg, k, clientIds);
      Issue(service, DeleteReplicaNodes, cfg, k, replicaNodeIds);
      Issue(service, DeleteTriggerNodes, cfg, k, triggerNodeIds);
      AppendFour(old(service.log), [ReadConfig(k)], Decide(DeleteClients, cfg, k, clientIds),
                 Decide(DeleteReplicaNodes, cfg, k, replicaNodeIds), Decide(DeleteTriggerNodes, cfg, k, triggerNodeIds));
    }
  }
}
