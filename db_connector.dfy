/**
 * The in-memory storage connector (storageconnector/OnHeapDBConnector.java) together
 * with the documented contracts of the abstract connector it implements and that
 * connector's convenience overloads (storageconnector/AbstractDBConnector.java).
 *
 * The storage exception of the source is the `Fail` outcome here; a failing
 * operation leaves the state unchanged. Every value handed in or out is a copy in
 * the source (JSONable.clone); Dafny's datatypes are values, so no copy is needed.
 */
module DbConnector {
  import opened Types
  import opened Ordering

  datatype StorageError = KeygroupMissing | KeygroupExists

  datatype Result<T> = Ok(value: T) | Fail(error: StorageError)

  /** The records of one keygroup, by data identifier. */
  type Table = map<DataIdentifier, DataRecord>

  /** All record tables, by keygroup. */
  type Tables = map<KeygroupId, Table>

  /** The responsibility table: keygroup -> (subscribing machine, version). */
  type Subscribers = map<KeygroupId, (string, int)>

  /** Every record sits in the table of its own keygroup, under its own identifier. */
  ghost predicate WellKeyed(t: Tables) {
    forall k, id | k in t && id in t[k] :: t[k][id].id == id && id.keygroup == k
  }

  // ---------------------------------------------------------------------------
  // Record tables

  function PutRecord(t: Tables, r: DataRecord): Result<Tables> {
    var k := r.id.keygroup;
    if k !in t then Fail(KeygroupMissing) else Ok(t[k := t[k][r.id := r]])
  }

  function LookupRecord(t: Tables, key: DataIdentifier): Result<Option<DataRecord>> {
    var k := key.keygroup;
    if k !in t then Fail(KeygroupMissing)
    else if key in t[k] then Ok(Some(t[k][key]))
    else Ok(None)
  }

  function RemoveRecord(t: Tables, key: DataIdentifier): Result<Tables> {
    var k := key.keygroup;
    if k !in t then Fail(KeygroupMissing) else Ok(t[k := t[k] - {key}])
  }

  function ListRecords(t: Tables, k: KeygroupId): Result<set<DataIdentifier>> {
    if k !in t then Fail(KeygroupMissing) else Ok(t[k].Keys)
  }

  function CreateTable(t: Tables, k: KeygroupId): Result<Tables> {
    if k in t then Fail(KeygroupExists) else Ok(t[k := map[]])
  }

  function DropTable(t: Tables, k: KeygroupId): Tables {
    t - {k}
  }

  /** Every record operation fails on a keygroup that was never created. */
  lemma MissingKeygroupFails(t: Tables, r: DataRecord, key: DataIdentifier)
    requires r.id.keygroup !in t && key.keygroup !in t
    ensures PutRecord(t, r) == Fail(KeygroupMissing)
    ensures LookupRecord(t, key) == Fail(KeygroupMissing)
    ensures RemoveRecord(t, key) == Fail(KeygroupMissing)
    ensures ListRecords(t, key.keygroup) == Fail(KeygroupMissing)
  {
  }

  /** After a put the record reads back, is listed, and every other record is as before. */
  lemma PutThenGet(t: Tables, r: DataRecord, key: DataIdentifier)
    requires r.id.keygroup in t
    ensures PutRecord(t, r).Ok?
    ensures LookupRecord(PutRecord(t, r).value, r.id) == Ok(Some(r))
    ensures ListRecords(PutRecord(t, r).value, r.id.keygroup) == Ok(t[r.id.keygroup].Keys + {r.id})
    ensures key != r.id ==> LookupRecord(PutRecord(t, r).value, key) == LookupRecord(t, key)
  {
    assert t[r.id.keygroup][r.id := r].Keys == t[r.id.keygroup].Keys + {r.id};
  }

  /** After a delete the record is gone and every other record is as before. */
  lemma DeleteThenGet(t: Tables, key: DataIdentifier, other: DataIdentifier)
    requires key.keygroup in t
    ensures RemoveRecord(t, key).Ok?
    ensures LookupRecord(RemoveRecord(t, key).value, key) == Ok(None)
    ensures key !in RemoveRecord(t, key).value[key.keygroup]
    ensures other != key ==> LookupRecord(RemoveRecord(t, key).value, other) == LookupRecord(t, other)
  {
  }

  /** Creating succeeds exactly for a new keygroup, which then exists with no records. */
  lemma CreateThenList(t: Tables, k: KeygroupId)
    ensures CreateTable(t, k).Ok? <==> k !in t
    ensures CreateTable(t, k).Ok? ==> ListRecords(CreateTable(t, k).value, k) == Ok({})
    ensures CreateTable(t, k).Fail? ==> CreateTable(t, k).error == KeygroupExists
  {
    var empty: Table := map[];
    assert empty.Keys == {};
  }

  /** Deleting a keygroup removes it with all its records; no other keygroup changes. */
  lemma DropThenGet(t: Tables, k: KeygroupId, key: DataIdentifier)
    ensures k !in DropTable(t, k)
    ensures key.keygroup == k ==> LookupRecord(DropTable(t, k), key) == Fail(KeygroupMissing)
    ensures key.keygroup != k ==> LookupRecord(DropTable(t, k), key) == LookupRecord(t, key)
  {
  }

  /** The record operations keep every record under its own identifier. */
  lemma OperationsKeepWellKeyed(t: Tables, r: DataRecord, key: DataIdentifier, k: KeygroupId)
    requires WellKeyed(t)
    ensures PutRecord(t, r).Ok? ==> WellKeyed(PutRecord(t, r).value)
    ensures RemoveRecord(t, key).Ok? ==> WellKeyed(RemoveRecord(t, key).value)
    ensures CreateTable(t, k).Ok? ==> WellKeyed(CreateTable(t, k).value)
    ensures WellKeyed(DropTable(t, k))
  {
  }

  // ---------------------------------------------------------------------------
  // Responsibility table

  ghost predicate VersionsInt32(s: Subscribers) {
    forall k | k in s :: IsInt32(s[k].1)
  }

  /** keyGroupSubscriberMachines_put: the new table and the new version of the keygroup's entry. */
  function BumpSubscriber(s: Subscribers, k: KeygroupId, machine: string): (Subscribers, int)
    requires VersionsInt32(s)
  {
    if k !in s then (s[k := (machine, 1)], 1)
    else var v := Int32Succ(s[k].1); (s[k := (s[k].0, v)], v)
  }

  /**
   * The first put for a keygroup returns 1; every later one returns the stored
   * version plus one (wrapping as a Java int does) and keeps the machine stored first.
   * The returned version is the one stored, and no other keygroup changes.
   */
  lemma BumpSubscriberVersions(s: Subscribers, k: KeygroupId, machine: string, other: KeygroupId)
    requires VersionsInt32(s)
    ensures var (s', v) := BumpSubscriber(s, k, machine);
      && k in s' && s'[k].1 == v
      && VersionsInt32(s')
      && (k !in s ==> v == 1 && s'[k].0 == machine)
      && (k in s && s[k].1 < Int32Max ==> v == s[k].1 + 1)
      && (k in s ==> s'[k].0 == s[k].0)
      && (other != k ==> (other in s' <==> other in s) && (other in s ==> s'[other] == s[other]))
  {
  }

  /** Two puts in a row with no wrap-around yield consecutive versions. */
  lemma BumpSubscriberTwice(s: Subscribers, k: KeygroupId, m1: string, m2: string)
    requires VersionsInt32(s)
    requires k in s ==> s[k].1 < Int32Max - 1
    ensures var (s1, v1) := BumpSubscriber(s, k, m1);
      VersionsInt32(s1) && BumpSubscriber(s1, k, m2).1 == v1 + 1 && BumpSubscriber(s1, k, m2).0[k].0 == s1[k].0
  {
  }

  // ---------------------------------------------------------------------------
  // Message history

  ghost predicate KeysInt32(h: map<int, DataIdentifier>) {
    forall v | v in h :: IsInt32(v)
  }

  /** TreeMap.lastKey: the largest stored version. */
  ghost function LastKey(h: map<int, DataIdentifier>): (m: int)
    requires h.Keys != {}
    ensures m in h && forall v | v in h :: v <= m
  {
    IntGtStrictTotal();
    Least(h.Keys, IntGt)
  }

  /** The version messageHistory_getNextMessageID hands out. */
  ghost function NextVersion(h: map<int, DataIdentifier>): int
    requires KeysInt32(h)
  {
    if h.Keys == {} then 1 else Int32Succ(LastKey(h))
  }

  /**
   * The next version is 1 for an empty history and otherwise one more than the
   * largest stored version, hence above every stored one unless that largest
   * version is the largest Java int.
   */
  lemma NextVersionAboveHistory(h: map<int, DataIdentifier>, v: int)
    requires KeysInt32(h)
    ensures IsInt32(NextVersion(h))
    ensures h == map[] ==> NextVersion(h) == 1
    ensures v in h && Int32Max !in h ==> v < NextVersion(h)
    ensures NextVersion(h) !in h || Int32Max in h
  {
    if h.Keys != {} {
      var m := LastKey(h);
      assert m < Int32Max ==> NextVersion(h) == m + 1;
    }
  }

  // ---------------------------------------------------------------------------
  // The connector

  class OnHeapDBConnector {
    var keygroupConfigs: map<KeygroupId, KeygroupConfig>
    var nodeConfigs: map<NodeId, NodeConfig>
    var clientConfigs: map<ClientId, ClientConfig>
    var keygroupSubscribers: Subscribers
    /** machine name -> (machine address, last heartbeat in milliseconds) */
    var heartbeats: map<string, (string, int)>
    var records: Tables
    var messageHistory: map<int, DataIdentifier>
    var nodeId: NodeId
    var machineName: Option<string>

    ghost predicate Valid()
      reads this
    {
      WellKeyed(records) && VersionsInt32(keygroupSubscribers) && KeysInt32(messageHistory)
    }

    constructor (nodeId: NodeId)
      ensures Valid()
      ensures this.nodeId == nodeId && machineName == None
      ensures keygroupConfigs == map[] && nodeConfigs == map[] && clientConfigs == map[]
      ensures keygroupSubscribers == map[] && heartbeats == map[] && records == map[] && messageHistory == map[]
    {
      this.nodeId := nodeId;
      machineName := None;
      keygroupConfigs, nodeConfigs, clientConfigs := map[], map[], map[];
      keygroupSubscribers, heartbeats, records, messageHistory := map[], map[], map[], map[];
    }

    /** dbConnection_initiate: an in-memory node has exactly one machine, always named "M1". */
    method DbConnectionInitiate() returns (name: string)
      modifies this`machineName
      ensures name == "M1" && machineName == Some("M1")
    {
      machineName := Some("M1");
      name := "M1";
    }

    method DataRecordsPut(record: DataRecord) returns (outcome: Result<()>)
      requires Valid()
      modifies this`records
      ensures Valid()
      ensures outcome.Ok? == PutRecord(old(records), record).Ok?
      ensures outcome.Fail? ==> outcome.error == KeygroupMissing && records == old(records)
      ensures outcome.Ok? ==> records == PutRecord(old(records), record).value
    {
      var k := record.id.keygroup;
      if k !in records {
        return Fail(KeygroupMissing);
      }
      OperationsKeepWellKeyed(records, record, record.id, k);
      records := records[k := records[k][record.id := record]];
      outcome := Ok(());
    }

    method DataRecordsGet(key: DataIdentifier) returns (result: Result<Option<DataRecord>>)
      ensures result == LookupRecord(records, key)
    {
      var k := key.keygroup;
      if k !in records {
        return Fail(KeygroupMissing);
      }
      result := if key in records[k] then Ok(Some(records[k][key])) else Ok(None);
    }

    /** dataRecords_delete: answers whether the item is absent afterwards, which after a removal it always is. */
    method DataRecordsDelete(key: DataIdentifier) returns (result: Result<bool>)
      requires Valid()
      modifies this`records
      ensures Valid()
      ensures result.Fail? ==> result.error == KeygroupMissing && records == old(records)
      ensures result.Ok? <==> key.keygroup in old(records)
      ensures result.Ok? ==> records == RemoveRecord(old(records), key).value
      ensures result.Ok? ==> (result.value <==> key !in records[key.keygroup])
      ensures result.Ok? ==> result.value
    {
      var k := key.keygroup;
      if k !in records {
        return Fail(KeygroupMissing);
      }
      OperationsKeepWellKeyed(records, DataRecord(key, map[]), key, k);
      records := records[k := records[k] - {key}];
      result := Ok(key !in records[k]);
    }

    method DataRecordsList(k: KeygroupId) returns (result: Result<set<DataIdentifier>>)
      ensures result == ListRecords(records, k)
    {
      if k !in records {
        return Fail(KeygroupMissing);
      }
      result := Ok(records[k].Keys);
    }

    /** keygroup_create: fails if the keygroup exists, otherwise answers whether it exists afterwards. */
    method KeygroupCreate(k: KeygroupId) returns (result: Result<bool>)
      requires Valid()
      modifies this`records
      ensures Valid()
      ensures result.Fail? ==> result.error == KeygroupExists && records == old(records)
      ensures result.Ok? <==> k !in old(records)
      ensures result.Ok? ==> records == CreateTable(old(records), k).value
      ensures result.Ok? ==> result.value && k in records
    {
      if k in records {
        return Fail(KeygroupExists);
      }
      OperationsKeepWellKeyed(records, DataRecord(DataIdentifier(k, ""), map[]), DataIdentifier(k, ""), k);
      records := records[k := map[]];
      result := Ok(k in records);
    }

    /** keygroup_delete: removes the keygroup with all its records and answers whether it is gone. */
    method KeygroupDelete(k: KeygroupId) returns (gone: bool)
      requires Valid()
      modifies this`records
      ensures Valid()
      ensures records == DropTable(old(records), k)
      ensures gone && k !in records
    {
      OperationsKeepWellKeyed(records, DataRecord(DataIdentifier(k, ""), map[]), DataIdentifier(k, ""), k);
      records := records - {k};
      gone := k !in records;
    }

    method KeygroupConfigPut(k: KeygroupId, config: KeygroupConfig)
      modifies this`keygroupConfigs
      ensures keygroupConfigs == old(keygroupConfigs)[k := config]
    {
      keygroupConfigs := keygroupConfigs[k := config];
    }

    /** keygroupConfig_get: the config last put under the id, or nothing (null). */
    method KeygroupConfigGet(k: KeygroupId) returns (config: Option<KeygroupConfig>)
      ensures config.Some? <==> k in keygroupConfigs
      ensures config.Some? ==> config.value == keygroupConfigs[k]
    {
      config := if k in keygroupConfigs then Some(keygroupConfigs[k]) else None;
    }

    /** keygroupConfig_list: the ids of all stored keygroup configs (a list in unspecified order in the source). */
    method KeygroupConfigList() returns (ids: set<KeygroupId>)
      ensures forall k :: k in ids <==> k in keygroupConfigs
    {
      ids := keygroupConfigs.Keys;
    }

    method NodeConfigPut(n: NodeId, config: NodeConfig)
      modifies this`nodeConfigs
      ensures nodeConfigs == old(nodeConfigs)[n := config]
    {
      nodeConfigs := nodeConfigs[n := config];
    }

    method NodeConfigGet(n: NodeId) returns (config: Option<NodeConfig>)
      ensures config.Some? <==> n in nodeConfigs
      ensures config.Some? ==> config.value == nodeConfigs[n]
    {
      config := if n in nodeConfigs then Some(nodeConfigs[n]) else None;
    }

    method NodeConfigList() returns (ids: set<NodeId>)
      ensures forall n :: n in ids <==> n in nodeConfigs
    {
      ids := nodeConfigs.Keys;
    }

    method ClientConfigPut(c: ClientId, config: ClientConfig)
      modifies this`clientConfigs
      ensures clientConfigs == old(clientConfigs)[c := config]
    {
      clientConfigs := clientConfigs[c := config];
    }

    method ClientConfigGet(c: ClientId) returns (config: Option<ClientConfig>)
      ensures config.Some? <==> c in clientConfigs
      ensures config.Some? ==> config.value == clientConfigs[c]
    {
      config := if c in clientConfigs then Some(clientConfigs[c]) else None;
    }

    method ClientConfigList() returns (ids: set<ClientId>)
      ensures forall c :: c in ids <==> c in clientConfigs
    {
      ids := clientConfigs.Keys;
    }

    method KeyGroupSubscriberMachinesPut(k: KeygroupId, machine: string) returns (version: int)
      requires Valid()
      modifies this`keygroupSubscribers
      ensures Valid()
      ensures (keygroupSubscribers, version) == BumpSubscriber(old(keygroupSubscribers), k, machine)
    {
      var entry: (string, int);
      if k !in keygroupSubscribers {
        entry := (machine, 1);
      } else {
        entry := (keygroupSubscribers[k].0, Int32Succ(keygroupSubscribers[k].1));
      }
      BumpSubscriberVersions(keygroupSubscribers, k, machine, k);
      keygroupSubscribers := keygroupSubscribers[k := entry];
      version := entry.1;
    }

    method KeyGroupSubscriberMachinesListAll() returns (all: Subscribers)
      ensures all == keygroupSubscribers
    {
      all := keygroupSubscribers;
    }

    method KeyGroupSubscriberMachinesRemove(k: KeygroupId)
      requires Valid()
      modifies this`keygroupSubscribers
      ensures Valid()
      ensures keygroupSubscribers == old(keygroupSubscribers) - {k}
    {
      keygroupSubscribers := keygroupSubscribers - {k};
    }

    /** heartbeats_update: `now` stands for the wall-clock time in milliseconds. */
    method HeartbeatsUpdate(machine: string, address: string, now: int)
      modifies this`heartbeats
      ensures heartbeats == old(heartbeats)[machine := (address, now)]
    {
      heartbeats := heartbeats[machine := (address, now)];
    }

    method HeartbeatsListAll() returns (all: map<string, (string, int)>)
      ensures all == heartbeats
    {
      all := heartbeats;
    }

    /** heartbeats_remove: answers whether the machine is absent afterwards, which it always is. */
    method HeartbeatsRemove(machine: string) returns (gone: bool)
      modifies this`heartbeats
      ensures heartbeats == old(heartbeats) - {machine}
      ensures gone && machine !in heartbeats
    {
      heartbeats := heartbeats - {machine};
      gone := true;
    }

    /**
     * messageHistory_getNextMessageID: this node's id, this machine's name (absent
     * before the connection was initiated) and the next version.
     */
    method MessageHistoryGetNextMessageId() returns (node: NodeId, machine: Option<string>, version: int)
      requires Valid()
      ensures node == nodeId && machine == machineName
      ensures version == NextVersion(messageHistory)
    {
      node, machine := nodeId, machineName;
      if messageHistory.Keys == {} {
        return node, machine, 1;
      }
      var versions := messageHistory.Keys;
      IntGtStrictTotal();
      ghost var top := LastKey(messageHistory);
      assert IsLeast(top, versions, IntGt);
      var last :| IsLeast(last, versions, IntGt);
      LeastUnique(last, top, versions, IntGt);
      version := Int32Succ(last);
    }

    /** messageHistory_put: files the related data under the id's version. */
    method MessageHistoryPut(messageId: MessageId, relatedData: DataIdentifier)
      requires Valid() && IsInt32(messageId.version)
      modifies this`messageHistory
      ensures Valid()
      ensures messageHistory == old(messageHistory)[messageId.version := relatedData]
    {
      messageHistory := messageHistory[messageId.version := relatedData];
    }

    /** messageHistory_get: the data filed under the id's version, or nothing (null). */
    method MessageHistoryGet(messageId: MessageId) returns (relatedData: Option<DataIdentifier>)
      ensures relatedData.Some? <==> messageId.version in messageHistory
      ensures relatedData.Some? ==> relatedData.value == messageHistory[messageId.version]
    {
      relatedData := if messageId.version in messageHistory then Some(messageHistory[messageId.version]) else None;
    }

    // Convenience overloads: each builds the record or keygroup id and delegates.

    method DataRecordsPutValues(key: DataIdentifier, values: map<string, string>) returns (outcome: Result<()>)
      requires Valid()
      modifies this`records
      ensures Valid()
      ensures outcome.Ok? == PutRecord(old(records), DataRecord(key, values)).Ok?
      ensures outcome.Fail? ==> outcome.error == KeygroupMissing && records == old(records)
      ensures outcome.Ok? ==> records == PutRecord(old(records), DataRecord(key, values)).value
    {
      outcome := DataRecordsPut(DataRecord(key, values));
    }

    method DataRecordsListOf(app: string, tenant: string, group: string) returns (result: Result<set<DataIdentifier>>)
      ensures result == ListRecords(records, KeygroupId(app, tenant, group))
    {
      result := DataRecordsList(KeygroupId(app, tenant, group));
    }

    method KeygroupCreateOf(app: string, tenant: string, group: string) returns (result: Result<bool>)
      requires Valid()
      modifies this`records
      ensures Valid()
      ensures var k := KeygroupId(app, tenant, group);
        && (result.Fail? ==> result.error == KeygroupExists && records == old(records))
        && (result.Ok? <==> k !in old(records))
        && (result.Ok? ==> records == CreateTable(old(records), k).value)
        && (result.Ok? ==> result.value && k in records)
    {
      result := KeygroupCreate(KeygroupId(app, tenant, group));
    }

    method KeygroupDeleteOf(app: string, tenant: string, group: string) returns (gone: bool)
      requires Valid()
      modifies this`records
      ensures Valid()
      ensures records == DropTable(old(records), KeygroupId(app, tenant, group))
      ensures gone && KeygroupId(app, tenant, group) !in records
    {
      gone := KeygroupDelete(KeygroupId(app, tenant, group));
    }
  }

  /**
   * Filing data under the next version adds exactly that version and reads back;
   * unless the history already reaches the largest Java int, no entry is overwritten.
   */
  lemma PutNextThenGet(h: map<int, DataIdentifier>, d: DataIdentifier)
    requires KeysInt32(h) && Int32Max !in h
    ensures var v := NextVersion(h);
      && v !in h
      && KeysInt32(h[v := d])
      && h[v := d].Keys == h.Keys + {v}
      && h[v := d][v] == d
  {
    NextVersionAboveHistory(h, 0);
  }
}
