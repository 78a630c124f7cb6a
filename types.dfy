/**
 * Value types shared by the model of the FBase node: identifiers, configurations,
 * data records and message ids. The source's model classes are not part of this
 * model; they appear here with the fields the core reads and Dafny's structural
 * equality standing in for their value-based equals().
 */
module Types {

  datatype Option<+T> = None | Some(value: T)

  /** Java's `int`: the range of a 32-bit two's-complement integer. */
  const Int32Min: int := -0x8000_0000
  const Int32Max: int := 0x7fff_ffff

  predicate IsInt32(x: int) {
    Int32Min <= x <= Int32Max
  }

  /** `x + 1` on a Java `int`, which wraps from the largest value to the smallest. */
  function Int32Succ(x: int): (r: int)
    requires IsInt32(x)
    ensures IsInt32(r)
    ensures x < Int32Max ==> r == x + 1
    ensures x == Int32Max ==> r == Int32Min
  {
    if x == Int32Max then Int32Min else x + 1
  }

  /** `a - b` on Java `int`s: the one 32-bit value congruent to the true difference modulo 2^32. */
  function Int32Diff(a: int, b: int): (r: int)
    requires IsInt32(a) && IsInt32(b)
    ensures IsInt32(r)
    ensures (a - b - r) % 0x1_0000_0000 == 0
  {
    var d := a - b;
    if d > Int32Max then d - 0x1_0000_0000 else if d < Int32Min then d + 0x1_0000_0000 else d
  }

  /** A keygroup is named by the three parts app/tenant/group. */
  datatype KeygroupId = KeygroupId(app: string, tenant: string, group: string)

  datatype NodeId = NodeId(id: string)

  datatype ClientId = ClientId(id: string)

  /** The encryption algorithm selector; AES is the one the core names. */
  datatype EncryptionAlgorithm = AES | OtherAlgorithm(name: string)

  /** A replica node entry of a keygroup: the node and its time to live in seconds (-1: forever). */
  datatype ReplicaNode = ReplicaNode(node: NodeId, ttl: int)

  /**
   * A keygroup configuration. The replica nodes are a nullable collection in the
   * source (None stands for null); they are kept in the order the source iterates them.
   */
  datatype KeygroupConfig = KeygroupConfig(
    id: KeygroupId,
    secret: string,
    algorithm: EncryptionAlgorithm,
    clients: set<ClientId>,
    replicaNodes: Option<seq<ReplicaNode>>,
    triggerNodes: set<NodeId>,
    version: int)
  {
    predicate ContainsReplicaNode(n: NodeId) {
      replicaNodes.Some? && exists i | 0 <= i < |replicaNodes.value| :: replicaNodes.value[i].node == n
    }

    predicate ContainsTriggerNode(n: NodeId) {
      n in triggerNodes
    }
  }

  /** A node's configuration: the port its machines publish on and the machines' addresses. */
  datatype NodeConfig = NodeConfig(node: NodeId, publisherPort: int, machines: seq<string>)

  /** A client's configuration; only its identity matters to the core. */
  datatype ClientConfig = ClientConfig(client: ClientId, publicKey: string)

  /** A data item is named by its keygroup and its data id. */
  datatype DataIdentifier = DataIdentifier(keygroup: KeygroupId, dataId: string)

  datatype DataRecord = DataRecord(id: DataIdentifier, values: map<string, string>)

  /** The id of a published message: sending node, sending machine and version. */
  datatype MessageId = MessageId(node: NodeId, machine: string, version: int)
}
