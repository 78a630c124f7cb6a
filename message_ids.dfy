/**
 * Message-id gap detection (communication/MessageIdEvaluator.java and its older
 * twin communication/MessageIDEvaluator.java, whose four modelled methods have the
 * same text). Received ids are kept per sending node and machine; a version that
 * lies strictly between two versions received from one machine and has not been
 * received itself is reported as missing, unless the Java `int` counter of the
 * report wraps on the way to it (two consecutive received versions more than 2^31
 * apart below it).
 */
module MessageIds {
  import opened Types
  import opened Ordering

  /** The order of the TreeMap keyed by NodeID: taken to be the order of the id strings. */
  predicate NodeLt(a: NodeId, b: NodeId) {
    StrLt(a.id, b.id)
  }

  lemma NodeLtStrictTotal()
    ensures StrictTotal(NodeLt)
  {
    StrLtStrictTotal();
    forall a: NodeId, b: NodeId | a != b ensures NodeLt(a, b) || NodeLt(b, a) {
      assert a.id != b.id;
    }
  }

  /** The order of the reported ids: by node, then machine name, then version. */
  predicate MessageIdLt(a: MessageId, b: MessageId) {
    || NodeLt(a.node, b.node)
    || (a.node == b.node && StrLt(a.machine, b.machine))
    || (a.node == b.node && a.machine == b.machine && a.version < b.version)
  }

  /** node -> machine name -> versions received; the TreeMap/TreeMap/TreeSet of the source. */
  type Storage = map<NodeId, map<string, set<int>>>

  /** Every stored per-machine set holds at least one version. */
  ghost predicate NonEmptySets(st: Storage) {
    forall n, m | n in st && m in st[n] :: st[n][m] != {}
  }

  /** Every stored version is a Java `int`, as the source's `Integer` elements are. */
  ghost predicate Int32Sets(st: Storage) {
    forall n, m, v | n in st && m in st[n] && v in st[n][m] :: IsInt32(v)
  }

  /** The storage after receiving `id`: set insertion, creating the node and machine levels when missing. */
  function WithReceived(st: Storage, id: MessageId): (r: Storage)
    ensures r.Keys == st.Keys + {id.node}
    ensures id.machine in r[id.node] && id.version in r[id.node][id.machine]
  {
    var machines := if id.node in st then st[id.node] else map[];
    var versions := if id.machine in machines then machines[id.machine] else {};
    st[id.node := machines[id.machine := versions + {id.version}]]
  }

  /** The storage after receiving every id of `ids`, in order. */
  function WithAllReceived(st: Storage, ids: seq<MessageId>): Storage
    decreases |ids|
  {
    if ids == [] then st else WithAllReceived(WithReceived(st, ids[0]), ids[1..])
  }

  /** The integers of [lo, hi) that are not in `received`, ascending. */
  function Absent(received: set<int>, lo: int, hi: int): seq<int>
    decreases hi - lo
  {
    if lo >= hi then []
    else Absent(received, lo, hi - 1) + (if hi - 1 in received then [] else [hi - 1])
  }

  /**
   * Whether the counter loop overflows between two consecutive received versions:
   * after `a` the counter stands at `a + 1`, and `b - (a + 1)` leaves the Java `int`
   * range exactly when `b` lies more than 2^31 above `a`.
   */
  predicate Wide(a: int, b: int) {
    b - a > 0x8000_0000
  }

  /** The first index `k >= t` at which the step from `vs[k - 1]` to `vs[k]` is wide, or `|vs|` if there is none. */
  function FirstWide(vs: seq<int>, t: nat): (k: nat)
    requires 1 <= t <= |vs|
    ensures t <= k <= |vs|
    ensures forall j | t <= j < k :: !Wide(vs[j - 1], vs[j])
    ensures k < |vs| ==> Wide(vs[k - 1], vs[k])
    decreases |vs| - t
  {
    if t == |vs| then t else if Wide(vs[t - 1], vs[t]) then t else FirstWide(vs, t + 1)
  }

  /**
   * The missing versions of one machine, as the counter loop finds them: the
   * unreceived versions from the first received one up to the received version
   * before the first wide step (the last received version when there is none).
   * Past a wide step the wrapped difference `version - i` is negative and the loop
   * reports nothing more for that machine.
   */
  ghost function Gaps(received: set<int>): seq<int>
    requires received != {}
  {
    var vs := SortedVersions(received);
    Absent(received, vs[0], vs[FirstWide(vs, 1) - 1])
  }

  /** The versions of a machine in TreeSet order. */
  ghost function SortedVersions(received: set<int>): (r: seq<int>)
    ensures |r| == |received|
    ensures forall v :: v in r <==> v in received
    ensures StrictlySorted(r, IntLt)
  {
    IntLtStrictTotal();
    InOrder(received, IntLt)
  }

  /** The machine names of a machine map in TreeMap order. */
  ghost function SortedMachines(mm: map<string, set<int>>): (r: seq<string>)
    ensures forall m :: m in r <==> m in mm
    ensures StrictlySorted(r, StrLt)
  {
    StrLtStrictTotal();
    InOrder(mm.Keys, StrLt)
  }

  /** The nodes of the storage in TreeMap order. */
  ghost function SortedNodes(st: Storage): (r: seq<NodeId>)
    ensures forall n :: n in r <==> n in st
    ensures StrictlySorted(r, NodeLt)
  {
    NodeLtStrictTotal();
    InOrder(st.Keys, NodeLt)
  }

  /** One message id per version, all from `node`/`machine`. */
  function Tag(node: NodeId, machine: string, versions: seq<int>): (r: seq<MessageId>)
  {
    seq(|versions|, i requires 0 <= i < |versions| => MessageId(node, machine, versions[i]))
  }

  /** The missing ids of node `n` for the machines listed, in that order. */
  ghost function MachineBlock(n: NodeId, mm: map<string, set<int>>, machines: seq<string>): seq<MessageId>
    requires forall m | m in machines :: m in mm && mm[m] != {}
    decreases |machines|
  {
    if machines == [] then []
    else
      var last := machines[|machines| - 1];
      MachineBlock(n, mm, machines[..|machines| - 1]) + Tag(n, last, Gaps(mm[last]))
  }

  /** The missing ids of the nodes listed, in that order, each node's machines ascending. */
  ghost function NodeBlocks(st: Storage, nodes: seq<NodeId>): seq<MessageId>
    requires NonEmptySets(st)
    requires forall n | n in nodes :: n in st
    decreases |nodes|
  {
    if nodes == [] then []
    else
      var last := nodes[|nodes| - 1];
      NodeBlocks(st, nodes[..|nodes| - 1]) + MachineBlock(last, st[last], SortedMachines(st[last]))
  }

  /** What getMissingMessageIDs reports: nodes ascending, machines ascending, versions ascending. */
  ghost function MissingIds(st: Storage): seq<MessageId>
    requires NonEmptySets(st)
  {
    NodeBlocks(st, SortedNodes(st))
  }

  /** A gap of a machine: a version not received but lying between two received ones. */
  ghost predicate IsGap(received: set<int>, v: int) {
    v !in received && exists lo, hi | lo in received && hi in received :: lo < v < hi
  }

  /** `a` and `b` are received, consecutive and more than 2^31 apart. */
  ghost predicate WideStep(received: set<int>, a: int, b: int) {
    a in received && b in received && a < b && Wide(a, b) && forall c | c in received :: !(a < c < b)
  }

  /** A version is reported for a machine exactly when it is a gap lying below every wide step of the machine. */
  ghost predicate IsReported(received: set<int>, v: int) {
    IsGap(received, v) && forall a, b | WideStep(received, a, b) :: v < a
  }

  /** A message id is reported exactly when its node and machine are stored and its version is reported there. */
  ghost predicate IsMissing(st: Storage, x: MessageId) {
    x.node in st && x.machine in st[x.node] && IsReported(st[x.node][x.machine], x.version)
  }

  // ---------------------------------------------------------------------------
  // Properties of the specification functions

  lemma {:induction false} AbsentMembers(received: set<int>, lo: int, hi: int, v: int)
    ensures v in Absent(received, lo, hi) <==> lo <= v < hi && v !in received
    decreases hi - lo
  {
    if lo < hi {
      AbsentMembers(received, lo, hi - 1, v);
    }
  }

  lemma {:induction false} AbsentSorted(received: set<int>, lo: int, hi: int)
    ensures StrictlySorted(Absent(received, lo, hi), IntLt)
    decreases hi - lo
  {
    if lo < hi {
      var front := Absent(received, lo, hi - 1);
      AbsentSorted(received, lo, hi - 1);
      forall i | 0 <= i < |front| ensures front[i] < hi - 1 {
        AbsentMembers(received, lo, hi - 1, front[i]);
      }
    }
  }

  lemma AbsentStep(received: set<int>, lo: int, hi: int)
    requires lo <= hi
    ensures Absent(received, lo, hi + 1) == Absent(received, lo, hi) + (if hi in received then [] else [hi])
  {
  }

  /** Every received version lies between the first and the last in TreeSet order. */
  lemma VersionBounds(received: set<int>, w: int)
    requires w in received
    ensures var vs := SortedVersions(received); vs[0] <= w <= vs[|vs| - 1]
  {
    var vs := SortedVersions(received);
    var i :| 0 <= i < |vs| && vs[i] == w;
    if i > 0 { assert IntLt(vs[0], vs[i]); }
    if i < |vs| - 1 { assert IntLt(vs[i], vs[|vs| - 1]); }
  }

  /** Two received versions with nothing received between them are neighbours in TreeSet order. */
  lemma StepIndex(received: set<int>, a: int, b: int) returns (j: nat)
    requires WideStep(received, a, b)
    ensures var vs := SortedVersions(received); 1 <= j < |vs| && vs[j - 1] == a && vs[j] == b
  {
    var vs := SortedVersions(received);
    var p :| 0 <= p < |vs| && vs[p] == a;
    var q :| 0 <= q < |vs| && vs[q] == b;
    VersionIndexOrder(received, p, q);
    VersionIndexOrder(received, p, p + 1);
    VersionIndexOrder(received, p + 1, q);
    assert vs[p + 1] in vs;
    j := q;
  }

  /** In TreeSet order, positions and versions are ordered alike. */
  lemma VersionIndexOrder(received: set<int>, p: nat, q: nat)
    requires p < |SortedVersions(received)| && q < |SortedVersions(received)|
    ensures var vs := SortedVersions(received); vs[p] < vs[q] <==> p < q
  {
    var vs := SortedVersions(received);
    if p < q {
      assert IntLt(vs[p], vs[q]);
    } else if q < p {
      assert IntLt(vs[q], vs[p]);
    }
  }

  /** Neighbours in TreeSet order have nothing received between them. */
  lemma NeighboursStep(received: set<int>, k: nat)
    requires var vs := SortedVersions(received); 1 <= k < |vs| && Wide(vs[k - 1], vs[k])
    ensures var vs := SortedVersions(received); WideStep(received, vs[k - 1], vs[k])
  {
    var vs := SortedVersions(received);
    assert IntLt(vs[k - 1], vs[k]);
    assert vs[k - 1] in vs && vs[k] in vs;
    forall c | c in received ensures !(vs[k - 1] < c < vs[k]) {
      if vs[k - 1] < c < vs[k] {
        BetweenNotReceived(received, vs, k, c);
      }
    }
  }

  /**
   * The gaps a machine reports are exactly its reported versions: unreceived, between
   * two received ones and below every wide step.
   */
  lemma GapsMembers(received: set<int>, v: int)
    requires received != {}
    ensures v in Gaps(received) <==> IsReported(received, v)
  {
    var vs := SortedVersions(received);
    var k := FirstWide(vs, 1);
    var lo, hi := vs[0], vs[k - 1];
    AbsentMembers(received, lo, hi, v);
    assert lo in vs && hi in vs;
    if lo <= v < hi && v !in received {
      forall a, b | WideStep(received, a, b) ensures v < a {
        var j := StepIndex(received, a, b);
        assert k <= j;
        if j > k {
          assert IntLt(vs[k - 1], vs[j - 1]);
        }
      }
    }
    if IsReported(received, v) {
      var a, b :| a in received && b in received && a < v < b;
      VersionBounds(received, a);
      if k == |vs| {
        VersionBounds(received, b);
      } else {
        NeighboursStep(received, k);
      }
    }
  }

  lemma GapsSorted(received: set<int>)
    requires received != {}
    ensures StrictlySorted(Gaps(received), IntLt)
  {
    IntLtStrictTotal();
    var vs := SortedVersions(received);
    AbsentSorted(received, vs[0], vs[FirstWide(vs, 1) - 1]);
  }

  /**
   * The case where Java's `version - i` wraps: when a machine's received versions
   * `a` and `b` are neighbours more than 2^31 apart, it reports exactly its gaps
   * below `a`, and none from `a` upwards.
   */
  lemma ReportedBelowWideStep(received: set<int>, a: int, b: int, v: int)
    requires forall w | w in received :: IsInt32(w)
    requires WideStep(received, a, b)
    ensures IsReported(received, v) <==> IsGap(received, v) && v < a
  {
    if IsGap(received, v) && v < a {
      forall a', b' | WideStep(received, a', b') ensures v < a' {
        assert IsInt32(a') && IsInt32(b) && !(a' < a < b');
      }
    }
  }

  /** Neither received version is more than 2^31 above its predecessor: every gap is reported. */
  lemma ReportedWithoutWideStep(received: set<int>, v: int)
    requires forall i | 1 <= i < |SortedVersions(received)| ::
      !Wide(SortedVersions(received)[i - 1], SortedVersions(received)[i])
    ensures IsReported(received, v) <==> IsGap(received, v)
  {
    if IsGap(received, v) {
      forall a, b ensures !WideStep(received, a, b) {
        if WideStep(received, a, b) {
          var j := StepIndex(received, a, b);
          assert false;
        }
      }
    }
  }

  /** The smallest and the largest Java `int` received: everything between is a gap, yet nothing is reported. */
  lemma WrapExample()
    ensures Gaps({Int32Min, Int32Max}) == []
    ensures IsGap({Int32Min, Int32Max}, 0) && !IsReported({Int32Min, Int32Max}, 0)
  {
    var received := {Int32Min, Int32Max};
    IntLtStrictTotal();
    InOrderUnique(received, IntLt, [Int32Min, Int32Max]);
    var vs := SortedVersions(received);
    assert FirstWide(vs, 1) == 1;
    assert WideStep(received, Int32Min, Int32Max);
  }

  lemma TagMembers(node: NodeId, machine: string, versions: seq<int>, x: MessageId)
    ensures x in Tag(node, machine, versions) <==> x.node == node && x.machine == machine && x.version in versions
  {
    if x.node == node && x.machine == machine && x.version in versions {
      var i :| 0 <= i < |versions| && versions[i] == x.version;
      assert Tag(node, machine, versions)[i] == x;
    }
  }

  lemma TagAppend(node: NodeId, machine: string, versions: seq<int>, v: int)
    ensures Tag(node, machine, versions + [v]) == Tag(node, machine, versions) + [MessageId(node, machine, v)]
  {
  }

  lemma TagSorted(node: NodeId, machine: string, versions: seq<int>)
    requires StrictlySorted(versions, IntLt)
    ensures StrictlySorted(Tag(node, machine, versions), MessageIdLt)
  {
  }

  /** A concatenation of two sorted sequences, every element of the first below every element of the second, is sorted. */
  lemma SortedConcat<T>(a: seq<T>, b: seq<T>, lt: (T, T) -> bool)
    requires StrictlySorted(a, lt) && StrictlySorted(b, lt)
    requires forall i, j | 0 <= i < |a| && 0 <= j < |b| :: lt(a[i], b[j])
    ensures StrictlySorted(a + b, lt)
  {
    forall i, j | 0 <= i < j < |a + b| ensures lt((a + b)[i], (a + b)[j]) {
      if j < |a| {
        assert (a + b)[i] == a[i] && (a + b)[j] == a[j];
      } else if i < |a| {
        assert (a + b)[i] == a[i] && (a + b)[j] == b[j - |a|];
      } else {
        assert (a + b)[i] == b[i - |a|] && (a + b)[j] == b[j - |a|];
      }
    }
  }

  lemma {:induction false} MachineBlockMembers(n: NodeId, mm: map<string, set<int>>, machines: seq<string>, x: MessageId)
    requires forall m | m in machines :: m in mm && mm[m] != {}
    ensures x in MachineBlock(n, mm, machines) <==>
      x.node == n && x.machine in machines && x.version in Gaps(mm[x.machine])
    decreases |machines|
  {
    if machines != [] {
      var front, last := machines[..|machines| - 1], machines[|machines| - 1];
      assert machines == front + [last];
      MachineBlockMembers(n, mm, front, x);
      TagMembers(n, last, Gaps(mm[last]), x);
    }
  }

  lemma {:induction false} MachineBlockSorted(n: NodeId, mm: map<string, set<int>>, machines: seq<string>)
    requires forall m | m in machines :: m in mm && mm[m] != {}
    requires StrictlySorted(machines, StrLt)
    ensures StrictlySorted(MachineBlock(n, mm, machines), MessageIdLt)
    decreases |machines|
  {
    if machines != [] {
      var front, last := machines[..|machines| - 1], machines[|machines| - 1];
      var a, b := MachineBlock(n, mm, front), Tag(n, last, Gaps(mm[last]));
      MachineBlockSorted(n, mm, front);
      GapsSorted(mm[last]);
      TagSorted(n, last, Gaps(mm[last]));
      forall i, j | 0 <= i < |a| && 0 <= j < |b| ensures MessageIdLt(a[i], b[j]) {
        MachineBlockMembers(n, mm, front, a[i]);
        TagMembers(n, last, Gaps(mm[last]), b[j]);
        SortedBeforeLast(machines, StrLt, a[i].machine);
      }
      SortedConcat(a, b, MessageIdLt);
    }
  }

  lemma {:induction false} NodeBlocksMembers(st: Storage, nodes: seq<NodeId>, x: MessageId)
    requires NonEmptySets(st)
    requires forall n | n in nodes :: n in st
    ensures x in NodeBlocks(st, nodes) <==> x.node in nodes && IsMissing(st, x)
    decreases |nodes|
  {
    if nodes != [] {
      var front, last := nodes[..|nodes| - 1], nodes[|nodes| - 1];
      assert nodes == front + [last];
      var machines := SortedMachines(st[last]);
      NodeBlocksMembers(st, front, x);
      MachineBlockMembers(last, st[last], machines, x);
      if x.node == last && x.machine in st[last] {
        GapsMembers(st[last][x.machine], x.version);
      }
      if x.node in front && x.machine in st[x.node] {
        GapsMembers(st[x.node][x.machine], x.version);
      }
    }
  }

  lemma {:induction false} NodeBlocksSorted(st: Storage, nodes: seq<NodeId>)
    requires NonEmptySets(st)
    requires forall n | n in nodes :: n in st
    requires StrictlySorted(nodes, NodeLt)
    ensures StrictlySorted(NodeBlocks(st, nodes), MessageIdLt)
    decreases |nodes|
  {
    if nodes != [] {
      var front, last := nodes[..|nodes| - 1], nodes[|nodes| - 1];
      var machines := SortedMachines(st[last]);
      var a, b := NodeBlocks(st, front), MachineBlock(last, st[last], machines);
      NodeBlocksSorted(st, front);
      MachineBlockSorted(last, st[last], machines);
      forall i, j | 0 <= i < |a| && 0 <= j < |b| ensures MessageIdLt(a[i], b[j]) {
        NodeBlocksBeforeLast(st, nodes, a[i], b[j]);
      }
      SortedConcat(a, b, MessageIdLt);
    }
  }

  /** An id of an earlier node's block precedes every id of the last node's block. */
  lemma NodeBlocksBeforeLast(st: Storage, nodes: seq<NodeId>, x: MessageId, y: MessageId)
    requires NonEmptySets(st)
    requires forall n | n in nodes :: n in st
    requires StrictlySorted(nodes, NodeLt) && nodes != []
    requires x in NodeBlocks(st, nodes[..|nodes| - 1])
    requires y in MachineBlock(nodes[|nodes| - 1], st[nodes[|nodes| - 1]], SortedMachines(st[nodes[|nodes| - 1]]))
    ensures MessageIdLt(x, y)
  {
    var front, last := nodes[..|nodes| - 1], nodes[|nodes| - 1];
    NodeBlocksNodes(st, front, x);
    MachineBlockMembers(last, st[last], SortedMachines(st[last]), y);
    SortedBeforeLast(nodes, NodeLt, x.node);
  }

  /** Every id of the blocks of some nodes belongs to one of those nodes. */
  lemma {:induction false} NodeBlocksNodes(st: Storage, nodes: seq<NodeId>, x: MessageId)
    requires NonEmptySets(st)
    requires forall n | n in nodes :: n in st
    requires x in NodeBlocks(st, nodes)
    ensures x.node in nodes
    decreases |nodes|
  {
    var front, last := nodes[..|nodes| - 1], nodes[|nodes| - 1];
    if x in NodeBlocks(st, front) {
      NodeBlocksNodes(st, front, x);
    } else {
      MachineBlockMembers(last, st[last], SortedMachines(st[last]), x);
    }
  }

  /** In a strictly sorted sequence every element before the last lies below it. */
  lemma SortedBeforeLast<T>(s: seq<T>, lt: (T, T) -> bool, x: T)
    requires StrictlySorted(s, lt) && s != [] && x in s[..|s| - 1]
    ensures lt(x, s[|s| - 1])
  {
    var k :| 0 <= k < |s| - 1 && s[k] == x;
  }

  /**
   * The reported ids are exactly the unreceived versions lying strictly between two
   * received versions of the same node and machine and below that machine's wide
   * steps; nothing below the smallest or above the largest received version is
   * reported.
   */
  lemma MissingIdsExact(st: Storage, x: MessageId)
    requires NonEmptySets(st)
    ensures x in MissingIds(st) <==> IsMissing(st, x)
  {
    NodeBlocksMembers(st, SortedNodes(st), x);
  }

  /** The reported ids are ordered by node, machine and version, hence free of duplicates. */
  lemma MissingIdsOrdered(st: Storage)
    requires NonEmptySets(st)
    ensures StrictlySorted(MissingIds(st), MessageIdLt)
    ensures forall i, j | 0 <= i < j < |MissingIds(st)| :: MissingIds(st)[i] != MissingIds(st)[j]
  {
    NodeBlocksSorted(st, SortedNodes(st));
    var r := MissingIds(st);
    forall i, j | 0 <= i < j < |r| ensures r[i] != r[j] {
      assert MessageIdLt(r[i], r[j]);
      StrLtIrreflexive(r[i].node.id);
      StrLtIrreflexive(r[i].machine);
    }
  }

  /** Receiving an id keeps every per-machine set non-empty. */
  lemma WithReceivedKeepsNonEmpty(st: Storage, id: MessageId)
    requires NonEmptySets(st)
    ensures NonEmptySets(WithReceived(st, id))
  {
  }

  /** Receiving an id whose version is a Java `int` keeps every stored version one. */
  lemma WithReceivedKeepsInt32(st: Storage, id: MessageId)
    requires Int32Sets(st) && IsInt32(id.version)
    ensures Int32Sets(WithReceived(st, id))
  {
  }

  /** Receiving an id twice is the same as receiving it once. */
  lemma WithReceivedIdempotent(st: Storage, id: MessageId)
    ensures WithReceived(WithReceived(st, id), id) == WithReceived(st, id)
  {
    var once := WithReceived(st, id);
    assert once[id.node][id.machine] + {id.version} == once[id.node][id.machine];
    assert once[id.node][id.machine := once[id.node][id.machine]] == once[id.node];
  }

  /** Receiving an id adds its version to its own node/machine set and touches no other set. */
  lemma WithReceivedSets(st: Storage, id: MessageId, n: NodeId, m: string)
    ensures var r := WithReceived(st, id);
      (n in r && m in r[n]) <==> (n in st && m in st[n]) || (n == id.node && m == id.machine)
    ensures var r := WithReceived(st, id);
      n in r && m in r[n] ==>
        r[n][m] == (if n in st && m in st[n] then st[n][m] else {}) + (if n == id.node && m == id.machine then {id.version} else {})
  {
  }

  /** Receiving ids only of stored node/machine pairs adds their versions to those sets and nothing else. */
  /** The versions `ids` carries for node `n` and machine `m`. */
  function VersionsOf(ids: seq<MessageId>, n: NodeId, m: string): (r: set<int>)
    ensures forall v :: v in r <==> MessageId(n, m, v) in ids
  {
    if ids == [] then {}
    else (if ids[0].node == n && ids[0].machine == m then {ids[0].version} else {}) + VersionsOf(ids[1..], n, m)
  }

  /** Receiving ids only of stored node/machine pairs adds no node and no machine. */
  lemma {:induction false} WithAllReceivedKeys(st: Storage, ids: seq<MessageId>)
    requires forall i | 0 <= i < |ids| :: ids[i].node in st && ids[i].machine in st[ids[i].node]
    ensures WithAllReceived(st, ids).Keys == st.Keys
    ensures forall n | n in st :: WithAllReceived(st, ids)[n].Keys == st[n].Keys
    decreases |ids|
  {
    if ids != [] {
      assert forall i | 0 <= i < |ids[1..]| :: ids[1..][i] == ids[i + 1];
      WithAllReceivedKeys(WithReceived(st, ids[0]), ids[1..]);
    }
  }

  /** Receiving ids only of stored node/machine pairs adds their versions to their sets. */
  lemma {:induction false} WithAllReceivedAt(st: Storage, ids: seq<MessageId>, n: NodeId, m: string)
    requires forall i | 0 <= i < |ids| :: ids[i].node in st && ids[i].machine in st[ids[i].node]
    requires n in st && m in st[n]
    ensures n in WithAllReceived(st, ids) && m in WithAllReceived(st, ids)[n]
    ensures WithAllReceived(st, ids)[n][m] == st[n][m] + VersionsOf(ids, n, m)
    decreases |ids|
  {
    if ids != [] {
      var st1 := WithReceived(st, ids[0]);
      assert forall i | 0 <= i < |ids[1..]| :: ids[1..][i] == ids[i + 1];
      WithReceivedSets(st, ids[0], n, m);
      WithAllReceivedAt(st1, ids[1..], n, m);
    }
  }

  /** A gap of a set filled with some of its gaps is a gap of the set itself. */
  lemma GapOfFilled(received: set<int>, gaps: set<int>, v: int)
    requires forall w | w in gaps :: IsGap(received, w)
    requires IsGap(received + gaps, v)
    ensures IsGap(received, v)
  {
    var lo, hi :| lo in received + gaps && hi in received + gaps && lo < v < hi;
    var a :| a in received && a <= lo by {
      if lo !in received { assert IsGap(received, lo); }
    }
    var b :| b in received && hi <= b by {
      if hi !in received { assert IsGap(received, hi); }
    }
    assert a < v < b;
  }

  /** Adding to a set all the versions it reports leaves nothing to report. */
  lemma FilledReportsNothing(received: set<int>, gaps: set<int>, v: int)
    requires forall w | w in received :: IsInt32(w)
    requires forall w | w in gaps :: IsReported(received, w)
    requires forall w | IsReported(received, w) :: w in gaps
    ensures !IsReported(received + gaps, v)
  {
    if IsReported(received + gaps, v) {
      GapOfFilled(received, gaps, v);
      if a, b :| WideStep(received, a, b) {
        forall w | w in gaps ensures w < a {
          ReportedBelowWideStep(received, a, b, w);
        }
        assert WideStep(received + gaps, a, b);
        ReportedBelowWideStep(received, a, b, v);
      }
      assert false;
    }
  }

  lemma FirstElement<T>(s: seq<T>)
    ensures s != [] ==> s[0] in s
  {
  }

  /** Once every reported id has been received, nothing is reported any more. */
  lemma ReceivingAllMissingClosesGaps(st: Storage)
    requires NonEmptySets(st) && Int32Sets(st)
    ensures NonEmptySets(WithAllReceived(st, MissingIds(st)))
    ensures MissingIds(WithAllReceived(st, MissingIds(st))) == []
  {
    var ids := MissingIds(st);
    forall i | 0 <= i < |ids| ensures ids[i].node in st && ids[i].machine in st[ids[i].node] {
      MissingIdsExact(st, ids[i]);
    }
    WithAllReceivedKeys(st, ids);
    var r := WithAllReceived(st, ids);
    forall n, m | n in r && m in r[n] ensures r[n][m] != {} {
      WithAllReceivedAt(st, ids, n, m);
    }
    forall x ensures x !in MissingIds(r) {
      MissingIdsExact(r, x);
      if x.node in r && x.machine in r[x.node] {
        var n, m := x.node, x.machine;
        WithAllReceivedAt(st, ids, n, m);
        var gaps := VersionsOf(ids, n, m);
        forall w | w in gaps ensures IsReported(st[n][m], w) {
          MissingIdsExact(st, MessageId(n, m, w));
        }
        forall w | IsReported(st[n][m], w) ensures w in gaps {
          MissingIdsExact(st, MessageId(n, m, w));
        }
        FilledReportsNothing(st[n][m], gaps, x.version);
      }
    }
    FirstElement(MissingIds(r));
  }

  // ---------------------------------------------------------------------------
  // The evaluator

  /** No version strictly between two consecutive received versions, nor below the first, was received. */
  lemma BetweenNotReceived(idSet: set<int>, versions: seq<int>, t: int, w: int)
    requires versions == SortedVersions(idSet) && 0 <= t < |versions|
    requires t > 0 ==> versions[t - 1] < w
    requires w < versions[t]
    ensures w !in idSet
  {
    forall q | 0 <= q < |versions| ensures versions[q] != w {
      if q < t - 1 { assert IntLt(versions[q], versions[t - 1]); }
      if q > t { assert IntLt(versions[t], versions[q]); }
    }
  }

  /** The integers of [lo, hi), ascending. */
  function Range(lo: int, hi: int): (r: seq<int>)
    ensures |r| == if lo < hi then hi - lo else 0
    decreases hi - lo
  {
    if lo >= hi then [] else Range(lo, hi - 1) + [hi - 1]
  }

  /** Where nothing from `mid` up to `hi` was received, the absent values run on as the whole range. */
  lemma {:induction false} AbsentRange(received: set<int>, lo: int, mid: int, hi: int)
    requires lo <= mid <= hi
    requires forall w | mid <= w < hi :: w !in received
    ensures Absent(received, lo, hi) == Absent(received, lo, mid) + Range(mid, hi)
    decreases hi - mid
  {
    if mid < hi {
      AbsentRange(received, lo, mid, hi - 1);
      assert Absent(received, lo, mid) + Range(mid, hi - 1) + [hi - 1] == Absent(received, lo, mid) + Range(mid, hi);
    }
  }

  lemma TagConcat(node: NodeId, machine: string, a: seq<int>, b: seq<int>)
    ensures Tag(node, machine, a + b) == Tag(node, machine, a) + Tag(node, machine, b)
  {
    assert forall k | 0 <= k < |a + b| :: Tag(node, machine, a + b)[k] == (Tag(node, machine, a) + Tag(node, machine, b))[k];
  }

  /** Strictly ascending integers grow by at least one per position. */
  lemma {:induction false} SortedSpread(vs: seq<int>, p: nat, q: nat)
    requires StrictlySorted(vs, IntLt) && p <= q < |vs|
    ensures vs[q] - vs[p] >= q - p
    decreases q - p
  {
    if p < q {
      SortedSpread(vs, p, q - 1);
      assert IntLt(vs[q - 1], vs[q]);
    }
  }

  /**
   * The innermost loop of getMissingMessageIDs: while the Java difference
   * `version - i` is positive, reports `i` and counts it up. Below 2^31 the
   * difference is the true one and the loop reports every value from `start` up to
   * the next received `version`; beyond the `int` range it wraps to a negative value
   * and the loop reports nothing.
   */
  method SkipTo(nodeId: NodeId, machineName: string, version: int, start: int)
      returns (i: int, skipped: seq<MessageId>)
    requires IsInt32(version) && IsInt32(start) && start <= version
    ensures version - start <= Int32Max ==> i == version && skipped == Tag(nodeId, machineName, Range(start, version))
    ensures version - start > Int32Max ==> i == start && skipped == []
  {
    i, skipped := start, [];
    while Int32Diff(version, i) > 0
      invariant start <= i <= version
      invariant version - start > Int32Max ==> i == start
      invariant skipped == Tag(nodeId, machineName, Range(start, i))
      decreases version - i
    {
      TagAppend(nodeId, machineName, Range(start, i), i);
      skipped := skipped + [MessageId(nodeId, machineName, i)];
      i := Int32Succ(i);
    }
  }

  /** A machine's versions in TreeSet order. */
  method SortVersions(idSet: set<int>) returns (versions: seq<int>)
    ensures versions == SortedVersions(idSet)
  {
    IntLtStrictTotal();
    versions := Enumerate(idSet, IntLt);
  }

  /** A node's machine names in TreeMap order. */
  method SortMachines(machineMap: map<string, set<int>>) returns (machines: seq<string>)
    ensures machines == SortedMachines(machineMap)
  {
    StrLtStrictTotal();
    machines := Enumerate(machineMap.Keys, StrLt);
  }

  /** The stored nodes in TreeMap order. */
  method SortNodes(st: Storage) returns (nodes: seq<NodeId>)
    ensures nodes == SortedNodes(st)
  {
    NodeLtStrictTotal();
    nodes := Enumerate(st.Keys, NodeLt);
  }

  /** Stepping over a received version reports nothing. */
  lemma PassReceived(idSet: set<int>, versions: seq<int>, t: int)
    requires versions == SortedVersions(idSet) && 0 <= t < |versions|
    ensures versions[0] <= versions[t]
    ensures Absent(idSet, versions[0], versions[t] + 1) == Absent(idSet, versions[0], versions[t])
  {
    assert versions[t] in versions;
    if t > 0 {
      assert IntLt(versions[0], versions[t]);
    }
    AbsentStep(idSet, versions[0], versions[t]);
  }

  /**
   * The received version up to which the version loop has reported the gaps when it
   * reaches the `t`-th received version, `cut` being the index of the first wide step.
   */
  ghost function ReportedUpTo(versions: seq<int>, cut: nat, t: nat): int
    requires 1 <= cut <= |versions| && t <= |versions|
  {
    versions[if t == 0 then 0 else if t <= cut then t - 1 else cut - 1]
  }

  /** Before the first wide step the values skipped on the way to the next version are the gaps up to it. */
  lemma NarrowVersionStep(idSet: set<int>, versions: seq<int>, cut: nat, t: nat)
    requires versions == SortedVersions(idSet) && versions != [] && cut == FirstWide(versions, 1) && 0 < t < cut
    ensures versions[t - 1] < versions[t]
    ensures versions[t] - (versions[t - 1] + 1) <= Int32Max
    ensures Absent(idSet, versions[0], versions[t])
      == Absent(idSet, versions[0], ReportedUpTo(versions, cut, t)) + Range(versions[t - 1] + 1, versions[t])
  {
    assert !Wide(versions[t - 1], versions[t]);
    GapsUpToNext(idSet, versions, t);
  }

  /** The gaps up to a received version are those up to its predecessor and everything between the two. */
  lemma GapsUpToNext(idSet: set<int>, versions: seq<int>, t: nat)
    requires versions == SortedVersions(idSet) && 0 < t < |versions|
    ensures versions[t - 1] < versions[t]
    ensures Absent(idSet, versions[0], versions[t])
      == Absent(idSet, versions[0], versions[t - 1]) + Range(versions[t - 1] + 1, versions[t])
  {
    assert IntLt(versions[t - 1], versions[t]);
    PassReceived(idSet, versions, t - 1);
    forall w | versions[t - 1] + 1 <= w < versions[t] ensures w !in idSet {
      BetweenNotReceived(idSet, versions, t, w);
    }
    AbsentRange(idSet, versions[0], versions[t - 1] + 1, versions[t]);
  }

  /** From the first wide step on, the counter lags so far behind that `version - i` leaves the `int` range. */
  lemma WideVersionStep(idSet: set<int>, versions: seq<int>, cut: nat, t: nat, i: int)
    requires versions == SortedVersions(idSet) && versions != [] && cut == FirstWide(versions, 1) && cut <= t < |versions|
    requires i == versions[cut - 1] + 1 + (t - cut)
    ensures versions[0] <= i < versions[t]
    ensures versions[t] - i > Int32Max
  {
    SortedSpread(versions, cut, t);
    if cut > 1 {
      SortedSpread(versions, 0, cut - 1);
    }
  }

  /**
   * One turn of the version loop: before the first wide step the counter stands
   * just above the previous version and the values it skips are the gaps up to the
   * next one; from the first wide step on, the difference wraps and nothing is skipped.
   */
  lemma VersionStep(idSet: set<int>, versions: seq<int>, cut: nat, t: nat, i: int)
    requires forall v | v in idSet :: IsInt32(v)
    requires versions == SortedVersions(idSet) && t < |versions| && cut == FirstWide(versions, 1)
    requires t == 0 ==> i == versions[0]
    requires 0 < t <= cut ==> i == Int32Succ(versions[t - 1])
    requires cut < t ==> i == versions[cut - 1] + 1 + (t - cut)
    ensures IsInt32(versions[t]) && IsInt32(i) && i <= versions[t]
    ensures versions[t] - i <= Int32Max <==> t < cut
    ensures t < cut ==>
      Absent(idSet, versions[0], versions[t]) == Absent(idSet, versions[0], ReportedUpTo(versions, cut, t)) + Range(i, versions[t])
    ensures cut <= t ==> i + 1 == versions[cut - 1] + 1 + (t + 1 - cut)
  {
    assert versions[t] in versions && versions[0] in versions;
    if t == 0 {
      PassReceived(idSet, versions, 0);
    } else if t < cut {
      assert versions[t - 1] in versions;
      NarrowVersionStep(idSet, versions, cut, t);
    } else {
      assert versions[cut - 1] in versions;
      if t == cut {
        assert IntLt(versions[t - 1], versions[t]);
      }
      WideVersionStep(idSet, versions, cut, t, i);
    }
  }

  /**
   * Where the version loop stands before the `t`-th received version: the counter
   * just above the previous version up to the first wide step and one further per
   * version after it, and the ids found so far the gaps reported up to there.
   */
  ghost predicate VersionLoop(nodeId: NodeId, machineName: string, idSet: set<int>, versions: seq<int>,
                              cut: nat, t: nat, i: int, found: seq<MessageId>) {
    && (forall v | v in idSet :: IsInt32(v))
    && versions == SortedVersions(idSet) && versions != [] && t <= |versions|
    && cut == FirstWide(versions, 1)
    && (t == 0 ==> i == versions[0])
    && (0 < t <= cut ==> versions[t - 1] in idSet && i == Int32Succ(versions[t - 1]))
    && (cut < t ==> i == versions[cut - 1] + 1 + (t - cut))
    && found == Tag(nodeId, machineName, Absent(idSet, versions[0], ReportedUpTo(versions, cut, t)))
  }

  /** One turn of the version loop of getMissingMessageIDs: the counting loop, then `i++`. */
  method VersionTurn(nodeId: NodeId, machineName: string, idSet: set<int>, versions: seq<int>,
                     ghost cut: nat, t: nat, i: int, found: seq<MessageId>)
      returns (i': int, found': seq<MessageId>)
    requires VersionLoop(nodeId, machineName, idSet, versions, cut, t, i, found) && t < |versions|
    ensures VersionLoop(nodeId, machineName, idSet, versions, cut, t + 1, i', found')
  {
    VersionStep(idSet, versions, cut, t, i);
    var skipped;
    i', skipped := SkipTo(nodeId, machineName, versions[t], i);
    found' := found + skipped;
    i' := Int32Succ(i');
    if t < cut {
      TurnBeforeWide(nodeId, machineName, idSet, versions, cut, t, i, found);
    } else {
      TurnFromWide(nodeId, machineName, idSet, versions, cut, t, i, found);
    }
  }

  /** A turn before the first wide step reports the values up to the next version and moves past it. */
  lemma TurnBeforeWide(nodeId: NodeId, machineName: string, idSet: set<int>, versions: seq<int>,
                       cut: nat, t: nat, i: int, found: seq<MessageId>)
    requires VersionLoop(nodeId, machineName, idSet, versions, cut, t, i, found) && t < cut
    ensures versions[t] in idSet
    ensures VersionLoop(nodeId, machineName, idSet, versions, cut, t + 1, Int32Succ(versions[t]),
                        found + Tag(nodeId, machineName, Range(i, versions[t])))
  {
    VersionStep(idSet, versions, cut, t, i);
    assert versions[t] in versions;
    TagConcat(nodeId, machineName, Absent(idSet, versions[0], ReportedUpTo(versions, cut, t)), Range(i, versions[t]));
  }

  /** A turn from the first wide step on reports nothing and only counts one further. */
  lemma TurnFromWide(nodeId: NodeId, machineName: string, idSet: set<int>, versions: seq<int>,
                     cut: nat, t: nat, i: int, found: seq<MessageId>)
    requires VersionLoop(nodeId, machineName, idSet, versions, cut, t, i, found) && cut <= t < |versions|
    ensures IsInt32(i) && i < Int32Max
    ensures VersionLoop(nodeId, machineName, idSet, versions, cut, t + 1, i + 1, found + [])
  {
    VersionStep(idSet, versions, cut, t, i);
    assert found + [] == found;
  }

  /**
   * The version loop of getMissingMessageIDs for one machine: with the counter a
   * Java `int`, it reports the machine's gaps up to its first wide step.
   */
  method MachineMissing(nodeId: NodeId, machineName: string, idSet: set<int>) returns (found: seq<MessageId>)
    requires idSet != {}
    requires forall v | v in idSet :: IsInt32(v)
    ensures found == Tag(nodeId, machineName, Gaps(idSet))
  {
    var versions := SortVersions(idSet);
    ghost var cut := FirstWide(versions, 1);
    found := [];
    var i := versions[0];
    var t := 0;
    VersionLoopStart(nodeId, machineName, idSet, versions);
    while t < |versions|
      invariant VersionLoop(nodeId, machineName, idSet, versions, cut, t, i, found)
      decreases |versions| - t
    {
      i, found := VersionTurn(nodeId, machineName, idSet, versions, cut, t, i, found);
      t := t + 1;
    }
    VersionLoopEnd(nodeId, machineName, idSet, versions, cut, t, i, found);
  }

  /** The version loop starts at the first received version with nothing found. */
  lemma VersionLoopStart(nodeId: NodeId, machineName: string, idSet: set<int>, versions: seq<int>)
    requires idSet != {} && (forall v | v in idSet :: IsInt32(v)) && versions == SortedVersions(idSet)
    ensures VersionLoop(nodeId, machineName, idSet, versions, FirstWide(versions, 1), 0, versions[0], [])
  {
  }

  /** Past the last received version the loop has found exactly the machine's gaps. */
  lemma VersionLoopEnd(nodeId: NodeId, machineName: string, idSet: set<int>, versions: seq<int>,
                       cut: nat, t: nat, i: int, found: seq<MessageId>)
    requires VersionLoop(nodeId, machineName, idSet, versions, cut, t, i, found) && t == |versions|
    ensures idSet != {} && found == Tag(nodeId, machineName, Gaps(idSet))
  {
  }

  ghost predicate MachineBlockDefined(mm: map<string, set<int>>, machines: seq<string>) {
    forall m | m in machines :: m in mm && mm[m] != {}
  }

  /** One more machine of the sorted list appends that machine's gaps. */
  lemma MachineBlockStep(n: NodeId, mm: map<string, set<int>>, machines: seq<string>, j: int)
    requires forall m | m in mm :: mm[m] != {}
    requires machines == SortedMachines(mm) && 0 <= j < |machines|
    ensures machines[j] in mm && mm[machines[j]] != {}
    ensures MachineBlockDefined(mm, machines[..j]) && MachineBlockDefined(mm, machines[..j + 1])
    ensures MachineBlock(n, mm, machines[..j + 1])
      == MachineBlock(n, mm, machines[..j]) + Tag(n, machines[j], Gaps(mm[machines[j]]))
  {
    assert machines[j] in machines;
    assert machines[..j + 1][..j] == machines[..j];
  }

  /** The machine loop of getMissingMessageIDs for one node, machines ascending. */
  method NodeMissing(nodeId: NodeId, machineMap: map<string, set<int>>) returns (found: seq<MessageId>)
    requires forall m | m in machineMap :: machineMap[m] != {}
    requires forall m, v | m in machineMap && v in machineMap[m] :: IsInt32(v)
    ensures found == MachineBlock(nodeId, machineMap, SortedMachines(machineMap))
  {
    var machines := SortMachines(machineMap);
    found := [];
    var j := 0;
    while j < |machines|
      invariant 0 <= j <= |machines|
      invariant MachineBlockDefined(machineMap, machines[..j])
      invariant found == MachineBlock(nodeId, machineMap, machines[..j])
    {
      MachineBlockStep(nodeId, machineMap, machines, j);
      var machine := machines[j];
      var block := MachineMissing(nodeId, machine, machineMap[machine]);
      found := found + block;
      j := j + 1;
    }
    assert machines[..|machines|] == machines;
  }

  /** Extending the enumerated prefix by one node appends that node's block. */
  lemma NodeBlocksStep(st: Storage, nodes: seq<NodeId>, k: nat)
    requires NonEmptySets(st)
    requires forall n | n in nodes :: n in st
    requires k < |nodes|
    ensures NodeBlocks(st, nodes[..k + 1])
      == NodeBlocks(st, nodes[..k]) + MachineBlock(nodes[k], st[nodes[k]], SortedMachines(st[nodes[k]]))
  {
    assert nodes[..k + 1][..k] == nodes[..k];
  }

  class MessageIdEvaluator {
    var idStorage: Storage

    ghost predicate Valid()
      reads this
    {
      NonEmptySets(idStorage) && Int32Sets(idStorage)
    }

    constructor ()
      ensures Valid() && idStorage == map[]
    {
      idStorage := map[];
    }

    /** getMachineMap: the node's machine map, an empty one being stored first when the node is new. */
    method GetMachineMap(node: NodeId) returns (machineMap: map<string, set<int>>)
      modifies this
      ensures idStorage == if node in old(idStorage) then old(idStorage) else old(idStorage)[node := map[]]
      ensures machineMap == idStorage[node]
    {
      if node !in idStorage {
        idStorage := idStorage[node := map[]];
      }
      machineMap := idStorage[node];
    }

    /**
     * getIDSet: the machine's version set within the node's machine map, an empty one
     * being stored first when the machine is new.
     */
    method GetIdSet(node: NodeId, machineName: string) returns (idSet: set<int>)
      requires node in idStorage
      modifies this
      ensures var mm := old(idStorage)[node];
        idStorage == if machineName in mm then old(idStorage) else old(idStorage)[node := mm[machineName := {}]]
      ensures idSet == idStorage[node][machineName]
    {
      var machineMap := idStorage[node];
      if machineName !in machineMap {
        machineMap := machineMap[machineName := {}];
        idStorage := idStorage[node := machineMap];
      }
      idSet := idStorage[node][machineName];
    }

    /** addReceivedMessageID: inserts the version into its node/machine set. */
    method AddReceivedMessageId(messageId: MessageId)
      requires Valid() && IsInt32(messageId.version)
      modifies this
      ensures Valid()
      ensures idStorage == WithReceived(old(idStorage), messageId)
    {
      ghost var before := idStorage;
      ghost var mm := if messageId.node in before then before[messageId.node] else map[];
      var _ := GetMachineMap(messageId.node);
      var idSet := GetIdSet(messageId.node, messageId.machine);
      assert idSet == if messageId.machine in mm then mm[messageId.machine] else {};
      var updated := idStorage[messageId.node][messageId.machine := idSet + {messageId.version}];
      assert updated == mm[messageId.machine := idSet + {messageId.version}];
      idStorage := idStorage[messageId.node := updated];
      assert idStorage == before[messageId.node := updated];
      WithReceivedKeepsNonEmpty(before, messageId);
      WithReceivedKeepsInt32(before, messageId);
    }

    /**
     * getMissingMessageIDs: walks the nodes, their machines and their versions in
     * ascending order and reports every skipped version. The get-or-create helpers the
     * source calls here only ever find existing entries, so nothing is stored.
     */
    method GetMissingMessageIds() returns (missingIds: seq<MessageId>)
      requires Valid()
      ensures missingIds == MissingIds(idStorage)
    {
      var st := idStorage;
      var nodes := SortNodes(st);
      missingIds := [];
      var k := 0;
      while k < |nodes|
        invariant 0 <= k <= |nodes|
        invariant missingIds == NodeBlocks(st, nodes[..k])
      {
        var node := nodes[k];
        var block := NodeMissing(node, st[node]);
        NodeBlocksStep(st, nodes, k);
        missingIds := missingIds + block;
        k := k + 1;
      }
      assert nodes[..|nodes|] == nodes;
    }
  }

  // ---------------------------------------------------------------------------
  // The worked example of the unit test

  const ExampleNode1 := NodeId("nodeID1")
  const ExampleNode2 := NodeId("nodeID2")

  /** The ids received in the unit test, in the order it receives them. */
  function ExampleReceived(): seq<MessageId> {
    [MessageId(ExampleNode1, "machine1", 1), MessageId(ExampleNode1, "machine1", 3),
     MessageId(ExampleNode1, "machine2", 2), MessageId(ExampleNode2, "machine2", 6),
     MessageId(ExampleNode2, "machine2", 9)]
  }

  const ExampleMachines1: map<string, set<int>> := map["machine1" := {1, 3}, "machine2" := {2}]
  const ExampleMachines2: map<string, set<int>> := map["machine2" := {6, 9}]
  const ExampleStorageValue: Storage := map[ExampleNode1 := ExampleMachines1, ExampleNode2 := ExampleMachines2]

  lemma ExampleStorage()
    ensures WithAllReceived(map[], ExampleReceived()) == ExampleStorageValue
  {
    var ids := ExampleReceived();
    ExampleNodeOneReceived();
    ExampleNodeTwoReceived();
    var s1 := WithReceived(map[], ids[0]);
    var s2 := WithReceived(s1, ids[1]);
    var s3 := WithReceived(s2, ids[2]);
    var s4 := WithReceived(s3, ids[3]);
    var s5 := WithReceived(s4, ids[4]);
    assert WithAllReceived(s5, ids[1..][1..][1..][1..][1..]) == s5;
    assert WithAllReceived(s4, ids[1..][1..][1..][1..]) == s5;
    assert WithAllReceived(s3, ids[1..][1..][1..]) == s5;
    assert WithAllReceived(s2, ids[1..][1..]) == s5;
    assert WithAllReceived(s1, ids[1..]) == s5;
  }

  /** The first three ids of the example fill the first node's map. */
  lemma ExampleNodeOneReceived()
    ensures var ids := ExampleReceived();
      WithReceived(WithReceived(WithReceived(map[], ids[0]), ids[1]), ids[2]) == map[ExampleNode1 := ExampleMachines1]
  {
    var ids := ExampleReceived();
    var s1 := WithReceived(map[], ids[0]);
    assert s1[ExampleNode1] == map[]["machine1" := {} + {1}];
    assert {} + {1} == {1};
    assert s1[ExampleNode1] == map["machine1" := {1}];
    assert s1 == map[ExampleNode1 := map["machine1" := {1}]];
    var s2 := WithReceived(s1, ids[1]);
    assert s2[ExampleNode1]["machine1"] == {1, 3};
    assert s2[ExampleNode1] == map["machine1" := {1, 3}];
    assert s2 == map[ExampleNode1 := map["machine1" := {1, 3}]];
    var s3 := WithReceived(s2, ids[2]);
    assert s3[ExampleNode1] == s2[ExampleNode1]["machine2" := {} + {2}];
    assert {} + {2} == {2};
    assert s3[ExampleNode1] == ExampleMachines1;
  }

  /** The last two ids of the example add the second node's map. */
  lemma ExampleNodeTwoReceived()
    ensures var ids := ExampleReceived();
      WithReceived(WithReceived(map[ExampleNode1 := ExampleMachines1], ids[3]), ids[4]) == ExampleStorageValue
  {
    var ids := ExampleReceived();
    var s4 := WithReceived(map[ExampleNode1 := ExampleMachines1], ids[3]);
    assert s4[ExampleNode2] == map[]["machine2" := {} + {6}];
    assert {} + {6} == {6};
    assert s4[ExampleNode2] == map["machine2" := {6}];
    assert s4 == map[ExampleNode1 := ExampleMachines1, ExampleNode2 := map["machine2" := {6}]];
    var s5 := WithReceived(s4, ids[4]);
    assert s5[ExampleNode2]["machine2"] == {6, 9};
    assert s5[ExampleNode2] == ExampleMachines2;
  }

  /** Two received versions less than 2^31 apart: the gaps are everything between them. */
  lemma GapsOfPair(a: int, b: int)
    requires a < b && !Wide(a, b)
    ensures Gaps({a, b}) == Absent({a, b}, a, b)
  {
    IntLtStrictTotal();
    InOrderUnique({a, b}, IntLt, [a, b]);
    assert FirstWide([a, b], 1) == 2;
  }

  lemma ExampleGaps1()
    ensures Gaps({1, 3}) == [2]
  {
    GapsOfPair(1, 3);
    assert Absent({1, 3}, 1, 2) == [];
  }

  lemma ExampleGaps2()
    ensures Gaps({2}) == []
  {
    IntLtStrictTotal();
    InOrderUnique({2}, IntLt, [2]);
  }

  lemma ExampleGaps3()
    ensures Gaps({6, 9}) == [7, 8]
  {
    GapsOfPair(6, 9);
    assert Absent({6, 9}, 6, 7) == [];
    assert Absent({6, 9}, 6, 8) == [7];
  }

  lemma ExampleMachineOrder()
    ensures StrLt("machine1", "machine2")
  {
    assert "machine1" == "machine" + ['1'] && "machine2" == "machine" + ['2'];
    StrLtCommonPrefix("machine", '1', '2');
  }

  lemma ExampleNodeOrder()
    ensures NodeLt(ExampleNode1, ExampleNode2)
  {
    assert "nodeID1" == "nodeID" + ['1'] && "nodeID2" == "nodeID" + ['2'];
    StrLtCommonPrefix("nodeID", '1', '2');
  }

  lemma ExampleOrder1()
    ensures SortedMachines(ExampleMachines1) == ["machine1", "machine2"]
  {
    StrLtStrictTotal();
    ExampleMachineOrder();
    assert ExampleMachines1.Keys == {"machine1", "machine2"};
    InOrderUnique({"machine1", "machine2"}, StrLt, ["machine1", "machine2"]);
  }

  lemma ExampleOrder2()
    ensures SortedMachines(ExampleMachines2) == ["machine2"]
  {
    StrLtStrictTotal();
    assert ExampleMachines2.Keys == {"machine2"};
    InOrderUnique({"machine2"}, StrLt, ["machine2"]);
  }

  lemma ExampleOrder3()
    ensures SortedNodes(ExampleStorageValue) == [ExampleNode1, ExampleNode2]
  {
    NodeLtStrictTotal();
    ExampleNodeOrder();
    assert ExampleStorageValue.Keys == {ExampleNode1, ExampleNode2};
    InOrderUnique({ExampleNode1, ExampleNode2}, NodeLt, [ExampleNode1, ExampleNode2]);
  }

  lemma ExampleBlock1()
    ensures MachineBlock(ExampleNode1, ExampleMachines1, ["machine1", "machine2"]) == [MessageId(ExampleNode1, "machine1", 2)]
  {
    ExampleGaps1();
    ExampleGaps2();
    var mm := ExampleMachines1;
    assert mm["machine1"] == {1, 3} && mm["machine2"] == {2};
    var ms := ["machine1", "machine2"];
    assert ms[..1] == ["machine1"] && ms[..1][..0] == [];
    assert Tag(ExampleNode1, "machine1", [2]) == [MessageId(ExampleNode1, "machine1", 2)];
    assert MachineBlock(ExampleNode1, mm, ["machine1"]) == [MessageId(ExampleNode1, "machine1", 2)];
  }

  lemma ExampleBlock2()
    ensures MachineBlock(ExampleNode2, ExampleMachines2, ["machine2"])
      == [MessageId(ExampleNode2, "machine2", 7), MessageId(ExampleNode2, "machine2", 8)]
  {
    ExampleGaps3();
    assert ExampleMachines2["machine2"] == {6, 9};
    assert ["machine2"][..0] == [];
    assert Tag(ExampleNode2, "machine2", [7, 8]) == [MessageId(ExampleNode2, "machine2", 7), MessageId(ExampleNode2, "machine2", 8)];
  }

  /**
   * After receiving nodeID1/machine1 = {1, 3}, nodeID1/machine2 = {2} and
   * nodeID2/machine2 = {6, 9}, the report is exactly nodeID1/machine1/2,
   * nodeID2/machine2/7 and nodeID2/machine2/8.
   */
  lemma WorkedExample()
    ensures NonEmptySets(WithAllReceived(map[], ExampleReceived()))
    ensures MissingIds(WithAllReceived(map[], ExampleReceived())) ==
      [MessageId(ExampleNode1, "machine1", 2), MessageId(ExampleNode2, "machine2", 7), MessageId(ExampleNode2, "machine2", 8)]
  {
    ExampleStorage();
    ExampleReport();
  }

  lemma ExampleReport()
    ensures NonEmptySets(ExampleStorageValue)
    ensures MissingIds(ExampleStorageValue) ==
      [MessageId(ExampleNode1, "machine1", 2), MessageId(ExampleNode2, "machine2", 7), MessageId(ExampleNode2, "machine2", 8)]
  {
    ExampleLookups();
    ExampleOrder3();
    NodeBlocksOne(ExampleStorageValue, ExampleNode1);
    ExampleOrder1();
    ExampleBlock1();
    ExampleSecondNode(ExampleStorageValue);
  }

  lemma ExampleLookups()
    ensures NonEmptySets(ExampleStorageValue)
    ensures ExampleNode1 in ExampleStorageValue && ExampleStorageValue[ExampleNode1] == ExampleMachines1
    ensures ExampleNode2 in ExampleStorageValue && ExampleStorageValue[ExampleNode2] == ExampleMachines2
  {
    assert ExampleNode1 != ExampleNode2 by {
      assert ExampleNode1.id[6] != ExampleNode2.id[6];
    }
  }

  /** The blocks of a single node are that node's machine blocks, machines ascending. */
  lemma NodeBlocksOne(st: Storage, n: NodeId)
    requires NonEmptySets(st) && n in st
    ensures NodeBlocks(st, [n]) == MachineBlock(n, st[n], SortedMachines(st[n]))
  {
    NodeBlocksStep(st, [n], 0);
    assert [n][..1] == [n] && [n][..0] == [];
  }

  lemma ExampleSecondNode(st: Storage)
    requires NonEmptySets(st) && ExampleNode1 in st && ExampleNode2 in st && st[ExampleNode2] == ExampleMachines2
    ensures NodeBlocks(st, [ExampleNode1, ExampleNode2]) ==
      NodeBlocks(st, [ExampleNode1]) + [MessageId(ExampleNode2, "machine2", 7), MessageId(ExampleNode2, "machine2", 8)]
  {
    ExampleOrder2();
    ExampleBlock2();
    assert [ExampleNode1, ExampleNode2][..1] == [ExampleNode1];
  }
}
