/**
 * The repository's node store and a transaction's state, and the pure definitions the
 * commit engine is specified with: path resolution, copy-number inheritance, the
 * merge-info update along a parent chain, the three-way classification of a directory
 * entry, and the folding of a change log into changed paths.
 */
module FsStore {
  import opened Results
  import opened FsTypes
  import Text

  /** The repository (FSFS): every node by identity, the published revisions and the locks. */
  class Repository {
    var nodes: map<NodeId, RevNode>
    var youngest: nat
    var revRoots: map<nat, NodeId>
    var locks: map<string, Lock>
    const supportsMergeInfo: bool

    constructor (nodes: map<NodeId, RevNode>, youngest: nat, revRoots: map<nat, NodeId>, locks: map<string, Lock>, supportsMergeInfo: bool)
      ensures this.nodes == nodes && this.youngest == youngest && this.revRoots == revRoots
      ensures this.locks == locks && this.supportsMergeInfo == supportsMergeInfo
    {
      this.nodes := nodes;
      this.youngest := youngest;
      this.revRoots := revRoots;
      this.locks := locks;
      this.supportsMergeInfo := supportsMergeInfo;
    }
  }

  /**
   * A transaction: its root (whose predecessor is the root of its base), its base
   * revision, its change log and its next-id record.
   */
  class Transaction {
    const txnId: string
    var rootId: NodeId
    var baseRevision: nat
    var changes: seq<PathChange>
    var nextNodeKey: nat
    var nextCopyKey: nat
    const checkLocks: bool

    constructor (txnId: string, rootId: NodeId, baseRevision: nat, nextNodeKey: nat, nextCopyKey: nat, checkLocks: bool)
      ensures this.txnId == txnId && this.rootId == rootId && this.baseRevision == baseRevision
      ensures this.changes == [] && this.nextNodeKey == nextNodeKey && this.nextCopyKey == nextCopyKey && this.checkLocks == checkLocks
    {
      this.txnId := txnId;
      this.rootId := rootId;
      this.baseRevision := baseRevision;
      this.changes := [];
      this.nextNodeKey := nextNodeKey;
      this.nextCopyKey := nextCopyKey;
      this.checkLocks := checkLocks;
    }
  }

  /** Copy-on-write isolation: no node is removed and no committed node changes. */
  ghost predicate Preserves(before: map<NodeId, RevNode>, after: map<NodeId, RevNode>) {
    before.Keys <= after.Keys &&
    forall id :: id in before && !id.IsTxn() ==> after[id] == before[id]
  }

  lemma PreservesTransitive(a: map<NodeId, RevNode>, b: map<NodeId, RevNode>, c: map<NodeId, RevNode>)
    requires Preserves(a, b) && Preserves(b, c)
    ensures Preserves(a, c)
  {
  }

  /** Rewriting one transaction node keeps committed nodes, the key bound and closedness. */
  lemma TxnUpdate(nodes: map<NodeId, RevNode>, id: NodeId, n: RevNode, nextNodeKey: nat, nextCopyKey: nat)
    requires id in nodes && id.IsTxn()
    ensures Preserves(nodes, nodes[id := n])
    ensures KeysFresh(nodes, nextNodeKey, nextCopyKey) ==> KeysFresh(nodes[id := n], nextNodeKey, nextCopyKey)
    ensures Closed(nodes) ==> Closed(nodes[id := n])
  {
    assert nodes[id := n].Keys == nodes.Keys;
  }

  /** Every transaction-local node or copy number in the store is below the next one to be handed out. */
  ghost predicate KeysFresh(nodes: map<NodeId, RevNode>, nextNodeKey: nat, nextCopyKey: nat) {
    forall id :: id in nodes ==>
      (id.nodeId.local ==> id.nodeId.n < nextNodeKey) && (id.copyId.local ==> id.copyId.n < nextCopyKey)
  }

  /** A committed directory names only committed nodes: a revision never points into a transaction. */
  ghost predicate Closed(nodes: map<NodeId, RevNode>) {
    forall id, n :: id in nodes && !id.IsTxn() && n in nodes[id].entries ==> !nodes[id].entries[n].id.IsTxn()
  }

  function Get(m: map<string, Entry>, name: string): (e: Option<Entry>)
    ensures e.Some? <==> name in m
    ensures e.Some? ==> e.value == m[name]
  {
    if name in m then Some(m[name]) else None
  }

  /** A directory's entries with `name` set to `e`, or removed when `e` is absent. */
  function WithEntry(m: map<string, Entry>, name: string, e: Option<Entry>): (r: map<string, Entry>)
    ensures Get(r, name) == e
    ensures forall n :: n != name ==> Get(r, n) == Get(m, n)
  {
    if e.Some? then m[name := e.value] else m - {name}
  }

  /** A property list with `name` set to `value`, or removed when the value is absent. */
  function WithProp(props: map<string, string>, name: string, value: Option<string>): (r: map<string, string>)
    ensures value.Some? ==> name in r && r[name] == value.value
    ensures value.None? ==> name !in r
    ensures forall n :: n != name ==> (n in r <==> n in props) && (n in r ==> r[n] == props[n])
  {
    if value.None? then props - {name} else props[name := value.value]
  }

  /** A new, empty node created under a directory: no predecessor, no copy source, the parent's copy root. */
  function NewNode(kind: Kind, parent: RevNode, parentPath: string, name: string): (n: RevNode)
    ensures n.kind == kind && n.entries == map[] && n.props == map[] && n.predecessor.None?
    ensures n.copyFromRev == INVALID_REVISION && n.copyFromPath.None?
    ensures n.copyRootRev == parent.copyRootRev && n.copyRootPath == parent.copyRootPath
  {
    RevNode(kind, map[], map[], None, 0, ChildPath(parentPath, name), INVALID_REVISION, None,
            parent.copyRootRev, parent.copyRootPath, false, 0)
  }

  /**
   * The node a copy with history stores: the source's content with the source as
   * predecessor, one more predecessor, the copy source recorded and no copy root yet.
   */
  function CopyOf(from: RevNode, fromId: NodeId, toCreatedPath: string, name: string, fromRev: int, fromPath: string): (n: RevNode)
    ensures n.kind == from.kind && n.entries == from.entries && n.props == from.props
    ensures n.predecessor == Some(fromId) && n.count == SuccessorCount(from.count)
    ensures n.copyFromRev == fromRev && n.copyFromPath == Some(fromPath) && n.copyRootPath.None?
  {
    from.(predecessor := Some(fromId), count := SuccessorCount(from.count),
          createdPath := ChildPath(toCreatedPath, name),
          copyFromPath := Some(fromPath), copyFromRev := fromRev, copyRootPath := None)
  }

  /** The predecessor count of a successor: one more, unless unknown (-1). */
  function SuccessorCount(count: int): (r: int)
    ensures count == -1 ==> r == -1
    ensures count != -1 ==> r == count + 1
  {
    if count != -1 then count + 1 else count
  }

  /** A node with its merge-info count shifted by `inc`. */
  function Bump(nodes: map<NodeId, RevNode>, id: NodeId, inc: int): (r: map<NodeId, RevNode>)
    ensures r.Keys == nodes.Keys
  {
    if id in nodes then nodes[id := nodes[id].(mergeInfoCount := nodes[id].mergeInfoCount + inc)] else nodes
  }

  /** The store after shifting the merge-info count of each node of `ids`, last one first. */
  function IncrementAll(nodes: map<NodeId, RevNode>, ids: seq<NodeId>, inc: int): (r: map<NodeId, RevNode>)
    ensures r.Keys == nodes.Keys
    decreases |ids|
  {
    if ids == [] then nodes else IncrementAll(Bump(nodes, ids[|ids| - 1], inc), ids[..|ids| - 1], inc)
  }

  /** Shifting the count of one transaction node keeps committed nodes, the key bound and closedness. */
  lemma BumpTxn(nodes: map<NodeId, RevNode>, id: NodeId, inc: int, nextNodeKey: nat, nextCopyKey: nat)
    requires id in nodes && id.IsTxn()
    ensures Preserves(nodes, Bump(nodes, id, inc))
    ensures KeysFresh(nodes, nextNodeKey, nextCopyKey) ==> KeysFresh(Bump(nodes, id, inc), nextNodeKey, nextCopyKey)
    ensures Closed(nodes) ==> Closed(Bump(nodes, id, inc))
  {
    TxnUpdate(nodes, id, nodes[id].(mergeInfoCount := nodes[id].mergeInfoCount + inc), nextNodeKey, nextCopyKey);
  }

  /** Shifting the first `i + 1` nodes is shifting node `i`, then the first `i`. */
  lemma IncrementAllStep(nodes: map<NodeId, RevNode>, ids: seq<NodeId>, i: nat, inc: int)
    requires i < |ids|
    ensures IncrementAll(nodes, ids[..i + 1], inc) == IncrementAll(Bump(nodes, ids[i], inc), ids[..i], inc)
  {
    assert ids[..i + 1][..i] == ids[..i];
  }

  /**
   * The store after a deletion or copy adjusted the merge-info counts of a parent chain
   * by `delta`: the adjusted store when merge info is supported and the delta is not
   * zero, the unadjusted one otherwise.
   */
  ghost predicate MergeInfoAdjusted(after: map<NodeId, RevNode>, unadjusted: map<NodeId, RevNode>, chain: seq<Seg>, delta: int, supported: bool) {
    after == if supported && delta != 0 then IncrementAll(unadjusted, Ids(chain), delta) else unadjusted
  }

  predicate Distinct(ids: seq<NodeId>) {
    forall i, j :: 0 <= i < j < |ids| ==> ids[i] != ids[j]
  }

  /** Each node of a chain of distinct nodes gets the increment exactly once; no other node changes. */
  lemma {:induction false} IncrementAllEffect(nodes: map<NodeId, RevNode>, ids: seq<NodeId>, inc: int)
    requires Distinct(ids)
    ensures forall id :: id in nodes ==>
      IncrementAll(nodes, ids, inc)[id] ==
        if id in ids then nodes[id].(mergeInfoCount := nodes[id].mergeInfoCount + inc) else nodes[id]
    decreases |ids|
  {
    if ids != [] {
      var last := ids[|ids| - 1];
      var init := ids[..|ids| - 1];
      assert last !in init;
      IncrementAllEffect(Bump(nodes, last, inc), init, inc);
      forall id | id in nodes && id !in ids
        ensures id !in init && id != last
      {
      }
      assert forall id :: id in ids <==> id in init || id == last;
    }
  }

  /** Shifting merge-info counts changes nothing else about any node. */
  lemma {:induction false} IncrementAllOnlyCounts(nodes: map<NodeId, RevNode>, ids: seq<NodeId>, inc: int)
    ensures forall id :: id in nodes ==>
      IncrementAll(nodes, ids, inc)[id] == nodes[id].(mergeInfoCount := IncrementAll(nodes, ids, inc)[id].mergeInfoCount)
    decreases |ids|
  {
    if ids != [] {
      IncrementAllOnlyCounts(Bump(nodes, ids[|ids| - 1], inc), ids[..|ids| - 1], inc);
    }
  }

  /** Shifting only transaction nodes keeps every committed node. */
  lemma {:induction false} IncrementAllPreserves(nodes: map<NodeId, RevNode>, ids: seq<NodeId>, inc: int)
    requires forall i :: 0 <= i < |ids| ==> ids[i].IsTxn()
    ensures Preserves(nodes, IncrementAll(nodes, ids, inc))
    decreases |ids|
  {
    if ids != [] {
      IncrementAllPreserves(Bump(nodes, ids[|ids| - 1], inc), ids[..|ids| - 1], inc);
    }
  }

  /**
   * The change of a node's merge-info count when the merge-info property is set
   * (`adding`) or removed on a node that `had` it: the count follows the flag.
   */
  function MergeInfoIncrement(had: bool, adding: bool): (inc: int)
    ensures (if had then 1 else 0) + inc == (if adding then 1 else 0)
  {
    if adding && !had then 1 else if !adding && had then -1 else 0
  }

  /** The identities of the nodes along a path from `root`, one per name; every node exists. */
  function Walk(nodes: map<NodeId, RevNode>, root: NodeId, names: seq<string>): (r: Result<seq<NodeId>, FsError>)
    ensures r.Ok? ==> |r.value| == |names| + 1 && r.value[0] == root
    ensures r.Ok? ==> forall i :: 0 <= i < |r.value| ==> r.value[i] in nodes
    ensures r.Ok? ==> forall i :: 0 <= i < |names| ==>
      nodes[r.value[i]].kind == Dir && names[i] in nodes[r.value[i]].entries &&
      nodes[r.value[i]].entries[names[i]].id == r.value[i + 1]
    ensures r.Err? ==> r.error == NotDirectory || r.error.NotFound?
    decreases |names|
  {
    if names == [] then
      if root in nodes then Ok([root]) else Err(NotFound("/"))
    else
      match Walk(nodes, root, names[..|names| - 1])
      case Err(e) => Err(e)
      case Ok(ids) =>
        var parent := nodes[ids[|ids| - 1]];
        var name := names[|names| - 1];
        if parent.kind != Dir then Err(NotDirectory)
        else if name !in parent.entries || parent.entries[name].id !in nodes then Err(NotFound(PathOf(names)))
        else Ok(ids + [parent.entries[name].id])
  }

  /** The entry names of an absolute path, empty components skipped. */
  function Components(path: string): (names: seq<string>)
    ensures forall i :: 0 <= i < |names| ==> IsSingleComponent(names[i])
    decreases |path|
  {
    if path == "" then []
    else if path[0] == '/' then Components(path[1..])
    else
      var i := Text.IndexOf(path, '/');
      var k := if i == -1 then |path| else i;
      [path[..k]] + Components(path[k..])
  }

  /** The identities of a chain's nodes, in order. */
  function Ids(chain: seq<Seg>): (ids: seq<NodeId>)
    ensures |ids| == |chain| && forall i :: 0 <= i < |chain| ==> ids[i] == chain[i].id
  {
    seq(|chain|, i requires 0 <= i < |chain| => chain[i].id)
  }

  /**
   * The mutable successor a child gets when it is cloned into a transaction under
   * `parentPath`: the child's content with the child as predecessor, one more
   * predecessor, its new created path, no copy source, and the parent's copy root when
   * the child is not a copy root itself.
   */
  function CloneOf(child: RevNode, childId: NodeId, parent: RevNode, parentPath: string, name: string, isParentCopyRoot: bool): (c: RevNode)
    ensures c.kind == child.kind && c.entries == child.entries && c.props == child.props && c.hasMergeInfo == child.hasMergeInfo
    ensures c.predecessor == Some(childId) && c.count == SuccessorCount(child.count)
    ensures c.copyFromRev == INVALID_REVISION && c.copyFromPath.None?
  {
    child.(predecessor := Some(childId), count := SuccessorCount(child.count),
           createdPath := ChildPath(parentPath, name),
           copyFromRev := INVALID_REVISION, copyFromPath := None,
           copyRootRev := if isParentCopyRoot then parent.copyRootRev else child.copyRootRev,
           copyRootPath := if isParentCopyRoot then parent.copyRootPath else child.copyRootPath)
  }

  /** One step of a parent-path chain: the node, the entry name that leads to it, and how its clone gets a copy number. */
  datatype Seg = Seg(id: NodeId, name: string, style: CopyStyle)

  /**
   * The copy-number inheritance of a child reached through its parent: none needed for a
   * transaction node, the parent's for a child on the parent's line of copies (or never
   * copied), a new one otherwise.
   */
  function StyleOf(parentId: NodeId, childId: NodeId): CopyStyle {
    if childId.IsTxn() then InheritSelf
    else if childId.copyId == Key(0, false) || childId.copyId == parentId.copyId then InheritParent
    else InheritNew
  }

  /** The parent-path chain of resolved identities: the root first, then one step per name. */
  function ChainOf(ids: seq<NodeId>, names: seq<string>): (chain: seq<Seg>)
    requires |ids| == |names| + 1
    ensures |chain| == |ids|
    ensures forall i :: 0 <= i < |chain| ==> chain[i].id == ids[i]
    ensures forall i :: 0 < i < |chain| ==> chain[i].name == names[i - 1]
  {
    seq(|ids|, i requires 0 <= i < |ids| =>
      if i == 0 then Seg(ids[0], "", InheritSelf) else Seg(ids[i], names[i - 1], StyleOf(ids[i - 1], ids[i])))
  }

  /** Each step of a chain up to `k` is the named entry of the directory at the step before it. */
  ghost predicate Linked(nodes: map<NodeId, RevNode>, chain: seq<Seg>, k: nat) {
    k < |chain| && forall i :: 0 <= i < k ==> LinkAt(nodes, chain, i)
  }

  /** Step `i + 1` of a chain is the named entry of the directory at step `i`. */
  ghost predicate LinkAt(nodes: map<NodeId, RevNode>, chain: seq<Seg>, i: nat) {
    i + 1 < |chain| &&
    chain[i].id in nodes && nodes[chain[i].id].kind == Dir && chain[i + 1].name in nodes[chain[i].id].entries &&
    nodes[chain[i].id].entries[chain[i + 1].name].id == chain[i + 1].id
  }

  /** In a closed store, every step above a transaction step of a linked chain is a transaction node too. */
  lemma {:induction false} LinkedTxnAbove(nodes: map<NodeId, RevNode>, chain: seq<Seg>, k: nat)
    requires Closed(nodes) && Linked(nodes, chain, k) && chain[k].id.IsTxn()
    ensures forall i :: 0 <= i <= k ==> chain[i].id.IsTxn()
    decreases k
  {
    if k > 0 {
      assert LinkAt(nodes, chain, k - 1);
      assert chain[k - 1].id.IsTxn();
      assert Linked(nodes, chain, k - 1);
      LinkedTxnAbove(nodes, chain, k - 1);
    }
  }

  /** The absolute path of step `k` of a chain. */
  function ChainPath(chain: seq<Seg>, k: nat): string
    requires k < |chain|
  {
    PathOf(seq(k, i requires 0 <= i < k => chain[i + 1].name))
  }

  /** A chain built from a successful walk is linked along its whole length. */
  lemma WalkChainLinked(nodes: map<NodeId, RevNode>, root: NodeId, names: seq<string>)
    requires Walk(nodes, root, names).Ok?
    ensures Linked(nodes, ChainOf(Walk(nodes, root, names).value, names), |names|)
  {
  }

  /** A linked chain from a node, whose steps carry `names`, is what the walk of those names from that node finds. */
  lemma {:induction false} WalkLinked(nodes: map<NodeId, RevNode>, chain: seq<Seg>, names: seq<string>, k: nat)
    requires k < |chain| && k <= |names| && Linked(nodes, chain, k) && chain[k].id in nodes
    requires forall i :: 0 < i <= k ==> chain[i].name == names[i - 1]
    ensures Walk(nodes, chain[0].id, names[..k]).Ok?
    ensures forall i :: 0 <= i <= k ==> Walk(nodes, chain[0].id, names[..k]).value[i] == chain[i].id
    decreases k
  {
    if k > 0 {
      assert LinkAt(nodes, chain, k - 1);
      assert Linked(nodes, chain, k - 1);
      WalkLinked(nodes, chain, names, k - 1);
      assert names[..k][..k - 1] == names[..k - 1];
    }
  }

  /** `id` is none of the first `k + 1` steps of a chain. */
  predicate OffChain(id: NodeId, chain: seq<Seg>, k: nat)
    requires k < |chain|
  {
    forall i :: 0 <= i <= k ==> chain[i].id != id
  }

  /** The first `k + 1` steps of a chain are distinct nodes: the path visits no node twice, as in any tree. */
  predicate DistinctSteps(chain: seq<Seg>, k: nat)
    requires k < |chain|
  {
    forall i, j :: 0 <= i < j <= k ==> chain[i].id != chain[j].id
  }

  /**
   * `mut` is `chain` with its first `k + 1` steps made transaction nodes of `after`, under
   * the same names and styles; the steps below are untouched, and every node of `before`
   * that is none of the new steps is unchanged.
   */
  ghost predicate MadeMutable(before: map<NodeId, RevNode>, after: map<NodeId, RevNode>, chain: seq<Seg>, mut: seq<Seg>, k: nat) {
    && k < |chain| == |mut| && (forall i :: k < i < |chain| ==> mut[i] == chain[i])
    && (forall i :: 0 <= i <= k ==>
          mut[i].id in after && mut[i].id.IsTxn() && mut[i].name == chain[i].name && mut[i].style == chain[i].style)
    && (forall id :: id in before && OffChain(id, mut, k) ==> id in after && after[id] == before[id])
  }

  /** A step that changes at most the node above step `k` and adds step `k` extends a mutable chain by one step. */
  lemma MadeMutableExtend(before: map<NodeId, RevNode>, mid: map<NodeId, RevNode>, after: map<NodeId, RevNode>,
                          chain: seq<Seg>, up: seq<Seg>, mut: seq<Seg>, above: nat, k: nat)
    requires k == above + 1 && k < |chain| && MadeMutable(before, mid, chain, up, above)
    requires before.Keys <= mid.Keys <= after.Keys
    requires |mut| == |up| && mut == up[k := mut[k]] && mut[k].name == chain[k].name && mut[k].style == chain[k].style
    requires mut[k].id in after && mut[k].id.IsTxn()
    requires forall id :: id in mid && id != up[above].id ==> after[id] == mid[id]
    ensures MadeMutable(before, after, chain, mut, k)
  {
    forall id | id in before && OffChain(id, mut, k)
      ensures id in after && after[id] == before[id]
    {
      forall i | 0 <= i <= above
        ensures up[i].id != id
      {
        assert mut[i] == up[i];
      }
    }
  }

  /**
   * Cloning committed step `k` of a linked chain under the mutable, unchanged copy of the
   * step above keeps the chain linked one step further, and a fresh clone keeps its
   * steps distinct. (The old entry of any earlier step under the replaced name would be
   * the committed node, which a mutable step is not, so no earlier link is touched.)
   */
  lemma LinkedExtend(before: map<NodeId, RevNode>, mid: map<NodeId, RevNode>, after: map<NodeId, RevNode>,
                     chain: seq<Seg>, up: seq<Seg>, mut: seq<Seg>, above: nat, k: nat, kind: Kind)
    requires k == above + 1 && k < |chain| == |up| && !chain[k].id.IsTxn() && Linked(before, chain, k) && LinkAt(before, chain, above)
    requires Linked(mid, up, above) && forall i :: 0 <= i < k ==> up[i].id in mid && up[i].id.IsTxn()
    requires mid[up[above].id].entries == before[chain[above].id].entries && mid[up[above].id].kind == before[chain[above].id].kind
    requires |mut| == |up| && mut == up[k := mut[k]] && mut[k].name == chain[k].name && mut[k].id !in mid
    requires forall id :: id in mid && id != up[above].id ==> id in after && after[id] == mid[id]
    requires up[above].id in after
    requires var p := mid[up[above].id];
      after[up[above].id] == p.(entries := p.entries[chain[k].name := Entry(mut[k].id, kind)])
    ensures Linked(after, mut, k)
    ensures DistinctSteps(up, above) ==> DistinctSteps(mut, k)
  {
    var pid := up[above].id;
    forall i | 0 <= i < k
      ensures LinkAt(after, mut, i)
    {
      if i < above {
        assert LinkAt(mid, up, i);
        if up[i].id == pid {
          assert mid[pid].entries[chain[k].name].id == chain[k].id;
          assert mid[pid].entries[up[i + 1].name].id == up[i + 1].id && up[i + 1].id.IsTxn();
        }
      }
    }
  }

  /** Shifting the merge-info counts of `ids` leaves every other node as it was. */
  lemma {:induction false} IncrementAllFrame(nodes: map<NodeId, RevNode>, ids: seq<NodeId>, inc: int, id: NodeId)
    requires id in nodes && id !in ids
    ensures IncrementAll(nodes, ids, inc)[id] == nodes[id]
    decreases |ids|
  {
    if ids != [] {
      assert id !in ids[..|ids| - 1];
      IncrementAllFrame(Bump(nodes, ids[|ids| - 1], inc), ids[..|ids| - 1], inc, id);
    }
  }

  /**
   * A merge-info adjustment along a chain changes nothing but the counts of the chain's
   * nodes: every link survives, and every node off the chain is unchanged.
   */
  lemma AdjustedShape(after: map<NodeId, RevNode>, unadjusted: map<NodeId, RevNode>, chain: seq<Seg>, delta: int, supported: bool)
    requires |chain| > 0 && MergeInfoAdjusted(after, unadjusted, chain, delta, supported)
    ensures after.Keys == unadjusted.Keys
    ensures forall id :: id in unadjusted ==> after[id] == unadjusted[id].(mergeInfoCount := after[id].mergeInfoCount)
    ensures forall id :: id in unadjusted && OffChain(id, chain, |chain| - 1) ==> after[id] == unadjusted[id]
  {
    if supported && delta != 0 {
      IncrementAllOnlyCounts(unadjusted, Ids(chain), delta);
      forall id | id in unadjusted && OffChain(id, chain, |chain| - 1)
        ensures after[id] == unadjusted[id]
      {
        IncrementAllFrame(unadjusted, Ids(chain), delta, id);
      }
    }
  }

  /**
   * MadeMutable, and when the chain starts at a transaction node (the transaction root):
   * the new chain starts there too, is linked, visits no node twice when the old one
   * did not, and its step `k` has the old step's kind, entries, properties and
   * merge-info flag; a cloned step `k` descends from the node it replaced.
   */
  ghost predicate Mutated(before: map<NodeId, RevNode>, after: map<NodeId, RevNode>, chain: seq<Seg>, mut: seq<Seg>, k: nat) {
    && MadeMutable(before, after, chain, mut, k)
    && (chain[0].id.IsTxn() ==>
          && mut[0] == chain[0] && Linked(after, mut, k) && chain[k].id in before
          && (DistinctSteps(chain, k) ==> DistinctSteps(mut, k))
          && SameContent(after[mut[k].id], before[chain[k].id])
          && (0 < k && !chain[k].id.IsTxn() ==>
                after[mut[k].id].predecessor == Some(chain[k].id) &&
                after[mut[k].id].count == SuccessorCount(before[chain[k].id].count)))
  }

  /** The last step of a Mutated chain holds the content of the step it replaced. */
  lemma MutatedContent(before: map<NodeId, RevNode>, after: map<NodeId, RevNode>, chain: seq<Seg>, mut: seq<Seg>, k: nat)
    requires Mutated(before, after, chain, mut, k) && chain[0].id.IsTxn()
    ensures mut[k].id in after && chain[k].id in before && SameContent(after[mut[k].id], before[chain[k].id])
  {
  }

  /** Two nodes with the same kind, entries, properties and merge-info flag. */
  predicate SameContent(n: RevNode, o: RevNode) {
    n.kind == o.kind && n.entries == o.entries && n.props == o.props && n.hasMergeInfo == o.hasMergeInfo
  }

  /** A linked chain ending at a transaction node in a closed store is already Mutated, with no change. */
  lemma MutatedUnchanged(nodes: map<NodeId, RevNode>, chain: seq<Seg>, k: nat)
    requires Closed(nodes) && Linked(nodes, chain, k) && chain[k].id.IsTxn()
    requires forall i :: 0 <= i <= k ==> chain[i].id in nodes
    ensures Mutated(nodes, nodes, chain, chain, k)
  {
    LinkedTxnAbove(nodes, chain, k);
  }

  /** Replacing a committed first step by a transaction node of the store makes the chain Mutated up to that step. */
  lemma MutatedRoot(nodes: map<NodeId, RevNode>, chain: seq<Seg>, root: NodeId)
    requires |chain| > 0 && !chain[0].id.IsTxn() && root in nodes && root.IsTxn()
    ensures Mutated(nodes, nodes, chain, chain[0 := chain[0].(id := root)], 0)
  {
    var mut := chain[0 := chain[0].(id := root)];
    assert mut[1..] == chain[1..];
  }

  /**
   * One clone step extends a Mutated chain: `after` is `mid` with step `k` (committed)
   * made mutable by a clone under the mutable step above it (or, when that entry is
   * already a transaction node, by that node and no change).
   */
  lemma MutatedStep(before: map<NodeId, RevNode>, mid: map<NodeId, RevNode>, after: map<NodeId, RevNode>,
                    chain: seq<Seg>, up: seq<Seg>, mut: seq<Seg>, above: nat, k: nat)
    requires k == above + 1 && k < |chain| && !chain[k].id.IsTxn() && Linked(before, chain, k) && before.Keys <= mid.Keys
    requires Mutated(before, mid, chain, up, above) && up[above].id in mid && chain[k].id in before
    requires |mut| == |up| && mut == up[k := Seg(mut[k].id, chain[k].name, chain[k].style)]
    requires mut[k].id in after && mut[k].id.IsTxn() && after.Keys == mid.Keys + {mut[k].id}
    requires forall id :: id in mid && id != up[above].id ==> after[id] == mid[id]
    requires (chain[k].name in mid[up[above].id].entries && mid[up[above].id].entries[chain[k].name].id == chain[k].id) ==>
      && mut[k].id !in mid
      && after[up[above].id] == mid[up[above].id].(entries := mid[up[above].id].entries[chain[k].name := Entry(mut[k].id, mid[chain[k].id].kind)])
      && SameContent(after[mut[k].id], mid[chain[k].id])
      && after[mut[k].id].predecessor == Some(chain[k].id) && after[mut[k].id].count == SuccessorCount(mid[chain[k].id].count)
    requires mid[chain[k].id] == before[chain[k].id]
    ensures Mutated(before, after, chain, mut, k)
  {
    MadeMutableExtend(before, mid, after, chain, up, mut, above, k);
    if chain[0].id.IsTxn() {
      MutatedStepLinked(before, mid, after, chain, up, mut, above, k);
    }
  }

  /** MutatedStep for a chain from a transaction root: the new chain is linked and its last step a successor. */
  lemma MutatedStepLinked(before: map<NodeId, RevNode>, mid: map<NodeId, RevNode>, after: map<NodeId, RevNode>,
                          chain: seq<Seg>, up: seq<Seg>, mut: seq<Seg>, above: nat, k: nat)
    requires k == above + 1 && k < |chain| && !chain[k].id.IsTxn() && Linked(before, chain, k) && before.Keys <= mid.Keys
    requires Mutated(before, mid, chain, up, above) && up[above].id in mid && chain[k].id in before
    requires |mut| == |up| && mut == up[k := Seg(mut[k].id, chain[k].name, chain[k].style)]
    requires mut[k].id in after && mut[k].id.IsTxn() && after.Keys == mid.Keys + {mut[k].id}
    requires forall id :: id in mid && id != up[above].id ==> after[id] == mid[id]
    requires (chain[k].name in mid[up[above].id].entries && mid[up[above].id].entries[chain[k].name].id == chain[k].id) ==>
      && mut[k].id !in mid
      && after[up[above].id] == mid[up[above].id].(entries := mid[up[above].id].entries[chain[k].name := Entry(mut[k].id, mid[chain[k].id].kind)])
      && SameContent(after[mut[k].id], mid[chain[k].id])
      && after[mut[k].id].predecessor == Some(chain[k].id) && after[mut[k].id].count == SuccessorCount(mid[chain[k].id].count)
    requires mid[chain[k].id] == before[chain[k].id]
    requires chain[0].id.IsTxn()
    ensures mut[0] == chain[0] && Linked(after, mut, k) && chain[k].id in before
    ensures DistinctSteps(chain, k) ==> DistinctSteps(mut, k)
    ensures SameContent(after[mut[k].id], before[chain[k].id])
    ensures after[mut[k].id].predecessor == Some(chain[k].id) && after[mut[k].id].count == SuccessorCount(before[chain[k].id].count)
  {
    assert LinkAt(before, chain, above);
    LinkedExtend(before, mid, after, chain, up, mut, above, k, mid[chain[k].id].kind);
  }

  /**
   * The store after entry `names[k]` (k = |names| - 1) of the directory at the end of the
   * parent chain `path` was set to `e`, or removed when `e` is absent: `chain` is that
   * parent chain made mutable, from the same root and under the same names; its last
   * directory holds the old one's entries with only that name changed; and every node
   * of `before` off the chain is unchanged.
   */
  ghost predicate EditedShape(before: map<NodeId, RevNode>, after: map<NodeId, RevNode>, path: seq<Seg>, chain: seq<Seg>,
                              names: seq<string>, e: Option<Entry>) {
    && |names| > 0 && |chain| == |names| <= |path|
    && var k := |names| - 1;
    && chain[0].id == path[0].id && path[k].id in before
    && (forall i :: 0 < i <= k ==> chain[i].name == names[i - 1])
    && (forall i :: 0 <= i <= k ==> chain[i].id in after && chain[i].id.IsTxn())
    && after[chain[k].id].kind == Dir
    && after[chain[k].id].entries == WithEntry(before[path[k].id].entries, names[k], e)
    && (forall id :: id in before && OffChain(id, chain, k) ==> id in after && after[id] == before[id])
  }

  /** EditedShape, and the chain is still linked when the path visits no node twice or the entry is a new name. */
  ghost predicate EntryEdited(before: map<NodeId, RevNode>, after: map<NodeId, RevNode>, path: seq<Seg>, chain: seq<Seg>,
                              names: seq<string>, e: Option<Entry>) {
    && EditedShape(before, after, path, chain, names, e)
    && (DistinctSteps(path, |names| - 1) || (e.Some? && names[|names| - 1] !in before[path[|names| - 1].id].entries) ==>
          Linked(after, chain, |names| - 1))
  }

  /**
   * Making a parent chain mutable, then changing one entry of its last directory and
   * the merge-info counts along it, is an EntryEdited store.
   */
  lemma EntryEditedIntro(before: map<NodeId, RevNode>, mid: map<NodeId, RevNode>, edited: map<NodeId, RevNode>,
                         after: map<NodeId, RevNode>, path: seq<Seg>, mut: seq<Seg>, names: seq<string>,
                         e: Option<Entry>, delta: int, supported: bool)
    requires |names| > 0 && |path| >= |names| && path[0].id.IsTxn()
    requires forall i :: 0 < i < |names| ==> path[i].name == names[i - 1]
    requires Mutated(before, mid, path, mut, |names| - 1) && before[path[|names| - 1].id].kind == Dir
    requires var p := mut[|names| - 1].id;
      && mid.Keys <= edited.Keys
      && (forall id :: id in mid && id != p ==> edited[id] == mid[id])
      && edited[p] == mid[p].(entries := WithEntry(mid[p].entries, names[|names| - 1], e))
    requires MergeInfoAdjusted(after, edited, mut[..|names|], delta, supported)
    ensures EntryEdited(before, after, path, mut[..|names|], names, e)
  {
    var k := |names| - 1;
    EditedShapeIntro(before, mid, edited, after, path, mut, names, e, delta, supported);
    if DistinctSteps(path, k) || (e.Some? && names[k] !in before[path[k].id].entries) {
      AdjustedShape(after, edited, mut[..k + 1], delta, supported);
      LinkedEdit(mid, edited, mut, k, names[k], e);
      LinkedReshaped(edited, after, mut, k);
    }
  }

  /** The shape half of EntryEditedIntro. */
  lemma EditedShapeIntro(before: map<NodeId, RevNode>, mid: map<NodeId, RevNode>, edited: map<NodeId, RevNode>,
                         after: map<NodeId, RevNode>, path: seq<Seg>, mut: seq<Seg>, names: seq<string>,
                         e: Option<Entry>, delta: int, supported: bool)
    requires |names| > 0 && |path| >= |names| && path[0].id.IsTxn()
    requires forall i :: 0 < i < |names| ==> path[i].name == names[i - 1]
    requires Mutated(before, mid, path, mut, |names| - 1) && before[path[|names| - 1].id].kind == Dir
    requires var p := mut[|names| - 1].id;
      && mid.Keys <= edited.Keys
      && (forall id :: id in mid && id != p ==> edited[id] == mid[id])
      && edited[p] == mid[p].(entries := WithEntry(mid[p].entries, names[|names| - 1], e))
    requires MergeInfoAdjusted(after, edited, mut[..|names|], delta, supported)
    ensures EditedShape(before, after, path, mut[..|names|], names, e)
  {
    var k := |names| - 1;
    var chain := mut[..k + 1];
    EditedBeforeAdjust(before, mid, edited, path, mut, names, e);
    AdjustedShape(after, edited, chain, delta, supported);
  }

  /** Editing one entry of the last directory of a mutated chain, before any count changes. */
  lemma EditedBeforeAdjust(before: map<NodeId, RevNode>, mid: map<NodeId, RevNode>, edited: map<NodeId, RevNode>,
                           path: seq<Seg>, mut: seq<Seg>, names: seq<string>, e: Option<Entry>)
    requires |names| > 0 && |path| >= |names| && |mut| == |path| && mut[0] == path[0] && path[|names| - 1].id in before
    requires forall i :: 0 < i < |names| ==> path[i].name == names[i - 1]
    requires forall i :: 0 <= i < |names| ==> mut[i].id in mid && mut[i].id.IsTxn() && mut[i].name == path[i].name
    requires forall id :: id in before && OffChain(id, mut, |names| - 1) ==> id in mid && mid[id] == before[id]
    requires var p, o := mut[|names| - 1].id, before[path[|names| - 1].id];
      && mid[p].kind == o.kind == Dir && mid[p].entries == o.entries
      && mid.Keys <= edited.Keys
      && (forall id :: id in mid && id != p ==> edited[id] == mid[id])
      && edited[p] == mid[p].(entries := WithEntry(mid[p].entries, names[|names| - 1], e))
    ensures EditedShape(before, edited, path, mut[..|names|], names, e)
  {
    var k := |names| - 1;
    var chain := mut[..k + 1];
    assert forall i :: 0 <= i <= k ==> chain[i] == mut[i];
    forall id | id in before && OffChain(id, chain, k)
      ensures id in edited && edited[id] == before[id]
    {
      OffChainPrefix(id, mut, k);
    }
  }

  /** Being off the first `k + 1` steps of a chain is being off those of its prefix. */
  lemma OffChainPrefix(id: NodeId, chain: seq<Seg>, k: nat)
    requires k < |chain|
    ensures OffChain(id, chain[..k + 1], k) <==> OffChain(id, chain, k)
  {
    assert forall i :: 0 <= i <= k ==> chain[..k + 1][i] == chain[i];
  }

  /**
   * Changing one name of the last directory of a linked chain keeps the chain linked when
   * no earlier step is that directory, or when the name is new there.
   */
  lemma LinkedEdit(mid: map<NodeId, RevNode>, edited: map<NodeId, RevNode>, chain: seq<Seg>, k: nat, name: string, e: Option<Entry>)
    requires Linked(mid, chain, k) && chain[k].id in mid && mid.Keys <= edited.Keys
    requires forall id :: id in mid && id != chain[k].id ==> edited[id] == mid[id]
    requires edited[chain[k].id] == mid[chain[k].id].(entries := WithEntry(mid[chain[k].id].entries, name, e))
    requires DistinctSteps(chain, k) || (e.Some? && name !in mid[chain[k].id].entries)
    ensures Linked(edited, chain, k)
  {
    var p := chain[k].id;
    forall i | 0 <= i < k
      ensures LinkAt(edited, chain, i)
    {
      assert LinkAt(mid, chain, i);
    }
  }

  /** Changing nothing but merge-info counts keeps the links of a chain, also of its prefix. */
  lemma LinkedReshaped(edited: map<NodeId, RevNode>, after: map<NodeId, RevNode>, chain: seq<Seg>, k: nat)
    requires Linked(edited, chain, k) && after.Keys == edited.Keys
    requires forall id :: id in edited ==> after[id] == edited[id].(mergeInfoCount := after[id].mergeInfoCount)
    ensures Linked(after, chain[..k + 1], k)
  {
    var prefix := chain[..k + 1];
    forall i | 0 <= i < k
      ensures LinkAt(after, prefix, i)
    {
      assert LinkAt(edited, chain, i);
      assert prefix[i] == chain[i] && prefix[i + 1] == chain[i + 1];
    }
  }

  /**
   * The paths an EntryEdited store resolves, from the root: the parent path leads to the
   * chain's last directory, and the whole path leads to the node of the new entry, or
   * nowhere when the entry was removed.
   */
  lemma EditedWalk(before: map<NodeId, RevNode>, after: map<NodeId, RevNode>, path: seq<Seg>, chain: seq<Seg>,
                   names: seq<string>, e: Option<Entry>)
    requires EditedShape(before, after, path, chain, names, e) && Linked(after, chain, |names| - 1)
    requires e.Some? ==> e.value.id in after
    ensures Walk(after, path[0].id, names[..|names| - 1]).Ok?
    ensures Walk(after, path[0].id, names[..|names| - 1]).value[|names| - 1] == chain[|names| - 1].id
    ensures e.None? ==> Walk(after, path[0].id, names) == Err(NotFound(PathOf(names)))
    ensures e.Some? ==> Walk(after, path[0].id, names) == Ok(Walk(after, path[0].id, names[..|names| - 1]).value + [e.value.id])
  {
    var k := |names| - 1;
    WalkLinked(after, chain, names, k);
    var w := Walk(after, path[0].id, names[..k]);
    assert w.value[k] == chain[k].id;
    assert Get(after[chain[k].id].entries, names[k]) == e;
  }

  /** `after` keeps the nodes of `before`, and every one of them but `p` as it was. */
  ghost predicate OnlyAt(before: map<NodeId, RevNode>, after: map<NodeId, RevNode>, p: NodeId) {
    before.Keys <= after.Keys && forall id :: id in before && id != p ==> after[id] == before[id]
  }

  /** Adding node `created` and entering it in directory `p` changes no other node. */
  lemma EnteredFrame(mid: map<NodeId, RevNode>, after: map<NodeId, RevNode>, p: NodeId, created: NodeId, n: RevNode, e: Entry, name: string)
    requires p in mid && created !in mid
    requires after == mid[created := n][p := mid[p].(entries := mid[p].entries[name := e])]
    ensures mid.Keys <= after.Keys && created in after && after[created] == n
    ensures forall id :: id in mid && id != p ==> after[id] == mid[id]
    ensures after[p] == mid[p].(entries := WithEntry(mid[p].entries, name, Some(e)))
  {
  }

  /** Changing anything but kinds and entries keeps the links of a chain. */
  lemma LinkedSameEntries(a: map<NodeId, RevNode>, b: map<NodeId, RevNode>, chain: seq<Seg>, k: nat)
    requires Linked(a, chain, k) && a.Keys <= b.Keys
    requires forall id :: id in a ==> b[id].kind == a[id].kind && b[id].entries == a[id].entries
    ensures Linked(b, chain, k)
  {
    forall i | 0 <= i < k
      ensures LinkAt(b, chain, i)
    {
      assert LinkAt(a, chain, i);
    }
  }

  /**
   * Making a path mutable, then rewriting the properties of its last node and adjusting
   * the counts along it, leaves the new chain linked, every node off it unchanged, and
   * its last node with the old node's kind and entries and the property written.
   */
  lemma PropertyShape(before: map<NodeId, RevNode>, mid: map<NodeId, RevNode>, unadjusted: map<NodeId, RevNode>,
                      after: map<NodeId, RevNode>, path: seq<Seg>, mut: seq<Seg>, k: nat,
                      name: string, value: Option<string>, delta: int, supported: bool)
    requires |path| == k + 1 && path[0].id.IsTxn() && Mutated(before, mid, path, mut, k)
    requires mut[k].id in unadjusted && unadjusted == mid[mut[k].id := unadjusted[mut[k].id]]
    requires unadjusted[mut[k].id].kind == mid[mut[k].id].kind && unadjusted[mut[k].id].entries == mid[mut[k].id].entries
    requires unadjusted[mut[k].id].props == WithProp(mid[mut[k].id].props, name, value)
    requires MergeInfoAdjusted(after, unadjusted, mut, delta, supported)
    ensures Linked(after, mut, k)
    ensures forall id :: id in before && OffChain(id, mut, k) ==> id in after && after[id] == before[id]
    ensures after[mut[k].id].kind == before[path[k].id].kind && after[mut[k].id].entries == before[path[k].id].entries
    ensures after[mut[k].id].props == WithProp(before[path[k].id].props, name, value)
  {
    LinkedSameEntries(mid, unadjusted, mut, k);
    AdjustedShape(after, unadjusted, mut, delta, supported);
    LinkedSameEntries(unadjusted, after, mut, k);
  }

  /** What the merge does with an entry of the ancestor directory, given the source's and the target's entry of that name. */
  datatype EntryAction = Keep | TakeSource(e: Entry) | DropEntry | ConflictAt | Recurse

  /** Whether two identities are on the same node and the same line of copies. */
  predicate SameLine(a: NodeId, b: NodeId) {
    a.nodeId == b.nodeId && a.copyId == b.copyId
  }

  /**
   * The three-way rule for one ancestor entry: unchanged in the source keeps the target;
   * unchanged in the target takes the source (or drops the entry the source deleted);
   * changed on both sides recurses only when both still exist, all three are directories
   * on the ancestor's line of copies, and is a conflict otherwise.
   */
  function Classify(a: Entry, s: Option<Entry>, t: Option<Entry>): (act: EntryAction)
    ensures act == Keep <==> s.Some? && s.value.id == a.id
    ensures act.TakeSource? <==> !(s.Some? && s.value.id == a.id) && t.Some? && t.value.id == a.id && s.Some?
    ensures act.TakeSource? ==> act.e == s.value
    ensures act == DropEntry <==> s.None? && t.Some? && t.value.id == a.id
    ensures act == Recurse <==>
      (s.Some? && t.Some? && s.value.id != a.id && t.value.id != a.id &&
       s.value.kind == Dir && t.value.kind == Dir && a.kind == Dir &&
       SameLine(s.value.id, a.id) && SameLine(t.value.id, a.id))
  {
    if s.Some? && a.id == s.value.id then Keep
    else if t.Some? && a.id == t.value.id then (if s.Some? then TakeSource(s.value) else DropEntry)
    else if s.None? || t.None? then ConflictAt
    else if s.value.kind == File || t.value.kind == File || a.kind == File then ConflictAt
    else if !SameLine(s.value.id, a.id) || !SameLine(t.value.id, a.id) then ConflictAt
    else
      assert s.value.kind == Dir && t.value.kind == Dir && a.kind == Dir;
      assert s.value.id != a.id && t.value.id != a.id;
      Recurse
  }

  /**
   * The entry the merged target directory has under `name`: the rule of Classify for
   * an ancestor name, the source's entry for a name only the source added, and the
   * target's own entry otherwise.
   */
  function MergedEntry(a: map<string, Entry>, s: map<string, Entry>, t: map<string, Entry>, name: string): Option<Entry> {
    if name in a then
      match Classify(a[name], Get(s, name), Get(t, name))
      case TakeSource(e) => Some(e)
      case DropEntry => None
      case _ => Get(t, name)
    else if name in s then Some(s[name])
    else Get(t, name)
  }

  /** No entry of the three directories is in conflict at this level. */
  predicate NoEntryConflict(a: map<string, Entry>, s: map<string, Entry>, t: map<string, Entry>) {
    && (forall n :: n in a ==> Classify(a[n], Get(s, n), Get(t, n)) != ConflictAt)
    && (forall n :: n in s && n !in a ==> n !in t)
  }

  /** The merge of a directory goes into a subdirectory for some entry. */
  predicate NeedsRecursion(a: map<string, Entry>, s: map<string, Entry>, t: map<string, Entry>) {
    exists n :: n in a && Classify(a[n], Get(s, n), Get(t, n)) == Recurse
  }

  /**
   * Fast-forward: when the transaction left a directory as it was in the ancestor, the
   * merge meets no conflict and the merged directory names exactly the source's nodes.
   */
  lemma MergeFastForward(a: map<string, Entry>, s: map<string, Entry>, t: map<string, Entry>)
    requires t == a
    ensures NoEntryConflict(a, s, t) && !NeedsRecursion(a, s, t)
    ensures forall n :: (MergedEntry(a, s, t, n).Some? <==> n in s)
    ensures forall n :: n in s ==> MergedEntry(a, s, t, n).value.id == s[n].id
  {
    forall n | n in s
      ensures MergedEntry(a, s, t, n).Some? && MergedEntry(a, s, t, n).value.id == s[n].id
    {
      if n in a {
        var act := Classify(a[n], Get(s, n), Get(t, n));
        assert act == Keep || act.TakeSource?;
      }
    }
  }

  /** When the source left a directory as it was in the ancestor, the merged directory is the target's. */
  lemma MergeKeepsTargetChanges(a: map<string, Entry>, s: map<string, Entry>, t: map<string, Entry>)
    requires s == a
    ensures NoEntryConflict(a, s, t) && !NeedsRecursion(a, s, t)
    ensures forall n :: MergedEntry(a, s, t, n) == Get(t, n)
  {
  }

  /** Two sides that replaced the same file entry by different nodes conflict at that entry. */
  lemma MergeBothChangedFileConflicts(a: Entry, s: Entry, t: Entry)
    requires s.id != a.id && t.id != a.id && (a.kind == File || s.kind == File || t.kind == File)
    ensures Classify(a, Some(s), Some(t)) == ConflictAt
  {
  }

  /** The target directory's entries after applying one entry action. */
  function Applied(entries: map<string, Entry>, name: string, act: EntryAction): (r: map<string, Entry>)
    ensures act.TakeSource? ==> Get(r, name) == Some(act.e)
    ensures act == DropEntry ==> Get(r, name) == None
    ensures !act.TakeSource? && act != DropEntry ==> r == entries
    ensures forall n :: n != name ==> Get(r, n) == Get(entries, n)
  {
    match act
    case TakeSource(e) => WithEntry(entries, name, Some(e))
    case DropEntry => WithEntry(entries, name, None)
    case _ => entries
  }

  /** The target's entries once the merge has handled the names of `done`: merged there, as before elsewhere. */
  ghost predicate MergedUpTo(cur: map<string, Entry>, a: map<string, Entry>, s: map<string, Entry>, t: map<string, Entry>, done: set<string>) {
    forall n :: Get(cur, n) == if n in done then MergedEntry(a, s, t, n) else Get(t, n)
  }

  /** Handling one more ancestor name extends the merged part by that name. */
  lemma {:induction false} MergedAncestorStep(cur: map<string, Entry>, a: map<string, Entry>, s: map<string, Entry>, t: map<string, Entry>,
                                              done: set<string>, name: string)
    requires MergedUpTo(cur, a, s, t, done) && name in a && name !in done
    requires Classify(a[name], Get(s, name), Get(t, name)) != ConflictAt
    ensures MergedUpTo(Applied(cur, name, Classify(a[name], Get(s, name), Get(t, name))), a, s, t, done + {name})
  {
    var act := Classify(a[name], Get(s, name), Get(t, name));
    var next := Applied(cur, name, act);
    forall n
      ensures Get(next, n) == if n in done + {name} then MergedEntry(a, s, t, n) else Get(t, n)
    {
      if n == name {
        assert Get(cur, n) == Get(t, n);
      } else {
        assert Get(next, n) == Get(cur, n);
      }
    }
  }

  /** Handling one more name only the source has extends the merged part by that name. */
  lemma {:induction false} MergedSourceStep(cur: map<string, Entry>, a: map<string, Entry>, s: map<string, Entry>, t: map<string, Entry>,
                                            done: set<string>, name: string)
    requires MergedUpTo(cur, a, s, t, done) && name in s && name !in a
    ensures MergedUpTo(WithEntry(cur, name, Some(s[name])), a, s, t, done + {name})
  {
    var next := WithEntry(cur, name, Some(s[name]));
    forall n
      ensures Get(next, n) == if n in done + {name} then MergedEntry(a, s, t, n) else Get(t, n)
    {
      if n != name {
        assert Get(next, n) == Get(cur, n);
      }
    }
  }

  /** Once every ancestor and source name is handled, every entry of the target is the merged one. */
  lemma {:induction false} MergedAll(cur: map<string, Entry>, a: map<string, Entry>, s: map<string, Entry>, t: map<string, Entry>,
                                     done: set<string>)
    requires MergedUpTo(cur, a, s, t, done) && a.Keys + s.Keys <= done
    ensures forall n :: Get(cur, n) == MergedEntry(a, s, t, n)
  {
    forall n
      ensures Get(cur, n) == MergedEntry(a, s, t, n)
    {
      if n !in done {
        assert n !in a && n !in s;
      }
    }
  }

  /**
   * The kind of change a path ends up with when a change log is folded: a later change
   * replaces an earlier one, except that a modification keeps an earlier addition or
   * replacement, a deletion after an addition in the same transaction leaves no change,
   * and an addition after a deletion is a replacement.
   */
  function FoldChange(prev: Option<ChangeKind>, next: ChangeKind): Option<ChangeKind> {
    match prev
    case None => Some(next)
    case Some(p) =>
      if next == Modify && (p == Add || p == Replace) then Some(p)
      else if next == Delete && p == Add then None
      else if (next == Add || next == Replace) && p == Delete then Some(Replace)
      else Some(next)
  }

  /** The changed paths of a transaction with the folded kind of change of each. */
  function ChangedPaths(changes: seq<PathChange>): (m: map<string, ChangeKind>)
    ensures forall p :: p in m ==> exists i :: 0 <= i < |changes| && changes[i].path == p
    decreases |changes|
  {
    if changes == [] then map[]
    else
      var m := ChangedPaths(changes[..|changes| - 1]);
      var c := changes[|changes| - 1];
      var prev := if c.path in m then Some(m[c.path]) else None;
      match FoldChange(prev, c.kind)
      case None => m - {c.path}
      case Some(k) => m[c.path := k]
  }
}
