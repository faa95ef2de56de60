/**
 * The FSFS commit engine: the tree mutations of a transaction (delete, property change,
 * copy, new file or directory), the copy-on-write cloning of a path into the
 * transaction, the merge-info counts kept along the tree, the three-way merge against
 * the youngest revision, and the commit with its out-of-date retry.
 */
module FsCommitter {
  import opened Results
  import opened FsTypes
  import opened FsStore
  import opened FsMerge
  import FsLocks

  /** The errors copy-on-write cloning of a path can meet: an inconsistent store or a malformed entry name. */
  predicate CloneFault(e: FsError) {
    e == Unknown || e == NotSinglePathComponent || e == NotDirectory || e.NotFound?
  }

  /** The change a copy logs: a replacement when the destination name was taken, an addition otherwise. */
  function ReplaceKind(target: Option<Entry>): ChangeKind {
    if target.Some? then Replace else Add
  }

  /** The merge-info count a copy replaces: the old destination's, when there was one and merge info is kept. */
  function ReplacedCount(before: map<NodeId, RevNode>, target: Option<Entry>, supported: bool): int {
    if target.Some? && target.value.id in before && supported then before[target.value.id].mergeInfoCount else 0
  }

  /** The commit engine of one transaction (FSCommitter). */
  class Committer {
    const repo: Repository
    const txn: Transaction
    const author: Option<string>
    const lockTokens: set<string>

    /**
     * The transaction root is a node of this transaction, and the next-id record is
     * ahead of every transaction-local number in the store.
     */
    ghost predicate Valid()
      reads this, repo, txn
    {
      txn.rootId in repo.nodes && txn.rootId.origin == InTxn(txn.txnId) &&
      KeysFresh(repo.nodes, txn.nextNodeKey, txn.nextCopyKey) && Closed(repo.nodes)
    }

    constructor (repo: Repository, txn: Transaction, author: Option<string>, lockTokens: set<string>)
      ensures this.repo == repo && this.txn == txn && this.author == author && this.lockTokens == lockTokens
    {
      this.repo := repo;
      this.txn := txn;
      this.author := author;
      this.lockTokens := lockTokens;
    }

    /** Sets (or removes) an entry of a transaction directory. */
    method SetEntry(parentId: NodeId, name: string, e: Option<Entry>) returns (r: Result<(), FsError>)
      requires Valid() && parentId in repo.nodes
      modifies repo`nodes
      ensures Valid()
      ensures old(repo.nodes)[parentId].kind != Dir ==> r == Err(NotDirectory)
      ensures old(repo.nodes)[parentId].kind == Dir && !parentId.IsTxn() ==> r == Err(NotMutable)
      ensures r.Ok? <==> old(repo.nodes)[parentId].kind == Dir && parentId.IsTxn()
      ensures r.Ok? ==> repo.nodes == old(repo.nodes)[parentId :=
        old(repo.nodes)[parentId].(entries := WithEntry(old(repo.nodes)[parentId].entries, name, e))]
      ensures r.Err? ==> repo.nodes == old(repo.nodes)
      ensures Preserves(old(repo.nodes), repo.nodes)
    {
      var parent := repo.nodes[parentId];
      if parent.kind != Dir {
        return Err(NotDirectory);
      }
      if !parentId.IsTxn() {
        return Err(NotMutable);
      }
      repo.nodes := repo.nodes[parentId := parent.(entries := WithEntry(parent.entries, name, e))];
      return Ok(());
    }

    /** Hands out the next transaction-local copy number; no node of the store carries it yet. */
    method ReserveCopyId() returns (k: Key)
      requires Valid()
      modifies txn`nextCopyKey
      ensures Valid()
      ensures k == Key(old(txn.nextCopyKey), true) && txn.nextCopyKey == old(txn.nextCopyKey) + 1
      ensures forall id :: id in repo.nodes ==> id.copyId != k
    {
      k := Key(txn.nextCopyKey, true);
      txn.nextCopyKey := txn.nextCopyKey + 1;
    }

    /** Stores a new transaction node under the next transaction-local node number. */
    method CreateNode(node: RevNode, copyId: Key) returns (id: NodeId)
      requires Valid() && (copyId.local ==> copyId.n < txn.nextCopyKey)
      modifies repo`nodes, txn`nextNodeKey
      ensures Valid()
      ensures id == NodeId(Key(old(txn.nextNodeKey), true), copyId, InTxn(txn.txnId))
      ensures id !in old(repo.nodes) && repo.nodes == old(repo.nodes)[id := node]
      ensures txn.nextNodeKey == old(txn.nextNodeKey) + 1
      ensures Preserves(old(repo.nodes), repo.nodes)
    {
      id := NodeId(Key(txn.nextNodeKey, true), copyId, InTxn(txn.txnId));
      txn.nextNodeKey := txn.nextNodeKey + 1;
      repo.nodes := repo.nodes[id := node];
    }

    /** Appends one record to the transaction's change log. */
    method AddChange(path: string, id: NodeId, kind: ChangeKind, textModified: bool, propsModified: bool,
                     copyFromRev: int, copyFromPath: Option<string>, nodeKind: Kind)
      modifies txn`changes
      ensures txn.changes == old(txn.changes) + [PathChange(path, id, kind, textModified, propsModified, copyFromRev, copyFromPath, nodeKind)]
    {
      txn.changes := txn.changes + [PathChange(path, id, kind, textModified, propsModified, copyFromRev, copyFromPath, nodeKind)];
    }

    /** Shifts the merge-info counts of a whole chain by `delta` when the repository supports merge info. */
    method AdjustMergeInfo(chain: seq<Seg>, delta: int)
      requires Valid() && |chain| > 0
      requires forall i :: 0 <= i < |chain| ==> chain[i].id in repo.nodes && chain[i].id.IsTxn()
      modifies repo`nodes
      ensures Valid() && Preserves(old(repo.nodes), repo.nodes)
      ensures MergeInfoAdjusted(repo.nodes, old(repo.nodes), chain, delta, repo.supportsMergeInfo)
    {
      if repo.supportsMergeInfo && delta != 0 {
        assert chain[..|chain|] == chain;
        IncrementMergeInfoUpTree(chain, |chain| - 1, delta);
      }
    }

    /** Adds `inc` to the merge-info count of every node of the chain from `chain[k]` up to the root. */
    method IncrementMergeInfoUpTree(chain: seq<Seg>, k: nat, inc: int)
      requires Valid() && k < |chain|
      requires forall i :: 0 <= i <= k ==> chain[i].id in repo.nodes && chain[i].id.IsTxn()
      modifies repo`nodes
      ensures Valid()
      ensures repo.nodes == IncrementAll(old(repo.nodes), Ids(chain[..k + 1]), inc)
      ensures Preserves(old(repo.nodes), repo.nodes)
    {
      ghost var ids := Ids(chain[..k + 1]);
      var i := k + 1;
      assert ids[..k + 1] == ids;
      while i > 0
        invariant 0 <= i <= k + 1
        invariant Valid() && repo.nodes.Keys == old(repo.nodes).Keys
        invariant Preserves(old(repo.nodes), repo.nodes)
        invariant IncrementAll(repo.nodes, ids[..i], inc) == IncrementAll(old(repo.nodes), ids, inc)
      {
        i := i - 1;
        var id := chain[i].id;
        assert ids[i] == id;
        ghost var before := repo.nodes;
        BumpTxn(before, id, inc, txn.nextNodeKey, txn.nextCopyKey);
        repo.nodes := Bump(repo.nodes, id, inc);
        PreservesTransitive(old(repo.nodes), before, repo.nodes);
        IncrementAllStep(before, ids, i, inc);
      }
    }

    /**
     * Clones entry `name` of the transaction directory `parentId` into the transaction
     * (unless it is a transaction node already) and points the entry at the clone; the
     * store gains the clone and the parent's entry, and nothing else changes.
     */
    method CloneChild(parentId: NodeId, parentPath: string, name: string, copyId: Option<Key>, isParentCopyRoot: bool)
      returns (r: Result<NodeId, FsError>)
      requires Valid() && parentId in repo.nodes
      requires copyId.Some? && copyId.value.local ==> copyId.value.n < txn.nextCopyKey
      modifies repo`nodes
      ensures Valid()
      ensures Preserves(old(repo.nodes), repo.nodes)
      ensures !parentId.IsTxn() ==> r == Err(NotMutable)
      ensures parentId.IsTxn() && !IsSingleComponent(name) ==> r == Err(NotSinglePathComponent)
      ensures parentId.IsTxn() && IsSingleComponent(name) && old(repo.nodes)[parentId].kind != Dir ==> r == Err(NotDirectory)
      ensures r.Err? ==> CloneFault(r.error) || (r.error == NotMutable && !parentId.IsTxn())
      ensures r.Ok? ==> parentId.IsTxn() && r.value.IsTxn() && r.value in repo.nodes && old(repo.nodes)[parentId].kind == Dir
      ensures r.Ok? ==> name in repo.nodes[parentId].entries && repo.nodes[parentId].entries[name].id == r.value
      ensures r.Ok? ==> name in old(repo.nodes)[parentId].entries && old(repo.nodes)[parentId].entries[name].id in old(repo.nodes)
      ensures r.Ok? && old(repo.nodes)[parentId].entries[name].id.IsTxn() ==>
        r.value == old(repo.nodes)[parentId].entries[name].id && repo.nodes == old(repo.nodes)
      ensures r.Ok? && !old(repo.nodes)[parentId].entries[name].id.IsTxn() ==>
        var childId, p := old(repo.nodes)[parentId].entries[name].id, old(repo.nodes)[parentId];
        var clone := CloneOf(old(repo.nodes)[childId], childId, p, parentPath, name, isParentCopyRoot);
        && r.value == NodeId(childId.nodeId, if copyId.Some? then copyId.value else childId.copyId, InTxn(txn.txnId))
        && r.value !in old(repo.nodes)
        && repo.nodes == old(repo.nodes)[r.value := clone][parentId := p.(entries := p.entries[name := Entry(r.value, clone.kind)])]
      ensures r == Err(Unknown) ==>
        name in old(repo.nodes)[parentId].entries &&
        var childId := old(repo.nodes)[parentId].entries[name].id;
        NodeId(childId.nodeId, if copyId.Some? then copyId.value else childId.copyId, InTxn(txn.txnId)) in old(repo.nodes)
      ensures r.Err? ==> repo.nodes == old(repo.nodes)
    {
      var parent := repo.nodes[parentId];
      if !parentId.IsTxn() {
        return Err(NotMutable);
      }
      if !IsSingleComponent(name) {
        return Err(NotSinglePathComponent);
      }
      if parent.kind != Dir {
        return Err(NotDirectory);
      }
      if name !in parent.entries || parent.entries[name].id !in repo.nodes {
        return Err(NotFound(ChildPath(parentPath, name)));
      }
      var childId := parent.entries[name].id;
      if childId.IsTxn() {
        return Ok(childId);
      }
      var clone := CloneOf(repo.nodes[childId], childId, parent, parentPath, name, isParentCopyRoot);
      var newId := NodeId(childId.nodeId, if copyId.Some? then copyId.value else childId.copyId, InTxn(txn.txnId));
      if newId in repo.nodes {
        // the clone's identity is taken: the store's numbering is inconsistent
        return Err(Unknown);
      }
      repo.nodes := repo.nodes[newId := clone];
      var linked := SetEntry(parentId, name, Some(Entry(newId, clone.kind)));
      assert linked.Ok?;
      return Ok(newId);
    }

    /** The parent-path chain of an existing path of the transaction: the root, then one step per name. */
    function OpenPath(names: seq<string>): (r: Result<seq<Seg>, FsError>)
      reads repo, txn
      ensures r.Ok? ==> |r.value| == |names| + 1 && r.value[0].id == txn.rootId
      ensures r.Ok? ==> forall i :: 0 <= i < |r.value| ==> r.value[i].id in repo.nodes
      ensures r.Ok? ==> Linked(repo.nodes, r.value, |names|)
      ensures r.Ok? ==> forall i :: 0 < i <= |names| ==> r.value[i].name == names[i - 1]
      ensures r.Err? ==> r.error == NotDirectory || r.error.NotFound?
    {
      match Walk(repo.nodes, txn.rootId, names)
      case Err(e) => Err(e)
      case Ok(ids) =>
        WalkChainLinked(repo.nodes, txn.rootId, names);
        Ok(ChainOf(ids, names))
    }

    /** The parent path of a non-empty path resolves, and its last step is node `parent`. */
    ghost predicate ParentAt(names: seq<string>, parent: NodeId)
      reads repo, txn
    {
      && |names| > 0
      && OpenPath(names[..|names| - 1]).Ok?
      && OpenPath(names[..|names| - 1]).value[|names| - 1].id == parent
    }

    /**
     * After an entry edit along a linked chain from the transaction root, the parent path
     * resolves to the chain's last directory, and the path itself to the new entry's node,
     * or to nothing when the entry was removed.
     */
    lemma EditedOpenPath(before: map<NodeId, RevNode>, path: seq<Seg>, chain: seq<Seg>, names: seq<string>, e: Option<Entry>)
      requires EditedShape(before, repo.nodes, path, chain, names, e) && Linked(repo.nodes, chain, |names| - 1)
      requires path[0].id == txn.rootId && (e.Some? ==> e.value.id in repo.nodes)
      ensures ParentAt(names, chain[|names| - 1].id)
      ensures e.None? ==> OpenPath(names) == Err(NotFound(PathOf(names)))
      ensures e.Some? ==> OpenPath(names).Ok? && OpenPath(names).value[|names|].id == e.value.id
    {
      EditedWalk(before, repo.nodes, path, chain, names, e);
    }

    /**
     * The chain of the parent directory of a path that need not exist, and the node the
     * path names when it does.
     */
    function OpenParent(names: seq<string>): (r: Result<(seq<Seg>, Option<Entry>), FsError>)
      requires |names| > 0
      reads repo, txn
      ensures r.Ok? ==> |r.value.0| == |names| && r.value.0[0].id == txn.rootId
      ensures r.Ok? ==> forall i :: 0 <= i < |r.value.0| ==> r.value.0[i].id in repo.nodes
      ensures r.Ok? ==> Linked(repo.nodes, r.value.0, |names| - 1)
      ensures r.Ok? ==> repo.nodes[r.value.0[|names| - 1].id].kind == Dir
      ensures r.Ok? ==> r.value.1 == Get(repo.nodes[r.value.0[|names| - 1].id].entries, names[|names| - 1])
      ensures r.Ok? && r.value.1.Some? ==> r.value.1.value.id in repo.nodes
      ensures r.Ok? ==> forall i :: 0 < i < |names| ==> r.value.0[i].name == names[i - 1]
    {
      match OpenPath(names[..|names| - 1])
      case Err(e) => Err(e)
      case Ok(chain) =>
        var parent := repo.nodes[chain[|chain| - 1].id];
        var name := names[|names| - 1];
        if parent.kind != Dir then Err(NotDirectory)
        else if name in parent.entries && parent.entries[name].id !in repo.nodes then Err(NotFound(PathOf(names)))
        else Ok((chain, Get(parent.entries, name)))
    }

    /**
     * Makes step `k` of a chain, and every step above it, a transaction node: the root
     * becomes the transaction root, any other committed node is cloned under its
     * (already mutable) parent with the copy number its inheritance style calls for.
     * Steps below `k` are left as they are, and so is every node off the new steps.
     */
    method MakePathMutable(chain: seq<Seg>, k: nat, errorPath: string) returns (r: Result<seq<Seg>, FsError>)
      requires Valid() && k < |chain|
      requires forall i :: 0 <= i <= k ==> chain[i].id in repo.nodes
      requires Linked(repo.nodes, chain, k)
      modifies repo`nodes, txn`nextCopyKey
      decreases k, 1
      ensures Valid()
      ensures Preserves(old(repo.nodes), repo.nodes)
      ensures chain[k].id.IsTxn() ==>
        r == Ok(chain) && repo.nodes == old(repo.nodes) && txn.nextCopyKey == old(txn.nextCopyKey)
      ensures k == 0 && !chain[0].id.IsTxn() ==>
        repo.nodes == old(repo.nodes) &&
        r == (if BaseRoot() == Some(txn.rootId) then Err(Unknown) else Ok(chain[0 := chain[0].(id := txn.rootId)]))
      ensures r.Err? ==> CloneFault(r.error)
      ensures r.Ok? ==> Mutated(old(repo.nodes), repo.nodes, chain, r.value, k)
      ensures r.Ok? && 0 < k ==>
        chain[k].name in repo.nodes[r.value[k - 1].id].entries &&
        repo.nodes[r.value[k - 1].id].entries[chain[k].name].id == r.value[k].id
    {
      if chain[k].id.IsTxn() {
        MutatedUnchanged(repo.nodes, chain, k);
        if 0 < k {
          assert LinkAt(repo.nodes, chain, k - 1);
        }
        return Ok(chain);
      }
      if k == 0 {
        if BaseRoot() == Some(txn.rootId) {
          return Err(Unknown);
        }
        MutatedRoot(repo.nodes, chain, txn.rootId);
        return Ok(chain[0 := chain[0].(id := txn.rootId)]);
      }
      r := CloneBelow(chain, k, errorPath);
    }

    /**
     * The recursive step of MakePathMutable: makes the steps above `k` mutable, then
     * clones committed step `k` below them.
     */
    method CloneBelow(chain: seq<Seg>, k: nat, errorPath: string) returns (r: Result<seq<Seg>, FsError>)
      requires Valid() && 0 < k < |chain| && !chain[k].id.IsTxn()
      requires forall i :: 0 <= i <= k ==> chain[i].id in repo.nodes
      requires Linked(repo.nodes, chain, k)
      modifies repo`nodes, txn`nextCopyKey
      decreases k, 0
      ensures Valid() && Preserves(old(repo.nodes), repo.nodes)
      ensures r.Err? ==> CloneFault(r.error)
      ensures r.Ok? ==> Mutated(old(repo.nodes), repo.nodes, chain, r.value, k)
      ensures r.Ok? ==>
        chain[k].name in repo.nodes[r.value[k - 1].id].entries &&
        repo.nodes[r.value[k - 1].id].entries[chain[k].name].id == r.value[k].id
    {
      var above := k - 1;
      var up := MakePathMutable(chain, above, errorPath);
      if up.Err? {
        return up;
      }
      ghost var mid := repo.nodes;
      r := ExtendMutable(old(repo.nodes), chain, up.value, above, k);
      PreservesTransitive(old(repo.nodes), mid, repo.nodes);
    }

    /** The second half of CloneBelow: clones committed step `k` below the chain already made mutable above it. */
    method ExtendMutable(ghost before: map<NodeId, RevNode>, chain: seq<Seg>, up: seq<Seg>, above: nat, k: nat)
      returns (r: Result<seq<Seg>, FsError>)
      requires Valid() && k == above + 1 && k < |chain| && !chain[k].id.IsTxn() && Linked(before, chain, k)
      requires before.Keys <= repo.nodes.Keys && chain[k].id in before
      requires Mutated(before, repo.nodes, chain, up, above)
      modifies repo`nodes, txn`nextCopyKey
      ensures Valid() && Preserves(old(repo.nodes), repo.nodes)
      ensures r.Err? ==> CloneFault(r.error)
      ensures r.Ok? ==> Mutated(before, repo.nodes, chain, r.value, k)
      ensures r.Ok? ==>
        chain[k].name in repo.nodes[r.value[k - 1].id].entries &&
        repo.nodes[r.value[k - 1].id].entries[chain[k].name].id == r.value[k].id
    {
      ghost var mid := repo.nodes;
      assert OffChain(chain[k].id, up, above);
      if chain[0].id.IsTxn() {
        assert LinkAt(before, chain, above);
      }
      r := CloneStep(up, k);
      if r.Ok? {
        MutatedStep(before, mid, repo.nodes, chain, up, r.value, above, k);
      }
    }

    /**
     * Whether a committed node lies below its copy root rather than being that root: the
     * node found at the node's copy-root path in the copy-root revision has another node number.
     * A node that records no copy root is taken as not below one.
     */
    function ParentIsCopyRoot(childId: NodeId, node: RevNode): (r: Result<bool, FsError>)
      reads repo
      ensures r.Err? ==> CloneFault(r.error)
    {
      if node.copyRootPath.None? then Ok(false)
      else if node.copyRootRev < 0 || node.copyRootRev !in repo.revRoots then Err(NotFound(node.copyRootPath.value))
      else
        match Walk(repo.nodes, repo.revRoots[node.copyRootRev], Components(node.copyRootPath.value))
        case Err(e) => Err(e)
        case Ok(ids) => Ok(childId.nodeId != ids[|ids| - 1].nodeId)
    }

    /**
     * The step of MakePathMutable below a mutable parent: clones the committed step `k`
     * under `chain[k - 1]` with the copy number its inheritance style calls for. The
     * store gains the clone and the parent's entry for it, and nothing else changes.
     */
    method CloneStep(chain: seq<Seg>, k: nat) returns (r: Result<seq<Seg>, FsError>)
      requires Valid() && 0 < k < |chain|
      requires chain[k - 1].id in repo.nodes && chain[k - 1].id.IsTxn() && chain[k].id in repo.nodes
      modifies repo`nodes, txn`nextCopyKey
      ensures Valid()
      ensures Preserves(old(repo.nodes), repo.nodes)
      ensures chain[k].style == InheritUnknown ==> r == Err(Unknown)
      ensures r.Err? ==> CloneFault(r.error) && repo.nodes == old(repo.nodes)
      ensures r.Ok? ==> |r.value| == |chain| && r.value == chain[k := Seg(r.value[k].id, chain[k].name, chain[k].style)]
      ensures r.Ok? ==> r.value[k].id in repo.nodes && r.value[k].id.IsTxn()
      ensures r.Ok? ==> repo.nodes.Keys == old(repo.nodes).Keys + {r.value[k].id}
      ensures r.Ok? ==> forall id :: id in old(repo.nodes) && id != chain[k - 1].id ==> repo.nodes[id] == old(repo.nodes)[id]
      ensures r.Ok? ==>
        chain[k].name in repo.nodes[chain[k - 1].id].entries &&
        repo.nodes[chain[k - 1].id].entries[chain[k].name].id == r.value[k].id
      ensures (r.Ok? && chain[k].name in old(repo.nodes)[chain[k - 1].id].entries &&
               old(repo.nodes)[chain[k - 1].id].entries[chain[k].name].id == chain[k].id && !chain[k].id.IsTxn()) ==>
        && r.value[k].id !in old(repo.nodes)
        && repo.nodes[chain[k - 1].id] == old(repo.nodes)[chain[k - 1].id].(entries :=
             old(repo.nodes)[chain[k - 1].id].entries[chain[k].name := Entry(r.value[k].id, old(repo.nodes)[chain[k].id].kind)])
        && SameContent(repo.nodes[r.value[k].id], old(repo.nodes)[chain[k].id])
        && repo.nodes[r.value[k].id].predecessor == Some(chain[k].id)
        && repo.nodes[r.value[k].id].count == SuccessorCount(old(repo.nodes)[chain[k].id].count)
    {
      var copyId: Option<Key>;
      match chain[k].style {
        case InheritParent => copyId := Some(chain[k - 1].id.copyId);
        case InheritNew =>
          var c := ReserveCopyId();
          copyId := Some(c);
        case InheritSelf => copyId := None;
        case InheritUnknown => return Err(Unknown);
      }
      var isParentCopyRoot := ParentIsCopyRoot(chain[k].id, repo.nodes[chain[k].id]);
      if isParentCopyRoot.Err? {
        return Err(isParentCopyRoot.error);
      }
      var clone := CloneChild(chain[k - 1].id, ChainPath(chain, k - 1), chain[k].name, copyId, isParentCopyRoot.value);
      if clone.Err? {
        return Err(clone.error);
      }
      r := Ok(chain[k := Seg(clone.value, chain[k].name, chain[k].style)]);
    }

    /**
     * The store after removing the last name of `names` from the transaction: the parent
     * chain is a mutable copy of `path` whose last directory lacks the entry, nothing off
     * the chain changed, the counts along the chain are those of `unbumped` shifted by
     * `delta`, and, when the path visits no node twice, the parent path still resolves to
     * the chain's last directory and the deleted path resolves to nothing.
     */
    ghost predicate Unlinked(before: map<NodeId, RevNode>, path: seq<Seg>, chain: seq<Seg>, names: seq<string>,
                             unbumped: map<NodeId, RevNode>, delta: int)
      reads repo, txn
    {
      && EntryEdited(before, repo.nodes, path, chain, names, None)
      && Preserves(before, unbumped)
      && chain[|names| - 1].id in unbumped && names[|names| - 1] !in unbumped[chain[|names| - 1].id].entries
      && MergeInfoAdjusted(repo.nodes, unbumped, chain, delta, repo.supportsMergeInfo)
      && (DistinctSteps(path, |names| - 1) ==>
            ParentAt(names, chain[|names| - 1].id) && OpenPath(names) == Err(NotFound(PathOf(names))))
    }

    /**
     * Deletes the node at a path from the transaction: the root cannot be deleted, the
     * path must be unlocked or locked by this user (recursively) when the transaction
     * checks locks, the parent chain is made mutable, the entry is removed, the deleted
     * node's merge-info count is taken off every directory above it, and a deletion is
     * logged.
     */
    method DeleteNode(names: seq<string>)
      returns (r: Result<(), FsError>, ghost resolved: Result<seq<Seg>, FsError>, ghost count: int,
               ghost delta: int, ghost chain: seq<Seg>, ghost unbumped: map<NodeId, RevNode>)
      requires Valid()
      modifies repo`nodes, txn`nextCopyKey, txn`changes
      ensures Valid() && Preserves(old(repo.nodes), repo.nodes)
      ensures resolved == old(OpenPath(names))
      ensures resolved.Err? ==> r == Err(resolved.error)
      ensures resolved.Ok? && names == [] ==> r == Err(RootDir)
      ensures resolved.Ok? && names != [] && txn.checkLocks && !FsLocks.Covered(repo.locks, PathOf(names), true, author, lockTokens) ==>
        r.Err? && FsLocks.LockFault(r.error)
      ensures resolved.Ok? && names != [] && (!txn.checkLocks || FsLocks.Covered(repo.locks, PathOf(names), true, author, lockTokens)) ==>
        r.Ok? || CloneFault(r.error)
      ensures r.Err? ==> txn.changes == old(txn.changes)
      ensures r.Ok? ==> names != [] && resolved.Ok? && |resolved.value| == |names| + 1
      ensures r.Ok? ==>
        var deleted := resolved.value[|names|].id;
        deleted in old(repo.nodes) && count == old(repo.nodes)[deleted].mergeInfoCount &&
        txn.changes == old(txn.changes) + [PathChange(PathOf(names), deleted, Delete, false, false, INVALID_REVISION, None, old(repo.nodes)[deleted].kind)]
      ensures r.Ok? ==> delta == (if count > 0 then -count else 0)
      ensures r.Ok? ==> Unlinked(old(repo.nodes), resolved.value, chain, names, unbumped, delta)
    {
      count, delta, chain, unbumped := 0, 0, [], repo.nodes;
      var walked := OpenPath(names);
      resolved := walked;
      if walked.Err? {
        return Err(walked.error), resolved, count, delta, chain, unbumped;
      }
      var path := walked.value;
      var target := path[|names|].id;
      var kind := repo.nodes[target].kind;
      var mergeInfoCount := repo.nodes[target].mergeInfoCount;
      count := mergeInfoCount;
      if names == [] {
        return Err(RootDir), resolved, count, delta, chain, unbumped;
      }
      if txn.checkLocks {
        var allowed := FsLocks.AllowLockedOperation(repo.locks, PathOf(names), author, lockTokens, true);
        if allowed.Err? {
          return Err(allowed.error), resolved, count, delta, chain, unbumped;
        }
      }
      r, delta, chain, unbumped := RemoveEntry(path, names, target, kind, mergeInfoCount);
    }

    /** The part of DeleteNode after its checks: removes the last step of a linked chain from its parent. */
    method RemoveEntry(path: seq<Seg>, names: seq<string>, target: NodeId, kind: Kind, count: int)
      returns (r: Result<(), FsError>, ghost delta: int, ghost chain: seq<Seg>, ghost unbumped: map<NodeId, RevNode>)
      requires Valid() && |names| > 0 && |path| == |names| + 1 && path[0].id == txn.rootId
      requires forall i :: 0 <= i < |path| ==> path[i].id in repo.nodes
      requires forall i :: 0 < i <= |names| ==> path[i].name == names[i - 1]
      requires Linked(repo.nodes, path, |names|)
      modifies repo`nodes, txn`nextCopyKey, txn`changes
      ensures Valid() && Preserves(old(repo.nodes), repo.nodes)
      ensures r.Err? ==> txn.changes == old(txn.changes) && CloneFault(r.error)
      ensures r.Ok? ==>
        && txn.changes == old(txn.changes) + [PathChange(PathOf(names), target, Delete, false, false, INVALID_REVISION, None, kind)]
        && delta == (if count > 0 then -count else 0)
        && Unlinked(old(repo.nodes), path, chain, names, unbumped, delta)
    {
      delta, chain, unbumped := if count > 0 then -count else 0, [], repo.nodes;
      var k := |names| - 1;
      assert LinkAt(repo.nodes, path, k);
      assert path[0].id.IsTxn() && repo.nodes[path[k].id].kind == Dir;
      var mutable := MakePathMutable(path, k, PathOf(names));
      if mutable.Err? {
        return Err(mutable.error), delta, chain, unbumped;
      }
      chain, unbumped := UnlinkMutable(old(repo.nodes), path, mutable.value, names, target, kind, count);
      return Ok(()), delta, chain, unbumped;
    }

    /** The second half of RemoveEntry: unlinks the entry once the parent chain has been made mutable. */
    method UnlinkMutable(ghost before: map<NodeId, RevNode>, path: seq<Seg>, mut: seq<Seg>, names: seq<string>,
                         target: NodeId, kind: Kind, count: int)
      returns (chain: seq<Seg>, ghost unbumped: map<NodeId, RevNode>)
      requires Valid() && |names| > 0 && |path| == |names| + 1 && path[0].id == txn.rootId
      requires forall i :: 0 < i <= |names| ==> path[i].name == names[i - 1]
      requires path[|names| - 1].id in before && before[path[|names| - 1].id].kind == Dir && Preserves(before, repo.nodes)
      requires Mutated(before, repo.nodes, path, mut, |names| - 1)
      modifies repo`nodes, txn`changes
      ensures Valid() && Preserves(old(repo.nodes), repo.nodes)
      ensures txn.changes == old(txn.changes) + [PathChange(PathOf(names), target, Delete, false, false, INVALID_REVISION, None, kind)]
      ensures Unlinked(before, path, chain, names, unbumped, if count > 0 then -count else 0)
    {
      chain := mut[..|names|];
      unbumped := Unlink(chain, names, target, kind, count);
      EntryEditedIntro(before, old(repo.nodes), unbumped, repo.nodes, path, mut, names, None,
                       if count > 0 then -count else 0, repo.supportsMergeInfo);
      if DistinctSteps(path, |names| - 1) {
        EditedOpenPath(before, path, chain, names, None);
      }
    }

    /** Removes the last name from the mutable directory ending the chain, adjusts the chain's counts and logs the deletion. */
    method Unlink(chain: seq<Seg>, names: seq<string>, target: NodeId, kind: Kind, count: int)
      returns (ghost unbumped: map<NodeId, RevNode>)
      requires Valid() && |chain| == |names| > 0
      requires forall i :: 0 <= i < |chain| ==> chain[i].id in repo.nodes && chain[i].id.IsTxn()
      requires repo.nodes[chain[|names| - 1].id].kind == Dir
      modifies repo`nodes, txn`changes
      ensures Valid() && Preserves(old(repo.nodes), repo.nodes)
      ensures txn.changes == old(txn.changes) + [PathChange(PathOf(names), target, Delete, false, false, INVALID_REVISION, None, kind)]
      ensures unbumped == old(repo.nodes)[chain[|names| - 1].id := old(repo.nodes)[chain[|names| - 1].id].(entries :=
        WithEntry(old(repo.nodes)[chain[|names| - 1].id].entries, names[|names| - 1], None))]
      ensures MergeInfoAdjusted(repo.nodes, unbumped, chain, if count > 0 then -count else 0, repo.supportsMergeInfo)
    {
      var k := |names| - 1;
      var removed := SetEntry(chain[k].id, names[k], None);
      assert removed.Ok?;
      unbumped := repo.nodes;
      AdjustMergeInfo(chain, if count > 0 then -count else 0);
      PreservesTransitive(old(repo.nodes), unbumped, repo.nodes);
      AddChange(PathOf(names), target, Delete, false, false, INVALID_REVISION, None, kind);
    }

    /**
     * Sets or removes one property of the node at a path: the path must be unlocked or
     * locked by this user when the transaction checks locks, the path is made mutable,
     * nothing more happens when the node has no properties and the property is being
     * removed, adding or removing merge info shifts the merge-info counts up the tree by
     * one, and a property modification is logged.
     */
    method ChangeNodeProperty(names: seq<string>, name: string, value: Option<string>)
      returns (r: Result<(), FsError>, ghost resolved: Result<seq<Seg>, FsError>, ghost id: NodeId, ghost delta: int,
               ghost logged: bool, ghost chain: seq<Seg>, ghost unbumped: map<NodeId, RevNode>)
      requires Valid()
      modifies repo`nodes, txn`nextCopyKey, txn`changes
      ensures Valid() && Preserves(old(repo.nodes), repo.nodes)
      ensures resolved == old(OpenPath(names))
      ensures resolved.Err? ==> r == Err(resolved.error)
      ensures resolved.Ok? && txn.checkLocks && !FsLocks.Covered(repo.locks, PathOf(names), false, author, lockTokens) ==>
        r.Err? && FsLocks.LockFault(r.error)
      ensures resolved.Ok? && (!txn.checkLocks || FsLocks.Covered(repo.locks, PathOf(names), false, author, lockTokens)) ==>
        r.Ok? || CloneFault(r.error)
      ensures r.Err? ==> txn.changes == old(txn.changes)
      ensures r.Ok? ==> resolved.Ok? && |resolved.value| == |names| + 1 && resolved.value[|names|].id in old(repo.nodes)
      ensures r.Ok? ==> |chain| == |names| + 1 && id == chain[|names|].id
      ensures r.Ok? ==> PropertySet(old(repo.nodes), resolved.value, chain, names, name, value)
      ensures r.Ok? ==> PropertyLogged(old(repo.nodes)[resolved.value[|names|].id], names, name, value, chain,
                                       delta, logged, unbumped, old(txn.changes))
    {
      id, delta, logged, chain, unbumped := txn.rootId, 0, false, [], repo.nodes;
      var walked := OpenPath(names);
      resolved := walked;
      if walked.Err? {
        return Err(walked.error), resolved, id, delta, logged, chain, unbumped;
      }
      var path := walked.value;
      if txn.checkLocks {
        var allowed := FsLocks.AllowLockedOperation(repo.locks, PathOf(names), author, lockTokens, false);
        if allowed.Err? {
          return Err(allowed.error), resolved, id, delta, logged, chain, unbumped;
        }
      }
      r, id, delta, logged, chain, unbumped := SetProperty(path, names, name, value);
    }

    /**
     * The store after a property of the node at `names` was written: the path's chain is
     * mutable and linked from the transaction root, so the path still resolves, now to
     * the chain's last node; that node keeps the old node's kind and entries and has the
     * property set or removed; nothing off the chain changed.
     */
    ghost predicate PropertySet(before: map<NodeId, RevNode>, path: seq<Seg>, chain: seq<Seg>, names: seq<string>,
                                name: string, value: Option<string>)
      reads repo, txn
    {
      && |chain| == |path| == |names| + 1 && chain[0].id == path[0].id && path[|names|].id in before
      && (forall i :: 0 <= i <= |names| ==> chain[i].id in repo.nodes && chain[i].id.IsTxn())
      && Linked(repo.nodes, chain, |names|)
      && (forall id :: id in before && OffChain(id, chain, |names|) ==> id in repo.nodes && repo.nodes[id] == before[id])
      && repo.nodes[chain[|names|].id].kind == before[path[|names|].id].kind
      && repo.nodes[chain[|names|].id].entries == before[path[|names|].id].entries
      && repo.nodes[chain[|names|].id].props == WithProp(before[path[|names|].id].props, name, value)
      && OpenPath(names).Ok? && OpenPath(names).value[|names|].id == chain[|names|].id
    }

    /**
     * Whether a property write on node content `o` was logged, and what it logged: nothing
     * when the node had no properties and the property is removed; otherwise a property
     * modification of the path, with the merge-info effect of PropertyApplied.
     */
    ghost predicate PropertyLogged(o: RevNode, names: seq<string>, name: string, value: Option<string>, chain: seq<Seg>,
                                   delta: int, logged: bool, unbumped: map<NodeId, RevNode>, changes: seq<PathChange>)
      reads repo, txn
    {
      && |chain| == |names| + 1
      && (logged <==> !(o.props == map[] && value.None?))
      && (!logged ==> txn.changes == changes)
      && (logged ==> txn.changes == changes + [PathChange(PathOf(names), chain[|names|].id, Modify, false, true, INVALID_REVISION, None, o.kind)])
      && (logged ==> PropertyApplied(chain, name, value, o, delta, unbumped, repo.nodes, repo.supportsMergeInfo))
    }

    /**
     * A property write on the last node of a mutable chain, before the merge-info counts
     * were shifted (`unadjusted`): the node of content `o` has the property set or
     * removed; for the merge-info property (where supported) its flag follows the value
     * and `delta` is the resulting change of its count, otherwise `delta` is 0; and then
     * every node of the chain got `delta` added to its count.
     */
    ghost predicate PropertyApplied(chain: seq<Seg>, name: string, value: Option<string>, o: RevNode, delta: int,
                                    unadjusted: map<NodeId, RevNode>, after: map<NodeId, RevNode>, supported: bool)
    {
      && |chain| > 0
      && (forall i :: 0 <= i < |chain| ==> chain[i].id in unadjusted && chain[i].id.IsTxn())
      && unadjusted[chain[|chain| - 1].id].kind == o.kind
      && unadjusted[chain[|chain| - 1].id].entries == o.entries
      && unadjusted[chain[|chain| - 1].id].props == WithProp(o.props, name, value)
      && (supported && name == MERGE_INFO ==>
            unadjusted[chain[|chain| - 1].id].hasMergeInfo == value.Some? &&
            delta == MergeInfoIncrement(o.hasMergeInfo, value.Some?))
      && (!(supported && name == MERGE_INFO) ==> unadjusted[chain[|chain| - 1].id].hasMergeInfo == o.hasMergeInfo && delta == 0)
      && MergeInfoAdjusted(after, unadjusted, chain, delta, supported)
    }

    /** The part of ChangeNodeProperty after its checks, on the linked chain of the path. */
    method SetProperty(path: seq<Seg>, names: seq<string>, name: string, value: Option<string>)
      returns (r: Result<(), FsError>, ghost id: NodeId, ghost delta: int, ghost logged: bool,
               ghost chain: seq<Seg>, ghost unbumped: map<NodeId, RevNode>)
      requires Valid() && |path| == |names| + 1 && path[0].id == txn.rootId
      requires forall i :: 0 <= i < |path| ==> path[i].id in repo.nodes
      requires forall i :: 0 < i <= |names| ==> path[i].name == names[i - 1]
      requires Linked(repo.nodes, path, |names|)
      modifies repo`nodes, txn`nextCopyKey, txn`changes
      ensures Valid() && Preserves(old(repo.nodes), repo.nodes)
      ensures r.Err? ==> txn.changes == old(txn.changes) && CloneFault(r.error)
      ensures r.Ok? ==> |chain| == |names| + 1 && id == chain[|names|].id
      ensures r.Ok? ==> PropertySet(old(repo.nodes), path, chain, names, name, value)
      ensures r.Ok? ==> PropertyLogged(old(repo.nodes)[path[|names|].id], names, name, value, chain,
                                       delta, logged, unbumped, old(txn.changes))
    {
      id, delta, logged, chain, unbumped := txn.rootId, 0, false, [], repo.nodes;
      var mutable := MakePathMutable(path, |names|, PathOf(names));
      if mutable.Err? {
        return Err(mutable.error), id, delta, logged, chain, unbumped;
      }
      ghost var mid := repo.nodes;
      chain := mutable.value;
      id := chain[|names|].id;
      delta, logged, unbumped := WriteProperty(old(repo.nodes), path, mutable.value, names, name, value);
      PreservesTransitive(old(repo.nodes), mid, repo.nodes);
      return Ok(()), id, delta, logged, chain, unbumped;
    }

    /** The second half of SetProperty: writes the property once the path has been made mutable. */
    method WriteProperty(ghost before: map<NodeId, RevNode>, path: seq<Seg>, mut: seq<Seg>, names: seq<string>,
                         name: string, value: Option<string>)
      returns (ghost delta: int, ghost logged: bool, ghost unbumped: map<NodeId, RevNode>)
      requires Valid() && |path| == |names| + 1 && path[0].id == txn.rootId
      requires forall i :: 0 < i <= |names| ==> path[i].name == names[i - 1]
      requires Mutated(before, repo.nodes, path, mut, |names|)
      modifies repo`nodes, txn`changes
      ensures Valid() && Preserves(old(repo.nodes), repo.nodes)
      ensures PropertySet(before, path, mut, names, name, value)
      ensures PropertyLogged(before[path[|names|].id], names, name, value, mut, delta, logged, unbumped, old(txn.changes))
    {
      var k := |names|;
      ghost var mid := repo.nodes;
      var kind := repo.nodes[mut[k].id].kind;
      var props := repo.nodes[mut[k].id].props;
      if props == map[] && value.None? {
        delta, logged, unbumped := 0, false, repo.nodes;
        assert WithProp(props, name, value) == props;
        assert mid == mid[mut[k].id := mid[mut[k].id]];
        PropertySetIntro(before, mid, mid, path, mut, names, name, value, 0);
      } else {
        delta, unbumped := ChangeProperty(before, path, mut, names, name, value);
        logged := true;
      }
    }

    /** WriteProperty when there is something to write: the property changes and one modification is logged. */
    method ChangeProperty(ghost before: map<NodeId, RevNode>, path: seq<Seg>, mut: seq<Seg>, names: seq<string>,
                          name: string, value: Option<string>)
      returns (ghost delta: int, ghost unbumped: map<NodeId, RevNode>)
      requires Valid() && |path| == |names| + 1 && path[0].id == txn.rootId
      requires forall i :: 0 < i <= |names| ==> path[i].name == names[i - 1]
      requires Mutated(before, repo.nodes, path, mut, |names|)
      requires !(repo.nodes[mut[|names|].id].props == map[] && value.None?)
      modifies repo`nodes, txn`changes
      ensures Valid() && Preserves(old(repo.nodes), repo.nodes)
      ensures PropertySet(before, path, mut, names, name, value)
      ensures PropertyLogged(before[path[|names|].id], names, name, value, mut, delta, true, unbumped, old(txn.changes))
    {
      var k := |names|;
      ghost var mid := repo.nodes;
      var kind := repo.nodes[mut[k].id].kind;
      delta, unbumped := ApplyProperty(mut, k, name, value);
      assert mut[..k + 1] == mut;
      AddChange(PathOf(names), mut[k].id, Modify, false, true, INVALID_REVISION, None, kind);
      PropertySetIntro(before, mid, unbumped, path, mut, names, name, value, delta);
    }

    /** PropertyShape of the current store, seen through OpenPath: a PropertySet store. */
    lemma PropertySetIntro(before: map<NodeId, RevNode>, mid: map<NodeId, RevNode>, unadjusted: map<NodeId, RevNode>,
                           path: seq<Seg>, mut: seq<Seg>, names: seq<string>, name: string, value: Option<string>, delta: int)
      requires |path| == |names| + 1 && path[0].id == txn.rootId && path[0].id.IsTxn()
      requires forall i :: 0 < i <= |names| ==> path[i].name == names[i - 1]
      requires Mutated(before, mid, path, mut, |names|)
      requires mut[|names|].id in unadjusted && unadjusted == mid[mut[|names|].id := unadjusted[mut[|names|].id]]
      requires unadjusted[mut[|names|].id].kind == mid[mut[|names|].id].kind
      requires unadjusted[mut[|names|].id].entries == mid[mut[|names|].id].entries
      requires unadjusted[mut[|names|].id].props == WithProp(mid[mut[|names|].id].props, name, value)
      requires MergeInfoAdjusted(repo.nodes, unadjusted, mut, delta, repo.supportsMergeInfo)
      ensures PropertySet(before, path, mut, names, name, value)
    {
      PropertyShape(before, mid, unadjusted, repo.nodes, path, mut, |names|, name, value, delta, repo.supportsMergeInfo);
      LinkedOpenPath(mut, names);
    }

    /** A chain linked from the transaction root along `names` is what OpenPath resolves them to. */
    lemma LinkedOpenPath(chain: seq<Seg>, names: seq<string>)
      requires |chain| == |names| + 1 && chain[0].id == txn.rootId
      requires forall i :: 0 < i <= |names| ==> chain[i].name == names[i - 1]
      requires Linked(repo.nodes, chain, |names|) && chain[|names|].id in repo.nodes
      ensures OpenPath(names).Ok? && OpenPath(names).value[|names|].id == chain[|names|].id
    {
      WalkLinked(repo.nodes, chain, names, |names|);
      assert names[..|names|] == names;
    }

    /**
     * Writes a property to the mutable node at the end of a chain; adding or removing
     * merge info flips the node's flag and shifts the counts of the whole chain.
     */
    method ApplyProperty(chain: seq<Seg>, k: nat, name: string, value: Option<string>)
      returns (ghost delta: int, ghost unbumped: map<NodeId, RevNode>)
      requires Valid() && k < |chain|
      requires forall i :: 0 <= i <= k ==> chain[i].id in repo.nodes && chain[i].id.IsTxn()
      modifies repo`nodes
      ensures Valid() && Preserves(old(repo.nodes), repo.nodes)
      ensures chain[k].id in repo.nodes
      ensures repo.nodes[chain[k].id].props == WithProp(old(repo.nodes)[chain[k].id].props, name, value)
      ensures chain[k].id in unbumped && unbumped == old(repo.nodes)[chain[k].id := unbumped[chain[k].id]]
      ensures PropertyApplied(chain[..k + 1], name, value, old(repo.nodes)[chain[k].id], delta, unbumped, repo.nodes, repo.supportsMergeInfo)
    {
      var id := chain[k].id;
      var node := repo.nodes[id];
      var inc := 0;
      var flag := node.hasMergeInfo;
      if repo.supportsMergeInfo && name == MERGE_INFO {
        inc := MergeInfoIncrement(node.hasMergeInfo, value.Some?);
        if inc != 0 {
          flag := value.Some?;
        }
      }
      delta := inc;
      var updated := node.(hasMergeInfo := flag, props := WithProp(node.props, name, value));
      TxnUpdate(repo.nodes, id, updated, txn.nextNodeKey, txn.nextCopyKey);
      repo.nodes := repo.nodes[id := updated];
      unbumped := repo.nodes;
      if repo.supportsMergeInfo && inc != 0 {
        IncrementMergeInfoUpTree(chain, k, inc);
        IncrementAllOnlyCounts(unbumped, Ids(chain[..k + 1]), delta);
        PreservesTransitive(old(repo.nodes), unbumped, repo.nodes);
      }
    }

    /**
     * Creates an empty file or directory as entry `name` of a transaction directory: the
     * name must be one path component, the parent a directory and mutable; the new node
     * takes the next node number and the parent's copy number.
     */
    method MakeEntry(parentId: NodeId, parentPath: string, name: string, isDir: bool) returns (r: Result<NodeId, FsError>)
      requires Valid() && parentId in repo.nodes
      modifies repo`nodes, txn`nextNodeKey
      ensures Valid() && Preserves(old(repo.nodes), repo.nodes)
      ensures !IsSingleComponent(name) ==> r == Err(NotSinglePathComponent)
      ensures IsSingleComponent(name) && old(repo.nodes)[parentId].kind != Dir ==> r == Err(NotDirectory)
      ensures IsSingleComponent(name) && old(repo.nodes)[parentId].kind == Dir && !parentId.IsTxn() ==> r == Err(NotMutable)
      ensures r.Ok? <==> IsSingleComponent(name) && old(repo.nodes)[parentId].kind == Dir && parentId.IsTxn()
      ensures r.Err? ==> repo.nodes == old(repo.nodes) && txn.nextNodeKey == old(txn.nextNodeKey)
      ensures r.Ok? ==> r.value == NodeId(Key(old(txn.nextNodeKey), true), parentId.copyId, InTxn(txn.txnId))
      ensures r.Ok? ==> r.value !in old(repo.nodes)
      ensures r.Ok? ==> (repo.nodes ==
        old(repo.nodes)[r.value := NewNode(if isDir then Dir else File, old(repo.nodes)[parentId], parentPath, name)]
                       [parentId := old(repo.nodes)[parentId].(entries :=
                          old(repo.nodes)[parentId].entries[name := Entry(r.value, if isDir then Dir else File)])])
    {
      if !IsSingleComponent(name) {
        return Err(NotSinglePathComponent);
      }
      var parent := repo.nodes[parentId];
      if parent.kind != Dir {
        return Err(NotDirectory);
      }
      if !parentId.IsTxn() {
        return Err(NotMutable);
      }
      var kind := if isDir then Dir else File;
      var id := CreateNode(NewNode(kind, parent, parentPath, name), parentId.copyId);
      var linked := SetEntry(parentId, name, Some(Entry(id, kind)));
      assert linked.Ok?;
      return Ok(id);
    }

    /** Creates an empty file at a path that does not exist yet (makeFile). */
    method MakeFile(names: seq<string>) returns (r: Result<(), FsError>, ghost created: NodeId, ghost chain: seq<Seg>)
      requires Valid()
      modifies repo`nodes, txn`nextCopyKey, txn`nextNodeKey, txn`changes
      ensures Valid() && Preserves(old(repo.nodes), repo.nodes)
      ensures names == [] ==> r == Err(AlreadyExists("/"))
      ensures names != [] && old(OpenParent(names)).Err? ==> r == Err(old(OpenParent(names)).error)
      ensures names != [] && old(OpenParent(names)).Ok? && old(OpenParent(names)).value.1.Some? ==> r == Err(AlreadyExists(PathOf(names)))
      ensures names != [] && old(OpenParent(names)).Ok? && old(OpenParent(names)).value.1.None? ==>
        NewNodeOutcome(r, names, false, old(txn.checkLocks && !FsLocks.Covered(repo.locks, PathOf(names), false, author, lockTokens)))
      ensures r.Ok? && txn.checkLocks ==> FsLocks.Covered(repo.locks, PathOf(names), false, author, lockTokens)
      ensures r.Err? ==> txn.changes == old(txn.changes)
      ensures r.Ok? ==> names != []
      ensures r.Ok? ==> Created(names, File, created, old(OpenParent(names)).value.0, chain, old(repo.nodes), old(txn.changes))
    {
      r, created, chain := MakeNode(names, false);
    }

    /** Creates an empty directory at a path that does not exist yet (makeDir); the lock check covers the subtree. */
    method MakeDir(names: seq<string>) returns (r: Result<(), FsError>, ghost created: NodeId, ghost chain: seq<Seg>)
      requires Valid()
      modifies repo`nodes, txn`nextCopyKey, txn`nextNodeKey, txn`changes
      ensures Valid() && Preserves(old(repo.nodes), repo.nodes)
      ensures names == [] ==> r == Err(AlreadyExists("/"))
      ensures names != [] && old(OpenParent(names)).Err? ==> r == Err(old(OpenParent(names)).error)
      ensures names != [] && old(OpenParent(names)).Ok? && old(OpenParent(names)).value.1.Some? ==> r == Err(AlreadyExists(PathOf(names)))
      ensures names != [] && old(OpenParent(names)).Ok? && old(OpenParent(names)).value.1.None? ==>
        NewNodeOutcome(r, names, true, old(txn.checkLocks && !FsLocks.Covered(repo.locks, PathOf(names), true, author, lockTokens)))
      ensures r.Ok? && txn.checkLocks ==> FsLocks.Covered(repo.locks, PathOf(names), true, author, lockTokens)
      ensures r.Err? ==> txn.changes == old(txn.changes)
      ensures r.Ok? ==> names != []
      ensures r.Ok? ==> Created(names, Dir, created, old(OpenParent(names)).value.0, chain, old(repo.nodes), old(txn.changes))
    {
      r, created, chain := MakeNode(names, true);
    }

    /**
     * How makeFile or makeDir ends once the parent resolved and the name is free: a lock
     * fault when the path is locked against this user; otherwise an illegal name fails,
     * and so, at most, does cloning the parent chain.
     */
    predicate NewNodeOutcome(r: Result<(), FsError>, names: seq<string>, isDir: bool, lockDenied: bool)
      requires |names| > 0
    {
      && (lockDenied ==> r.Err? && FsLocks.LockFault(r.error))
      && (!lockDenied ==> r.Ok? || CloneFault(r.error))
      && (!lockDenied && !IsSingleComponent(names[|names| - 1]) ==> r.Err?)
    }

    /**
     * What a successful makeFile or makeDir leaves behind: a new empty transaction node of
     * the kind, entered under the path's last name in the mutable copy `chain` of the
     * parent path `path`, nothing off the chain changed, the path now resolving to the new
     * node, and an addition logged.
     */
    ghost predicate Created(names: seq<string>, kind: Kind, created: NodeId, path: seq<Seg>, chain: seq<Seg>,
                            before: map<NodeId, RevNode>, changesBefore: seq<PathChange>)
      reads repo, txn
    {
      && names != []
      && created !in before && created.IsTxn() && created in repo.nodes
      && repo.nodes[created].kind == kind && repo.nodes[created].entries == map[] && repo.nodes[created].predecessor.None?
      && EntryEdited(before, repo.nodes, path, chain, names, Some(Entry(created, kind)))
      && ParentAt(names, chain[|names| - 1].id)
      && OpenPath(names).Ok? && OpenPath(names).value[|names|].id == created
      && txn.changes == changesBefore + [PathChange(PathOf(names), created, Add, false, false, INVALID_REVISION, None, kind)]
    }

    /** The body shared by makeFile and makeDir. */
    method MakeNode(names: seq<string>, isDir: bool) returns (r: Result<(), FsError>, ghost created: NodeId, ghost chain: seq<Seg>)
      requires Valid()
      modifies repo`nodes, txn`nextCopyKey, txn`nextNodeKey, txn`changes
      ensures Valid() && Preserves(old(repo.nodes), repo.nodes)
      ensures names == [] ==> r == Err(AlreadyExists("/"))
      ensures names != [] && old(OpenParent(names)).Err? ==> r == Err(old(OpenParent(names)).error)
      ensures names != [] && old(OpenParent(names)).Ok? && old(OpenParent(names)).value.1.Some? ==> r == Err(AlreadyExists(PathOf(names)))
      ensures names != [] && old(OpenParent(names)).Ok? && old(OpenParent(names)).value.1.None? ==>
        NewNodeOutcome(r, names, isDir, old(txn.checkLocks && !FsLocks.Covered(repo.locks, PathOf(names), isDir, author, lockTokens)))
      ensures r.Ok? && txn.checkLocks ==> FsLocks.Covered(repo.locks, PathOf(names), isDir, author, lockTokens)
      ensures r.Err? ==> txn.changes == old(txn.changes)
      ensures r.Ok? ==> names != []
      ensures r.Ok? ==> Created(names, if isDir then Dir else File, created, old(OpenParent(names)).value.0, chain, old(repo.nodes), old(txn.changes))
    {
      created, chain := txn.rootId, [];
      if names == [] {
        // the root always exists
        return Err(AlreadyExists("/")), created, chain;
      }
      var walked := OpenParent(names);
      if walked.Err? {
        return Err(walked.error), created, chain;
      }
      var (parents, target) := walked.value;
      if target.Some? {
        return Err(AlreadyExists(PathOf(names))), created, chain;
      }
      r, created, chain := AddEntry(parents, names, isDir);
    }

    /** The part of makeFile and makeDir after the path checks: the lock check, then the new entry. */
    method AddEntry(parents: seq<Seg>, names: seq<string>, isDir: bool) returns (r: Result<(), FsError>, ghost created: NodeId, ghost chain: seq<Seg>)
      requires Valid() && |names| > 0 && |parents| == |names| && parents[0].id == txn.rootId
      requires forall i :: 0 <= i < |parents| ==> parents[i].id in repo.nodes
      requires forall i :: 0 < i < |names| ==> parents[i].name == names[i - 1]
      requires Linked(repo.nodes, parents, |names| - 1) && repo.nodes[parents[|names| - 1].id].kind == Dir
      requires names[|names| - 1] !in repo.nodes[parents[|names| - 1].id].entries
      modifies repo`nodes, txn`nextCopyKey, txn`nextNodeKey, txn`changes
      ensures Valid() && Preserves(old(repo.nodes), repo.nodes)
      ensures r.Err? ==> txn.changes == old(txn.changes)
      ensures NewNodeOutcome(r, names, isDir, txn.checkLocks && !FsLocks.Covered(repo.locks, PathOf(names), isDir, author, lockTokens))
      ensures r.Ok? && txn.checkLocks ==> FsLocks.Covered(repo.locks, PathOf(names), isDir, author, lockTokens)
      ensures r.Ok? ==> Created(names, if isDir then Dir else File, created, parents, chain, old(repo.nodes), old(txn.changes))
    {
      created, chain := txn.rootId, [];
      if txn.checkLocks {
        var allowed := FsLocks.AllowLockedOperation(repo.locks, PathOf(names), author, lockTokens, isDir);
        if allowed.Err? {
          return Err(allowed.error), created, chain;
        }
      }
      r, created, chain := PlaceNode(parents, names, isDir);
    }

    /** AddEntry once the locks allowed it: the parent chain made mutable, then the new node entered under the last name. */
    method PlaceNode(parents: seq<Seg>, names: seq<string>, isDir: bool) returns (r: Result<(), FsError>, ghost created: NodeId, ghost chain: seq<Seg>)
      requires Valid() && |names| > 0 && |parents| == |names| && parents[0].id == txn.rootId
      requires forall i :: 0 <= i < |parents| ==> parents[i].id in repo.nodes
      requires forall i :: 0 < i < |names| ==> parents[i].name == names[i - 1]
      requires Linked(repo.nodes, parents, |names| - 1) && repo.nodes[parents[|names| - 1].id].kind == Dir
      requires names[|names| - 1] !in repo.nodes[parents[|names| - 1].id].entries
      modifies repo`nodes, txn`nextCopyKey, txn`nextNodeKey, txn`changes
      ensures Valid() && Preserves(old(repo.nodes), repo.nodes)
      ensures r.Err? ==> txn.changes == old(txn.changes) && CloneFault(r.error)
      ensures !IsSingleComponent(names[|names| - 1]) ==> r.Err?
      ensures r.Ok? ==> Created(names, if isDir then Dir else File, created, parents, chain, old(repo.nodes), old(txn.changes))
    {
      created, chain := txn.rootId, [];
      var k := |names| - 1;
      assert parents[0].id.IsTxn();
      var mutable := MakePathMutable(parents, k, PathOf(names));
      if mutable.Err? {
        return Err(mutable.error), created, chain;
      }
      ghost var mid := repo.nodes;
      r, created := EnterNode(mutable.value, names, isDir);
      PreservesTransitive(old(repo.nodes), mid, repo.nodes);
      if r.Ok? {
        chain := mutable.value[..|names|];
        CreatedIntro(old(repo.nodes), old(txn.changes), mid, parents, mutable.value, names, created,
                     if isDir then Dir else File, ChainPath(mutable.value, k));
      }
    }

    /** The second half of AddEntry: enters the new node once the parent chain has been made mutable, and logs it. */
    method EnterNode(chain: seq<Seg>, names: seq<string>, isDir: bool) returns (r: Result<(), FsError>, ghost created: NodeId)
      requires Valid() && |chain| == |names| > 0
      requires chain[|names| - 1].id in repo.nodes && chain[|names| - 1].id.IsTxn()
      requires repo.nodes[chain[|names| - 1].id].kind == Dir
      modifies repo`nodes, txn`nextNodeKey, txn`changes
      ensures Valid() && Preserves(old(repo.nodes), repo.nodes)
      ensures r.Err? ==> repo.nodes == old(repo.nodes) && txn.changes == old(txn.changes) && r.error == NotSinglePathComponent
      ensures r.Err? <==> !IsSingleComponent(names[|names| - 1])
      ensures r.Ok? ==> created !in old(repo.nodes) && created.IsTxn()
      ensures r.Ok? ==> (repo.nodes ==
        old(repo.nodes)[created := NewNode(if isDir then Dir else File, old(repo.nodes)[chain[|names| - 1].id], ChainPath(chain, |names| - 1), names[|names| - 1])]
                       [chain[|names| - 1].id := old(repo.nodes)[chain[|names| - 1].id].(entries :=
                          old(repo.nodes)[chain[|names| - 1].id].entries[names[|names| - 1] := Entry(created, if isDir then Dir else File)])])
      ensures r.Ok? ==>
        txn.changes == old(txn.changes) + [PathChange(PathOf(names), created, Add, false, false, INVALID_REVISION, None, if isDir then Dir else File)]
    {
      var k := |names| - 1;
      created := txn.rootId;
      var made := MakeEntry(chain[k].id, ChainPath(chain, k), names[k], isDir);
      if made.Err? {
        return Err(made.error), created;
      }
      created := made.value;
      AddChange(PathOf(names), made.value, Add, false, false, INVALID_REVISION, None, if isDir then Dir else File);
      r := Ok(());
    }

    /**
     * Entering a new empty node `created` under the last name of `names` in the mutable
     * copy `mut` of a parent path, and logging the addition, makes a Created store.
     */
    lemma CreatedIntro(before: map<NodeId, RevNode>, changesBefore: seq<PathChange>, mid: map<NodeId, RevNode>,
                       path: seq<Seg>, mut: seq<Seg>, names: seq<string>, created: NodeId, kind: Kind, parentPath: string)
      requires |names| > 0 && |path| == |names| && path[0].id == txn.rootId && path[0].id.IsTxn()
      requires forall i :: 0 < i < |names| ==> path[i].name == names[i - 1]
      requires path[|names| - 1].id in before && before[path[|names| - 1].id].kind == Dir
      requires names[|names| - 1] !in before[path[|names| - 1].id].entries
      requires Mutated(before, mid, path, mut, |names| - 1)
      requires created !in mid && created.IsTxn()
      requires repo.nodes == mid[created := NewNode(kind, mid[mut[|names| - 1].id], parentPath, names[|names| - 1])]
                                [mut[|names| - 1].id := mid[mut[|names| - 1].id].(entries :=
                                   mid[mut[|names| - 1].id].entries[names[|names| - 1] := Entry(created, kind)])]
      requires txn.changes == changesBefore + [PathChange(PathOf(names), created, Add, false, false, INVALID_REVISION, None, kind)]
      ensures Created(names, kind, created, path, mut[..|names|], before, changesBefore)
    {
      var p := mut[|names| - 1].id;
      EnteredFrame(mid, repo.nodes, p, created, NewNode(kind, mid[p], parentPath, names[|names| - 1]), Entry(created, kind), names[|names| - 1]);
      EntryEditedIntro(before, mid, repo.nodes, repo.nodes, path, mut, names, Some(Entry(created, kind)), 0, repo.supportsMergeInfo);
      EditedOpenPath(before, path, mut[..|names|], names, Some(Entry(created, kind)));
    }

    /**
     * Makes entry `name` of the transaction directory `toId` name a copy of `fromId`: with
     * history, a new successor of the source under a fresh copy number; without, the
     * source node itself.
     */
    method Copy(toId: NodeId, name: string, fromId: NodeId, fromNode: RevNode, preserveHistory: bool, fromRev: int, fromPath: string)
      returns (r: Result<NodeId, FsError>)
      requires Valid() && toId in repo.nodes && fromId in repo.nodes
      modifies repo`nodes, txn`nextCopyKey
      ensures Valid() && Preserves(old(repo.nodes), repo.nodes)
      ensures r.Ok? <==> old(repo.nodes)[toId].kind == Dir && toId.IsTxn()
      ensures r.Ok? ==> (r.value in repo.nodes && toId in repo.nodes &&
        name in repo.nodes[toId].entries && repo.nodes[toId].entries[name] == Entry(r.value, fromNode.kind))
      ensures r.Ok? ==> forall id :: id in old(repo.nodes) && id != toId ==> repo.nodes[id] == old(repo.nodes)[id]
      ensures r.Ok? ==> (repo.nodes[toId] ==
        old(repo.nodes)[toId].(entries := WithEntry(old(repo.nodes)[toId].entries, name, Some(Entry(r.value, fromNode.kind)))))
      ensures r.Ok? && !preserveHistory ==> r.value == fromId
      ensures r.Ok? && preserveHistory ==>
        && r.value == NodeId(fromId.nodeId, Key(old(txn.nextCopyKey), true), InTxn(txn.txnId))
        && r.value !in old(repo.nodes)
        && repo.nodes[r.value] == CopyOf(fromNode, fromId, old(repo.nodes)[toId].createdPath, name, fromRev, fromPath)
    {
      var id: NodeId;
      if preserveHistory {
        var toRevNode := CopyOf(fromNode, fromId, repo.nodes[toId].createdPath, name, fromRev, fromPath);
        var copyId := ReserveCopyId();
        id := NodeId(fromId.nodeId, copyId, InTxn(txn.txnId));
        repo.nodes := repo.nodes[id := toRevNode];
      } else {
        id := fromId;
      }
      var linked := SetEntry(toId, name, Some(Entry(id, fromNode.kind)));
      if linked.Err? {
        return Err(linked.error);
      }
      return Ok(id);
    }

    /**
     * Copies the node at a path of a revision to a path of the transaction (makeCopy):
     * the destination must be unlocked or locked by this user (recursively) when the
     * transaction checks locks; copying a node onto itself changes nothing; otherwise
     * the destination's parent chain is made mutable, the copy is linked in, the
     * merge-info counts above it shift by the difference between the source's and the
     * replaced node's counts, and an addition or replacement with its copy source is logged.
     */
    method MakeCopy(fromRev: nat, fromNames: seq<string>, toNames: seq<string>, preserveHistory: bool)
      returns (r: Result<(), FsError>, ghost source: Result<seq<NodeId>, FsError>,
               ghost resolved: Result<(seq<Seg>, Option<Entry>), FsError>, ghost copied: NodeId,
               ghost delta: int, ghost chain: seq<Seg>, ghost unbumped: map<NodeId, RevNode>)
      requires Valid() && |toNames| > 0 && fromRev in repo.revRoots
      modifies repo`nodes, txn`nextCopyKey, txn`changes
      ensures Valid() && Preserves(old(repo.nodes), repo.nodes)
      ensures source == Walk(old(repo.nodes), repo.revRoots[fromRev], fromNames)
      ensures source.Err? ==> r == Err(source.error)
      ensures source.Ok? ==> resolved == old(OpenParent(toNames))
      ensures source.Ok? && resolved.Err? ==> r == Err(resolved.error)
      ensures source.Ok? && resolved.Ok? && txn.checkLocks && !FsLocks.Covered(repo.locks, PathOf(toNames), true, author, lockTokens) ==>
        r.Err? && FsLocks.LockFault(r.error)
      ensures source.Ok? && resolved.Ok? && (!txn.checkLocks || FsLocks.Covered(repo.locks, PathOf(toNames), true, author, lockTokens)) ==>
        r.Ok? || CloneFault(r.error)
      ensures r.Err? ==> txn.changes == old(txn.changes)
      ensures r.Ok? ==> source.Ok? && resolved.Ok? && |source.value| == |fromNames| + 1 && source.value[|fromNames|] in old(repo.nodes)
      ensures r.Ok? && resolved.value.1.Some? && resolved.value.1.value.id == source.value[|fromNames|] ==>
        repo.nodes == old(repo.nodes) && txn.changes == old(txn.changes)
      ensures r.Ok? && !(resolved.value.1.Some? && resolved.value.1.value.id == source.value[|fromNames|]) ==>
        CopyFinished(toNames, source.value[|fromNames|], preserveHistory, fromRev, PathOf(fromNames), resolved, copied, delta,
                     chain, unbumped, old(repo.nodes), old(txn.changes))
    {
      copied, delta, chain, unbumped := txn.rootId, 0, [], repo.nodes;
      resolved := Err(Unknown);
      source := Walk(repo.nodes, repo.revRoots[fromRev], fromNames);
      var fromWalk := Walk(repo.nodes, repo.revRoots[fromRev], fromNames);
      if fromWalk.Err? {
        return Err(fromWalk.error), source, resolved, copied, delta, chain, unbumped;
      }
      var fromId := fromWalk.value[|fromNames|];
      r, resolved, copied, delta, chain, unbumped := CopyTo(fromRev, PathOf(fromNames), fromId, toNames, preserveHistory);
    }

    /** The part of makeCopy after the source node is found: the destination checks and the copy. */
    method CopyTo(fromRev: nat, fromPath: string, fromId: NodeId, toNames: seq<string>, preserveHistory: bool)
      returns (r: Result<(), FsError>, ghost resolved: Result<(seq<Seg>, Option<Entry>), FsError>, ghost copied: NodeId,
               ghost delta: int, ghost chain: seq<Seg>, ghost unbumped: map<NodeId, RevNode>)
      requires Valid() && |toNames| > 0 && fromId in repo.nodes
      modifies repo`nodes, txn`nextCopyKey, txn`changes
      ensures Valid() && Preserves(old(repo.nodes), repo.nodes)
      ensures resolved == old(OpenParent(toNames))
      ensures resolved.Err? ==> r == Err(resolved.error)
      ensures resolved.Ok? && txn.checkLocks && !FsLocks.Covered(repo.locks, PathOf(toNames), true, author, lockTokens) ==>
        r.Err? && FsLocks.LockFault(r.error)
      ensures resolved.Ok? && (!txn.checkLocks || FsLocks.Covered(repo.locks, PathOf(toNames), true, author, lockTokens)) ==>
        r.Ok? || CloneFault(r.error)
      ensures r.Err? ==> txn.changes == old(txn.changes)
      ensures r.Ok? ==> resolved.Ok?
      ensures r.Ok? && resolved.value.1.Some? && resolved.value.1.value.id == fromId ==>
        repo.nodes == old(repo.nodes) && txn.changes == old(txn.changes)
      ensures r.Ok? && !(resolved.value.1.Some? && resolved.value.1.value.id == fromId) ==>
        CopyFinished(toNames, fromId, preserveHistory, fromRev, fromPath, resolved, copied, delta, chain, unbumped,
                     old(repo.nodes), old(txn.changes))
    {
      copied, delta, chain, unbumped := txn.rootId, 0, [], repo.nodes;
      ghost var before := repo.nodes;
      var fromNode := repo.nodes[fromId];
      var toWalk := OpenParent(toNames);
      resolved := toWalk;
      if toWalk.Err? {
        return Err(toWalk.error), resolved, copied, delta, chain, unbumped;
      }
      if txn.checkLocks {
        var allowed := FsLocks.AllowLockedOperation(repo.locks, PathOf(toNames), author, lockTokens, true);
        if allowed.Err? {
          return Err(allowed.error), resolved, copied, delta, chain, unbumped;
        }
      }
      assert repo.nodes == before;
      var (parents, target) := toWalk.value;
      if target.Some? && target.value.id == fromId {
        return Ok(()), resolved, copied, delta, chain, unbumped;
      }
      var changeKind := ReplaceKind(target);
      var start := ReplacedCount(repo.nodes, target, repo.supportsMergeInfo);
      r, copied, delta, chain, unbumped :=
        CopyInto(parents, toNames, fromId, fromNode, preserveHistory, fromRev, fromPath, changeKind, start);
      assert fromNode == before[fromId];
    }

    /**
     * What linking a copy leaves in the store before its merge-info adjustment
     * (`unadjusted`): a mutable parent chain whose last directory names the copy, and the
     * copy itself, a successor of the source when history is kept and the source node
     * otherwise.
     */
    ghost predicate CopyLinked(toNames: seq<string>, fromId: NodeId, fromNode: RevNode, preserveHistory: bool, fromRev: int,
                               fromPath: string, copied: NodeId, chain: seq<Seg>,
                               unadjusted: map<NodeId, RevNode>, before: map<NodeId, RevNode>)
    {
      && |toNames| > 0 && |chain| == |toNames|
      && (forall i :: 0 <= i < |chain| ==> chain[i].id in unadjusted && chain[i].id.IsTxn())
      && Preserves(before, unadjusted) && copied in unadjusted
      && toNames[|toNames| - 1] in unadjusted[chain[|toNames| - 1].id].entries
      && unadjusted[chain[|toNames| - 1].id].entries[toNames[|toNames| - 1]] == Entry(copied, fromNode.kind)
      && (!preserveHistory ==> copied == fromId)
      && (preserveHistory ==>
            && copied.IsTxn() && copied !in before && copied.nodeId == fromId.nodeId
            && unadjusted[copied].predecessor == Some(fromId) && unadjusted[copied].count == SuccessorCount(fromNode.count)
            && unadjusted[copied].copyFromRev == fromRev && unadjusted[copied].copyFromPath == Some(fromPath)
            && unadjusted[copied].entries == fromNode.entries && unadjusted[copied].props == fromNode.props)
    }

    /**
     * A finished copy: linked as CopyLinked says, one change of kind `kind` logged with
     * its copy source, and the chain's merge-info counts shifted by the source's count
     * less `start`, the count of the node the copy replaced (when merge info is supported).
     */
    ghost predicate CopyDone(toNames: seq<string>, fromId: NodeId, fromNode: RevNode, preserveHistory: bool, fromRev: int,
                             fromPath: string, kind: ChangeKind, start: int, copied: NodeId, delta: int, chain: seq<Seg>,
                             unadjusted: map<NodeId, RevNode>, before: map<NodeId, RevNode>, after: map<NodeId, RevNode>,
                             changesBefore: seq<PathChange>, changesAfter: seq<PathChange>, supported: bool)
    {
      && CopyLinked(toNames, fromId, fromNode, preserveHistory, fromRev, fromPath, copied, chain, unadjusted, before)
      && changesAfter == changesBefore + [PathChange(PathOf(toNames), copied, kind, false, false, fromRev, Some(fromPath), fromNode.kind)]
      && delta == (if supported then fromNode.mergeInfoCount - start else 0)
      && MergeInfoAdjusted(after, unadjusted, chain, delta, supported)
    }

    /**
     * Where a finished copy sits in the tree: the destination's parent chain is a mutable
     * copy of `path` whose last directory now names the copy, nothing off the chain
     * changed, and, when the path visits no node twice or the name was free, the parent
     * path resolves to that directory and the destination path to the copy.
     */
    ghost predicate CopyPlaced(before: map<NodeId, RevNode>, path: seq<Seg>, chain: seq<Seg>, toNames: seq<string>,
                               copied: NodeId, kind: Kind)
      reads repo, txn
    {
      && EntryEdited(before, repo.nodes, path, chain, toNames, Some(Entry(copied, kind)))
      && (DistinctSteps(path, |toNames| - 1) || toNames[|toNames| - 1] !in before[path[|toNames| - 1].id].entries ==>
            && ParentAt(toNames, chain[|toNames| - 1].id)
            && OpenPath(toNames).Ok? && OpenPath(toNames).value[|toNames|].id == copied)
    }

    /**
     * A copy made over a resolved destination: CopyDone, with an addition logged for a
     * free name and a replacement for a taken one, the merge-info shift measured from the
     * replaced node's count, and the copy placed in the tree as CopyPlaced says.
     */
    ghost predicate CopyFinished(toNames: seq<string>, fromId: NodeId, preserveHistory: bool, fromRev: int, fromPath: string,
                                 resolved: Result<(seq<Seg>, Option<Entry>), FsError>, copied: NodeId, delta: int,
                                 chain: seq<Seg>, unbumped: map<NodeId, RevNode>, before: map<NodeId, RevNode>,
                                 changesBefore: seq<PathChange>)
      requires fromId in before
      reads repo, txn
    {
      && resolved.Ok? && |resolved.value.0| == |toNames|
      && (resolved.value.1.Some? ==> resolved.value.1.value.id in before)
      && CopyDone(toNames, fromId, before[fromId], preserveHistory, fromRev, fromPath, ReplaceKind(resolved.value.1),
                  ReplacedCount(before, resolved.value.1, repo.supportsMergeInfo), copied, delta, chain, unbumped,
                  before, repo.nodes, changesBefore, txn.changes, repo.supportsMergeInfo)
      && CopyPlaced(before, resolved.value.0, chain, toNames, copied, before[fromId].kind)
    }

    /** The part of makeCopy after its checks: makes the destination's parent chain mutable, then copies. */
    method CopyInto(parents: seq<Seg>, toNames: seq<string>, fromId: NodeId, fromNode: RevNode, preserveHistory: bool,
                    fromRev: int, fromPath: string, changeKind: ChangeKind, start: int)
      returns (r: Result<(), FsError>, ghost copied: NodeId, ghost delta: int, ghost chain: seq<Seg>, ghost unbumped: map<NodeId, RevNode>)
      requires Valid() && |toNames| > 0 && |parents| == |toNames| && parents[0].id == txn.rootId
      requires forall i :: 0 <= i < |parents| ==> parents[i].id in repo.nodes
      requires forall i :: 0 < i < |toNames| ==> parents[i].name == toNames[i - 1]
      requires Linked(repo.nodes, parents, |toNames| - 1) && repo.nodes[parents[|toNames| - 1].id].kind == Dir
      requires fromId in repo.nodes
      modifies repo`nodes, txn`nextCopyKey, txn`changes
      ensures Valid() && Preserves(old(repo.nodes), repo.nodes)
      ensures r.Err? ==> txn.changes == old(txn.changes) && CloneFault(r.error)
      ensures r.Ok? ==> CopyDone(toNames, fromId, fromNode, preserveHistory, fromRev, fromPath, changeKind, start, copied, delta, chain,
                                 unbumped, old(repo.nodes), repo.nodes, old(txn.changes), txn.changes, repo.supportsMergeInfo)
      ensures r.Ok? ==> CopyPlaced(old(repo.nodes), parents, chain, toNames, copied, fromNode.kind)
    {
      copied, delta, chain, unbumped := txn.rootId, 0, [], repo.nodes;
      var k := |toNames| - 1;
      assert parents[0].id.IsTxn();
      var mutable := MakePathMutable(parents, k, PathOf(toNames));
      if mutable.Err? {
        return Err(mutable.error), copied, delta, chain, unbumped;
      }
      MutatedContent(old(repo.nodes), repo.nodes, parents, mutable.value, k);
      copied, delta, chain, unbumped :=
        PlaceCopy(old(repo.nodes), old(txn.changes), parents, mutable.value, toNames, fromId, fromNode, preserveHistory,
                  fromRev, fromPath, changeKind, start);
      r := Ok(());
    }

    /** CopyInto once the destination's parent chain `path` has its mutable copy `mut`: the copy linked and placed. */
    method PlaceCopy(ghost before: map<NodeId, RevNode>, ghost changesBefore: seq<PathChange>, path: seq<Seg>, mut: seq<Seg>,
                     toNames: seq<string>, fromId: NodeId, fromNode: RevNode, preserveHistory: bool,
                     fromRev: int, fromPath: string, changeKind: ChangeKind, start: int)
      returns (ghost copied: NodeId, ghost delta: int, ghost chain: seq<Seg>, ghost unbumped: map<NodeId, RevNode>)
      requires Valid() && |toNames| > 0 && |path| == |toNames| && path[0].id == txn.rootId && path[0].id.IsTxn()
      requires forall i :: 0 < i < |toNames| ==> path[i].name == toNames[i - 1]
      requires Mutated(before, repo.nodes, path, mut, |toNames| - 1) && before[path[|toNames| - 1].id].kind == Dir
      requires Preserves(before, repo.nodes) && fromId in repo.nodes && changesBefore == txn.changes
      modifies repo`nodes, txn`nextCopyKey, txn`changes
      ensures Valid() && Preserves(old(repo.nodes), repo.nodes)
      ensures CopyDone(toNames, fromId, fromNode, preserveHistory, fromRev, fromPath, changeKind, start, copied, delta, chain,
                       unbumped, before, repo.nodes, changesBefore, txn.changes, repo.supportsMergeInfo)
      ensures CopyPlaced(before, path, chain, toNames, copied, fromNode.kind)
    {
      ghost var mid := repo.nodes;
      copied, delta, chain, unbumped :=
        LinkCopy(before, changesBefore, mid, mut, toNames, fromId, fromNode, preserveHistory, fromRev, fromPath, changeKind, start);
      CopyPlacedIntro(before, mid, unbumped, path, mut, toNames, copied, fromNode.kind, delta);
    }

    /**
     * The second half of CopyInto: links the copy into the last directory of the mutable
     * chain, shifts the chain's merge-info counts and logs the change.
     */
    method LinkCopy(ghost before: map<NodeId, RevNode>, ghost changesBefore: seq<PathChange>, ghost cur: map<NodeId, RevNode>, mut: seq<Seg>,
                    toNames: seq<string>, fromId: NodeId, fromNode: RevNode, preserveHistory: bool,
                    fromRev: int, fromPath: string, changeKind: ChangeKind, start: int)
      returns (ghost copied: NodeId, ghost delta: int, ghost chain: seq<Seg>, ghost unbumped: map<NodeId, RevNode>)
      requires Valid() && |toNames| > 0 && |mut| >= |toNames|
      requires forall i :: 0 <= i < |toNames| ==> mut[i].id in repo.nodes && mut[i].id.IsTxn()
      requires repo.nodes[mut[|toNames| - 1].id].kind == Dir
      requires Preserves(before, repo.nodes) && fromId in repo.nodes && changesBefore == txn.changes && cur == repo.nodes
      modifies repo`nodes, txn`nextCopyKey, txn`changes
      ensures Valid() && Preserves(old(repo.nodes), repo.nodes)
      ensures chain == mut[..|toNames|]
      ensures CopyDone(toNames, fromId, fromNode, preserveHistory, fromRev, fromPath, changeKind, start, copied, delta, chain,
                       unbumped, before, repo.nodes, changesBefore, txn.changes, repo.supportsMergeInfo)
      ensures OnlyAt(cur, unbumped, mut[|toNames| - 1].id)
      ensures unbumped[mut[|toNames| - 1].id] == cur[mut[|toNames| - 1].id].(entries :=
        WithEntry(cur[mut[|toNames| - 1].id].entries, toNames[|toNames| - 1], Some(Entry(copied, fromNode.kind))))
    {
      var k := |toNames| - 1;
      var parents := mut[..|toNames|];
      ghost var mid := repo.nodes;
      var linked := Copy(mut[k].id, toNames[k], fromId, fromNode, preserveHistory, fromRev, fromPath);
      assert linked.Ok?;
      copied, unbumped := linked.value, repo.nodes;
      PreservesTransitive(before, mid, repo.nodes);
      var increment := if repo.supportsMergeInfo then fromNode.mergeInfoCount - start else 0;
      AdjustMergeInfo(parents, increment);
      chain, delta := parents, increment;
      PreservesTransitive(old(repo.nodes), unbumped, repo.nodes);
      AddChange(PathOf(toNames), linked.value, changeKind, false, false, fromRev, Some(fromPath), fromNode.kind);
    }

    /** Linking an entry into the mutable chain and adjusting the counts along it makes a CopyPlaced store. */
    lemma CopyPlacedIntro(before: map<NodeId, RevNode>, mid: map<NodeId, RevNode>, edited: map<NodeId, RevNode>,
                          path: seq<Seg>, mut: seq<Seg>, toNames: seq<string>, copied: NodeId, kind: Kind, delta: int)
      requires |toNames| > 0 && |path| == |toNames| && path[0].id == txn.rootId && path[0].id.IsTxn()
      requires forall i :: 0 < i < |toNames| ==> path[i].name == toNames[i - 1]
      requires Mutated(before, mid, path, mut, |toNames| - 1) && before[path[|toNames| - 1].id].kind == Dir
      requires copied in edited && OnlyAt(mid, edited, mut[|toNames| - 1].id)
      requires edited[mut[|toNames| - 1].id] ==
        mid[mut[|toNames| - 1].id].(entries := WithEntry(mid[mut[|toNames| - 1].id].entries, toNames[|toNames| - 1], Some(Entry(copied, kind))))
      requires MergeInfoAdjusted(repo.nodes, edited, mut[..|toNames|], delta, repo.supportsMergeInfo)
      ensures CopyPlaced(before, path, mut[..|toNames|], toNames, copied, kind)
    {
      var e := Some(Entry(copied, kind));
      EntryEditedIntro(before, mid, edited, repo.nodes, path, mut, toNames, e, delta, repo.supportsMergeInfo);
      var k := |toNames| - 1;
      if DistinctSteps(path, k) || toNames[k] !in before[path[k].id].entries {
        AdjustedShape(repo.nodes, edited, mut[..|toNames|], delta, repo.supportsMergeInfo);
        EditedOpenPath(before, path, mut[..|toNames|], toNames, e);
      }
    }

    /**
     * Three-way merge of directory `targetId` (of the transaction) against `sourceId`
     * with common ancestor `ancestorId`. A target equal to the ancestor is a bad merge;
     * a source equal to the ancestor or to the target leaves nothing to do; otherwise the
     * three must be directories and the target's properties the ancestor's, or the
     * target path is in conflict. Returns the change of the merge-info count below the
     * target. `fuel` bounds the depth of the recursion into subdirectories.
     */
    method Merge(targetPath: string, targetId: NodeId, sourceId: NodeId, ancestorId: NodeId, fuel: nat)
      returns (r: Result<int, FsError>, ghost tr: MergeTrace)
      requires Valid() && targetId in repo.nodes && sourceId in repo.nodes && ancestorId in repo.nodes
      modifies repo`nodes
      decreases fuel, 5
      ensures Valid() && Preserves(old(repo.nodes), repo.nodes)
      ensures r.Err? ==> r.error != TxnOutOfDate
      ensures r.Ok? ==> r.value == tr.inc && Framed(old(repo.nodes), repo.nodes, tr.written)
      ensures r.Ok? && !repo.supportsMergeInfo ==> r.value == 0
      ensures ancestorId == targetId ==> r == Err(General) && repo.nodes == old(repo.nodes)
      ensures ancestorId != targetId && (sourceId == ancestorId || sourceId == targetId) ==>
        r == Ok(0) && tr == NoMerge && repo.nodes == old(repo.nodes)
      ensures ancestorId != targetId && sourceId != ancestorId && sourceId != targetId &&
              (old(repo.nodes)[sourceId].kind != Dir || old(repo.nodes)[targetId].kind != Dir || old(repo.nodes)[ancestorId].kind != Dir ||
               old(repo.nodes)[targetId].props != old(repo.nodes)[ancestorId].props) ==>
        r == Err(Conflict(targetPath)) && repo.nodes == old(repo.nodes)
      ensures r.Ok? && ancestorId != targetId && sourceId != ancestorId && sourceId != targetId ==>
        DirMerged(fuel, targetId, sourceId, ancestorId, tr, old(repo.nodes), repo.nodes, repo.supportsMergeInfo)
      ensures Committed(old(repo.nodes), sourceId, ancestorId) && MergeClean(fuel, targetId, sourceId, ancestorId, old(repo.nodes)) ==>
        r.Ok? && tr.written <= MergeWrites(fuel, targetId, sourceId, ancestorId, old(repo.nodes))
    {
      tr := NoMerge;
      if ancestorId == targetId {
        return Err(General), tr;
      }
      if ancestorId == sourceId || sourceId == targetId {
        return Ok(0), tr;
      }
      var target, source, ancestor := repo.nodes[targetId], repo.nodes[sourceId], repo.nodes[ancestorId];
      if source.kind != Dir || target.kind != Dir || ancestor.kind != Dir {
        return Err(Conflict(targetPath)), tr;
      }
      if target.props != ancestor.props {
        return Err(Conflict(targetPath)), tr;
      }
      r, tr := MergeDirs(targetPath, targetId, sourceId, ancestorId, fuel);
    }

    /**
     * The body of the merge once its guards passed: both entry loops, then the target's
     * ancestry and merge-info count. The trace lists the target and what the sub-merges
     * of the first loop rewrote.
     */
    method MergeDirs(targetPath: string, targetId: NodeId, sourceId: NodeId, ancestorId: NodeId, fuel: nat)
      returns (r: Result<int, FsError>, ghost tr: MergeTrace)
      requires Valid() && targetId in repo.nodes && sourceId in repo.nodes && ancestorId in repo.nodes
      requires repo.nodes[targetId].kind == Dir && repo.nodes[sourceId].kind == Dir && repo.nodes[ancestorId].kind == Dir
      requires repo.nodes[targetId].props == repo.nodes[ancestorId].props
      requires ancestorId != targetId && sourceId != ancestorId && sourceId != targetId
      modifies repo`nodes
      decreases fuel, 4
      ensures Valid() && Preserves(old(repo.nodes), repo.nodes)
      ensures r.Err? ==> r.error != TxnOutOfDate
      ensures r.Ok? ==> r.value == tr.inc && Framed(old(repo.nodes), repo.nodes, tr.written)
      ensures r.Ok? && !repo.supportsMergeInfo ==> r.value == 0
      ensures r.Ok? ==> DirMerged(fuel, targetId, sourceId, ancestorId, tr, old(repo.nodes), repo.nodes, repo.supportsMergeInfo)
      ensures Committed(old(repo.nodes), sourceId, ancestorId) && MergeClean(fuel, targetId, sourceId, ancestorId, old(repo.nodes)) ==>
        r.Ok? && tr.written <= MergeWrites(fuel, targetId, sourceId, ancestorId, old(repo.nodes))
    {
      tr := NoMerge;
      var target, source, ancestor := repo.nodes[targetId], repo.nodes[sourceId], repo.nodes[ancestorId];
      ghost var committed := Committed(repo.nodes, sourceId, ancestorId);
      var fromAncestor, kids := MergeAncestorEntries(targetPath, targetId, ancestor.entries, source.entries, target, fuel, committed,
                                                     committed && MergeClean(fuel, targetId, sourceId, ancestorId, repo.nodes));
      if fromAncestor.Err? {
        return Err(fromAncestor.error), tr;
      }
      r, tr := MergeSourceSide(targetPath, targetId, sourceId, ancestorId, source.count, ancestor.entries, source.entries,
                               target, kids, fromAncestor.value, fuel, old(repo.nodes));
    }

    /** MergeDirs after its first loop: the second loop, then the end of the merge. */
    method MergeSourceSide(targetPath: string, targetId: NodeId, sourceId: NodeId, ancestorId: NodeId, sourceCount: int,
                           a: map<string, Entry>, s: map<string, Entry>, target: RevNode, ghost kids: map<string, MergeTrace>,
                           incA: int, ghost fuel: nat, ghost before: map<NodeId, RevNode>)
      returns (r: Result<int, FsError>, ghost tr: MergeTrace)
      requires Valid() && targetId in before && sourceId in before && ancestorId in before
      requires a == before[ancestorId].entries && s == before[sourceId].entries && target == before[targetId]
      requires sourceCount == before[sourceId].count
      requires target.kind == Dir && before[sourceId].kind == Dir && before[ancestorId].kind == Dir
      requires target.props == before[ancestorId].props
      requires Committed(before, sourceId, ancestorId) ==> SidesCommitted(before, a, s)
      requires Preserves(before, repo.nodes)
      requires AncestorProgress(targetId, a, s, target, fuel, repo.supportsMergeInfo, Committed(before, sourceId, ancestorId),
                                a.Keys, kids, incA, before, repo.nodes)
      requires sourceId != ancestorId && sourceId != targetId
      requires Committed(before, sourceId, ancestorId) && MergeClean(fuel, targetId, sourceId, ancestorId, before) ==>
        KidsWithin(fuel, a, s, target.entries, kids, before)
      modifies repo`nodes
      ensures Valid() && Preserves(old(repo.nodes), repo.nodes)
      ensures r.Err? ==> r.error != TxnOutOfDate
      ensures r.Ok? ==> r.value == tr.inc && Framed(before, repo.nodes, tr.written)
      ensures r.Ok? && !repo.supportsMergeInfo ==> r.value == 0
      ensures r.Ok? ==> DirMerged(fuel, targetId, sourceId, ancestorId, tr, before, repo.nodes, repo.supportsMergeInfo)
      ensures Committed(before, sourceId, ancestorId) && MergeClean(fuel, targetId, sourceId, ancestorId, before) ==>
        r.Ok? && tr.written <= MergeWrites(fuel, targetId, sourceId, ancestorId, before)
    {
      tr := NoMerge;
      ghost var committed := Committed(before, sourceId, ancestorId);
      ghost var mid := repo.nodes;
      if committed && MergeClean(fuel, targetId, sourceId, ancestorId, before) {
        SourceSideClean(fuel, targetId, sourceId, ancestorId, kids, before);
      }
      SourceStart(targetId, a, s, target, fuel, repo.supportsMergeInfo, committed, kids, incA, before, mid);
      var fromSource := MergeSourceEntries(targetPath, targetId, a, s, target, UnsharedKids(targetId, kids), committed,
                                           before, kids, incA);
      if fromSource.Err? {
        return Err(fromSource.error), tr;
      }
      LoopsDone(fuel, targetId, sourceId, ancestorId, a, s, kids, incA, fromSource.value, before, mid, repo.nodes,
                repo.supportsMergeInfo);
      PreservesTransitive(before, mid, repo.nodes);
      r, tr := FinishMerge(targetPath, targetId, sourceId, ancestorId, sourceCount, a, s, target.entries, kids,
                           incA + fromSource.value, fuel, before);
    }

    /**
     * The end of the merge: the target takes the source as its predecessor, one step
     * further along its history, and its merge-info count moves by the merge's increment
     * `inc` when merge info is supported.
     */
    method FinishMerge(targetPath: string, targetId: NodeId, sourceId: NodeId, ancestorId: NodeId, sourceCount: int,
                       ghost a: map<string, Entry>, ghost s: map<string, Entry>, ghost t: map<string, Entry>,
                       ghost kids: map<string, MergeTrace>, inc: int, ghost fuel: nat, ghost before: map<NodeId, RevNode>)
      returns (r: Result<int, FsError>, ghost tr: MergeTrace)
      requires Valid() && LoopsMerged(fuel, targetId, sourceId, ancestorId, a, s, t, kids, inc, before, repo.nodes, repo.supportsMergeInfo)
      requires sourceCount == before[sourceId].count
      modifies repo`nodes
      ensures Valid() && Preserves(old(repo.nodes), repo.nodes)
      ensures r.Err? ==> r.error != TxnOutOfDate
      ensures r.Ok? ==> r.value == tr.inc && Framed(before, repo.nodes, tr.written)
      ensures r.Ok? && !repo.supportsMergeInfo ==> r.value == 0
      ensures r.Ok? ==> DirMerged(fuel, targetId, sourceId, ancestorId, tr, before, repo.nodes, repo.supportsMergeInfo)
      ensures r.Ok? <==> targetId.IsTxn()
      ensures r.Ok? ==> tr.written == {targetId} + KidsWritten(kids)
    {
      tr := NoMerge;
      ghost var cur := repo.nodes;
      var updated := UpdateAncestry(sourceId, targetId, targetPath, sourceCount);
      if updated.Err? {
        return Err(updated.error), tr;
      }
      ghost var updatedNodes := repo.nodes;
      var n := repo.nodes[targetId];
      if repo.supportsMergeInfo {
        var bumped := n.(mergeInfoCount := n.mergeInfoCount + inc);
        TxnUpdate(repo.nodes, targetId, bumped, txn.nextNodeKey, txn.nextCopyKey);
        PreservesTransitive(old(repo.nodes), repo.nodes, repo.nodes[targetId := bumped]);
        repo.nodes := repo.nodes[targetId := bumped];
      }
      FinishIntro(fuel, targetId, sourceId, ancestorId, a, s, t, kids, inc, before, cur, updatedNodes, repo.nodes,
                  repo.supportsMergeInfo);
      tr := MergeTrace(inc, {targetId} + KidsWritten(kids), kids);
      r := Ok(inc);
    }

    /** Points the transaction node `targetId` at its new predecessor `sourceId`, one step further along its history. */
    method UpdateAncestry(sourceId: NodeId, targetId: NodeId, targetPath: string, sourceCount: int) returns (r: Result<(), FsError>)
      requires Valid() && targetId in repo.nodes
      modifies repo`nodes
      ensures Valid() && Preserves(old(repo.nodes), repo.nodes)
      ensures r.Ok? <==> targetId.IsTxn()
      ensures r.Err? ==> r.error == NotMutable && repo.nodes == old(repo.nodes)
      ensures r.Ok? ==> repo.nodes == old(repo.nodes)[targetId :=
        old(repo.nodes)[targetId].(predecessor := Some(sourceId), count := SuccessorCount(sourceCount))]
    {
      if !targetId.IsTxn() {
        return Err(NotMutable);
      }
      var n := repo.nodes[targetId].(predecessor := Some(sourceId), count := SuccessorCount(sourceCount));
      TxnUpdate(repo.nodes, targetId, n, txn.nextNodeKey, txn.nextCopyKey);
      repo.nodes := repo.nodes[targetId := n];
      r := Ok(());
    }

    /**
     * The first loop of the merge: every name of the ancestor directory `a`, handled by
     * MergeEntry against the source's entries `s` and the target's entries as they were
     * (`target.entries`). `kids` are the sub-merges it ran, by name; `committed` says
     * whether source and ancestor are committed directories of a closed store.
     */
    method MergeAncestorEntries(targetPath: string, targetId: NodeId, a: map<string, Entry>, s: map<string, Entry>,
                                target: RevNode, fuel: nat, ghost committed: bool, ghost clean: bool)
      returns (r: Result<int, FsError>, ghost kids: map<string, MergeTrace>)
      requires Valid() && targetId in repo.nodes && repo.nodes[targetId] == target
      requires committed ==> SidesCommitted(repo.nodes, a, s)
      requires clean ==> committed && targetId.IsTxn() && target.kind == Dir && EntriesClean(fuel, targetId, a, s, target.entries, repo.nodes)
      modifies repo`nodes
      decreases fuel, 3
      ensures Valid() && Preserves(old(repo.nodes), repo.nodes)
      ensures r.Err? ==> r.error != TxnOutOfDate
      ensures r.Ok? ==>
        AncestorProgress(targetId, a, s, target, fuel, repo.supportsMergeInfo, committed, a.Keys, kids, r.value, old(repo.nodes), repo.nodes)
      ensures clean ==> r.Ok? && KidsWithin(fuel, a, s, target.entries, kids, old(repo.nodes))
    {
      var names := a.Keys;
      var inc := 0;
      kids := map[];
      ghost var done: set<string> := {};
      AncestorStart(targetId, a, s, fuel, repo.supportsMergeInfo, committed, repo.nodes);
      while names != {}
        invariant names + done == a.Keys && names !! done
        invariant Valid()
        invariant AncestorProgress(targetId, a, s, target, fuel, repo.supportsMergeInfo, committed, done, kids, inc, old(repo.nodes), repo.nodes)
        invariant clean ==> KidsWithin(fuel, a, s, target.entries, kids, old(repo.nodes))
        decreases names
      {
        var n :| n in names;
        var sub;
        sub, kids := MergeAncestorName(targetPath, targetId, a, s, target, fuel, committed, clean, old(repo.nodes), done, kids, inc, n);
        if sub.Err? {
          return Err(sub.error), kids;
        }
        inc := inc + sub.value;
        names := names - {n};
        done := done + {n};
      }
      r := Ok(inc);
    }

    /**
     * One round of the first loop: the ancestor name `n` merged by MergeEntry, which
     * extends the progress over the names `done` by `n`, and by its sub-merge when it
     * needed one. In a clean merge the round goes through, and its sub-merge keeps
     * within what the clean merge of `n` rewrites.
     */
    method MergeAncestorName(targetPath: string, targetId: NodeId, a: map<string, Entry>, s: map<string, Entry>,
                             target: RevNode, fuel: nat, ghost committed: bool, ghost clean: bool,
                             ghost before: map<NodeId, RevNode>, ghost done: set<string>, ghost kids: map<string, MergeTrace>,
                             inc: int, n: string)
      returns (sub: Result<int, FsError>, ghost kids': map<string, MergeTrace>)
      requires Valid() && targetId in repo.nodes && n in a && n !in done
      requires committed ==> SidesCommitted(before, a, s)
      requires AncestorProgress(targetId, a, s, target, fuel, repo.supportsMergeInfo, committed, done, kids, inc, before, repo.nodes)
      requires clean ==> committed && targetId.IsTxn() && target.kind == Dir && EntriesClean(fuel, targetId, a, s, target.entries, before)
      requires clean ==> KidsWithin(fuel, a, s, target.entries, kids, before)
      modifies repo`nodes
      decreases fuel, 2
      ensures Valid() && Preserves(old(repo.nodes), repo.nodes) && targetId in repo.nodes
      ensures sub.Err? ==> sub.error != TxnOutOfDate
      ensures sub.Ok? ==>
        AncestorProgress(targetId, a, s, target, fuel, repo.supportsMergeInfo, committed, done + {n}, kids', inc + sub.value, before, repo.nodes)
      ensures clean ==> sub.Ok? && KidsWithin(fuel, a, s, target.entries, kids', before)
    {
      if clean {
        AncestorNameClean(targetId, a, s, target, fuel, repo.supportsMergeInfo, done, kids, inc, before, repo.nodes, n);
      }
      ghost var subTrace;
      sub, kids', subTrace := MergeAncestorStep(targetPath, targetId, a, s, target, fuel, committed, before, done, kids, inc, n);
    }

    /** MergeAncestorName without the clean case: MergeEntry for `n`, and the progress it makes. */
    method MergeAncestorStep(targetPath: string, targetId: NodeId, a: map<string, Entry>, s: map<string, Entry>,
                             target: RevNode, fuel: nat, ghost committed: bool, ghost before: map<NodeId, RevNode>,
                             ghost done: set<string>, ghost kids: map<string, MergeTrace>, inc: int, n: string)
      returns (sub: Result<int, FsError>, ghost kids': map<string, MergeTrace>, ghost subTrace: MergeTrace)
      requires Valid() && targetId in repo.nodes && n in a && n !in done
      requires committed ==> SidesCommitted(before, a, s)
      requires AncestorProgress(targetId, a, s, target, fuel, repo.supportsMergeInfo, committed, done, kids, inc, before, repo.nodes)
      modifies repo`nodes
      decreases fuel, 1
      ensures Valid() && Preserves(old(repo.nodes), repo.nodes) && targetId in repo.nodes
      ensures sub.Err? ==> sub.error != TxnOutOfDate
      ensures sub.Ok? ==>
        AncestorProgress(targetId, a, s, target, fuel, repo.supportsMergeInfo, committed, done + {n}, kids', inc + sub.value, before, repo.nodes)
      ensures sub.Ok? ==> kids' == if Classify(a[n], Get(s, n), Get(target.entries, n)) == Recurse then kids[n := subTrace] else kids
      ensures EntryClean(fuel, a[n], Get(s, n), Get(target.entries, n), old(repo.nodes)) && targetId.IsTxn() &&
              old(repo.nodes)[targetId].kind == Dir ==>
        && sub.Ok?
        && (Classify(a[n], Get(s, n), Get(target.entries, n)) == Recurse ==>
              subTrace.written <= if s[n].id != target.entries[n].id
                                  then MergeWrites(fuel - 1, target.entries[n].id, s[n].id, a[n].id, old(repo.nodes)) else {})
    {
      kids' := kids;
      ghost var cur := repo.nodes;
      var act := Classify(a[n], Get(s, n), Get(target.entries, n));
      sub, subTrace := MergeEntry(targetPath, targetId, n, a[n], Get(s, n), Get(target.entries, n), fuel);
      if sub.Err? {
        return;
      }
      if act == Recurse {
        AncestorRecurseStep(targetId, a, s, target, fuel, repo.supportsMergeInfo, committed, done, kids, inc,
                            before, cur, repo.nodes, n, subTrace, sub.value);
        kids' := kids[n := subTrace];
      } else {
        AncestorEntryStep(targetId, a, s, target, fuel, repo.supportsMergeInfo, committed, done, kids, inc,
                          before, cur, repo.nodes, n, sub.value);
      }
    }

    /**
     * One ancestor entry `name` of the merge (the ancestor's entry, and the source's and
     * target's entries of that name): unchanged in the source, the target is kept;
     * unchanged in the target, the target takes the source's entry or drops it, and the
     * merge-info count moves from the replaced node's to the source's; changed on both
     * sides, the subdirectories are merged (with trace `tr`) or the child path is in conflict.
     */
    method MergeEntry(targetPath: string, targetId: NodeId, name: string, ae: Entry, se: Option<Entry>, te: Option<Entry>, fuel: nat)
      returns (r: Result<int, FsError>, ghost tr: MergeTrace)
      requires Valid() && targetId in repo.nodes
      modifies repo`nodes
      decreases fuel, 0
      ensures Valid() && Preserves(old(repo.nodes), repo.nodes)
      ensures r.Err? ==> r.error != TxnOutOfDate
      ensures Classify(ae, se, te) == ConflictAt ==> r == Err(Conflict(ChildPath(targetPath, name))) && repo.nodes == old(repo.nodes)
      ensures Classify(ae, se, te) == Recurse && fuel == 0 ==> r == Err(DepthExceeded) && repo.nodes == old(repo.nodes)
      ensures Classify(ae, se, te) == Recurse && fuel > 0 &&
              (se.value.id !in old(repo.nodes) || te.value.id !in old(repo.nodes) || ae.id !in old(repo.nodes)) ==>
        r == Err(NotFound(ChildPath(targetPath, name))) && repo.nodes == old(repo.nodes)
      ensures (Classify(ae, se, te).TakeSource? || Classify(ae, se, te) == DropEntry) && repo.supportsMergeInfo &&
              (te.value.id !in old(repo.nodes) || (se.Some? && se.value.id !in old(repo.nodes))) ==>
        r == Err(NotFound(ChildPath(targetPath, name))) && repo.nodes == old(repo.nodes)
      ensures r.Ok? && Classify(ae, se, te) != Recurse ==>
        && r.value == EntryInc(ae, se, te, old(repo.nodes), repo.supportsMergeInfo)
        && repo.nodes == old(repo.nodes)[targetId := old(repo.nodes)[targetId].(entries := Applied(old(repo.nodes)[targetId].entries, name, Classify(ae, se, te)))]
      ensures r.Ok? && Classify(ae, se, te) == Recurse ==>
        && r.value == (if repo.supportsMergeInfo then tr.inc else 0)
        && Framed(old(repo.nodes), repo.nodes, tr.written)
        && SubMerged(fuel, ae, se.value, te.value, tr, old(repo.nodes), repo.nodes, repo.supportsMergeInfo)
      ensures EntryClean(fuel, ae, se, te, old(repo.nodes)) && targetId.IsTxn() && old(repo.nodes)[targetId].kind == Dir ==>
        && r.Ok?
        && (Classify(ae, se, te) == Recurse ==>
              tr.written <= if se.value.id != te.value.id then MergeWrites(fuel - 1, te.value.id, se.value.id, ae.id, old(repo.nodes)) else {})
    {
      tr := NoMerge;
      var childPath := ChildPath(targetPath, name);
      var act := Classify(ae, se, te);
      match act
      case Keep =>
        assert repo.nodes == repo.nodes[targetId := repo.nodes[targetId].(entries := repo.nodes[targetId].entries)];
        return Ok(0), tr;
      case ConflictAt =>
        return Err(Conflict(childPath)), tr;
      case Recurse =>
        if fuel == 0 {
          return Err(DepthExceeded), tr;
        }
        var sourceChild, targetChild := se.value.id, te.value.id;
        if sourceChild !in repo.nodes || targetChild !in repo.nodes || ae.id !in repo.nodes {
          return Err(NotFound(childPath)), tr;
        }
        var sub;
        sub, tr := Merge(childPath, targetChild, sourceChild, ae.id, fuel - 1);
        if sub.Err? {
          return sub, tr;
        }
        return Ok(if repo.supportsMergeInfo then sub.value else 0), tr;
      case TakeSource(e) =>
        var inc := 0;
        if repo.supportsMergeInfo {
          if te.value.id !in repo.nodes || e.id !in repo.nodes {
            return Err(NotFound(childPath)), tr;
          }
          inc := repo.nodes[e.id].mergeInfoCount - repo.nodes[te.value.id].mergeInfoCount;
        }
        r := TakeEntry(targetId, name, Some(e), inc);
      case DropEntry =>
        var inc := 0;
        if repo.supportsMergeInfo {
          if te.value.id !in repo.nodes {
            return Err(NotFound(childPath)), tr;
          }
          inc := -repo.nodes[te.value.id].mergeInfoCount;
        }
        r := TakeEntry(targetId, name, None, inc);
    }

    /** Sets or removes entry `name` of the target and reports the merge-info change `inc` on success. */
    method TakeEntry(targetId: NodeId, name: string, e: Option<Entry>, inc: int) returns (r: Result<int, FsError>)
      requires Valid() && targetId in repo.nodes
      modifies repo`nodes
      ensures Valid() && Preserves(old(repo.nodes), repo.nodes)
      ensures r.Err? ==> r.error != TxnOutOfDate
      ensures r.Ok? <==> old(repo.nodes)[targetId].kind == Dir && targetId.IsTxn()
      ensures r.Ok? ==> r.value == inc
      ensures r.Ok? ==>
        repo.nodes == old(repo.nodes)[targetId := old(repo.nodes)[targetId].(entries := WithEntry(old(repo.nodes)[targetId].entries, name, e))]
    {
      var linked := SetEntry(targetId, name, e);
      if linked.Err? {
        return Err(linked.error);
      }
      r := Ok(inc);
    }

    /**
     * The second loop of the merge: every name only the source directory has is added to
     * the target, unless the target already has that name, which is a conflict there.
     * `unshared` says that the sub-merges of the first loop left the target node alone,
     * so that its entries are merged for the ancestor names; `prior` is the increment of
     * the first loop, over the store `before` the merge with sub-merges `kids`.
     */
    method MergeSourceEntries(targetPath: string, targetId: NodeId, a: map<string, Entry>, s: map<string, Entry>,
                              target: RevNode, ghost unshared: bool, ghost committed: bool,
                              ghost before: map<NodeId, RevNode>, ghost kids: map<string, MergeTrace>, ghost prior: int)
      returns (r: Result<int, FsError>)
      requires Valid() && targetId in repo.nodes
      requires committed ==> SideCommitted(s)
      requires SourceProgress(targetId, a, s, target, repo.supportsMergeInfo, committed, unshared, before, kids, prior,
                              {}, 0, repo.nodes, repo.nodes)
      modifies repo`nodes
      ensures Valid() && Preserves(old(repo.nodes), repo.nodes)
      ensures r.Err? ==> r.error != TxnOutOfDate
      ensures r.Ok? ==>
        SourceProgress(targetId, a, s, target, repo.supportsMergeInfo, committed, unshared, before, kids, prior,
                       s.Keys - a.Keys, r.value, old(repo.nodes), repo.nodes)
      ensures unshared && targetId.IsTxn() && target.kind == Dir && NoEntryConflict(a, s, target.entries) && Stored(s, old(repo.nodes))
        ==> r.Ok?
    {
      var t := target.entries;
      var names := s.Keys - a.Keys;
      var inc := 0;
      ghost var done: set<string> := {};
      while names != {}
        invariant names + done == s.Keys - a.Keys && names !! done
        invariant Valid() && Preserves(old(repo.nodes), repo.nodes)
        invariant SourceProgress(targetId, a, s, target, repo.supportsMergeInfo, committed, unshared, before, kids, prior,
                                 done, inc, old(repo.nodes), repo.nodes)
        decreases names
      {
        var n :| n in names;
        if n in t {
          return Err(Conflict(ChildPath(targetPath, n)));
        }
        var v := 0;
        if repo.supportsMergeInfo {
          if s[n].id !in repo.nodes {
            return Err(NotFound(ChildPath(targetPath, n)));
          }
          v := repo.nodes[s[n].id].mergeInfoCount;
        }
        ghost var cur := repo.nodes;
        var linked := SetEntry(targetId, n, Some(s[n]));
        if linked.Err? {
          return Err(linked.error);
        }
        SourceStep(targetId, a, s, target, repo.supportsMergeInfo, committed, unshared, before, kids, prior,
                   done, inc, old(repo.nodes), cur, repo.nodes, n, v);
        inc := inc + v;
        names := names - {n};
        done := done + {n};
      }
      r := Ok(inc);
    }

    /**
     * The published history is well formed: the youngest revision and every older one
     * have a root in the store, and no revision is newer than the youngest.
     */
    ghost predicate Published()
      reads repo, txn
    {
      && repo.youngest in repo.revRoots
      && (forall rev :: rev in repo.revRoots ==> rev <= repo.youngest && repo.revRoots[rev] in repo.nodes)
    }

    /**
     * The transaction's base root: the predecessor of its root node, which a merge moves
     * to the root it merged with.
     */
    function BaseRoot(): (b: Option<NodeId>)
      reads repo, txn
      ensures b.Some? ==> txn.rootId in repo.nodes && repo.nodes[txn.rootId].predecessor == b
    {
      if txn.rootId in repo.nodes then repo.nodes[txn.rootId].predecessor else None
    }

    /** The transaction has a base root, and it is in the store. */
    ghost predicate HasBase()
      reads repo, txn
    {
      BaseRoot().Some? && BaseRoot().value in repo.nodes
    }

    /**
     * Merges the transaction's root against `sourceId` with the given ancestor, by
     * default the transaction's base root; a transaction root that is still its
     * ancestor means the transaction holds no changes. A merge that goes through leaves
     * the source as the new base root.
     */
    method MergeChanges(ancestor: Option<NodeId>, sourceId: NodeId, fuel: nat) returns (r: Result<(), FsError>, ghost tr: MergeTrace)
      requires Valid() && sourceId in repo.nodes
      requires ancestor.Some? ==> ancestor.value in repo.nodes
      requires ancestor.None? ==> HasBase()
      modifies repo`nodes
      ensures Valid() && Preserves(old(repo.nodes), repo.nodes)
      ensures r.Err? ==> r.error != TxnOutOfDate
      ensures r.Ok? ==> Framed(old(repo.nodes), repo.nodes, tr.written)
      ensures var ancestorId := if ancestor.Some? then ancestor.value else old(BaseRoot()).value;
        && (txn.rootId == ancestorId ==> r == Err(Unknown) && repo.nodes == old(repo.nodes))
        && (r.Ok? && sourceId != ancestorId && sourceId != txn.rootId ==>
              DirMerged(fuel, txn.rootId, sourceId, ancestorId, tr, old(repo.nodes), repo.nodes, repo.supportsMergeInfo) &&
              BaseRoot() == Some(sourceId))
      ensures r.Ok? && old(HasBase()) ==> HasBase()
      ensures r.Ok? && ancestor.None? && sourceId != txn.rootId ==> BaseRoot() == Some(sourceId)
      ensures var ancestorId := if ancestor.Some? then ancestor.value else old(BaseRoot()).value;
        Committed(old(repo.nodes), sourceId, ancestorId) && MergeClean(fuel, txn.rootId, sourceId, ancestorId, old(repo.nodes)) ==> r.Ok?
    {
      tr := NoMerge;
      var ancestorId := if ancestor.Some? then ancestor.value else BaseRoot().value;
      if txn.rootId == ancestorId {
        return Err(Unknown), tr;
      }
      var merged;
      merged, tr := Merge("/", txn.rootId, sourceId, ancestorId, fuel);
      if merged.Err? {
        return Err(merged.error), tr;
      }
      r := Ok(());
    }

    /**
     * Publishes the transaction as the next revision: the transaction must be based on
     * the youngest revision, and every changed path must be allowed by the locks
     * (modifications checked on the path alone, every other change on its subtree).
     */
    method Commit() returns (r: Result<nat, FsError>)
      requires Valid() && Published()
      modifies repo`youngest, repo`revRoots
      ensures Valid() && Published()
      ensures r == Err(TxnOutOfDate) <==> txn.baseRevision != old(repo.youngest)
      ensures txn.baseRevision == old(repo.youngest) ==>
        (r.Ok? <==> FsLocks.AllLocksHeld(ChangedPaths(txn.changes), repo.locks, author, lockTokens))
      ensures r.Ok? ==> r.value == old(repo.youngest) + 1 && repo.youngest == r.value
      ensures r.Ok? ==> repo.revRoots == old(repo.revRoots)[r.value := txn.rootId] && r.value !in old(repo.revRoots)
      ensures r.Err? ==> repo.youngest == old(repo.youngest) && repo.revRoots == old(repo.revRoots)
    {
      var oldRev := repo.youngest;
      if txn.baseRevision != oldRev {
        return Err(TxnOutOfDate);
      }
      var locked := FsLocks.VerifyLocks(ChangedPaths(txn.changes), repo.locks, author, lockTokens);
      if locked.Err? {
        ghost var q :| q in repo.locks && FsLocks.VerifyLock(repo.locks[q], lockTokens, author) == locked;
        return Err(locked.error);
      }
      var newRevision := oldRev + 1;
      repo.revRoots := repo.revRoots[newRevision := txn.rootId];
      repo.youngest := newRevision;
      r := Ok(newRevision);
    }

    /**
     * Commits the transaction (commitTxn): merge against the youngest revision, take it
     * as the new base, then publish; when other writers published in between, so that
     * the publication finds the transaction out of date, start again against the newer
     * youngest revision. `interference[i]` lists the roots of the revisions other writers
     * publish between this writer's i-th merge and its i-th publication attempt; `depth`
     * bounds the merge's recursion.
     */
    method CommitTxn(interference: seq<seq<NodeId>>, depth: nat)
      returns (r: Result<nat, FsError>, ghost othersPublished: nat, ghost lastStore: map<NodeId, RevNode>,
               ghost lastAncestor: NodeId, ghost tr: MergeTrace)
      requires Valid() && Published() && HasBase()
      requires forall i, j :: 0 <= i < |interference| && 0 <= j < |interference[i]| ==> interference[i][j] in repo.nodes
      modifies repo`nodes, repo`youngest, repo`revRoots, txn`baseRevision
      ensures Valid() && Published() && Preserves(old(repo.nodes), repo.nodes)
      ensures repo.youngest == old(repo.youngest) + othersPublished + (if r.Ok? then 1 else 0)
      ensures forall rev :: rev in old(repo.revRoots) ==> rev in repo.revRoots && repo.revRoots[rev] == old(repo.revRoots)[rev]
      ensures r.Ok? ==> r.value == repo.youngest && repo.revRoots[r.value] == txn.rootId && txn.baseRevision + 1 == r.value
      ensures r.Ok? ==> FsLocks.AllLocksHeld(ChangedPaths(txn.changes), repo.locks, author, lockTokens)
      ensures r.Err? ==> r.error != TxnOutOfDate
      ensures Preserves(old(repo.nodes), lastStore) && txn.rootId in lastStore && lastStore[txn.rootId].predecessor == Some(lastAncestor)
      ensures r.Ok? ==> txn.baseRevision in repo.revRoots && var source := repo.revRoots[txn.baseRevision];
        && (source != txn.rootId ==> BaseRoot() == Some(source))
        && (source != lastAncestor && source != txn.rootId ==>
              DirMerged(depth, txn.rootId, source, lastAncestor, tr, lastStore, repo.nodes, repo.supportsMergeInfo))
      ensures var source, ancestor := old(repo.revRoots)[old(repo.youngest)], old(BaseRoot()).value;
        (&& interference == [] && Committed(old(repo.nodes), source, ancestor)
         && MergeClean(depth, txn.rootId, source, ancestor, old(repo.nodes))
         && FsLocks.AllLocksHeld(ChangedPaths(txn.changes), repo.locks, author, lockTokens)) ==> r.Ok?
    {
      othersPublished := 0;
      var attempt := 0;
      lastStore, lastAncestor, tr := repo.nodes, BaseRoot().value, NoMerge;
      while true
        invariant Valid() && Published() && HasBase() && Preserves(old(repo.nodes), repo.nodes)
        invariant attempt == 0 ==> othersPublished == 0 && repo.nodes == old(repo.nodes) && repo.youngest == old(repo.youngest) &&
                                   repo.revRoots == old(repo.revRoots)
        invariant attempt <= |interference|
        invariant repo.youngest == old(repo.youngest) + othersPublished
        invariant forall rev :: rev in old(repo.revRoots) ==> rev in repo.revRoots && repo.revRoots[rev] == old(repo.revRoots)[rev]
        invariant forall i, j :: 0 <= i < |interference| && 0 <= j < |interference[i]| ==> interference[i][j] in repo.nodes
        decreases |interference| - attempt
      {
        var others := if attempt < |interference| then interference[attempt] else [];
        ghost var before := repo.nodes;
        ghost var published;
        lastStore, lastAncestor := repo.nodes, BaseRoot().value;
        var committed, youngishRev, merged;
        committed, youngishRev, published, merged, tr := CommitAttempt(others, depth);
        PreservesTransitive(old(repo.nodes), before, repo.nodes);
        othersPublished := othersPublished + published;
        if committed.Err? && committed.error == TxnOutOfDate && repo.youngest != youngishRev {
          attempt := attempt + 1;
          continue;
        }
        return committed, othersPublished, lastStore, lastAncestor, tr;
      }
    }

    /**
     * One pass of commitTxn's loop: merge the youngest revision into the transaction,
     * take it as the new base, let other writers publish `others`, then publish.
     */
    method CommitAttempt(others: seq<NodeId>, depth: nat)
      returns (r: Result<nat, FsError>, youngishRev: nat, ghost published: nat, merged: Result<(), FsError>,
               ghost tr: MergeTrace)
      requires Valid() && Published() && HasBase()
      requires forall j :: 0 <= j < |others| ==> others[j] in repo.nodes
      modifies repo`nodes, repo`youngest, repo`revRoots, txn`baseRevision
      ensures Valid() && Published() && Preserves(old(repo.nodes), repo.nodes)
      ensures youngishRev == old(repo.youngest)
      ensures repo.youngest == old(repo.youngest) + published + (if r.Ok? then 1 else 0)
      ensures forall rev :: rev in old(repo.revRoots) ==> rev in repo.revRoots && repo.revRoots[rev] == old(repo.revRoots)[rev]
      ensures r == Err(TxnOutOfDate) ==> repo.youngest != youngishRev && others != [] && HasBase()
      ensures r.Ok? ==> r.value == repo.youngest && repo.revRoots[r.value] == txn.rootId && txn.baseRevision + 1 == r.value
      ensures r.Ok? ==> FsLocks.AllLocksHeld(ChangedPaths(txn.changes), repo.locks, author, lockTokens)
      ensures merged.Err? ==>
        r == Err(merged.error) && published == 0 && repo.youngest == old(repo.youngest) && repo.revRoots == old(repo.revRoots)
      ensures var source, ancestor := old(repo.revRoots)[old(repo.youngest)], old(BaseRoot()).value;
        && (merged.Ok? && source != ancestor && source != txn.rootId ==>
              DirMerged(depth, txn.rootId, source, ancestor, tr, old(repo.nodes), repo.nodes, repo.supportsMergeInfo))
        && (merged.Ok? && source != txn.rootId ==> BaseRoot() == Some(source))
        && (Committed(old(repo.nodes), source, ancestor) && MergeClean(depth, txn.rootId, source, ancestor, old(repo.nodes)) ==>
              merged.Ok?)
      ensures merged.Ok? ==>
        && txn.baseRevision == youngishRev && published == |others|
        && txn.baseRevision in repo.revRoots && repo.revRoots[txn.baseRevision] == old(repo.revRoots)[old(repo.youngest)]
        && (forall rev :: youngishRev < rev <= youngishRev + |others| ==>
              rev in repo.revRoots && repo.revRoots[rev] == others[rev - youngishRev - 1])
        && (r == Err(TxnOutOfDate) <==> others != [])
        && (others == [] ==> (r.Ok? <==> FsLocks.AllLocksHeld(ChangedPaths(txn.changes), repo.locks, author, lockTokens)))
    {
      published := 0;
      youngishRev := repo.youngest;
      ghost var before := repo.nodes;
      merged, tr := MergeChanges(None, repo.revRoots[youngishRev], depth);
      if merged.Err? {
        return Err(merged.error), youngishRev, published, merged, tr;
      }
      PreservesTransitive(old(repo.nodes), before, repo.nodes);
      r := PublishAttempt(others, youngishRev);
      published := |others|;
    }

    /**
     * The rest of an attempt once its merge went through: the transaction takes the
     * merged revision as its base, other writers publish `others`, then the transaction
     * is published, which finds it out of date exactly when someone published in between.
     */
    method PublishAttempt(others: seq<NodeId>, youngishRev: nat) returns (r: Result<nat, FsError>)
      requires Valid() && Published() && youngishRev == repo.youngest
      requires forall j :: 0 <= j < |others| ==> others[j] in repo.nodes
      modifies repo`youngest, repo`revRoots, txn`baseRevision
      ensures Valid() && Published() && txn.baseRevision == youngishRev
      ensures repo.youngest == old(repo.youngest) + |others| + (if r.Ok? then 1 else 0)
      ensures forall rev :: rev in old(repo.revRoots) ==> rev in repo.revRoots && repo.revRoots[rev] == old(repo.revRoots)[rev]
      ensures forall rev :: youngishRev < rev <= youngishRev + |others| ==>
        rev in repo.revRoots && repo.revRoots[rev] == others[rev - youngishRev - 1]
      ensures r == Err(TxnOutOfDate) <==> others != []
      ensures others == [] ==> (r.Ok? <==> FsLocks.AllLocksHeld(ChangedPaths(txn.changes), repo.locks, author, lockTokens))
      ensures r.Ok? ==> r.value == repo.youngest && repo.revRoots[r.value] == txn.rootId && txn.baseRevision + 1 == r.value
      ensures r.Ok? ==> FsLocks.AllLocksHeld(ChangedPaths(txn.changes), repo.locks, author, lockTokens)
    {
      txn.baseRevision := youngishRev;
      PublishOthers(others);
      r := Commit();
    }

    /** Other writers publish revisions with the given roots, one after the other. */
    method PublishOthers(roots: seq<NodeId>)
      requires Published() && forall j :: 0 <= j < |roots| ==> roots[j] in repo.nodes
      modifies repo`youngest, repo`revRoots
      ensures Published() && repo.youngest == old(repo.youngest) + |roots|
      ensures forall rev :: rev in old(repo.revRoots) ==> rev in repo.revRoots && repo.revRoots[rev] == old(repo.revRoots)[rev]
      ensures forall rev :: old(repo.youngest) < rev <= repo.youngest ==>
        rev in repo.revRoots && repo.revRoots[rev] == roots[rev - old(repo.youngest) - 1]
    {
      for j := 0 to |roots|
        invariant Published() && repo.youngest == old(repo.youngest) + j
        invariant forall rev :: rev in old(repo.revRoots) ==> rev in repo.revRoots && repo.revRoots[rev] == old(repo.revRoots)[rev]
        invariant forall rev :: old(repo.youngest) < rev <= repo.youngest ==>
          rev in repo.revRoots && repo.revRoots[rev] == roots[rev - old(repo.youngest) - 1]
      {
        repo.revRoots := repo.revRoots[repo.youngest + 1 := roots[j]];
        repo.youngest := repo.youngest + 1;
      }
    }
  }
}
