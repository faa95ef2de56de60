/**
 * The data model of the FSFS repository back end as the commit engine sees it: node
 * identities, revision nodes with their directory entries, change records, locks and
 * the errors the engine reports.
 */
module FsTypes {
  import opened Results

  /** A node or copy number; transaction-local numbers are written with a leading '_'. */
  datatype Key = Key(n: nat, local: bool)

  /** Where a node lives: in a transaction (mutable) or in a committed revision (immutable). */
  datatype Origin = InTxn(txn: string) | InRev(rev: nat)

  /** A node identity (node number, copy number, transaction or revision). */
  datatype NodeId = NodeId(nodeId: Key, copyId: Key, origin: Origin) {
    predicate IsTxn() {
      origin.InTxn?
    }
  }

  datatype Kind = File | Dir

  /** A directory entry: the identity and kind of the node it names. */
  datatype Entry = Entry(id: NodeId, kind: Kind)

  const INVALID_REVISION: int := -1

  /**
   * A revision node. `count` is the predecessor count (-1 when unknown); the copy-from
   * revision is INVALID_REVISION and its path absent for a node that is not a copy.
   * `mergeInfoCount` counts the node and its descendants that carry merge info.
   */
  datatype RevNode = RevNode(
    kind: Kind,
    props: map<string, string>,
    entries: map<string, Entry>,
    predecessor: Option<NodeId>,
    count: int,
    createdPath: string,
    copyFromRev: int,
    copyFromPath: Option<string>,
    copyRootRev: int,
    copyRootPath: Option<string>,
    hasMergeInfo: bool,
    mergeInfoCount: int)

  datatype ChangeKind = Add | Delete | Modify | Replace

  /** One record of a transaction's change log. */
  datatype PathChange = PathChange(
    path: string, id: NodeId, kind: ChangeKind, textModified: bool, propsModified: bool,
    copyFromRev: int, copyFromPath: Option<string>, nodeKind: Kind)

  /** A lock on a repository path. */
  datatype Lock = Lock(path: string, owner: string, token: string)

  /** How a node cloned into a transaction obtains its copy number. */
  datatype CopyStyle = InheritParent | InheritNew | InheritSelf | InheritUnknown

  datatype FsError =
    | RootDir                 // the root directory cannot be deleted
    | AlreadyExists(path: string)
    | NotSinglePathComponent
    | NotDirectory
    | NotMutable
    | NotFound(path: string)  // a path or node that does not exist
    | Unknown                 // an internal inconsistency
    | General                 // a bad merge
    | Conflict(path: string)
    | NoUser
    | LockOwnerMismatch
    | BadLockToken
    | TxnOutOfDate
    | DepthExceeded           // the merge went deeper than its depth bound

  /** The merge-info property name. */
  const MERGE_INFO: string := "svn:mergeinfo"

  /** The absolute path of entry `name` of directory `parent`. */
  function ChildPath(parent: string, name: string): (p: string)
    ensures |p| > |name|
  {
    if parent == "/" then "/" + name else parent + "/" + name
  }

  /** The absolute path of a sequence of entry names below the root. */
  function PathOf(names: seq<string>): string {
    if names == [] then "/" else ChildPath(PathOf(names[..|names| - 1]), names[|names| - 1])
  }

  /** A single path component: non-empty, without '/'. */
  predicate IsSingleComponent(name: string) {
    name != "" && '/' !in name
  }
}
