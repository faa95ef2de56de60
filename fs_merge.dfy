/**
 * The specification of the recursive three-way merge: what one directory merge and the
 * merges of its subdirectories leave in the store, and the merge-info increment they
 * report, defined on the store as it was before the merge.
 */
module FsMerge {
  import opened Results
  import opened FsTypes
  import opened FsStore

  /**
   * What one merge did: the merge-info increment it reported, the transaction nodes it
   * rewrote (its own target and everything its sub-merges rewrote), and the sub-merge of
   * each entry that needed one, by name.
   */
  datatype MergeTrace = MergeTrace(inc: int, written: set<NodeId>, children: map<string, MergeTrace>)

  /** The trace of a merge that had nothing to do. */
  const NoMerge := MergeTrace(0, {}, map[])

  /** The merge-info count of a node, zero for a node the store lacks. */
  function Count(nodes: map<NodeId, RevNode>, id: NodeId): int {
    if id in nodes then nodes[id].mergeInfoCount else 0
  }

  /**
   * The merge-info change one ancestor entry that needs no sub-merge brings: taking the
   * source's entry trades the replaced node's count for the source node's, dropping the
   * entry loses the replaced node's count, anything else changes nothing.
   */
  function EntryInc(ae: Entry, se: Option<Entry>, te: Option<Entry>, nodes: map<NodeId, RevNode>, supported: bool): int {
    if !supported then 0
    else match Classify(ae, se, te)
      case TakeSource(e) => Count(nodes, e.id) - Count(nodes, te.value.id)
      case DropEntry => -Count(nodes, te.value.id)
      case _ => 0
  }

  /**
   * The merge-info change the name `n` brings to the merge of a directory with ancestor
   * entries `a`, source entries `s` and target entries `t`: an ancestor name by EntryInc
   * or by the increment of its sub-merge, a name only the source has by the source
   * node's count.
   */
  function NameInc(a: map<string, Entry>, s: map<string, Entry>, t: map<string, Entry>, nodes: map<NodeId, RevNode>,
                   supported: bool, kids: map<string, MergeTrace>, n: string): int {
    if n in a then
      if Classify(a[n], Get(s, n), Get(t, n)) == Recurse then (if supported && n in kids then kids[n].inc else 0)
      else EntryInc(a[n], Get(s, n), Get(t, n), nodes, supported)
    else if n in s && supported then Count(nodes, s[n].id)
    else 0
  }

  /** Some name of a non-empty set. */
  ghost function PickName(names: set<string>): string
    requires names != {}
  {
    var n :| n in names; n
  }

  /** The sum of NameInc over a set of names. */
  ghost function SumInc(names: set<string>, a: map<string, Entry>, s: map<string, Entry>, t: map<string, Entry>,
                        nodes: map<NodeId, RevNode>, supported: bool, kids: map<string, MergeTrace>): int
    decreases names
  {
    if names == {} then 0
    else NameInc(a, s, t, nodes, supported, kids, PickName(names)) + SumInc(names - {PickName(names)}, a, s, t, nodes, supported, kids)
  }

  /** Summing over a set takes any of its names first. */
  lemma {:induction false} SumIncRemove(names: set<string>, n: string, a: map<string, Entry>, s: map<string, Entry>,
                                        t: map<string, Entry>, nodes: map<NodeId, RevNode>, supported: bool,
                                        kids: map<string, MergeTrace>)
    requires n in names
    ensures SumInc(names, a, s, t, nodes, supported, kids) ==
            NameInc(a, s, t, nodes, supported, kids, n) + SumInc(names - {n}, a, s, t, nodes, supported, kids)
    decreases names
  {
    var p := PickName(names);
    if p != n {
      SumIncRemove(names - {p}, n, a, s, t, nodes, supported, kids);
      SumIncRemove(names - {n}, p, a, s, t, nodes, supported, kids);
      assert names - {p} - {n} == names - {n} - {p};
    }
  }

  /** Two sums over the same names agree when every name brings the same change to both. */
  lemma {:induction false} SumIncAgree(names: set<string>, a: map<string, Entry>, s: map<string, Entry>, t: map<string, Entry>,
                                       nodes1: map<NodeId, RevNode>, nodes2: map<NodeId, RevNode>, supported: bool,
                                       kids1: map<string, MergeTrace>, kids2: map<string, MergeTrace>)
    requires forall n :: n in names ==> NameInc(a, s, t, nodes1, supported, kids1, n) == NameInc(a, s, t, nodes2, supported, kids2, n)
    ensures SumInc(names, a, s, t, nodes1, supported, kids1) == SumInc(names, a, s, t, nodes2, supported, kids2)
    decreases names
  {
    if names != {} {
      SumIncAgree(names - {PickName(names)}, a, s, t, nodes1, nodes2, supported, kids1, kids2);
    }
  }

  /**
   * The merge-info increment the merge of a directory reports: the changes of all its
   * ancestor names and all names only the source has, counted on the store before the
   * merge, with the increments of the sub-merges `kids`.
   */
  ghost function MergeInc(a: map<string, Entry>, s: map<string, Entry>, t: map<string, Entry>, nodes: map<NodeId, RevNode>,
                          supported: bool, kids: map<string, MergeTrace>): int
  {
    SumInc(a.Keys + s.Keys, a, s, t, nodes, supported, kids)
  }

  /** Every entry of a directory names a committed node. */
  predicate SideCommitted(entries: map<string, Entry>) {
    forall n :: n in entries ==> !entries[n].id.IsTxn()
  }

  /**
   * The merge's source and ancestor are committed nodes of a store whose committed nodes
   * name only committed nodes, so no merge, which rewrites only transaction nodes, can
   * change anything below them.
   */
  ghost predicate Committed(nodes: map<NodeId, RevNode>, sourceId: NodeId, ancestorId: NodeId) {
    Closed(nodes) && !sourceId.IsTxn() && !ancestorId.IsTxn()
  }

  /** Every node the sub-merges `kids` rewrote. */
  ghost function KidsWritten(kids: map<string, MergeTrace>): set<NodeId> {
    set n, id | n in kids && id in kids[n].written :: id
  }

  /** No sub-merge rewrote the directory being merged, and no two sub-merges rewrote the same node. */
  ghost predicate UnsharedKids(targetId: NodeId, kids: map<string, MergeTrace>) {
    && (forall n :: n in kids ==> targetId !in kids[n].written)
    && (forall n, m :: n in kids && m in kids && n != m ==> kids[n].written !! kids[m].written)
  }

  /** `after` has the nodes of `before`, and differs from it only at the nodes of `w`. */
  ghost predicate Framed(before: map<NodeId, RevNode>, after: map<NodeId, RevNode>, w: set<NodeId>) {
    before.Keys == after.Keys && forall id :: id in before && id !in w ==> after[id] == before[id]
  }

  /** Two stores agree on the nodes of `w`. */
  ghost predicate AgreeOn(m1: map<NodeId, RevNode>, m2: map<NodeId, RevNode>, w: set<NodeId>) {
    forall id :: id in w ==> (id in m1 <==> id in m2) && (id in m1 ==> m1[id] == m2[id])
  }

  /** Two stores agree on every committed node. */
  ghost predicate SameCommitted(m1: map<NodeId, RevNode>, m2: map<NodeId, RevNode>) {
    forall id: NodeId :: !id.IsTxn() ==> (id in m1 <==> id in m2) && (id in m1 ==> m1[id] == m2[id])
  }

  /** The three directories a merge met were directories, with the target's properties the ancestor's and no entry in conflict. */
  predicate DirsMatch(t: RevNode, s: RevNode, a: RevNode) {
    && t.kind == Dir && s.kind == Dir && a.kind == Dir && t.props == a.props
    && NoEntryConflict(a.entries, s.entries, t.entries)
  }

  /** Every ancestor name that needs a sub-merge has one in `tr`, and `tr` rewrote all its sub-merges rewrote. */
  predicate KidsCovered(a: map<string, Entry>, s: map<string, Entry>, t: map<string, Entry>, tr: MergeTrace) {
    && (forall n :: n in a && Classify(a[n], Get(s, n), Get(t, n)) == Recurse ==> n in tr.children)
    && (forall n :: n in tr.children ==> tr.children[n].written <= tr.written)
  }

  /**
   * The merged target node: every entry the merged one, the properties and kind kept, and
   * the merge-info count moved by the increment (when merge info is supported).
   */
  ghost predicate TargetMerged(t: RevNode, s: map<string, Entry>, a: map<string, Entry>, after: RevNode, inc: int, supported: bool) {
    && (forall n :: Get(after.entries, n) == MergedEntry(a, s, t.entries, n))
    && after.props == t.props && after.kind == Dir
    && after.mergeInfoCount == t.mergeInfoCount + (if supported then inc else 0)
  }

  /**
   * The outcome of a successful three-way merge of directory `targetId` against
   * `sourceId` with common ancestor `ancestorId`, with trace `tr`, from store `before`
   * to store `after`. The three were directories, the target's properties were the
   * ancestor's and no entry was in conflict; the target (a transaction node) now
   * descends from the source, one step further along its history. When source and
   * ancestor are committed, the reported increment is MergeInc; when besides the
   * sub-merges rewrote disjoint nodes other than the target, the target node is merged
   * as TargetMerged says and every subdirectory that needed a merge was merged in turn.
   */
  ghost predicate DirMerged(fuel: nat, targetId: NodeId, sourceId: NodeId, ancestorId: NodeId, tr: MergeTrace,
                            before: map<NodeId, RevNode>, after: map<NodeId, RevNode>, supported: bool)
    decreases fuel, 1
  {
    && targetId in before && sourceId in before && ancestorId in before
    && DirsMatch(before[targetId], before[sourceId], before[ancestorId])
    && targetId.IsTxn() && targetId in after && targetId in tr.written
    && after[targetId].predecessor == Some(sourceId) && after[targetId].count == SuccessorCount(before[sourceId].count)
    && KidsCovered(before[ancestorId].entries, before[sourceId].entries, before[targetId].entries, tr)
    && (Committed(before, sourceId, ancestorId) ==>
          tr.inc == MergeInc(before[ancestorId].entries, before[sourceId].entries, before[targetId].entries, before, supported, tr.children))
    && (Committed(before, sourceId, ancestorId) && UnsharedKids(targetId, tr.children) ==>
          && TargetMerged(before[targetId], before[sourceId].entries, before[ancestorId].entries, after[targetId], tr.inc, supported)
          && forall n :: n in before[ancestorId].entries &&
                         Classify(before[ancestorId].entries[n], Get(before[sourceId].entries, n), Get(before[targetId].entries, n)) == Recurse ==>
               SubMerged(fuel, before[ancestorId].entries[n], before[sourceId].entries[n], before[targetId].entries[n],
                         tr.children[n], before, after, supported))
  }

  /**
   * The sub-merge of one entry changed on both sides: nothing when source and target
   * already name the same node, and otherwise the merge of the target's subdirectory
   * against the source's with the ancestor's as ancestor, one level deeper.
   */
  ghost predicate SubMerged(fuel: nat, ae: Entry, se: Entry, te: Entry, child: MergeTrace,
                            before: map<NodeId, RevNode>, after: map<NodeId, RevNode>, supported: bool)
    decreases fuel, 0
  {
    if se.id == te.id then child == NoMerge
    else fuel > 0 && DirMerged(fuel - 1, te.id, se.id, ae.id, child, before, after, supported)
  }

  /** An ancestor entry that needs no sub-merge brings the same change on stores that agree on committed nodes. */
  lemma EntryIncCommitted(ae: Entry, se: Option<Entry>, te: Option<Entry>, n1: map<NodeId, RevNode>, n2: map<NodeId, RevNode>,
                          supported: bool)
    requires SameCommitted(n1, n2) && !ae.id.IsTxn() && (se.Some? ==> !se.value.id.IsTxn())
    ensures EntryInc(ae, se, te, n1, supported) == EntryInc(ae, se, te, n2, supported)
  {
  }

  /** On stores that agree on committed nodes, with committed source and ancestor entries, the merge increments agree. */
  lemma MergeIncCommitted(a: map<string, Entry>, s: map<string, Entry>, t: map<string, Entry>,
                          n1: map<NodeId, RevNode>, n2: map<NodeId, RevNode>, supported: bool, kids: map<string, MergeTrace>)
    requires SameCommitted(n1, n2) && SideCommitted(a) && SideCommitted(s)
    ensures MergeInc(a, s, t, n1, supported, kids) == MergeInc(a, s, t, n2, supported, kids)
  {
    forall n | n in a.Keys + s.Keys
      ensures NameInc(a, s, t, n1, supported, kids, n) == NameInc(a, s, t, n2, supported, kids, n)
    {
      if n in a {
        EntryIncCommitted(a[n], Get(s, n), Get(t, n), n1, n2, supported);
      }
    }
    SumIncAgree(a.Keys + s.Keys, a, s, t, n1, n2, supported, kids, kids);
  }

  /**
   * A merge's outcome survives moving to other stores before and after it, as long as
   * they agree with the old ones on every committed node (before) and on every node the
   * merge rewrote.
   */
  lemma {:induction false} DirMergedMoved(fuel: nat, targetId: NodeId, sourceId: NodeId, ancestorId: NodeId, tr: MergeTrace,
                                          b1: map<NodeId, RevNode>, a1: map<NodeId, RevNode>,
                                          b2: map<NodeId, RevNode>, a2: map<NodeId, RevNode>, supported: bool)
    requires DirMerged(fuel, targetId, sourceId, ancestorId, tr, b1, a1, supported) && Committed(b1, sourceId, ancestorId)
    requires SameCommitted(b1, b2) && AgreeOn(b1, b2, tr.written) && AgreeOn(a1, a2, tr.written)
    ensures DirMerged(fuel, targetId, sourceId, ancestorId, tr, b2, a2, supported)
    decreases fuel
  {
    assert b2[targetId] == b1[targetId] && b2[sourceId] == b1[sourceId] && b2[ancestorId] == b1[ancestorId];
    assert a2[targetId] == a1[targetId];
    assert Closed(b2);
    var t, s, a := b1[targetId].entries, b1[sourceId].entries, b1[ancestorId].entries;
    assert SideCommitted(a) && SideCommitted(s);
    MergeIncCommitted(a, s, t, b1, b2, supported, tr.children);
    if UnsharedKids(targetId, tr.children) {
      forall n | n in a && Classify(a[n], Get(s, n), Get(t, n)) == Recurse
        ensures SubMerged(fuel, a[n], s[n], t[n], tr.children[n], b2, a2, supported)
      {
        if s[n].id != t[n].id {
          DirMergedMoved(fuel - 1, t[n].id, s[n].id, a[n].id, tr.children[n], b1, a1, b2, a2, supported);
        }
      }
    }
  }

  /** SubMerged survives the same moves as DirMerged, for committed source and ancestor entries. */
  lemma SubMergedMoved(fuel: nat, ae: Entry, se: Entry, te: Entry, child: MergeTrace,
                       b1: map<NodeId, RevNode>, a1: map<NodeId, RevNode>, b2: map<NodeId, RevNode>, a2: map<NodeId, RevNode>,
                       supported: bool)
    requires SubMerged(fuel, ae, se, te, child, b1, a1, supported)
    requires Closed(b1) && !se.id.IsTxn() && !ae.id.IsTxn()
    requires SameCommitted(b1, b2) && AgreeOn(b1, b2, child.written) && AgreeOn(a1, a2, child.written)
    ensures SubMerged(fuel, ae, se, te, child, b2, a2, supported)
  {
    if se.id != te.id {
      DirMergedMoved(fuel - 1, te.id, se.id, ae.id, child, b1, a1, b2, a2, supported);
    }
  }

  /**
   * The first loop of a directory merge has handled the ancestor names `done`: none of
   * them was in conflict, each that needed a sub-merge has one in `kids`, the store
   * changed only at the target and at what the sub-merges rewrote, and `inc` is the
   * increment of those names. When the sub-merges rewrote disjoint nodes other than the
   * target, the target node differs from `target` only in its entries, which are merged
   * for the names of `done`, and (for committed source and ancestor) every sub-merge
   * holds between `before` and `cur`.
   */
  ghost predicate AncestorProgress(targetId: NodeId, a: map<string, Entry>, s: map<string, Entry>, target: RevNode, fuel: nat,
                                   supported: bool, committed: bool, done: set<string>, kids: map<string, MergeTrace>, inc: int,
                                   before: map<NodeId, RevNode>, cur: map<NodeId, RevNode>)
  {
    && targetId in before && Preserves(before, cur) && Framed(before, cur, {targetId} + KidsWritten(kids))
    && NamesCovered(a, s, target.entries, done, kids)
    && (!supported ==> inc == 0)
    && (committed ==> inc == SumInc(done, a, s, target.entries, before, supported, kids))
    && TargetProgress(targetId, a, s, target, done, kids, cur)
    && (committed ==> KidsProgress(targetId, a, s, target.entries, fuel, supported, done, kids, before, cur))
  }

  /** The ancestor names `done` are handled without conflict, and each that needed a sub-merge has one in `kids`. */
  predicate NamesCovered(a: map<string, Entry>, s: map<string, Entry>, t: map<string, Entry>, done: set<string>,
                         kids: map<string, MergeTrace>)
  {
    && done <= a.Keys && kids.Keys <= done
    && (forall n :: n in done ==> Classify(a[n], Get(s, n), Get(t, n)) != ConflictAt)
    && (forall n :: n in done && Classify(a[n], Get(s, n), Get(t, n)) == Recurse ==> n in kids)
  }

  /** With unshared sub-merges, the target node differs from `target` only in its entries, merged for the names of `done`. */
  ghost predicate TargetProgress(targetId: NodeId, a: map<string, Entry>, s: map<string, Entry>, target: RevNode,
                                 done: set<string>, kids: map<string, MergeTrace>, cur: map<NodeId, RevNode>)
  {
    UnsharedKids(targetId, kids) ==>
      && targetId in cur && cur[targetId] == target.(entries := cur[targetId].entries)
      && MergedUpTo(cur[targetId].entries, a, s, target.entries, done)
  }

  /** With unshared sub-merges, each sub-merge for a name of `done` holds between `before` and `cur`. */
  ghost predicate KidsProgress(targetId: NodeId, a: map<string, Entry>, s: map<string, Entry>, t: map<string, Entry>, fuel: nat,
                               supported: bool, done: set<string>, kids: map<string, MergeTrace>,
                               before: map<NodeId, RevNode>, cur: map<NodeId, RevNode>)
    requires NamesCovered(a, s, t, done, kids)
  {
    UnsharedKids(targetId, kids) ==>
      forall n :: n in done && Classify(a[n], Get(s, n), Get(t, n)) == Recurse ==>
        SubMerged(fuel, a[n], s[n], t[n], kids[n], before, cur, supported)
  }

  /** Committed source and ancestor entries in a closed store: what the merge loops need to count on the old store. */
  ghost predicate SidesCommitted(before: map<NodeId, RevNode>, a: map<string, Entry>, s: map<string, Entry>) {
    Closed(before) && SideCommitted(a) && SideCommitted(s)
  }

  /** An ancestor name that needed no sub-merge, applied to the target, extends AncestorProgress by that name. */
  lemma AncestorEntryStep(targetId: NodeId, a: map<string, Entry>, s: map<string, Entry>, target: RevNode, fuel: nat,
                          supported: bool, committed: bool, done: set<string>, kids: map<string, MergeTrace>, inc: int,
                          before: map<NodeId, RevNode>, b: map<NodeId, RevNode>, c: map<NodeId, RevNode>, n: string, v: int)
    requires AncestorProgress(targetId, a, s, target, fuel, supported, committed, done, kids, inc, before, b)
    requires committed ==> SidesCommitted(before, a, s)
    requires n in a && n !in done && targetId in b
    requires Classify(a[n], Get(s, n), Get(target.entries, n)) !in {ConflictAt, Recurse}
    requires c == b[targetId := b[targetId].(entries := Applied(b[targetId].entries, n, Classify(a[n], Get(s, n), Get(target.entries, n))))]
    requires Preserves(b, c) && v == EntryInc(a[n], Get(s, n), Get(target.entries, n), b, supported)
    ensures AncestorProgress(targetId, a, s, target, fuel, supported, committed, done + {n}, kids, inc + v, before, c)
  {
    var t := target.entries;
    PreservesTransitive(before, b, c);
    if committed {
      assert SameCommitted(before, b);
      EntryIncCommitted(a[n], Get(s, n), Get(t, n), before, b, supported);
      SumIncRemove(done + {n}, n, a, s, t, before, supported, kids);
      assert done + {n} - {n} == done;
    }
    if UnsharedKids(targetId, kids) {
      MergedAncestorStep(b[targetId].entries, a, s, t, done, n);
      if committed {
        forall m | m in done + {n} && Classify(a[m], Get(s, m), Get(t, m)) == Recurse
          ensures SubMerged(fuel, a[m], s[m], t[m], kids[m], before, c, supported)
        {
          assert AgreeOn(b, c, kids[m].written);
          SubMergedMoved(fuel, a[m], s[m], t[m], kids[m], before, b, before, c, supported);
        }
      }
    }
  }

  /** Taking one sub-merge out of an unshared set leaves an unshared set, disjoint from what that sub-merge rewrote. */
  lemma UnsharedShrink(targetId: NodeId, kids: map<string, MergeTrace>, n: string, tr: MergeTrace)
    requires n !in kids && UnsharedKids(targetId, kids[n := tr])
    ensures UnsharedKids(targetId, kids) && targetId !in tr.written && tr.written !! KidsWritten(kids)
    ensures forall m :: m in kids ==> tr.written !! kids[m].written
  {
    var kids' := kids[n := tr];
    assert n in kids' && kids'[n] == tr;
    forall m | m in kids
      ensures targetId !in kids[m].written && tr.written !! kids[m].written
    {
      assert m in kids' && kids'[m] == kids[m] && m != n;
    }
    forall m1, m2 | m1 in kids && m2 in kids && m1 != m2
      ensures kids[m1].written !! kids[m2].written
    {
      assert kids'[m1] == kids[m1] && kids'[m2] == kids[m2];
    }
  }

  /** Adding a sub-merge under a new name adds what it rewrote to what the sub-merges rewrote. */
  lemma KidsWrittenAdd(kids: map<string, MergeTrace>, n: string, tr: MergeTrace)
    requires n !in kids
    ensures KidsWritten(kids[n := tr]) == KidsWritten(kids) + tr.written
  {
    var kids' := kids[n := tr];
    forall id | id in KidsWritten(kids')
      ensures id in KidsWritten(kids) + tr.written
    {
      var m :| m in kids' && id in kids'[m].written;
      if m != n {
        assert id in kids[m].written;
      }
    }
    forall id | id in KidsWritten(kids) + tr.written
      ensures id in KidsWritten(kids')
    {
      if id in tr.written {
        assert n in kids' && id in kids'[n].written;
      } else {
        var m :| m in kids && id in kids[m].written;
        assert m in kids' && id in kids'[m].written;
      }
    }
  }

  /** Stores that differ only at the nodes of `w` agree on every node outside `w`. */
  lemma AgreeOutside(b: map<NodeId, RevNode>, c: map<NodeId, RevNode>, w: set<NodeId>, x: set<NodeId>)
    requires Framed(b, c, w) && w !! x
    ensures AgreeOn(b, c, x) && AgreeOn(c, b, x)
  {
  }

  /** A store that kept its committed nodes and its key set agrees with the old one on every committed node. */
  lemma CommittedKept(b: map<NodeId, RevNode>, c: map<NodeId, RevNode>)
    requires Preserves(b, c) && b.Keys == c.Keys
    ensures SameCommitted(b, c) && SameCommitted(c, b)
  {
  }

  /** Handling one more ancestor name, without conflict, keeps NamesCovered, with its sub-merge `tr` when it needed one. */
  lemma NamesCoveredStep(a: map<string, Entry>, s: map<string, Entry>, t: map<string, Entry>, done: set<string>,
                         kids: map<string, MergeTrace>, n: string, tr: MergeTrace)
    requires NamesCovered(a, s, t, done, kids) && n in a && n !in done
    requires Classify(a[n], Get(s, n), Get(t, n)) != ConflictAt
    ensures Classify(a[n], Get(s, n), Get(t, n)) == Recurse ==> NamesCovered(a, s, t, done + {n}, kids[n := tr])
    ensures Classify(a[n], Get(s, n), Get(t, n)) != Recurse ==> NamesCovered(a, s, t, done + {n}, kids)
  {
  }

  /** The sub-merges so far and the new one `tr` all hold between `before` and `c` once `tr` has run. */
  lemma RecurseKidsMoved(targetId: NodeId, a: map<string, Entry>, s: map<string, Entry>, t: map<string, Entry>, fuel: nat,
                         supported: bool, done: set<string>, kids: map<string, MergeTrace>,
                         before: map<NodeId, RevNode>, b: map<NodeId, RevNode>, c: map<NodeId, RevNode>, n: string, tr: MergeTrace)
    requires SidesCommitted(before, a, s) && Closed(b) && n in a && n !in done
    requires Classify(a[n], Get(s, n), Get(t, n)) == Recurse
    requires NamesCovered(a, s, t, done, kids) && KidsProgress(targetId, a, s, t, fuel, supported, done, kids, before, b)
    requires Preserves(before, b) && Framed(before, b, {targetId} + KidsWritten(kids))
    requires Framed(b, c, tr.written) && SubMerged(fuel, a[n], s[n], t[n], tr, b, c, supported)
    requires NamesCovered(a, s, t, done + {n}, kids[n := tr])
    ensures KidsProgress(targetId, a, s, t, fuel, supported, done + {n}, kids[n := tr], before, c)
  {
    var kids' := kids[n := tr];
    if UnsharedKids(targetId, kids') {
      UnsharedShrink(targetId, kids, n, tr);
      AgreeOutside(before, b, {targetId} + KidsWritten(kids), tr.written);
      CommittedKept(before, b);
      SubMergedMoved(fuel, a[n], s[n], t[n], tr, b, c, before, c, supported);
      OldKidsMoved(a, s, t, fuel, supported, done, kids, before, b, c, tr.written);
    }
  }

  /** Sub-merges that rewrote nothing of `w` survive a change of the store at `w` only. */
  lemma OldKidsMoved(a: map<string, Entry>, s: map<string, Entry>, t: map<string, Entry>, fuel: nat, supported: bool,
                     done: set<string>, kids: map<string, MergeTrace>,
                     before: map<NodeId, RevNode>, b: map<NodeId, RevNode>, c: map<NodeId, RevNode>, w: set<NodeId>)
    requires SidesCommitted(before, a, s) && done <= a.Keys && Framed(b, c, w)
    requires forall m :: m in done && Classify(a[m], Get(s, m), Get(t, m)) == Recurse ==>
               m in kids && kids[m].written !! w && SubMerged(fuel, a[m], s[m], t[m], kids[m], before, b, supported)
    ensures forall m :: m in done && Classify(a[m], Get(s, m), Get(t, m)) == Recurse ==>
              m in kids && SubMerged(fuel, a[m], s[m], t[m], kids[m], before, c, supported)
  {
    forall m | m in done && Classify(a[m], Get(s, m), Get(t, m)) == Recurse
      ensures SubMerged(fuel, a[m], s[m], t[m], kids[m], before, c, supported)
    {
      AgreeOutside(b, c, w, kids[m].written);
      SubMergedMoved(fuel, a[m], s[m], t[m], kids[m], before, b, before, c, supported);
    }
  }

  /** The increment of the names handled so far, with the sub-merge `tr` of name `n` added. */
  lemma RecurseInc(a: map<string, Entry>, s: map<string, Entry>, t: map<string, Entry>, supported: bool, done: set<string>,
                   kids: map<string, MergeTrace>, before: map<NodeId, RevNode>, n: string, tr: MergeTrace)
    requires n in a && n !in done && n !in kids && Classify(a[n], Get(s, n), Get(t, n)) == Recurse
    ensures SumInc(done + {n}, a, s, t, before, supported, kids[n := tr]) ==
            SumInc(done, a, s, t, before, supported, kids) + (if supported then tr.inc else 0)
  {
    var kids' := kids[n := tr];
    forall m | m in done
      ensures NameInc(a, s, t, before, supported, kids, m) == NameInc(a, s, t, before, supported, kids', m)
    {
    }
    SumIncAgree(done, a, s, t, before, before, supported, kids, kids');
    SumIncRemove(done + {n}, n, a, s, t, before, supported, kids');
    assert done + {n} - {n} == done;
  }

  /** A sub-merge of ancestor name `n`, with trace `tr`, extends AncestorProgress by that name and that trace. */
  lemma AncestorRecurseStep(targetId: NodeId, a: map<string, Entry>, s: map<string, Entry>, target: RevNode, fuel: nat,
                            supported: bool, committed: bool, done: set<string>, kids: map<string, MergeTrace>, inc: int,
                            before: map<NodeId, RevNode>, b: map<NodeId, RevNode>, c: map<NodeId, RevNode>, n: string,
                            tr: MergeTrace, v: int)
    requires AncestorProgress(targetId, a, s, target, fuel, supported, committed, done, kids, inc, before, b)
    requires committed ==> SidesCommitted(before, a, s)
    requires n in a && n !in done && Closed(b)
    requires Classify(a[n], Get(s, n), Get(target.entries, n)) == Recurse
    requires Preserves(b, c) && Framed(b, c, tr.written)
    requires SubMerged(fuel, a[n], s[n], target.entries[n], tr, b, c, supported)
    requires v == (if supported then tr.inc else 0)
    ensures AncestorProgress(targetId, a, s, target, fuel, supported, committed, done + {n}, kids[n := tr], inc + v, before, c)
  {
    var t := target.entries;
    PreservesTransitive(before, b, c);
    KidsWrittenAdd(kids, n, tr);
    NamesCoveredStep(a, s, t, done, kids, n, tr);
    if committed {
      RecurseInc(a, s, t, supported, done, kids, before, n, tr);
      RecurseKidsMoved(targetId, a, s, t, fuel, supported, done, kids, before, b, c, n, tr);
    }
    RecurseTarget(targetId, a, s, target, done, kids, b, c, n, tr);
  }

  /** A sub-merge that did not rewrite the target leaves the target node, and its merged entries, as they were. */
  lemma RecurseTarget(targetId: NodeId, a: map<string, Entry>, s: map<string, Entry>, target: RevNode, done: set<string>,
                      kids: map<string, MergeTrace>, b: map<NodeId, RevNode>, c: map<NodeId, RevNode>, n: string, tr: MergeTrace)
    requires n in a && n !in done && n !in kids && Classify(a[n], Get(s, n), Get(target.entries, n)) == Recurse
    requires TargetProgress(targetId, a, s, target, done, kids, b) && Framed(b, c, tr.written)
    ensures TargetProgress(targetId, a, s, target, done + {n}, kids[n := tr], c)
  {
    if UnsharedKids(targetId, kids[n := tr]) {
      UnsharedShrink(targetId, kids, n, tr);
      MergedAncestorStep(b[targetId].entries, a, s, target.entries, done, n);
    }
  }

  /** Before the first ancestor name, nothing is handled: AncestorProgress holds with no names, no sub-merges and no increment. */
  lemma AncestorStart(targetId: NodeId, a: map<string, Entry>, s: map<string, Entry>, fuel: nat, supported: bool,
                      committed: bool, before: map<NodeId, RevNode>)
    requires targetId in before
    ensures AncestorProgress(targetId, a, s, before[targetId], fuel, supported, committed, {}, map[], 0, before, before)
  {
    assert KidsWritten(map[]) == {};
    assert before[targetId] == before[targetId].(entries := before[targetId].entries);
  }

  /** A name only the source has adds the source node's count to the increment of the names before it. */
  lemma SourceIncStep(a: map<string, Entry>, s: map<string, Entry>, t: map<string, Entry>, nodes: map<NodeId, RevNode>,
                      supported: bool, kids: map<string, MergeTrace>, names: set<string>, n: string)
    requires n in s && n !in a && n !in names
    ensures SumInc(names + {n}, a, s, t, nodes, supported, kids) ==
            SumInc(names, a, s, t, nodes, supported, kids) + (if supported then Count(nodes, s[n].id) else 0)
  {
    SumIncRemove(names + {n}, n, a, s, t, nodes, supported, kids);
    assert names + {n} - {n} == names;
  }

  /** Every sub-merge rewrote only nodes its parent's trace lists. */
  lemma KidsWrittenCover(kids: map<string, MergeTrace>, targetId: NodeId)
    ensures forall n :: n in kids ==> kids[n].written <= {targetId} + KidsWritten(kids)
  {
    forall n, id | n in kids && id in kids[n].written
      ensures id in KidsWritten(kids)
    {
    }
  }

  /**
   * Both loops of a directory merge and the target's new ancestry and count make a
   * DirMerged outcome, with the sub-merges `kids` of the first loop as the trace's children.
   */
  lemma DirMergedIntro(fuel: nat, targetId: NodeId, sourceId: NodeId, ancestorId: NodeId, a: map<string, Entry>,
                       s: map<string, Entry>, t: map<string, Entry>, kids: map<string, MergeTrace>, inc: int,
                       before: map<NodeId, RevNode>, mid: map<NodeId, RevNode>, after: map<NodeId, RevNode>, supported: bool)
    requires targetId in before && sourceId in before && ancestorId in before && targetId.IsTxn()
    requires a == before[ancestorId].entries && s == before[sourceId].entries && t == before[targetId].entries
    requires before[targetId].kind == Dir && before[sourceId].kind == Dir && before[ancestorId].kind == Dir
    requires before[targetId].props == before[ancestorId].props
    requires Committed(before, sourceId, ancestorId) ==> SidesCommitted(before, a, s)
    requires Framed(before, mid, {targetId} + KidsWritten(kids)) && NamesCovered(a, s, t, a.Keys, kids)
    requires Committed(before, sourceId, ancestorId) ==> KidsProgress(targetId, a, s, t, fuel, supported, a.Keys, kids, before, mid)
    requires forall n :: n in s && n !in a ==> n !in t
    requires Framed(mid, after, {targetId})
    requires after[targetId].predecessor == Some(sourceId) && after[targetId].count == SuccessorCount(before[sourceId].count)
    requires Committed(before, sourceId, ancestorId) ==> inc == MergeInc(a, s, t, before, supported, kids)
    requires Committed(before, sourceId, ancestorId) && UnsharedKids(targetId, kids) ==>
               TargetMerged(before[targetId], s, a, after[targetId], inc, supported)
    ensures DirMerged(fuel, targetId, sourceId, ancestorId, MergeTrace(inc, {targetId} + KidsWritten(kids), kids), before, after, supported)
    ensures Framed(before, after, {targetId} + KidsWritten(kids))
  {
    KidsWrittenCover(kids, targetId);
    if Committed(before, sourceId, ancestorId) && UnsharedKids(targetId, kids) {
      KidsKept(targetId, a, s, t, fuel, supported, kids, before, mid, after);
    }
  }

  /** The sub-merges of a directory merge survive the rewrite of the target node alone that ends it. */
  lemma KidsKept(targetId: NodeId, a: map<string, Entry>, s: map<string, Entry>, t: map<string, Entry>, fuel: nat,
                 supported: bool, kids: map<string, MergeTrace>,
                 before: map<NodeId, RevNode>, mid: map<NodeId, RevNode>, after: map<NodeId, RevNode>)
    requires SidesCommitted(before, a, s) && NamesCovered(a, s, t, a.Keys, kids) && UnsharedKids(targetId, kids)
    requires KidsProgress(targetId, a, s, t, fuel, supported, a.Keys, kids, before, mid) && Framed(mid, after, {targetId})
    ensures forall n :: n in a && Classify(a[n], Get(s, n), Get(t, n)) == Recurse ==>
              SubMerged(fuel, a[n], s[n], t[n], kids[n], before, after, supported)
  {
    OldKidsMoved(a, s, t, fuel, supported, a.Keys, kids, before, mid, after, {targetId});
  }

  /**
   * The end of a directory merge: the target node takes its new predecessor and count,
   * and its merge-info count moves by the increment when merge info is supported. That
   * rewrites the target alone, and a target whose entries were merged is now merged.
   */
  lemma TargetFinished(targetId: NodeId, sourceId: NodeId, sourceCount: int, target: RevNode, unshared: bool,
                       a: map<string, Entry>, s: map<string, Entry>, mid: map<NodeId, RevNode>, merged: map<NodeId, RevNode>,
                       updated: map<NodeId, RevNode>, after: map<NodeId, RevNode>, inc: int, supported: bool)
    requires targetId in merged && target.kind == Dir && Framed(mid, merged, {targetId})
    requires unshared ==>
      merged[targetId] == target.(entries := merged[targetId].entries) &&
      forall n :: Get(merged[targetId].entries, n) == MergedEntry(a, s, target.entries, n)
    requires updated == merged[targetId := merged[targetId].(predecessor := Some(sourceId), count := SuccessorCount(sourceCount))]
    requires after == if supported then updated[targetId := updated[targetId].(mergeInfoCount := updated[targetId].mergeInfoCount + inc)]
                      else updated
    ensures Framed(mid, after, {targetId})
    ensures after[targetId].predecessor == Some(sourceId) && after[targetId].count == SuccessorCount(sourceCount)
    ensures unshared ==> TargetMerged(target, s, a, after[targetId], inc, supported)
  {
  }

  /**
   * The second loop of a directory merge has added the source-only names `done`: none of
   * them was in the target, the store changed only at the target since `start`, `inc`
   * adds to the first loop's increment `prior` the increment of those names (for
   * committed source and ancestor), and, when the target's entries were merged for the
   * ancestor names, they are now merged for `done` too.
   */
  ghost predicate SourceProgress(targetId: NodeId, a: map<string, Entry>, s: map<string, Entry>, target: RevNode,
                                 supported: bool, committed: bool, unshared: bool, before: map<NodeId, RevNode>,
                                 kids: map<string, MergeTrace>, prior: int, done: set<string>, inc: int,
                                 start: map<NodeId, RevNode>, cur: map<NodeId, RevNode>)
  {
    && targetId in start && Framed(start, cur, {targetId})
    && (!supported ==> inc == 0)
    && (forall n :: n in done ==> n !in target.entries)
    && (committed ==> Preserves(before, cur) && before.Keys == cur.Keys &&
                      prior + inc == SumInc(a.Keys + done, a, s, target.entries, before, supported, kids))
    && (unshared ==> cur[targetId] == target.(entries := cur[targetId].entries) &&
                     MergedUpTo(cur[targetId].entries, a, s, target.entries, a.Keys + done))
  }

  /** Adding the source's entry for one more source-only name, missing from the target, extends SourceProgress by it. */
  lemma SourceStep(targetId: NodeId, a: map<string, Entry>, s: map<string, Entry>, target: RevNode,
                   supported: bool, committed: bool, unshared: bool, before: map<NodeId, RevNode>,
                   kids: map<string, MergeTrace>, prior: int, done: set<string>, inc: int,
                   start: map<NodeId, RevNode>, b: map<NodeId, RevNode>, c: map<NodeId, RevNode>, n: string, v: int)
    requires SourceProgress(targetId, a, s, target, supported, committed, unshared, before, kids, prior, done, inc, start, b)
    requires committed ==> SideCommitted(s)
    requires n in s && n !in a && n !in done && n !in target.entries
    requires c == b[targetId := b[targetId].(entries := WithEntry(b[targetId].entries, n, Some(s[n])))]
    requires Preserves(b, c)
    requires supported ==> s[n].id in b && v == b[s[n].id].mergeInfoCount
    requires !supported ==> v == 0
    ensures SourceProgress(targetId, a, s, target, supported, committed, unshared, before, kids, prior, done + {n}, inc + v, start, c)
  {
    if committed {
      PreservesTransitive(before, b, c);
      SourceIncStep(a, s, target.entries, before, supported, kids, a.Keys + done, n);
      assert a.Keys + done + {n} == a.Keys + (done + {n});
    }
    if unshared {
      MergedSourceStep(b[targetId].entries, a, s, target.entries, a.Keys + done, n);
      assert a.Keys + done + {n} == a.Keys + (done + {n});
    }
  }

  /** Once the first loop has handled every ancestor name, the second loop starts from its outcome. */
  lemma SourceStart(targetId: NodeId, a: map<string, Entry>, s: map<string, Entry>, target: RevNode, fuel: nat,
                    supported: bool, committed: bool, kids: map<string, MergeTrace>, incA: int,
                    before: map<NodeId, RevNode>, mid: map<NodeId, RevNode>)
    requires AncestorProgress(targetId, a, s, target, fuel, supported, committed, a.Keys, kids, incA, before, mid)
    ensures SourceProgress(targetId, a, s, target, supported, committed, UnsharedKids(targetId, kids), before, kids, incA,
                           {}, 0, mid, mid)
  {
    assert a.Keys + {} == a.Keys;
  }

  /**
   * Both loops of the merge of directory `targetId` (against `sourceId`, with ancestor
   * `ancestorId`, whose entries are `t`, `s` and `a` in `before`) are done and `cur` is
   * the store they left: no entry was in conflict, each ancestor name that needed a
   * sub-merge has one in `kids`, the store changed only at the target and at what the
   * sub-merges rewrote, `inc` is MergeInc (for committed source and ancestor), the
   * sub-merges hold, and, when they left the target alone, its entries are all merged.
   */
  ghost predicate LoopsMerged(fuel: nat, targetId: NodeId, sourceId: NodeId, ancestorId: NodeId, a: map<string, Entry>,
                              s: map<string, Entry>, t: map<string, Entry>, kids: map<string, MergeTrace>, inc: int,
                              before: map<NodeId, RevNode>, cur: map<NodeId, RevNode>, supported: bool)
  {
    && targetId in before && sourceId in before && ancestorId in before
    && a == before[ancestorId].entries && s == before[sourceId].entries && t == before[targetId].entries
    && before[targetId].kind == Dir && before[sourceId].kind == Dir && before[ancestorId].kind == Dir
    && before[targetId].props == before[ancestorId].props
    && Preserves(before, cur) && Framed(before, cur, {targetId} + KidsWritten(kids))
    && NamesCovered(a, s, t, a.Keys, kids)
    && (forall n :: n in s && n !in a ==> n !in t)
    && (!supported ==> inc == 0)
    && (Committed(before, sourceId, ancestorId) ==>
          && SidesCommitted(before, a, s) && inc == MergeInc(a, s, t, before, supported, kids)
          && KidsProgress(targetId, a, s, t, fuel, supported, a.Keys, kids, before, cur))
    && (UnsharedKids(targetId, kids) ==>
          && cur[targetId] == before[targetId].(entries := cur[targetId].entries)
          && forall n :: Get(cur[targetId].entries, n) == MergedEntry(a, s, t, n))
  }

  /** The outcomes of the two loops make LoopsMerged, with the sum of their increments. */
  lemma LoopsDone(fuel: nat, targetId: NodeId, sourceId: NodeId, ancestorId: NodeId, a: map<string, Entry>,
                  s: map<string, Entry>, kids: map<string, MergeTrace>, incA: int, incS: int,
                  before: map<NodeId, RevNode>, mid: map<NodeId, RevNode>, cur: map<NodeId, RevNode>, supported: bool)
    requires targetId in before && sourceId in before && ancestorId in before
    requires a == before[ancestorId].entries && s == before[sourceId].entries
    requires before[targetId].kind == Dir && before[sourceId].kind == Dir && before[ancestorId].kind == Dir
    requires before[targetId].props == before[ancestorId].props
    requires Committed(before, sourceId, ancestorId) ==> SidesCommitted(before, a, s)
    requires AncestorProgress(targetId, a, s, before[targetId], fuel, supported, Committed(before, sourceId, ancestorId),
                              a.Keys, kids, incA, before, mid)
    requires SourceProgress(targetId, a, s, before[targetId], supported, Committed(before, sourceId, ancestorId),
                            UnsharedKids(targetId, kids), before, kids, incA, s.Keys - a.Keys, incS, mid, cur)
    requires Preserves(mid, cur)
    ensures LoopsMerged(fuel, targetId, sourceId, ancestorId, a, s, before[targetId].entries, kids, incA + incS, before, cur, supported)
  {
    var t := before[targetId].entries;
    PreservesTransitive(before, mid, cur);
    assert a.Keys + (s.Keys - a.Keys) == a.Keys + s.Keys;
    if UnsharedKids(targetId, kids) {
      MergedAll(cur[targetId].entries, a, s, t, a.Keys + (s.Keys - a.Keys));
      if Committed(before, sourceId, ancestorId) {
        KidsKept(targetId, a, s, t, fuel, supported, kids, before, mid, cur);
      }
    }
  }

  /**
   * The end of a directory merge after both loops: the target's new ancestry and count
   * make the merge a DirMerged outcome, with trace the increment, the target and what
   * the sub-merges rewrote, and the sub-merges.
   */
  lemma FinishIntro(fuel: nat, targetId: NodeId, sourceId: NodeId, ancestorId: NodeId, a: map<string, Entry>,
                    s: map<string, Entry>, t: map<string, Entry>, kids: map<string, MergeTrace>, inc: int,
                    before: map<NodeId, RevNode>, cur: map<NodeId, RevNode>, updated: map<NodeId, RevNode>,
                    after: map<NodeId, RevNode>, supported: bool)
    requires LoopsMerged(fuel, targetId, sourceId, ancestorId, a, s, t, kids, inc, before, cur, supported) && targetId.IsTxn()
    requires updated == cur[targetId := cur[targetId].(predecessor := Some(sourceId), count := SuccessorCount(before[sourceId].count))]
    requires after == if supported then updated[targetId := updated[targetId].(mergeInfoCount := updated[targetId].mergeInfoCount + inc)]
                      else updated
    ensures DirMerged(fuel, targetId, sourceId, ancestorId, MergeTrace(inc, {targetId} + KidsWritten(kids), kids), before, after, supported)
    ensures Framed(before, after, {targetId} + KidsWritten(kids))
  {
    TargetFinished(targetId, sourceId, before[sourceId].count, before[targetId], UnsharedKids(targetId, kids), a, s,
                   cur, cur, updated, after, inc, supported);
    DirMergedIntro(fuel, targetId, sourceId, ancestorId, a, s, t, kids, inc, before, cur, after, supported);
  }

  // ---- When a merge goes through ----

  /** Ancestor name `n` needs a sub-merge into two different subdirectories of source and target. */
  predicate SubMergeAt(a: map<string, Entry>, s: map<string, Entry>, t: map<string, Entry>, n: string) {
    n in a && Classify(a[n], Get(s, n), Get(t, n)) == Recurse && s[n].id != t[n].id
  }

  /** Every entry of a directory names a node of the store. */
  ghost predicate Stored(entries: map<string, Entry>, nodes: map<NodeId, RevNode>) {
    forall n :: n in entries ==> entries[n].id in nodes
  }

  /**
   * The transaction nodes the merge of `t` against `s` with ancestor `a` rewrites when it
   * goes through: the target, and what the sub-merges of its entries rewrite.
   */
  ghost function MergeWrites(fuel: nat, t: NodeId, s: NodeId, a: NodeId, nodes: map<NodeId, RevNode>): set<NodeId>
    decreases fuel, 2
  {
    if t in nodes && s in nodes && a in nodes && s != a && s != t then
      {t} + KidsWrites(fuel, nodes[a].entries, nodes[s].entries, nodes[t].entries, nodes)
    else {}
  }

  /** What the sub-merges of a directory merge rewrite. */
  ghost function KidsWrites(fuel: nat, a: map<string, Entry>, s: map<string, Entry>, t: map<string, Entry>,
                            nodes: map<NodeId, RevNode>): set<NodeId>
    decreases fuel, 1
  {
    set n, id | n in a && id in KidWrites(fuel, a, s, t, n, nodes) :: id
  }

  /** What the sub-merge for the name `n` rewrites; nothing for a name that needs none. */
  ghost function KidWrites(fuel: nat, a: map<string, Entry>, s: map<string, Entry>, t: map<string, Entry>, n: string,
                           nodes: map<NodeId, RevNode>): set<NodeId>
    decreases fuel, 0
  {
    if fuel > 0 && SubMergeAt(a, s, t, n) then MergeWrites(fuel - 1, t[n].id, s[n].id, a[n].id, nodes) else {}
  }

  /**
   * The merge of `t` against `s` with ancestor `a` meets no error: the three are in the
   * store and the target is not the ancestor, and when there is something to merge the
   * target is a transaction directory, all three are directories, the target keeps the
   * ancestor's properties and its entries merge cleanly.
   */
  ghost predicate MergeClean(fuel: nat, t: NodeId, s: NodeId, a: NodeId, nodes: map<NodeId, RevNode>)
    decreases fuel, 1
  {
    && t in nodes && s in nodes && a in nodes && a != t
    && (s != a && s != t ==>
          && t.IsTxn() && nodes[t].kind == Dir && nodes[s].kind == Dir && nodes[a].kind == Dir
          && nodes[t].props == nodes[a].props
          && EntriesClean(fuel, t, nodes[a].entries, nodes[s].entries, nodes[t].entries, nodes))
  }

  /**
   * The entries of a directory merge cleanly: no name is in conflict, every ancestor and
   * source entry is in the store, the fuel reaches every sub-merge, each sub-merge is
   * clean and leaves the directory `targetId` alone, and no two sub-merges rewrite the
   * same node (which the tree shape of a revision gives).
   */
  ghost predicate EntriesClean(fuel: nat, targetId: NodeId, a: map<string, Entry>, s: map<string, Entry>, t: map<string, Entry>,
                               nodes: map<NodeId, RevNode>)
    decreases fuel, 0
  {
    && NoEntryConflict(a, s, t) && Stored(a, nodes) && Stored(s, nodes)
    && (forall n :: n in a && Classify(a[n], Get(s, n), Get(t, n)) == Recurse ==> fuel > 0)
    && (forall n :: fuel > 0 && SubMergeAt(a, s, t, n) ==>
          MergeClean(fuel - 1, t[n].id, s[n].id, a[n].id, nodes) && targetId !in KidWrites(fuel, a, s, t, n, nodes))
    && (forall n, m :: n != m ==> KidWrites(fuel, a, s, t, n, nodes) !! KidWrites(fuel, a, s, t, m, nodes))
  }

  /** One ancestor entry merges cleanly, into a clean sub-merge when it needs one. */
  ghost predicate EntryClean(fuel: nat, ae: Entry, se: Option<Entry>, te: Option<Entry>, nodes: map<NodeId, RevNode>) {
    && Classify(ae, se, te) != ConflictAt
    && ae.id in nodes && (se.Some? ==> se.value.id in nodes)
    && (Classify(ae, se, te) == Recurse ==>
          && fuel > 0
          && (se.value.id != te.value.id ==>
                Committed(nodes, se.value.id, ae.id) && MergeClean(fuel - 1, te.value.id, se.value.id, ae.id, nodes)))
  }

  /** Each sub-merge of `kids` rewrote no more than the clean merge of its name rewrites. */
  ghost predicate KidsWithin(fuel: nat, a: map<string, Entry>, s: map<string, Entry>, t: map<string, Entry>,
                             kids: map<string, MergeTrace>, nodes: map<NodeId, RevNode>)
  {
    forall m :: m in kids ==> kids[m].written <= KidWrites(fuel, a, s, t, m, nodes)
  }

  /** A clean merge is clean in any store that agrees on what it rewrites and on every committed node, and rewrites the same. */
  lemma {:induction false} MergeCleanMoved(fuel: nat, t: NodeId, s: NodeId, a: NodeId, n1: map<NodeId, RevNode>,
                                           n2: map<NodeId, RevNode>)
    requires MergeClean(fuel, t, s, a, n1) && Committed(n1, s, a)
    requires n1.Keys == n2.Keys && SameCommitted(n1, n2) && AgreeOn(n1, n2, MergeWrites(fuel, t, s, a, n1))
    ensures MergeClean(fuel, t, s, a, n2) && MergeWrites(fuel, t, s, a, n2) == MergeWrites(fuel, t, s, a, n1)
    decreases fuel
  {
    if s != a && s != t {
      assert t in MergeWrites(fuel, t, s, a, n1);
      var A, S, T := n1[a].entries, n1[s].entries, n1[t].entries;
      assert n2[a].entries == A && n2[s].entries == S && n2[t].entries == T;
      forall n | fuel > 0 && SubMergeAt(A, S, T, n)
        ensures MergeClean(fuel - 1, T[n].id, S[n].id, A[n].id, n2)
        ensures KidWrites(fuel, A, S, T, n, n2) == KidWrites(fuel, A, S, T, n, n1)
      {
        forall id | id in KidWrites(fuel, A, S, T, n, n1)
          ensures id in MergeWrites(fuel, t, s, a, n1)
        {
          assert id in KidsWrites(fuel, A, S, T, n1);
        }
        MergeCleanMoved(fuel - 1, T[n].id, S[n].id, A[n].id, n1, n2);
      }
      assert forall n :: KidWrites(fuel, A, S, T, n, n2) == KidWrites(fuel, A, S, T, n, n1);
      assert KidsWrites(fuel, A, S, T, n2) == KidsWrites(fuel, A, S, T, n1);
    }
  }

  /** Sub-merges within their clean writes leave the directory alone and share no node. */
  lemma CleanUnshared(fuel: nat, targetId: NodeId, a: map<string, Entry>, s: map<string, Entry>, t: map<string, Entry>,
                      kids: map<string, MergeTrace>, nodes: map<NodeId, RevNode>)
    requires EntriesClean(fuel, targetId, a, s, t, nodes) && KidsWithin(fuel, a, s, t, kids, nodes)
    ensures UnsharedKids(targetId, kids)
  {
    forall n | n in kids
      ensures targetId !in kids[n].written
    {
      if fuel > 0 && SubMergeAt(a, s, t, n) {
      }
    }
  }

  /** Sub-merges within their clean writes rewrite no more than the clean merge's sub-merges. */
  lemma KidsWithinWrites(fuel: nat, a: map<string, Entry>, s: map<string, Entry>, t: map<string, Entry>,
                         kids: map<string, MergeTrace>, nodes: map<NodeId, RevNode>)
    requires KidsWithin(fuel, a, s, t, kids, nodes)
    ensures KidsWritten(kids) <= KidsWrites(fuel, a, s, t, nodes)
  {
    forall id | id in KidsWritten(kids)
      ensures id in KidsWrites(fuel, a, s, t, nodes)
    {
      var m :| m in kids && id in kids[m].written;
      assert id in KidWrites(fuel, a, s, t, m, nodes);
    }
  }

  /**
   * In the first loop of a clean merge, the ancestor name `n` not handled yet still merges
   * cleanly in the current store, and its sub-merge rewrites what it would have in the
   * store before the merge.
   */
  lemma EntryCleanAt(fuel: nat, targetId: NodeId, a: map<string, Entry>, s: map<string, Entry>, t: map<string, Entry>,
                     kids: map<string, MergeTrace>, n: string, before: map<NodeId, RevNode>, cur: map<NodeId, RevNode>)
    requires EntriesClean(fuel, targetId, a, s, t, before) && SidesCommitted(before, a, s) && Closed(cur)
    requires KidsWithin(fuel, a, s, t, kids, before) && n in a && n !in kids
    requires Preserves(before, cur) && Framed(before, cur, {targetId} + KidsWritten(kids))
    ensures EntryClean(fuel, a[n], Get(s, n), Get(t, n), cur)
    ensures fuel > 0 && SubMergeAt(a, s, t, n) ==>
      MergeWrites(fuel - 1, t[n].id, s[n].id, a[n].id, cur) == KidWrites(fuel, a, s, t, n, before)
  {
    CommittedKept(before, cur);
    if fuel > 0 && SubMergeAt(a, s, t, n) {
      KidUntouched(fuel, targetId, a, s, t, kids, n, before, cur);
      MergeCleanMoved(fuel - 1, t[n].id, s[n].id, a[n].id, before, cur);
    }
  }

  /** The nodes a sub-merge not run yet would rewrite are neither the directory nor rewritten by the earlier sub-merges. */
  lemma KidUntouched(fuel: nat, targetId: NodeId, a: map<string, Entry>, s: map<string, Entry>, t: map<string, Entry>,
                     kids: map<string, MergeTrace>, n: string, before: map<NodeId, RevNode>, cur: map<NodeId, RevNode>)
    requires EntriesClean(fuel, targetId, a, s, t, before) && KidsWithin(fuel, a, s, t, kids, before) && n !in kids
    requires Framed(before, cur, {targetId} + KidsWritten(kids))
    ensures AgreeOn(before, cur, KidWrites(fuel, a, s, t, n, before))
  {
    var w := KidWrites(fuel, a, s, t, n, before);
    forall m | m in kids
      ensures w !! kids[m].written
    {
      assert kids[m].written <= KidWrites(fuel, a, s, t, m, before);
    }
    AgreeOutside(before, cur, {targetId} + KidsWritten(kids), w);
  }

  /**
   * In the first loop of a clean merge whose sub-merges kept within their clean writes,
   * the next ancestor name `n` merges cleanly into the target directory as it now is.
   */
  lemma AncestorNameClean(targetId: NodeId, a: map<string, Entry>, s: map<string, Entry>, target: RevNode, fuel: nat,
                          supported: bool, done: set<string>, kids: map<string, MergeTrace>, inc: int,
                          before: map<NodeId, RevNode>, cur: map<NodeId, RevNode>, n: string)
    requires AncestorProgress(targetId, a, s, target, fuel, supported, true, done, kids, inc, before, cur)
    requires SidesCommitted(before, a, s) && Closed(cur) && target.kind == Dir
    requires EntriesClean(fuel, targetId, a, s, target.entries, before) && KidsWithin(fuel, a, s, target.entries, kids, before)
    requires n in a && n !in done
    ensures EntryClean(fuel, a[n], Get(s, n), Get(target.entries, n), cur) && targetId in cur && cur[targetId].kind == Dir
    ensures fuel > 0 && SubMergeAt(a, s, target.entries, n) ==>
      MergeWrites(fuel - 1, target.entries[n].id, s[n].id, a[n].id, cur) == KidWrites(fuel, a, s, target.entries, n, before)
  {
    EntryCleanAt(fuel, targetId, a, s, target.entries, kids, n, before, cur);
    CleanUnshared(fuel, targetId, a, s, target.entries, kids, before);
  }

  /**
   * After the first loop of a clean merge, the target directory was left to the merge
   * alone, its source-only names are free in it, and the merge rewrote no more than the
   * clean merge rewrites.
   */
  lemma SourceSideClean(fuel: nat, targetId: NodeId, sourceId: NodeId, ancestorId: NodeId, kids: map<string, MergeTrace>,
                        before: map<NodeId, RevNode>)
    requires Committed(before, sourceId, ancestorId) && MergeClean(fuel, targetId, sourceId, ancestorId, before)
    requires sourceId != ancestorId && sourceId != targetId
    requires KidsWithin(fuel, before[ancestorId].entries, before[sourceId].entries, before[targetId].entries, kids, before)
    ensures targetId.IsTxn() && UnsharedKids(targetId, kids)
    ensures NoEntryConflict(before[ancestorId].entries, before[sourceId].entries, before[targetId].entries)
    ensures Stored(before[sourceId].entries, before)
    ensures {targetId} + KidsWritten(kids) <= MergeWrites(fuel, targetId, sourceId, ancestorId, before)
  {
    var a, s, t := before[ancestorId].entries, before[sourceId].entries, before[targetId].entries;
    CleanUnshared(fuel, targetId, a, s, t, kids, before);
    KidsWithinWrites(fuel, a, s, t, kids, before);
  }
}
