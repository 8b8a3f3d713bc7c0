/**
  The value of a subtree, and what `clone_node` builds: a fresh subtree whose value is that of
  the original, added to the dom without touching anything that was there.
*/
module Snapshots {
  import opened NodeMasks
  import opened Passes
  import opened Trees
  import opened Dirty
  import opened DomValues
  import opened DomStates

  /** A node's payload and, in order, the values of its children's subtrees. */
  datatype Snapshot = Snapshot(node: NodeType, children: seq<Snapshot>)

  /** The tree is well formed and every node of it has a payload. */
  ghost predicate Sound(s: DomState) {
    Trees.Valid(s.tree) && s.nodes.Keys == s.tree.height.Keys
  }

  /** The value of the subtree of `x`. */
  ghost function SnapshotOf(s: DomState, x: NodeId): Snapshot
    requires Sound(s) && x in s.tree.height
    decreases Subtree(s.tree, x), 1
  {
    Snapshot(s.nodes[x], SnapshotsOf(s, x, |s.tree.children[x]|))
  }

  /** The values of the subtrees of the first `k` children of `x`. */
  ghost function SnapshotsOf(s: DomState, x: NodeId, k: nat): (r: seq<Snapshot>)
    requires Sound(s) && x in s.tree.height && k <= |s.tree.children[x]|
    ensures |r| == k
    decreases Subtree(s.tree, x), 0, k
  {
    if k == 0 then []
    else
      var c := s.tree.children[x][k - 1];
      assert c in s.tree.children[x];
      ChildSubtree(s.tree, x, c);
      assert x in Subtree(s.tree, x);
      SnapshotsOf(s, x, k - 1) + [SnapshotOf(s, c)]
  }

  // ---------------------------------------------------------------------------------------------
  // Frames

  /** `sb` has the payloads and child lists `sa` has on the subtree of `x`. */
  ghost predicate SameBelow(sa: DomState, sb: DomState, x: NodeId)
    requires Sound(sa)
  {
    forall n :: n in Subtree(sa.tree, x) ==>
      n in sb.nodes && n in sb.tree.children && sb.nodes[n] == sa.nodes[n] && sb.tree.children[n] == sa.tree.children[n]
  }

  /** `sb` has the payloads and child lists `sa` has, except for the child list of `p`. */
  ghost predicate SameExcept(sa: DomState, sb: DomState, p: NodeId) {
    && (forall n :: n in sa.nodes ==> n in sb.nodes && sb.nodes[n] == sa.nodes[n])
    && (forall n :: n in sa.tree.children && n != p ==> n in sb.tree.children && sb.tree.children[n] == sa.tree.children[n])
  }

  lemma {:induction false} SameExceptBelow(sa: DomState, sb: DomState, p: NodeId, x: NodeId)
    requires Sound(sa) && SameExcept(sa, sb, p) && p !in Subtree(sa.tree, x)
    ensures SameBelow(sa, sb, x)
  {
  }

  /** The value of a subtree depends only on the payloads and child lists inside it. */
  lemma {:induction false} SnapshotFrame(sa: DomState, sb: DomState, x: NodeId)
    requires Sound(sa) && Sound(sb) && x in sa.tree.height && SameBelow(sa, sb, x)
    ensures x in sb.tree.height && SnapshotOf(sb, x) == SnapshotOf(sa, x)
    decreases Subtree(sa.tree, x), 1
  {
    assert x in Subtree(sa.tree, x);
    SnapshotsFrame(sa, sb, x, |sa.tree.children[x]|);
  }

  lemma {:induction false} SnapshotsFrame(sa: DomState, sb: DomState, x: NodeId, k: nat)
    requires Sound(sa) && Sound(sb) && x in sa.tree.height && SameBelow(sa, sb, x) && k <= |sa.tree.children[x]|
    ensures x in sb.tree.height && |sb.tree.children[x]| == |sa.tree.children[x]|
    ensures SnapshotsOf(sb, x, k) == SnapshotsOf(sa, x, k)
    decreases Subtree(sa.tree, x), 0, k
  {
    assert x in Subtree(sa.tree, x);
    if k > 0 {
      var c := sa.tree.children[x][k - 1];
      assert c in sa.tree.children[x];
      ChildSubtree(sa.tree, x, c);
      SnapshotsFrame(sa, sb, x, k - 1);
      SnapshotFrame(sa, sb, c);
    }
  }

  /** The values of the first `k` children of `p` survive a change that keeps them and touches only `p`'s child list. */
  lemma {:induction false} SnapshotsPrefix(sa: DomState, sb: DomState, p: NodeId, k: nat)
    requires Sound(sa) && Sound(sb) && p in sa.tree.height && p in sb.tree.height && SameExcept(sa, sb, p)
    requires k <= |sa.tree.children[p]| && k <= |sb.tree.children[p]|
    requires forall j :: 0 <= j < k ==> sb.tree.children[p][j] == sa.tree.children[p][j]
    ensures SnapshotsOf(sb, p, k) == SnapshotsOf(sa, p, k)
  {
    if k > 0 {
      SnapshotsPrefix(sa, sb, p, k - 1);
      SnapshotsPrefixStep(sa, sb, p, k - 1);
    }
  }

  lemma {:induction false} SnapshotsPrefixStep(sa: DomState, sb: DomState, p: NodeId, k: nat)
    requires Sound(sa) && Sound(sb) && p in sa.tree.height && p in sb.tree.height && SameExcept(sa, sb, p)
    requires k < |sa.tree.children[p]| && k < |sb.tree.children[p]| && sb.tree.children[p][k] == sa.tree.children[p][k]
    requires SnapshotsOf(sb, p, k) == SnapshotsOf(sa, p, k)
    ensures SnapshotsOf(sb, p, k + 1) == SnapshotsOf(sa, p, k + 1)
  {
    var c := sa.tree.children[p][k];
    assert c in sa.tree.children[p];
    ChildSubtree(sa.tree, p, c);
    SameExceptBelow(sa, sb, p, c);
    SnapshotFrame(sa, sb, c);
  }

  // ---------------------------------------------------------------------------------------------
  // Growth

  /** The ids from `lo` up to `hi`. */
  function Range(lo: nat, hi: nat): (r: set<NodeId>)
    ensures forall n :: n in r <==> lo <= n < hi
    decreases hi - lo
  {
    if lo >= hi then {} else {lo} + Range(lo + 1, hi)
  }

  lemma {:induction false} RangeUnion(a: nat, b: nat, c: nat)
    requires a <= b <= c
    ensures Range(a, b) + Range(b, c) == Range(a, c) && Range(a, b) !! Range(b, c)
  {
  }

  lemma {:induction false} RangeOne(lo: nat)
    ensures Range(lo, lo + 1) == {lo}
  {
    assert lo in Range(lo, lo + 1);
  }

  /** `s` only adds to `s0`: the nodes with the ids from `s0.nextId` on, and nothing old changed. */
  ghost predicate Grows(s: DomState, s0: DomState) {
    && Extends(s.tree, s0.tree)
    && s0.nextId <= s.nextId
    && s.nodes.Keys == s0.nodes.Keys + Range(s0.nextId, s.nextId)
    && (forall n :: n in s0.nodes ==> n in s.nodes && s.nodes[n] == s0.nodes[n])
    && s.components == s0.components && s.nodesListening == s0.nodesListening && s.dirtyNodeStates == s0.dirtyNodeStates
  }

  lemma {:induction false} GrowsTransitive(s2: DomState, s1: DomState, s0: DomState)
    requires Grows(s2, s1) && Grows(s1, s0)
    ensures Grows(s2, s0)
  {
    ExtendsTransitive(s2.tree, s1.tree, s0.tree);
    RangeUnion(s0.nextId, s1.nextId, s2.nextId);
  }

  /** Growth keeps the subtree of an old node, and so its value. */
  lemma {:induction false} GrowsKeepsSnapshot(s0: DomState, s: DomState, x: NodeId)
    requires Sound(s0) && Sound(s) && Grows(s, s0) && x in s0.tree.height
    ensures x in s.tree.height && Subtree(s.tree, x) == Subtree(s0.tree, x) && SnapshotOf(s, x) == SnapshotOf(s0, x)
  {
    ExtendsSubtree(s.tree, s0.tree, x);
    SnapshotFrame(s0, s, x);
  }

  lemma {:induction false} AddEntityGrows(s: DomState, node: NodeType)
    requires Trees.Valid(s.tree) && Below(s.tree.height.Keys, s.nextId) && s.nodes.Keys == s.tree.height.Keys
    ensures Grows(AddEntity(s, node), s)
  {
    CreateNodeExtends(s.tree, s.nextId);
    RangeOne(s.nextId);
  }

  /**
    The dirty maps after growth from `lo` to `hi`: old entries kept, and every new node created,
    stale on every pass (`all`) and on no more than `extra` besides, with every part of its mask dirty.
  */
  ghost predicate DirtyGrowth(pu: PassMap, nu: map<NodeId, NodeMask>, cr: set<NodeId>,
                              pu0: PassMap, nu0: map<NodeId, NodeMask>, cr0: set<NodeId>,
                              lo: nat, hi: nat, all: set<TypeId>, extra: set<TypeId>)
  {
    && pu.Keys == pu0.Keys + Range(lo, hi) && nu.Keys == nu0.Keys + Range(lo, hi) && cr == cr0 + Range(lo, hi)
    && (forall n :: n in pu0 && !(lo <= n < hi) ==> pu[n] == pu0[n])
    && (forall n :: n in nu0 && !(lo <= n < hi) ==> nu[n] == nu0[n])
    && (forall n :: lo <= n < hi ==> all <= pu[n] <= all + extra)
    && (forall n :: lo <= n < hi ==> nu[n] == ALL)
  }

  lemma {:induction false} DirtyGrowthCreated(pu0: PassMap, nu0: map<NodeId, NodeMask>, cr0: set<NodeId>, lo: nat, hi: nat, all: set<TypeId>, extra: set<TypeId>)
    requires hi == lo + 1
    ensures DirtyGrowth(pu0[lo := all], nu0[lo := ALL], cr0 + {lo}, pu0, nu0, cr0, lo, hi, all, extra)
  {
    RangeOne(lo);
  }

  lemma {:induction false} DirtyGrowthTransitive(pu2: PassMap, nu2: map<NodeId, NodeMask>, cr2: set<NodeId>,
                              pu1: PassMap, nu1: map<NodeId, NodeMask>, cr1: set<NodeId>,
                              pu0: PassMap, nu0: map<NodeId, NodeMask>, cr0: set<NodeId>,
                              a: nat, b: nat, c: nat, all: set<TypeId>, extra: set<TypeId>)
    requires a <= b <= c
    requires DirtyGrowth(pu2, nu2, cr2, pu1, nu1, cr1, b, c, all, extra)
    requires DirtyGrowth(pu1, nu1, cr1, pu0, nu0, cr0, a, b, all, extra)
    ensures DirtyGrowth(pu2, nu2, cr2, pu0, nu0, cr0, a, c, all, extra)
  {
    RangeUnion(a, b, c);
    forall n | a <= n < c ensures all <= pu2[n] <= all + extra && nu2[n] == ALL {
      if n < b {
        assert n in Range(a, b);
      }
    }
  }

  lemma {:induction false} DirtyGrowthMark(pu: PassMap, nu: map<NodeId, NodeMask>, cr: set<NodeId>,
                        pu0: PassMap, nu0: map<NodeId, NodeMask>, cr0: set<NodeId>,
                        lo: nat, hi: nat, all: set<TypeId>, extra: set<TypeId>, n: NodeId, ids: set<TypeId>)
    requires DirtyGrowth(pu, nu, cr, pu0, nu0, cr0, lo, hi, all, extra) && lo <= n < hi && ids <= extra
    ensures DirtyGrowth(AddPasses(pu, n, ids), nu, cr, pu0, nu0, cr0, lo, hi, all, extra)
  {
    assert n in Range(lo, hi);
  }

  // ---------------------------------------------------------------------------------------------
  // clone_node

  /** The types whose passes go stale when a child is added below a node or a node gets a parent. */
  function LinkIds(ps: seq<PassState>): set<TypeId> {
    DeclaredIds(ps, OnChild) + DeclaredIds(ps, OnParent)
  }

  /** A clone just made below the old nodes can hang below the new node, which is not inside it. */
  lemma {:induction false} CloneCanAttach(sa: DomState, sm: DomState, p: NodeId, cid: NodeId)
    requires Sound(sa) && Sound(sm) && Grows(sm, sa) && p in sa.tree.height
    requires cid !in sa.tree.height && cid in sm.tree.height && cid !in sm.tree.parent
    ensures CanAttach(sm.tree, p, cid) && p !in Subtree(sm.tree, cid)
  {
    NewSubtreeIsNew(sm.tree, sa.tree, cid);
  }

  /** Hanging the clone below the new node is still growth from the start. */
  lemma {:induction false} CloneAttachGrows(s0: DomState, sa: DomState, sm: DomState, sb: DomState, p: NodeId, cid: NodeId)
    requires Sound(s0) && Sound(sa) && Sound(sm) && Grows(sa, s0) && Grows(sm, sa)
    requires p in sa.tree.height && p !in s0.tree.height && cid !in sa.tree.height && CanAttach(sm.tree, p, cid)
    requires sb == sm.(tree := Trees.AddChild(sm.tree, p, cid))
    ensures Grows(sb, s0)
  {
    GrowsTransitive(sm, sa, s0);
    AddChildExtends(sm.tree, s0.tree, p, cid);
  }

  /** Hanging the clone below the new node changes nothing but the new node's child list, which gains the clone. */
  lemma {:induction false} CloneAttachSame(sa: DomState, sm: DomState, sb: DomState, p: NodeId, cid: NodeId)
    requires Grows(sm, sa) && p in sa.tree.children
    requires sb.nodes == sm.nodes && sb.tree.children == sm.tree.children[p := sm.tree.children[p] + [cid]]
    ensures SameExcept(sa, sb, p) && SameExcept(sm, sb, p)
    ensures sb.tree.children[p] == sa.tree.children[p] + [cid]
  {
  }

  /**
    One turn of the loop of `clone_node`: with the values of the first `k` children of the
    original copied below `p`, hanging the clone of child `k` below `p` copies the first `k + 1`.
  */
  lemma {:induction false} CloneStep(s0: DomState, x: NodeId, sa: DomState, sm: DomState, sb: DomState, p: NodeId, c: NodeId, cid: NodeId, k: nat)
    requires Sound(s0) && Sound(sa) && Sound(sm) && Sound(sb)
    requires x in s0.tree.height && k < |s0.tree.children[x]| && c == s0.tree.children[x][k]
    requires Grows(sa, s0) && p in sa.tree.height && p in sb.tree.height && |sa.tree.children[p]| == k
    requires SnapshotsOf(sa, p, k) == SnapshotsOf(s0, x, k)
    requires cid in sm.tree.height && p !in Subtree(sm.tree, cid) && c in sa.tree.height
    requires SnapshotOf(sm, cid) == SnapshotOf(sa, c)
    requires SameExcept(sa, sb, p) && SameExcept(sm, sb, p) && sb.tree.children[p] == sa.tree.children[p] + [cid]
    ensures |sb.tree.children[p]| == k + 1 && SnapshotsOf(sb, p, k + 1) == SnapshotsOf(s0, x, k + 1)
  {
    assert c in s0.tree.children[x];
    GrowsKeepsSnapshot(s0, sa, c);
    SnapshotsPrefix(sa, sb, p, k);
    SameExceptBelow(sm, sb, p, cid);
    SnapshotFrame(sm, sb, cid);
    assert sb.tree.children[p][k] == cid;
  }

  /** Once all the children are copied, the new node's subtree has the value of the original's. */
  lemma {:induction false} CloneDone(s0: DomState, x: NodeId, s: DomState, p: NodeId)
    requires Sound(s0) && Sound(s) && x in s0.tree.height && p in s.tree.height && s.nodes[p] == s0.nodes[x]
    requires |s.tree.children[p]| == |s0.tree.children[x]|
    requires SnapshotsOf(s, p, |s.tree.children[p]|) == SnapshotsOf(s0, x, |s0.tree.children[x]|)
    ensures SnapshotOf(s, p) == SnapshotOf(s0, x)
  {
  }

  /**
    The loop of `clone_node` after `k` children: `s` grew from `s0` by the copy `p` of `x`, whose first `k`
    children are copies of the first `k` children of `x`.
  */
  ghost predicate Cloning(s: DomState, s0: DomState, x: NodeId, p: NodeId, k: nat) {
    && Sound(s0) && Sound(s) && x in s0.tree.height && k <= |s0.tree.children[x]|
    && Grows(s, s0) && p == s0.nextId && p !in s0.tree.height
    && p in s.tree.height && p in s.tree.children && p !in s.tree.parent && s.nodes[p] == s0.nodes[x]
    && |s.tree.children[p]| == k && SnapshotsOf(s, p, k) == SnapshotsOf(s0, x, k)
  }

  /** The loop of `clone_node` after `k` children, with the growth of the dirty maps since the start. */
  ghost predicate CloneLoop(s: DomState, pu: PassMap, nu: map<NodeId, NodeMask>, cr: set<NodeId>,
                            s0: DomState, pu0: PassMap, nu0: map<NodeId, NodeMask>, cr0: set<NodeId>,
                            all: set<TypeId>, extra: set<TypeId>, x: NodeId, p: NodeId, k: nat)
  {
    Cloning(s, s0, x, p, k) && DirtyGrowth(pu, nu, cr, pu0, nu0, cr0, s0.nextId, s.nextId, all, extra)
  }

  /** The new node of `clone_node` starts the loop with no children. */
  lemma {:induction false} CloneStart(s0: DomState, x: NodeId)
    requires Sound(s0) && Below(s0.tree.height.Keys, s0.nextId) && x in s0.tree.height
    ensures AddEntity(s0, s0.nodes[x]).nextId == s0.nextId + 1
    ensures Cloning(AddEntity(s0, s0.nodes[x]), s0, x, s0.nextId, 0)
  {
    AddEntityGrows(s0, s0.nodes[x]);
  }

  /**
    One turn of the loop of `clone_node`: once child `k` of `x` is cloned into `cid`, hanging `cid`
    below `p` is allowed and copies the first `k + 1` children.
  */
  lemma {:induction false} CloneChildStep(s0: DomState, x: NodeId, sa: DomState, sm: DomState, sb: DomState, p: NodeId, c: NodeId, cid: NodeId, k: nat)
    requires Cloning(sa, s0, x, p, k) && k < |s0.tree.children[x]| && c == s0.tree.children[x][k]
    requires Sound(sm) && Grows(sm, sa) && cid !in sa.tree.height && cid in sm.tree.height && cid !in sm.tree.parent
    requires c in sa.tree.height && SnapshotOf(sm, cid) == SnapshotOf(sa, c)
    requires CanAttach(sm.tree, p, cid) && sb == sm.(tree := Trees.AddChild(sm.tree, p, cid))
    ensures Cloning(sb, s0, x, p, k + 1)
  {
    CloneChildGrows(s0, x, sa, sm, sb, p, cid, k);
    CloneChildCopies(s0, x, sa, sm, sb, p, c, cid, k);
  }

  lemma {:induction false} CloneChildGrows(s0: DomState, x: NodeId, sa: DomState, sm: DomState, sb: DomState, p: NodeId, cid: NodeId, k: nat)
    requires Cloning(sa, s0, x, p, k)
    requires Sound(sm) && Grows(sm, sa) && cid !in sa.tree.height && cid in sm.tree.height && cid !in sm.tree.parent
    requires CanAttach(sm.tree, p, cid) && sb == sm.(tree := Trees.AddChild(sm.tree, p, cid))
    ensures Sound(sb) && Grows(sb, s0) && p in sb.tree.height && p in sb.tree.children && p !in sb.tree.parent
    ensures sb.nodes[p] == s0.nodes[x]
    ensures sb.nodes == sm.nodes && sb.tree.children == sm.tree.children[p := sm.tree.children[p] + [cid]]
  {
    CloneAttachGrows(s0, sa, sm, sb, p, cid);
  }

  lemma {:induction false} CloneChildCopies(s0: DomState, x: NodeId, sa: DomState, sm: DomState, sb: DomState, p: NodeId, c: NodeId, cid: NodeId, k: nat)
    requires Sound(s0) && Sound(sa) && x in s0.tree.height && k < |s0.tree.children[x]| && c == s0.tree.children[x][k]
    requires Grows(sa, s0) && p in sa.tree.height && p in sa.tree.children && |sa.tree.children[p]| == k
    requires SnapshotsOf(sa, p, k) == SnapshotsOf(s0, x, k)
    requires Sound(sm) && Grows(sm, sa) && cid !in sa.tree.height && cid in sm.tree.height && cid !in sm.tree.parent
    requires c in sa.tree.height && SnapshotOf(sm, cid) == SnapshotOf(sa, c)
    requires Sound(sb) && p in sb.tree.height
    requires sb.nodes == sm.nodes && sb.tree.children == sm.tree.children[p := sm.tree.children[p] + [cid]]
    ensures |sb.tree.children[p]| == k + 1 && SnapshotsOf(sb, p, k + 1) == SnapshotsOf(s0, x, k + 1)
  {
    CloneAttachSame(sa, sm, sb, p, cid);
    CloneCanAttach(sa, sm, p, cid);
    CloneStep(s0, x, sa, sm, sb, p, c, cid, k);
  }

  /** The dirty maps after one turn of the loop of `clone_node`: the clone's growth, then the two link marks. */
  lemma {:induction false} DirtyGrowthClone(pum: PassMap, num: map<NodeId, NodeMask>, crm: set<NodeId>,
                         pua: PassMap, nua: map<NodeId, NodeMask>, cra: set<NodeId>,
                         pu0: PassMap, nu0: map<NodeId, NodeMask>, cr0: set<NodeId>,
                         lo: nat, mid: nat, hi: nat, all: set<TypeId>, ps: seq<PassState>, p: NodeId, cid: NodeId)
    requires lo <= p < mid <= cid < hi
    requires DirtyGrowth(pum, num, crm, pua, nua, cra, mid, hi, all, LinkIds(ps))
    requires DirtyGrowth(pua, nua, cra, pu0, nu0, cr0, lo, mid, all, LinkIds(ps))
    ensures DirtyGrowth(AddPasses(AddPasses(pum, p, DeclaredIds(ps, OnChild)), cid, DeclaredIds(ps, OnParent)), num, crm,
                        pu0, nu0, cr0, lo, hi, all, LinkIds(ps))
  {
    DirtyGrowthTransitive(pum, num, crm, pua, nua, cra, pu0, nu0, cr0, lo, mid, hi, all, LinkIds(ps));
    DirtyGrowthMark(pum, num, crm, pu0, nu0, cr0, lo, hi, all, LinkIds(ps), p, DeclaredIds(ps, OnChild));
    DirtyGrowthMark(AddPasses(pum, p, DeclaredIds(ps, OnChild)), num, crm, pu0, nu0, cr0, lo, hi, all, LinkIds(ps),
                    cid, DeclaredIds(ps, OnParent));
  }

  /** Once every child is copied, the new subtree has the value of the old one. */
  lemma {:induction false} CloneEnd(s: DomState, s0: DomState, x: NodeId, p: NodeId, k: nat)
    requires Cloning(s, s0, x, p, k) && k == |s0.tree.children[x]|
    ensures Grows(s, s0) && p in s.tree.height && p !in s.tree.parent
    ensures SnapshotOf(s, p) == SnapshotOf(s0, x)
  {
    CloneDone(s0, x, s, p);
  }
}
