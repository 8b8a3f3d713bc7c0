/**
  The state a `RealDom` of `real_dom.rs` owns besides its dirty tracker, as one value: the ECS
  world (the `NodeType` component of every node, which other components each node carries, the
  tree, the next entity id, the `DirtyNodeStates` unique) and the event index `nodes_listening`.
  Here are the invariant the dom keeps (`Wf`), what each kind of change does to it, and the
  specifications of the two recursive node operations: removing a subtree and copying one.
*/
module DomStates {
  import opened Collections
  import opened NodeMasks
  import opened Passes
  import opened Trees
  import opened Dirty
  import opened DomValues

  /** The ECS world of one dom together with its event index. */
  datatype DomState = DomState(
    nodes: map<NodeId, NodeType>,
    components: set<(NodeId, TypeId)>,
    tree: Tree,
    nextId: NodeId,
    dirtyNodeStates: set<(TypeId, NodeId, nat)>,
    nodesListening: ListenerMap)

  /** All of `s` was handed out before `next`. */
  ghost predicate Below(s: set<NodeId>, next: NodeId) {
    forall n :: n in s ==> n < next
  }

  /** The dom's invariant: a valid tree whose nodes are those with a payload, and every recorded id handed out already. */
  ghost predicate Wf(s: DomState, pu: PassMap, nu: map<NodeId, NodeMask>, cr: set<NodeId>) {
    && Trees.Valid(s.tree)
    && s.nodes.Keys == s.tree.height.Keys
    && Below(s.tree.height.Keys, s.nextId)
    && Below(pu.Keys, s.nextId)
    && Below(nu.Keys, s.nextId)
    && Below(cr, s.nextId)
  }

  lemma BelowSubset(a: set<NodeId>, b: set<NodeId>, c: set<NodeId>, next: NodeId)
    requires Below(b, next) && Below(c, next) && a <= b + c
    ensures Below(a, next)
  {
  }

  // ---------------------------------------------------------------------------------------------
  // What each kind of change does to the invariant

  /** A new tree over the same nodes. */
  lemma WfTree(s: DomState, pu: PassMap, nu: map<NodeId, NodeMask>, cr: set<NodeId>, t2: Tree)
    requires Wf(s, pu, nu, cr) && Trees.Valid(t2) && t2.height.Keys == s.tree.height.Keys
    ensures Wf(s.(tree := t2), pu, nu, cr)
  {
  }

  /** New payloads, components, work set or index over the same tree. */
  lemma WfSameTree(s: DomState, pu: PassMap, nu: map<NodeId, NodeMask>, cr: set<NodeId>, s2: DomState)
    requires Wf(s, pu, nu, cr)
    requires s2.tree == s.tree && s2.nodes.Keys == s.nodes.Keys && s2.nextId == s.nextId
    ensures Wf(s2, pu, nu, cr)
  {
  }

  /** Passes going stale on a node of the tree. */
  lemma WfMark(s: DomState, pu: PassMap, nu: map<NodeId, NodeMask>, cr: set<NodeId>, n: NodeId, ids: set<TypeId>)
    requires Wf(s, pu, nu, cr) && n in s.tree.height
    ensures Wf(s, AddPasses(pu, n, ids), nu, cr)
  {
    BelowSubset(AddPasses(pu, n, ids).Keys, pu.Keys, {n}, s.nextId);
  }

  /** A mask merged on a node of the tree. */
  lemma WfMerge(s: DomState, pu: PassMap, nu: map<NodeId, NodeMask>, cr: set<NodeId>, n: NodeId, m: NodeMask)
    requires Wf(s, pu, nu, cr) && n in s.tree.height
    ensures Wf(s, pu, MergeMask(nu, n, m), cr)
  {
    BelowSubset(MergeMask(nu, n, m).Keys, nu.Keys, {n}, s.nextId);
  }

  /** Nodes leaving the tree together with their payloads. */
  lemma WfShrink(s: DomState, pu: PassMap, nu: map<NodeId, NodeMask>, cr: set<NodeId>, s2: DomState)
    requires Wf(s, pu, nu, cr)
    requires Trees.Valid(s2.tree) && s2.nodes.Keys == s2.tree.height.Keys
    requires s2.tree.height.Keys <= s.tree.height.Keys && s2.nextId == s.nextId
    ensures Wf(s2, pu, nu, cr)
  {
    BelowSubset(s2.tree.height.Keys, s.tree.height.Keys, {}, s.nextId);
  }

  /** `world.add_entity(node)` followed by `tree.create_node(id)`: the next id gets the payload and a parentless tree node. */
  function AddEntity(s: DomState, node: NodeType): (r: DomState)
    requires Trees.Valid(s.tree) && Below(s.tree.height.Keys, s.nextId)
    ensures s.nextId !in s.tree.height && s.nextId in r.tree.height && s.nextId !in r.tree.parent
    ensures r.tree.height.Keys == s.tree.height.Keys + {s.nextId}
    ensures r.nodes == s.nodes[s.nextId := node] && r.nextId > s.nextId
    ensures r.components == s.components && r.nodesListening == s.nodesListening && r.dirtyNodeStates == s.dirtyNodeStates
  {
    s.(nodes := s.nodes[s.nextId := node], tree := Trees.CreateNode(s.tree, s.nextId), nextId := s.nextId + 1)
  }

  /** A new entity keeps the invariant, and is recorded as created. */
  lemma WfAddEntity(s: DomState, pu: PassMap, nu: map<NodeId, NodeMask>, cr: set<NodeId>, node: NodeType)
    requires Wf(s, pu, nu, cr)
    ensures s.nextId !in s.nodes && s.nextId !in pu && s.nextId !in nu && s.nextId !in cr
    ensures Wf(AddEntity(s, node), pu, nu, cr + {s.nextId})
    ensures s.nextId in AddEntity(s, node).tree.height
  {
    var r := AddEntity(s, node);
    BelowSubset(r.tree.height.Keys, s.tree.height.Keys, {s.nextId}, r.nextId);
    BelowSubset(pu.Keys, pu.Keys, {}, r.nextId);
    BelowSubset(nu.Keys, nu.Keys, {}, r.nextId);
    BelowSubset(cr + {s.nextId}, cr, {s.nextId}, r.nextId);
  }

  /** A created node of the tree gets entries in both dirty maps. */
  lemma WfCreated(s: DomState, pu: PassMap, nu: map<NodeId, NodeMask>, cr: set<NodeId>, n: NodeId, ids: set<TypeId>)
    requires Wf(s, pu, nu, cr) && n in s.tree.height
    ensures Wf(s, pu[n := ids], nu[n := ALL], cr)
  {
    BelowSubset(pu[n := ids].Keys, pu.Keys, {n}, s.nextId);
    BelowSubset(nu[n := ALL].Keys, nu.Keys, {n}, s.nextId);
  }

  /** A dom holding only its root element, with id 0 and no listeners. */
  function InitialState(): (s: DomState)
    ensures Trees.Valid(s.tree)
  {
    DomState(map[0 := Element(ROOT_TAG, map[], {})], {}, Trees.CreateNode(Trees.Empty, 0), 1, {}, map[])
  }

  /** The initial dom, with the root stale for every pass, keeps the invariant, and its empty index is consistent. */
  lemma InitialStateWf(ids: set<TypeId>)
    ensures Wf(InitialState(), map[0 := ids], map[0 := ALL], {0})
    ensures ListenerIndex(InitialState().nodesListening, InitialState().nodes)
  {
    var s := InitialState();
    assert Listeners(s.nodes[0]) == {};
  }

  /** Draining the dirty maps keeps the invariant. */
  lemma WfDrained(s: DomState, pu: PassMap, nu: map<NodeId, NodeMask>, cr: set<NodeId>)
    requires Wf(s, pu, nu, cr)
    ensures Wf(s, map[], map[], cr)
  {
  }


  // ---------------------------------------------------------------------------------------------
  // Removal

  /** The state once the nodes of `s` are gone: their payloads, components, tree entries and places in the index. */
  function RemoveNodes(st: DomState, s: set<NodeId>): DomState
    requires Trees.Valid(st.tree) && DownClosed(st.tree, s)
  {
    st.(nodes := Drop(st.nodes, s), components := DropComponents(st.components, s),
        tree := RemoveSet(st.tree, s), nodesListening := Purge(st.nodesListening, st.nodes, s))
  }

  /** What `remove` on `x` leaves: `x` and everything below it gone. */
  function RemoveSubtree(st: DomState, x: NodeId): DomState
    requires Trees.Valid(st.tree)
  {
    SubtreeDownClosed(st.tree, x);
    RemoveNodes(st, Subtree(st.tree, x))
  }

  /** The first step of `remove`: the node leaves the index entry of each event it listens for. */
  function Unlisten(st: DomState, x: NodeId): DomState {
    st.(nodesListening := Purge(st.nodesListening, st.nodes, {x}))
  }

  /**
    Removal takes out exactly the subtree; what stays keeps its payload, its components and its
    place in the tree, no event entry is dropped, and a consistent index stays consistent.
  */
  lemma RemoveSubtreeSpec(st: DomState, x: NodeId)
    requires Trees.Valid(st.tree) && st.nodes.Keys == st.tree.height.Keys
    ensures var r := RemoveSubtree(st, x);
      && r.nodes.Keys == st.nodes.Keys - Subtree(st.tree, x)
      && (forall n :: n in r.nodes ==> r.nodes[n] == st.nodes[n])
      && (forall p :: p in r.components <==> p in st.components && p.0 !in Subtree(st.tree, x))
      && r.tree == Trees.Remove(st.tree, x) && r.nextId == st.nextId
      && (forall e :: e in r.nodesListening <==> e in st.nodesListening)
      && (ListenerIndex(st.nodesListening, st.nodes) ==> ListenerIndex(r.nodesListening, r.nodes))
  {
    if ListenerIndex(st.nodesListening, st.nodes) {
      PurgeKeepsIndex(st.nodesListening, st.nodes, Subtree(st.tree, x));
    }
  }

  /** The nodes `remove` marks as having lost a child: the removed node's parent, and every removed node that had children. */
  lemma RemovalMarks(t: Tree, x: NodeId)
    requires Trees.Valid(t) && x in t.height
    ensures ParentsIn(t, Subtree(t, x)) == ParentsIn(t, {x}) + (set n | n in Subtree(t, x) && t.children[n] != [])
  {
    var sub := Subtree(t, x);
    forall p | p in ParentsIn(t, sub) ensures p in ParentsIn(t, {x}) || (p in sub && t.children[p] != []) {
      var n :| n in sub && n in t.parent && t.parent[n] == p;
      if n != x {
        assert n in t.children[p];
      }
    }
    forall n | n in sub && t.children[n] != [] ensures n in ParentsIn(t, sub) {
      var c := t.children[n][0];
      assert c in t.children[n];
      assert IsAncestorOrSelf(t, x, c);
    }
  }

  lemma ParentsInUnion(t: Tree, a: set<NodeId>, b: set<NodeId>)
    ensures ParentsIn(t, a + b) == ParentsIn(t, a) + ParentsIn(t, b)
  {
  }

  /** The subtrees of the first `k` children of `x` are closed downwards. */
  lemma ChildSubtreesClosed(t: Tree, x: NodeId, k: nat)
    requires Trees.Valid(t) && x in t.children && k <= |t.children[x]|
    ensures DownClosed(t, SubtreesOf(t, t.children[x][..k]))
  {
    if k > 0 {
      ChildSubtreesStep(t, x, k - 1);
      assert t.children[x][..k - 1 + 1] == t.children[x][..k];
    }
  }

  lemma RemoveNothing(st: DomState)
    requires Trees.Valid(st.tree)
    ensures DownClosed(st.tree, {}) && RemoveNodes(st, {}) == st
  {
    RemoveSetNothing(st.tree);
    assert Drop(st.nodes, {}) == st.nodes;
    assert DropComponents(st.components, {}) == st.components;
    PurgeNothing(st.nodesListening, st.nodes);
  }

  /** Removing `a` and then `b` is removing both at once. */
  lemma RemoveNodesTwice(st: DomState, a: set<NodeId>, b: set<NodeId>)
    requires Trees.Valid(st.tree) && DownClosed(st.tree, a) && DownClosed(RemoveSet(st.tree, a), b) && a !! b
    ensures DownClosed(st.tree, a + b) && RemoveNodes(RemoveNodes(st, a), b) == RemoveNodes(st, a + b)
  {
    var s1 := RemoveNodes(st, a);
    RemoveSetTwice(st.tree, a, b);
    DropTwice(st.nodes, a, b);
    PurgeAfterDrop(s1.nodesListening, st.nodes, a, b);
    PurgeTwice(st.nodesListening, st.nodes, a, b);
    DropComponentsTwice(st.components, a, b);
  }

  /** In the tree, one turn of the loop of `remove`: child `k` keeps its whole subtree once the earlier children's are gone. */
  lemma RemoveChildTree(t: Tree, x: NodeId, k: nat)
    requires Trees.Valid(t) && x in t.children && k < |t.children[x]|
    ensures var ch := t.children[x]; var c := ch[k]; var done := SubtreesOf(t, ch[..k]);
      && DownClosed(t, done) && DownClosed(t, SubtreesOf(t, ch[..k + 1]))
      && c in Subtree(t, c) && Subtree(t, c) !! done && Subtree(t, c) <= Subtree(t, x) - {x}
      && Subtree(RemoveSet(t, done), c) == Subtree(t, c)
      && DownClosed(RemoveSet(t, done), Subtree(t, c))
      && ParentsIn(RemoveSet(t, done), Subtree(t, c)) == ParentsIn(t, Subtree(t, c))
      && SubtreesOf(t, ch[..k + 1]) == done + Subtree(t, c)
  {
    var ch := t.children[x];
    var c := ch[k];
    var done := SubtreesOf(t, ch[..k]);
    ChildSubtreesClosed(t, x, k);
    ChildSubtreesStep(t, x, k);
    assert c in t.children[x];
    ChildSubtree(t, x, c);
    RemoveSetKeepsSubtree(t, done, c);
  }

  /** A subtree clear of the removed nodes stays whole, with the same parents. */
  lemma RemoveSetKeepsSubtree(t: Tree, s: set<NodeId>, c: NodeId)
    requires Trees.Valid(t) && DownClosed(t, s) && Subtree(t, c) !! s
    ensures Subtree(RemoveSet(t, s), c) == Subtree(t, c)
    ensures DownClosed(RemoveSet(t, s), Subtree(t, c))
    ensures ParentsIn(RemoveSet(t, s), Subtree(t, c)) == ParentsIn(t, Subtree(t, c))
  {
    RemoveSetSubtree(t, s, c);
    SubtreeDownClosed(RemoveSet(t, s), c);
    ParentsInAgree(RemoveSet(t, s), t, Subtree(t, c));
  }

  lemma ParentsInAgree(t1: Tree, t2: Tree, s: set<NodeId>)
    requires forall n :: n in s ==> (n in t1.parent <==> n in t2.parent)
    requires forall n :: n in s && n in t1.parent ==> t1.parent[n] == t2.parent[n]
    ensures ParentsIn(t1, s) == ParentsIn(t2, s)
  {
  }

  /**
    One turn of the loop of `remove` over the children of `x`: with the subtrees of the first `k`
    children gone, child `k` is still there with its whole subtree and the index entries its
    removal needs, and removing it is removing the subtrees of the first `k + 1` children.
  */
  lemma RemoveChildStep(s1: DomState, x: NodeId, k: nat)
    requires Trees.Valid(s1.tree) && x in s1.tree.children && k < |s1.tree.children[x]|
    requires s1.nodes.Keys == s1.tree.height.Keys
    requires ListenerKeysPresent(s1.nodesListening, s1.nodes, Subtree(s1.tree, x))
    ensures var t := s1.tree; var ch := t.children[x];
      DownClosed(t, SubtreesOf(t, ch[..k])) && DownClosed(t, SubtreesOf(t, ch[..k + 1]))
    ensures var t := s1.tree; var ch := t.children[x]; var c := ch[k];
      var st := RemoveNodes(s1, SubtreesOf(t, ch[..k]));
      && c in st.nodes && Subtree(st.tree, c) == Subtree(t, c) && Subtree(t, c) < Subtree(t, x)
      && ListenerKeysPresent(st.nodesListening, st.nodes, Subtree(st.tree, c))
      && RemoveSubtree(st, c) == RemoveNodes(s1, SubtreesOf(t, ch[..k + 1]))
      && ParentsIn(st.tree, Subtree(st.tree, c)) == ParentsIn(t, Subtree(t, c))
      && SubtreesOf(t, ch[..k + 1]) == SubtreesOf(t, ch[..k]) + Subtree(t, c)
  {
    var t := s1.tree;
    var ch := t.children[x];
    var c := ch[k];
    var done := SubtreesOf(t, ch[..k]);
    var sc := Subtree(t, c);
    RemoveChildTree(t, x, k);
    assert x in Subtree(t, x);
    var st := RemoveNodes(s1, done);
    assert c in st.nodes;
    forall n, e | n in sc && n in st.nodes && e in Listeners(st.nodes[n]) ensures e in st.nodesListening {
      assert e in s1.nodesListening;
    }
    RemoveNodesTwice(s1, done, sc);
  }

  /** Taking a node's listeners out of the index keeps an entry for every event. */
  lemma UnlistenKeepsKeys(s0: DomState, x: NodeId, s: set<NodeId>)
    requires ListenerKeysPresent(s0.nodesListening, s0.nodes, s)
    ensures ListenerKeysPresent(Unlisten(s0, x).nodesListening, Unlisten(s0, x).nodes, s)
  {
  }

  /** In the tree, the end of `remove`: with the subtrees of its children gone, `x` is a leaf, and the subtrees and `x` make up its subtree. */
  lemma RemoveFinishTree(t: Tree, x: NodeId)
    requires Trees.Valid(t) && x in t.children
    ensures var done := SubtreesOf(t, t.children[x]);
      && DownClosed(t, done) && x !in done && done + {x} == Subtree(t, x)
      && x in RemoveSet(t, done).height && Subtree(RemoveSet(t, done), x) == {x}
  {
    var ch := t.children[x];
    var done := SubtreesOf(t, ch);
    ChildSubtreesClosed(t, x, |ch|);
    assert ch[..|ch|] == ch;
    AllChildSubtrees(t, x);
    assert x in Subtree(t, x);
    assert done + {x} == Subtree(t, x) && x !in done;
    RemoveSetSubtree(t, done, x);
  }

  /** The end of `remove`: once the subtrees of its children are gone, deleting `x` itself completes the removal. */
  lemma RemoveFinish(s0: DomState, x: NodeId)
    requires Trees.Valid(s0.tree) && x in s0.tree.children && s0.nodes.Keys == s0.tree.height.Keys
    ensures DownClosed(s0.tree, SubtreesOf(s0.tree, s0.tree.children[x]))
    ensures var st := RemoveNodes(Unlisten(s0, x), SubtreesOf(s0.tree, s0.tree.children[x]));
      && st.nodes.Keys == st.tree.height.Keys && x in st.tree.height && Subtree(st.tree, x) == {x}
      && st.(nodes := Drop(st.nodes, {x}), components := DropComponents(st.components, {x}), tree := Trees.Remove(st.tree, x))
         == RemoveSubtree(s0, x)
  {
    var t := s0.tree;
    var done := SubtreesOf(t, t.children[x]);
    RemoveFinishTree(t, x);
    var s1 := Unlisten(s0, x);
    var st := RemoveNodes(s1, done);
    SubtreeDownClosed(st.tree, x);
    RemoveNodesTwice(s1, done, {x});
    // the listeners of `x` left the index at the start, so purging it again changes nothing
    PurgeAgain(s0.nodesListening, s0.nodes, {x}, done);
    UnlistenThenRemove(s0, x, Subtree(t, x));
  }

  /** Taking a node's listeners out of the index first does not change the removal of a set that holds it. */
  lemma UnlistenThenRemove(s0: DomState, x: NodeId, s: set<NodeId>)
    requires Trees.Valid(s0.tree) && DownClosed(s0.tree, s) && x in s
    ensures RemoveNodes(Unlisten(s0, x), s) == RemoveNodes(s0, s)
  {
    PurgeTwice(s0.nodesListening, s0.nodes, {x}, s);
    assert {x} + s == s;
  }

  /** The marks of `remove`: its parent's first, then those of the removed children, are the parents of the whole subtree. */
  lemma RemoveMarksAll(t: Tree, x: NodeId, pu0: PassMap, ids: set<TypeId>)
    requires Trees.Valid(t) && x in t.children
    ensures var pu1 := if x in t.parent then AddPasses(pu0, t.parent[x], ids) else pu0;
      AddToAll(pu1, ParentsIn(t, SubtreesOf(t, t.children[x])), ids) == AddToAll(pu0, ParentsIn(t, Subtree(t, x)), ids)
  {
    AllChildSubtrees(t, x);
    assert x in Subtree(t, x);
    var done := SubtreesOf(t, t.children[x]);
    assert Subtree(t, x) == {x} + done;
    ParentsInUnion(t, {x}, done);
    if x in t.parent {
      assert ParentsIn(t, {x}) == {t.parent[x]};
      AddPassesIsAddToAll(pu0, t.parent[x], ids);
    } else {
      assert ParentsIn(t, {x}) == {};
      AddToAllNothing(pu0, ids);
    }
    AddToAllTwice(pu0, ParentsIn(t, {x}), ParentsIn(t, done), ids);
  }
}
