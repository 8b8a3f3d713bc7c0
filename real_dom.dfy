/**
  `RealDom` of `real_dom.rs`. Everything the dom owns besides its dirty tracker is one value
  (`DomState`): the ECS world (the `NodeType` component of every node, which other components
  each node carries, the tree, the next entity id, the `DirtyNodeStates` unique) and the event
  index `nodes_listening`. Beside it the dom keeps the dirty tracker, the workload order and
  the root id. The methods of the node handles `NodeMut`, `ElementNodeMut` and `TextNodeMut`
  are methods of the dom taking the node's id; a handle exists only for a node of the dom,
  which their `requires` say.
*/
module RealDoms {
  import opened Wrappers
  import opened Collections
  import opened NodeMasks
  import opened Passes
  import opened Trees
  import opened Dirty
  import opened DomValues
  import opened DomStates
  import opened Snapshots

  /** Resolution keeps each pass's descriptor, so what is built from the resolved passes is what their declarations ask for. */
  lemma ResolvedDescriptors(ps: seq<PassState>, res: seq<PassState>)
    requires |res| == |ps| && forall q :: 0 <= q < |ps| ==> Resolved(res[q], ps, q)
    ensures AllTypeIds(res) == AllTypeIds(ps)
    ensures forall t :: Registered(res, t) <==> Registered(ps, t)
    ensures forall i :: 0 <= i < |ps| ==> CombinedDependencies(res[i]) == CombinedDependencies(ps[i])
    ensures forall i :: 0 <= i < |ps| ==> AfterEdges(res, i) == AfterEdges(ps, i)
  {
    forall q | 0 <= q < |ps|
      ensures res[q].thisTypeId == ps[q].thisTypeId && CombinedDependencies(res[q]) == CombinedDependencies(ps[q])
    {
      assert SameDescriptor(res[q], ps[q]);
    }
  }

  /**
    The first half of `RealDom::new`: resolve the dependants of the passes in place, then order
    them into the workload. The `unwrap` on the dependency lookup of `construct_workload` is
    the requirement that every dependency is registered.
  */
  method ResolvePasses(trackedStates: seq<PassState>) returns (resolved: seq<PassState>, workload: seq<set<nat>>)
    requires forall i, t :: 0 <= i < |trackedStates| && t in CombinedDependencies(trackedStates[i]) ==> Registered(trackedStates, t)
    ensures |resolved| == |trackedStates| && forall q :: 0 <= q < |trackedStates| ==> Resolved(resolved[q], trackedStates, q)
    ensures AllTypeIds(resolved) == AllTypeIds(trackedStates)
    ensures |workload| == |trackedStates| && forall i :: 0 <= i < |trackedStates| ==> workload[i] == AfterEdges(trackedStates, i)
  {
    var a := new PassState[|trackedStates|](i requires 0 <= i < |trackedStates| => trackedStates[i]);
    assert a[..] == trackedStates;
    ResolveDependants(a);
    resolved := a[..];
    ResolvedDescriptors(trackedStates, resolved);
    var w := ConstructWorkload(resolved);
    workload := w.value;
  }

  /** The value stored under `name`, if any (`HashMap::get`). */
  function Lookup(attributes: map<AttributeName, AttributeValue>, name: AttributeName): Option<AttributeValue> {
    if name in attributes then Some(attributes[name]) else None
  }

  class RealDom {
    var state: DomState
    const dirtyNodes: NodesDirty
    /** For each pass (by index), the passes it runs after. */
    const workload: seq<set<nat>>
    const rootId: NodeId

    ghost predicate Valid()
      reads this, dirtyNodes
    {
      Wf(state, dirtyNodes.passesUpdated, dirtyNodes.nodesUpdated, dirtyNodes.nodesCreated)
    }

    ghost predicate ListenerIndexConsistent()
      reads this
    {
      ListenerIndex(state.nodesListening, state.nodes)
    }

    /** `RealDom::new`: resolved passes, their workload, and a root element that every pass must visit. */
    constructor (trackedStates: seq<PassState>)
      requires forall i, t :: 0 <= i < |trackedStates| && t in CombinedDependencies(trackedStates[i]) ==> Registered(trackedStates, t)
      ensures Valid() && ListenerIndexConsistent()
      ensures |dirtyNodes.passes| == |trackedStates|
      ensures forall q :: 0 <= q < |trackedStates| ==> Resolved(dirtyNodes.passes[q], trackedStates, q)
      ensures |workload| == |trackedStates| && forall i :: 0 <= i < |trackedStates| ==> workload[i] == AfterEdges(trackedStates, i)
      ensures state.nodes == map[rootId := Element(ROOT_TAG, map[], {})] && state.tree == Trees.CreateNode(Trees.Empty, rootId)
      ensures state.components == {} && state.dirtyNodeStates == {} && state.nodesListening == map[]
      ensures dirtyNodes.passesUpdated == map[rootId := AllTypeIds(trackedStates)]
      ensures dirtyNodes.nodesUpdated == map[rootId := ALL] && dirtyNodes.nodesCreated == {rootId}
    {
      var resolved, order := ResolvePasses(trackedStates);
      workload := order;
      rootId := 0;
      state := InitialState();
      InitialStateWf(AllTypeIds(resolved));
      dirtyNodes := new NodesDirty(resolved, map[0 := AllTypeIds(resolved)], map[0 := ALL], {0});
    }

    /** `create_node`: a fresh entity with payload `node` and a parentless tree node, stale for every pass. */
    method CreateNode(node: NodeType) returns (id: NodeId)
      requires Valid()
      modifies this, dirtyNodes
      ensures Valid()
      ensures id == old(state.nextId) && id !in old(state.nodes)
      ensures state == AddEntity(old(state), node)
      ensures dirtyNodes.passesUpdated == old(dirtyNodes.passesUpdated)[id := AllTypeIds(dirtyNodes.passes)]
      ensures dirtyNodes.nodesUpdated == old(dirtyNodes.nodesUpdated)[id := ALL]
      ensures dirtyNodes.nodesCreated == old(dirtyNodes.nodesCreated) + {id}
      ensures old(ListenerIndexConsistent()) && Listeners(node) == {} ==> ListenerIndexConsistent()
    {
      id := state.nextId;
      var pu, nu, cr := dirtyNodes.passesUpdated, dirtyNodes.nodesUpdated, dirtyNodes.nodesCreated;
      if ListenerIndexConsistent() && Listeners(node) == {} {
        SameListenersKeepIndex(state.nodesListening, state.nodes, id, node);
      }
      var s := AddEntity(state, node);
      WfAddEntity(state, pu, nu, cr, node);
      WfCreated(s, pu, nu, cr + {id}, id, AllTypeIds(dirtyNodes.passes));
      state := s;
      dirtyNodes.MarkCreated(id);
    }

    /** `is_node_listening`: with a consistent index, whether the node is an element listening for `e`. */
    function IsNodeListening(id: NodeId, e: EventName): (b: bool)
      reads this
      ensures b <==> id in Indexed(state.nodesListening, e)
      ensures ListenerIndexConsistent() ==> (b <==> id in state.nodes && e in Listeners(state.nodes[id]))
    {
      e in state.nodesListening && id in state.nodesListening[e]
    }

    /** `get_listeners`: the nodes filed under `e`, each once. */
    method GetListeners(e: EventName) returns (r: seq<NodeId>)
      ensures NoDup(r) && Elems(r) == Indexed(state.nodesListening, e)
      ensures ListenerIndexConsistent() ==> forall n :: n in r <==> n in state.nodes && e in Listeners(state.nodes[n])
    {
      r := [];
      if e in state.nodesListening {
        var all := state.nodesListening[e];
        var pending := all;
        while pending != {}
          invariant pending <= all
          invariant NoDup(r) && Elems(r) == all - pending
          decreases pending
        {
          var n :| n in pending;
          NoDupSnoc(r, n);
          r := r + [n];
          pending := pending - {n};
        }
      }
    }

    /** `contains`: whether the node is in the tree, that is, whether it has a payload. */
    function Contains(id: NodeId): (b: bool)
      reads this, dirtyNodes
      ensures Valid() ==> (b <==> id in state.nodes)
    {
      id in state.tree.height
    }

    /** `get` (and the presence check of `get_mut`): the node, seen through its payload, when the dom has it. */
    function Get(id: NodeId): (r: Option<NodeType>)
      reads this, dirtyNodes
      requires Valid()
      ensures r.Some? <==> id in state.nodes
      ensures r.Some? ==> r.value == state.nodes[id]
    {
      if Contains(id) then Some(state.nodes[id]) else None
    }

    // -------------------------------------------------------------------------------------------
    // NodeMut

    /** `NodeMut::get_mut::<T>`: `T` goes stale on the node whether or not the node carries a `T`. */
    method GetMut(id: NodeId, t: TypeId) returns (present: bool)
      requires Valid() && id in state.nodes
      modifies dirtyNodes
      ensures Valid()
      ensures present <==> (id, t) in state.components
      ensures dirtyNodes.passesUpdated == AddPasses(old(dirtyNodes.passesUpdated), id, {t})
      ensures dirtyNodes.nodesUpdated == old(dirtyNodes.nodesUpdated) && dirtyNodes.nodesCreated == old(dirtyNodes.nodesCreated)
    {
      WfMark(state, dirtyNodes.passesUpdated, dirtyNodes.nodesUpdated, dirtyNodes.nodesCreated, id, {t});
      dirtyNodes.passesUpdated := AddPasses(dirtyNodes.passesUpdated, id, {t});
      present := (id, t) in state.components;
    }

    /** `NodeMut::insert::<T>`: the node carries a `T` and `T` goes stale on it. */
    method Insert(id: NodeId, t: TypeId)
      requires Valid() && id in state.nodes
      modifies this, dirtyNodes
      ensures Valid()
      ensures state == old(state).(components := old(state.components) + {(id, t)})
      ensures dirtyNodes.passesUpdated == AddPasses(old(dirtyNodes.passesUpdated), id, {t})
      ensures dirtyNodes.nodesUpdated == old(dirtyNodes.nodesUpdated) && dirtyNodes.nodesCreated == old(dirtyNodes.nodesCreated)
    {
      var pu, nu, cr := dirtyNodes.passesUpdated, dirtyNodes.nodesUpdated, dirtyNodes.nodesCreated;
      var s := state.(components := state.components + {(id, t)});
      WfSameTree(state, pu, nu, cr, s);
      WfMark(s, pu, nu, cr, id, {t});
      state := s;
      dirtyNodes.passesUpdated := AddPasses(pu, id, {t});
    }

    /** `NodeMut::add_child`: `child` becomes the last child of `id`; `id`'s child-readers and `child`'s parent-readers go stale. */
    method AddChild(id: NodeId, child: NodeId)
      requires Valid() && CanAttach(state.tree, id, child)
      modifies this, dirtyNodes
      ensures Valid()
      ensures state == old(state).(tree := Trees.AddChild(old(state.tree), id, child))
      ensures dirtyNodes.passesUpdated ==
        AddPasses(AddPasses(old(dirtyNodes.passesUpdated), id, DeclaredIds(dirtyNodes.passes, OnChild)), child, DeclaredIds(dirtyNodes.passes, OnParent))
      ensures dirtyNodes.nodesUpdated == old(dirtyNodes.nodesUpdated) && dirtyNodes.nodesCreated == old(dirtyNodes.nodesCreated)
    {
      var pu, nu, cr := dirtyNodes.passesUpdated, dirtyNodes.nodesUpdated, dirtyNodes.nodesCreated;
      var s := state.(tree := Trees.AddChild(state.tree, id, child));
      var onChild := DeclaredIds(dirtyNodes.passes, OnChild);
      WfTree(state, pu, nu, cr, s.tree);
      WfMark(s, pu, nu, cr, id, onChild);
      WfMark(s, AddPasses(pu, id, onChild), nu, cr, child, DeclaredIds(dirtyNodes.passes, OnParent));
      state := s;
      dirtyNodes.MarkChildChanged(id);
      dirtyNodes.MarkParentAddedOrRemoved(child);
    }

    /** `NodeMut::insert_after`: the node goes right after `sibling` under `sibling`'s parent, which is marked as in `add_child`. */
    method InsertAfter(id: NodeId, sibling: NodeId)
      requires Valid() && sibling in state.tree.parent && CanAttach(state.tree, state.tree.parent[sibling], id)
      modifies this, dirtyNodes
      ensures Valid()
      ensures state == old(state).(tree := Trees.InsertAfter(old(state.tree), sibling, id))
      ensures dirtyNodes.passesUpdated ==
        AddPasses(AddPasses(old(dirtyNodes.passesUpdated), old(state.tree.parent[sibling]), DeclaredIds(dirtyNodes.passes, OnChild)), id, DeclaredIds(dirtyNodes.passes, OnParent))
      ensures dirtyNodes.nodesUpdated == old(dirtyNodes.nodesUpdated) && dirtyNodes.nodesCreated == old(dirtyNodes.nodesCreated)
    {
      var pu, nu, cr := dirtyNodes.passesUpdated, dirtyNodes.nodesUpdated, dirtyNodes.nodesCreated;
      var parent := state.tree.parent[sibling];
      var s := state.(tree := Trees.InsertAfter(state.tree, sibling, id));
      var onChild := DeclaredIds(dirtyNodes.passes, OnChild);
      WfTree(state, pu, nu, cr, s.tree);
      WfMark(s, pu, nu, cr, parent, onChild);
      WfMark(s, AddPasses(pu, parent, onChild), nu, cr, id, DeclaredIds(dirtyNodes.passes, OnParent));
      state := s;
      dirtyNodes.MarkChildChanged(parent);
      dirtyNodes.MarkParentAddedOrRemoved(id);
    }

    /** `NodeMut::insert_before`: the node goes right before `sibling` under `sibling`'s parent, which is marked as in `add_child`. */
    method InsertBefore(id: NodeId, sibling: NodeId)
      requires Valid() && sibling in state.tree.parent && CanAttach(state.tree, state.tree.parent[sibling], id)
      modifies this, dirtyNodes
      ensures Valid()
      ensures state == old(state).(tree := Trees.InsertBefore(old(state.tree), sibling, id))
      ensures dirtyNodes.passesUpdated ==
        AddPasses(AddPasses(old(dirtyNodes.passesUpdated), old(state.tree.parent[sibling]), DeclaredIds(dirtyNodes.passes, OnChild)), id, DeclaredIds(dirtyNodes.passes, OnParent))
      ensures dirtyNodes.nodesUpdated == old(dirtyNodes.nodesUpdated) && dirtyNodes.nodesCreated == old(dirtyNodes.nodesCreated)
    {
      var pu, nu, cr := dirtyNodes.passesUpdated, dirtyNodes.nodesUpdated, dirtyNodes.nodesCreated;
      var parent := state.tree.parent[sibling];
      var s := state.(tree := Trees.InsertBefore(state.tree, sibling, id));
      var onChild := DeclaredIds(dirtyNodes.passes, OnChild);
      WfTree(state, pu, nu, cr, s.tree);
      WfMark(s, pu, nu, cr, parent, onChild);
      WfMark(s, AddPasses(pu, parent, onChild), nu, cr, id, DeclaredIds(dirtyNodes.passes, OnParent));
      state := s;
      dirtyNodes.MarkChildChanged(parent);
      dirtyNodes.MarkParentAddedOrRemoved(id);
    }

    /**
      `NodeMut::remove`: the node leaves the index entry of each event it listens for, its parent
      (when it has one) goes stale on its child-readers, each child of a snapshot of its child
      list is removed the same way, and then the node leaves the tree and its entity is deleted.
      The `unwrap` on the index is the requirement that every event a node of the subtree listens
      for has an entry.
    */
    method Remove(id: NodeId)
      requires Valid() && id in state.nodes
      requires ListenerKeysPresent(state.nodesListening, state.nodes, Subtree(state.tree, id))
      modifies this, dirtyNodes
      decreases Subtree(state.tree, id), 1
      ensures Valid()
      ensures state == RemoveSubtree(old(state), id)
      ensures dirtyNodes.passesUpdated ==
        AddToAll(old(dirtyNodes.passesUpdated), ParentsIn(old(state.tree), Subtree(old(state.tree), id)), DeclaredIds(dirtyNodes.passes, OnChild))
      ensures dirtyNodes.nodesUpdated == old(dirtyNodes.nodesUpdated) && dirtyNodes.nodesCreated == old(dirtyNodes.nodesCreated)
    {
      ghost var s0, pu0 := state, dirtyNodes.passesUpdated;
      assert id in Subtree(state.tree, id);
      DropListeners(id);
      UnlistenKeepsKeys(s0, id, Subtree(s0.tree, id));
      if id in state.tree.parent {
        WfMark(state, pu0, dirtyNodes.nodesUpdated, dirtyNodes.nodesCreated, state.tree.parent[id], DeclaredIds(dirtyNodes.passes, OnChild));
        dirtyNodes.MarkChildChanged(state.tree.parent[id]);
      }
      RemoveChildren(id);
      RemoveFinish(s0, id);
      DeleteLeaf(id);
      RemoveMarksAll(s0.tree, id, pu0, DeclaredIds(dirtyNodes.passes, OnChild));
    }

    /** The loop of `remove` over the node's listeners, with the index entries it unwraps. */
    method DropListeners(id: NodeId)
      requires Valid() && id in state.nodes && Listeners(state.nodes[id]) <= state.nodesListening.Keys
      modifies this
      ensures Valid() && state == Unlisten(old(state), id)
    {
      var nl := Unindex(state.nodesListening, id, Listeners(state.nodes[id]));
      PurgeOne(state.nodesListening, state.nodes, id);
      var s := state.(nodesListening := nl);
      WfSameTree(state, dirtyNodes.passesUpdated, dirtyNodes.nodesUpdated, dirtyNodes.nodesCreated, s);
      state := s;
    }

    /** The loop of `remove` over a snapshot of the node's child list: each child's subtree goes, and the parents in it go stale. */
    method RemoveChildren(id: NodeId)
      requires Valid() && id in state.tree.height
      requires ListenerKeysPresent(state.nodesListening, state.nodes, Subtree(state.tree, id))
      modifies this, dirtyNodes
      decreases Subtree(state.tree, id), 0
      ensures Valid() && DownClosed(old(state.tree), SubtreesOf(old(state.tree), old(state.tree.children[id])))
      ensures state == RemoveNodes(old(state), SubtreesOf(old(state.tree), old(state.tree.children[id])))
      ensures dirtyNodes.passesUpdated ==
        AddToAll(old(dirtyNodes.passesUpdated), ParentsIn(old(state.tree), SubtreesOf(old(state.tree), old(state.tree.children[id]))), DeclaredIds(dirtyNodes.passes, OnChild))
      ensures dirtyNodes.nodesUpdated == old(dirtyNodes.nodesUpdated) && dirtyNodes.nodesCreated == old(dirtyNodes.nodesCreated)
    {
      ghost var s1, pu1 := state, dirtyNodes.passesUpdated;
      ghost var t := s1.tree;
      var onChild := DeclaredIds(dirtyNodes.passes, OnChild);
      var children := state.tree.children[id];
      var k := 0;
      assert children[..0] == [] && ParentsIn(t, {}) == {};
      RemoveNothing(s1);
      AddToAllNothing(pu1, onChild);
      while k < |children|
        invariant 0 <= k <= |children| && children == t.children[id]
        invariant Valid() && DownClosed(t, SubtreesOf(t, children[..k]))
        invariant state == RemoveNodes(s1, SubtreesOf(t, children[..k]))
        invariant dirtyNodes.passesUpdated == AddToAll(pu1, ParentsIn(t, SubtreesOf(t, children[..k])), onChild)
        invariant dirtyNodes.nodesUpdated == old(dirtyNodes.nodesUpdated) && dirtyNodes.nodesCreated == old(dirtyNodes.nodesCreated)
      {
        RemoveChildStep(s1, id, k);
        Remove(children[k]);
        AddToAllTwice(pu1, ParentsIn(t, SubtreesOf(t, children[..k])), ParentsIn(t, Subtree(t, children[k])), onChild);
        ParentsInUnion(t, SubtreesOf(t, children[..k]), Subtree(t, children[k]));
        k := k + 1;
      }
      assert children[..k] == children;
    }

    /** The end of `remove`: the node, by now a leaf, leaves the tree and its entity is deleted with all its components. */
    method DeleteLeaf(id: NodeId)
      requires Valid() && id in state.tree.height && Subtree(state.tree, id) == {id}
      modifies this
      ensures Valid()
      ensures state == old(state).(nodes := Drop(old(state.nodes), {id}), components := DropComponents(old(state.components), {id}),
                                   tree := Trees.Remove(old(state.tree), id))
    {
      var s := state.(nodes := Drop(state.nodes, {id}), components := DropComponents(state.components, {id}), tree := Trees.Remove(state.tree, id));
      WfShrink(state, dirtyNodes.passesUpdated, dirtyNodes.nodesUpdated, dirtyNodes.nodesCreated, s);
      state := s;
    }

    /** `NodeMut::add_event_listener`: an element starts listening and is filed under `e`; other nodes are left alone. */
    method AddEventListener(id: NodeId, e: EventName)
      requires Valid() && id in state.nodes
      modifies this, dirtyNodes
      ensures Valid()
      ensures old(state.nodes[id]).Element? ==>
        && state == old(state).(nodes := old(state.nodes)[id := AddListener(old(state.nodes[id]), e)],
                                nodesListening := IndexAdd(old(state.nodesListening), e, id))
        && dirtyNodes.passesUpdated == AddPasses(old(dirtyNodes.passesUpdated), id, OverlappingIds(dirtyNodes.passes, ListenersMask()))
        && dirtyNodes.nodesUpdated == MergeMask(old(dirtyNodes.nodesUpdated), id, ListenersMask())
      ensures !old(state.nodes[id]).Element? ==> unchanged(this, dirtyNodes)
      ensures dirtyNodes.nodesCreated == old(dirtyNodes.nodesCreated)
      ensures old(ListenerIndexConsistent()) ==> ListenerIndexConsistent()
    {
      if state.nodes[id].Element? {
        var pu, nu, cr := dirtyNodes.passesUpdated, dirtyNodes.nodesUpdated, dirtyNodes.nodesCreated;
        if ListenerIndexConsistent() {
          AddListenerKeepsIndex(state.nodesListening, state.nodes, id, e);
        }
        var s := state.(nodes := state.nodes[id := AddListener(state.nodes[id], e)],
                        nodesListening := IndexAdd(state.nodesListening, e, id));
        var ids := OverlappingIds(dirtyNodes.passes, ListenersMask());
        WfSameTree(state, pu, nu, cr, s);
        WfMark(s, pu, nu, cr, id, ids);
        WfMerge(s, AddPasses(pu, id, ids), nu, cr, id, ListenersMask());
        state := s;
        dirtyNodes.MarkDirty(id, ListenersMask());
      }
    }

    /** `NodeMut::remove_event_listener`: an element stops listening and leaves `e`'s set; other nodes are left alone. */
    method RemoveEventListener(id: NodeId, e: EventName)
      requires Valid() && id in state.nodes
      requires state.nodes[id].Element? ==> e in state.nodesListening
      modifies this, dirtyNodes
      ensures Valid()
      ensures old(state.nodes[id]).Element? ==>
        && state == old(state).(nodes := old(state.nodes)[id := RemoveListener(old(state.nodes[id]), e)],
                                nodesListening := IndexRemove(old(state.nodesListening), e, id))
        && dirtyNodes.passesUpdated == AddPasses(old(dirtyNodes.passesUpdated), id, OverlappingIds(dirtyNodes.passes, ListenersMask()))
        && dirtyNodes.nodesUpdated == MergeMask(old(dirtyNodes.nodesUpdated), id, ListenersMask())
      ensures !old(state.nodes[id]).Element? ==> unchanged(this, dirtyNodes)
      ensures dirtyNodes.nodesCreated == old(dirtyNodes.nodesCreated)
      ensures old(ListenerIndexConsistent()) ==> ListenerIndexConsistent()
    {
      if state.nodes[id].Element? {
        var pu, nu, cr := dirtyNodes.passesUpdated, dirtyNodes.nodesUpdated, dirtyNodes.nodesCreated;
        if ListenerIndexConsistent() {
          RemoveListenerKeepsIndex(state.nodesListening, state.nodes, id, e);
        }
        var s := state.(nodes := state.nodes[id := RemoveListener(state.nodes[id], e)],
                        nodesListening := IndexRemove(state.nodesListening, e, id));
        var ids := OverlappingIds(dirtyNodes.passes, ListenersMask());
        WfSameTree(state, pu, nu, cr, s);
        WfMark(s, pu, nu, cr, id, ids);
        WfMerge(s, AddPasses(pu, id, ids), nu, cr, id, ListenersMask());
        state := s;
        dirtyNodes.MarkDirty(id, ListenersMask());
      }
    }

    /** Replace the payload of `id` and mark `mask` dirty on it: what the payload mutators share. */
    method SetPayload(id: NodeId, nt: NodeType, mask: NodeMask)
      requires Valid() && id in state.nodes
      modifies this, dirtyNodes
      ensures Valid()
      ensures state == old(state).(nodes := old(state.nodes)[id := nt])
      ensures dirtyNodes.passesUpdated == AddPasses(old(dirtyNodes.passesUpdated), id, OverlappingIds(dirtyNodes.passes, mask))
      ensures dirtyNodes.nodesUpdated == MergeMask(old(dirtyNodes.nodesUpdated), id, mask)
      ensures dirtyNodes.nodesCreated == old(dirtyNodes.nodesCreated)
      ensures old(ListenerIndexConsistent()) && Listeners(nt) == Listeners(old(state.nodes[id])) ==> ListenerIndexConsistent()
    {
      var pu, nu, cr := dirtyNodes.passesUpdated, dirtyNodes.nodesUpdated, dirtyNodes.nodesCreated;
      if ListenerIndexConsistent() && Listeners(nt) == Listeners(state.nodes[id]) {
        SameListenersKeepIndex(state.nodesListening, state.nodes, id, nt);
      }
      var s := state.(nodes := state.nodes[id := nt]);
      var ids := OverlappingIds(dirtyNodes.passes, mask);
      WfSameTree(state, pu, nu, cr, s);
      WfMark(s, pu, nu, cr, id, ids);
      WfMerge(s, AddPasses(pu, id, ids), nu, cr, id, mask);
      state := s;
      dirtyNodes.MarkDirty(id, mask);
    }

    /** `NodeMut::set_type`: a new payload, with everything about the node dirty. */
    method SetType(id: NodeId, nt: NodeType)
      requires Valid() && id in state.nodes
      modifies this, dirtyNodes
      ensures Valid()
      ensures state == old(state).(nodes := old(state.nodes)[id := nt])
      ensures dirtyNodes.passesUpdated == AddPasses(old(dirtyNodes.passesUpdated), id, OverlappingIds(dirtyNodes.passes, ALL))
      ensures dirtyNodes.nodesUpdated == MergeMask(old(dirtyNodes.nodesUpdated), id, ALL)
      ensures dirtyNodes.nodesCreated == old(dirtyNodes.nodesCreated)
      ensures old(ListenerIndexConsistent()) && Listeners(nt) == Listeners(old(state.nodes[id])) ==> ListenerIndexConsistent()
    {
      SetPayload(id, nt, ALL);
    }

    // -------------------------------------------------------------------------------------------
    // TextNodeMut and ElementNodeMut

    /** `TextNodeMut::text_mut`, with the caller's edit: the text becomes `text` and the node's text is dirty. */
    method TextMut(id: NodeId, text: string)
      requires Valid() && id in state.nodes && state.nodes[id].Text?
      modifies this, dirtyNodes
      ensures Valid()
      ensures state == old(state).(nodes := old(state.nodes)[id := Text(text)])
      ensures dirtyNodes.passesUpdated == AddPasses(old(dirtyNodes.passesUpdated), id, OverlappingIds(dirtyNodes.passes, TextMask()))
      ensures dirtyNodes.nodesUpdated == MergeMask(old(dirtyNodes.nodesUpdated), id, TextMask())
      ensures dirtyNodes.nodesCreated == old(dirtyNodes.nodesCreated)
      ensures old(ListenerIndexConsistent()) ==> ListenerIndexConsistent()
    {
      SetPayload(id, Text(text), TextMask());
    }

    /** `ElementNodeMut::set_attribute`: the attribute gets `value`; the previous value is returned; that attribute is dirty. */
    method SetAttribute(id: NodeId, name: AttributeName, value: AttributeValue) returns (previous: Option<AttributeValue>)
      requires Valid() && id in state.nodes && state.nodes[id].Element?
      modifies this, dirtyNodes
      ensures Valid()
      ensures previous == Lookup(old(state.nodes[id]).attributes, name)
      ensures state == old(state).(nodes := old(state.nodes)[id := old(state.nodes[id]).(attributes := old(state.nodes[id]).attributes[name := value])])
      ensures dirtyNodes.passesUpdated == AddPasses(old(dirtyNodes.passesUpdated), id, OverlappingIds(dirtyNodes.passes, AttributeMaskOf(name)))
      ensures dirtyNodes.nodesUpdated == MergeMask(old(dirtyNodes.nodesUpdated), id, AttributeMaskOf(name))
      ensures dirtyNodes.nodesCreated == old(dirtyNodes.nodesCreated)
      ensures old(ListenerIndexConsistent()) ==> ListenerIndexConsistent()
    {
      var element := state.nodes[id];
      previous := Lookup(element.attributes, name);
      SetPayload(id, element.(attributes := element.attributes[name := value]), AttributeMaskOf(name));
    }

    /** `ElementNodeMut::remove_attribute`: the attribute goes; its value, if any, is returned; that attribute is dirty. */
    method RemoveAttribute(id: NodeId, name: AttributeName) returns (previous: Option<AttributeValue>)
      requires Valid() && id in state.nodes && state.nodes[id].Element?
      modifies this, dirtyNodes
      ensures Valid()
      ensures previous == Lookup(old(state.nodes[id]).attributes, name)
      ensures state == old(state).(nodes := old(state.nodes)[id := old(state.nodes[id]).(attributes := old(state.nodes[id]).attributes - {name})])
      ensures dirtyNodes.passesUpdated == AddPasses(old(dirtyNodes.passesUpdated), id, OverlappingIds(dirtyNodes.passes, AttributeMaskOf(name)))
      ensures dirtyNodes.nodesUpdated == MergeMask(old(dirtyNodes.nodesUpdated), id, AttributeMaskOf(name))
      ensures dirtyNodes.nodesCreated == old(dirtyNodes.nodesCreated)
      ensures old(ListenerIndexConsistent()) ==> ListenerIndexConsistent()
    {
      var element := state.nodes[id];
      previous := Lookup(element.attributes, name);
      SetPayload(id, element.(attributes := element.attributes - {name}), AttributeMaskOf(name));
    }

    /** `ElementNodeMut::get_attribute_mut`: the current value, and the attribute is dirty even if the caller writes nothing. */
    method GetAttributeMut(id: NodeId, name: AttributeName) returns (current: Option<AttributeValue>)
      requires Valid() && id in state.nodes && state.nodes[id].Element?
      modifies dirtyNodes
      ensures Valid()
      ensures current == Lookup(state.nodes[id].attributes, name)
      ensures dirtyNodes.passesUpdated == AddPasses(old(dirtyNodes.passesUpdated), id, OverlappingIds(dirtyNodes.passes, AttributeMaskOf(name)))
      ensures dirtyNodes.nodesUpdated == MergeMask(old(dirtyNodes.nodesUpdated), id, AttributeMaskOf(name))
      ensures dirtyNodes.nodesCreated == old(dirtyNodes.nodesCreated)
    {
      var pu, nu, cr := dirtyNodes.passesUpdated, dirtyNodes.nodesUpdated, dirtyNodes.nodesCreated;
      var ids := OverlappingIds(dirtyNodes.passes, AttributeMaskOf(name));
      WfMark(state, pu, nu, cr, id, ids);
      WfMerge(state, AddPasses(pu, id, ids), nu, cr, id, AttributeMaskOf(name));
      dirtyNodes.MarkDirty(id, AttributeMaskOf(name));
      current := Lookup(state.nodes[id].attributes, name);
    }

    /**
      `NodeMut::clone_node`: a new node with a copy of the payload (not its components, and not
      filed in the listener index), then, child by child of a snapshot of the child list, a clone
      of the child hung below it as its last child. Only new nodes are added and marked; the new
      subtree has the value of the original's.
    */
    method CloneNode(id: NodeId) returns (newId: NodeId)
      requires Valid() && id in state.nodes
      modifies this, dirtyNodes
      decreases Subtree(state.tree, id), 1
      ensures Valid() && Grows(state, old(state)) && newId == old(state.nextId)
      ensures newId in state.tree.height && newId !in state.tree.parent
      ensures SnapshotOf(state, newId) == SnapshotOf(old(state), id)
      ensures DirtyGrowth(dirtyNodes.passesUpdated, dirtyNodes.nodesUpdated, dirtyNodes.nodesCreated,
                          old(dirtyNodes.passesUpdated), old(dirtyNodes.nodesUpdated), old(dirtyNodes.nodesCreated),
                          old(state.nextId), state.nextId, AllTypeIds(dirtyNodes.passes), LinkIds(dirtyNodes.passes))
    {
      ghost var s0 := state;
      ghost var pu0, nu0, cr0 := dirtyNodes.passesUpdated, dirtyNodes.nodesUpdated, dirtyNodes.nodesCreated;
      ghost var all, extra := AllTypeIds(dirtyNodes.passes), LinkIds(dirtyNodes.passes);
      CloneStart(s0, id);
      DirtyGrowthCreated(pu0, nu0, cr0, s0.nextId, AddEntity(s0, s0.nodes[id]).nextId, all, extra);
      newId := CreateNode(state.nodes[id]);
      var children := state.tree.children[id];
      var k := 0;
      while k < |children|
        invariant 0 <= k <= |children| && children == s0.tree.children[id]
        invariant Valid() && all == AllTypeIds(dirtyNodes.passes) && extra == LinkIds(dirtyNodes.passes)
        invariant CloneLoop(state, dirtyNodes.passesUpdated, dirtyNodes.nodesUpdated, dirtyNodes.nodesCreated,
                            s0, pu0, nu0, cr0, all, extra, id, newId, k)
      {
        ChildSubtree(s0.tree, id, children[k]);
        GrowsKeepsSnapshot(s0, state, children[k]);
        CloneChild(s0, pu0, nu0, cr0, id, newId, k, children[k]);
        k := k + 1;
      }
      CloneEnd(state, s0, id, newId, k);
    }

    /** One turn of the loop of `clone_node`: child `k` of `id` is cloned and its clone hung below `newId`. */
    method CloneChild(ghost s0: DomState, ghost pu0: PassMap, ghost nu0: map<NodeId, NodeMask>, ghost cr0: set<NodeId>,
                      id: NodeId, newId: NodeId, k: nat, c: NodeId)
      requires Valid()
      requires CloneLoop(state, dirtyNodes.passesUpdated, dirtyNodes.nodesUpdated, dirtyNodes.nodesCreated,
                         s0, pu0, nu0, cr0, AllTypeIds(dirtyNodes.passes), LinkIds(dirtyNodes.passes), id, newId, k)
      requires k < |s0.tree.children[id]| && c == s0.tree.children[id][k]
      modifies this, dirtyNodes
      decreases Subtree(state.tree, c), 2
      ensures Valid()
      ensures CloneLoop(state, dirtyNodes.passesUpdated, dirtyNodes.nodesUpdated, dirtyNodes.nodesCreated,
                        s0, pu0, nu0, cr0, AllTypeIds(dirtyNodes.passes), LinkIds(dirtyNodes.passes), id, newId, k + 1)
    {
      ghost var sa := state;
      ghost var pua, nua, cra := dirtyNodes.passesUpdated, dirtyNodes.nodesUpdated, dirtyNodes.nodesCreated;
      assert c in s0.tree.children[id];
      GrowsKeepsSnapshot(s0, sa, c);
      var cid := CloneNode(c);
      ghost var sm := state;
      CloneCanAttach(sa, sm, newId, cid);
      DirtyGrowthClone(dirtyNodes.passesUpdated, dirtyNodes.nodesUpdated, dirtyNodes.nodesCreated, pua, nua, cra, pu0, nu0, cr0,
                       s0.nextId, sa.nextId, sm.nextId, AllTypeIds(dirtyNodes.passes), dirtyNodes.passes, newId, cid);
      AddChild(newId, cid);
      CloneChildStep(s0, id, sa, sm, state, newId, c, cid, k);
    }

    // -------------------------------------------------------------------------------------------
    // update_state and traversal

    /**
      `update_state`: drain both dirty maps, hand the passes a work set holding the stale passes
      of the nodes still in the tree (nodes created and removed in the same batch drop out),
      and return the drained masks.
    */
    method UpdateState() returns (updated: map<NodeId, NodeMask>)
      requires Valid()
      modifies this, dirtyNodes
      ensures Valid()
      ensures updated == old(dirtyNodes.nodesUpdated)
      ensures dirtyNodes.passesUpdated == map[] && dirtyNodes.nodesUpdated == map[]
      ensures state == old(state).(dirtyNodeStates := WorkSet(old(dirtyNodes.passesUpdated), old(state.tree), AllTypeIds(dirtyNodes.passes)))
      ensures dirtyNodes.nodesCreated == old(dirtyNodes.nodesCreated)
    {
      WfDrained(state, dirtyNodes.passesUpdated, dirtyNodes.nodesUpdated, dirtyNodes.nodesCreated);
      var passes;
      passes, updated := dirtyNodes.Drain();
      var work := BuildWorkSet(passes, state.tree, AllTypeIds(dirtyNodes.passes));
      var s := state.(dirtyNodeStates := work);
      WfSameTree(state, map[], map[], dirtyNodes.nodesCreated, s);
      state := s;
    }

    /**
      `traverse_depth_first_advanced`: the nodes `f` is called on, in order. Popping a node that
      is in the dom calls `f` on it, and its children are pushed in reverse only when `f` says yes.
    */
    method TraverseDepthFirstAdvanced(f: NodeId -> bool) returns (visited: seq<NodeId>)
      requires Valid()
      ensures visited == VisitNode(state.tree, rootId, f)
    {
      visited := Traverse(state.tree, rootId, f);
    }
  }

  /** The loop of `remove` over the node's listeners: `id` leaves the entry of each of `events`, each of which must have one. */
  method Unindex(nl: ListenerMap, id: NodeId, events: set<EventName>) returns (r: ListenerMap)
    requires events <= nl.Keys
    ensures r == PurgeEvents(nl, id, events)
  {
    r := nl;
    var pending := events;
    while pending != {}
      invariant pending <= events
      invariant r == PurgeEvents(nl, id, events - pending)
      decreases pending
    {
      var e :| e in pending;
      r := r[e := r[e] - {id}];
      pending := pending - {e};
    }
  }

  /** The loop of `update_state` over the drained pass map: each stale registered pass of a node still in the tree, at its height. */
  method BuildWorkSet(passes: PassMap, tree: Tree, registered: set<TypeId>) returns (work: set<(TypeId, NodeId, nat)>)
    ensures work == WorkSet(passes, tree, registered)
  {
    work := {};
    var pending := passes.Keys;
    WorkSetOverNothing(passes, tree, registered);
    while pending != {}
      invariant pending <= passes.Keys
      invariant work == WorkSetOver(passes, passes.Keys - pending, tree, registered)
      decreases pending
    {
      var n :| n in pending;
      WorkSetOverStep(passes, passes.Keys - pending, n, tree, registered);
      if n in tree.height {
        var h := tree.height[n];
        var ps := passes[n];
        while ps != {}
          invariant ps <= passes[n]
          invariant work == WorkSetOver(passes, passes.Keys - pending, tree, registered)
                            + (set p | p in passes[n] - ps && p in registered :: (p, n, h))
          decreases ps
        {
          var p :| p in ps;
          if p in registered {
            work := work + {(p, n, h)};
          }
          ps := ps - {p};
        }
      }
      assert passes.Keys - (pending - {n}) == (passes.Keys - pending) + {n};
      pending := pending - {n};
    }
    WorkSetOverAll(passes, tree, registered);
  }

  /** The stack loop of `traverse_depth_first_advanced`, over a fixed tree. */
  method Traverse(tree: Tree, root: NodeId, f: NodeId -> bool) returns (visited: seq<NodeId>)
    requires Trees.Valid(tree)
    ensures visited == VisitNode(tree, root, f)
  {
    var stack := [root];
    visited := [];
    assert VisitStack(tree, stack, f) == VisitNode(tree, root, f) + VisitStack(tree, [], f);
    while stack != []
      invariant visited + VisitStack(tree, stack, f) == VisitNode(tree, root, f)
      decreases |VisitStack(tree, stack, f)|, |stack|
    {
      var id := stack[|stack| - 1];
      var rest := stack[..|stack| - 1];
      PopVisit(tree, visited, stack, f);
      stack := rest;
      if id in tree.height {
        visited := visited + [id];
        if f(id) {
          stack := rest + Reversed(tree.children[id]);
        }
      }
    }
  }
}
