/**
  The values `RealDom` keeps next to the tree: node payloads (`NodeType`), the event index
  `nodes_listening`, the component store, and the specifications its operations are proved
  against: purging removed nodes from the index, the work set `update_state` hands to the
  passes, and the depth-first visit order of `traverse_depth_first_advanced`.
*/
module DomValues {
  import opened Collections
  import opened NodeMasks
  import opened Passes
  import opened Trees
  import opened Dirty

  type EventName = string
  type TagName = string
  /** `OwnedAttributeValue`, opaque here: only equality matters. */
  type AttributeValue = string

  /** The payload of a node (`NodeType` of `node.rs`). */
  datatype NodeType =
    | Element(tag: TagName, attributes: map<AttributeName, AttributeValue>, listeners: set<EventName>)
    | Text(text: string)
    | Placeholder

  /** `TagName::Root`. */
  const ROOT_TAG: TagName := "root"

  /** The events a payload listens for: an element's listeners, nothing for other payloads. */
  function Listeners(nt: NodeType): set<EventName> {
    if nt.Element? then nt.listeners else {}
  }

  type ListenerMap = map<EventName, set<NodeId>>

  /** The nodes indexed under `e`, none when `e` has no entry. */
  function Indexed(nl: ListenerMap, e: EventName): set<NodeId> {
    if e in nl then nl[e] else {}
  }

  /** The index agrees with the payloads: `n` is filed under `e` exactly when `n` is an element listening for `e`. */
  ghost predicate ListenerIndex(nl: ListenerMap, w: map<NodeId, NodeType>) {
    && (forall e, n :: e in nl && n in nl[e] ==> n in w && e in Listeners(w[n]))
    && (forall n, e :: n in w && e in Listeners(w[n]) ==> e in nl && n in nl[e])
  }

  /** Every event some node of `s` listens for has an entry (what the `unwrap` in `remove` needs). */
  ghost predicate ListenerKeysPresent(nl: ListenerMap, w: map<NodeId, NodeType>, s: set<NodeId>) {
    forall n, e :: n in s && n in w && e in Listeners(w[n]) ==> e in nl
  }

  // ---------------------------------------------------------------------------------------------
  // Listener updates

  /** The index after `add_event_listener(e)` on element `id`. */
  function IndexAdd(nl: ListenerMap, e: EventName, id: NodeId): ListenerMap {
    nl[e := Indexed(nl, e) + {id}]
  }

  /** The index after `remove_event_listener(e)` on element `id` (`e` must have an entry). */
  function IndexRemove(nl: ListenerMap, e: EventName, id: NodeId): ListenerMap
    requires e in nl
  {
    nl[e := nl[e] - {id}]
  }

  function AddListener(nt: NodeType, e: EventName): NodeType
    requires nt.Element?
  {
    nt.(listeners := nt.listeners + {e})
  }

  function RemoveListener(nt: NodeType, e: EventName): NodeType
    requires nt.Element?
  {
    nt.(listeners := nt.listeners - {e})
  }

  lemma AddListenerKeepsIndex(nl: ListenerMap, w: map<NodeId, NodeType>, id: NodeId, e: EventName)
    requires ListenerIndex(nl, w) && id in w && w[id].Element?
    ensures ListenerIndex(IndexAdd(nl, e, id), w[id := AddListener(w[id], e)])
  {
  }

  lemma RemoveListenerKeepsIndex(nl: ListenerMap, w: map<NodeId, NodeType>, id: NodeId, e: EventName)
    requires ListenerIndex(nl, w) && id in w && w[id].Element? && e in nl
    ensures ListenerIndex(IndexRemove(nl, e, id), w[id := RemoveListener(w[id], e)])
  {
  }

  /** Replacing a payload by one with the same listeners keeps the index; a fresh node without listeners too. */
  lemma SameListenersKeepIndex(nl: ListenerMap, w: map<NodeId, NodeType>, id: NodeId, nt: NodeType)
    requires ListenerIndex(nl, w)
    requires if id in w then Listeners(nt) == Listeners(w[id]) else Listeners(nt) == {}
    ensures ListenerIndex(nl, w[id := nt])
  {
  }

  // ---------------------------------------------------------------------------------------------
  // Removal

  /** The nodes of `s` that listen for `e`. */
  function ListenersIn(w: map<NodeId, NodeType>, s: set<NodeId>, e: EventName): set<NodeId> {
    set n | n in s && n in w && e in Listeners(w[n])
  }

  /** The index once every node of `s` has left the set of each event it listens for. */
  function Purge(nl: ListenerMap, w: map<NodeId, NodeType>, s: set<NodeId>): ListenerMap {
    map e | e in nl :: nl[e] - ListenersIn(w, s, e)
  }

  /** `id` taken out of the sets of the events in `evs`. */
  function PurgeEvents(nl: ListenerMap, id: NodeId, evs: set<EventName>): ListenerMap {
    map e | e in nl :: if e in evs then nl[e] - {id} else nl[e]
  }

  lemma PurgeOne(nl: ListenerMap, w: map<NodeId, NodeType>, id: NodeId)
    requires id in w
    ensures Purge(nl, w, {id}) == PurgeEvents(nl, id, Listeners(w[id]))
  {
    var a := Purge(nl, w, {id});
    var b := PurgeEvents(nl, id, Listeners(w[id]));
    forall e | e in nl ensures a[e] == b[e] {
      assert ListenersIn(w, {id}, e) == if e in Listeners(w[id]) then {id} else {};
    }
  }

  /** Purging `a` and then `b` is purging both. */
  lemma PurgeTwice(nl: ListenerMap, w: map<NodeId, NodeType>, a: set<NodeId>, b: set<NodeId>)
    ensures Purge(Purge(nl, w, a), w, b) == Purge(nl, w, a + b)
  {
    var twice := Purge(Purge(nl, w, a), w, b);
    var once := Purge(nl, w, a + b);
    forall e | e in nl ensures twice[e] == once[e] {
      assert ListenersIn(w, a + b, e) == ListenersIn(w, a, e) + ListenersIn(w, b, e);
    }
  }

  /** Only the payloads of `s` matter to purging `s`. */
  lemma PurgeAgree(nl: ListenerMap, w1: map<NodeId, NodeType>, w2: map<NodeId, NodeType>, s: set<NodeId>)
    requires forall n :: n in s ==> (n in w1 <==> n in w2)
    requires forall n :: n in s && n in w1 ==> w1[n] == w2[n]
    ensures Purge(nl, w1, s) == Purge(nl, w2, s)
  {
    forall e | e in nl ensures Purge(nl, w1, s)[e] == Purge(nl, w2, s)[e] {
      assert ListenersIn(w1, s, e) == ListenersIn(w2, s, e);
    }
  }

  /** Purging `b` does not depend on whether the disjoint `a` was dropped first. */
  lemma PurgeAfterDrop(nl: ListenerMap, w: map<NodeId, NodeType>, a: set<NodeId>, b: set<NodeId>)
    requires a !! b
    ensures Purge(nl, Drop(w, a), b) == Purge(nl, w, b)
  {
    PurgeAgree(nl, Drop(w, a), w, b);
  }

  /** Once `a` has been purged, purging it again after `b` is gone changes nothing. */
  lemma PurgeAgain(nl: ListenerMap, w: map<NodeId, NodeType>, a: set<NodeId>, b: set<NodeId>)
    requires a !! b
    ensures var r := Purge(Purge(nl, w, a), w, b); Purge(r, Drop(w, b), a) == r
  {
    var r := Purge(Purge(nl, w, a), w, b);
    PurgeAfterDrop(r, w, b, a);
    PurgeTwice(nl, w, a, b);
    PurgeTwice(nl, w, a + b, a);
    assert a + b + a == a + b;
  }

  lemma PurgeNothing(nl: ListenerMap, w: map<NodeId, NodeType>)
    ensures Purge(nl, w, {}) == nl
  {
    forall e | e in nl ensures Purge(nl, w, {})[e] == nl[e] {
      assert ListenersIn(w, {}, e) == {};
    }
  }

  /** Purging the removed nodes keeps the index consistent with the payloads that remain. */
  lemma PurgeKeepsIndex(nl: ListenerMap, w: map<NodeId, NodeType>, s: set<NodeId>)
    requires ListenerIndex(nl, w)
    ensures ListenerIndex(Purge(nl, w, s), Drop(w, s))
  {
    var r := Purge(nl, w, s);
    var w' := Drop(w, s);
    forall e, n | e in r && n in r[e] ensures n in w' && e in Listeners(w'[n]) {
      assert n in nl[e] && n !in ListenersIn(w, s, e);
    }
    forall n, e | n in w' && e in Listeners(w'[n]) ensures e in r && n in r[e] {
      assert n !in ListenersIn(w, s, e);
    }
  }

  /** Purging removes nothing else: the entries stay and only nodes of `s` leave them. */
  lemma PurgeOnlyRemoved(nl: ListenerMap, w: map<NodeId, NodeType>, s: set<NodeId>, e: EventName, n: NodeId)
    requires e in nl
    ensures e in Purge(nl, w, s)
    ensures n in Purge(nl, w, s)[e] <==> n in nl[e] && !(n in s && n in w && e in Listeners(w[n]))
  {
  }

  /** The components of the nodes outside `s` (`delete_entity` drops all of a node's components). */
  function DropComponents(cs: set<(NodeId, TypeId)>, s: set<NodeId>): set<(NodeId, TypeId)> {
    set p | p in cs && p.0 !in s
  }

  lemma DropComponentsTwice(cs: set<(NodeId, TypeId)>, a: set<NodeId>, b: set<NodeId>)
    ensures DropComponents(DropComponents(cs, a), b) == DropComponents(cs, a + b)
  {
  }

  /** The parents of the nodes of `s` that have one. */
  function ParentsIn(t: Tree, s: set<NodeId>): set<NodeId> {
    set n | n in s && n in t.parent :: t.parent[n]
  }

  // ---------------------------------------------------------------------------------------------
  // update_state

  /**
    The `DirtyNodeStates` built from the drained pass map: `(pass, node, height)` for every stale
    pass of a node still in the tree, for the registered passes only.
  */
  function WorkSet(pu: PassMap, t: Tree, registered: set<TypeId>): set<(TypeId, NodeId, nat)> {
    set n, p | n in pu && n in t.height && p in pu[n] && p in registered :: (p, n, t.height[n])
  }

  /** The part of the work set contributed by the nodes of `keys`. */
  function WorkSetOver(pu: PassMap, keys: set<NodeId>, t: Tree, registered: set<TypeId>): set<(TypeId, NodeId, nat)> {
    set n, p | n in keys && n in pu && n in t.height && p in pu[n] && p in registered :: (p, n, t.height[n])
  }

  lemma WorkSetOverNothing(pu: PassMap, t: Tree, registered: set<TypeId>)
    ensures WorkSetOver(pu, {}, t, registered) == {}
  {
  }

  /** The nodes of `pu` together contribute the whole work set. */
  lemma WorkSetOverAll(pu: PassMap, t: Tree, registered: set<TypeId>)
    ensures WorkSetOver(pu, pu.Keys, t, registered) == WorkSet(pu, t, registered)
  {
  }

  /** One more node contributes its registered stale passes at its height, if it is in the tree. */
  lemma WorkSetOverStep(pu: PassMap, keys: set<NodeId>, n: NodeId, t: Tree, registered: set<TypeId>)
    requires n in pu
    ensures WorkSetOver(pu, keys + {n}, t, registered) == WorkSetOver(pu, keys, t, registered) +
      (if n in t.height then set p | p in pu[n] && p in registered :: (p, n, t.height[n]) else {})
  {
  }

  /**
    A stale pass is scheduled at the node's height exactly when the pass is registered and the
    node is in the tree. This only reads the definition of `WorkSet` as membership; what
    `update_state` builds is tied to `WorkSet` by `BuildWorkSet`.
  */
  lemma WorkSetIff(pu: PassMap, t: Tree, registered: set<TypeId>, p: TypeId, n: NodeId, h: nat)
    ensures (p, n, h) in WorkSet(pu, t, registered) <==>
      n in pu && p in pu[n] && p in registered && n in t.height && h == t.height[n]
  {
  }

  // ---------------------------------------------------------------------------------------------
  // Depth-first traversal

  /** The nodes `f` is called on when the traversal reaches `n`: `n`, then, if `f` says so, its children's visits in order. */
  function Visit(t: Tree, n: NodeId, f: NodeId -> bool): seq<NodeId>
    requires Valid(t) && n in t.height
    decreases Subtree(t, n), 1, 0
  {
    [n] + (if f(n) then VisitChildren(t, n, 0, f) else [])
  }

  /** The visits of children `k..` of `p`, in order. */
  function VisitChildren(t: Tree, p: NodeId, k: nat, f: NodeId -> bool): seq<NodeId>
    requires Valid(t) && p in t.children && k <= |t.children[p]|
    decreases Subtree(t, p), 0, |t.children[p]| - k
  {
    if k == |t.children[p]| then []
    else
      ChildSubtree(t, p, t.children[p][k]);
      Visit(t, t.children[p][k], f) + VisitChildren(t, p, k + 1, f)
  }

  /** A node that is not in the tree is skipped (`get` returns `None`). */
  function VisitNode(t: Tree, n: NodeId, f: NodeId -> bool): seq<NodeId>
    requires Valid(t)
  {
    if n in t.height then Visit(t, n, f) else []
  }

  /** The visits still owed for a stack, top (last) first. */
  function VisitStack(t: Tree, stack: seq<NodeId>, f: NodeId -> bool): seq<NodeId>
    requires Valid(t)
  {
    if stack == [] then [] else VisitNode(t, stack[|stack| - 1], f) + VisitStack(t, stack[..|stack| - 1], f)
  }

  function Reversed(s: seq<NodeId>): (r: seq<NodeId>)
    ensures |r| == |s| && forall i :: 0 <= i < |s| ==> r[i] == s[|s| - 1 - i]
  {
    if s == [] then [] else Reversed(s[1..]) + [s[0]]
  }

  /** Pushing `p`'s children `k..` in reverse puts their visits, in order, before the rest. */
  lemma {:induction false} PushChildren(t: Tree, p: NodeId, k: nat, rest: seq<NodeId>, f: NodeId -> bool)
    requires Valid(t) && p in t.children && k <= |t.children[p]|
    ensures VisitStack(t, rest + Reversed(t.children[p][k..]), f) == VisitChildren(t, p, k, f) + VisitStack(t, rest, f)
    decreases |t.children[p]| - k
  {
    var ch := t.children[p];
    if k == |ch| {
      assert rest + Reversed(ch[k..]) == rest;
    } else {
      var c := ch[k];
      assert c in t.children[p];
      var rest' := rest + Reversed(ch[k + 1..]);
      PushChildren(t, p, k + 1, rest, f);
      assert ch[k..][1..] == ch[k + 1..];
      var s := rest + Reversed(ch[k..]);
      assert s == rest' + [c];
      assert s[..|s| - 1] == rest';
      assert VisitStack(t, s, f) == VisitNode(t, c, f) + VisitStack(t, rest', f);
      assert VisitNode(t, c, f) == Visit(t, c, f);
      assert VisitChildren(t, p, k, f) == Visit(t, c, f) + VisitChildren(t, p, k + 1, f);
      ConcatAssoc(Visit(t, c, f), VisitChildren(t, p, k + 1, f), VisitStack(t, rest, f));
    }
  }

  /**
    One pop of the traversal's stack: the visits owed after it, behind the nodes already visited,
    are the visits owed before it.
  */
  lemma PopVisit(t: Tree, done: seq<NodeId>, stack: seq<NodeId>, f: NodeId -> bool)
    requires Valid(t) && stack != []
    ensures var id, rest := stack[|stack| - 1], stack[..|stack| - 1];
      && (id !in t.height ==> done + VisitStack(t, stack, f) == done + VisitStack(t, rest, f))
      && (id in t.height && f(id) ==>
            done + VisitStack(t, stack, f) == (done + [id]) + VisitStack(t, rest + Reversed(t.children[id]), f))
      && (id in t.height && !f(id) ==> done + VisitStack(t, stack, f) == (done + [id]) + VisitStack(t, rest, f))
  {
    var id, rest := stack[|stack| - 1], stack[..|stack| - 1];
    if id in t.height {
      var owed := VisitStack(t, stack, f);
      if f(id) {
        var children := t.children[id];
        PushChildren(t, id, 0, rest, f);
        assert children[0..] == children;
        assert owed == [id] + VisitChildren(t, id, 0, f) + VisitStack(t, rest, f);
        ConcatAssoc(done, [id], VisitChildren(t, id, 0, f) + VisitStack(t, rest, f));
        ConcatAssoc([id], VisitChildren(t, id, 0, f), VisitStack(t, rest, f));
      } else {
        assert owed == [id] + VisitStack(t, rest, f);
        ConcatAssoc(done, [id], VisitStack(t, rest, f));
      }
    }
  }

  /** Every visited node lies in the subtree the visit started from. */
  lemma {:induction false} VisitInSubtree(t: Tree, n: NodeId, f: NodeId -> bool)
    requires Valid(t) && n in t.height
    ensures Elems(Visit(t, n, f)) <= Subtree(t, n)
    decreases Subtree(t, n), 1, 0
  {
    assert n in Subtree(t, n);
    if f(n) {
      VisitChildrenInSubtree(t, n, 0, f);
      assert Elems(Visit(t, n, f)) == {n} + Elems(VisitChildren(t, n, 0, f));
    } else {
      assert Visit(t, n, f) == [n];
    }
  }

  lemma {:induction false} VisitChildrenInSubtree(t: Tree, p: NodeId, k: nat, f: NodeId -> bool)
    requires Valid(t) && p in t.children && k <= |t.children[p]|
    ensures Elems(VisitChildren(t, p, k, f)) <= Subtree(t, p) - {p}
    decreases Subtree(t, p), 0, |t.children[p]| - k
  {
    if k < |t.children[p]| {
      var c := t.children[p][k];
      ChildSubtree(t, p, c);
      VisitInSubtree(t, c, f);
      assert Elems(VisitChildren(t, p, k, f)) == Elems(Visit(t, c, f)) + Elems(VisitChildren(t, p, k + 1, f));
      VisitChildrenInSubtree(t, p, k + 1, f);
    }
  }

  /** The traversal never calls `f` twice on one node. */
  lemma {:induction false} VisitNoDup(t: Tree, n: NodeId, f: NodeId -> bool)
    requires Valid(t) && n in t.height
    ensures NoDup(Visit(t, n, f))
    decreases Subtree(t, n), 1, 0
  {
    if f(n) {
      VisitChildrenNoDup(t, n, 0, f);
      VisitChildrenInSubtree(t, n, 0, f);
      NoDupConcat([n], VisitChildren(t, n, 0, f));
    }
  }

  lemma {:induction false} VisitChildrenNoDup(t: Tree, p: NodeId, k: nat, f: NodeId -> bool)
    requires Valid(t) && p in t.children && k <= |t.children[p]|
    ensures NoDup(VisitChildren(t, p, k, f))
    decreases Subtree(t, p), 0, |t.children[p]| - k
  {
    var ch := t.children[p];
    if k < |ch| {
      var c := ch[k];
      ChildSubtree(t, p, c);
      VisitNoDup(t, c, f);
      VisitChildrenNoDup(t, p, k + 1, f);
      var head := Visit(t, c, f);
      var tail := VisitChildren(t, p, k + 1, f);
      assert Elems(head) !! Elems(tail) by {
        VisitInSubtree(t, c, f);
        VisitChildrenAvoids(t, p, k + 1, f);
        ChildSubtreesStep(t, p, k);
      }
      NoDupConcat(head, tail);
    }
  }

  /** The visits of children `k..` stay out of the subtrees of the children before `k`. */
  lemma {:induction false} VisitChildrenAvoids(t: Tree, p: NodeId, k: nat, f: NodeId -> bool)
    requires Valid(t) && p in t.children && k <= |t.children[p]|
    ensures Elems(VisitChildren(t, p, k, f)) !! SubtreesOf(t, t.children[p][..k])
    decreases |t.children[p]| - k
  {
    var ch := t.children[p];
    if k < |ch| {
      var c := ch[k];
      assert c in t.children[p];
      var before := SubtreesOf(t, ch[..k]);
      VisitChildrenAvoids(t, p, k + 1, f);
      ChildSubtreesStep(t, p, k);
      assert SubtreesOf(t, ch[..k + 1]) == before + Subtree(t, c);
      VisitInSubtree(t, c, f);
      assert Elems(Visit(t, c, f)) !! before;
      assert Elems(VisitChildren(t, p, k, f)) == Elems(Visit(t, c, f)) + Elems(VisitChildren(t, p, k + 1, f));
    }
  }

  lemma NoDupConcat(a: seq<NodeId>, b: seq<NodeId>)
    requires NoDup(a) && NoDup(b) && Elems(a) !! Elems(b)
    ensures NoDup(a + b)
  {
    var r := a + b;
    forall i, j | 0 <= i < j < |r| ensures r[i] != r[j] {
      if i < |a| && j >= |a| {
        assert r[i] in Elems(a) && r[j] in Elems(b);
      }
    }
  }

  /** When `f` always says yes, the traversal reaches the whole subtree. */
  lemma {:induction false} VisitAll(t: Tree, n: NodeId, f: NodeId -> bool)
    requires Valid(t) && n in t.height && forall x :: f(x)
    ensures Elems(Visit(t, n, f)) == Subtree(t, n)
    decreases Subtree(t, n), 1, 0
  {
    VisitInSubtree(t, n, f);
    VisitChildrenAll(t, n, 0, f);
    AllChildSubtrees(t, n);
    assert t.children[n][..0] == [];
    assert Elems(Visit(t, n, f)) == {n} + Elems(VisitChildren(t, n, 0, f));
    assert n in Subtree(t, n);
  }

  lemma {:induction false} VisitChildrenAll(t: Tree, p: NodeId, k: nat, f: NodeId -> bool)
    requires Valid(t) && p in t.children && k <= |t.children[p]| && forall x :: f(x)
    ensures SubtreesOf(t, t.children[p]) - SubtreesOf(t, t.children[p][..k]) <= Elems(VisitChildren(t, p, k, f))
    decreases Subtree(t, p), 0, |t.children[p]| - k
  {
    var ch := t.children[p];
    if k == |ch| {
      assert ch[..k] == ch;
    } else {
      var c := ch[k];
      var all := SubtreesOf(t, ch);
      var before := SubtreesOf(t, ch[..k]);
      ChildSubtree(t, p, c);
      VisitAll(t, c, f);
      VisitChildrenAll(t, p, k + 1, f);
      ChildSubtreesStep(t, p, k);
      assert SubtreesOf(t, ch[..k + 1]) == before + Subtree(t, c);
      assert all - before <= Subtree(t, c) + (all - SubtreesOf(t, ch[..k + 1]));
      assert Elems(VisitChildren(t, p, k, f)) == Elems(Visit(t, c, f)) + Elems(VisitChildren(t, p, k + 1, f));
    }
  }
}
