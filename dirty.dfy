/**
  `NodesDirty` of `real_dom.rs`: for every node, the passes whose state on it is stale and the
  change mask accumulated since the last `update_state`, plus the nodes created since then.
  The map updates are stated through small functions on values (`AddPasses`, `MergeMask`),
  whose properties are proved as lemmas.
*/
module Dirty {
  import opened NodeMasks
  import opened Passes
  import opened Trees

  /** Stale passes per node (`passes_updated`). */
  type PassMap = map<NodeId, set<TypeId>>

  /** `n`'s stale passes, empty when `n` has no entry yet (`entry(n).or_default()`). */
  function PassesOf(pu: PassMap, n: NodeId): set<TypeId> {
    if n in pu then pu[n] else {}
  }

  /** `pu` with `ids` added to `n`'s entry, which is created if missing. */
  function AddPasses(pu: PassMap, n: NodeId, ids: set<TypeId>): PassMap {
    pu[n := PassesOf(pu, n) + ids]
  }

  /** `pu` with `ids` added to the entry of every node of `nodes`. */
  function AddToAll(pu: PassMap, nodes: set<NodeId>, ids: set<TypeId>): PassMap {
    map n | n in pu.Keys + nodes :: PassesOf(pu, n) + (if n in nodes then ids else {})
  }

  /** `nu` with `m` merged into `n`'s mask: the union with the old mask, or `m` if there was none. */
  function MergeMask(nu: map<NodeId, NodeMask>, n: NodeId, m: NodeMask): map<NodeId, NodeMask> {
    nu[n := if n in nu then Union(nu[n], m) else m]
  }

  /** The types of the passes whose mask overlaps `m`. */
  function OverlappingIds(ps: seq<PassState>, m: NodeMask): set<TypeId> {
    set i | 0 <= i < |ps| && Overlaps(ps[i].mask, m) :: ps[i].thisTypeId
  }

  /** The types of all registered passes. */
  function AllTypeIds(ps: seq<PassState>): set<TypeId> {
    set i | 0 <= i < |ps| :: ps[i].thisTypeId
  }

  /** Every type some pass declares a `rel` dependency on (the ids themselves, not the declaring passes). */
  function DeclaredIds(ps: seq<PassState>, rel: Relation): set<TypeId> {
    set i, t | 0 <= i < |ps| && t in Declared(ps[i], rel) :: t
  }

  // ---------------------------------------------------------------------------------------------
  // Properties of the updates

  /** A pass is marked by a mask exactly when it reads some category the mask mentions. */
  lemma {:induction false} OverlappingIdsIff(ps: seq<PassState>, m: NodeMask, t: TypeId)
    ensures t in OverlappingIds(ps, m) <==>
      exists i, c :: 0 <= i < |ps| && ps[i].thisTypeId == t && Covers(ps[i].mask, c) && Covers(m, c)
  {
    forall i | 0 <= i < |ps| {
      OverlapsIffSharedCategory(ps[i].mask, m);
    }
  }

  /** Only registered passes are ever marked, and a mask covering nothing marks none. */
  lemma {:induction false} OverlappingIdsBounds(ps: seq<PassState>, m: NodeMask)
    ensures OverlappingIds(ps, m) <= AllTypeIds(ps)
    ensures (forall c :: !Covers(m, c)) ==> OverlappingIds(ps, m) == {}
  {
    if forall c :: !Covers(m, c) {
      forall t | t in OverlappingIds(ps, m) ensures false {
        OverlappingIdsIff(ps, m, t);
      }
    }
  }

  /** Marking with `a` and then `b` marks the passes of their union. */
  lemma {:induction false} OverlappingIdsUnion(ps: seq<PassState>, a: NodeMask, b: NodeMask)
    ensures OverlappingIds(ps, Union(a, b)) == OverlappingIds(ps, a) + OverlappingIds(ps, b)
  {
    forall i | 0 <= i < |ps|
      ensures Overlaps(ps[i].mask, Union(a, b)) <==> Overlaps(ps[i].mask, a) || Overlaps(ps[i].mask, b)
    {
      OverlapsUnion(a, b, ps[i].mask);
      OverlapsUnion(Union(a, b), ps[i].mask, ps[i].mask);
      OverlapsUnion(a, ps[i].mask, ps[i].mask);
      OverlapsUnion(b, ps[i].mask, ps[i].mask);
    }
  }

  /** Adding passes only grows the node's set and leaves every other entry alone. */
  lemma AddPassesEffect(pu: PassMap, n: NodeId, ids: set<TypeId>)
    ensures AddPasses(pu, n, ids).Keys == pu.Keys + {n}
    ensures PassesOf(AddPasses(pu, n, ids), n) == PassesOf(pu, n) + ids
    ensures forall x :: x != n ==> PassesOf(AddPasses(pu, n, ids), x) == PassesOf(pu, x)
  {
  }

  /** Adding to one node is adding to the set holding just that node. */
  lemma AddPassesIsAddToAll(pu: PassMap, n: NodeId, ids: set<TypeId>)
    ensures AddPasses(pu, n, ids) == AddToAll(pu, {n}, ids)
  {
    var one := AddPasses(pu, n, ids);
    var all := AddToAll(pu, {n}, ids);
    assert one.Keys == all.Keys;
    forall x | x in all ensures one[x] == all[x] {
    }
  }

  /** Adding in two rounds is adding once to both node sets. */
  lemma AddToAllTwice(pu: PassMap, a: set<NodeId>, b: set<NodeId>, ids: set<TypeId>)
    ensures AddToAll(AddToAll(pu, a, ids), b, ids) == AddToAll(pu, a + b, ids)
  {
    var twice := AddToAll(AddToAll(pu, a, ids), b, ids);
    var once := AddToAll(pu, a + b, ids);
    assert twice.Keys == once.Keys;
    forall x | x in once ensures twice[x] == once[x] {
      assert PassesOf(AddToAll(pu, a, ids), x) == PassesOf(pu, x) + (if x in a then ids else {});
    }
  }

  lemma AddToAllNothing(pu: PassMap, ids: set<TypeId>)
    ensures AddToAll(pu, {}, ids) == pu
  {
    var r := AddToAll(pu, {}, ids);
    assert r.Keys == pu.Keys;
    forall x | x in pu ensures r[x] == pu[x] {
    }
  }

  /** The accumulated mask covers what the old mask covered plus what `m` covers. */
  lemma MergeMaskCovers(nu: map<NodeId, NodeMask>, n: NodeId, m: NodeMask, c: Category)
    ensures Covers(MergeMask(nu, n, m)[n], c) <==> (n in nu && Covers(nu[n], c)) || Covers(m, c)
  {
  }

  /** Merging `a` and then `b` is merging their union. */
  lemma MergeMaskTwice(nu: map<NodeId, NodeMask>, n: NodeId, a: NodeMask, b: NodeMask)
    ensures MergeMask(MergeMask(nu, n, a), n, b) == MergeMask(nu, n, Union(a, b))
  {
    if n in nu {
      var x := nu[n];
      assert Union(Union(x, a), b) == Union(x, Union(a, b)) by {
        assert AttributeUnion(AttributeUnion(x.attributes, a.attributes), b.attributes)
            == AttributeUnion(x.attributes, AttributeUnion(a.attributes, b.attributes));
      }
    }
  }

  // ---------------------------------------------------------------------------------------------
  // The tracker

  class NodesDirty {
    var passesUpdated: PassMap
    var nodesUpdated: map<NodeId, NodeMask>
    var nodesCreated: set<NodeId>
    /** The registered passes, resolved; fixed once the dom is built. */
    const passes: seq<PassState>

    constructor (passes: seq<PassState>, passesUpdated: PassMap, nodesUpdated: map<NodeId, NodeMask>, nodesCreated: set<NodeId>)
      ensures this.passes == passes && this.passesUpdated == passesUpdated
      ensures this.nodesUpdated == nodesUpdated && this.nodesCreated == nodesCreated
    {
      this.passes := passes;
      this.passesUpdated := passesUpdated;
      this.nodesUpdated := nodesUpdated;
      this.nodesCreated := nodesCreated;
    }

    /** `mark_dirty`: the passes reading something `mask` mentions go stale on `n`, and `mask` joins `n`'s mask. */
    method MarkDirty(n: NodeId, mask: NodeMask)
      modifies this
      ensures passesUpdated == AddPasses(old(passesUpdated), n, OverlappingIds(passes, mask))
      ensures nodesUpdated == MergeMask(old(nodesUpdated), n, mask)
      ensures nodesCreated == old(nodesCreated)
    {
      var ids: set<TypeId> := {};
      var k := 0;
      while k < |passes|
        invariant 0 <= k <= |passes|
        invariant ids == OverlappingIds(passes[..k], mask)
      {
        assert passes[..k + 1] == passes[..k] + [passes[k]];
        if Overlaps(passes[k].mask, mask) {
          ids := ids + {passes[k].thisTypeId};
        }
        k := k + 1;
      }
      assert passes[..k] == passes;
      passesUpdated := AddPasses(passesUpdated, n, ids);
      if n in nodesUpdated {
        nodesUpdated := nodesUpdated[n := Union(nodesUpdated[n], mask)];
      } else {
        nodesUpdated := nodesUpdated[n := mask];
      }
    }

    /** The loop both `mark_*` methods share: every type some pass declares a `rel` dependency on goes stale on `n`. */
    method MarkDeclared(n: NodeId, rel: Relation)
      modifies this
      ensures passesUpdated == AddPasses(old(passesUpdated), n, DeclaredIds(passes, rel))
      ensures nodesUpdated == old(nodesUpdated) && nodesCreated == old(nodesCreated)
    {
      var hm := PassesOf(passesUpdated, n);
      var k := 0;
      while k < |passes|
        invariant 0 <= k <= |passes|
        invariant hm == PassesOf(old(passesUpdated), n) + DeclaredIds(passes[..k], rel)
      {
        assert passes[..k + 1] == passes[..k] + [passes[k]];
        var pending := Declared(passes[k], rel);
        while pending != {}
          invariant pending <= Declared(passes[k], rel)
          invariant hm == PassesOf(old(passesUpdated), n) + DeclaredIds(passes[..k], rel) + (Declared(passes[k], rel) - pending)
          decreases pending
        {
          var t :| t in pending;
          hm := hm + {t};
          pending := pending - {t};
        }
        assert DeclaredIds(passes[..k + 1], rel) == DeclaredIds(passes[..k], rel) + Declared(passes[k], rel);
        k := k + 1;
      }
      assert passes[..k] == passes;
      passesUpdated := passesUpdated[n := hm];
    }

    /**
      The tracker's side of `create_node` for a node it has no entry for: every registered pass
      goes stale on it, its mask is everything, and it is recorded as created.
    */
    method MarkCreated(n: NodeId)
      requires n !in passesUpdated && n !in nodesUpdated
      modifies this
      ensures passesUpdated == old(passesUpdated)[n := AllTypeIds(passes)]
      ensures nodesUpdated == old(nodesUpdated)[n := ALL]
      ensures nodesCreated == old(nodesCreated) + {n}
    {
      var all := AllTypeIds(passes);
      assert PassesOf(passesUpdated, n) + all == all;
      passesUpdated := AddPasses(passesUpdated, n, all);
      OverlappingIdsBounds(passes, ALL);
      MarkDirty(n, ALL);
      assert all + OverlappingIds(passes, ALL) == all;
      nodesCreated := nodesCreated + {n};
    }

    /** The two `std::mem::take`s of `update_state`: both maps are handed over and left empty. */
    method Drain() returns (passes: PassMap, updated: map<NodeId, NodeMask>)
      modifies this
      ensures passes == old(passesUpdated) && updated == old(nodesUpdated)
      ensures passesUpdated == map[] && nodesUpdated == map[] && nodesCreated == old(nodesCreated)
    {
      passes, updated := passesUpdated, nodesUpdated;
      passesUpdated, nodesUpdated := map[], map[];
    }

    /** `mark_parent_added_or_removed`: what any pass reads from a parent goes stale on `n`. */
    method MarkParentAddedOrRemoved(n: NodeId)
      modifies this
      ensures passesUpdated == AddPasses(old(passesUpdated), n, DeclaredIds(passes, OnParent))
      ensures nodesUpdated == old(nodesUpdated) && nodesCreated == old(nodesCreated)
    {
      MarkDeclared(n, OnParent);
    }

    /** `mark_child_changed`: what any pass reads from children goes stale on `n`. */
    method MarkChildChanged(n: NodeId)
      modifies this
      ensures passesUpdated == AddPasses(old(passesUpdated), n, DeclaredIds(passes, OnChild))
      ensures nodesUpdated == old(nodesUpdated) && nodesCreated == old(nodesCreated)
    {
      MarkDeclared(n, OnChild);
    }
  }
}
