/**
  Pass descriptors (`TypeErasedState` of `passes.rs`, a module this model does not include) and
  the two pieces of `real_dom.rs` that work on them alone: the dependant resolution at the start
  of `RealDom::new`, and `construct_workload`, which turns declared dependencies into "run after"
  edges between passes.
*/
module Passes {
  import opened NodeMasks
  import opened Wrappers
  import opened Collections

  /** A `TypeId`, opaque: only equality matters. */
  type TypeId = nat

  datatype PassDirection = ParentToChild | ChildToParent | AnyOrder

  /** A pass to invalidate, as stored in the dependants lists. */
  datatype Dependant = Dependant(typeId: TypeId, enterShadowDom: bool)

  /** Reverse edges: which passes to invalidate on the children, the parent, or the same node. */
  datatype Dependants = Dependants(child: seq<Dependant>, parent: seq<Dependant>, node: seq<TypeId>)

  /** One registered pass: what it reads, what it depends on, and its resolved dependants. */
  datatype PassState = PassState(
    thisTypeId: TypeId,
    parentDependencyIds: set<TypeId>,
    childDependencyIds: set<TypeId>,
    nodeDependencyIds: set<TypeId>,
    mask: NodeMask,
    passDirection: PassDirection,
    enterShadowDom: bool,
    dependants: Dependants)

  /** The three relations a pass can declare a dependency on. */
  datatype Relation = OnParent | OnChild | OnNode

  function Declared(p: PassState, rel: Relation): set<TypeId> {
    match rel
    case OnParent => p.parentDependencyIds
    case OnChild => p.childDependencyIds
    case OnNode => p.nodeDependencyIds
  }

  function DependantOf(p: PassState): Dependant {
    Dependant(p.thisTypeId, p.enterShadowDom)
  }

  /** Two pass states that differ at most in their dependants. */
  predicate SameDescriptor(a: PassState, b: PassState) {
    a.(dependants := b.dependants) == b
  }

  function TypeIds(ds: set<Dependant>): set<TypeId> {
    set d | d in ds :: d.typeId
  }

  /** Push `x` unless it is already there (the `contains` check before each `push`). */
  function AddUnique<T(==)>(s: seq<T>, x: T): (r: seq<T>)
    ensures Elems(r) == Elems(s) + {x}
    ensures NoDup(s) ==> NoDup(r)
    ensures x in s ==> r == s
  {
    if x in s then s else s + [x]
  }

  // ---------------------------------------------------------------------------------------------
  // Dependant resolution: the specification

  /**
    The dependants pass `q` receives for relation `rel` from the passes `k < upto`, `k != q`:
    every such pass that declares a `rel` dependency on `q`'s type.
  */
  function Inverted(ps: seq<PassState>, q: nat, rel: Relation, upto: nat): set<Dependant>
    requires q < |ps| && upto <= |ps|
    decreases upto
  {
    if upto == 0 then {}
    else
      Inverted(ps, q, rel, upto - 1)
      + (if upto - 1 != q && ps[q].thisTypeId in Declared(ps[upto - 1], rel)
         then {DependantOf(ps[upto - 1])} else {})
  }

  /** The self edge of a directed pass `q`, once the resolution has reached it. */
  function SelfEdge(ps: seq<PassState>, q: nat, dir: PassDirection, upto: nat): set<Dependant>
    requires q < |ps|
  {
    if q < upto && ps[q].passDirection == dir then {DependantOf(ps[q])} else {}
  }

  /**
    Pass state `cur` is what pass `q` of `ps` has become once the passes before `upto` have
    pushed their edges into it and the self edges of the passes before `selfUpto` are in place.
  */
  ghost predicate Stage(cur: PassState, ps: seq<PassState>, q: nat, upto: nat, selfUpto: nat)
    requires q < |ps| && upto <= |ps|
  {
    var was := ps[q].dependants;
    var now := cur.dependants;
    && SameDescriptor(cur, ps[q])
    && Elems(now.child) == Elems(was.child) + Inverted(ps, q, OnParent, upto) + SelfEdge(ps, q, ParentToChild, selfUpto)
    && Elems(now.parent) == Elems(was.parent) + Inverted(ps, q, OnChild, upto) + SelfEdge(ps, q, ChildToParent, selfUpto)
    && Elems(now.node) == Elems(was.node) + TypeIds(Inverted(ps, q, OnNode, upto))
    && (NoDup(was.child) ==> NoDup(now.child))
    && (NoDup(was.parent) ==> NoDup(now.parent))
    && (NoDup(was.node) ==> NoDup(now.node))
  }

  /** Pass `q` after the whole resolution of `ps`. */
  ghost predicate Resolved(cur: PassState, ps: seq<PassState>, q: nat)
    requires q < |ps|
  {
    Stage(cur, ps, q, |ps|, |ps|)
  }

  /** The edges pushed into `state` when `current` is the pass being resolved. */
  function Link(state: PassState, current: PassState): PassState {
    var d := state.dependants;
    var dep := DependantOf(current);
    var child := if state.thisTypeId in current.parentDependencyIds then AddUnique(d.child, dep) else d.child;
    var parent := if state.thisTypeId in current.childDependencyIds then AddUnique(d.parent, dep) else d.parent;
    var node := if state.thisTypeId in current.nodeDependencyIds then AddUnique(d.node, current.thisTypeId) else d.node;
    state.(dependants := Dependants(child, parent, node))
  }

  /** The self edge a directed pass adds to its own dependants. */
  function LinkSelf(current: PassState): PassState {
    var d := current.dependants;
    var dep := DependantOf(current);
    match current.passDirection
    case ChildToParent => current.(dependants := d.(parent := AddUnique(d.parent, dep)))
    case ParentToChild => current.(dependants := d.(child := AddUnique(d.child, dep)))
    case AnyOrder => current
  }

  lemma {:induction false} LinkStep(cur: PassState, current: PassState, ps: seq<PassState>, q: nat, i: nat, selfUpto: nat)
    requires q < |ps| && i < |ps| && q != i && selfUpto <= |ps|
    requires Stage(cur, ps, q, i, selfUpto)
    requires SameDescriptor(current, ps[i])
    ensures Stage(Link(cur, current), ps, q, i + 1, selfUpto)
  {
    assert DependantOf(current) == DependantOf(ps[i]);
    var dep := DependantOf(ps[i]);
    assert Inverted(ps, q, OnNode, i + 1) == Inverted(ps, q, OnNode, i)
      + (if ps[q].thisTypeId in ps[i].nodeDependencyIds then {dep} else {});
    assert TypeIds(Inverted(ps, q, OnNode, i + 1)) == TypeIds(Inverted(ps, q, OnNode, i))
      + (if ps[q].thisTypeId in ps[i].nodeDependencyIds then {ps[i].thisTypeId} else {});
  }

  lemma SkipSelfStep(cur: PassState, ps: seq<PassState>, i: nat, selfUpto: nat)
    requires i < |ps| && selfUpto <= |ps|
    requires Stage(cur, ps, i, i, selfUpto)
    ensures Stage(cur, ps, i, i + 1, selfUpto)
  {
    assert Inverted(ps, i, OnParent, i + 1) == Inverted(ps, i, OnParent, i);
    assert Inverted(ps, i, OnChild, i + 1) == Inverted(ps, i, OnChild, i);
    assert Inverted(ps, i, OnNode, i + 1) == Inverted(ps, i, OnNode, i);
  }

  lemma LinkSelfStep(cur: PassState, ps: seq<PassState>, i: nat)
    requires i < |ps|
    requires Stage(cur, ps, i, i + 1, i)
    ensures Stage(LinkSelf(cur), ps, i, i + 1, i + 1)
  {
    assert DependantOf(cur) == DependantOf(ps[i]);
  }

  lemma OtherSelfStep(cur: PassState, ps: seq<PassState>, q: nat, i: nat)
    requires q < |ps| && i < |ps| && q != i
    requires Stage(cur, ps, q, i + 1, i)
    ensures Stage(cur, ps, q, i + 1, i + 1)
  {
    assert SelfEdge(ps, q, ParentToChild, i + 1) == SelfEdge(ps, q, ParentToChild, i);
    assert SelfEdge(ps, q, ChildToParent, i + 1) == SelfEdge(ps, q, ChildToParent, i);
  }

  lemma StartStage(ps: seq<PassState>, q: nat)
    requires q < |ps|
    ensures Stage(ps[q], ps, q, 0, 0)
  {
  }

  /** The whole array mid-resolution: passes before `j` have `current = i` pushed in. */
  ghost predicate AllStaged(s: seq<PassState>, ps: seq<PassState>, i: nat, j: nat)
    requires |s| == |ps| && i < |ps|
  {
    forall q :: 0 <= q < |s| ==> Stage(s[q], ps, q, if q < j then i + 1 else i, i)
  }

  ghost predicate AllResolved(s: seq<PassState>, ps: seq<PassState>)
    requires |s| == |ps|
  {
    forall q :: 0 <= q < |s| ==> Resolved(s[q], ps, q)
  }

  lemma InnerStep(s: seq<PassState>, ps: seq<PassState>, i: nat, j: nat)
    requires |s| == |ps| && i < |ps| && j < |ps| && j != i
    requires AllStaged(s, ps, i, j)
    ensures AllStaged(s[j := Link(s[j], s[i])], ps, i, j + 1)
  {
    LinkStep(s[j], s[i], ps, j, i, i);
  }

  lemma InnerSkip(s: seq<PassState>, ps: seq<PassState>, i: nat)
    requires |s| == |ps| && i < |ps|
    requires AllStaged(s, ps, i, i)
    ensures AllStaged(s, ps, i, i + 1)
  {
    SkipSelfStep(s[i], ps, i, i);
  }

  lemma OuterStep(s: seq<PassState>, ps: seq<PassState>, i: nat)
    requires |s| == |ps| && i < |ps|
    requires AllStaged(s, ps, i, |s|)
    ensures i + 1 < |ps| ==> AllStaged(s[i := LinkSelf(s[i])], ps, i + 1, 0)
    ensures i + 1 == |ps| ==> AllResolved(s[i := LinkSelf(s[i])], ps)
  {
    var s' := s[i := LinkSelf(s[i])];
    LinkSelfStep(s[i], ps, i);
    forall q | 0 <= q < |s| && q != i ensures Stage(s'[q], ps, q, i + 1, i + 1) {
      OtherSelfStep(s[q], ps, q, i);
    }
  }

  // ---------------------------------------------------------------------------------------------
  // Dependant resolution: the loop of `RealDom::new`

  /**
    For every pass `current` (in order), push `current` into the dependants of every other pass
    it depends on, then add `current`'s own direction edge. Works in place on the passes.
  */
  method ResolveDependants(a: array<PassState>)
    modifies a
    ensures forall q :: 0 <= q < a.Length ==> Resolved(a[q], old(a[..]), q)
  {
    ghost var ps := a[..];
    if a.Length == 0 {
      return;
    }
    forall q | 0 <= q < a.Length ensures Stage(a[q], ps, q, 0, 0) {
      StartStage(ps, q);
    }
    assert AllStaged(a[..], ps, 0, 0);
    var i := 0;
    while i < a.Length
      invariant 0 <= i <= a.Length
      invariant i < a.Length ==> AllStaged(a[..], ps, i, 0)
      invariant i == a.Length ==> AllResolved(a[..], ps)
    {
      var j := 0;
      while j < a.Length
        invariant 0 <= j <= a.Length
        invariant AllStaged(a[..], ps, i, j)
      {
        if j != i {
          ghost var before := a[..];
          InnerStep(before, ps, i, j);
          a[j] := Link(a[j], a[i]);
          assert a[..] == before[j := Link(before[j], before[i])];
        } else {
          InnerSkip(a[..], ps, i);
        }
        j := j + 1;
      }
      ghost var before := a[..];
      OuterStep(before, ps, i);
      a[i] := LinkSelf(a[i]);
      assert a[..] == before[i := LinkSelf(before[i])];
      i := i + 1;
    }
    assert AllResolved(a[..], ps);
  }

  // ---------------------------------------------------------------------------------------------
  // Properties of the resolution

  /** Which pass pushes into `q`'s list for `rel`: exactly the others declaring `rel` on `q`'s type. */
  lemma {:induction false} InvertedIff(ps: seq<PassState>, q: nat, rel: Relation, upto: nat, d: Dependant)
    requires q < |ps| && upto <= |ps|
    ensures d in Inverted(ps, q, rel, upto) <==>
      exists k :: 0 <= k < upto && k != q && ps[q].thisTypeId in Declared(ps[k], rel) && d == DependantOf(ps[k])
    decreases upto
  {
    if upto > 0 {
      InvertedIff(ps, q, rel, upto - 1, d);
    }
  }

  /** A dependency type `t` shows up as a node dependant of `q` iff some other pass of type `t` declares it. */
  lemma NodeDependantIff(ps: seq<PassState>, q: nat, t: TypeId)
    requires q < |ps|
    ensures t in TypeIds(Inverted(ps, q, OnNode, |ps|)) <==>
      exists k :: 0 <= k < |ps| && k != q && ps[q].thisTypeId in ps[k].nodeDependencyIds && t == ps[k].thisTypeId
  {
    if t in TypeIds(Inverted(ps, q, OnNode, |ps|)) {
      var d :| d in Inverted(ps, q, OnNode, |ps|) && d.typeId == t;
      InvertedIff(ps, q, OnNode, |ps|, d);
    } else {
      forall k | 0 <= k < |ps| && k != q && ps[q].thisTypeId in ps[k].nodeDependencyIds
        ensures t != ps[k].thisTypeId
      {
        InvertedIff(ps, q, OnNode, |ps|, DependantOf(ps[k]));
      }
    }
  }

  /**
    After the resolution, for every pair of distinct passes A (index k) and B (index q): a parent
    dependency of A on B's type puts A among B's child dependants, a child dependency among B's
    parent dependants, and a node dependency puts A's type among B's node dependants.
  */
  lemma {:induction false} ResolutionComplete(ps: seq<PassState>, res: seq<PassState>, k: nat, q: nat)
    requires |res| == |ps| && k < |ps| && q < |ps| && k != q
    requires Resolved(res[q], ps, q)
    ensures ps[q].thisTypeId in ps[k].parentDependencyIds ==> DependantOf(ps[k]) in res[q].dependants.child
    ensures ps[q].thisTypeId in ps[k].childDependencyIds ==> DependantOf(ps[k]) in res[q].dependants.parent
    ensures ps[q].thisTypeId in ps[k].nodeDependencyIds ==> ps[k].thisTypeId in res[q].dependants.node
  {
    var d := DependantOf(ps[k]);
    InvertedIff(ps, q, OnParent, |ps|, d);
    InvertedIff(ps, q, OnChild, |ps|, d);
    NodeDependantIff(ps, q, ps[k].thisTypeId);
    assert d in res[q].dependants.child <==> d in Elems(res[q].dependants.child);
    assert d in res[q].dependants.parent <==> d in Elems(res[q].dependants.parent);
    assert ps[k].thisTypeId in res[q].dependants.node <==> ps[k].thisTypeId in Elems(res[q].dependants.node);
  }

  /**
    Nothing else is added: every child dependant of B after resolution was already there, comes
    from a pass declaring a parent dependency on B's type, or is B's own `ParentToChild` edge.
  */
  lemma {:induction false} ResolvedChildSound(ps: seq<PassState>, cur: PassState, q: nat, d: Dependant)
    requires q < |ps| && Resolved(cur, ps, q)
    ensures d in cur.dependants.child <==>
      || d in ps[q].dependants.child
      || (exists k :: 0 <= k < |ps| && k != q && ps[q].thisTypeId in ps[k].parentDependencyIds && d == DependantOf(ps[k]))
      || (ps[q].passDirection == ParentToChild && d == DependantOf(ps[q]))
  {
    InvertedIff(ps, q, OnParent, |ps|, d);
    assert d in cur.dependants.child <==> d in Elems(cur.dependants.child);
    assert d in ps[q].dependants.child <==> d in Elems(ps[q].dependants.child);
  }

  /** The same for the parent dependants and `ChildToParent`. */
  lemma {:induction false} ResolvedParentSound(ps: seq<PassState>, cur: PassState, q: nat, d: Dependant)
    requires q < |ps| && Resolved(cur, ps, q)
    ensures d in cur.dependants.parent <==>
      || d in ps[q].dependants.parent
      || (exists k :: 0 <= k < |ps| && k != q && ps[q].thisTypeId in ps[k].childDependencyIds && d == DependantOf(ps[k]))
      || (ps[q].passDirection == ChildToParent && d == DependantOf(ps[q]))
  {
    InvertedIff(ps, q, OnChild, |ps|, d);
    assert d in cur.dependants.parent <==> d in Elems(cur.dependants.parent);
    assert d in ps[q].dependants.parent <==> d in Elems(ps[q].dependants.parent);
  }

  /** Registered passes carry distinct type ids (each is a Rust `TypeId::of` a distinct type). */
  predicate UniqueTypeIds(ps: seq<PassState>) {
    forall i, j :: 0 <= i < j < |ps| ==> ps[i].thisTypeId != ps[j].thisTypeId
  }

  /**
    Self edges: starting from empty dependants, a `ParentToChild` pass ends up exactly once in
    its own child dependants, a `ChildToParent` pass exactly once in its own parent dependants,
    and no other direction puts a pass among its own dependants.
  */
  lemma {:induction false} SelfEdges(ps: seq<PassState>, cur: PassState, q: nat)
    requires q < |ps| && UniqueTypeIds(ps) && Resolved(cur, ps, q)
    requires ps[q].dependants == Dependants([], [], [])
    ensures NoDup(cur.dependants.child) && NoDup(cur.dependants.parent) && NoDup(cur.dependants.node)
    ensures DependantOf(ps[q]) in cur.dependants.child <==> ps[q].passDirection == ParentToChild
    ensures DependantOf(ps[q]) in cur.dependants.parent <==> ps[q].passDirection == ChildToParent
  {
    var d := DependantOf(ps[q]);
    InvertedIff(ps, q, OnParent, |ps|, d);
    InvertedIff(ps, q, OnChild, |ps|, d);
    assert d in cur.dependants.child <==> d in Elems(cur.dependants.child);
    assert d in cur.dependants.parent <==> d in Elems(cur.dependants.parent);
  }

  // ---------------------------------------------------------------------------------------------
  // construct_workload

  /** Every type a pass depends on, through any relation. */
  function CombinedDependencies(p: PassState): set<TypeId> {
    p.parentDependencyIds + p.childDependencyIds + p.nodeDependencyIds
  }

  predicate Registered(ps: seq<PassState>, t: TypeId) {
    exists j :: 0 <= j < |ps| && ps[j].thisTypeId == t
  }

  /** `j` is the first pass of `ps` whose type is `t`: the one `find` returns. */
  predicate IsFirstOfType(ps: seq<PassState>, t: TypeId, j: nat) {
    j < |ps| && ps[j].thisTypeId == t && forall k :: 0 <= k < j ==> ps[k].thisTypeId != t
  }

  /** The passes pass `i` must run after: the first pass of each type it depends on. */
  function AfterEdges(ps: seq<PassState>, i: nat): set<nat>
    requires i < |ps|
  {
    set j | 0 <= j < |ps| && IsFirstOfType(ps, ps[j].thisTypeId, j) && ps[j].thisTypeId in CombinedDependencies(ps[i])
  }

  /** The `iter().find(..)` of `construct_workload`: the first pass of type `t`, if any. */
  method FindPass(ps: seq<PassState>, t: TypeId) returns (r: Option<nat>)
    ensures r.Some? ==> IsFirstOfType(ps, t, r.value)
    ensures r.None? <==> !Registered(ps, t)
  {
    var k := 0;
    while k < |ps|
      invariant 0 <= k <= |ps|
      invariant forall m :: 0 <= m < k ==> ps[m].thisTypeId != t
    {
      if ps[k].thisTypeId == t {
        return Some(k);
      }
      k := k + 1;
    }
    return None;
  }

  /**
    The "after" edges of the workload: pass `i` (tagged by its index) runs after every pass
    whose type it depends on. `None` is the abort of `find(..).unwrap()` on a dependency
    whose type no registered pass has.
  */
  method ConstructWorkload(ps: seq<PassState>) returns (w: Option<seq<set<nat>>>)
    ensures w.None? <==> exists i, t :: 0 <= i < |ps| && t in CombinedDependencies(ps[i]) && !Registered(ps, t)
    ensures w.Some? ==> |w.value| == |ps| && forall i :: 0 <= i < |ps| ==> w.value[i] == AfterEdges(ps, i)
  {
    var edges: seq<set<nat>> := [];
    var i := 0;
    while i < |ps|
      invariant 0 <= i <= |ps| && |edges| == i
      invariant forall m :: 0 <= m < i ==> edges[m] == AfterEdges(ps, m)
      invariant forall m, t :: 0 <= m < i && t in CombinedDependencies(ps[m]) ==> Registered(ps, t)
    {
      var pending := CombinedDependencies(ps[i]);
      var after: set<nat> := {};
      while pending != {}
        decreases pending
        invariant pending <= CombinedDependencies(ps[i])
        invariant forall t :: t in CombinedDependencies(ps[i]) - pending ==> Registered(ps, t)
        invariant after == set j | 0 <= j < |ps| && IsFirstOfType(ps, ps[j].thisTypeId, j)
                                   && ps[j].thisTypeId in CombinedDependencies(ps[i]) - pending
      {
        var t :| t in pending;
        var found := FindPass(ps, t);
        if found.None? {
          return None;
        }
        after := after + {found.value};
        pending := pending - {t};
        FirstOfTypeUnique(ps, t, found.value);
      }
      edges := edges + [after];
      i := i + 1;
    }
    w := Some(edges);
  }

  lemma FirstOfTypeUnique(ps: seq<PassState>, t: TypeId, j: nat)
    requires IsFirstOfType(ps, t, j)
    ensures forall m :: 0 <= m < |ps| && IsFirstOfType(ps, ps[m].thisTypeId, m) && ps[m].thisTypeId == t ==> m == j
  {
  }

  /**
    With distinct type ids, pass `i` runs after pass `j` exactly when `i` depends on `j`'s type.
  */
  lemma AfterEdgesIff(ps: seq<PassState>, i: nat, j: nat)
    requires UniqueTypeIds(ps) && i < |ps| && j < |ps|
    ensures j in AfterEdges(ps, i) <==> ps[j].thisTypeId in CombinedDependencies(ps[i])
  {
  }

  /** A registered type has a first pass of that type. */
  lemma {:induction false} FirstOfType(ps: seq<PassState>, t: TypeId, j: nat) returns (f: nat)
    requires j < |ps| && ps[j].thisTypeId == t
    ensures IsFirstOfType(ps, t, f)
    decreases j
  {
    if k :| 0 <= k < j && ps[k].thisTypeId == t {
      f := FirstOfType(ps, t, k);
    } else {
      f := j;
    }
  }

  /** Every registered dependency of pass `i` is met by an edge to a pass of that type. */
  lemma AfterEdgesCover(ps: seq<PassState>, i: nat, t: TypeId)
    requires i < |ps| && t in CombinedDependencies(ps[i]) && Registered(ps, t)
    ensures exists j :: j in AfterEdges(ps, i) && ps[j].thisTypeId == t
  {
    var j :| 0 <= j < |ps| && ps[j].thisTypeId == t;
    var f := FirstOfType(ps, t, j);
    assert f in AfterEdges(ps, i);
  }
}
