/**
  The node tree of `tree.rs` (a module this model does not include), as the engine uses it:
  a parent map, an ordered child list per node and a cached height per node. `Valid` is the
  shape every operation keeps: parent and child lists agree, child lists have no repeats, a
  child is one deeper than its parent and every parentless node sits at height 0. Heights make
  the structure acyclic, so "ancestor of" and "subtree of" are well defined.
*/
module Trees {
  import opened Collections

  type NodeId = nat

  datatype Tree = Tree(parent: map<NodeId, NodeId>, children: map<NodeId, seq<NodeId>>, height: map<NodeId, nat>)

  ghost predicate Valid(t: Tree) {
    && t.children.Keys == t.height.Keys
    && t.parent.Keys <= t.height.Keys
    && (forall n {:trigger t.parent[n]} :: n in t.parent ==> t.parent[n] in t.height)
    && (forall p, c {:trigger c in t.children[p]} :: p in t.children && c in t.children[p] ==> c in t.parent && t.parent[c] == p)
    && (forall c {:trigger t.parent[c]} :: c in t.parent ==> c in t.children[t.parent[c]])
    && (forall p :: p in t.children ==> NoDup(t.children[p]))
    && (forall c {:trigger t.parent[c]} :: c in t.parent ==> t.height[c] == t.height[t.parent[c]] + 1)
    && (forall n :: n in t.height && n !in t.parent ==> t.height[n] == 0)
  }

  /** The empty tree. */
  const Empty: Tree := Tree(map[], map[], map[])

  /** `n` is `a` or lies below it. */
  function IsAncestorOrSelf(t: Tree, a: NodeId, n: NodeId): bool
    requires Valid(t) && n in t.height
    decreases t.height[n]
  {
    n == a || (n in t.parent && IsAncestorOrSelf(t, a, t.parent[n]))
  }

  /** `x` and every node below it. */
  function Subtree(t: Tree, x: NodeId): set<NodeId>
    requires Valid(t)
  {
    set n | n in t.height && IsAncestorOrSelf(t, x, n)
  }

  // ---------------------------------------------------------------------------------------------
  // Ancestry

  lemma {:induction false} AncestorIsAbove(t: Tree, a: NodeId, n: NodeId)
    requires Valid(t) && n in t.height && IsAncestorOrSelf(t, a, n)
    ensures a in t.height && t.height[a] <= t.height[n]
    ensures a != n ==> t.height[a] < t.height[n]
    decreases t.height[n]
  {
    if n != a {
      AncestorIsAbove(t, a, t.parent[n]);
    }
  }

  lemma {:induction false} AncestorTransitive(t: Tree, a: NodeId, b: NodeId, n: NodeId)
    requires Valid(t) && n in t.height && b in t.height
    requires IsAncestorOrSelf(t, a, b) && IsAncestorOrSelf(t, b, n)
    ensures IsAncestorOrSelf(t, a, n)
    decreases t.height[n]
  {
    if n != b {
      AncestorTransitive(t, a, b, t.parent[n]);
    }
  }

  /** Two ancestors of one node at the same height are the same node. */
  lemma {:induction false} AncestorAtHeightUnique(t: Tree, a: NodeId, b: NodeId, n: NodeId)
    requires Valid(t) && n in t.height
    requires IsAncestorOrSelf(t, a, n) && IsAncestorOrSelf(t, b, n)
    requires a in t.height && b in t.height && t.height[a] == t.height[b]
    ensures a == b
    decreases t.height[n]
  {
    if n != a && n != b {
      AncestorAtHeightUnique(t, a, b, t.parent[n]);
    } else if n == a && n != b {
      AncestorIsAbove(t, b, n);
    } else if n == b && n != a {
      AncestorIsAbove(t, a, n);
    }
  }

  /** A child's subtree lies strictly inside its parent's. */
  lemma ChildSubtree(t: Tree, x: NodeId, c: NodeId)
    requires Valid(t) && x in t.children && c in t.children[x]
    ensures Subtree(t, c) <= Subtree(t, x) && x !in Subtree(t, c) && c in Subtree(t, c)
  {
    assert IsAncestorOrSelf(t, x, c);
    forall n | n in Subtree(t, c) ensures n in Subtree(t, x) {
      AncestorTransitive(t, x, c, n);
    }
    if x in Subtree(t, c) {
      AncestorIsAbove(t, c, x);
    }
  }

  /** Every node strictly below `x` is in the subtree of one of `x`'s children. */
  lemma {:induction false} SubtreeSplit(t: Tree, x: NodeId, n: NodeId) returns (c: NodeId)
    requires Valid(t) && x in t.height && n in Subtree(t, x) && n != x
    ensures c in t.children[x] && n in Subtree(t, c)
    decreases t.height[n]
  {
    var p := t.parent[n];
    if p == x {
      c := n;
    } else {
      c := SubtreeSplit(t, x, p);
      assert IsAncestorOrSelf(t, c, n);
    }
  }

  /** Distinct children of one node have disjoint subtrees. */
  lemma SiblingSubtreesDisjoint(t: Tree, x: NodeId, c1: NodeId, c2: NodeId)
    requires Valid(t) && x in t.children && c1 in t.children[x] && c2 in t.children[x] && c1 != c2
    ensures Subtree(t, c1) !! Subtree(t, c2)
  {
    forall n | n in Subtree(t, c1) && n in Subtree(t, c2) ensures false {
      AncestorAtHeightUnique(t, c1, c2, n);
    }
  }

  /** The nodes of the subtrees of the nodes of `cs`. */
  function SubtreesOf(t: Tree, cs: seq<NodeId>): set<NodeId>
    requires Valid(t)
  {
    if cs == [] then {} else SubtreesOf(t, cs[..|cs| - 1]) + Subtree(t, cs[|cs| - 1])
  }

  lemma {:induction false} SubtreesOfIff(t: Tree, cs: seq<NodeId>, n: NodeId)
    requires Valid(t)
    ensures n in SubtreesOf(t, cs) <==> exists j :: 0 <= j < |cs| && n in Subtree(t, cs[j])
  {
    if cs != [] {
      var init := cs[..|cs| - 1];
      SubtreesOfIff(t, init, n);
      if exists j :: 0 <= j < |cs| && n in Subtree(t, cs[j]) {
        var j :| 0 <= j < |cs| && n in Subtree(t, cs[j]);
        if j < |cs| - 1 {
          assert init[j] == cs[j];
        }
      }
      if exists j :: 0 <= j < |init| && n in Subtree(t, init[j]) {
        var j :| 0 <= j < |init| && n in Subtree(t, init[j]);
        assert cs[j] == init[j];
      }
    }
  }

  /**
    Walking `x`'s children in order: the subtree of child `k` is disjoint from those of the
    children before it, and together they stay strictly below `x` and closed downwards.
  */
  lemma ChildSubtreesStep(t: Tree, x: NodeId, k: nat)
    requires Valid(t) && x in t.children && k < |t.children[x]|
    ensures var ch := t.children[x]; var done := SubtreesOf(t, ch[..k]);
      && Subtree(t, ch[k]) !! done
      && SubtreesOf(t, ch[..k + 1]) == done + Subtree(t, ch[k])
      && done + Subtree(t, ch[k]) <= Subtree(t, x) - {x}
      && DownClosed(t, done + Subtree(t, ch[k]))
  {
    var ch := t.children[x];
    var done := SubtreesOf(t, ch[..k]);
    assert ch[..k + 1][..k] == ch[..k];
    forall n | n in Subtree(t, ch[k]) && n in done ensures false {
      SubtreesOfIff(t, ch[..k], n);
      var j :| 0 <= j < k && n in Subtree(t, ch[..k][j]);
      assert ch[j] != ch[k];
      SiblingSubtreesDisjoint(t, x, ch[j], ch[k]);
    }
    forall n | n in SubtreesOf(t, ch[..k + 1]) ensures n in Subtree(t, x) - {x} {
      SubtreesOfIff(t, ch[..k + 1], n);
      var j :| 0 <= j < k + 1 && n in Subtree(t, ch[..k + 1][j]);
      ChildSubtree(t, x, ch[j]);
    }
    forall n | n in t.parent && t.parent[n] in SubtreesOf(t, ch[..k + 1]) ensures n in SubtreesOf(t, ch[..k + 1]) {
      SubtreesOfIff(t, ch[..k + 1], t.parent[n]);
      var j :| 0 <= j < k + 1 && t.parent[n] in Subtree(t, ch[..k + 1][j]);
      assert n in Subtree(t, ch[..k + 1][j]);
      SubtreesOfIff(t, ch[..k + 1], n);
    }
  }

  /** The subtrees of `x`'s children make up everything strictly below `x`. */
  lemma AllChildSubtrees(t: Tree, x: NodeId)
    requires Valid(t) && x in t.children
    ensures SubtreesOf(t, t.children[x]) == Subtree(t, x) - {x}
  {
    var ch := t.children[x];
    forall n | n in Subtree(t, x) - {x} ensures n in SubtreesOf(t, ch) {
      var c := SubtreeSplit(t, x, n);
      var j :| 0 <= j < |ch| && ch[j] == c;
      SubtreesOfIff(t, ch, n);
    }
    forall n | n in SubtreesOf(t, ch) ensures n in Subtree(t, x) - {x} {
      SubtreesOfIff(t, ch, n);
      var j :| 0 <= j < |ch| && n in Subtree(t, ch[j]);
      ChildSubtree(t, x, ch[j]);
    }
  }

  // ---------------------------------------------------------------------------------------------
  // Removal

  /** No node outside `s` hangs below a node of `s`. */
  ghost predicate DownClosed(t: Tree, s: set<NodeId>) {
    forall n :: n in t.parent && t.parent[n] in s ==> n in s
  }

  lemma SubtreeDownClosed(t: Tree, x: NodeId)
    requires Valid(t)
    ensures DownClosed(t, Subtree(t, x))
  {
  }

  /** The tree without the nodes of `s` (their entries, and their places in child lists). */
  function RemoveSet(t: Tree, s: set<NodeId>): (r: Tree)
    requires Valid(t) && DownClosed(t, s)
    ensures Valid(r) && r.height.Keys == t.height.Keys - s
    ensures forall n :: n in r.height ==> r.height[n] == t.height[n]
    ensures forall n :: n in r.height ==> (n in r.parent <==> n in t.parent)
    ensures forall n :: n in r.parent ==> r.parent[n] == t.parent[n]
    ensures forall n :: n in r.children ==> r.children[n] == Without(t.children[n], s)
  {
    Tree(Drop(t.parent, s), DropChildren(t.children, s), Drop(t.height, s))
  }

  /** `m` without the keys of `s`. */
  function Drop<V>(m: map<NodeId, V>, s: set<NodeId>): map<NodeId, V> {
    map n | n in m && n !in s :: m[n]
  }

  lemma DropTwice<V>(m: map<NodeId, V>, s1: set<NodeId>, s2: set<NodeId>)
    ensures Drop(Drop(m, s1), s2) == Drop(m, s1 + s2)
  {
  }

  /** The child lists of the nodes outside `s`, each without the nodes of `s`. */
  function DropChildren(children: map<NodeId, seq<NodeId>>, s: set<NodeId>): map<NodeId, seq<NodeId>> {
    map n | n in children && n !in s :: Without(children[n], s)
  }

  lemma DropChildrenTwice(children: map<NodeId, seq<NodeId>>, s1: set<NodeId>, s2: set<NodeId>)
    ensures DropChildren(DropChildren(children, s1), s2) == DropChildren(children, s1 + s2)
  {
    forall n | n in children && n !in s1 + s2 {
      WithoutTwice(children[n], s1, s2);
    }
  }

  /** Removal keeps the ancestry of the nodes that stay. */
  lemma {:induction false} RemoveSetAncestor(t: Tree, s: set<NodeId>, a: NodeId, n: NodeId)
    requires Valid(t) && DownClosed(t, s) && n in t.height && n !in s
    ensures IsAncestorOrSelf(RemoveSet(t, s), a, n) == IsAncestorOrSelf(t, a, n)
    decreases t.height[n]
  {
    if n in t.parent {
      RemoveSetAncestor(t, s, a, t.parent[n]);
    }
  }

  lemma RemoveSetSubtree(t: Tree, s: set<NodeId>, a: NodeId)
    requires Valid(t) && DownClosed(t, s)
    ensures Subtree(RemoveSet(t, s), a) == Subtree(t, a) - s
  {
    forall n | n in t.height && n !in s ensures IsAncestorOrSelf(RemoveSet(t, s), a, n) == IsAncestorOrSelf(t, a, n) {
      RemoveSetAncestor(t, s, a, n);
    }
  }

  lemma RemoveSetTwiceClosed(t: Tree, s1: set<NodeId>, s2: set<NodeId>)
    requires Valid(t) && DownClosed(t, s1) && DownClosed(RemoveSet(t, s1), s2)
    ensures DownClosed(t, s1 + s2)
  {
    var t1 := RemoveSet(t, s1);
    forall n | n in t.parent && t.parent[n] in s1 + s2 ensures n in s1 + s2 {
      if n !in s1 && t.parent[n] !in s1 {
        assert n in t1.parent && t1.parent[n] == t.parent[n];
      }
    }
  }

  lemma RemoveSetNothing(t: Tree)
    requires Valid(t)
    ensures DownClosed(t, {}) && RemoveSet(t, {}) == t
  {
    forall n | n in t.children ensures Without(t.children[n], {}) == t.children[n] {
      WithoutNothing(t.children[n], {});
    }
    assert DropChildren(t.children, {}) == t.children;
    assert Drop(t.parent, {}) == t.parent;
    assert Drop(t.height, {}) == t.height;
  }

  /** Removing `s1` and then `s2` is removing both at once. */
  lemma RemoveSetTwice(t: Tree, s1: set<NodeId>, s2: set<NodeId>)
    requires Valid(t) && DownClosed(t, s1) && DownClosed(RemoveSet(t, s1), s2)
    ensures DownClosed(t, s1 + s2) && RemoveSet(RemoveSet(t, s1), s2) == RemoveSet(t, s1 + s2)
  {
    RemoveSetTwiceClosed(t, s1, s2);
    RemoveSetTwiceParts(t, s1, s2);
  }

  lemma RemoveSetTwiceParts(t: Tree, s1: set<NodeId>, s2: set<NodeId>)
    requires Valid(t) && DownClosed(t, s1) && DownClosed(RemoveSet(t, s1), s2) && DownClosed(t, s1 + s2)
    ensures RemoveSet(RemoveSet(t, s1), s2) == RemoveSet(t, s1 + s2)
  {
    DropTwice(t.parent, s1, s2);
    DropTwice(t.height, s1, s2);
    DropChildrenTwice(t.children, s1, s2);
  }

  /** `tree.remove(x)`: `x` and its whole subtree go, and `x` leaves its parent's child list. */
  function Remove(t: Tree, x: NodeId): (r: Tree)
    requires Valid(t)
    ensures Valid(r) && r.height.Keys == t.height.Keys - Subtree(t, x)
  {
    SubtreeDownClosed(t, x);
    RemoveSet(t, Subtree(t, x))
  }

  // ---------------------------------------------------------------------------------------------
  // Insertion

  /** `tree.create_node(id)`: a new parentless node at height 0. */
  function CreateNode(t: Tree, id: NodeId): (r: Tree)
    requires Valid(t) && id !in t.height
    ensures Valid(r) && r.height.Keys == t.height.Keys + {id}
    ensures id !in r.parent && r.children[id] == [] && r.height[id] == 0
  {
    Tree(t.parent, t.children[id := []], t.height[id := 0])
  }

  /** Heights after hanging the parentless `c` below `q`: its whole subtree moves down. */
  function Shifted(t: Tree, c: NodeId, delta: nat): map<NodeId, nat>
    requires Valid(t)
  {
    map n | n in t.height :: if IsAncestorOrSelf(t, c, n) then t.height[n] + delta else t.height[n]
  }

  /** Can the parentless `c` be hung below `q` without a cycle? */
  predicate CanAttach(t: Tree, q: NodeId, c: NodeId)
    requires Valid(t)
  {
    q in t.height && c in t.height && c !in t.parent && !IsAncestorOrSelf(t, c, q)
  }

  lemma InsertKeepsNoDup(s: seq<NodeId>, k: nat, c: NodeId)
    requires k <= |s| && NoDup(s) && c !in s
    ensures NoDup(s[..k] + [c] + s[k..])
  {
    var r := s[..k] + [c] + s[k..];
    forall i, j | 0 <= i < j < |r| ensures r[i] != r[j] {
      if i < k && j > k {
        assert r[i] == s[i] && r[j] == s[j - 1];
      } else if i > k {
        assert r[i] == s[i - 1] && r[j] == s[j - 1];
      } else if i == k {
        assert r[j] == s[j - 1];
      } else if j == k {
        assert r[i] == s[i];
      }
    }
  }

  /** The tree with the parentless `c` hung into `q`'s child list at position `k`. */
  lemma InsertAtValid(t: Tree, q: NodeId, k: nat, c: NodeId)
    requires Valid(t) && CanAttach(t, q, c) && k <= |t.children[q]|
    ensures var s := t.children[q];
      Valid(Tree(t.parent[c := q], t.children[q := s[..k] + [c] + s[k..]], Shifted(t, c, t.height[q] + 1)))
  {
    var s := t.children[q];
    var s' := s[..k] + [c] + s[k..];
    var r := Tree(t.parent[c := q], t.children[q := s'], Shifted(t, c, t.height[q] + 1));
    assert c !in s;
    InsertKeepsNoDup(s, k, c);
    assert forall x :: x in s' <==> x == c || x in s;
    forall p, x | p in r.children && x in r.children[p] ensures x in r.parent && r.parent[x] == p {
      if p == q {
        assert x == c || x in t.children[q];
      } else {
        assert x in t.children[p];
      }
    }
    forall x | x in r.parent ensures x in r.children[r.parent[x]] {
      if x != c {
        assert x in t.children[t.parent[x]];
      }
    }
    forall x | x in r.parent ensures r.height[x] == r.height[r.parent[x]] + 1 {
      if x == c {
        assert !IsAncestorOrSelf(t, c, q);
      } else {
        assert t.height[x] == t.height[t.parent[x]] + 1;
        assert IsAncestorOrSelf(t, c, x) <==> IsAncestorOrSelf(t, c, t.parent[x]);
      }
    }
    forall x | x in r.height && x !in r.parent ensures r.height[x] == 0 {
      assert x != c && x !in t.parent;
      assert !IsAncestorOrSelf(t, c, x);
    }
  }

  /** Hang the parentless `c` into `q`'s child list at position `k`. */
  function InsertAt(t: Tree, q: NodeId, k: nat, c: NodeId): (r: Tree)
    requires Valid(t) && CanAttach(t, q, c) && k <= |t.children[q]|
    ensures Valid(r) && r.height.Keys == t.height.Keys
    ensures r.parent == t.parent[c := q]
    ensures r.children == t.children[q := t.children[q][..k] + [c] + t.children[q][k..]]
    ensures r.height[c] == t.height[q] + 1
    ensures forall n :: n in t.height && n !in Subtree(t, c) ==> r.height[n] == t.height[n]
  {
    InsertAtValid(t, q, k, c);
    Tree(t.parent[c := q], t.children[q := t.children[q][..k] + [c] + t.children[q][k..]], Shifted(t, c, t.height[q] + 1))
  }

  /** `tree.add_child(p, c)`: `c` becomes `p`'s last child. */
  function AddChild(t: Tree, p: NodeId, c: NodeId): (r: Tree)
    requires Valid(t) && CanAttach(t, p, c)
    ensures Valid(r) && r.height.Keys == t.height.Keys
    ensures r.parent == t.parent[c := p] && r.children == t.children[p := t.children[p] + [c]]
    ensures forall n :: n in t.height && n !in Subtree(t, c) ==> r.height[n] == t.height[n]
  {
    var s := t.children[p];
    assert s[..|s|] + [c] + s[|s|..] == s + [c];
    InsertAt(t, p, |s|, c)
  }

  function IndexOf(s: seq<NodeId>, x: NodeId): (k: nat)
    requires x in s
    ensures k < |s| && s[k] == x && x !in s[..k]
  {
    if s[0] == x then 0 else 1 + IndexOf(s[1..], x)
  }

  /** `tree.insert_before(sibling, c)`: `c` goes right before `sibling` in their parent's child list. */
  function InsertBefore(t: Tree, sibling: NodeId, c: NodeId): (r: Tree)
    requires Valid(t) && sibling in t.parent && CanAttach(t, t.parent[sibling], c)
    ensures Valid(r) && r.height.Keys == t.height.Keys && r.parent == t.parent[c := t.parent[sibling]]
    ensures var s := t.children[t.parent[sibling]]; var k := IndexOf(s, sibling);
      r.children == t.children[t.parent[sibling] := s[..k] + [c, sibling] + s[k + 1..]]
  {
    var s := t.children[t.parent[sibling]];
    var k := IndexOf(s, sibling);
    assert s[..k] + [c] + s[k..] == s[..k] + [c, sibling] + s[k + 1..];
    InsertAt(t, t.parent[sibling], k, c)
  }

  /** `tree.insert_after(sibling, c)`: `c` goes right after `sibling` in their parent's child list. */
  function InsertAfter(t: Tree, sibling: NodeId, c: NodeId): (r: Tree)
    requires Valid(t) && sibling in t.parent && CanAttach(t, t.parent[sibling], c)
    ensures Valid(r) && r.height.Keys == t.height.Keys && r.parent == t.parent[c := t.parent[sibling]]
    ensures var s := t.children[t.parent[sibling]]; var k := IndexOf(s, sibling);
      r.children == t.children[t.parent[sibling] := s[..k] + [sibling, c] + s[k + 1..]]
  {
    var s := t.children[t.parent[sibling]];
    var k := IndexOf(s, sibling);
    assert s[..k + 1] + [c] + s[k + 1..] == s[..k] + [sibling, c] + s[k + 1..];
    InsertAt(t, t.parent[sibling], k + 1, c)
  }

  // ---------------------------------------------------------------------------------------------
  // Growth that leaves the existing nodes alone (what cloning a subtree does)

  /** `t2` has every node of `t1` with the same parent, children and height. */
  ghost predicate Extends(t2: Tree, t1: Tree) {
    && (forall n :: n in t1.height ==> n in t2.height && t2.height[n] == t1.height[n])
    && (forall n :: n in t1.children ==> n in t2.children && t2.children[n] == t1.children[n])
    && (forall n :: n in t1.height ==> (n in t2.parent <==> n in t1.parent))
    && (forall n :: n in t1.parent ==> n in t2.parent && t2.parent[n] == t1.parent[n])
  }

  lemma {:induction false} ExtendsAncestor(t2: Tree, t1: Tree, a: NodeId, n: NodeId)
    requires Valid(t1) && Valid(t2) && Extends(t2, t1) && n in t1.height
    ensures IsAncestorOrSelf(t2, a, n) == IsAncestorOrSelf(t1, a, n)
    decreases t1.height[n]
  {
    if n in t1.parent {
      ExtendsAncestor(t2, t1, a, t1.parent[n]);
    }
  }

  /** A node added by the growth never lies below an old node. */
  lemma {:induction false} ExtendsNewBelowNew(t2: Tree, t1: Tree, a: NodeId, n: NodeId)
    requires Valid(t1) && Valid(t2) && Extends(t2, t1) && n in t2.height && n !in t1.height
    requires a in t1.height
    ensures !IsAncestorOrSelf(t2, a, n)
    decreases t2.height[n]
  {
    if n in t2.parent {
      var p := t2.parent[n];
      if p in t1.height {
        assert false;
      }
      ExtendsNewBelowNew(t2, t1, a, p);
    }
  }

  /** The subtree of an old node is the same after growth. */
  lemma ExtendsSubtree(t2: Tree, t1: Tree, a: NodeId)
    requires Valid(t1) && Valid(t2) && Extends(t2, t1) && a in t1.height
    ensures Subtree(t2, a) == Subtree(t1, a)
  {
    forall n | n in t2.height ensures IsAncestorOrSelf(t2, a, n) == (n in t1.height && IsAncestorOrSelf(t1, a, n)) {
      if n in t1.height {
        ExtendsAncestor(t2, t1, a, n);
      } else {
        ExtendsNewBelowNew(t2, t1, a, n);
      }
    }
  }

  /** The subtree of a new node holds only new nodes. */
  lemma NewSubtreeIsNew(t2: Tree, t1: Tree, a: NodeId)
    requires Valid(t1) && Valid(t2) && Extends(t2, t1) && a in t2.height && a !in t1.height
    ensures Subtree(t2, a) !! t1.height.Keys
  {
    forall n | n in t1.height && IsAncestorOrSelf(t2, a, n) ensures false {
      ExtendsAncestor(t2, t1, a, n);
      AncestorIsAbove(t1, a, n);
    }
  }

  /** Creating a node with a fresh id only adds to the tree. */
  lemma CreateNodeExtends(t: Tree, id: NodeId)
    requires Valid(t) && id !in t.height
    ensures Extends(CreateNode(t, id), t)
  {
  }

  /** Hanging one new node below another only adds to the tree the two grew from. */
  lemma AddChildExtends(t: Tree, t0: Tree, p: NodeId, c: NodeId)
    requires Valid(t) && Valid(t0) && Extends(t, t0) && CanAttach(t, p, c) && p !in t0.height && c !in t0.height
    ensures Extends(AddChild(t, p, c), t0)
  {
    var r := AddChild(t, p, c);
    AddChildKeepsOldHeights(t, t0, p, c);
    ExtendsByParts(r, t, t0, p, c, t.children[p] + [c]);
  }

  lemma ExtendsByParts(r: Tree, t: Tree, t0: Tree, p: NodeId, c: NodeId, cs: seq<NodeId>)
    requires Extends(t, t0) && t0.children.Keys == t0.height.Keys && t0.parent.Keys <= t0.height.Keys
    requires p !in t0.height && c !in t0.height
    requires r.parent == t.parent[c := p] && r.children == t.children[p := cs]
    requires forall n :: n in t0.height ==> n in r.height && r.height[n] == t0.height[n]
    ensures Extends(r, t0)
  {
  }

  lemma AddChildKeepsOldHeights(t: Tree, t0: Tree, p: NodeId, c: NodeId)
    requires Valid(t) && Valid(t0) && Extends(t, t0) && CanAttach(t, p, c) && c !in t0.height
    ensures forall n :: n in t0.height ==> AddChild(t, p, c).height[n] == t0.height[n]
  {
    NewSubtreeIsNew(t, t0, c);
    forall n | n in t0.height ensures AddChild(t, p, c).height[n] == t0.height[n] {
      assert n !in Subtree(t, c);
    }
  }

  lemma ExtendsTransitive(t3: Tree, t2: Tree, t1: Tree)
    requires Extends(t3, t2) && Extends(t2, t1)
    ensures Extends(t3, t1)
  {
  }
}
