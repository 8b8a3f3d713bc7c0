# Freya's reactive DOM, router query segments and dynamic scroll layout in Dafny

This project models three parts of the Freya GUI toolkit and proves properties of each.

- **`RealDom` (`crates/native-core/src/real_dom.rs`).** This is the retained DOM that the renderer keeps in sync with
  the virtual DOM. The DOM keeps the following state:
  - a tree of nodes;
  - each node's payload (`Element`, `Text` or `Placeholder`);
  - an index from event names to the nodes listening for them;
  - a dirty tracker (`NodesDirty`), which records which state passes must re-run on which nodes and which parts of each
    node changed.

  `RealDom::new` resolves the dependants of every registered pass. It then builds the workload order and creates the
  root. The node handles (`NodeMut`, `ElementNodeMut`, `TextNodeMut`) mutate the DOM and mark exactly the passes that
  the change invalidates. `update_state` drains the tracker into the work set the passes run from.
  `traverse_depth_first_advanced` walks the tree with an explicit stack.
- **Query segments of the router macro (`crates/router-macro/src/query.rs`).**
  - `parse_from_str` turns the query part of a route into either one catch-all segment `:..name` or a list of `:name`
    arguments joined by `&`. Every name must be a field of the route, in field order.
  - `contains_ident` asks whether a name is used.
  - `write` emits the code that prints the query back.
- **The layout cache of the dynamic scroll view
  (`crates/components/src/scroll_views/dynamic_scroll_view.rs`).**
  - It stores an optional measured height per item.
  - It derives total heights.
  - It derives the window of items to render for a scroll position, viewport height and overscan.

The form of each part follows its source:

- **State changed in place:**
  - `NodesDirty` is a class (`Dirty.NodesDirty`).
  - `RealDom` is a class (`RealDoms.RealDom`). Its handle methods are methods of the DOM that take the node's id.
  - The scroll view's `LayoutManager` is a class (`DynamicScrollView.LayoutManager`).
- **Loops:**
  - The dependant resolution of `new` works in place on an array of passes (`Passes.ResolveDependants`).
  - `construct_workload`, `parse_from_str`, `write`, the depth-first traversal and both loops of
    `get_visible_range_and_offset` are methods with `while` loops.
  - Each is proved against an independent specification:
    - the array method against the predicate `Resolved`;
    - `construct_workload` against the set comprehension `AfterEdges`;
    - `parse_from_str`, the traversal and the two scroll loops against the recursive functions
      `ParseQuery`, `VisitNode`, `FirstReaching` and `ViewportEnd`;
    - `write` against the layout of the printed pieces, stated position by position.
- **Values:** the value-level pieces are datatypes and functions: the node masks, the tree, the DOM's state value and the
  query syntax.

Each node handle exists only for a node that is in the DOM. So the methods that model a handle have
`requires id in state.nodes`. `RealDom::get_mut` and `RealDom::get` decide that membership (`Contains`, `Get`).

## Model

| member | source | states |
|---|---|---|
| Dirty.NodesDirty.MarkDirty | crates/native-core/src/real_dom.rs:86-98 | Adds to the node's stale passes exactly the passes whose mask overlaps the given mask. Merges the mask into the node's recorded mask. Nothing else changes. |
| Dirty.NodesDirty.MarkParentAddedOrRemoved | crates/native-core/src/real_dom.rs:101-109 | Adds to the node's stale passes every pass that some pass declares as a parent dependency. The masks and the created set are unchanged. |
| Dirty.NodesDirty.MarkChildChanged | crates/native-core/src/real_dom.rs:112-120 | Adds to the node's stale passes every pass that some pass declares as a child dependency. The masks and the created set are unchanged. |
| Dirty.NodesDirty.MarkCreated | crates/native-core/src/real_dom.rs:213-230 | A new node gets every registered pass, the full mask, and membership of the created set. |
| Dirty.NodesDirty.Drain | crates/native-core/src/real_dom.rs:326-327 | Returns both dirty maps and leaves them empty (`std::mem::take`). |
| Dirty.OverlappingIdsIff | crates/native-core/src/real_dom.rs:87-91 | A type id is marked if and only if some pass of that type has a mask sharing a category with the change. |
| Dirty.OverlappingIdsBounds | crates/native-core/src/real_dom.rs:87-91 | Only registered passes are marked. A mask covering nothing marks nothing. |
| Dirty.OverlappingIdsUnion | crates/native-core/src/real_dom.rs:86-98 | Marking the union of two masks marks the union of what each mask marks. |
| Dirty.AddPassesEffect | crates/native-core/src/real_dom.rs:87 | `entry(..).or_default().extend(..)` creates the entry, grows it by the ids, and leaves every other node alone. |
| Dirty.AddToAllTwice | crates/native-core/src/real_dom.rs:651-654 | Marking two node sets one after the other is marking their union. |
| Dirty.MergeMaskCovers | crates/native-core/src/real_dom.rs:92-97 | After a merge, the node's mask covers a category if and only if the old mask or the new mask covered it. |
| Dirty.MergeMaskTwice | crates/native-core/src/real_dom.rs:92-97 | Two merges on a node are one merge of the union. |
| NodeMasks.Union | crates/native-core/src/real_dom.rs:94 | The union covers exactly the categories that either mask covers. |
| NodeMasks.AttributeMaskOf | crates/native-core/src/real_dom.rs:849 | The mask of one attribute covers that attribute and nothing else. |
| NodeMasks.TextMask | crates/native-core/src/real_dom.rs:789 | The text mask covers only the text. |
| NodeMasks.ListenersMask | crates/native-core/src/real_dom.rs:672 | The listeners mask covers only the listeners. |
| NodeMasks.OverlapsIffSharedCategory | crates/native-core/src/real_dom.rs:90 | Two masks overlap if and only if some category is covered by both. |
| NodeMasks.OverlapsUnion | crates/native-core/src/real_dom.rs:90-94 | Overlap distributes over union and is symmetric. |
| NodeMasks.AllAndEmpty | crates/native-core/src/real_dom.rs:220 | `ALL` covers every category and the empty mask covers none. |
| Passes.ResolveDependants | crates/native-core/src/real_dom.rs:147-198 | After the in-place loop, every pass holds exactly the dependants the specification `Resolved` assigns it. |
| Passes.InvertedIff | crates/native-core/src/real_dom.rs:150-178 | A dependant is collected for pass q if and only if some other pass of that descriptor declares q's type in the given relation. |
| Passes.NodeDependantIff | crates/native-core/src/real_dom.rs:172-177 | q's node dependants are exactly the types of the other passes that declare q's type as a node dependency. |
| Passes.ResolutionComplete | crates/native-core/src/real_dom.rs:158-177 | Every declared parent, child or node dependency on q's type makes the declaring pass a dependant of q on the matching side. |
| Passes.ResolvedChildSound | crates/native-core/src/real_dom.rs:158-165 | q's child dependants are exactly the ones it started with, the passes that declare a parent dependency on q's type, and q itself when it runs `ParentToChild`. |
| Passes.ResolvedParentSound | crates/native-core/src/real_dom.rs:166-171 | q's parent dependants are exactly the ones it started with, the passes that declare a child dependency on q's type, and q itself when it runs `ChildToParent`. |
| Passes.SelfEdges | crates/native-core/src/real_dom.rs:179-197 | When type ids are unique and start empty, the dependant lists hold no duplicates. A pass is its own child dependant if and only if it runs parent to child, and its own parent dependant if and only if it runs child to parent. |
| Passes.AddUnique | crates/native-core/src/real_dom.rs:162-164 | Pushing when absent adds the element once, keeps a duplicate-free list duplicate-free, and leaves a list that already holds the element unchanged. |
| Passes.FindPass | crates/native-core/src/real_dom.rs:905-908 | Returns the first pass of the type, or None exactly when no pass has that type. |
| Passes.ConstructWorkload | crates/native-core/src/real_dom.rs:883-920 | Fails exactly when some pass depends on an unregistered type, the `unwrap` that panics. Otherwise each pass runs after exactly the passes its combined dependencies name. |
| Passes.AfterEdgesIff | crates/native-core/src/real_dom.rs:901-914 | With unique type ids, pass i runs after pass j if and only if i depends on j's type. |
| Passes.AfterEdgesCover | crates/native-core/src/real_dom.rs:901-914 | Every registered dependency of a pass appears among the passes it runs after. |
| Passes.FirstOfTypeUnique | crates/native-core/src/real_dom.rs:905-908 | `find` picks a single pass for each type. |
| RealDoms.ResolvedDescriptors | crates/native-core/src/real_dom.rs:147-199 | Resolution changes only the dependants. The type ids, the registered types, the combined dependencies and so the workload order are those of the declarations. |
| RealDoms.ResolvePasses | crates/native-core/src/real_dom.rs:145-200 | The resolved passes are those `Resolved` specifies, and the workload is the `AfterEdges` order of the declared passes. |
| RealDoms.RealDom.constructor | crates/native-core/src/real_dom.rs:144-235 | The DOM holds only the root element in its tree. The root is dirty for every pass and the full mask, and is the only created node. The listener index is empty. |
| RealDoms.RealDom.CreateNode | crates/native-core/src/real_dom.rs:253-269 | Adds one fresh node with the payload and no parent. Marks the node dirty for every pass and the full mask, and records it as created. |
| RealDoms.RealDom.IsNodeListening | crates/native-core/src/real_dom.rs:271-276 | True if and only if the index files the node under the event. With a consistent index, this is if and only if the node's payload listens for it. |
| RealDoms.RealDom.GetListeners | crates/native-core/src/real_dom.rs:278-287 | Lists each indexed node once. With a consistent index, these are exactly the nodes whose payload listens for the event. |
| RealDoms.RealDom.Contains | crates/native-core/src/real_dom.rs:295-297 | True if and only if the node is in the DOM. |
| RealDoms.RealDom.Get | crates/native-core/src/real_dom.rs:300-302 | Some exactly for nodes of the DOM, carrying their payload. |
| RealDoms.RealDom.GetMut | crates/native-core/src/real_dom.rs:564-578 | Marks the component's pass stale on the node, whether or not the component is there. Reports whether it is there. |
| RealDoms.RealDom.Insert | crates/native-core/src/real_dom.rs:584-593 | The node gains the component, and the component's pass is marked stale on it. |
| RealDoms.RealDom.AddChild | crates/native-core/src/real_dom.rs:597-601 | The child becomes the parent's last child. The parent gets the child-dependent passes and the child gets the parent-dependent passes. |
| RealDoms.RealDom.InsertAfter | crates/native-core/src/real_dom.rs:605-613 | The node is placed right after the sibling, under the sibling's parent. The parent and the node are marked as in `add_child`. |
| RealDoms.RealDom.InsertBefore | crates/native-core/src/real_dom.rs:617-625 | The node is placed right before the sibling, under the sibling's parent. The parent and the node are marked as in `add_child`. |
| RealDoms.RealDom.Remove | crates/native-core/src/real_dom.rs:629-657 | Removes exactly the node's subtree, with the subtree's payloads, components and index entries. Every node that lost a child is marked child-changed. |
| RealDoms.RealDom.RemoveChildren | crates/native-core/src/real_dom.rs:651-654 | The child loop removes exactly the subtrees of all children, and marks each removed node that had children. |
| RealDoms.RealDom.DropListeners | crates/native-core/src/real_dom.rs:638-643 | Takes the node out of the index under each event its payload listens for. |
| RealDoms.RealDom.DeleteLeaf | crates/native-core/src/real_dom.rs:655-656 | Deletes a node whose subtree is itself: its payload, its components and its place in the tree. |
| RealDoms.RealDom.AddEventListener | crates/native-core/src/real_dom.rs:661-685 | On an element, adds the event to its listeners and the node to the index, and marks the listeners dirty. On any other node, nothing changes. A consistent index stays consistent. |
| RealDoms.RealDom.RemoveEventListener | crates/native-core/src/real_dom.rs:689-705 | On an element, removes the event from its listeners and the node from the index, and marks the listeners dirty. On any other node, nothing changes. A consistent index stays consistent. |
| RealDoms.RealDom.SetType | crates/native-core/src/real_dom.rs:731-739 | Replaces the payload and marks everything about the node dirty. |
| RealDoms.RealDom.TextMut | crates/native-core/src/real_dom.rs:787-794 | The text node's text becomes the new text, and the text category is dirty. |
| RealDoms.RealDom.SetAttribute | crates/native-core/src/real_dom.rs:840-854 | Sets the attribute, returns its previous value, and marks that attribute dirty. |
| RealDoms.RealDom.RemoveAttribute | crates/native-core/src/real_dom.rs:857-865 | Removes the attribute, returns its previous value, and marks that attribute dirty. |
| RealDoms.RealDom.GetAttributeMut | crates/native-core/src/real_dom.rs:868-879 | Returns the attribute's current value and marks that attribute dirty, even when it is absent. |
| RealDoms.RealDom.CloneNode | crates/native-core/src/real_dom.rs:744-757 | The DOM only grows, and the new parentless node's subtree has the same shape and payloads as the original's. Only the new nodes are created and marked. |
| RealDoms.RealDom.UpdateState | crates/native-core/src/real_dom.rs:325-349 | Returns the drained masks and empties both maps. The work set holds a (pass, node, height) triple exactly for stale registered passes of nodes still in the tree. |
| RealDoms.RealDom.TraverseDepthFirstAdvanced | crates/native-core/src/real_dom.rs:354-366 | The stack loop visits exactly the pre-order walk that descends only below nodes where `f` says yes. |
| RealDoms.Traverse | crates/native-core/src/real_dom.rs:355-365 | The explicit stack loop equals the recursive pre-order walk `VisitNode`. |
| RealDoms.BuildWorkSet | crates/native-core/src/real_dom.rs:329-339 | The loop over the drained map builds exactly `WorkSet`. |
| RealDoms.Unindex | crates/native-core/src/real_dom.rs:638-643 | The loop over the listeners removes the node from exactly those events' entries. |
| DomStates.RemoveSubtreeSpec | crates/native-core/src/real_dom.rs:629-657 | After removal, the DOM's nodes are the old nodes minus the subtree. The survivors keep their payloads and components, and the tree is the tree's removal. No event key is dropped, and a consistent index stays consistent. |
| DomStates.RemovalMarks | crates/native-core/src/real_dom.rs:645-654 | The nodes marked child-changed are the removed node's parent and every removed node that had children. |
| DomStates.InitialStateWf | crates/native-core/src/real_dom.rs:201-230 | The root-only DOM satisfies the DOM's invariant and has a consistent listener index. |
| DomValues.AddListenerKeepsIndex | crates/native-core/src/real_dom.rs:661-685 | Adding a listener to an element and the node to the index keeps the index consistent with the payloads. |
| DomValues.RemoveListenerKeepsIndex | crates/native-core/src/real_dom.rs:689-705 | Removing a listener and the index entry keeps the index consistent. |
| DomValues.PurgeKeepsIndex | crates/native-core/src/real_dom.rs:638-656 | Taking removed nodes out of the index keeps it consistent with the remaining payloads. |
| DomValues.PurgeOnlyRemoved | crates/native-core/src/real_dom.rs:638-643 | A node leaves an event's entry if and only if it was removed and listened for that event. |
| DomValues.WorkSetIff | crates/native-core/src/real_dom.rs:332-338 | Membership in the work set, read off its definition: a triple is in it if and only if the pass is registered and stale on a node still in the tree at that height (what `update_state` builds is tied to it by `BuildWorkSet`). |
| DomValues.VisitInSubtree | crates/native-core/src/real_dom.rs:354-366 | The traversal only visits nodes below its start. |
| DomValues.VisitNoDup | crates/native-core/src/real_dom.rs:354-366 | The traversal visits no node twice. |
| DomValues.VisitAll | crates/native-core/src/real_dom.rs:369-374 | With `f` always true, as in `traverse_depth_first`, the traversal visits the whole subtree. |
| DomValues.PushChildren | crates/native-core/src/real_dom.rs:361-362 | Pushing the children in reverse makes the stack pop them first to last, each subtree in full before the next. |
| Trees.AddChild | crates/native-core/src/real_dom.rs:597-601 | The tree stays valid. The child gets the parent and is appended to its children. Heights outside the child's subtree are unchanged. |
| Trees.InsertBefore | crates/native-core/src/real_dom.rs:617-625 | The tree stays valid, and the node lands at the sibling's index under the sibling's parent. |
| Trees.InsertAfter | crates/native-core/src/real_dom.rs:605-613 | The tree stays valid, and the node lands right after the sibling under the sibling's parent. |
| Trees.Remove | crates/native-core/src/real_dom.rs:655 | The tree stays valid and loses exactly the node's subtree. |
| Trees.CreateNode | crates/native-core/src/real_dom.rs:209-210 | The tree stays valid and gains a parentless, childless node at height 0. |
| Trees.AllChildSubtrees | crates/native-core/src/real_dom.rs:651-654 | The children's subtrees make up the node's subtree without the node. |
| Trees.SiblingSubtreesDisjoint | crates/native-core/src/real_dom.rs:651-654 | Distinct siblings have disjoint subtrees, so removing one child leaves the others intact. |
| Trees.RemoveSetTwice | crates/native-core/src/real_dom.rs:651-656 | Removing two down-closed node sets in turn is removing their union. |
| Snapshots.CloneDone | crates/native-core/src/real_dom.rs:752-756 | After every child is cloned and attached in order, the copy's subtree has the snapshot of the original. |
| RouterQuery.ParseFromStr | crates/router-macro/src/query.rs:57-115 | The segment loop returns exactly the result of the recursive specification `ParseQuery`. |
| RouterQuery.ParseSegmentsOk | crates/router-macro/src/query.rs:81-113 | The argument list parses if and only if every segment is a non-empty `:name` and the names occur among the fields in that order. |
| RouterQuery.ParseSegmentsShape | crates/router-macro/src/query.rs:102-105 | A successful parse yields one argument per segment, named after the segment, with the type of a field of that name. |
| RouterQuery.OrderRequired | crates/router-macro/src/query.rs:91-100 | Because the field iterator is shared, naming fields out of their declaration order is an error, even when every name exists. When every segment is `:name`, that error is "Could not find a field with the name …" for one of the segments. |
| RouterQuery.WellFormedFailsNotFound | crates/router-macro/src/query.rs:89-100 | When every segment is `:` and an identifier, a failed parse is always the not-found error for one of the segments: the shared `find` running out is the only way left to fail. |
| RouterQuery.EmptySegmentRejected | crates/router-macro/src/query.rs:83-88 | Any empty `&`-segment makes the list form fail. |
| RouterQuery.EmptyQuery | crates/router-macro/src/query.rs:82-88 | The empty query is the empty-segment error. |
| RouterQuery.FirstSegmentErrors | crates/router-macro/src/query.rs:82-111 | A defect of the first segment decides the error, in this order: empty segment, then no colon, then an invalid name. |
| RouterQuery.ContainsIdentIff | crates/router-macro/src/query.rs:15-22 | For a parsed query, `contains_ident` holds exactly for the names written in the query. |
| RouterQuery.FindFrom | crates/router-macro/src/query.rs:65 | `find` returns the first field at or after the iterator's position with that name, or None when there is none. |
| RouterQuery.Split | crates/router-macro/src/query.rs:82 | `split` yields at least one piece, and no piece contains the separator. |
| RouterQuery.JoinSplit | crates/router-macro/src/query.rs:82 | Joining the pieces of a split gives back the string. |
| RouterQuery.SplitJoin | crates/router-macro/src/query.rs:82 | Splitting a join of separator-free pieces gives back the pieces. |
| RouterQuery.IdentHasNoAmpersand | crates/router-macro/src/query.rs:64 | A valid identifier never contains `&`. |
| RouterQuery.Write | crates/router-macro/src/query.rs:38-55 | A catch-all writes its one segment. A list writes `?`, then the arguments in order with `&` between neighbours. |
| RouterQuery.RenderLayout | crates/router-macro/src/query.rs:43-51 | The printed text is `?` followed by the `name=value` pairs joined with `&`. |
| RouterQuery.WriteReadsBack | crates/router-macro/src/query.rs:162-169 | When no value contains `&`, splitting the printed text after `?` at `&` gives back the `name=value` pairs in order. |
| DynamicScrollView.LayoutManager.constructor | crates/components/src/scroll_views/dynamic_scroll_view.rs:36-41 | Starts with `length` unmeasured items and the given default height. |
| DynamicScrollView.LayoutManager.GetItemHeight | crates/components/src/scroll_views/dynamic_scroll_view.rs:44-50 | Returns the measured height of an in-range measured item, and the default height otherwise, including out of range. |
| DynamicScrollView.LayoutManager.SetItemHeight | crates/components/src/scroll_views/dynamic_scroll_view.rs:53-57 | Records the height of an in-range item. An out-of-range index changes nothing. |
| DynamicScrollView.LayoutManager.GetTotalHeight | crates/components/src/scroll_views/dynamic_scroll_view.rs:60-65 | The total is the sum of all effective heights, which is the prefix sum over all items. |
| DynamicScrollView.LayoutManager.GetVisibleRangeAndOffset | crates/components/src/scroll_views/dynamic_scroll_view.rs:68-118 | Returns the empty range and offset 0 when no item reaches the scroll position. Otherwise the start is the first item whose bottom reaches `-scroll_y`, less the overscan and saturating. The end is the first item filling the viewport from that item, plus the overscan, capped at the length. The offset is the top of the rendered start. |
| DynamicScrollView.LayoutManager.FindStart | crates/components/src/scroll_views/dynamic_scroll_view.rs:80-91 | The first loop finds the first item whose bottom reaches `-scroll_y`, together with its top. |
| DynamicScrollView.LayoutManager.FindEnd | crates/components/src/scroll_views/dynamic_scroll_view.rs:98-107 | The second loop stops at the first item after which the heights from the start item reach the viewport height, or at the end. |
| DynamicScrollView.FirstReaching | crates/components/src/scroll_views/dynamic_scroll_view.rs:80-91 | The found item's bottom reaches the target and no earlier bottom does. None means no bottom does. |
| DynamicScrollView.ViewportEnd | crates/components/src/scroll_views/dynamic_scroll_view.rs:98-107 | The end is at or past the first item. Either it is the length or the heights from the start reach the viewport, and no earlier end does. |
| DynamicScrollView.RangeSumIsDifference | crates/components/src/scroll_views/dynamic_scroll_view.rs:113-115 | The overscan offset is the difference of two prefix sums, so the returned offset is the top of the rendered start. |
| DynamicScrollView.SumIsPrefix | crates/components/src/scroll_views/dynamic_scroll_view.rs:60-65 | The front-to-back total equals the prefix sum over all items. |
| DynamicScrollView.NewTotal | crates/components/src/scroll_views/dynamic_scroll_view.rs:36-41 | A new cache of n items totals n times the default height. |
| DynamicScrollView.DefaultCache | crates/components/src/scroll_views/dynamic_scroll_view.rs:23 | With the default height of 25, every unmeasured item reads as 25 and a fresh cache of n items is 25·n high. |
| DynamicScrollView.SetThenGet | crates/components/src/scroll_views/dynamic_scroll_view.rs:44-57 | After a set, the item reads back the new height and every other item is unchanged. |
| DynamicScrollView.SetTotal | crates/components/src/scroll_views/dynamic_scroll_view.rs:53-65 | A set changes the total by the new height minus the old effective height. |
| DynamicScrollView.PrefixMonotone | crates/components/src/scroll_views/dynamic_scroll_view.rs:80-91 | With non-negative heights, item tops never decrease. |
| DynamicScrollView.NothingVisible | crates/components/src/scroll_views/dynamic_scroll_view.rs:93-95 | With non-negative heights, the empty range comes back if and only if there are no items or the content ends above `-scroll_y`. |
| DynamicScrollView.RenderedWindow | crates/components/src/scroll_views/dynamic_scroll_view.rs:79-115 | The start item straddles the top of the viewport, and the rendered items begin at or above it. The items from it on fill the viewport height unless they run out. |

## Left out

- **ECS internals.** The shipyard world's component storage, borrows, `raw_world`, `tree_ref` and `tree_mut` are not
  modelled. A component other than the node payload is modelled by its presence, as a set of (node, type id) pairs.
  Component values and the state passes' own computations are not part of this model.
- **`tree.rs` is not part of this model.** The tree is modelled by what `real_dom.rs` relies on: parent, ordered
  children and heights, kept valid by `create_node`, `add_child`, `insert_before`, `insert_after` and `remove`.
- **Workload execution.** The built workload is not executed: `build().unwrap()` and `run_with_world`. The model keeps
  the order `construct_workload` asks for. The context map `ctx` handed to `update_state` is not modelled.
- **`NodeMaskBuilder` and `node_ref.rs` are not part of this model.** A mask is modelled by what it covers:
  - all attributes, or a set of attribute names;
  - text;
  - listeners.
  The tag and namespace parts of a mask are not modelled.
- **`DirtyNodeStates` is not part of this model.** `DirtyNodeStates::insert` is modelled as recording the triple for
  registered passes.
- RealDoms.RealDom.TraverseDepthFirstAdvanced: `f` is a pure function of the node id. Side effects of the `FnMut`
  closure are not modelled.
- RealDoms.RealDom.TextMut: the caller's edit through the returned `&mut String` is a parameter, the new text.
- RealDoms.RealDom.GetAttributeMut: writes through the returned reference are not modelled. `SetAttribute` is the write.
- **Entity ids.** Shipyard may reuse the ids of deleted entities. The model hands out fresh ids from a counter.
- RealDoms.RealDom.InsertAfter: requires the sibling to have a parent. The source marks nothing when there is none,
  and what `tree.rs` then does is not part of this model. The same holds for RealDoms.RealDom.InsertBefore.
- RealDoms.RealDom.AddChild: requires the child to be detached and not an ancestor of the parent. `tree.rs` is not part
  of this model, so what happens otherwise is unknown. The same holds for the two insert methods.
- RealDoms.RealDom.CreateNode: the listener index is claimed consistent afterwards only for a payload without listeners.
  The source does not file a new payload's listeners in the index. The same holds for RealDoms.RealDom.SetType, which
  claims it only when the listeners do not change, and for RealDoms.RealDom.CloneNode, which does not claim it.
- RealDoms.RealDom.CloneNode: the stale passes recorded on the new nodes are bounded, not pinned. They lie between all
  registered passes and those plus the parent- and child-dependent passes that attaching adds. The order in which ids
  are handed out within the copy is not pinned either.
- RealDoms.RealDom.Remove: requires every event a removed node listens for to be a key of the index. That is the
  `unwrap` at lines 638-643. RealDoms.RealDom.RemoveEventListener likewise requires the key at line 703.
- Passes.ConstructWorkload: returns None where the source panics (`find(..).unwrap()` of an unregistered dependency).
- **`deep_clone_node`, `root_id`, `node_type_mut` and the `NodeImmutable` accessors** (`children`, `parent`, `height`)
  are thin wrappers over modelled operations or over the tree, and are not separate members.
- **Floating point.** Heights, scroll positions and offsets are `real`. `f32` rounding, infinities and NaN are not
  modelled. Non-negative heights are a hypothesis of the lemmas that need them, not of the operations.
- **The component around the scroll view.** The rsx tree, hooks, signals and event handlers of `DynamicScrollView` are
  not modelled, only its `LayoutManager`.
- DynamicScrollView.LayoutManager.GetVisibleRangeAndOffset: the second loop measures the viewport from the top of the
  start item, not from the scroll position. The model states this behaviour as written.
- **Token generation.** `quote!` and the `parse` methods of the router macro are not modelled. `write` is modelled as
  the sequence of pieces it prints. The value printed for an argument (`to_string` and `urlencoding::encode`) is a
  parameter function. `parse` is not modelled: it generates code that reads the query at run time.
- RouterQuery.IsIdent: `Ident::new` accepts Unicode XID identifiers. The model accepts ASCII identifiers (letter or `_`,
  then letters, digits or `_`). Where `Ident::new` panics, the model returns an `InvalidIdent` error.
- **Spans and error text.** `syn::Error` spans are not modelled. The errors carry their message text only.
