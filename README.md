# btwm layout engine and key matching, in Dafny

btwm is a small tiling window manager for X11. This project models its
layout engine and its key matching, and proves properties of both.

The layout engine is a tree. A `layout_container` holds an ordered list of
nodes and a split strategy:

- `layout_vsplit` lays its children out left to right;
- `layout_hsplit` lays them out top to bottom.

A `layout_leave` holds one window. On this tree the engine implements:

- partitioning a rectangle among children;
- directional focus;
- directional moves of a window, including the escalation that re-homes a
  window in an outer container and, at the top, splits the root;
- removal of a window, which prunes emptied containers;
- the membership test.

The key matching is `key_match`: an include mask and an exclude mask of X
modifiers, tested against the modifier state of a key press. `grab_key`
enumerates every 8-bit modifier state that a key match accepts.

The project has four modules:

- `Strategy` (strategy.dfy) holds the two split strategies. These are
  `resize`'s partition, `focus`'s choice of sibling, and `move` and
  `insert` as edits of the child list. They are generic in the child type,
  because the strategies never look inside a child.
- `Layout` (layout.dfy) holds the tree as a datatype. Containers own their
  children by value, so each subtree is a value. The recursive searches
  are functions from the old subtree to the new one: `has_win`,
  `remove_window`, `focus_any`, `focus_window`, the `build_stack` search of
  `move_window` and the root split. The geometry of `resize` is a function
  too. The lemmas here state what each operation does to the windows of
  the tree.
- `LayoutRoot` (layout_root.dfy) holds the root container the window
  manager keeps across events. It is a class whose `split` and `children`
  fields the methods update in place. The methods are `add`, `move`,
  `insert`, `remove_window` (the `remove_if` pass), `resize` (the
  running-offset loop), `has_win`, `focus_any`, `focus_window` and
  `move_window`. Three thin wrappers model what `btwm.cpp` does to the
  root: the split toggle, map and unmap. Each method is proved against the
  function in `Layout` or `Strategy` that specifies it.
- `Keys` (keys.dfy) holds the modifier masks as 32-bit and the event masks
  as 64-bit bit vectors. It also holds the mask operators, `key_match`, the
  `grab_key` loop and the two bindings `btwm.cpp` installs.

Display effects are outputs:

- `resize` returns the `window_to_rect` calls as a list of (window,
  rectangle) pairs, in call order;
- `focus_window` and `focus_any` return the window they hand input focus
  to, if any;
- `grab_key` returns the modifier states it grabs, in call order.

The gap width comes from `config.hpp`, which is not part of this model; it
is a parameter.

Several behaviours of the code are easy to misread:

- `resize` does not give the division remainder to the last child. The
  remainder is left unused after it. For three children of a 1000-wide
  parent with gaps of 10, the children are 326 wide at 0, 336 and 672
  (`Strategy.ThreeChildrenExample`).
- After a root split the old root is not collapsed. Moving A up in
  `Vertical{A, B}` gives `Horizontal{A, Vertical{B}}`
  (`Layout.MoveUpFromVerticalPair`).
- A container whose axis does not match the direction does not evict the
  branch. `insert` returns `could_not_focus` without changing the list,
  and the evicted window travels further up.
- A single-child container is collapsed only by `move_window`, and only
  when the search visits it. `remove_window` never collapses one
  (`Layout.PruneNeverCollapses`). So "no container has a single child"
  is not an invariant of the tree.
- Adding a leaf and removing it again restores the child list only when the
  tree holds no empty container. `Vertical{Vertical{}, A}`, which moving A
  right out of `Vertical{A}` produces, loses its empty container when a
  window B is added and removed again (`Layout.AddThenRemovePrunesEmpty`).

The default `include_mask` of `key_match` is `any` (`AnyModifier`, bit 15).
No 8-bit modifier state has that bit, so a key match that keeps the
default include grabs nothing in `grab_key` and matches no key press
(`Keys.DefaultIncludeBelowByte`). `btwm.cpp` always passes explicit masks.

## Model

| member | source | states |
|---|---|---|
| Strategy.TruncDiv | include/layouts.hpp:232-233 | C++ `int` division truncates toward zero: for a non-negative dividend the quotient is the floor, for a negative one the ceiling |
| Strategy.PartitionSlots | include/layouts.hpp:230-250 | each of `n` children gets the same truncated share of the main axis and the parent's cross axis; child `i` starts at `origin + i * (share + gaps)`; consecutive children are exactly `gaps` apart |
| Strategy.PartitionRemainder | include/layouts.hpp:230-250 | when the gaps fit, the strip left after the last child is exactly the division remainder, so it is smaller than `n` and is not handed to the last child |
| Strategy.TruncatedShare | include/layouts.hpp:243-244 | when the gaps do not fit, the share is non-positive and truncated toward zero, not floored |
| Strategy.TwoChildrenExample | include/layouts.hpp:230-239 | two children of a 1000-wide parent with gaps of 10 get 495 each, the second at 505 |
| Strategy.ThreeChildrenExample | include/layouts.hpp:230-239 | three children of a 1000-wide parent with gaps of 10 get 326 each at 0, 336 and 672 |
| Strategy.FocusTarget | include/layouts.hpp:252-297 | the sibling focused exists iff the direction lies on the main axis and a neighbour exists that way; it is the adjacent index in that direction |
| Strategy.Move | include/layouts.hpp:347-406 | an empty list is the "passed empty vector" error; success iff a neighbour exists along the main axis, and then the two children are exchanged and all others are kept; otherwise the child is removed and `could_not_focus` is returned |
| Strategy.MoveSwaps | include/layouts.hpp:357-374 | a successful move is a swap of adjacent children |
| Strategy.MoveMultiset | include/layouts.hpp:347-406 | a successful move permutes the children; an eviction removes exactly the moved child |
| Strategy.MoveBackRestores | include/layouts.hpp:387-404 | moving the child back in the opposite direction restores the original list |
| Strategy.Insert | include/layouts.hpp:301-345 | an orthogonal direction returns `could_not_focus` with the list untouched; otherwise an index at or past the end is the "index out of range" error, and a valid one puts the leaf at `w` (backwards) or `w + 1` (forwards), with the old list recovered by removing it |
| Strategy.InsertMultiset | include/layouts.hpp:301-345 | a successful insert adds exactly the new child to the multiset of children |
| Layout.HasWinIsMember | include/layouts.hpp:33-35 | `has_win` on a node holds iff the window is among the node's leaves |
| Layout.AnyHasWinIsMember | include/layouts.hpp:220-227 | `has_win` on a child list holds iff the window is among the list's leaves |
| Layout.PruneListLeaves | include/layouts.hpp:212-218 | after `remove_window` the windows are the old ones without every occurrence of `w`, in the old order, and no empty container survives |
| Layout.PruneListEmpty | include/layouts.hpp:217 | `remove_window` reports an empty container iff every window below it was `w` |
| Layout.PruneListAbsent | include/layouts.hpp:212-218 | removing an absent window from a tree without empty containers changes nothing |
| Layout.AddThenRemove | include/layouts.hpp:208-218 | when the list holds no empty container and not `w`, adding a leaf for `w` and removing `w` gives back the old child list |
| Layout.AddThenRemovePrunesEmpty | include/layouts.hpp:212-218 | with an empty container in the list the round trip fails: adding B to `Vertical{Vertical{}, A}` and removing it leaves `Vertical{A}` |
| Layout.PruneNeverCollapses | include/layouts.hpp:212-218 | `remove_window` never collapses a container: a surviving container keeps its split and exactly its pruned children, however few; it is dropped iff it held nothing but `w` |
| Layout.RemoveKeepsSingleChild | include/layouts.hpp:212-218 | example: removing A from `Vertical{A, B}` leaves `Vertical{B}`, not `B` |
| Layout.FocusAnyFirstLeaf | include/layouts.hpp:168-170 | `focus_any` focuses the first window of the subtree, and always focuses one on a tree without empty containers |
| Layout.FocusLoopNearest | include/layouts.hpp:177-206 | `focus_window` focuses the first window of the neighbour in the innermost enclosing container that has a neighbour in the requested direction, and nothing if there is none |
| Layout.FocusLoopAbsent | include/layouts.hpp:177-206 | a search over children that do not hold the window reports `has_not_window` and focuses nothing |
| Layout.FocusLoopFound | include/layouts.hpp:177-206 | a search over children holding the window never reports `has_not_window` |
| Layout.CollapseLeaves | include/layouts.hpp:115-118 | collapsing a single-child container keeps its windows in order |
| Layout.MoveLeafWindows | include/layouts.hpp:126-130 | the strategy move of the leaf holding `w` keeps the multiset of windows, or evicts exactly `w` |
| Layout.InsertLeafWindows | include/layouts.hpp:122-123 | re-inserting the evicted leaf beside its branch puts `w` back, or refuses and leaves the list untouched |
| Layout.MoveLoopWindows | include/layouts.hpp:107-135 | the `build_stack` search reports `has_not_window` iff `w` is absent, and then keeps the windows in order; on success it keeps their multiset; on `could_not_focus` exactly `w` is missing |
| Layout.SplitRootWindows | include/layouts.hpp:136-164 | after the root split the tree holds the old windows, `w` included, and the status is `focus_succeeded` iff `w` was in the tree |
| Layout.MoveWindowPreservesWindows | include/layouts.hpp:105-165 | `move_window` keeps the multiset of windows and succeeds iff the window is in the tree; otherwise it reports `has_not_window` |
| Layout.MoveLoopCollapsesAbsent | include/layouts.hpp:107-135 | a search that does not find the window visits every child container and collapses each one left with a single child |
| Layout.MoveWindowAbsent | include/layouts.hpp:105-139 | `move_window` of an absent window reports `has_not_window`, keeps the root's split and the window order, and leaves no single-child container below the root |
| Layout.MoveWindowRootSplit | include/layouts.hpp:136-164 | when the window is evicted from the whole tree, the old root is kept whole as one child of the new root; the split is `hsplit` for up/down and `vsplit` for left/right; the leaf goes first for up/left and second for down/right |
| Layout.MoveUpFromVerticalPair | include/layouts.hpp:141-147 | moving A up in `Vertical{A, B}` gives `Horizontal{A, Vertical{B}}` |
| Layout.MoveRightFromSingleton | include/layouts.hpp:158-162 | moving A right in `Vertical{A}` gives `Vertical{Vertical{}, A}` |
| Layout.ArrangePlacesEachWindow | include/layouts.hpp:36-38 | `resize` of a subtree places each of its windows exactly once, in depth-first order |
| Layout.ArrangeListPlaces | include/layouts.hpp:230-250 | the placements of a child list are the list's windows in order |
| LayoutRoot.Root.constructor | include/layouts.hpp:91-93 | a new container is a vertical split with no children |
| LayoutRoot.Root.Add | include/layouts.hpp:208 | `add` appends the node after every child; the windows grow by the node's windows at the end |
| LayoutRoot.Root.ToggleSplit | btwm.cpp:180-185 | the split flips, the children are untouched, and the root is laid out again: one placement per window, in depth-first order |
| LayoutRoot.Root.Move | include/layouts.hpp:95-98 | the in-place erase, swap or `pop_back` leaves exactly the child list and signal of the strategy `move`, and an error leaves the list unchanged |
| LayoutRoot.Root.Insert | include/layouts.hpp:100-103 | the in-place insert leaves exactly the child list and signal of the strategy `insert`, and an error leaves the list unchanged |
| LayoutRoot.Root.HasWin | include/layouts.hpp:220-227 | the loop answers true iff the window is among the tree's leaves |
| LayoutRoot.Root.RemoveWindow | include/layouts.hpp:212-218 | the `remove_if` pass leaves the pruned child list, whose windows are the old ones without `w`, in order, with no empty container; it returns true iff no child is left |
| LayoutRoot.Root.Resize | include/layouts.hpp:230-250 | the running-offset loop emits exactly the partition's placements, one per window of the tree, in depth-first order |
| LayoutRoot.Root.FocusAny | include/layouts.hpp:168-170 | the window focused is the first window of the tree, and one is focused whenever the tree is non-empty with no empty container |
| LayoutRoot.Root.FocusWindow | include/layouts.hpp:177-206 | the read-only search focuses what the nearest container able to serve the direction picks, and reports `has_not_window` with no focus for an absent window |
| LayoutRoot.Root.Search | include/layouts.hpp:107-135 | the in-place `build_stack` pass over the root's children leaves the children and signal of the search function |
| LayoutRoot.Root.MoveWindow | include/layouts.hpp:105-165 | the root after `move_window` is the one `Layout.MoveWindow` computes; the multiset of windows is kept; success iff the window was in the tree |
| LayoutRoot.Root.Map | btwm.cpp:256-258 | mapping appends a leaf and lays the root out again, placing the new window last; when the old children held no empty container and not `w`, removing `w` again gives them back |
| LayoutRoot.Root.Unmap | btwm.cpp:261-265 | unmapping prunes the window; only when windows remain is the root laid out and focus handed to its first window; the placements are the remaining windows |
| Keys.RootSelectionBits | btwm.cpp:32 | the events selected on the root are exactly substructure redirect and substructure notify: not key presses, not the root's own structure notifications |
| Keys.ModOr | include/x11.hpp:109-111 | the union of two modifier masks holds both operands |
| Keys.ModAnd | include/x11.hpp:113-115 | the intersection of two modifier masks lies inside both operands |
| Keys.EventOr | include/x11.hpp:105-107 | the union of two event masks holds both operands |
| Keys.ModOrLeast | include/x11.hpp:109-111 | the union is the smallest mask holding both operands |
| Keys.ModAndGreatest | include/x11.hpp:113-115 | the intersection is the largest mask inside both operands |
| Keys.EventOrLeast | include/x11.hpp:105-107 | the event-mask union is the smallest mask holding both operands |
| Keys.ModOrAlgebra | include/x11.hpp:109-111 | `|` on modifier masks is commutative, associative and idempotent, with `none` as identity |
| Keys.ModAndAlgebra | include/x11.hpp:113-115 | `&` on modifier masks is commutative, associative and idempotent, with `none` absorbing |
| Keys.ModMaskAbsorption | include/x11.hpp:109-115 | each modifier-mask operator absorbs the other |
| Keys.EventOrCommutes | include/x11.hpp:105-107 | `|` on event masks is commutative |
| Keys.EventOrAssociates | include/x11.hpp:105-107 | `|` on event masks is associative |
| Keys.EventOrIdempotent | include/x11.hpp:105-107 | `|` on event masks is idempotent, with `no_event` as identity |
| Keys.MatchesWhenHoldingMore | include/x11.hpp:134-136 | holding more modifiers outside `exclude` keeps a match |
| Keys.MatchesWhenReleasing | include/x11.hpp:134-136 | releasing modifiers outside `include` keeps a match |
| Keys.MatchHoldsInclude | include/x11.hpp:134-136 | every matching state holds all of `include` |
| Keys.MatchesUnion | include/x11.hpp:134-136 | `include` joined with `x` matches iff neither `include` nor `x` meets `exclude` |
| Keys.DefaultExcludeIsInclude | include/x11.hpp:131-135 | with the default `exclude` of `none`, matching is the include test alone |
| Keys.DefaultIncludeBelowByte | include/x11.hpp:130-135 | with the default `include` of `any`, no 8-bit modifier state matches |
| Keys.Grabbed | include/x11.hpp:210-222 | the states grabbed below `n` are exactly those the key match accepts, in strictly increasing order |
| Keys.GrabKey | include/x11.hpp:210-222 | the counting loop grabs exactly the accepted states below 256, in increasing order |
| Keys.SuperBindings | btwm.cpp:230-244 | the Super binding ignores Num Lock and Shift but refuses Caps Lock and Control; the Super+Shift binding also needs Shift |

## Left out

- The display calls are not modelled as calls: `XMoveWindow`/`XResizeWindow` behind `window_to_rect`, `XSetInputFocus` behind `set_input_focus`, `XGrabKey`, `XMapWindow` and `raise_window`. Their effects are returned as values, and the X server is outside the model.
- The event loop, the X error handlers, `configure_request` passthrough, `kill_window` and `launch_app` in `btwm.cpp` are I/O plumbing with no layout logic.
- `config.hpp` is not part of this model; `gaps` is a parameter.
- C++ `int` overflow in `resize` is not modelled: coordinates and shares are unbounded integers. The same goes for the `unsigned int` cast of a negative width or height in `window_to_rect`.
- `Layout.MoveWindow`, `LayoutRoot.Root.MoveWindow` and `Strategy.Move` require one of up/down/left/right. With `next`/`prev` the source has no case in the strategy `move` switch or in the root-split switch, so control falls off the end of a non-void function, which is undefined behaviour.
- `Layout.FocusAny`: `front()` of an empty child vector is undefined behaviour in the source. The model focuses nothing there.
- `Layout.SplitRoot`: after `std::move(*this)` the root's vector is moved-from. The model takes it to be empty, as the standard library in practice leaves it, before the two children are added.
- `LayoutRoot.Root.Move` requires a valid index or an empty list. Every caller in the source passes the index of an existing child, and `erase` at an invalid index is undefined behaviour.
- Only the root container is an object. Nested containers are values inside the root's child list, so `LayoutRoot.Root.Search` re-homes a window in a nested container through the `Layout.MoveLoop` function instead of through nested in-place updates.
- `Layout.MoveLoopCollapsesAbsent`: the collapse of visited single-child containers is proved only for a search that does not find the window. When the window is found, the collapse of the containers visited before it is computed but not stated separately.
- The `layout_leave::focus`/`move` templates (include/layouts.hpp:51-60) are never instantiated by the container code, which inspects leaves directly. They are not modelled.
- `key_code` is modelled as a bare 8-bit value, and `x11::window` as a natural number. The key symbols and atoms are lookups through the display and are not modelled.
- `Keys.Matches` is the single definition for both overloads of `matches` and `matches_mod_mask`. The overloads on `mod_mask_base` cast to the enum and keep every bit, so they add nothing.
