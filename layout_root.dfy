/** The root `layout_container` the window manager owns. The root is the one
    container updated in place across events, so it is an object whose
    split and child list the methods reassign; the subtrees below it are
    the values of module Layout, and each method here is proved against
    the function there that specifies it. */
module LayoutRoot {
  import opened Strategy
  import opened Layout

  class Root {
    var split: Split
    var children: seq<Node>

    /** The tree this root stands for. */
    function Tree(): Node
      reads this
    {
      Container(split, children)
    }

    /** A default-constructed `layout_container`: a vertical split, no children. */
    constructor ()
      ensures split == VSplit && children == []
    {
      split := VSplit;
      children := [];
    }

    /** `add`: the node goes after every existing child. */
    method Add(n: Node)
      modifies this
      ensures split == old(split)
      ensures children == old(children) + [n]
      ensures ListLeaves(children) == ListLeaves(old(children)) + Leaves(n)
    {
      ListLeavesAppend(children, [n]);
      ListLeavesCons(n, []);
      assert [n] == [n] + [];
      children := children + [n];
    }

    /** The split toggle bound to a key: vertical becomes horizontal and
        back, then the root is laid out again. */
    method ToggleSplit(r: Rect, gaps: int) returns (placements: seq<(Window, Rect)>)
      modifies this
      ensures split != old(split)
      ensures children == old(children)
      ensures placements == Arrange(Tree(), r, gaps)
      ensures Windows(placements) == ListLeaves(children)
    {
      if split == VSplit {
        split := HSplit;
      } else {
        split := VSplit;
      }
      placements := Resize(r, gaps);
    }

    /** `layout_container::move` on the root, editing the child list in
        place as the strategy does: erase, swap or `pop_back`. */
    method Move(d: Direction, index: nat) returns (r: Result<FocusData>)
      requires Cardinal(d)
      requires children == [] || index < |children|
      modifies this
      ensures split == old(split)
      ensures var e := Strategy.Move(old(split), d, index, old(children));
        && (e.Err? ==> r == Err(e.error) && children == old(children))
        && (e.Ok? ==> r == Ok(e.value.status) && children == e.value.items)
    {
      if children == [] {
        return Err(EmptyVector);
      }
      if Orthogonal(split, d) {
        children := children[..index] + children[index + 1..];
        return Ok(CouldNotFocus);
      }
      if Backward(d) {
        if index == 0 {
          children := children[1..];
          return Ok(CouldNotFocus);
        }
        ghost var prior := children;
        children := children[index := children[index - 1]][index - 1 := children[index]];
        assert children == SwapNext(prior, index - 1);
        return Ok(FocusSucceeded);
      }
      if index + 1 >= |children| {
        children := children[..|children| - 1];
        return Ok(CouldNotFocus);
      }
      ghost var prior := children;
      children := children[index := children[index + 1]][index + 1 := children[index]];
      assert children == SwapNext(prior, index);
      return Ok(FocusSucceeded);
    }

    /** `layout_container::insert` of a leaf for `w` on the root. */
    method Insert(d: Direction, w: Window, index: nat) returns (r: Result<FocusData>)
      modifies this
      ensures split == old(split)
      ensures var e := Strategy.Insert(old(split), d, Leaf(w), index, old(children));
        && (e.Err? ==> r == Err(e.error) && children == old(children))
        && (e.Ok? ==> r == Ok(e.value.status) && children == e.value.items)
    {
      if Orthogonal(split, d) {
        return Ok(CouldNotFocus);
      }
      if index >= |children| {
        return Err(IndexOutOfRange);
      }
      var p := if Backward(d) then index else index + 1;
      children := children[..p] + [Leaf(w)] + children[p..];
      return Ok(FocusSucceeded);
    }

    /** `has_win`: asks the children in order and stops at the first holder. */
    method HasWin(w: Window) returns (found: bool)
      ensures found <==> w in ListLeaves(children)
    {
      var i := 0;
      while i < |children|
        invariant i <= |children|
        invariant w !in ListLeaves(children[..i])
        decreases |children| - i
      {
        HasWinIsMember(children[i], w);
        if Layout.HasWin(children[i], w) {
          ListLeavesAt(children, i);
          return true;
        }
        assert children[..i + 1] == children[..i] + [children[i]];
        ListLeavesAppend(children[..i], [children[i]]);
        ListLeavesCons(children[i], []);
        i := i + 1;
      }
      assert children[..i] == children;
      return false;
    }

    /** `remove_window`: the `remove_if` pass keeps, in order, every child
        that is neither a leaf holding `w` nor a container emptied by its
        own removal; the result says whether the root is left empty. */
    method RemoveWindow(w: Window) returns (empty: bool)
      modifies this
      ensures split == old(split)
      ensures children == PruneList(old(children), w)
      ensures ListLeaves(children) == Without(ListLeaves(old(children)), w)
      ensures AllNoEmpty(children)
      ensures empty <==> children == []
    {
      var kept: seq<Node> := [];
      var i := 0;
      while i < |children|
        invariant i <= |children|
        invariant children == old(children) && split == old(split)
        invariant kept == PruneList(children[..i], w)
        decreases |children| - i
      {
        assert children[..i + 1] == children[..i] + [children[i]];
        PruneListAppend(children[..i], [children[i]], w);
        assert [children[i]][1..] == [];
        match Prune(children[i], w) {
          case None =>
          case Some(m) =>
            kept := kept + [m];
        }
        i := i + 1;
      }
      assert children[..i] == children;
      PruneListLeaves(children, w);
      children := kept;
      empty := children == [];
    }

    /** `resize`: every child gets the same truncated share of the main
        axis, the running offset growing by share plus gaps; each subtree
        then places its windows in its own rectangle. The `window_to_rect`
        calls come back as the list of placements, in call order. */
    method Resize(r: Rect, gaps: int) returns (placements: seq<(Window, Rect)>)
      ensures placements == Arrange(Tree(), r, gaps)
      ensures Windows(placements) == ListLeaves(children)
    {
      ArrangePlacesEachWindow(Tree(), r, gaps);
      placements := [];
      var n := |children|;
      if n == 0 {
        return;
      }
      var spacing := (n - 1) * gaps;
      var share := TruncDiv(MainExtent(split, r) - spacing, n);
      var offset := MainOrigin(split, r);
      ghost var rects := Partition(split, r, n, gaps);
      var i := 0;
      while i < n
        invariant i <= n
        invariant offset == MainOrigin(split, r) + i * (share + gaps)
        invariant placements == ArrangeList(children[..i], rects[..i], gaps)
      {
        var q := if split == VSplit then Rect(offset, r.y, share, r.h) else Rect(r.x, offset, r.w, share);
        OffsetSlot(split, r, n, gaps, i, offset);
        ArrangeListSnoc(children, rects, i, gaps);
        placements := placements + Arrange(children[i], q, gaps);
        offset := offset + share + gaps;
        i := i + 1;
      }
      assert children[..n] == children && rects[..n] == rects;
    }

    /** `focus_any` on the root: the first window, through `front()`. */
    method FocusAny() returns (target: Option<Window>)
      ensures target.Some? ==> ListLeaves(children) != [] && target.value == ListLeaves(children)[0]
      ensures children != [] && AllNoEmpty(children) ==> target.Some?
    {
      FocusAnyFirstLeaf(Tree());
      if children == [] {
        return None;
      }
      target := Layout.FocusAny(children[0]);
    }

    /** `focus_window` on the root: a read-only search (no `modifies`)
        whose effect is the window it focuses, if any. */
    method FocusWindow(d: Direction, w: Window) returns (f: Focus)
      ensures f == FocusLoop(split, children, 0, d, w)
      ensures w in ListLeaves(children) ==> f == NearestFocus(Ancestors(split, children, w), d)
      ensures w !in ListLeaves(children) ==> f == Focus(HasNotWindow, None)
    {
      if w in ListLeaves(children) {
        FocusLoopNearest(split, children, d, w);
      } else {
        forall k | 0 <= k < |children| ensures w !in Leaves(children[k]) {
          ListLeavesAt(children, k);
        }
        FocusLoopAbsent(split, children, 0, d, w);
      }
      var i := 0;
      while i < |children|
        invariant i <= |children|
        invariant FocusLoop(split, children, i, d, w) == FocusLoop(split, children, 0, d, w)
        decreases |children| - i
      {
        match children[i] {
          case Leaf(v) =>
            if v == w {
              return FocusNeighbour(split, children, i, d);
            }
          case Container(sp, sub) =>
            var inner := FocusLoop(sp, sub, 0, d, w);
            if inner.status == FocusSucceeded {
              return inner;
            } else if inner.status == CouldNotFocus {
              return FocusNeighbour(split, children, i, d);
            }
        }
        i := i + 1;
      }
      return Focus(HasNotWindow, None);
    }

    /** The `build_stack` pass of `move_window` over the root's children:
        each child container is searched and, if left with one child,
        replaced by it; a leaf holding `w` is moved by the root's strategy,
        and a window evicted from a child container is re-inserted beside
        it. */
    method Search(d: Direction, w: Window) returns (status: FocusData)
      requires Cardinal(d)
      modifies this
      ensures split == old(split)
      ensures Moved(status, children) == MoveLoop(old(split), old(children), 0, d, w)
    {
      var i := 0;
      while i < |children|
        invariant i <= |children| == |old(children)|
        invariant split == old(split)
        invariant MoveLoop(split, children, i, d, w) == MoveLoop(old(split), old(children), 0, d, w)
      {
        match children[i] {
          case Leaf(v) =>
            if v == w {
              var res := Move(d, i);
              return res.value;
            }
          case Container(sp, sub) =>
            var inner := MoveLoop(sp, sub, 0, d, w);
            children := children[i := Collapse(sp, inner.children)];
            if inner.status == FocusSucceeded {
              return FocusSucceeded;
            } else if inner.status == CouldNotFocus {
              var res := Insert(d, w, i);
              return res.value;
            }
        }
        i := i + 1;
      }
      return HasNotWindow;
    }

    /** `move_window`: the search, then, when the window was evicted from
        the whole tree, the root split: the old root moves down one level
        beside a leaf for `w` under a new split along `d`. */
    method MoveWindow(d: Direction, w: Window) returns (status: FocusData)
      requires Cardinal(d)
      modifies this
      ensures RootMove(status, split, children) == Layout.MoveWindow(old(split), old(children), d, w)
      ensures multiset(ListLeaves(children)) == multiset(ListLeaves(old(children)))
      ensures status == FocusSucceeded <==> w in ListLeaves(old(children))
      ensures status == HasNotWindow <==> w !in ListLeaves(old(children))
    {
      MoveWindowPreservesWindows(split, children, d, w);
      status := Search(d, w);
      if status == CouldNotFocus {
        var prior := Container(split, children);
        split := SplitFor(d);
        children := if Backward(d) then [Leaf(w), prior] else [prior, Leaf(w)];
        status := FocusSucceeded;
      }
    }

    /** A new window is mapped: a leaf for it goes last, then the root is
        laid out again. The new window is placed last, and removing it again
        gives back the old children. */
    method Map(w: Window, r: Rect, gaps: int) returns (placements: seq<(Window, Rect)>)
      modifies this
      ensures split == old(split)
      ensures children == old(children) + [Leaf(w)]
      ensures placements == Arrange(Tree(), r, gaps)
      ensures Windows(placements) == ListLeaves(old(children)) + [w]
      ensures AllNoEmpty(old(children)) && w !in ListLeaves(old(children)) ==> PruneList(children, w) == old(children)
    {
      if AllNoEmpty(children) && w !in ListLeaves(children) {
        AddThenRemove(children, w);
      }
      Add(Leaf(w));
      placements := Resize(r, gaps);
    }

    /** A window is unmapped: it is removed, and only when windows remain is
        the root laid out again and focus handed to its first window. The
        removal leaves no empty container, so that focus always finds a
        window. */
    method Unmap(w: Window, r: Rect, gaps: int) returns (placements: seq<(Window, Rect)>, focused: Option<Window>)
      modifies this
      ensures split == old(split)
      ensures children == PruneList(old(children), w)
      ensures children == [] ==> placements == [] && focused == None
      ensures children != [] ==> placements == Arrange(Tree(), r, gaps)
      ensures children != [] ==> ListLeaves(children) != [] && focused.Some? && focused.value == ListLeaves(children)[0]
      ensures Windows(placements) == Without(ListLeaves(old(children)), w)
    {
      var empty := RemoveWindow(w);
      placements, focused := [], None;
      if !empty {
        ListNoEmptyHasLeaves(children);
        placements := Resize(r, gaps);
        focused := FocusAny();
      }
    }
  }
}
