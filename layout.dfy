/** The layout tree of layouts.hpp: a `layout_node` is either a
    `layout_leave` holding one window or a `layout_container` holding an
    ordered list of nodes and a split strategy. Containers own their
    children by value, so a subtree is a value here and the recursive
    algorithms are functions from the old subtree to the new one. */
module Layout {
  import opened Strategy

  /** An X11 window handle, opaque to the layout engine. */
  type Window = nat

  datatype Node = Leaf(win: Window) | Container(split: Split, children: seq<Node>)

  /** Number of nodes of a subtree; the measure the index-driven searches decrease. */
  function Size(n: Node): nat
  {
    match n
    case Leaf(_) => 1
    case Container(_, cs) => 1 + ListSize(cs)
  }

  function ListSize(cs: seq<Node>): nat
  {
    if cs == [] then 0 else Size(cs[0]) + ListSize(cs[1..])
  }

  /** The windows of a subtree in depth-first, left-to-right order. */
  function Leaves(n: Node): seq<Window>
  {
    match n
    case Leaf(w) => [w]
    case Container(_, cs) => ListLeaves(cs)
  }

  function ListLeaves(cs: seq<Node>): seq<Window>
  {
    if cs == [] then [] else Leaves(cs[0]) + ListLeaves(cs[1..])
  }

  lemma {:induction false} ListLeavesAppend(a: seq<Node>, b: seq<Node>)
    ensures ListLeaves(a + b) == ListLeaves(a) + ListLeaves(b)
  {
    if a == [] {
      assert a + b == b;
    } else {
      assert (a + b)[1..] == a[1..] + b;
      ListLeavesAppend(a[1..], b);
    }
  }

  lemma ListLeavesCons(n: Node, t: seq<Node>)
    ensures ListLeaves([n] + t) == Leaves(n) + ListLeaves(t)
  {
    assert ([n] + t)[1..] == t;
  }

  /** The leaves of a list are those before `i`, those of child `i`, those after it. */
  lemma ListLeavesAt(cs: seq<Node>, i: nat)
    requires i < |cs|
    ensures ListLeaves(cs) == ListLeaves(cs[..i]) + Leaves(cs[i]) + ListLeaves(cs[i + 1..])
  {
    var pre, post := cs[..i], cs[i + 1..];
    assert cs == pre + ([cs[i]] + post);
    ListLeavesAppend(pre, [cs[i]] + post);
    ListLeavesCons(cs[i], post);
  }

  lemma ListLeavesFrom(cs: seq<Node>, i: nat)
    requires i < |cs|
    ensures ListLeaves(cs[i..]) == Leaves(cs[i]) + ListLeaves(cs[i + 1..])
    ensures ListSize(cs[i..]) == Size(cs[i]) + ListSize(cs[i + 1..])
  {
    assert cs[i..][1..] == cs[i + 1..];
  }

  // ---------------------------------------------------------------------
  // has_win
  // ---------------------------------------------------------------------

  /** `has_win`: a leaf compares its window, a container asks its children in order. */
  function HasWin(n: Node, w: Window): bool
  {
    match n
    case Leaf(v) => v == w
    case Container(_, cs) => AnyHasWin(cs, w)
  }

  function AnyHasWin(cs: seq<Node>, w: Window): bool
  {
    cs != [] && (HasWin(cs[0], w) || AnyHasWin(cs[1..], w))
  }

  /** The recursive test agrees with membership among the subtree's leaves. */
  lemma {:induction false} HasWinIsMember(n: Node, w: Window)
    ensures HasWin(n, w) <==> w in Leaves(n)
  {
    match n
    case Leaf(_) =>
    case Container(_, cs) => AnyHasWinIsMember(cs, w);
  }

  lemma {:induction false} AnyHasWinIsMember(cs: seq<Node>, w: Window)
    ensures AnyHasWin(cs, w) <==> w in ListLeaves(cs)
  {
    if cs != [] {
      HasWinIsMember(cs[0], w);
      AnyHasWinIsMember(cs[1..], w);
    }
  }

  // ---------------------------------------------------------------------
  // remove_window
  // ---------------------------------------------------------------------

  /** What one child turns into under `remove_window`: None when the
      `remove_if` predicate drops it (a leaf holding `w`, or a container that
      is empty after its own removal), else the child after the removal. */
  function Prune(n: Node, w: Window): Option<Node>
  {
    match n
    case Leaf(v) => if v == w then None else Some(n)
    case Container(s, cs) =>
      var kept := PruneList(cs, w);
      if kept == [] then None else Some(Container(s, kept))
  }

  function PruneList(cs: seq<Node>, w: Window): seq<Node>
  {
    if cs == [] then []
    else
      var head := match Prune(cs[0], w) case None => [] case Some(m) => [m];
      head + PruneList(cs[1..], w)
  }

  /** What one child contributes to the list `remove_window` leaves. */
  function PruneHead(n: Node, w: Window): seq<Node>
  {
    match Prune(n, w)
    case None => []
    case Some(m) => [m]
  }

  /** `s` with every occurrence of `w` dropped, order kept. */
  function Without(s: seq<Window>, w: Window): seq<Window>
  {
    if s == [] then [] else (if s[0] == w then [] else [s[0]]) + Without(s[1..], w)
  }

  lemma {:induction false} WithoutAppend(a: seq<Window>, b: seq<Window>, w: Window)
    ensures Without(a + b, w) == Without(a, w) + Without(b, w)
  {
    if a == [] {
      assert a + b == b;
    } else {
      assert (a + b)[1..] == a[1..] + b;
      WithoutAppend(a[1..], b, w);
    }
  }

  /** Dropping `w` zeroes its multiplicity and keeps every other window's. */
  lemma {:induction false} WithoutMultiset(s: seq<Window>, w: Window)
    ensures multiset(Without(s, w)) == multiset(s)[w := 0]
  {
    if s != [] {
      WithoutMultiset(s[1..], w);
      assert s == [s[0]] + s[1..];
    }
  }

  /** No container anywhere in the subtree is empty. */
  predicate NoEmpty(n: Node)
  {
    match n
    case Leaf(_) => true
    case Container(_, cs) => cs != [] && AllNoEmpty(cs)
  }

  predicate AllNoEmpty(cs: seq<Node>)
  {
    cs == [] || (NoEmpty(cs[0]) && AllNoEmpty(cs[1..]))
  }

  lemma {:induction false} AllNoEmptyAppend(a: seq<Node>, b: seq<Node>)
    requires AllNoEmpty(a) && AllNoEmpty(b)
    ensures AllNoEmpty(a + b)
  {
    if a == [] {
      assert a + b == b;
    } else {
      assert (a + b)[1..] == a[1..] + b;
      AllNoEmptyAppend(a[1..], b);
    }
  }

  /** A subtree without empty containers holds at least one window. */
  lemma {:induction false} NoEmptyHasLeaves(n: Node)
    requires NoEmpty(n)
    ensures Leaves(n) != []
  {
    match n
    case Leaf(_) =>
    case Container(_, cs) => NoEmptyHasLeaves(cs[0]);
  }

  lemma ListNoEmptyHasLeaves(cs: seq<Node>)
    requires AllNoEmpty(cs) && cs != []
    ensures ListLeaves(cs) != []
  {
    NoEmptyHasLeaves(cs[0]);
  }

  /** `remove_window` on a child list: the windows left are the old ones
      without `w`, in the old order; no empty container survives. */
  lemma {:induction false} PruneListLeaves(cs: seq<Node>, w: Window)
    ensures ListLeaves(PruneList(cs, w)) == Without(ListLeaves(cs), w)
    ensures AllNoEmpty(PruneList(cs, w))
    decreases ListSize(cs), 1
  {
    if cs != [] {
      var head, rest := PruneHead(cs[0], w), PruneList(cs[1..], w);
      PruneHeadLeaves(cs[0], w);
      PruneListLeaves(cs[1..], w);
      ListLeavesAppend(head, rest);
      WithoutAppend(Leaves(cs[0]), ListLeaves(cs[1..]), w);
      AllNoEmptyAppend(head, rest);
    }
  }

  lemma {:induction false} PruneHeadLeaves(n: Node, w: Window)
    ensures ListLeaves(PruneHead(n, w)) == Without(Leaves(n), w)
    ensures AllNoEmpty(PruneHead(n, w))
    decreases Size(n), 0
  {
    match n
    case Leaf(v) =>
      assert Without([v], w) == (if v == w then [] else [v]) + Without([], w);
      if v != w {
        SingletonList(n);
      }
    case Container(sp, sub) =>
      PruneListLeaves(sub, w);
      var kept := PruneList(sub, w);
      if kept != [] {
        var m := Container(sp, kept);
        assert NoEmpty(m);
        SingletonList(m);
      }
  }

  /** A one-child list has that child's windows and, if the child has no
      empty container, none either. */
  lemma SingletonList(n: Node)
    ensures ListLeaves([n]) == Leaves(n)
    ensures NoEmpty(n) ==> AllNoEmpty([n])
  {
    assert [n][1..] == [];
  }

  /** `remove_window` reports an empty container exactly when every window
      below it was `w`. */
  lemma PruneListEmpty(cs: seq<Node>, w: Window)
    ensures PruneList(cs, w) == [] <==> Without(ListLeaves(cs), w) == []
  {
    PruneListLeaves(cs, w);
    if PruneList(cs, w) != [] {
      ListNoEmptyHasLeaves(PruneList(cs, w));
    }
  }

  /** Removing an absent window from a tree without empty containers changes
      nothing: in particular no single-child container is collapsed. */
  lemma {:induction false} PruneListAbsent(cs: seq<Node>, w: Window)
    requires AllNoEmpty(cs) && w !in ListLeaves(cs)
    ensures PruneList(cs, w) == cs
  {
    if cs != [] {
      PruneListAbsent(cs[1..], w);
      match cs[0]
      case Leaf(v) =>
      case Container(s, sub) =>
        PruneListAbsent(sub, w);
    }
  }

  lemma {:induction false} PruneListAppend(a: seq<Node>, b: seq<Node>, w: Window)
    ensures PruneList(a + b, w) == PruneList(a, w) + PruneList(b, w)
  {
    if a == [] {
      assert a + b == b;
    } else {
      assert (a + b)[1..] == a[1..] + b;
      PruneListAppend(a[1..], b, w);
    }
  }

  /** Appending a leaf for a new window and then removing that window gives
      back the list as it was (when it held no empty container and not that
      window). */
  lemma AddThenRemove(cs: seq<Node>, w: Window)
    requires AllNoEmpty(cs) && w !in ListLeaves(cs)
    ensures PruneList(cs + [Leaf(w)], w) == cs
  {
    PruneListAppend(cs, [Leaf(w)], w);
    PruneListAbsent(cs, w);
  }

  /** Without the no-empty-container condition the round trip fails: on
      `Vertical{Vertical{}, A}`, the tree moving A right out of `Vertical{A}`
      leaves, adding B and removing it again also drops the empty container. */
  lemma AddThenRemovePrunesEmpty()
    ensures PruneList([Container(VSplit, []), Leaf(1)] + [Leaf(2)], 2) == [Leaf(1)]
  {
    var cs := [Container(VSplit, []), Leaf(1), Leaf(2)];
    assert [Container(VSplit, []), Leaf(1)] + [Leaf(2)] == cs;
    assert cs[1..] == [Leaf(1), Leaf(2)] && cs[1..][1..] == [Leaf(2)];
    assert PruneList([Leaf(2)], 2) == [];
    assert PruneList([Leaf(1), Leaf(2)], 2) == [Leaf(1)];
  }

  /** `remove_window` never collapses a container: one that survives the
      removal keeps its split and holds exactly its pruned children, however
      few are left, and one that does not survive held nothing but `w`. */
  lemma PruneNeverCollapses(s: Split, cs: seq<Node>, w: Window)
    ensures Prune(Container(s, cs), w).Some? <==> PruneList(cs, w) != []
    ensures Prune(Container(s, cs), w).Some? ==> Prune(Container(s, cs), w).value == Container(s, PruneList(cs, w))
    ensures Prune(Container(s, cs), w).None? <==> Without(ListLeaves(cs), w) == []
  {
    PruneListEmpty(cs, w);
  }

  /** For example, removing A from `Vertical{A, B}`
      leaves `Vertical{B}`, a container with a single child. */
  lemma RemoveKeepsSingleChild()
    ensures PruneList([Container(VSplit, [Leaf(1), Leaf(2)])], 1) == [Container(VSplit, [Leaf(2)])]
  {
    assert [Leaf(1), Leaf(2)][1..] == [Leaf(2)];
    assert PruneList([Leaf(1), Leaf(2)], 1) == [Leaf(2)];
  }

  // ---------------------------------------------------------------------
  // focus_any and focus_window
  // ---------------------------------------------------------------------

  /** `focus_any`: a leaf focuses its window, a container descends through
      `front()`. `front()` of an empty vector is undefined behaviour in the
      source; here it focuses nothing. */
  function FocusAny(n: Node): Option<Window>
  {
    match n
    case Leaf(w) => Some(w)
    case Container(_, cs) => if cs == [] then None else FocusAny(cs[0])
  }

  /** What `focus_any` focuses is the first window of the subtree, and on a
      tree without empty containers it always focuses one. */
  lemma {:induction false} FocusAnyFirstLeaf(n: Node)
    ensures FocusAny(n).Some? ==> Leaves(n) != [] && FocusAny(n).value == Leaves(n)[0]
    ensures NoEmpty(n) ==> FocusAny(n).Some?
  {
    match n
    case Leaf(_) =>
    case Container(_, cs) =>
      if cs != [] {
        FocusAnyFirstLeaf(cs[0]);
        assert ListLeaves(cs) == Leaves(cs[0]) + ListLeaves(cs[1..]);
        assert AllNoEmpty(cs) ==> NoEmpty(cs[0]);
      }
  }

  /** Outcome of a focus search: the signal and the window focused, if any. */
  datatype Focus = Focus(status: FocusData, target: Option<Window>)

  /** `layout_container::focus` at child `i`: the strategy picks a sibling and
      `focus_any` descends into it. */
  function FocusNeighbour(s: Split, cs: seq<Node>, i: nat, d: Direction): Focus
    requires i < |cs|
  {
    match FocusTarget(s, d, i, |cs|)
    case None => Focus(CouldNotFocus, None)
    case Some(j) => Focus(FocusSucceeded, FocusAny(cs[j]))
  }

  /** The `recurse` lambda of `focus_window`, from child `i` on. */
  function FocusLoop(s: Split, cs: seq<Node>, i: nat, d: Direction, w: Window): Focus
    requires i <= |cs|
    decreases ListSize(cs[i..])
  {
    if i == |cs| then Focus(HasNotWindow, None)
    else
      assert ListSize(cs[i..]) == Size(cs[i]) + ListSize(cs[i + 1..]) by { ListLeavesFrom(cs, i); }
      match cs[i]
      case Leaf(v) =>
        if v == w then FocusNeighbour(s, cs, i, d) else FocusLoop(s, cs, i + 1, d, w)
      case Container(sp, sub) =>
        assert sub[0..] == sub;
        var inner := FocusLoop(sp, sub, 0, d, w);
        if inner.status == FocusSucceeded then inner
        else if inner.status == CouldNotFocus then FocusNeighbour(s, cs, i, d)
        else FocusLoop(s, cs, i + 1, d, w)
  }

  /** One ancestor of the searched leaf: a container and the index of the
      branch leading to the leaf. */
  datatype Frame = Frame(split: Split, siblings: seq<Node>, index: nat)

  /** Index of the first child holding `w`. */
  function FirstHolder(cs: seq<Node>, w: Window): (i: nat)
    requires w in ListLeaves(cs)
    ensures i < |cs| && w in Leaves(cs[i])
    ensures forall k :: 0 <= k < i ==> w !in Leaves(cs[k])
  {
    if w in Leaves(cs[0]) then 0
    else
      var k := FirstHolder(cs[1..], w);
      1 + k
  }

  /** The containers from `cs` down to the parent of the first leaf holding
      `w`, outermost first, each with the index of the branch taken. */
  function Ancestors(s: Split, cs: seq<Node>, w: Window): (frames: seq<Frame>)
    requires w in ListLeaves(cs)
    ensures frames != []
    ensures forall k :: 0 <= k < |frames| ==> frames[k].index < |frames[k].siblings|
    decreases cs
  {
    var i := FirstHolder(cs, w);
    match cs[i]
    case Leaf(_) => [Frame(s, cs, i)]
    case Container(sp, sub) => [Frame(s, cs, i)] + Ancestors(sp, sub, w)
  }

  /** The nearest enclosing container that can serve the focus request: the
      innermost frame whose strategy has a sibling in direction `d` hands
      focus to that sibling's first window; with none, nothing is focused. */
  function NearestFocus(frames: seq<Frame>, d: Direction): Focus
    requires forall k :: 0 <= k < |frames| ==> frames[k].index < |frames[k].siblings|
  {
    if frames == [] then Focus(CouldNotFocus, None)
    else
      var f := frames[|frames| - 1];
      match FocusTarget(f.split, d, f.index, |f.siblings|)
      case Some(j) => Focus(FocusSucceeded, FocusAny(f.siblings[j]))
      case None => NearestFocus(frames[..|frames| - 1], d)
  }

  /** Looking outward from an outer frame `f`: the nearest frame below `f`
      wins if there is one, else `f` itself is asked. */
  lemma {:induction false} NearestFocusCons(f: Frame, rest: seq<Frame>, d: Direction)
    requires f.index < |f.siblings|
    requires forall k :: 0 <= k < |rest| ==> rest[k].index < |rest[k].siblings|
    ensures var inner := NearestFocus(rest, d);
      NearestFocus([f] + rest, d)
        == if inner.status == FocusSucceeded then inner else FocusNeighbour(f.split, f.siblings, f.index, d)
    decreases |rest|
  {
    var all := [f] + rest;
    if rest == [] {
      assert all[..0] == [];
    } else {
      var last := rest[|rest| - 1];
      assert all[|all| - 1] == last;
      assert all[..|all| - 1] == [f] + rest[..|rest| - 1];
      NearestFocusCons(f, rest[..|rest| - 1], d);
    }
  }

  /** Past every holder of `w` the search finds nothing. */
  lemma {:induction false} FocusLoopAbsent(s: Split, cs: seq<Node>, i: nat, d: Direction, w: Window)
    requires i <= |cs|
    requires forall k :: i <= k < |cs| ==> w !in Leaves(cs[k])
    ensures FocusLoop(s, cs, i, d, w) == Focus(HasNotWindow, None)
    decreases ListSize(cs[i..])
  {
    if i < |cs| {
      ListLeavesFrom(cs, i);
      FocusLoopAbsent(s, cs, i + 1, d, w);
      match cs[i]
      case Leaf(_) =>
      case Container(sp, sub) =>
        assert forall k :: 0 <= k < |sub| ==> w !in Leaves(sub[k]) by {
          forall k | 0 <= k < |sub| ensures w !in Leaves(sub[k]) {
            ListLeavesAt(sub, k);
          }
        }
        assert sub[0..] == sub;
        FocusLoopAbsent(sp, sub, 0, d, w);
    }
  }

  /** `focus_window` focuses exactly what the nearest enclosing container
      that can serve the request picks, and reports whether there was one. */
  lemma {:induction false} FocusLoopNearest(s: Split, cs: seq<Node>, d: Direction, w: Window)
    requires w in ListLeaves(cs)
    ensures FocusLoop(s, cs, 0, d, w) == NearestFocus(Ancestors(s, cs, w), d)
    decreases cs
  {
    var i := FirstHolder(cs, w);
    FocusLoopSkip(s, cs, 0, i, d, w);
    var frame := Frame(s, cs, i);
    match cs[i]
    case Leaf(v) =>
      assert Leaves(cs[i]) == [v];
      assert NearestFocus([frame], d) == NearestFocus([frame] + [], d);
      NearestFocusCons(frame, [], d);
    case Container(sp, sub) =>
      FocusLoopNearest(sp, sub, d, w);
      var rest := Ancestors(sp, sub, w);
      NearestFocusCons(frame, rest, d);
      NearestFocusStatus(rest, d);
  }

  /** The search walks over children that do not hold `w`. */
  lemma {:induction false} FocusLoopSkip(s: Split, cs: seq<Node>, i: nat, j: nat, d: Direction, w: Window)
    requires i <= j < |cs|
    requires forall k :: i <= k < j ==> w !in Leaves(cs[k])
    ensures FocusLoop(s, cs, i, d, w) == FocusLoop(s, cs, j, d, w)
    decreases j - i
  {
    if i < j {
      FocusLoopSkip(s, cs, i + 1, j, d, w);
      match cs[i]
      case Leaf(_) =>
      case Container(sp, sub) =>
        assert forall k :: 0 <= k < |sub| ==> w !in Leaves(sub[k]) by {
          forall k | 0 <= k < |sub| ensures w !in Leaves(sub[k]) {
            ListLeavesAt(sub, k);
          }
        }
        FocusLoopAbsent(sp, sub, 0, d, w);
    }
  }

  /** A search over a list holding `w` never reports `has_not_window`. */
  lemma FocusLoopFound(s: Split, cs: seq<Node>, d: Direction, w: Window)
    requires w in ListLeaves(cs)
    ensures FocusLoop(s, cs, 0, d, w).status != HasNotWindow
  {
    FocusLoopNearest(s, cs, d, w);
    NearestFocusStatus(Ancestors(s, cs, w), d);
  }

  lemma {:induction false} NearestFocusStatus(frames: seq<Frame>, d: Direction)
    requires forall k :: 0 <= k < |frames| ==> frames[k].index < |frames[k].siblings|
    ensures NearestFocus(frames, d).status != HasNotWindow
  {
    if frames != [] {
      NearestFocusStatus(frames[..|frames| - 1], d);
    }
  }

  // ---------------------------------------------------------------------
  // move_window
  // ---------------------------------------------------------------------

  /** Outcome of the `build_stack` search: the signal and the new child list. */
  datatype Moved = Moved(status: FocusData, children: seq<Node>)

  /** The collapse step: a container left with exactly one child is
      replaced by that child. */
  function Collapse(s: Split, cs: seq<Node>): Node
  {
    if |cs| == 1 then cs[0] else Container(s, cs)
  }

  lemma CollapseLeaves(s: Split, cs: seq<Node>)
    ensures Leaves(Collapse(s, cs)) == ListLeaves(cs)
  {
    if |cs| == 1 {
      assert cs[1..] == [];
    }
  }

  /** The `build_stack` lambda of `move_window`, from child `i` on. A leaf
      holding `w` is moved by the strategy; a child container is searched
      first and collapsed if one child is left; if the window was evicted
      from it, it is inserted next to that branch, and if the strategy
      refuses the direction, the eviction travels further up. */
  function MoveLoop(s: Split, cs: seq<Node>, i: nat, d: Direction, w: Window): Moved
    requires Cardinal(d) && i <= |cs|
    decreases ListSize(cs[i..])
  {
    if i == |cs| then Moved(HasNotWindow, cs)
    else
      assert ListSize(cs[i..]) == Size(cs[i]) + ListSize(cs[i + 1..]) by { ListLeavesFrom(cs, i); }
      match cs[i]
      case Leaf(v) =>
        if v == w then
          var e := Move(s, d, i, cs).value;
          Moved(e.status, e.items)
        else MoveLoop(s, cs, i + 1, d, w)
      case Container(sp, sub) =>
        assert sub[0..] == sub;
        var inner := MoveLoop(sp, sub, 0, d, w);
        var cs' := cs[i := Collapse(sp, inner.children)];
        if inner.status == FocusSucceeded then Moved(FocusSucceeded, cs')
        else if inner.status == CouldNotFocus then
          var e := Insert(s, d, Leaf(w), i, cs').value;
          Moved(e.status, e.items)
        else
          assert cs'[i + 1..] == cs[i + 1..];
          MoveLoop(s, cs', i + 1, d, w)
  }

  /** Replacing child `i` changes the leaves in that place only. */
  lemma ListLeavesUpdate(cs: seq<Node>, i: nat, n: Node)
    requires i < |cs|
    ensures ListLeaves(cs[i := n]) == ListLeaves(cs[..i]) + Leaves(n) + ListLeaves(cs[i + 1..])
  {
    var cs' := cs[i := n];
    ListLeavesAt(cs', i);
    assert cs'[..i] == cs[..i] && cs'[i + 1..] == cs[i + 1..];
  }

  lemma PairListLeaves(pre: seq<Node>, a: Node, b: Node, post: seq<Node>)
    ensures ListLeaves(pre + [a, b] + post) == ListLeaves(pre) + (Leaves(a) + (Leaves(b) + ListLeaves(post)))
  {
    assert pre + [a, b] + post == pre + ([a] + ([b] + post));
    ListLeavesAppend(pre, [a] + ([b] + post));
    ListLeavesCons(a, [b] + post);
    ListLeavesCons(b, post);
  }

  lemma SwapLeaves(pre: seq<Node>, a: Node, b: Node, post: seq<Node>)
    ensures multiset(ListLeaves(pre + [a, b] + post)) == multiset(ListLeaves(pre + [b, a] + post))
  {
    PairListLeaves(pre, a, b, post);
    PairListLeaves(pre, b, a, post);
    SwapMultiset(ListLeaves(pre), Leaves(a), Leaves(b), ListLeaves(post));
  }

  lemma SwapMultiset(p: seq<Window>, x: seq<Window>, y: seq<Window>, q: seq<Window>)
    ensures multiset(p + (x + (y + q))) == multiset(p + (y + (x + q)))
  {
    calc {
      multiset(p + (x + (y + q)));
      multiset(p) + (multiset(x) + (multiset(y) + multiset(q)));
      multiset(p) + (multiset(y) + (multiset(x) + multiset(q)));
      multiset(p + (y + (x + q)));
    }
  }

  lemma SwapNextLeaves(cs: seq<Node>, i: nat)
    requires i + 1 < |cs|
    ensures multiset(ListLeaves(SwapNext(cs, i))) == multiset(ListLeaves(cs))
  {
    var pre, x, y, post := cs[..i], cs[i], cs[i + 1], cs[i + 2..];
    AroundPair(cs, i);
    SwapLeaves(pre, x, y, post);
  }

  lemma RemoveAtLeaves(cs: seq<Node>, i: nat)
    requires i < |cs|
    ensures ListLeaves(cs) == ListLeaves(cs[..i]) + Leaves(cs[i]) + ListLeaves(cs[i + 1..])
    ensures ListLeaves(RemoveAt(cs, i)) == ListLeaves(cs[..i]) + ListLeaves(cs[i + 1..])
  {
    ListLeavesAt(cs, i);
    ListLeavesAppend(cs[..i], cs[i + 1..]);
  }

  lemma InsertLeaves(cs: seq<Node>, p: nat, n: Node)
    requires p <= |cs|
    ensures ListLeaves(cs[..p] + [n] + cs[p..]) == ListLeaves(cs[..p]) + Leaves(n) + ListLeaves(cs[p..])
    ensures ListLeaves(cs) == ListLeaves(cs[..p]) + ListLeaves(cs[p..])
  {
    InsertLeavesSplit(cs[..p], n, cs[p..]);
    ListLeavesSplit(cs, p);
  }

  lemma ListLeavesSplit(cs: seq<Node>, p: nat)
    requires p <= |cs|
    ensures ListLeaves(cs) == ListLeaves(cs[..p]) + ListLeaves(cs[p..])
  {
    assert cs == cs[..p] + cs[p..];
    ListLeavesAppend(cs[..p], cs[p..]);
  }

  lemma InsertLeavesSplit(pre: seq<Node>, n: Node, post: seq<Node>)
    ensures ListLeaves(pre + [n] + post) == ListLeaves(pre) + Leaves(n) + ListLeaves(post)
  {
    assert pre + [n] + post == pre + ([n] + post);
    ListLeavesAppend(pre, [n] + post);
    ListLeavesCons(n, post);
  }

  /** The leaf-level step of the search: the strategy's move keeps the
      multiset of windows, or evicts exactly `w`. */
  lemma MoveLeafWindows(s: Split, cs: seq<Node>, i: nat, d: Direction, w: Window)
    requires Cardinal(d) && i < |cs| && cs[i] == Leaf(w)
    ensures var e := Move(s, d, i, cs).value;
      && e.status != HasNotWindow
      && (e.status == FocusSucceeded ==> multiset(ListLeaves(e.items)) == multiset(ListLeaves(cs)))
      && (e.status == CouldNotFocus ==> multiset(ListLeaves(e.items)) + multiset{w} == multiset(ListLeaves(cs)))
  {
    var e := Move(s, d, i, cs).value;
    if e.status == FocusSucceeded {
      MoveSwaps(s, d, i, cs);
      var j := FocusTarget(s, d, i, |cs|).value;
      SwapNextLeaves(cs, if j < i then j else i);
    } else {
      EvictLeafWindows(cs, i, w);
    }
  }

  /** Taking the leaf for `w` out of a list removes one `w` from its windows. */
  lemma EvictLeafWindows(cs: seq<Node>, i: nat, w: Window)
    requires i < |cs| && cs[i] == Leaf(w)
    ensures multiset(ListLeaves(RemoveAt(cs, i))) + multiset{w} == multiset(ListLeaves(cs))
  {
    RemoveAtLeaves(cs, i);
    assert Leaves(cs[i]) == [w];
    var p, q := ListLeaves(cs[..i]), ListLeaves(cs[i + 1..]);
    assert multiset(p + [w] + q) == multiset(p + q) + multiset{w};
  }

  /** The re-insertion step: inserting the evicted leaf puts `w` back. */
  lemma InsertLeafWindows(s: Split, cs: seq<Node>, i: nat, d: Direction, w: Window)
    requires i < |cs|
    ensures var e := Insert(s, d, Leaf(w), i, cs).value;
      && e.status != HasNotWindow
      && (e.status == FocusSucceeded ==> multiset(ListLeaves(e.items)) == multiset(ListLeaves(cs)) + multiset{w})
      && (e.status == CouldNotFocus ==> e.items == cs)
  {
    var e := Insert(s, d, Leaf(w), i, cs).value;
    if e.status == FocusSucceeded {
      var p := InsertPos(d, i);
      assert e.items == cs[..p] + [Leaf(w)] + cs[p..];
      InsertLeaves(cs, p, Leaf(w));
      assert Leaves(Leaf(w)) == [w];
      InsertOne(ListLeaves(cs[..p]), ListLeaves(cs[p..]), w);
    }
  }

  lemma InsertOne(a: seq<Window>, b: seq<Window>, w: Window)
    ensures multiset(a + [w] + b) == multiset(a + b) + multiset{w}
  {
  }

  /** What the search promises about the windows, for the children from `i` on. */
  ghost predicate KeepsWindows(cs: seq<Node>, i: nat, w: Window, r: Moved)
    requires i <= |cs|
  {
    && (r.status == HasNotWindow <==> w !in ListLeaves(cs[i..]))
    && (r.status == HasNotWindow ==> ListLeaves(r.children) == ListLeaves(cs))
    && (r.status == FocusSucceeded ==> multiset(ListLeaves(r.children)) == multiset(ListLeaves(cs)))
    && (r.status == CouldNotFocus ==> multiset(ListLeaves(r.children)) + multiset{w} == multiset(ListLeaves(cs)))
  }

  /** The step at a child container: the promise for the container's own
      search and, when it did not find the window, for the rest of the
      list, gives the promise for the list from `i` on. */
  lemma MoveContainerStep(s: Split, cs: seq<Node>, i: nat, d: Direction, w: Window)
    requires Cardinal(d) && i < |cs| && cs[i].Container?
    requires KeepsWindows(cs[i].children, 0, w, MoveLoop(cs[i].split, cs[i].children, 0, d, w))
    requires var inner := MoveLoop(cs[i].split, cs[i].children, 0, d, w);
      var cs' := cs[i := Collapse(cs[i].split, inner.children)];
      inner.status == HasNotWindow ==> KeepsWindows(cs', i + 1, w, MoveLoop(s, cs', i + 1, d, w))
    ensures KeepsWindows(cs, i, w, MoveLoop(s, cs, i, d, w))
  {
    var sp, sub := cs[i].split, cs[i].children;
    assert sub[0..] == sub;
    var inner := MoveLoop(sp, sub, 0, d, w);
    var c := Collapse(sp, inner.children);
    var cs' := cs[i := c];
    var r := MoveLoop(s, cs, i, d, w);
    CollapseLeaves(sp, inner.children);
    if inner.status == CouldNotFocus {
      InsertLeafWindows(s, cs', i, d, w);
    }
    ContainerKeeps(cs, i, c, inner, w, r);
  }

  /** The window bookkeeping of the container step, apart from the search:
      `c` replaces child `i` with the windows the inner search `inner` left,
      and `r` is what the step returns in each case. */
  lemma ContainerKeeps(cs: seq<Node>, i: nat, c: Node, inner: Moved, w: Window, r: Moved)
    requires i < |cs| && cs[i].Container?
    requires KeepsWindows(cs[i].children, 0, w, inner)
    requires Leaves(c) == ListLeaves(inner.children)
    requires inner.status == FocusSucceeded ==> r == Moved(FocusSucceeded, cs[i := c])
    requires inner.status == HasNotWindow ==> KeepsWindows(cs[i := c], i + 1, w, r)
    requires inner.status == CouldNotFocus ==>
      && r.status != HasNotWindow
      && (r.status == FocusSucceeded ==> multiset(ListLeaves(r.children)) == multiset(ListLeaves(cs[i := c])) + multiset{w})
      && (r.status == CouldNotFocus ==> r.children == cs[i := c])
    ensures KeepsWindows(cs, i, w, r)
  {
    assert cs[i].children[0..] == cs[i].children;
    ListLeavesFrom(cs, i);
    ListLeavesUpdate(cs, i, c);
    ListLeavesAt(cs, i);
    var a, l, b := ListLeaves(cs[..i]), Leaves(cs[i]), ListLeaves(cs[i + 1..]);
    match inner.status
    case FocusSucceeded =>
      FoundKeeps(a, l, Leaves(c), b, w);
    case HasNotWindow =>
      assert cs[i := c][i + 1..] == cs[i + 1..];
    case CouldNotFocus =>
      EvictedKeeps(a, l, Leaves(c), b, w);
  }

  /** The window lists around a child whose own windows were permuted. */
  lemma FoundKeeps(a: seq<Window>, l: seq<Window>, l': seq<Window>, b: seq<Window>, w: Window)
    requires multiset(l') == multiset(l) && w in l
    ensures multiset(a + l' + b) == multiset(a + l + b) && w in l + b
  {
  }

  /** The window lists around a child that evicted `w`. */
  lemma EvictedKeeps(a: seq<Window>, l: seq<Window>, l': seq<Window>, b: seq<Window>, w: Window)
    requires multiset(l') + multiset{w} == multiset(l)
    ensures w in l + b
    ensures multiset(a + l' + b) + multiset{w} == multiset(a + l + b)
  {
    assert w in multiset(l);
  }

  /** The search preserves the windows: it reports `has_not_window` exactly
      when `w` is not among the children from `i` on, and then the windows
      keep their order; after a successful move the multiset of windows is
      unchanged; on `could_not_focus` exactly `w` is missing, evicted to be
      re-homed by the caller. */
  lemma {:induction false} MoveLoopWindows(s: Split, cs: seq<Node>, i: nat, d: Direction, w: Window)
    requires Cardinal(d) && i <= |cs|
    ensures KeepsWindows(cs, i, w, MoveLoop(s, cs, i, d, w))
    decreases ListSize(cs[i..])
  {
    if i < |cs| {
      ListLeavesFrom(cs, i);
      match cs[i]
      case Leaf(v) =>
        if v == w {
          MoveLeafWindows(s, cs, i, d, w);
        } else {
          MoveLoopWindows(s, cs, i + 1, d, w);
        }
      case Container(sp, sub) =>
        assert sub[0..] == sub;
        MoveLoopWindows(sp, sub, 0, d, w);
        var inner := MoveLoop(sp, sub, 0, d, w);
        var cs' := cs[i := Collapse(sp, inner.children)];
        if inner.status == HasNotWindow {
          assert cs'[i + 1..] == cs[i + 1..];
          ListLeavesFrom(cs', i);
          MoveLoopWindows(s, cs', i + 1, d, w);
        }
        MoveContainerStep(s, cs, i, d, w);
    }
  }

  /** `move_window` at the top: the search, then the root split when the
      window was evicted all the way up. */
  datatype RootMove = RootMove(status: FocusData, split: Split, children: seq<Node>)

  /** The split of a new root: top-to-bottom for up/down, left-to-right otherwise. */
  function SplitFor(d: Direction): Split
  {
    if d.Up? || d.Down? then HSplit else VSplit
  }

  /** What `move_window` does with the search's outcome `r` on the root
      `Container(s, _)`: on `could_not_focus` the whole old root (its split
      and what is left of its children, not collapsed) becomes one child of a
      new root, the moved window the other, first for up/left and second for
      down/right; any other outcome is returned as it is. */
  function SplitRoot(s: Split, r: Moved, d: Direction, w: Window): RootMove
  {
    if r.status != CouldNotFocus then RootMove(r.status, s, r.children)
    else
      var prior := Container(s, r.children);
      RootMove(FocusSucceeded, SplitFor(d), if Backward(d) then [Leaf(w), prior] else [prior, Leaf(w)])
  }

  /** `layout_container::move_window` on the root `Container(s, cs)`. */
  function MoveWindow(s: Split, cs: seq<Node>, d: Direction, w: Window): RootMove
    requires Cardinal(d)
  {
    SplitRoot(s, MoveLoop(s, cs, 0, d, w), d, w)
  }

  /** The root split puts the evicted window back beside the old root. */
  lemma SplitRootWindows(s: Split, cs: seq<Node>, r: Moved, d: Direction, w: Window)
    requires KeepsWindows(cs, 0, w, r)
    ensures var t := SplitRoot(s, r, d, w);
      && multiset(ListLeaves(t.children)) == multiset(ListLeaves(cs))
      && (t.status == FocusSucceeded <==> w in ListLeaves(cs))
      && (t.status == HasNotWindow <==> w !in ListLeaves(cs))
  {
    assert cs[0..] == cs;
    if r.status == CouldNotFocus {
      NewRootWindows(s, r, d, w);
    }
  }

  /** The new root holds the old root's windows and `w`. */
  lemma NewRootWindows(s: Split, r: Moved, d: Direction, w: Window)
    requires r.status == CouldNotFocus
    ensures multiset(ListLeaves(SplitRoot(s, r, d, w).children)) == multiset(ListLeaves(r.children)) + multiset{w}
  {
    PairLeaves(Container(s, r.children), w);
  }

  /** The windows of the two children of a new root. */
  lemma PairLeaves(prior: Node, w: Window)
    ensures multiset(ListLeaves([Leaf(w), prior])) == multiset(Leaves(prior)) + multiset{w}
    ensures multiset(ListLeaves([prior, Leaf(w)])) == multiset(Leaves(prior)) + multiset{w}
  {
    ListLeavesCons(Leaf(w), [prior]);
    ListLeavesCons(prior, []);
    ListLeavesCons(prior, [Leaf(w)]);
    ListLeavesCons(Leaf(w), []);
    assert [Leaf(w), prior] == [Leaf(w)] + [prior];
    assert [prior, Leaf(w)] == [prior] + [Leaf(w)];
  }

  /** `move_window` keeps every window in the tree exactly as often as before,
      and succeeds exactly when the window is in the tree. */
  lemma MoveWindowPreservesWindows(s: Split, cs: seq<Node>, d: Direction, w: Window)
    requires Cardinal(d)
    ensures var r := MoveWindow(s, cs, d, w);
      && multiset(ListLeaves(r.children)) == multiset(ListLeaves(cs))
      && (r.status == FocusSucceeded <==> w in ListLeaves(cs))
      && (r.status == HasNotWindow <==> w !in ListLeaves(cs))
  {
    MoveLoopWindows(s, cs, 0, d, w);
    SplitRootWindows(s, cs, MoveLoop(s, cs, 0, d, w), d, w);
  }

  /** No container at or below `n` holds exactly one child. */
  predicate NoSingleton(n: Node)
  {
    match n
    case Leaf(_) => true
    case Container(_, cs) => |cs| != 1 && AllNoSingleton(cs)
  }

  predicate AllNoSingleton(cs: seq<Node>)
  {
    forall k :: 0 <= k < |cs| ==> NoSingleton(cs[k])
  }

  /** What a search that does not find the window leaves behind, for the
      children from `i` on: every child container visited and, when left
      with a single child, collapsed; the children before `i` untouched. */
  ghost predicate CollapsedFrom(cs: seq<Node>, i: nat, r: Moved)
    requires i <= |cs|
  {
    && r.status == HasNotWindow
    && |r.children| == |cs|
    && r.children[..i] == cs[..i]
    && AllNoSingleton(r.children[i..])
  }

  /** A collapsed container holds no single-child container at any depth. */
  lemma CollapseNoSingleton(sp: Split, cs: seq<Node>)
    requires AllNoSingleton(cs)
    ensures NoSingleton(Collapse(sp, cs))
  {
    if |cs| == 1 {
      assert NoSingleton(cs[0]);
    }
  }

  /** The step past a leaf that is not the window. */
  lemma CollapsedLeafStep(s: Split, cs: seq<Node>, i: nat, d: Direction, w: Window)
    requires Cardinal(d) && i < |cs| && cs[i].Leaf? && cs[i].win != w
    requires CollapsedFrom(cs, i + 1, MoveLoop(s, cs, i + 1, d, w))
    ensures CollapsedFrom(cs, i, MoveLoop(s, cs, i, d, w))
  {
    var r := MoveLoop(s, cs, i + 1, d, w);
    assert MoveLoop(s, cs, i, d, w) == r;
    assert r.children[i..] == [cs[i]] + r.children[i + 1..];
    assert r.children[..i] == r.children[..i + 1][..i];
  }

  /** The step at a child container that does not hold the window. */
  lemma CollapsedContainerStep(s: Split, cs: seq<Node>, i: nat, d: Direction, w: Window)
    requires Cardinal(d) && i < |cs| && cs[i].Container?
    requires CollapsedFrom(cs[i].children, 0, MoveLoop(cs[i].split, cs[i].children, 0, d, w))
    requires var inner := MoveLoop(cs[i].split, cs[i].children, 0, d, w);
      var cs' := cs[i := Collapse(cs[i].split, inner.children)];
      CollapsedFrom(cs', i + 1, MoveLoop(s, cs', i + 1, d, w))
    ensures CollapsedFrom(cs, i, MoveLoop(s, cs, i, d, w))
  {
    var sp, sub := cs[i].split, cs[i].children;
    var inner := MoveLoop(sp, sub, 0, d, w);
    assert inner.children[0..] == inner.children;
    var c := Collapse(sp, inner.children);
    CollapseNoSingleton(sp, inner.children);
    var cs' := cs[i := c];
    var r := MoveLoop(s, cs', i + 1, d, w);
    assert MoveLoop(s, cs, i, d, w) == r;
    assert r.children[..i + 1] == cs'[..i + 1];
    assert r.children[i] == c;
    assert r.children[i..] == [c] + r.children[i + 1..];
    assert r.children[..i] == r.children[..i + 1][..i];
    assert cs'[..i] == cs[..i];
  }

  /** A search that does not find the window visits every child container
      and collapses each one left with a single child: afterwards no
      container below the searched one has exactly one child, and the
      window order is untouched. */
  lemma {:induction false} MoveLoopCollapsesAbsent(s: Split, cs: seq<Node>, i: nat, d: Direction, w: Window)
    requires Cardinal(d) && i <= |cs|
    requires w !in ListLeaves(cs[i..])
    ensures CollapsedFrom(cs, i, MoveLoop(s, cs, i, d, w))
    decreases ListSize(cs[i..])
  {
    if i < |cs| {
      ListLeavesFrom(cs, i);
      match cs[i]
      case Leaf(v) =>
        MoveLoopCollapsesAbsent(s, cs, i + 1, d, w);
        CollapsedLeafStep(s, cs, i, d, w);
      case Container(sp, sub) =>
        assert sub[0..] == sub;
        MoveLoopCollapsesAbsent(sp, sub, 0, d, w);
        var inner := MoveLoop(sp, sub, 0, d, w);
        var cs' := cs[i := Collapse(sp, inner.children)];
        assert cs'[i + 1..] == cs[i + 1..];
        ListLeavesFrom(cs', i);
        MoveLoopCollapsesAbsent(s, cs', i + 1, d, w);
        CollapsedContainerStep(s, cs, i, d, w);
    } else {
      assert MoveLoop(s, cs, i, d, w).children[i..] == [];
    }
  }

  /** `move_window` of a window not in the tree reports `has_not_window`,
      does no root split and keeps the windows in order, but still flattens
      every single-child container below the root. */
  lemma MoveWindowAbsent(s: Split, cs: seq<Node>, d: Direction, w: Window)
    requires Cardinal(d) && w !in ListLeaves(cs)
    ensures var r := MoveWindow(s, cs, d, w);
      && r.status == HasNotWindow
      && r.split == s
      && ListLeaves(r.children) == ListLeaves(cs)
      && AllNoSingleton(r.children)
  {
    assert cs[0..] == cs;
    MoveLoopCollapsesAbsent(s, cs, 0, d, w);
    MoveLoopWindows(s, cs, 0, d, w);
    assert MoveLoop(s, cs, 0, d, w).children[0..] == MoveLoop(s, cs, 0, d, w).children;
  }

  /** The root split: when the search evicts the window from the whole tree,
      the old root becomes one child of a new root split along `d`. */
  lemma MoveWindowRootSplit(s: Split, cs: seq<Node>, d: Direction, w: Window)
    requires Cardinal(d)
    requires MoveLoop(s, cs, 0, d, w).status == CouldNotFocus
    ensures var r := MoveWindow(s, cs, d, w);
      var prior := Container(s, MoveLoop(s, cs, 0, d, w).children);
      && r.status == FocusSucceeded
      && r.split == (if d.Up? || d.Down? then HSplit else VSplit)
      && |r.children| == 2
      && r.children[if d.Up? || d.Left? then 0 else 1] == Leaf(w)
      && r.children[if d.Up? || d.Left? then 1 else 0] == prior
      && multiset(ListLeaves(prior.children)) + multiset{w} == multiset(ListLeaves(cs))
  {
    assert cs[0..] == cs;
    MoveLoopWindows(s, cs, 0, d, w);
  }

  /** Root `Vertical{A, B}`, move A up: A is evicted across the vertical
      split and the root split leaves `Horizontal{A, Vertical{B}}`, the old
      root kept with its single child. */
  lemma MoveUpFromVerticalPair()
    ensures MoveWindow(VSplit, [Leaf(1), Leaf(2)], Up, 1)
         == RootMove(FocusSucceeded, HSplit, [Leaf(1), Container(VSplit, [Leaf(2)])])
  {
    assert [Leaf(1), Leaf(2)][1..] == [Leaf(2)];
    assert MoveLoop(VSplit, [Leaf(1), Leaf(2)], 0, Up, 1) == Moved(CouldNotFocus, [Leaf(2)]);
  }

  /** Root `Vertical{A}`, move A right: A is popped off the edge and the root
      split leaves `Vertical{Vertical{}, A}`, an empty container beside A. */
  lemma MoveRightFromSingleton()
    ensures MoveWindow(VSplit, [Leaf(1)], Right, 1)
         == RootMove(FocusSucceeded, VSplit, [Container(VSplit, []), Leaf(1)])
  {
    assert MoveLoop(VSplit, [Leaf(1)], 0, Right, 1) == Moved(CouldNotFocus, []);
  }

  // ---------------------------------------------------------------------
  // resize
  // ---------------------------------------------------------------------

  /** The `window_to_rect` calls `resize` makes, in order: a leaf places its
      window in the given rectangle, a container partitions it among its
      children by its split. */
  function Arrange(n: Node, r: Rect, gaps: int): seq<(Window, Rect)>
  {
    match n
    case Leaf(w) => [(w, r)]
    case Container(s, cs) => ArrangeList(cs, Partition(s, r, |cs|, gaps), gaps)
  }

  function ArrangeList(cs: seq<Node>, rects: seq<Rect>, gaps: int): seq<(Window, Rect)>
    requires |rects| == |cs|
  {
    if cs == [] then [] else Arrange(cs[0], rects[0], gaps) + ArrangeList(cs[1..], rects[1..], gaps)
  }

  lemma {:induction false} ArrangeListAppend(a: seq<Node>, ra: seq<Rect>, b: seq<Node>, rb: seq<Rect>, gaps: int)
    requires |ra| == |a| && |rb| == |b|
    ensures ArrangeList(a + b, ra + rb, gaps) == ArrangeList(a, ra, gaps) + ArrangeList(b, rb, gaps)
  {
    if a == [] {
      assert a + b == b && ra + rb == rb;
    } else {
      assert (a + b)[1..] == a[1..] + b;
      assert (ra + rb)[1..] == ra[1..] + rb;
      ArrangeListAppend(a[1..], ra[1..], b, rb, gaps);
    }
  }

  /** Laying out one more child appends that child's placements. */
  lemma ArrangeListSnoc(cs: seq<Node>, rects: seq<Rect>, i: nat, gaps: int)
    requires |rects| == |cs| && i < |cs|
    ensures ArrangeList(cs[..i + 1], rects[..i + 1], gaps)
         == ArrangeList(cs[..i], rects[..i], gaps) + Arrange(cs[i], rects[i], gaps)
  {
    assert cs[..i + 1] == cs[..i] + [cs[i]];
    assert rects[..i + 1] == rects[..i] + [rects[i]];
    ArrangeListAppend(cs[..i], rects[..i], [cs[i]], [rects[i]], gaps);
    assert [cs[i]][1..] == [] && [rects[i]][1..] == [];
    assert ArrangeList([cs[i]], [rects[i]], gaps) == Arrange(cs[i], rects[i], gaps) + [];
  }

  function Windows(ps: seq<(Window, Rect)>): seq<Window>
  {
    if ps == [] then [] else [ps[0].0] + Windows(ps[1..])
  }

  lemma {:induction false} WindowsAppend(a: seq<(Window, Rect)>, b: seq<(Window, Rect)>)
    ensures Windows(a + b) == Windows(a) + Windows(b)
  {
    if a == [] {
      assert a + b == b;
    } else {
      assert (a + b)[1..] == a[1..] + b;
      WindowsAppend(a[1..], b);
    }
  }

  /** `resize` places every window of the subtree exactly once, in
      depth-first order, and nothing else. */
  lemma {:induction false} ArrangePlacesEachWindow(n: Node, r: Rect, gaps: int)
    ensures Windows(Arrange(n, r, gaps)) == Leaves(n)
  {
    match n
    case Leaf(w) =>
      assert Windows([(w, r)]) == [w] + Windows([]);
    case Container(s, cs) =>
      ArrangeListPlaces(cs, Partition(s, r, |cs|, gaps), gaps);
  }

  lemma {:induction false} ArrangeListPlaces(cs: seq<Node>, rects: seq<Rect>, gaps: int)
    requires |rects| == |cs|
    ensures Windows(ArrangeList(cs, rects, gaps)) == ListLeaves(cs)
  {
    if cs != [] {
      ArrangePlacesEachWindow(cs[0], rects[0], gaps);
      ArrangeListPlaces(cs[1..], rects[1..], gaps);
      WindowsAppend(Arrange(cs[0], rects[0], gaps), ArrangeList(cs[1..], rects[1..], gaps));
    }
  }
}
