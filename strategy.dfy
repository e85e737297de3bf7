/** The two split strategies of a layout container, `layout_vsplit` and
    `layout_hsplit`: how a container divides its rectangle among its
    children, which sibling a directional focus lands on, and how a
    directional move or insert edits the ordered child list in place.
    The strategies never look inside a child, so everything here is generic
    in the child type. */
module Strategy {

  datatype Option<T> = None | Some(value: T)

  /** `rect` of utils.hpp: plain `int` fields, no invariant. */
  datatype Rect = Rect(x: int, y: int, w: int, h: int)

  datatype Direction = Up | Down | Left | Right | Next | Prev

  /** The control signal the recursive tree searches pass upwards. */
  datatype FocusData = HasNotWindow | CouldNotFocus | FocusSucceeded

  /** VSplit lays children out left to right, HSplit top to bottom. */
  datatype Split = VSplit | HSplit

  /** The two `std::runtime_error`s the strategies throw. */
  datatype Error = IndexOutOfRange | EmptyVector

  datatype Result<T> = Ok(value: T) | Err(error: Error)

  /** An in-place edit of a child list: the signal returned and the list afterwards. */
  datatype Edit<T> = Edit(status: FocusData, items: seq<T>)

  /** The four directions every `switch` of the strategies handles. */
  predicate Cardinal(d: Direction)
  {
    !d.Next? && !d.Prev?
  }

  /** A direction across the split's main axis, which the strategy cannot serve. */
  predicate Orthogonal(s: Split, d: Direction)
  {
    match s
    case VSplit => d.Up? || d.Down?
    case HSplit => d.Left? || d.Right?
  }

  /** Towards the front of the child list, when taken along the main axis. */
  predicate Backward(d: Direction)
  {
    d.Prev? || d.Left? || d.Up?
  }

  // ---------------------------------------------------------------------
  // Geometry: layout_vsplit::resize / layout_hsplit::resize
  // ---------------------------------------------------------------------

  /** C++ `/` on `int`: the quotient truncated toward zero. */
  function TruncDiv(a: int, n: int): (q: int)
    requires n > 0
    ensures 0 <= a ==> 0 <= q && q * n <= a < q * n + n
    ensures a < 0 ==> q <= 0 && q * n - n < a <= q * n
  {
    if a >= 0 then a / n else -((-a) / n)
  }

  function MainOrigin(s: Split, r: Rect): int
  {
    match s
    case VSplit => r.x
    case HSplit => r.y
  }

  function MainExtent(s: Split, r: Rect): int
  {
    match s
    case VSplit => r.w
    case HSplit => r.h
  }

  /** Main-axis extent every one of `n` children gets: what is left after the
      `n - 1` gaps, divided with truncation. */
  function Share(s: Split, r: Rect, n: nat, gaps: int): int
    requires n > 0
  {
    TruncDiv(MainExtent(s, r) - (n - 1) * gaps, n)
  }

  /** The rectangle handed to child `i` of `n`: the running offset grows by
      `share + gaps` per child; the cross axis is the parent's. */
  function Slot(s: Split, r: Rect, n: nat, gaps: int, i: nat): Rect
    requires n > 0
  {
    var share := Share(s, r, n, gaps);
    var offset := i * (share + gaps);
    match s
    case VSplit => Rect(r.x + offset, r.y, share, r.h)
    case HSplit => Rect(r.x, r.y + offset, r.w, share)
  }

  /** The rectangles of all `n` children, in child order; none for no child. */
  function Partition(s: Split, r: Rect, n: nat, gaps: int): seq<Rect>
  {
    if n == 0 then [] else seq(n, i requires 0 <= i < n => Slot(s, r, n, gaps, i))
  }

  function End(s: Split, q: Rect): int
  {
    MainOrigin(s, q) + MainExtent(s, q)
  }

  /** Each child gets the same share and the parent's cross axis; consecutive
      children are exactly `gaps` apart. */
  lemma PartitionSlots(s: Split, r: Rect, n: nat, gaps: int, i: nat)
    requires i < n
    ensures |Partition(s, r, n, gaps)| == n
    ensures var q := Partition(s, r, n, gaps)[i];
      && MainExtent(s, q) == Share(s, r, n, gaps)
      && MainOrigin(s, q) == MainOrigin(s, r) + i * (Share(s, r, n, gaps) + gaps)
      && (s.VSplit? ==> q.y == r.y && q.h == r.h)
      && (s.HSplit? ==> q.x == r.x && q.w == r.w)
    ensures i + 1 < n ==>
      MainOrigin(s, Partition(s, r, n, gaps)[i + 1]) == End(s, Partition(s, r, n, gaps)[i]) + gaps
  {
    var share := Share(s, r, n, gaps);
    assert (i + 1) * (share + gaps) == i * (share + gaps) + share + gaps;
  }

  lemma PartitionAt(s: Split, r: Rect, n: nat, gaps: int, i: nat)
    requires i < n
    ensures |Partition(s, r, n, gaps)| == n
    ensures Partition(s, r, n, gaps)[i] == Slot(s, r, n, gaps, i)
  {
  }

  /** The rectangle a running offset names: at `i` shares and gaps past the
      origin it is child `i`'s slot, and one more share and gap reaches the
      next child's offset. */
  lemma OffsetSlot(s: Split, r: Rect, n: nat, gaps: int, i: nat, offset: int)
    requires i < n
    requires offset == MainOrigin(s, r) + i * (Share(s, r, n, gaps) + gaps)
    ensures |Partition(s, r, n, gaps)| == n
    ensures Partition(s, r, n, gaps)[i]
      == if s == VSplit then Rect(offset, r.y, Share(s, r, n, gaps), r.h)
         else Rect(r.x, offset, r.w, Share(s, r, n, gaps))
    ensures offset + Share(s, r, n, gaps) + gaps
      == MainOrigin(s, r) + (i + 1) * (Share(s, r, n, gaps) + gaps)
  {
    PartitionAt(s, r, n, gaps, i);
  }

  /** When the gaps fit, the children stay inside the parent and the unused
      strip after the last child is exactly the division remainder, so it is
      smaller than `n`: it is not handed to the last child. */
  lemma {:induction false} PartitionRemainder(s: Split, r: Rect, n: nat, gaps: int)
    requires n > 0
    requires MainExtent(s, r) - (n - 1) * gaps >= 0
    ensures var last := Partition(s, r, n, gaps)[n - 1];
      var unused := End(s, r) - End(s, last);
      && unused == (MainExtent(s, r) - (n - 1) * gaps) % n
      && 0 <= unused < n
  {
    var share := Share(s, r, n, gaps);
    var avail := MainExtent(s, r) - (n - 1) * gaps;
    assert share == avail / n;
    var last := Partition(s, r, n, gaps)[n - 1];
    assert MainOrigin(s, last) == MainOrigin(s, r) + (n - 1) * (share + gaps);
    assert MainExtent(s, last) == share;
    calc {
      End(s, r) - End(s, last);
      MainOrigin(s, r) + MainExtent(s, r) - MainOrigin(s, r) - (n - 1) * (share + gaps) - share;
      { assert (n - 1) * (share + gaps) == (n - 1) * share + (n - 1) * gaps; }
      MainExtent(s, r) - (n - 1) * gaps - n * share;
      avail - (avail / n) * n;
      avail % n;
    }
  }

  /** When the gaps do not fit, the share is truncated toward zero (never
      rounded down past it) and is not positive. */
  lemma TruncatedShare(s: Split, r: Rect, n: nat, gaps: int)
    requires n > 0
    requires MainExtent(s, r) - (n - 1) * gaps < 0
    ensures var avail := MainExtent(s, r) - (n - 1) * gaps;
      Share(s, r, n, gaps) <= 0 && Share(s, r, n, gaps) * n - n < avail <= Share(s, r, n, gaps) * n
  {
  }

  /** Two children of a 1000-wide parent with gaps of 10: 495 each, the second at +505. */
  lemma TwoChildrenExample(y: int, h: int)
    ensures Partition(VSplit, Rect(0, y, 1000, h), 2, 10) == [Rect(0, y, 495, h), Rect(505, y, 495, h)]
  {
  }

  /** Three children of a 1000-wide parent with gaps of 10: 326 each at 0, 336
      and 672; the last ends at 998 and two units stay unused. */
  lemma ThreeChildrenExample(y: int, h: int)
    ensures Partition(VSplit, Rect(0, y, 1000, h), 3, 10)
         == [Rect(0, y, 326, h), Rect(336, y, 326, h), Rect(672, y, 326, h)]
  {
  }

  // ---------------------------------------------------------------------
  // Focus: layout_vsplit::focus / layout_hsplit::focus
  // ---------------------------------------------------------------------

  /** The sibling that `focus` hands input focus to from child `index` of
      `count`, or None for `could_not_focus`: the adjacent sibling in the
      requested direction along the main axis, when there is one. */
  function FocusTarget(s: Split, d: Direction, index: nat, count: nat): (t: Option<nat>)
    requires index < count
    ensures t.Some? <==> !Orthogonal(s, d) && (if Backward(d) then 0 < index else index + 1 < count)
    ensures t.Some? ==> t.value < count && t.value != index
    ensures t.Some? ==> if Backward(d) then t.value + 1 == index else t.value == index + 1
  {
    if Orthogonal(s, d) then None
    else if Backward(d) then (if index == 0 then None else Some(index - 1))
    else if index + 1 >= count then None
    else Some(index + 1)
  }

  // ---------------------------------------------------------------------
  // Move and insert: layout_vsplit/hsplit::move and ::insert
  // ---------------------------------------------------------------------

  function RemoveAt<T>(items: seq<T>, i: nat): seq<T>
    requires i < |items|
  {
    items[..i] + items[i + 1..]
  }

  /** `std::swap(items[i], items[i + 1])`. */
  function SwapNext<T>(items: seq<T>, i: nat): seq<T>
    requires i + 1 < |items|
  {
    items[..i] + [items[i + 1], items[i]] + items[i + 2..]
  }

  /** `move` of child `w`: on the main axis with a neighbour in direction `d`
      it swaps the two and succeeds; otherwise (an orthogonal direction, or
      the edge of the list) it takes child `w` out and reports
      `could_not_focus`, leaving the caller to re-home it. An empty list is
      the "passed empty vector" error. */
  function Move<T>(s: Split, d: Direction, w: nat, items: seq<T>): (r: Result<Edit<T>>)
    requires Cardinal(d)
    requires items == [] || w < |items|
    ensures r.Err? <==> items == []
    ensures r.Err? ==> r.error == EmptyVector
    ensures r.Ok? ==> r.value.status != HasNotWindow
    ensures r.Ok? ==> (r.value.status == FocusSucceeded <==> FocusTarget(s, d, w, |items|).Some?)
    ensures r.Ok? && r.value.status == FocusSucceeded ==>
      var j := FocusTarget(s, d, w, |items|).value;
      && |r.value.items| == |items|
      && r.value.items[j] == items[w] && r.value.items[w] == items[j]
      && forall k :: 0 <= k < |items| && k != j && k != w ==> r.value.items[k] == items[k]
    ensures r.Ok? && r.value.status == CouldNotFocus ==> r.value.items == RemoveAt(items, w)
  {
    if items == [] then Err(EmptyVector)
    else if Orthogonal(s, d) then Ok(Edit(CouldNotFocus, items[..w] + items[w + 1..]))
    else if Backward(d) then
      if w == 0 then
        assert items[1..] == RemoveAt(items, 0);
        Ok(Edit(CouldNotFocus, items[1..]))
      else Ok(Edit(FocusSucceeded, SwapNext(items, w - 1)))
    else if w + 1 >= |items| then
      Ok(Edit(CouldNotFocus, items[..|items| - 1]))
    else Ok(Edit(FocusSucceeded, SwapNext(items, w)))
  }

  /** A successful move is a swap with the adjacent sibling, in list terms. */
  lemma MoveSwaps<T>(s: Split, d: Direction, w: nat, items: seq<T>)
    requires Cardinal(d) && w < |items|
    requires Move(s, d, w, items).value.status == FocusSucceeded
    ensures var j := FocusTarget(s, d, w, |items|).value;
      var lo := if j < w then j else w;
      Move(s, d, w, items).value.items == SwapNext(items, lo)
  {
  }

  /** A list seen around the adjacent pair at `i`. */
  lemma AroundPair<T>(items: seq<T>, i: nat)
    requires i + 1 < |items|
    ensures items == items[..i] + [items[i], items[i + 1]] + items[i + 2..]
  {
    assert items == items[..i] + items[i..];
    assert items[i..] == [items[i], items[i + 1]] + items[i + 2..];
  }

  lemma SwapNextMultiset<T>(items: seq<T>, i: nat)
    requires i + 1 < |items|
    ensures multiset(SwapNext(items, i)) == multiset(items)
  {
    var pre, x, y, post := items[..i], items[i], items[i + 1], items[i + 2..];
    AroundPair(items, i);
    assert multiset([x, y]) == multiset([y, x]);
    assert multiset(pre + [x, y] + post) == multiset(pre) + multiset([x, y]) + multiset(post);
    assert multiset(pre + [y, x] + post) == multiset(pre) + multiset([y, x]) + multiset(post);
  }

  lemma RemoveAtMultiset<T>(items: seq<T>, i: nat)
    requires i < |items|
    ensures multiset(RemoveAt(items, i)) + multiset{items[i]} == multiset(items)
  {
    assert items == items[..i] + [items[i]] + items[i + 1..];
  }

  /** A move never loses or invents a child: a swap permutes the list, an
      eviction removes exactly the moved child. */
  lemma MoveMultiset<T>(s: Split, d: Direction, w: nat, items: seq<T>)
    requires Cardinal(d) && w < |items|
    ensures var e := Move(s, d, w, items).value;
      (e.status == FocusSucceeded ==> multiset(e.items) == multiset(items))
      && (e.status == CouldNotFocus ==> multiset(e.items) + multiset{items[w]} == multiset(items))
  {
    var e := Move(s, d, w, items).value;
    if e.status == FocusSucceeded {
      MoveSwaps(s, d, w, items);
      var j := FocusTarget(s, d, w, |items|).value;
      SwapNextMultiset(items, if j < w then j else w);
    } else {
      RemoveAtMultiset(items, w);
    }
  }

  /** Moving back undoes a successful move: a swap is its own inverse. */
  lemma {:induction false} MoveBackRestores<T>(s: Split, d: Direction, d': Direction, w: nat, items: seq<T>)
    requires Cardinal(d) && Cardinal(d') && w < |items|
    requires !Orthogonal(s, d) && !Orthogonal(s, d') && Backward(d) != Backward(d')
    requires Move(s, d, w, items).value.status == FocusSucceeded
    ensures var once := Move(s, d, w, items).value.items;
      var j := FocusTarget(s, d, w, |items|).value;
      Move(s, d', j, once) == Ok(Edit(FocusSucceeded, items))
  {
    var once := Move(s, d, w, items).value.items;
    var j := FocusTarget(s, d, w, |items|).value;
    assert FocusTarget(s, d', j, |once|) == Some(w);
    var twice := Move(s, d', j, once).value;
    assert twice.items == items;
  }

  /** Where `insert` places the new child: before `w` backwards, after it forwards. */
  function InsertPos(d: Direction, w: nat): nat
  {
    if Backward(d) then w else w + 1
  }

  /** `insert` of `x` next to child `w`: an orthogonal direction refuses and
      leaves the list alone; otherwise an index past the end is the
      "index out of range" error, and a valid one puts `x` before or after
      child `w` with every other child kept in order. */
  function Insert<T>(s: Split, d: Direction, x: T, w: nat, items: seq<T>): (r: Result<Edit<T>>)
    ensures Orthogonal(s, d) ==> r == Ok(Edit(CouldNotFocus, items))
    ensures !Orthogonal(s, d) ==> (r.Err? <==> w >= |items|)
    ensures r.Err? ==> r.error == IndexOutOfRange
    ensures !Orthogonal(s, d) && r.Ok? ==>
      var p := InsertPos(d, w);
      && r.value.status == FocusSucceeded
      && p <= |items|
      && |r.value.items| == |items| + 1
      && r.value.items[p] == x
      && RemoveAt(r.value.items, p) == items
  {
    if Orthogonal(s, d) then Ok(Edit(CouldNotFocus, items))
    else if w >= |items| then Err(IndexOutOfRange)
    else
      var p := InsertPos(d, w);
      var res := items[..p] + [x] + items[p..];
      assert RemoveAt(res, p) == items by {
        assert res[..p] == items[..p];
        assert res[p + 1..] == items[p..];
      }
      Ok(Edit(FocusSucceeded, res))
  }

  /** A successful insert adds exactly `x` to the multiset of children. */
  lemma InsertMultiset<T>(s: Split, d: Direction, x: T, w: nat, items: seq<T>)
    requires Insert(s, d, x, w, items).Ok?
    ensures var e := Insert(s, d, x, w, items).value;
      (e.status == FocusSucceeded ==> multiset(e.items) == multiset(items) + multiset{x})
      && (e.status == CouldNotFocus ==> e.items == items)
  {
    var e := Insert(s, d, x, w, items).value;
    if e.status == FocusSucceeded {
      var p := InsertPos(d, w);
      assert e.items == e.items[..p] + [x] + e.items[p + 1..];
      assert items == e.items[..p] + e.items[p + 1..];
    }
  }
}
