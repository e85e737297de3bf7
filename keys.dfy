/** Key bindings of x11.hpp: the modifier and event masks as the bit sets
    the X protocol defines, the include/exclude test of `key_match`, and
    the enumeration of modifier states `display::grab_key` performs. */
module Keys {
  /** `mod_mask_base` is `unsigned int`; `event_mask_base` is `long`. */
  type ModMask = bv32
  type EventMask = bv64
  /** `KeyCode` is an `unsigned char`. */
  type KeyCode = bv8

  // Modifier bits as the X protocol numbers them.
  const None: ModMask := 0
  const Shift: ModMask := 1
  const Lock: ModMask := 2
  const Control: ModMask := 4
  const Mod1: ModMask := 8
  const Mod2: ModMask := 16
  const Mod4: ModMask := 64
  const AnyModifier: ModMask := 0x8000

  // The event-mask bits the window manager selects on the root window.
  const NoEventMask: EventMask := 0
  const KeyPressMask: EventMask := 1
  const StructureNotifyMask: EventMask := 0x2_0000
  const SubstructureNotifyMask: EventMask := 0x8_0000
  const SubstructureRedirectMask: EventMask := 0x10_0000

  /** `operator |` on modifier masks: the union of the two bit sets, so
      it holds both operands. */
  function ModOr(a: ModMask, b: ModMask): (r: ModMask)
    ensures r & a == a && r & b == b
  {
    a | b
  }

  /** `operator &` on modifier masks: the intersection of the two bit sets,
      so it lies inside both operands. */
  function ModAnd(a: ModMask, b: ModMask): (r: ModMask)
    ensures r & a == r && r & b == r
  {
    a & b
  }

  /** `operator |` on event masks: the union of the two bit sets. */
  function EventOr(a: EventMask, b: EventMask): (r: EventMask)
    ensures r & a == a && r & b == b
  {
    a | b
  }

  /** The union is the smallest mask holding both operands, and the
      intersection the largest mask inside both. */
  lemma ModOrLeast(a: ModMask, b: ModMask, c: ModMask)
    requires ModAnd(c, a) == a && ModAnd(c, b) == b
    ensures ModAnd(c, ModOr(a, b)) == ModOr(a, b)
  {
  }

  lemma ModAndGreatest(a: ModMask, b: ModMask, c: ModMask)
    requires ModAnd(c, a) == c && ModAnd(c, b) == c
    ensures ModAnd(c, ModAnd(a, b)) == c
  {
  }

  lemma EventOrLeast(a: EventMask, b: EventMask, c: EventMask)
    requires c & a == a && c & b == b
    ensures c & EventOr(a, b) == EventOr(a, b)
  {
  }

  /** The mask operators form a lattice: each is commutative, associative
      and idempotent, and each absorbs the other. */
  lemma ModOrAlgebra(a: ModMask, b: ModMask, c: ModMask)
    ensures ModOr(a, b) == ModOr(b, a)
    ensures ModOr(ModOr(a, b), c) == ModOr(a, ModOr(b, c))
    ensures ModOr(a, a) == a && ModOr(a, None) == a
  {
  }

  lemma ModAndAlgebra(a: ModMask, b: ModMask, c: ModMask)
    ensures ModAnd(a, b) == ModAnd(b, a)
    ensures ModAnd(ModAnd(a, b), c) == ModAnd(a, ModAnd(b, c))
    ensures ModAnd(a, a) == a && ModAnd(a, None) == None
  {
  }

  lemma ModMaskAbsorption(a: ModMask, b: ModMask)
    ensures ModOr(a, ModAnd(a, b)) == a
    ensures ModAnd(a, ModOr(a, b)) == a
  {
  }

  lemma EventOrCommutes(a: EventMask, b: EventMask)
    ensures EventOr(a, b) == EventOr(b, a)
  {
  }

  lemma EventOrAssociates(a: EventMask, b: EventMask, c: EventMask)
    ensures EventOr(EventOr(a, b), c) == EventOr(a, EventOr(b, c))
  {
  }

  lemma EventOrIdempotent(a: EventMask)
    ensures EventOr(a, a) == a && EventOr(a, NoEventMask) == a
  {
  }

  /** The events the window manager selects on the root window: the
      redirection and notification of its children's structure changes. */
  const RootSelection: EventMask := EventOr(SubstructureRedirectMask, SubstructureNotifyMask)

  /** The root selection holds both substructure bits and nothing else: not
      key presses, and not the root's own structure notifications. */
  lemma RootSelectionBits()
    ensures RootSelection & SubstructureRedirectMask == SubstructureRedirectMask
    ensures RootSelection & SubstructureNotifyMask == SubstructureNotifyMask
    ensures RootSelection & KeyPressMask == NoEventMask
    ensures RootSelection & StructureNotifyMask == NoEventMask
    ensures RootSelection == 0x18_0000
  {
  }

  /** `key_match`: a key code, the modifiers that must be held and those
      that must not. */
  datatype KeyMatch = KeyMatch(keyCode: KeyCode, includeMask: ModMask, excludeMask: ModMask)

  /** A `key_match` built from a key code alone takes the member defaults:
      include `any`, exclude `none`. */
  function DefaultMatch(kc: KeyCode): KeyMatch
  {
    KeyMatch(kc, AnyModifier, None)
  }

  /** `matches_mod_mask`: every included modifier is held and no excluded
      one is. The overload on the raw `unsigned int` casts to the enum,
      which keeps the bits, so this one definition stands for both. */
  predicate MatchesModMask(k: KeyMatch, m: ModMask)
  {
    ModAnd(m, k.includeMask) == k.includeMask && ModAnd(m, k.excludeMask) == None
  }

  /** `matches`: the modifier test and the key code. */
  predicate Matches(k: KeyMatch, kc: KeyCode, m: ModMask)
  {
    MatchesModMask(k, m) && kc == k.keyCode
  }

  /** The modifier test only constrains the included and excluded bits:
      holding further modifiers outside `exclude` keeps a match, and
      releasing modifiers outside `include` keeps it too. */
  lemma MatchesWhenHoldingMore(k: KeyMatch, m: ModMask, x: ModMask)
    requires MatchesModMask(k, m) && ModAnd(x, k.excludeMask) == None
    ensures MatchesModMask(k, ModOr(m, x))
  {
    UnionKeeps(m, x, k.includeMask);
    DisjointUnion(m, x, k.excludeMask);
  }

  lemma MatchesWhenReleasing(k: KeyMatch, m: ModMask, x: ModMask)
    requires MatchesModMask(k, m) && ModAnd(x, k.includeMask) == None
    ensures MatchesModMask(k, m & !x)
  {
    ReleaseKeeps(m, x, k.includeMask);
    ReleaseDisjoint(m, x, k.excludeMask);
  }

  lemma UnionKeeps(m: ModMask, x: ModMask, i: ModMask)
    ensures m & i == i ==> (m | x) & i == i
  {
  }

  lemma ReleaseKeeps(m: ModMask, x: ModMask, i: ModMask)
    ensures m & i == i && x & i == 0 ==> (m & !x) & i == i
  {
  }

  lemma ReleaseDisjoint(m: ModMask, x: ModMask, e: ModMask)
    ensures m & e == 0 ==> (m & !x) & e == 0
  {
  }

  /** A mask matches exactly when it is the union of `include` and bits
      outside `exclude`: every match holds `include`, and `include` joined
      with `x` matches iff neither `include` nor `x` meets `exclude`. So a
      key match whose two masks overlap matches nothing. */
  lemma MatchHoldsInclude(k: KeyMatch, m: ModMask)
    ensures MatchesModMask(k, m) ==> m == ModOr(k.includeMask, m)
  {
    HoldsIsUnion(k.includeMask, m);
  }

  lemma MatchesUnion(k: KeyMatch, x: ModMask)
    ensures MatchesModMask(k, ModOr(k.includeMask, x)) <==>
      ModAnd(k.includeMask, k.excludeMask) == None && ModAnd(x, k.excludeMask) == None
  {
    UnionHolds(k.includeMask, x);
    UnionDisjoint(k.includeMask, x, k.excludeMask);
    DisjointUnion(k.includeMask, x, k.excludeMask);
  }

  lemma HoldsIsUnion(i: ModMask, m: ModMask)
    ensures m & i == i ==> m == m | i
  {
  }

  lemma UnionHolds(i: ModMask, x: ModMask)
    ensures ModAnd(ModOr(i, x), i) == i
  {
  }

  /** Bits outside a union are outside each part. */
  lemma UnionDisjoint(i: ModMask, x: ModMask, e: ModMask)
    ensures ModAnd(ModOr(i, x), e) == None ==> ModAnd(i, e) == None && ModAnd(x, e) == None
  {
    DisjointLeft(i, x, e);
    DisjointLeft(x, i, e);
    assert x | i == i | x;
  }

  lemma DisjointLeft(i: ModMask, x: ModMask, e: ModMask)
    ensures (i | x) & e == 0 ==> i & e == 0
  {
  }

  lemma DisjointUnion(i: ModMask, x: ModMask, e: ModMask)
    ensures ModAnd(i, e) == None && ModAnd(x, e) == None ==> ModAnd(ModOr(i, x), e) == None
  {
  }

  /** With the default `exclude` of `none` the exclude test always holds and
      matching is the include test alone. */
  lemma DefaultExcludeIsInclude(kc: KeyCode, inc: ModMask, m: ModMask)
    ensures MatchesModMask(KeyMatch(kc, inc, None), m) <==> ModAnd(m, inc) == inc
  {
  }

  /** With the default `include` of `any` the held state must carry the
      `AnyModifier` bit, which no 8-bit modifier state does: such a key match
      matches none of the states `grab_key` enumerates. */
  lemma DefaultIncludeBelowByte(kc: KeyCode, m: ModMask)
    requires m < 256
    ensures !MatchesModMask(DefaultMatch(kc), m)
  {
  }

  /** `matches_mod_mask` on the counter of `grab_key`, an 8-bit state. */
  predicate Accepts(k: KeyMatch, state: nat)
    requires state < 256
  {
    MatchesModMask(k, state as ModMask)
  }

  /** The modifier states below `n` that `k` accepts, in increasing order:
      the states `grab_key` grabs when its counter stops at `n`. */
  function Grabbed(k: KeyMatch, n: nat): (states: seq<nat>)
    requires n <= 256
    ensures forall a :: 0 <= a < |states| ==> states[a] < n
    ensures forall j: nat :: j in states <==> j < n && Accepts(k, j)
    ensures forall a, b :: 0 <= a < b < |states| ==> states[a] < states[b]
  {
    if n == 0 then []
    else
      var prior := Grabbed(k, n - 1);
      if Accepts(k, n - 1) then prior + [n - 1] else prior
  }

  /** `grab_key`: one `XGrabKey` of the key's code for every modifier state
      below `1 << 8` that `matches_mod_mask` accepts, in increasing order;
      the states grabbed come back in call order. */
  method GrabKey(k: KeyMatch) returns (grabs: seq<nat>)
    ensures grabs == Grabbed(k, 256)
  {
    grabs := [];
    var i: nat := 0;
    while i < 256
      invariant i <= 256
      invariant grabs == Grabbed(k, i)
    {
      if Accepts(k, i) {
        grabs := grabs + [i];
      }
      i := i + 1;
    }
  }

  /** The binding `btwm.cpp` installs for most keys: Super held; Lock,
      Control and Alt (Mod1) not. */
  function SuperKey(kc: KeyCode): KeyMatch
  {
    KeyMatch(kc, Mod4, ModOr(ModOr(Lock, Control), Mod1))
  }

  /** The binding for Super+Shift keys. */
  function SuperShiftKey(kc: KeyCode): KeyMatch
  {
    KeyMatch(kc, ModOr(Mod4, Shift), ModOr(ModOr(Lock, Control), Mod1))
  }

  /** The Super binding ignores Num Lock (Mod2) and Shift but not Caps Lock
      or Control; the Super+Shift binding also needs Shift. */
  lemma SuperBindings(kc: KeyCode)
    ensures MatchesModMask(SuperKey(kc), Mod4)
    ensures MatchesModMask(SuperKey(kc), ModOr(Mod4, Mod2))
    ensures MatchesModMask(SuperKey(kc), ModOr(Mod4, Shift))
    ensures !MatchesModMask(SuperKey(kc), ModOr(Mod4, Lock))
    ensures !MatchesModMask(SuperKey(kc), ModOr(Mod4, Control))
    ensures !MatchesModMask(SuperKey(kc), Shift)
    ensures MatchesModMask(SuperShiftKey(kc), ModOr(ModOr(Mod4, Shift), Mod2))
    ensures !MatchesModMask(SuperShiftKey(kc), Mod4)
  {
  }
}
