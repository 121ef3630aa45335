/** The address tree of the kernel: disjoint key ranges kept in a binary tree whose branching
    points ("semi" values) are fixed by the level and not by the stored ranges. */
module AddressTree {
  import opened Bits

  /** The inclusive key range `a_vmin .. a_vmax` of a leaf. */
  datatype Range = Range(lo: nat, hi: nat) {
    predicate Has(key: int) { lo <= key <= hi }
  }

  datatype Tree = Null | Node(r: Range, min: Tree, max: Tree)

  /** Where a walk stands. `At` is a semi-point with its level. `Below` is where a walk from
      level 0 ends up: a place for one single key, at which the level has run out. */
  datatype Pos = At(semi: nat, level: nat) | Below(key: nat)

  /** The test of the source for two ranges that overlap. */
  predicate Overlap(a: Range, b: Range) {
    a.lo <= b.hi && a.hi >= b.lo
  }

  predicate InRange(key: int, lo: int, hi: int) {
    lo <= key <= hi
  }

  /** It finds exactly the ranges that have a key in common. */
  lemma OverlapIsACommonKey(a: Range, b: Range)
    requires a.lo <= a.hi && b.lo <= b.hi
    ensures Overlap(a, b) <==> exists key :: InRange(key, a.lo, a.hi) && InRange(key, b.lo, b.hi)
    ensures forall key :: a.Has(key) <==> InRange(key, a.lo, a.hi)
  {
    if Overlap(a, b) {
      var key := if a.lo < b.lo then b.lo else a.lo;
      assert InRange(key, a.lo, a.hi) && InRange(key, b.lo, b.hi);
    }
  }

  // ---- Semi-points and levels ---------------------------------------------------------------

  /** The root position of a tree over keys of `bits` bits: ATREE_SEMI0 and ATREE_LEVEL0. */
  function Root(bits: nat): Pos
    requires bits >= 1
  {
    At(Pow2(bits - 1), bits - 1)
  }

  function MapMin(p: Pos): int {
    match p
    case At(semi, level) => semi - Pow2(level)
    case Below(key) => key
  }

  function MapMax(p: Pos): int {
    match p
    case At(semi, level) => semi + Pow2(level) - 1
    case Below(key) => key
  }

  /** The number of levels at and below a position. */
  function Height(p: Pos): nat {
    match p
    case At(_, level) => level + 1
    case Below(_) => 0
  }

  predicate ValidPos(p: Pos) {
    MapMin(p) >= 0
  }

  function WalkMin(p: Pos): (q: Pos)
    requires p.At? && ValidPos(p)
    ensures ValidPos(q) && Height(q) == Height(p) - 1
    ensures MapMin(q) == MapMin(p) && MapMax(q) == p.semi - 1
  {
    if p.level == 0 then Below(p.semi - 1)
    else At(p.semi - Pow2(p.level) + Pow2(p.level - 1), p.level - 1)
  }

  function WalkMax(p: Pos): (q: Pos)
    requires p.At? && ValidPos(p)
    ensures ValidPos(q) && Height(q) == Height(p) - 1
    ensures MapMin(q) == p.semi && MapMax(q) == MapMax(p)
  {
    if p.level == 0 then Below(p.semi)
    else At(p.semi + Pow2(p.level - 1), p.level - 1)
  }

  /** The arithmetic above is what the bit-twiddling macros of the header compute, and walking
      keeps the alignment on which that rests. */
  lemma {:induction false} MacrosAreArithmetic(semi: nat, level: nat)
    requires LowestBit(semi, level)
    ensures ValidPos(At(semi, level))
    ensures ClearBit(semi, level) == MapMin(At(semi, level))
    ensures FillLow(semi, level) == MapMax(At(semi, level))
    ensures level > 0 ==>
              && At(SetBit(ClearBit(semi, level), level - 1), level - 1) == WalkMin(At(semi, level))
              && At(SetBit(semi, level - 1), level - 1) == WalkMax(At(semi, level))
              && LowestBit(WalkMin(At(semi, level)).semi, level - 1)
              && LowestBit(WalkMax(At(semi, level)).semi, level - 1)
  {
    LowestBitOps(semi, level);
    LowestBitClear(semi, level);
    if level > 0 {
      SetBitAbove(semi, level - 1);
      SetBitAbove(ClearBit(semi, level), level - 1);
    }
  }

  /** ATREE_SEMI0 and ATREE_LEVEL0 make a root that maps every key of the width ... */
  lemma {:induction false} RootMapsAllKeys(bits: nat)
    requires bits >= 1
    ensures ValidPos(Root(bits)) && Height(Root(bits)) == bits
    ensures MapMin(Root(bits)) == 0 && MapMax(Root(bits)) == Pow2(bits) - 1
    ensures Root(bits).semi == MapMax(Root(bits)) / 2 + 1
  {
    HalfOfEven(Pow2(bits - 1));
  }

  lemma HalfOfEven(x: nat)
    ensures x > 0 ==> (2 * x - 1) / 2 + 1 == x
  {
  }

  /** ... and start that alignment. */
  lemma {:induction false} RootIsAligned(bits: nat)
    requires bits >= 1
    ensures LowestBit(Root(bits).semi, Root(bits).level)
  {
    PowerHasLowestBit(bits - 1);
  }

  lemma {:induction false} PowerHasLowestBit(k: nat)
    ensures LowestBit(Pow2(k), k)
  {
    if k > 0 { PowerHasLowestBit(k - 1); }
  }

  /** Where a walk from the root ends that turns to the upper side where `turns` says so. */
  function WalkFrom(p: Pos, turns: seq<bool>): Pos
    requires ValidPos(p) && |turns| <= Height(p)
    decreases |turns|
  {
    if turns == [] then p else WalkFrom(if turns[0] then WalkMax(p) else WalkMin(p), turns[1..])
  }

  /** Every place at a level that a walk from the root reaches is aligned, so that the macros
      compute what is modelled all the way down. */
  lemma {:induction false} WalksStayAligned(p: Pos, turns: seq<bool>)
    requires p.At? && ValidPos(p) && LowestBit(p.semi, p.level) && |turns| <= p.level
    ensures
      var q := WalkFrom(p, turns);
      && q.At? && q.level == p.level - |turns| && LowestBit(q.semi, q.level)
      && MapMin(q) >= MapMin(p) && MapMax(q) <= MapMax(p)
    decreases |turns|
  {
    if turns != [] {
      MacrosAreArithmetic(p.semi, p.level);
      WalksStayAligned(if turns[0] then WalkMax(p) else WalkMin(p), turns[1..]);
    }
  }

  // ---- Well-formed trees --------------------------------------------------------------------

  ghost function Ranges(t: Tree): set<Range> {
    match t
    case Null => {}
    case Node(r, min, max) => {r} + Ranges(min) + Ranges(max)
  }

  /** No range of `s` overlaps `r`. */
  ghost predicate Free(r: Range, s: set<Range>) {
    forall x :: x in s ==> !Overlap(r, x)
  }

  /** No key of `r` is in any range of `s`. */
  ghost predicate Unmapped(r: Range, s: set<Range>) {
    forall x, key :: x in s && InRange(key, x.lo, x.hi) ==> !InRange(key, r.lo, r.hi)
  }

  lemma FreeIsUnmapped(r: Range, s: set<Range>)
    requires r.lo <= r.hi && forall x :: x in s ==> x.lo <= x.hi
    ensures Free(r, s) <==> Unmapped(r, s)
  {
    forall x | x in s
      ensures Overlap(r, x) <==> exists key :: InRange(key, r.lo, r.hi) && InRange(key, x.lo, x.hi)
    {
      OverlapIsACommonKey(r, x);
    }
  }

  ghost predicate Apart(a: set<Range>, b: set<Range>) {
    forall x :: x in a ==> Free(x, b)
  }

  /** No two leaves of the tree overlap, wherever they stand. */
  ghost predicate Separate(t: Tree) {
    match t
    case Null => true
    case Node(r, min, max) =>
      && Separate(min) && Separate(max)
      && Free(r, Ranges(min)) && Free(r, Ranges(max)) && Apart(Ranges(min), Ranges(max))
  }

  predicate Fits(r: Range, p: Pos) {
    MapMin(p) <= r.lo <= r.hi <= MapMax(p)
  }

  function Semi(p: Pos): int {
    match p
    case At(semi, _) => semi
    case Below(key) => key
  }

  predicate Covers(r: Range, p: Pos) {
    r.Has(Semi(p))
  }

  ghost predicate RootCovers(t: Tree, p: Pos) {
    t.Node? && Covers(t.r, p)
  }

  /** The ordering rules of the tree. A leaf may stand at any position whose map holds it, but
      only the leaf at a position may cover that position's semi-point. */
  ghost predicate WF(t: Tree, p: Pos)
    decreases t
  {
    && ValidPos(p)
    && match t
       case Null => true
       case Node(r, min, max) =>
         && Fits(r, p)
         && Free(r, Ranges(min)) && Free(r, Ranges(max))
         && if p.Below? then min.Null? && max.Null?
            else
              && WF(min, WalkMin(p))
              && WF(max, WalkMax(p))
              && (forall x :: x in Ranges(max) ==> x.lo > p.semi)
  }

  lemma {:induction false} WFFits(t: Tree, p: Pos)
    requires WF(t, p)
    ensures forall x :: x in Ranges(t) ==> Fits(x, p)
    decreases t
  {
    if t.Node? && p.At? {
      WFFits(t.min, WalkMin(p));
      WFFits(t.max, WalkMax(p));
    }
  }

  lemma {:induction false} WFSeparate(t: Tree, p: Pos)
    requires WF(t, p)
    ensures Separate(t)
    decreases t
  {
    if t.Node? && p.At? {
      WFSeparate(t.min, WalkMin(p));
      WFSeparate(t.max, WalkMax(p));
      WFFits(t.min, WalkMin(p));
    }
  }

  // ---- Insertion ----------------------------------------------------------------------------

  /** What an insertion does: it leaves a tree, it reports that the range is taken, or one of its
      assertions fires. */
  datatype Outcome = Done(t: Tree) | Rejected | AssertionFailed

  function InsertAt(t: Tree, leaf: Range, p: Pos): (o: Outcome)
    requires WF(t, p) && Fits(leaf, p)
    ensures !o.Rejected?
    ensures o.Done? ==> WF(o.t, p) && Ranges(o.t) == Ranges(t) + {leaf}
    ensures o.Done? && RootCovers(t, p) ==> RootCovers(o.t, p)
    decreases Height(p), if Covers(leaf, p) && !RootCovers(t, p) then 2 else 0, t
  {
    if t.Null? then Done(Node(leaf, Null, Null))
    else if Overlap(leaf, t.r) then AssertionFailed
    else if Covers(leaf, p) then
      WFFits(t, p);
      var root := Node(leaf, Null, Null);
      RangesMovable(t, p, RootCovers(root, p));
      LeafWF(leaf, p);
      ReinsertAll(root, t, p)
    else if leaf.hi < Semi(p) then
      var o := InsertAt(t.min, leaf, WalkMin(p));
      if o.Done? then MinReplaced(t, o.t, p, {leaf}); Done(Node(t.r, o.t, t.max)) else o
    else
      var o := InsertAt(t.max, leaf, WalkMax(p));
      if o.Done? then MaxReplaced(t, o.t, p, {leaf}); Done(Node(t.r, t.min, o.t)) else o
  }

  lemma LeafWF(leaf: Range, p: Pos)
    requires ValidPos(p) && Fits(leaf, p)
    ensures WF(Node(leaf, Null, Null), p)
  {
  }

  /** A subtree may be swapped for one that holds a leaf more, or some leaves less. */
  lemma MinReplaced(t: Tree, m: Tree, p: Pos, more: set<Range>)
    requires t.Node? && p.At? && WF(t, p) && Free(t.r, more)
    requires WF(m, WalkMin(p)) && Ranges(m) <= Ranges(t.min) + more
    ensures WF(Node(t.r, m, t.max), p)
    ensures Ranges(m) == Ranges(t.min) + more ==> Ranges(Node(t.r, m, t.max)) == Ranges(t) + more
  {
    assert Free(t.r, Ranges(m));
  }

  lemma MaxReplaced(t: Tree, m: Tree, p: Pos, more: set<Range>)
    requires t.Node? && p.At? && WF(t, p) && Free(t.r, more) && forall x :: x in more ==> x.lo > p.semi
    requires WF(m, WalkMax(p)) && Ranges(m) <= Ranges(t.max) + more
    ensures WF(Node(t.r, t.min, m), p)
    ensures Ranges(m) == Ranges(t.max) + more ==> Ranges(Node(t.r, t.min, m)) == Ranges(t) + more
  {
    assert Free(t.r, Ranges(m)) && forall x :: x in Ranges(m) ==> x.lo > p.semi;
  }

  /** The leaf and the two subtrees have no range in common. */
  lemma PartsDisjoint(t: Tree, p: Pos)
    requires t.Node? && p.At? && WF(t, p)
    ensures t.r !in Ranges(t.min) && t.r !in Ranges(t.max) && Ranges(t.min) !! Ranges(t.max)
  {
    WFFits(t.min, WalkMin(p));
    assert Overlap(t.r, t.r);
    forall x | x in Ranges(t.min) ensures x !in Ranges(t.max) {
      assert Fits(x, WalkMin(p));
    }
  }

  lemma ApartCommutes(a: set<Range>, b: set<Range>)
    ensures Apart(a, b) <==> Apart(b, a)
  {
  }

  lemma FreeCommutes(r: Range, s: set<Range>)
    ensures Free(r, s) <==> Apart(s, {r})
  {
  }

  lemma ApartUnion(a: set<Range>, b: set<Range>, c: set<Range>)
    ensures Apart(a, b + c) <==> Apart(a, b) && Apart(a, c)
    ensures Apart(b + c, a) <==> Apart(b, a) && Apart(c, a)
  {
  }

  lemma ApartParts(t: Tree, s: set<Range>)
    requires t.Node?
    ensures Apart(Ranges(t), s) <==> Free(t.r, s) && Apart(Ranges(t.min), s) && Apart(Ranges(t.max), s)
  {
    ApartUnion(s, {t.r}, Ranges(t.min));
    ApartUnion(s, {t.r} + Ranges(t.min), Ranges(t.max));
  }

  /** Every leaf of `ins` may be inserted at `p`; unless the semi-point is taken already, none
      of them covers it. */
  ghost predicate Movable(ins: Tree, p: Pos, taken: bool) {
    match ins
    case Null => true
    case Node(r, min, max) =>
      Fits(r, p) && (taken || !Covers(r, p)) && Movable(min, p, taken) && Movable(max, p, taken)
  }

  lemma {:induction false} RangesMovable(ins: Tree, p: Pos, taken: bool)
    requires forall x :: x in Ranges(ins) ==> Fits(x, p) && (taken || !Covers(x, p))
    ensures Movable(ins, p, taken)
  {
    if ins.Node? {
      RangesMovable(ins.min, p, taken);
      RangesMovable(ins.max, p, taken);
    }
  }

  lemma {:induction false} MovableMono(ins: Tree, p: Pos, taken: bool, taken': bool)
    requires Movable(ins, p, taken) && (taken ==> taken')
    ensures Movable(ins, p, taken')
  {
    if ins.Node? {
      MovableMono(ins.min, p, taken, taken');
      MovableMono(ins.max, p, taken, taken');
    }
  }

  function ReinsertAll(root: Tree, ins: Tree, p: Pos): (o: Outcome)
    requires WF(root, p) && ins.Node? && Movable(ins, p, RootCovers(root, p))
    ensures !o.Rejected?
    ensures o.Done? ==> WF(o.t, p) && Ranges(o.t) == Ranges(root) + Ranges(ins)
    ensures o.Done? && RootCovers(root, p) ==> RootCovers(o.t, p)
    decreases Height(p), 1, ins
  {
    var o1 := if ins.min.Null? then Done(root) else ReinsertAll(root, ins.min, p);
    if !o1.Done? then o1 else
    MovableMono(ins.max, p, RootCovers(root, p), RootCovers(o1.t, p));
    var o2 := if ins.max.Null? then o1 else ReinsertAll(o1.t, ins.max, p);
    if !o2.Done? then o2 else
    InsertAt(o2.t, ins.r, p)
  }

  lemma {:induction false} InsertsFree(t: Tree, leaf: Range, p: Pos)
    requires WF(t, p) && Fits(leaf, p)
    ensures InsertAt(t, leaf, p).Done? <==> Free(leaf, Ranges(t))
    decreases Height(p), if Covers(leaf, p) && !RootCovers(t, p) then 2 else 0, t
  {
    if t.Null? || Overlap(leaf, t.r) {
    } else if Covers(leaf, p) {
      var root := Node(leaf, Null, Null);
      WFFits(t, p);
      RangesMovable(t, p, RootCovers(root, p));
      WFSeparate(t, p);
      ReinsertExact(root, t, p);
      FreeCommutes(leaf, Ranges(t));
    } else if leaf.hi < Semi(p) {
      InsertsFree(t.min, leaf, WalkMin(p));
      WFFits(t.max, WalkMax(p));
    } else {
      InsertsFree(t.max, leaf, WalkMax(p));
      WFFits(t.min, WalkMin(p));
    }
  }

  lemma {:induction false} ReinsertExact(root: Tree, ins: Tree, p: Pos)
    requires WF(root, p) && ins.Node? && Movable(ins, p, RootCovers(root, p)) && Separate(ins)
    ensures ReinsertAll(root, ins, p).Done? <==> Apart(Ranges(ins), Ranges(root))
    decreases Height(p), 1, ins
  {
    ApartParts(ins, Ranges(root));
    if ins.min.Node? {
      ReinsertExact(root, ins.min, p);
    }
    var o1 := if ins.min.Null? then Done(root) else ReinsertAll(root, ins.min, p);
    if o1.Done? {
      MovableMono(ins.max, p, RootCovers(root, p), RootCovers(o1.t, p));
      ReinsertExactTail(root, o1.t, ins, p);
    }
  }

  lemma {:induction false} ReinsertExactTail(root: Tree, t1: Tree, ins: Tree, p: Pos)
    requires WF(t1, p) && ins.Node? && Separate(ins)
    requires Ranges(t1) == Ranges(root) + Ranges(ins.min)
    requires Movable(ins.max, p, RootCovers(t1, p)) && Fits(ins.r, p) && (RootCovers(t1, p) || !Covers(ins.r, p))
    ensures
      var o2 := if ins.max.Null? then Done(t1) else ReinsertAll(t1, ins.max, p);
      (o2.Done? && InsertAt(o2.t, ins.r, p).Done?)
      <==> Apart(Ranges(ins.max), Ranges(root)) && Free(ins.r, Ranges(root))
    decreases Height(p), 1, ins, 0
  {
    ApartUnion(Ranges(ins.max), Ranges(root), Ranges(ins.min));
    ApartCommutes(Ranges(ins.max), Ranges(ins.min));
    if ins.max.Node? {
      ReinsertExact(t1, ins.max, p);
    }
    var o2 := if ins.max.Null? then Done(t1) else ReinsertAll(t1, ins.max, p);
    if o2.Done? {
      InsertsFree(o2.t, ins.r, p);
    }
  }

  /** insert_at succeeds exactly when no key of its range is mapped: looking only at the leaves on
      the walk and re-inserting what a covering leaf displaces misses no overlap. */
  lemma InsertExact(t: Tree, leaf: Range, p: Pos)
    requires WF(t, p) && Fits(leaf, p)
    ensures InsertAt(t, leaf, p).Done? <==> Unmapped(leaf, Ranges(t))
  {
    InsertsFree(t, leaf, p);
    WFFits(t, p);
    FreeIsUnmapped(leaf, Ranges(t));
  }

  // ---- Where insertions put the leaves ------------------------------------------------------

  /** A leaf keeps its place and the subtree on its far side, and gives way only to one that covers
      the semi-point, which then stands in its place. */
  lemma InsertPlacesExactly(t: Tree, leaf: Range, p: Pos)
    requires WF(t, p) && Fits(leaf, p) && t.Node? && InsertAt(t, leaf, p).Done?
    ensures
      var t' := InsertAt(t, leaf, p).t;
      && t'.Node? && t'.r == (if leaf.lo <= Semi(p) <= leaf.hi then leaf else t.r)
      && (leaf.hi < Semi(p) ==> t'.max == t.max && leaf in Ranges(t'.min))
      && (leaf.lo > Semi(p) ==> t'.min == t.min && leaf in Ranges(t'.max))
  {
    if Covers(leaf, p) {
      var root := Node(leaf, Null, Null);
      WFFits(t, p);
      RangesMovable(t, p, RootCovers(root, p));
      LeafWF(leaf, p);
      ReinsertKeepsRoot(root, t, p);
    }
  }

  lemma {:induction false} ReinsertKeepsRoot(root: Tree, ins: Tree, p: Pos)
    requires WF(root, p) && RootCovers(root, p) && ins.Node? && Movable(ins, p, true)
    requires ReinsertAll(root, ins, p).Done?
    ensures var t := ReinsertAll(root, ins, p).t; t.Node? && t.r == root.r
    decreases ins
  {
    if ins.min.Node? { ReinsertKeepsRoot(root, ins.min, p); }
    var t1 := if ins.min.Null? then root else ReinsertAll(root, ins.min, p).t;
    if ins.max.Node? { ReinsertKeepsRoot(t1, ins.max, p); }
  }

  /** The leaves of a tree, children before their parent and the lower ones first. */
  ghost function PostOrder(t: Tree): seq<Range> {
    match t
    case Null => []
    case Node(r, min, max) => PostOrder(min) + PostOrder(max) + [r]
  }

  ghost predicate AllFit(rs: seq<Range>, p: Pos) {
    forall r :: r in rs ==> Fits(r, p)
  }

  /** Insertions one after the other. */
  ghost function InsertMany(t: Tree, rs: seq<Range>, p: Pos): (o: Outcome)
    requires WF(t, p) && AllFit(rs, p)
    ensures o.Done? ==> WF(o.t, p)
    decreases |rs|
  {
    if rs == [] then Done(t) else
    var o := InsertAt(t, rs[0], p);
    if o.Done? then InsertMany(o.t, rs[1..], p) else o
  }

  lemma {:induction false} InsertManyOn(t: Tree, a: seq<Range>, b: seq<Range>, p: Pos)
    requires WF(t, p) && AllFit(a, p) && AllFit(b, p)
    ensures AllFit(a + b, p)
    ensures
      var o := InsertMany(t, a, p);
      InsertMany(t, a + b, p) == if o.Done? then InsertMany(o.t, b, p) else o
    decreases |a|
  {
    if a == [] {
      assert a + b == b;
    } else {
      assert (a + b)[1..] == a[1..] + b;
      var o := InsertAt(t, a[0], p);
      if o.Done? { InsertManyOn(o.t, a[1..], b, p); }
    }
  }

  lemma {:induction false} PostOrderFits(t: Tree, p: Pos, taken: bool)
    requires Movable(t, p, taken)
    ensures AllFit(PostOrder(t), p)
  {
    if t.Node? {
      PostOrderFits(t.min, p, taken);
      PostOrderFits(t.max, p, taken);
    }
  }

  /** Re-inserting a subtree is inserting its leaves in that order. */
  lemma {:induction false} ReinsertsInPostOrder(root: Tree, ins: Tree, p: Pos)
    requires WF(root, p) && ins.Node? && Movable(ins, p, RootCovers(root, p))
    ensures AllFit(PostOrder(ins), p) && ReinsertAll(root, ins, p) == InsertMany(root, PostOrder(ins), p)
    decreases ins
  {
    PostOrderFits(ins, p, RootCovers(root, p));
    PostOrderFits(ins.min, p, RootCovers(root, p));
    PostOrderFits(ins.max, p, RootCovers(root, p));
    if ins.min.Node? { ReinsertsInPostOrder(root, ins.min, p); }
    var o1 := if ins.min.Null? then Done(root) else ReinsertAll(root, ins.min, p);
    InsertManyOn(root, PostOrder(ins.min), PostOrder(ins.max) + [ins.r], p);
    assert PostOrder(ins) == PostOrder(ins.min) + (PostOrder(ins.max) + [ins.r]);
    if o1.Done? {
      MovableMono(ins.max, p, RootCovers(root, p), RootCovers(o1.t, p));
      if ins.max.Node? { ReinsertsInPostOrder(o1.t, ins.max, p); }
      InsertManyOn(o1.t, PostOrder(ins.max), [ins.r], p);
      OneInsertion(ins, o1.t, p);
    }
  }

  lemma OneInsertion(ins: Tree, t1: Tree, p: Pos)
    requires ins.Node? && WF(t1, p) && Fits(ins.r, p) && AllFit(PostOrder(ins.max), p)
    ensures
      var o2 := InsertMany(t1, PostOrder(ins.max), p);
      o2.Done? ==> InsertMany(o2.t, [ins.r], p) == InsertAt(o2.t, ins.r, p)
  {
  }

  // ---- Conditional insertion ----------------------------------------------------------------

  function TryInsertAt(t: Tree, leaf: Range, p: Pos): (o: Outcome)
    requires WF(t, p) && Fits(leaf, p)
    decreases t
  {
    if t.Null? then Done(Node(leaf, Null, Null))
    else if Overlap(leaf, t.r) then Rejected
    else if Covers(leaf, p) then
      var root := Node(leaf, Null, Null);
      WFFits(t, p);
      RangesMovable(t, p, RootCovers(root, p));
      LeafWF(leaf, p);
      ReinsertAll(root, t, p)
    else if leaf.hi < Semi(p) then
      var o := TryInsertAt(t.min, leaf, WalkMin(p));
      if o.Done? then Done(Node(t.r, o.t, t.max)) else o
    else
      var o := TryInsertAt(t.max, leaf, WalkMax(p));
      if o.Done? then Done(Node(t.r, t.min, o.t)) else o
  }

  /** The walk of `leaf` meets no leaf that overlaps it, and stops at a position whose semi-point
      `leaf` covers while something further down does overlap it. */
  ghost predicate HiddenOverlap(t: Tree, leaf: Range, p: Pos)
    requires WF(t, p) && Fits(leaf, p)
    decreases t
  {
    && t.Node? && !Overlap(leaf, t.r)
    && if Covers(leaf, p) then !Free(leaf, Ranges(t.min)) || !Free(leaf, Ranges(t.max))
       else if leaf.hi < Semi(p) then HiddenOverlap(t.min, leaf, WalkMin(p))
       else HiddenOverlap(t.max, leaf, WalkMax(p))
  }

  lemma TryInsertsFree(t: Tree, leaf: Range, p: Pos)
    requires WF(t, p) && Fits(leaf, p)
    ensures
      var o := TryInsertAt(t, leaf, p);
      && (o.Done? <==> Free(leaf, Ranges(t)))
      && (o.Done? ==> o == InsertAt(t, leaf, p))
      && (o.AssertionFailed? <==> HiddenOverlap(t, leaf, p))
  {
    TryInsertAgrees(t, leaf, p);
    InsertsFree(t, leaf, p);
    TryInsertFires(t, leaf, p);
  }

  /** tryinsert_at is documented to report every range that is mapped already. It does so unless
      the overlap is hidden, in which case it runs into an assertion of the re-insertion; it
      inserts exactly the ranges of which no key is mapped, as insert_at does. */
  lemma TryInsertExact(t: Tree, leaf: Range, p: Pos)
    requires WF(t, p) && Fits(leaf, p)
    ensures
      var o := TryInsertAt(t, leaf, p);
      && (o.Done? <==> Unmapped(leaf, Ranges(t)))
      && (o.Done? ==> o == InsertAt(t, leaf, p))
      && (o.AssertionFailed? <==> HiddenOverlap(t, leaf, p))
  {
    TryInsertsFree(t, leaf, p);
    WFFits(t, p);
    FreeIsUnmapped(leaf, Ranges(t));
  }

  lemma {:induction false} TryInsertAgrees(t: Tree, leaf: Range, p: Pos)
    requires WF(t, p) && Fits(leaf, p)
    ensures TryInsertAt(t, leaf, p).Done? <==> InsertAt(t, leaf, p).Done?
    ensures TryInsertAt(t, leaf, p).Done? ==> TryInsertAt(t, leaf, p) == InsertAt(t, leaf, p)
    decreases t
  {
    if t.Null? || Overlap(leaf, t.r) || Covers(leaf, p) {
    } else if leaf.hi < Semi(p) {
      TryInsertAgrees(t.min, leaf, WalkMin(p));
    } else {
      TryInsertAgrees(t.max, leaf, WalkMax(p));
    }
  }

  lemma {:induction false} TryInsertFires(t: Tree, leaf: Range, p: Pos)
    requires WF(t, p) && Fits(leaf, p)
    ensures TryInsertAt(t, leaf, p).AssertionFailed? <==> HiddenOverlap(t, leaf, p)
    decreases t
  {
    if t.Null? || Overlap(leaf, t.r) {
    } else if Covers(leaf, p) {
      InsertsFree(t, leaf, p);
    } else if leaf.hi < Semi(p) {
      TryInsertFires(t.min, leaf, WalkMin(p));
    } else {
      TryInsertFires(t.max, leaf, WalkMax(p));
    }
  }

  /** A range of one key can hide no overlap. */
  lemma {:induction false} SingleKeyNeverHidden(t: Tree, leaf: Range, p: Pos)
    requires WF(t, p) && Fits(leaf, p) && leaf.lo == leaf.hi
    ensures !HiddenOverlap(t, leaf, p)
    decreases t
  {
    if t.Node? && p.At? {
      WFFits(t.min, WalkMin(p));
      if leaf.hi < p.semi {
        SingleKeyNeverHidden(t.min, leaf, WalkMin(p));
      } else if leaf.lo > p.semi {
        SingleKeyNeverHidden(t.max, leaf, WalkMax(p));
      }
    }
  }

  /** Three calls on an empty tree, at every key width of at least two bits: the last range is
      mapped already, and tryinsert does not report it. */
  lemma TryInsertMissesOverlap(p: Pos, a: Range, b: Range, leaf: Range)
    requires p.At? && ValidPos(p) && p.level >= 1
    requires a == Range(MapMin(p), MapMin(p)) && b == Range(MapMax(p), MapMax(p))
    requires leaf == Range(p.semi - 1, MapMax(p))
    ensures WF(Node(a, Null, Null), p) && TryInsertAt(Null, a, p) == Done(Node(a, Null, Null))
    ensures
      var t := Node(a, Null, Node(b, Null, Null));
      WF(t, p) && TryInsertAt(Node(a, Null, Null), b, p) == Done(t) && TryInsertAt(t, leaf, p) == AssertionFailed
  {
    assert MapMin(p) < p.semi - 1 && p.semi < MapMax(p);
    LeafWF(a, p);
    LeafWF(b, WalkMax(p));
    MaxReplaced(Node(a, Null, Null), Node(b, Null, Null), p, {b});
    HiddenBelowMax(Node(a, Null, Node(b, Null, Null)), leaf, p);
  }

  lemma HiddenBelowMax(t: Tree, leaf: Range, p: Pos)
    requires WF(t, p) && Fits(leaf, p) && t.Node? && t.max.Node?
    requires Covers(leaf, p) && !Overlap(leaf, t.r) && Overlap(leaf, t.max.r)
    ensures TryInsertAt(t, leaf, p) == AssertionFailed
  {
    assert t.max.r in Ranges(t.max) && leaf in {leaf};
    TryInsertsFree(t, leaf, p);
  }

  // ---- Lookup -------------------------------------------------------------------------------

  function Depth(t: Tree): nat {
    match t
    case Null => 0
    case Node(_, min, max) => 1 + if Depth(min) > Depth(max) then Depth(min) else Depth(max)
  }

  /** The levels bound every path: at most one leaf more than keys have bits. */
  lemma {:induction false} DepthBound(t: Tree, p: Pos)
    requires WF(t, p)
    ensures Depth(t) <= Height(p) + 1
    decreases t
  {
    if t.Node? && p.At? {
      DepthBound(t.min, WalkMin(p));
      DepthBound(t.max, WalkMax(p));
    }
  }

  /** One turn of the walk loses no leaf that holds the key. */
  lemma LocateStep(t: Tree, key: nat, p: Pos)
    requires WF(t, p) && MapMin(p) <= key <= MapMax(p) && t.Node? && !t.r.Has(key)
    ensures p.At?
    ensures key < p.semi ==> forall x :: x in Ranges(t) && x.Has(key) ==> x in Ranges(t.min)
    ensures key >= p.semi ==> forall x :: x in Ranges(t) && x.Has(key) ==> x in Ranges(t.max)
  {
    WFFits(t.min, WalkMin(p));
  }

  /** The loop of locate_at, counting the leaves it looks at. `asserts` tells whether it went on
      from level 0, which the assertion on the level forbids. */
  method LocateAt(root: Tree, key: nat, p0: Pos) returns (found: Tree, steps: nat, asserts: bool)
    requires WF(root, p0) && MapMin(p0) <= key <= MapMax(p0)
    ensures found.Node? ==> found.r in Ranges(root) && found.r.Has(key)
    ensures found.Null? ==> forall x :: x in Ranges(root) ==> !x.Has(key)
    ensures steps <= Depth(root)
    ensures asserts <==> WalksPastLevel0(root, key, p0)
  {
    var p := p0;
    found, steps, asserts := root, 0, false;
    while found.Node? && !found.r.Has(key)
      invariant WF(found, p) && MapMin(p) <= key <= MapMax(p)
      invariant Ranges(found) <= Ranges(root)
      invariant forall x :: x in Ranges(root) && x.Has(key) ==> x in Ranges(found)
      invariant steps + Depth(found) <= Depth(root)
      invariant WalksPastLevel0(root, key, p0) <==> asserts || WalksPastLevel0(found, key, p)
      decreases found
    {
      LocateStep(found, key, p);
      asserts := asserts || p.level == 0;
      steps := steps + 1;
      if key < p.semi {
        found, p := found.min, WalkMin(p);
      } else {
        found, p := found.max, WalkMax(p);
      }
    }
    if found.Node? {
      steps := steps + 1;
    }
  }

  /** The walk for `key` meets a leaf at level 0 that does not hold it. */
  predicate WalksPastLevel0(t: Tree, key: nat, p: Pos)
    requires WF(t, p) && MapMin(p) <= key <= MapMax(p)
    decreases t
  {
    && t.Node? && !t.r.Has(key) && p.At?
    && (|| p.level == 0
        || if key < p.semi then WalksPastLevel0(t.min, key, WalkMin(p))
           else WalksPastLevel0(t.max, key, WalkMax(p)))
  }

  // ---- The assertion on the level -----------------------------------------------------------

  /** The leaf of range `r` stands where the level has run out. */
  ghost predicate StandsBelow(t: Tree, r: Range, p: Pos)
    requires WF(t, p)
    decreases t
  {
    && t.Node?
    && if p.Below? then t.r == r else StandsBelow(t.min, r, WalkMin(p)) || StandsBelow(t.max, r, WalkMax(p))
  }

  lemma {:induction false} StandsBelowIsMapped(t: Tree, r: Range, p: Pos)
    requires WF(t, p) && StandsBelow(t, r, p)
    ensures r in Ranges(t) && Depth(t) == Height(p) + 1 && r.lo == r.hi
    decreases t
  {
    DepthBound(t, p);
    if p.At? {
      if StandsBelow(t.min, r, WalkMin(p)) {
        StandsBelowIsMapped(t.min, r, WalkMin(p));
      } else {
        StandsBelowIsMapped(t.max, r, WalkMax(p));
      }
    }
  }

  /** Looking up or removing a mapped key trips the assertion exactly when the leaf that holds it
      stands below level 0. Such a leaf has a single key. */
  lemma {:induction false} MappedTripsExactly(t: Tree, r: Range, key: nat, p: Pos)
    requires WF(t, p) && r in Ranges(t) && r.Has(key) && MapMin(p) <= key <= MapMax(p)
    ensures p.At? ==> (WalksPastLevel0(t, key, p) <==> StandsBelow(t, r, p))
    ensures StandsBelow(t, r, p) ==> r == Range(key, key)
    decreases t
  {
    if p.At? {
      PartsDisjoint(t, p);
      WFFits(t.min, WalkMin(p));
      WFFits(t.max, WalkMax(p));
      if StandsBelow(t.min, r, WalkMin(p)) { StandsBelowIsMapped(t.min, r, WalkMin(p)); }
      if StandsBelow(t.max, r, WalkMax(p)) { StandsBelowIsMapped(t.max, r, WalkMax(p)); }
      if r in Ranges(t.min) {
        assert Fits(r, WalkMin(p)) && !Overlap(t.r, r);
        MappedTripsExactly(t.min, r, key, WalkMin(p));
      } else if r in Ranges(t.max) {
        assert Fits(r, WalkMax(p)) && !Overlap(t.r, r);
        MappedTripsExactly(t.max, r, key, WalkMax(p));
      }
    }
  }

  /** A tree has a mapped key that trips the assertion exactly when it is as deep as a tree over
      such keys can be. */
  lemma FullDepthTripsExactly(t: Tree, p: Pos)
    requires WF(t, p) && p.At?
    ensures
      (exists r, key: nat :: r in Ranges(t) && r.Has(key) && Fits(r, p) && WalksPastLevel0(t, key, p))
      <==> Depth(t) == Height(p) + 1
  {
    if Depth(t) == Height(p) + 1 {
      var r := DeepestLeaf(t, p);
      StandsBelowIsMapped(t, r, p);
      WFFits(t, p);
      MappedTripsExactly(t, r, r.lo, p);
      assert r.Has(r.lo) && WalksPastLevel0(t, r.lo, p);
    }
    forall r, key: nat | r in Ranges(t) && r.Has(key) && Fits(r, p) && WalksPastLevel0(t, key, p)
      ensures Depth(t) == Height(p) + 1
    {
      MappedTripsExactly(t, r, key, p);
      StandsBelowIsMapped(t, r, p);
    }
  }

  lemma {:induction false} DeepestLeaf(t: Tree, p: Pos) returns (r: Range)
    requires WF(t, p) && Depth(t) == Height(p) + 1
    ensures StandsBelow(t, r, p)
    decreases t
  {
    if p.Below? {
      r := t.r;
    } else if Depth(t.min) > Depth(t.max) {
      r := DeepestLeaf(t.min, WalkMin(p));
    } else {
      r := DeepestLeaf(t.max, WalkMax(p));
    }
  }

  /** There is a leaf on every level of the path to `key`. */
  predicate FullPath(t: Tree, key: nat, p: Pos)
    requires WF(t, p)
    decreases t
  {
    && t.Node? && p.At?
    && (|| p.level == 0
        || if key < p.semi then FullPath(t.min, key, WalkMin(p)) else FullPath(t.max, key, WalkMax(p)))
  }

  /** Looking up a key that is not mapped trips the assertion exactly when there is a leaf on every
      level of its path. */
  lemma {:induction false} UnmappedTripsExactly(t: Tree, key: nat, p: Pos)
    requires WF(t, p) && MapMin(p) <= key <= MapMax(p) && forall x :: x in Ranges(t) ==> !x.Has(key)
    ensures WalksPastLevel0(t, key, p) <==> FullPath(t, key, p)
    decreases t
  {
    if t.Node? && p.At? {
      assert t.r in Ranges(t);
      if key < p.semi {
        UnmappedTripsExactly(t.min, key, WalkMin(p));
      } else {
        UnmappedTripsExactly(t.max, key, WalkMax(p));
      }
    }
  }

  /** No key, mapped or not, trips it in a tree that is less deep than keys have bits. */
  lemma {:induction false} AssertionNeedsFullPath(t: Tree, key: nat, p: Pos)
    requires WF(t, p) && MapMin(p) <= key <= MapMax(p) && WalksPastLevel0(t, key, p)
    ensures Depth(t) >= Height(p)
    decreases t
  {
    if p.level > 0 {
      if key < p.semi {
        AssertionNeedsFullPath(t.min, key, WalkMin(p));
      } else {
        AssertionNeedsFullPath(t.max, key, WalkMax(p));
      }
    }
  }

  lemma {:induction false} DepthWithinCount(t: Tree, p: Pos)
    requires WF(t, p)
    ensures Depth(t) <= |Ranges(t)|
    decreases t
  {
    if t.Node? && p.At? {
      DepthWithinCount(t.min, WalkMin(p));
      DepthWithinCount(t.max, WalkMax(p));
      PartsDisjoint(t, p);
      assert Ranges(t) == {t.r} + (Ranges(t.min) + Ranges(t.max));
    }
  }

  /** The leaves of one key each that fill the path to the least key of a map. */
  function Chain(p: Pos): Tree
    requires ValidPos(p)
    decreases Height(p)
  {
    match p
    case Below(key) => Node(Range(key, key), Null, Null)
    case At(semi, _) => Node(Range(semi, semi), Chain(WalkMin(p)), Null)
  }

  /** The depth bound is reached at every key width, and there the assertion fires for a key
      that is mapped. */
  lemma {:induction false} ChainIsWorstCase(p: Pos)
    requires ValidPos(p)
    ensures WF(Chain(p), p) && Depth(Chain(p)) == Height(p) + 1
    ensures Range(MapMin(p), MapMin(p)) in Ranges(Chain(p))
    ensures p.At? ==> WalksPastLevel0(Chain(p), MapMin(p), p)
    decreases Height(p)
  {
    if p.At? {
      ChainIsWorstCase(WalkMin(p));
      WFFits(Chain(WalkMin(p)), WalkMin(p));
    }
  }

  // ---- Removal ------------------------------------------------------------------------------

  lemma PopMovable(t: Tree, p: Pos, taken: bool)
    requires t.Node? && p.At? && WF(t, p)
    ensures Movable(t.min, p, taken) && Movable(t.max, p, taken)
  {
    WFFits(t.min, WalkMin(p));
    WFFits(t.max, WalkMax(p));
    RangesMovable(t.min, p, taken);
    RangesMovable(t.max, p, taken);
  }

  /** Re-inserts a whole tree into another one that it does not overlap. */
  function Reinserted(root: Tree, ins: Tree, p: Pos): (t: Tree)
    requires WF(root, p) && Movable(ins, p, RootCovers(root, p)) && Separate(ins) && Apart(Ranges(ins), Ranges(root))
    ensures WF(t, p) && Ranges(t) == Ranges(root) + Ranges(ins)
  {
    if ins.Null? then root else
    ReinsertExact(root, ins, p);
    ReinsertAll(root, ins, p).t
  }

  /** Takes the leaf at a position out and re-inserts what stood below it. */
  function PopAt(t: Tree, p: Pos): (t': Tree)
    requires t.Node? && WF(t, p)
    ensures WF(t', p) && Ranges(t') == Ranges(t) - {t.r}
  {
    WFSeparate(t, p);
    if p.Below? then Null else
    PopMovable(t, p, false);
    var t1 := Reinserted(Null, t.min, p);
    PopMovable(t, p, RootCovers(t1, p));
    ApartCommutes(Ranges(t.min), Ranges(t.max));
    Reinserted(t1, t.max, p)
  }

  /** What stood below is inserted into the empty place: all of the lower leaves, then all of the
      upper ones. */
  lemma PopsInPostOrder(t: Tree, p: Pos)
    requires t.Node? && p.At? && WF(t, p)
    ensures
      var below := PostOrder(t.min) + PostOrder(t.max);
      AllFit(below, p) && InsertMany(Null, below, p) == Done(PopAt(t, p))
  {
    WFSeparate(t, p);
    PopMovable(t, p, false);
    var t1 := Reinserted(Null, t.min, p);
    PopMovable(t, p, RootCovers(t1, p));
    ApartCommutes(Ranges(t.min), Ranges(t.max));
    PostOrderFits(t.min, p, false);
    PostOrderFits(t.max, p, false);
    ReinsertedInPostOrder(Null, t.min, p);
    ReinsertedInPostOrder(t1, t.max, p);
    InsertManyOn(Null, PostOrder(t.min), PostOrder(t.max), p);
  }

  lemma ReinsertedInPostOrder(root: Tree, ins: Tree, p: Pos)
    requires WF(root, p) && Movable(ins, p, RootCovers(root, p)) && Separate(ins) && Apart(Ranges(ins), Ranges(root))
    ensures AllFit(PostOrder(ins), p) && InsertMany(root, PostOrder(ins), p) == Done(Reinserted(root, ins, p))
  {
    if ins.Node? {
      ReinsertExact(root, ins, p);
      ReinsertsInPostOrder(root, ins, p);
    }
  }

  /** The tree that remove_at leaves and the leaf it returns, if any; or the assertion on the
      level, which the walk to the leaf makes as a lookup does. */
  datatype Removal = Removal(t: Tree, hit: Tree) | LevelAsserted

  function RemoveAt(t: Tree, key: nat, p: Pos): (r: Removal)
    requires WF(t, p) && MapMin(p) <= key <= MapMax(p)
    decreases t
  {
    if t.Null? then Removal(Null, Null)
    else if t.r.Has(key) then Removal(PopAt(t, p), t)
    else if p.level == 0 then LevelAsserted
    else if key < p.semi then
      var r := RemoveAt(t.min, key, WalkMin(p));
      if r.Removal? then Removal(Node(t.r, r.t, t.max), r.hit) else r
    else
      var r := RemoveAt(t.max, key, WalkMax(p));
      if r.Removal? then Removal(Node(t.r, t.min, r.t), r.hit) else r
  }

  /** remove_at takes out the one leaf that holds the key, and nothing when there is none, unless
      its walk goes on from level 0. */
  lemma {:induction false} RemoveExact(t: Tree, key: nat, p: Pos)
    requires WF(t, p) && MapMin(p) <= key <= MapMax(p)
    ensures
      var r := RemoveAt(t, key, p);
      && (r.LevelAsserted? <==> WalksPastLevel0(t, key, p))
      && (r.Removal? ==>
            && WF(r.t, p)
            && (r.hit.Null? ==> r.t == t && forall x :: x in Ranges(t) ==> !x.Has(key))
            && (r.hit.Node? ==>
                  r.hit.r in Ranges(t) && r.hit.r.Has(key) && Ranges(r.t) == Ranges(t) - {r.hit.r}))
    decreases t
  {
    if t.Node? && !t.r.Has(key) && p.level > 0 {
      LocateStep(t, key, p);
      if key < p.semi {
        RemoveExact(t.min, key, WalkMin(p));
        var r := RemoveAt(t.min, key, WalkMin(p));
        if r.Removal? { MinShrunk(t, r, p); }
      } else {
        RemoveExact(t.max, key, WalkMax(p));
        var r := RemoveAt(t.max, key, WalkMax(p));
        if r.Removal? { MaxShrunk(t, r, p); }
      }
    }
  }

  lemma MinShrunk(t: Tree, r: Removal, p: Pos)
    requires t.Node? && p.At? && WF(t, p) && r.Removal? && WF(r.t, WalkMin(p))
    requires if r.hit.Null? then r.t == t.min else r.hit.r in Ranges(t.min) && Ranges(r.t) == Ranges(t.min) - {r.hit.r}
    ensures WF(Node(t.r, r.t, t.max), p)
    ensures r.hit.Node? ==> Ranges(Node(t.r, r.t, t.max)) == Ranges(t) - {r.hit.r}
  {
    MinReplaced(t, r.t, p, {});
    PartsDisjoint(t, p);
  }

  lemma MaxShrunk(t: Tree, r: Removal, p: Pos)
    requires t.Node? && p.At? && WF(t, p) && r.Removal? && WF(r.t, WalkMax(p))
    requires if r.hit.Null? then r.t == t.max else r.hit.r in Ranges(t.max) && Ranges(r.t) == Ranges(t.max) - {r.hit.r}
    ensures WF(Node(t.r, t.min, r.t), p)
    ensures r.hit.Node? ==> Ranges(Node(t.r, t.min, r.t)) == Ranges(t) - {r.hit.r}
  {
    MaxReplaced(t, r.t, p, {});
    PartsDisjoint(t, p);
  }

  /** Inserting a free range and removing any of its keys gives the range back and leaves the
      leaves that were there before, unless the range is a single key whose leaf has come to stand
      below level 0. */
  lemma InsertThenRemove(t: Tree, leaf: Range, key: nat, p: Pos)
    requires WF(t, p) && Fits(leaf, p) && leaf.Has(key) && Free(leaf, Ranges(t))
    ensures
      var o := InsertAt(t, leaf, p);
      && o.Done?
      && var r := RemoveAt(o.t, key, p);
         && (r.LevelAsserted? <==> p.At? && StandsBelow(o.t, leaf, p))
         && (r.Removal? ==> r.hit.Node? && r.hit.r == leaf && Ranges(r.t) == Ranges(t))
         && (leaf.lo < leaf.hi ==> r.Removal?)
  {
    InsertsFree(t, leaf, p);
    var o := InsertAt(t, leaf, p);
    RemoveExact(o.t, key, p);
    var r := RemoveAt(o.t, key, p);
    assert leaf in Ranges(o.t) && Overlap(leaf, leaf);
    MappedTripsExactly(o.t, leaf, key, p);
    if r.Removal? && r.hit.Node? && r.hit.r != leaf {
      assert r.hit.r in Ranges(t) && Overlap(leaf, r.hit.r);
    }
  }

  // ---- The documented order -----------------------------------------------------------------

  /** The header describes every leaf below `a_min` as smaller than the leaf above it, and every
      leaf below `a_max` as greater. */
  ghost predicate MinOrdered(t: Tree)
    requires t.Node?
  {
    forall x :: x in Ranges(t.min) ==> x.hi < t.r.lo
  }

  ghost predicate MaxOrdered(t: Tree)
    requires t.Node?
  {
    forall x :: x in Ranges(t.max) ==> x.lo > t.r.hi
  }

  /** Some range of the subtree lies between the leaf and the semi-point. */
  ghost predicate Between(s: set<Range>, lo: int, hi: int) {
    exists x :: x in s && lo < x.lo && x.hi < hi
  }

  /** Exactly when that is so: always, below a leaf that covers the semi-point of its place; below
      one on either side of it, always on the far side, and on the near side exactly when nothing
      there lies between the leaf and the semi-point. */
  lemma OrderedExactly(t: Tree, p: Pos)
    requires WF(t, p) && t.Node? && p.At?
    ensures MinOrdered(t) <==> !(t.r.hi < p.semi && Between(Ranges(t.min), t.r.hi, p.semi))
    ensures MaxOrdered(t) <==> !(t.r.lo > p.semi && Between(Ranges(t.max), p.semi, t.r.lo))
  {
    WFFits(t.min, WalkMin(p));
    WFFits(t.max, WalkMax(p));
    forall x | x in Ranges(t.min) ensures x.hi < t.r.lo || (t.r.hi < x.lo && x.hi < p.semi) {
      assert Fits(x, WalkMin(p)) && !Overlap(t.r, x);
    }
    forall x | x in Ranges(t.max) ensures x.lo > t.r.hi || (x.hi < t.r.lo && x.lo > p.semi) {
      assert Fits(x, WalkMax(p)) && !Overlap(t.r, x);
    }
    if t.r.hi < p.semi && Between(Ranges(t.min), t.r.hi, p.semi) {
      var x :| x in Ranges(t.min) && t.r.hi < x.lo && x.hi < p.semi;
      assert !MinOrdered(t) by { assert Fits(x, WalkMin(p)); }
    }
    if t.r.lo > p.semi && Between(Ranges(t.max), p.semi, t.r.lo) {
      var x :| x in Ranges(t.max) && p.semi < x.lo && x.hi < t.r.lo;
      assert !MaxOrdered(t) by { assert Fits(x, WalkMax(p)); }
    }
  }

  /** Two insertions into an empty tree are enough to break it. */
  lemma SubtreesNeedNotBeOrdered(p: Pos, a: Range, b: Range)
    requires p.At? && ValidPos(p) && p.level >= 1
    requires a == Range(MapMin(p), MapMin(p)) && b == Range(p.semi - 1, p.semi - 1)
    ensures WF(Node(a, Null, Null), p) && Fits(b, p)
    ensures InsertAt(Node(a, Null, Null), b, p) == Done(Node(a, Node(b, Null, Null), Null))
    ensures !MinOrdered(Node(a, Node(b, Null, Null), Null))
  {
    LeafWF(a, p);
    assert b in Ranges(Node(b, Null, Null));
  }

  // ---- Runs ---------------------------------------------------------------------------------

  datatype Op = Insert(leaf: Range) | TryInsert(leaf: Range) | Remove(key: nat)

  predicate Applicable(op: Op, p: Pos) {
    match op
    case Insert(leaf) => Fits(leaf, p)
    case TryInsert(leaf) => Fits(leaf, p)
    case Remove(key) => MapMin(p) <= key <= MapMax(p)
  }

  /** One call. Rejection leaves the tree alone. */
  function Apply(t: Tree, op: Op, p: Pos): Outcome
    requires WF(t, p) && Applicable(op, p)
  {
    match op
    case Insert(leaf) => InsertAt(t, leaf, p)
    case TryInsert(leaf) =>
      var o := TryInsertAt(t, leaf, p);
      if o.Rejected? then Done(t) else o
    case Remove(key) =>
      var r := RemoveAt(t, key, p);
      if r.Removal? then Done(r.t) else AssertionFailed
  }

  lemma ApplyKeepsWF(t: Tree, op: Op, p: Pos)
    requires WF(t, p) && Applicable(op, p)
    ensures var o := Apply(t, op, p); !o.Rejected? && (o.Done? ==> WF(o.t, p))
  {
    if op.TryInsert? { TryInsertsFree(t, op.leaf, p); }
    if op.Remove? { RemoveExact(t, op.key, p); }
  }

  /** A run of calls, which ends at the first assertion that fires. */
  function Run(t: Tree, ops: seq<Op>, p: Pos): (o: Outcome)
    requires WF(t, p) && forall op :: op in ops ==> Applicable(op, p)
    ensures o.Done? ==> WF(o.t, p)
    decreases |ops|
  {
    if ops == [] then Done(t) else
    ApplyKeepsWF(t, ops[0], p);
    var o := Apply(t, ops[0], p);
    if o.Done? then Run(o.t, ops[1..], p) else o
  }

  /** The map that the tree stands for: a set of ranges, no two of which overlap. */
  ghost function ModelApply(s: set<Range>, op: Op): set<Range> {
    match op
    case Insert(leaf) => s + {leaf}
    case TryInsert(leaf) => if Free(leaf, s) then s + {leaf} else s
    case Remove(key) => set x | x in s && !x.Has(key)
  }

  ghost function ModelRun(s: set<Range>, ops: seq<Op>): set<Range>
    decreases |ops|
  {
    if ops == [] then s else ModelRun(ModelApply(s, ops[0]), ops[1..])
  }

  lemma {:induction false} SeparateRanges(t: Tree, x: Range, y: Range)
    requires Separate(t) && x in Ranges(t) && y in Ranges(t) && x != y
    ensures !Overlap(x, y)
  {
    if x in Ranges(t.min) && y in Ranges(t.min) {
      SeparateRanges(t.min, x, y);
    } else if x in Ranges(t.max) && y in Ranges(t.max) {
      SeparateRanges(t.max, x, y);
    }
  }

  lemma RemoveRefinesModel(t: Tree, key: nat, p: Pos)
    requires WF(t, p) && MapMin(p) <= key <= MapMax(p)
    ensures var r := RemoveAt(t, key, p); r.Removal? ==> Ranges(r.t) == set x | x in Ranges(t) && !x.Has(key)
  {
    RemoveExact(t, key, p);
    var r := RemoveAt(t, key, p);
    if r.Removal? && r.hit.Node? {
      WFSeparate(t, p);
      forall x | x in Ranges(t) && x.Has(key) ensures x == r.hit.r {
        if x != r.hit.r { SeparateRanges(t, x, r.hit.r); }
      }
    }
  }

  lemma ApplyRefinesModel(t: Tree, op: Op, p: Pos)
    requires WF(t, p) && Applicable(op, p)
    ensures var o := Apply(t, op, p); o.Done? ==> Ranges(o.t) == ModelApply(Ranges(t), op)
  {
    match op
    case Insert(leaf) =>
    case TryInsert(leaf) => TryInsertsFree(t, leaf, p);
    case Remove(key) => RemoveRefinesModel(t, key, p);
  }

  /** Every run from the empty tree that trips no assertion leaves exactly the ranges of the
      map, in a well-formed tree, however its leaves have been displaced on the way. */
  lemma {:induction false} RunRefinesModel(t: Tree, ops: seq<Op>, p: Pos)
    requires WF(t, p) && forall op :: op in ops ==> Applicable(op, p)
    ensures Run(t, ops, p).Done? ==> Ranges(Run(t, ops, p).t) == ModelRun(Ranges(t), ops)
    decreases |ops|
  {
    if ops != [] {
      ApplyKeepsWF(t, ops[0], p);
      ApplyRefinesModel(t, ops[0], p);
      var o := Apply(t, ops[0], p);
      if o.Done? { RunRefinesModel(o.t, ops[1..], p); }
    }
  }

  /** A call trips no assertion: an insertion of a free range, a conditional insertion without a
      hidden overlap, a removal whose walk ends at level 0 at the latest. */
  ghost predicate Safe(t: Tree, op: Op, p: Pos)
    requires WF(t, p) && Applicable(op, p)
  {
    match op
    case Insert(leaf) => Free(leaf, Ranges(t))
    case TryInsert(leaf) => !HiddenOverlap(t, leaf, p)
    case Remove(key) => !WalksPastLevel0(t, key, p)
  }

  lemma ApplySurvives(t: Tree, op: Op, p: Pos)
    requires WF(t, p) && Applicable(op, p)
    ensures Apply(t, op, p).Done? <==> Safe(t, op, p)
  {
    match op
    case Insert(leaf) => InsertsFree(t, leaf, p);
    case TryInsert(leaf) => TryInsertsFree(t, leaf, p);
    case Remove(key) => RemoveExact(t, key, p);
  }

  /** Every call is safe at its point. */
  ghost predicate SafeRun(t: Tree, ops: seq<Op>, p: Pos)
    requires WF(t, p) && forall op :: op in ops ==> Applicable(op, p)
    decreases |ops|
  {
    ops != [] ==>
      && Safe(t, ops[0], p)
      && (ApplyKeepsWF(t, ops[0], p);
          ApplySurvives(t, ops[0], p);
          SafeRun(Apply(t, ops[0], p).t, ops[1..], p))
  }

  /** A run of any calls goes through exactly when every one is safe at its point. */
  lemma {:induction false} RunSurvives(t: Tree, ops: seq<Op>, p: Pos)
    requires WF(t, p) && forall op :: op in ops ==> Applicable(op, p)
    ensures Run(t, ops, p).Done? <==> SafeRun(t, ops, p)
    decreases |ops|
  {
    if ops != [] {
      ApplyKeepsWF(t, ops[0], p);
      ApplySurvives(t, ops[0], p);
      var o := Apply(t, ops[0], p);
      if o.Done? { RunSurvives(o.t, ops[1..], p); }
    }
  }

  /** Every unconditional insertion asks for a range that is free at that point. */
  ghost predicate InsertsAreFree(s: set<Range>, ops: seq<Op>)
    decreases |ops|
  {
    ops != [] ==>
      && (ops[0].Insert? ==> Free(ops[0].leaf, s))
      && InsertsAreFree(ModelApply(s, ops[0]), ops[1..])
  }

  /** Removals happen while the map has fewer ranges than keys have bits, and conditional
      insertions are of one key each. */
  ghost predicate Modest(s: set<Range>, ops: seq<Op>, bits: nat)
    decreases |ops|
  {
    ops != [] ==>
      && (ops[0].Remove? ==> |s| < bits)
      && (ops[0].TryInsert? ==> ops[0].leaf.lo == ops[0].leaf.hi)
      && Modest(ModelApply(s, ops[0]), ops[1..], bits)
  }

  /** For such runs the map alone decides: they go through exactly when every unconditional
      insertion is free. */
  lemma {:induction false} ModestRunSurvives(t: Tree, ops: seq<Op>, p: Pos)
    requires WF(t, p) && forall op :: op in ops ==> Applicable(op, p)
    requires Modest(Ranges(t), ops, Height(p))
    ensures Run(t, ops, p).Done? <==> InsertsAreFree(Ranges(t), ops)
    decreases |ops|
  {
    if ops != [] {
      var op := ops[0];
      ApplyKeepsWF(t, op, p);
      ApplyRefinesModel(t, op, p);
      ApplySurvives(t, op, p);
      if op.TryInsert? {
        SingleKeyNeverHidden(t, op.leaf, p);
      } else if op.Remove? && WalksPastLevel0(t, op.key, p) {
        AssertionNeedsFullPath(t, op.key, p);
        DepthWithinCount(t, p);
      }
      var o := Apply(t, op, p);
      if o.Done? { ModestRunSurvives(o.t, ops[1..], p); }
    }
  }

  // ---- The worst case is reached ------------------------------------------------------------

  /** Insertions of the semi-points along the path to the least key, from the top down. */
  function ChainOps(p: Pos): seq<Op>
    requires ValidPos(p)
    decreases Height(p)
  {
    match p
    case Below(key) => [Insert(Range(key, key))]
    case At(semi, _) => [Insert(Range(semi, semi))] + ChainOps(WalkMin(p))
  }

  lemma {:induction false} ChainOpsApplicable(p: Pos)
    requires ValidPos(p)
    ensures forall op :: op in ChainOps(p) ==> op.Insert? && Applicable(op, p)
    decreases Height(p)
  {
    if p.At? { ChainOpsApplicable(WalkMin(p)); }
  }

  /** Insertions below the semi-point that a leaf occupies happen in its lower subtree. */
  lemma {:induction false} RunBelow(r: Range, m: Tree, ops: seq<Op>, p: Pos)
    requires p.At? && ValidPos(p) && r == Range(p.semi, p.semi) && WF(m, WalkMin(p)) && WF(Node(r, m, Null), p)
    requires forall op :: op in ops ==> op.Insert? && Applicable(op, WalkMin(p))
    ensures forall op :: op in ops ==> Applicable(op, p)
    ensures Run(m, ops, WalkMin(p)).Done? ==>
              Run(Node(r, m, Null), ops, p) == Done(Node(r, Run(m, ops, WalkMin(p)).t, Null))
    decreases |ops|
  {
    if ops != [] {
      var leaf := ops[0].leaf;
      var o := InsertAt(m, leaf, WalkMin(p));
      if o.Done? {
        MinReplaced(Node(r, m, Null), o.t, p, {leaf});
        RunBelow(r, o.t, ops[1..], p);
      }
    }
  }

  /** At every key width the tree of the worst case comes about by insertions alone. */
  lemma {:induction false} ChainIsReached(p: Pos)
    requires ValidPos(p)
    ensures forall op :: op in ChainOps(p) ==> op.Insert? && Applicable(op, p)
    ensures Run(Null, ChainOps(p), p) == Done(Chain(p))
    decreases Height(p)
  {
    ChainOpsApplicable(p);
    if p.At? {
      var r := Range(p.semi, p.semi);
      ChainIsReached(WalkMin(p));
      LeafWF(r, p);
      RunBelow(r, Null, ChainOps(WalkMin(p)), p);
      assert ChainOps(p)[1..] == ChainOps(WalkMin(p));
    }
  }

  /** In that tree a removal of the least key, which is mapped, runs into the assertion. */
  lemma RemovalTripsOnChain(p: Pos)
    requires p.At? && ValidPos(p)
    ensures WF(Chain(p), p) && Range(MapMin(p), MapMin(p)) in Ranges(Chain(p))
    ensures RemoveAt(Chain(p), MapMin(p), p).LevelAsserted?
  {
    ChainIsWorstCase(p);
    RemoveExact(Chain(p), MapMin(p), p);
  }

  /** The same without the last insertion, which alone leaves the levels. */
  function SpineOps(p: Pos): seq<Op>
    requires p.At? && ValidPos(p)
    decreases Height(p)
  {
    [Insert(Range(p.semi, p.semi))] + if p.level == 0 then [] else SpineOps(WalkMin(p))
  }

  function Spine(p: Pos): Tree
    requires p.At? && ValidPos(p)
    decreases Height(p)
  {
    Node(Range(p.semi, p.semi), if p.level == 0 then Null else Spine(WalkMin(p)), Null)
  }

  lemma {:induction false} SpineOpsApplicable(p: Pos)
    requires p.At? && ValidPos(p)
    ensures forall op :: op in SpineOps(p) ==> op.Insert? && Applicable(op, p)
    ensures ChainOps(p) == SpineOps(p) + [Insert(Range(MapMin(p), MapMin(p)))]
    decreases Height(p)
  {
    if p.level > 0 { SpineOpsApplicable(WalkMin(p)); }
  }

  lemma {:induction false} SpineIsReached(p: Pos)
    requires p.At? && ValidPos(p)
    ensures forall op :: op in SpineOps(p) ==> op.Insert? && Applicable(op, p)
    ensures Run(Null, SpineOps(p), p) == Done(Spine(p))
    decreases Height(p)
  {
    SpineOpsApplicable(p);
    var r := Range(p.semi, p.semi);
    LeafWF(r, p);
    if p.level > 0 {
      SpineIsReached(WalkMin(p));
      RunBelow(r, Null, SpineOps(WalkMin(p)), p);
      assert SpineOps(p)[1..] == SpineOps(WalkMin(p));
    }
  }

  /** Within the levels the assertion fires as well: insertions whose walks all end at a level, and
      then looking up or removing the least key, which is not mapped. */
  lemma {:induction false} UnmappedTripsOnSpine(p: Pos)
    requires p.At? && ValidPos(p)
    ensures WF(Spine(p), p) && Depth(Spine(p)) == Height(p)
    ensures forall x :: x in Ranges(Spine(p)) ==> !x.Has(MapMin(p))
    ensures WalksPastLevel0(Spine(p), MapMin(p), p)
    decreases Height(p)
  {
    if p.level > 0 {
      UnmappedTripsOnSpine(WalkMin(p));
      WFFits(Spine(WalkMin(p)), WalkMin(p));
    }
  }
}
