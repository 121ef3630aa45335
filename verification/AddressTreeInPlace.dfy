/** The address tree as the kernel keeps it: leaves that are linked and relinked in place. A leaf
    is known by its range, which does not change and which no other leaf of a tree overlaps. Every
    operation is proved to leave the links of the tree that the one of the same name in
    `AddressTree` gives. */
module AddressTreeInPlace {
  import opened Basics
  import opened AT = AddressTree

  /** The `a_min` and `a_max` of a leaf */
  datatype Links = Links(min: Option<Range>, max: Option<Range>)

  /** A place that holds a link: what `T **proot` points to */
  datatype Slot = Head | MinOf(r: Range) | MaxOf(r: Range)

  /** The links from `top` down form the tree `t`. */
  ghost predicate Linked(links: map<Range, Links>, top: Option<Range>, t: Tree)
    decreases t
  {
    match t
    case Null => top.None?
    case Node(r, min, max) =>
      top == Some(r) && r in links && Linked(links, links[r].min, min) && Linked(links, links[r].max, max)
  }

  /** Nothing outside `s` has changed. */
  ghost predicate Kept(before: map<Range, Links>, after: map<Range, Links>, s: set<Range>) {
    forall r :: r in before && r !in s ==> r in after && after[r] == before[r]
  }

  lemma {:induction false} LinkedKept(before: map<Range, Links>, after: map<Range, Links>, s: set<Range>,
      top: Option<Range>, t: Tree)
    requires Linked(before, top, t) && Kept(before, after, s) && Ranges(t) !! s
    ensures Linked(after, top, t)
    decreases t
  {
    if t.Node? {
      LinkedKept(before, after, s, before[t.r].min, t.min);
      LinkedKept(before, after, s, before[t.r].max, t.max);
    }
  }

  /** Relinking one subtree of a leaf leaves a tree. */
  lemma MinRelinked(before: map<Range, Links>, after: map<Range, Links>, s: set<Range>, t: Tree, m: Tree)
    requires t.Node? && Linked(before, Some(t.r), t) && Kept(before, after, s + {t.r}) && Ranges(t.max) !! s + {t.r}
    requires t.r in after && after[t.r].max == before[t.r].max && Linked(after, after[t.r].min, m)
    ensures Linked(after, Some(t.r), Node(t.r, m, t.max))
  {
    LinkedKept(before, after, s + {t.r}, before[t.r].max, t.max);
  }

  lemma MaxRelinked(before: map<Range, Links>, after: map<Range, Links>, s: set<Range>, t: Tree, m: Tree)
    requires t.Node? && Linked(before, Some(t.r), t) && Kept(before, after, s + {t.r}) && Ranges(t.min) !! s + {t.r}
    requires t.r in after && after[t.r].min == before[t.r].min && Linked(after, after[t.r].max, m)
    ensures Linked(after, Some(t.r), Node(t.r, t.min, m))
  {
    LinkedKept(before, after, s + {t.r}, before[t.r].min, t.min);
  }

  lemma {:induction false} MovableFits(t: Tree, p: Pos, taken: bool)
    requires Movable(t, p, taken)
    ensures forall x :: x in Ranges(t) ==> Fits(x, p)
  {
    if t.Node? {
      MovableFits(t.min, p, taken);
      MovableFits(t.max, p, taken);
    }
  }

  /** Ranges that do not overlap and are not empty are different ranges. */
  lemma ApartDisjoint(a: set<Range>, b: set<Range>)
    requires Apart(a, b) && forall x :: x in a ==> x.lo <= x.hi
    ensures a !! b
  {
    forall x | x in a ensures x !in b {
      assert Free(x, b) && Overlap(x, x);
    }
  }

  lemma SeparateDisjoint(t: Tree, p: Pos, taken: bool)
    requires t.Node? && Separate(t) && Movable(t, p, taken)
    ensures t.r !in Ranges(t.min) && t.r !in Ranges(t.max) && Ranges(t.min) !! Ranges(t.max)
  {
    MovableFits(t.min, p, taken);
    assert Overlap(t.r, t.r);
    assert forall x :: x in Ranges(t.min) ==> Fits(x, p) && x.lo <= x.hi;
    ApartDisjoint(Ranges(t.min), Ranges(t.max));
  }

  /** What the second half of priv_reinsertall finds after the first */
  lemma HalfReinserted(root: Tree, t: Tree, p: Pos, o1: Outcome)
    requires WF(root, p) && t.Node? && Separate(t) && Movable(t, p, RootCovers(root, p)) && Ranges(root) !! Ranges(t)
    requires o1 == (if t.min.Null? then Done(root) else ReinsertAll(root, t.min, p)) && o1.Done?
    ensures WF(o1.t, p) && Ranges(o1.t) == Ranges(root) + Ranges(t.min) && Ranges(o1.t) !! Ranges(t.max)
    ensures Movable(t.max, p, RootCovers(o1.t, p)) && (RootCovers(o1.t, p) || !Covers(t.r, p))
    ensures
      var o2 := if t.max.Null? then o1 else ReinsertAll(o1.t, t.max, p);
      ReinsertAll(root, t, p) == if o2.Done? then InsertAt(o2.t, t.r, p) else o2
  {
    SeparateDisjoint(t, p, RootCovers(root, p));
    MovableMono(t.max, p, RootCovers(root, p), RootCovers(o1.t, p));
  }

  /** A leaf that covers the semi-point is not below a leaf that does not overlap it. */
  lemma CoveringIsNew(t: Tree, leaf: Range, p: Pos)
    requires WF(t, p) && t.Node? && Covers(leaf, p) && !Overlap(leaf, t.r)
    ensures leaf !in Ranges(t)
  {
    assert Overlap(leaf, leaf);
    if p.At? { WFFits(t.min, WalkMin(p)); }
  }

  /** What pop_at relies on: the children fit the place of their parent and leave its semi-point
      alone. `t1` is the place with the lower ones inserted again. */
  ghost predicate Poppable(t: Tree, p: Pos, t1: Tree) {
    && t.Node? && ValidPos(p)
    && Separate(t.min) && Movable(t.min, p, false)
    && t.r !in Ranges(t.min) && t.r !in Ranges(t.max) && Ranges(t.min) !! Ranges(t.max)
    && (t.min.Node? ==> ReinsertAll(Null, t.min, p).Done?)
    && t1 == Reinserted(Null, t.min, p)
    && Separate(t.max) && Movable(t.max, p, RootCovers(t1, p)) && Apart(Ranges(t.max), Ranges(t1))
  }

  lemma WFPoppable(t: Tree, p: Pos)
    requires t.Node? && p.At? && WF(t, p)
    ensures Movable(t.min, p, false) && Separate(t.min)
    ensures Poppable(t, p, Reinserted(Null, t.min, p))
    ensures PopAt(t, p) == Reinserted(Reinserted(Null, t.min, p), t.max, p)
  {
    WFSeparate(t, p);
    PartsDisjoint(t, p);
    PopMovable(t, p, false);
    if t.min.Node? { ReinsertExact(Null, t.min, p); }
    PopMovable(t, p, RootCovers(Reinserted(Null, t.min, p), p));
    ApartCommutes(Ranges(t.min), Ranges(t.max));
    assert Ranges(Null) + Ranges(t.min) == Ranges(t.min);
  }

  /** The leaf whose link a slot is */
  ghost function Owner(slot: Slot): set<Range> {
    if slot.Head? then {} else {slot.r}
  }

  /** How tryinsert_at comes back, if it does */
  datatype Attempt = Inserted | Refused | Asserted

  ghost function Attempted(o: Outcome): Attempt {
    match o
    case Done(_) => Inserted
    case Rejected => Refused
    case AssertionFailed => Asserted
  }

  class AddressMap {
    var head: Option<Range>
    var links: map<Range, Links>

    constructor ()
      ensures Linked(links, head, Null)
    {
      head, links := None, map[];
    }

    ghost predicate SlotOk(slot: Slot)
      reads this
    {
      slot.Head? || slot.r in links
    }

    function Get(slot: Slot): Option<Range>
      requires SlotOk(slot)
      reads this
    {
      match slot
      case Head => head
      case MinOf(r) => links[r].min
      case MaxOf(r) => links[r].max
    }

    /** All but the given slot, and the links of the given leaves, is as it was. */
    twostate predicate Only(slot: Slot, s: set<Range>)
      reads this
    {
      && Kept(old(links), links, s + Owner(slot))
      && (!slot.Head? ==> head == old(head))
      && (slot.MinOf? ==> slot.r in links && slot.r in old(links) && links[slot.r].max == old(links)[slot.r].max)
      && (slot.MaxOf? ==> slot.r in links && slot.r in old(links) && links[slot.r].min == old(links)[slot.r].min)
    }

    method Set(slot: Slot, to: Option<Range>)
      requires SlotOk(slot)
      modifies this
      ensures SlotOk(slot) && Get(slot) == to && Only(slot, {}) && links.Keys == old(links.Keys)
    {
      match slot
      case Head => head := to;
      case MinOf(r) => links := links[r := links[r].(min := to)];
      case MaxOf(r) => links := links[r := links[r].(max := to)];
    }

    /** A leaf without children at the slot */
    method Plant(slot: Slot, leaf: Range)
      requires SlotOk(slot) && leaf !in Owner(slot)
      modifies this
      ensures SlotOk(slot) && Linked(links, Get(slot), Node(leaf, Null, Null)) && Only(slot, {leaf})
    {
      links := links[leaf := Links(None, None)];
      Set(slot, Some(leaf));
    }

    /** insert_at, below a slot that holds the tree `t`; `ok` tells that no assertion has fired */
    method Insert(slot: Slot, leaf: Range, p: Pos, ghost t: Tree) returns (ok: bool)
      requires SlotOk(slot) && Linked(links, Get(slot), t) && Owner(slot) !! Ranges(t) + {leaf}
      requires WF(t, p) && Fits(leaf, p)
      modifies this
      ensures ok <==> InsertAt(t, leaf, p).Done?
      ensures ok ==> SlotOk(slot) && Linked(links, Get(slot), InsertAt(t, leaf, p).t)
      ensures Only(slot, Ranges(t) + {leaf})
      decreases Height(p), if Covers(leaf, p) && !RootCovers(t, p) then 2 else 0, t
    {
      var iter := Get(slot);
      ok := true;
      if iter.None? {
        Plant(slot, leaf);
      } else if Overlap(leaf, iter.value) {
        ok := false;
      } else if Covers(leaf, p) {
        ok := Displace(slot, leaf, iter.value, p, t);
      } else if leaf.hi < Semi(p) {
        ok := InsertMin(slot, leaf, iter.value, p, t);
      } else {
        ok := InsertMax(slot, leaf, iter.value, p, t);
      }
    }

    /** The turns of insert_at to either side */
    method InsertMin(slot: Slot, leaf: Range, iter: Range, p: Pos, ghost t: Tree) returns (ok: bool)
      requires SlotOk(slot) && Get(slot) == Some(iter) && Linked(links, Get(slot), t)
               && Owner(slot) !! Ranges(t) + {leaf}
      requires WF(t, p) && Fits(leaf, p) && t.Node? && p.At? && !Overlap(leaf, t.r) && leaf.hi < p.semi
      modifies this
      ensures
        var o := InsertAt(t.min, leaf, WalkMin(p));
        (ok <==> o.Done?) && (ok ==> SlotOk(slot) && Linked(links, Get(slot), Node(t.r, o.t, t.max)))
      ensures Only(slot, Ranges(t) + {leaf})
      decreases Height(p), 0, t, 0
    {
      PartsDisjoint(t, p);
      ok := Insert(MinOf(iter), leaf, WalkMin(p), t.min);
      if ok { MinRelinked(old(links), links, Ranges(t.min) + {leaf}, t, InsertAt(t.min, leaf, WalkMin(p)).t); }
    }

    method InsertMax(slot: Slot, leaf: Range, iter: Range, p: Pos, ghost t: Tree) returns (ok: bool)
      requires SlotOk(slot) && Get(slot) == Some(iter) && Linked(links, Get(slot), t)
               && Owner(slot) !! Ranges(t) + {leaf}
      requires WF(t, p) && Fits(leaf, p) && t.Node? && p.At? && !Overlap(leaf, t.r) && leaf.lo > p.semi
      modifies this
      ensures
        var o := InsertAt(t.max, leaf, WalkMax(p));
        (ok <==> o.Done?) && (ok ==> SlotOk(slot) && Linked(links, Get(slot), Node(t.r, t.min, o.t)))
      ensures Only(slot, Ranges(t) + {leaf})
      decreases Height(p), 0, t, 0
    {
      PartsDisjoint(t, p);
      WFFits(t.min, WalkMin(p));
      ok := Insert(MaxOf(iter), leaf, WalkMax(p), t.max);
      if ok { MaxRelinked(old(links), links, Ranges(t.max) + {leaf}, t, InsertAt(t.max, leaf, WalkMax(p)).t); }
    }

    /** The case of a leaf that covers the semi-point: it takes the slot, and what stood there is
        inserted again. */
    method Displace(slot: Slot, leaf: Range, iter: Range, p: Pos, ghost t: Tree) returns (ok: bool)
      requires SlotOk(slot) && Linked(links, Get(slot), t) && Owner(slot) !! Ranges(t) + {leaf}
      requires WF(t, p) && Fits(leaf, p) && t.Node? && iter == t.r && Covers(leaf, p) && !Overlap(leaf, t.r)
      modifies this
      ensures ok <==> InsertAt(t, leaf, p).Done?
      ensures ok ==> SlotOk(slot) && Linked(links, Get(slot), InsertAt(t, leaf, p).t)
      ensures Only(slot, Ranges(t) + {leaf})
      decreases Height(p), 1, t, 1
    {
      WFFits(t, p);
      WFSeparate(t, p);
      ghost var root := Node(leaf, Null, Null);
      LeafWF(leaf, p);
      RangesMovable(t, p, RootCovers(root, p));
      CoveringIsNew(t, leaf, p);
      Plant(slot, leaf);
      LinkedKept(old(links), links, {leaf} + Owner(slot), Some(iter), t);
      ok := Reinsert(slot, iter, p, root, t);
    }

    /** priv_reinsertall: first what is below the leaf, then the leaf itself */
    method Reinsert(slot: Slot, ins: Range, p: Pos, ghost root: Tree, ghost t: Tree) returns (ok: bool)
      requires SlotOk(slot) && Linked(links, Get(slot), root) && Linked(links, Some(ins), t)
      requires Owner(slot) !! Ranges(root) + Ranges(t) && Ranges(root) !! Ranges(t)
      requires WF(root, p) && t.Node? && Separate(t) && Movable(t, p, RootCovers(root, p))
      modifies this
      ensures ok <==> ReinsertAll(root, t, p).Done?
      ensures ok ==> SlotOk(slot) && Linked(links, Get(slot), ReinsertAll(root, t, p).t)
      ensures Only(slot, Ranges(root) + Ranges(t))
      decreases Height(p), 1, t, 0
    {
      SeparateDisjoint(t, p, RootCovers(root, p));
      ghost var s := Ranges(root) + Ranges(t);
      ok := ReinsertMin(slot, ins, p, root, t, s);
      if ok {
        ghost var o1 := if t.min.Null? then Done(root) else ReinsertAll(root, t.min, p);
        HalfReinserted(root, t, p, o1);
        ok := ReinsertMaxAndLeaf(slot, ins, p, o1.t, t, s);
      }
    }

    /** The first half of priv_reinsertall. `s` bounds what may be relinked. */
    method ReinsertMin(slot: Slot, ins: Range, p: Pos, ghost root: Tree, ghost t: Tree,
        ghost s: set<Range>) returns (ok: bool)
      requires SlotOk(slot) && Linked(links, Get(slot), root) && Linked(links, Some(ins), t) && t.Node?
      requires Owner(slot) !! Ranges(root) + Ranges(t) && Ranges(root) !! Ranges(t)
      requires ins !in Ranges(t.min) && Ranges(t.min) !! Ranges(t.max)
      requires Ranges(root) + Ranges(t.min) <= s
      requires WF(root, p) && Separate(t.min) && Movable(t.min, p, RootCovers(root, p))
      modifies this
      ensures
        var o1 := if t.min.Null? then Done(root) else ReinsertAll(root, t.min, p);
        (ok <==> o1.Done?) && (ok ==> SlotOk(slot) && Linked(links, Get(slot), o1.t))
      ensures Only(slot, s)
      ensures ins in links && Linked(links, links[ins].max, t.max)
      decreases Height(p), 1, t.min, 1
    {
      ok := true;
      if links[ins].min.Some? {
        ok := Reinsert(slot, links[ins].min.value, p, root, t.min);
        LinkedKept(old(links), links, Ranges(root) + Ranges(t.min) + Owner(slot), old(links)[ins].max, t.max);
      }
    }

    /** The second half of priv_reinsertall */
    method ReinsertMaxAndLeaf(slot: Slot, ins: Range, p: Pos, ghost root: Tree, ghost t: Tree,
        ghost s: set<Range>) returns (ok: bool)
      requires SlotOk(slot) && Linked(links, Get(slot), root)
      requires t.Node? && t.r == ins && ins in links && Linked(links, links[ins].max, t.max)
      requires Owner(slot) !! Ranges(root) + Ranges(t.max) + {ins} && Ranges(root) !! Ranges(t.max)
      requires Ranges(root) + Ranges(t.max) + {ins} <= s
      requires WF(root, p) && Separate(t.max) && Movable(t.max, p, RootCovers(root, p)) && Fits(ins, p)
      requires RootCovers(root, p) || !Covers(ins, p)
      modifies this
      ensures
        var o2 := if t.max.Null? then Done(root) else ReinsertAll(root, t.max, p);
        && (ok <==> o2.Done? && InsertAt(o2.t, ins, p).Done?)
        && (ok ==> SlotOk(slot) && Linked(links, Get(slot), InsertAt(o2.t, ins, p).t))
      ensures Only(slot, s)
      decreases Height(p), 1, t.max, 1
    {
      ok := true;
      if links[ins].max.Some? {
        ok := Reinsert(slot, links[ins].max.value, p, root, t.max);
      }
      if ok {
        ghost var o2 := if t.max.Null? then Done(root) else ReinsertAll(root, t.max, p);
        ok := Insert(slot, ins, p, o2.t);
      }
    }

    /** tryinsert_at: it inserts, reports the range as taken, or runs into an assertion. */
    method TryInsert(slot: Slot, leaf: Range, p: Pos, ghost t: Tree) returns (res: Attempt)
      requires SlotOk(slot) && Linked(links, Get(slot), t) && Owner(slot) !! Ranges(t) + {leaf}
      requires WF(t, p) && Fits(leaf, p)
      modifies this
      ensures res == Attempted(TryInsertAt(t, leaf, p))
      ensures res.Inserted? ==> SlotOk(slot) && Linked(links, Get(slot), TryInsertAt(t, leaf, p).t)
      ensures res.Refused? ==> head == old(head) && links == old(links)
      ensures Only(slot, Ranges(t) + {leaf})
      decreases t, 1
    {
      var iter := Get(slot);
      if iter.None? {
        Plant(slot, leaf);
        res := Inserted;
      } else if Overlap(leaf, iter.value) {
        res := Refused;
      } else if Covers(leaf, p) {
        res := TryDisplace(slot, leaf, iter.value, p, t);
      } else if leaf.hi < Semi(p) {
        res := TryInsertMin(slot, leaf, iter.value, p, t);
      } else {
        res := TryInsertMax(slot, leaf, iter.value, p, t);
      }
    }

    /** The case of a leaf that covers the semi-point, for tryinsert_at */
    method TryDisplace(slot: Slot, leaf: Range, iter: Range, p: Pos, ghost t: Tree) returns (res: Attempt)
      requires SlotOk(slot) && Linked(links, Get(slot), t) && Owner(slot) !! Ranges(t) + {leaf}
      requires WF(t, p) && Fits(leaf, p) && t.Node? && iter == t.r && Covers(leaf, p) && !Overlap(leaf, t.r)
      modifies this
      ensures res == Attempted(TryInsertAt(t, leaf, p)) && !res.Refused?
      ensures res.Inserted? ==> SlotOk(slot) && Linked(links, Get(slot), TryInsertAt(t, leaf, p).t)
      ensures Only(slot, Ranges(t) + {leaf})
    {
      var ok := Displace(slot, leaf, iter, p, t);
      res := if ok then Inserted else Asserted;
    }

    /** The turns of tryinsert_at to either side */
    method TryInsertMin(slot: Slot, leaf: Range, iter: Range, p: Pos, ghost t: Tree) returns (res: Attempt)
      requires SlotOk(slot) && Get(slot) == Some(iter) && Linked(links, Get(slot), t)
               && Owner(slot) !! Ranges(t) + {leaf}
      requires WF(t, p) && Fits(leaf, p) && t.Node? && p.At? && !Overlap(leaf, t.r) && leaf.hi < p.semi
      modifies this
      ensures
        var o := TryInsertAt(t.min, leaf, WalkMin(p));
        res == Attempted(o) && (res.Inserted? ==> SlotOk(slot) && Linked(links, Get(slot), Node(t.r, o.t, t.max)))
      ensures res.Refused? ==> head == old(head) && links == old(links)
      ensures Only(slot, Ranges(t) + {leaf})
      decreases t, 0
    {
      PartsDisjoint(t, p);
      res := TryInsert(MinOf(iter), leaf, WalkMin(p), t.min);
      if res.Inserted? {
        MinRelinked(old(links), links, Ranges(t.min) + {leaf}, t, TryInsertAt(t.min, leaf, WalkMin(p)).t);
      }
    }

    method TryInsertMax(slot: Slot, leaf: Range, iter: Range, p: Pos, ghost t: Tree) returns (res: Attempt)
      requires SlotOk(slot) && Get(slot) == Some(iter) && Linked(links, Get(slot), t)
               && Owner(slot) !! Ranges(t) + {leaf}
      requires WF(t, p) && Fits(leaf, p) && t.Node? && p.At? && !Overlap(leaf, t.r) && leaf.lo > p.semi
      modifies this
      ensures
        var o := TryInsertAt(t.max, leaf, WalkMax(p));
        res == Attempted(o) && (res.Inserted? ==> SlotOk(slot) && Linked(links, Get(slot), Node(t.r, t.min, o.t)))
      ensures res.Refused? ==> head == old(head) && links == old(links)
      ensures Only(slot, Ranges(t) + {leaf})
      decreases t, 0
    {
      PartsDisjoint(t, p);
      WFFits(t.min, WalkMin(p));
      res := TryInsert(MaxOf(iter), leaf, WalkMax(p), t.max);
      if res.Inserted? {
        MaxRelinked(old(links), links, Ranges(t.max) + {leaf}, t, TryInsertAt(t.max, leaf, WalkMax(p)).t);
      }
    }

    /** pop_at: empties the slot and inserts again what stood below the leaf it held. No assertion
        fires on the way. */
    method Pop(slot: Slot, p: Pos, ghost t: Tree) returns (root: Range, ok: bool)
      requires SlotOk(slot) && Linked(links, Get(slot), t) && Owner(slot) !! Ranges(t) && t.Node? && WF(t, p)
      modifies this
      ensures ok && root == t.r && SlotOk(slot) && Linked(links, Get(slot), PopAt(t, p)) && Only(slot, Ranges(t))
    {
      root, ok := Get(slot).value, true;
      Set(slot, None);
      if p.At? {
        LinkedKept(old(links), links, Owner(slot), Some(root), t);
        WFPoppable(t, p);
        ok := PopChildren(slot, root, p, t, Reinserted(Null, t.min, p));
      }
    }

    method PopChildren(slot: Slot, root: Range, p: Pos, ghost t: Tree, ghost t1: Tree) returns (ok: bool)
      requires Poppable(t, p, t1) && root == t.r && Owner(slot) !! Ranges(t)
      requires SlotOk(slot) && Get(slot).None? && Linked(links, Some(root), t)
      modifies this
      ensures ok && SlotOk(slot) && Linked(links, Get(slot), Reinserted(t1, t.max, p)) && Only(slot, Ranges(t))
    {
      ok := ReinsertMin(slot, root, p, Null, t, Ranges(t));
      ok := ReinsertMax(slot, links[root].max, p, t1, t.max);
    }

    method ReinsertMax(slot: Slot, top: Option<Range>, p: Pos, ghost root: Tree, ghost t: Tree) returns (ok: bool)
      requires SlotOk(slot) && Linked(links, Get(slot), root) && Linked(links, top, t)
      requires Owner(slot) !! Ranges(root) + Ranges(t) && Ranges(root) !! Ranges(t)
      requires WF(root, p) && Separate(t) && Movable(t, p, RootCovers(root, p)) && Apart(Ranges(t), Ranges(root))
      modifies this
      ensures ok && SlotOk(slot) && Linked(links, Get(slot), Reinserted(root, t, p))
      ensures Only(slot, Ranges(root) + Ranges(t))
    {
      ok := true;
      if top.Some? {
        ReinsertExact(root, t, p);
        ok := Reinsert(slot, top.value, p, root, t);
      }
    }

    /** remove_at: the walk to the leaf that holds the key, and pop_at there. `asserted` tells that
        the walk went on from level 0. */
    method Remove(slot: Slot, key: nat, p: Pos, ghost t: Tree) returns (hit: Option<Range>, asserted: bool)
      requires SlotOk(slot) && Linked(links, Get(slot), t) && Owner(slot) !! Ranges(t)
      requires WF(t, p) && MapMin(p) <= key <= MapMax(p)
      modifies this
      ensures asserted <==> RemoveAt(t, key, p).LevelAsserted?
      ensures asserted ==> hit == None && head == old(head) && links == old(links)
      ensures
        var r := RemoveAt(t, key, p);
        !asserted ==>
          && SlotOk(slot) && Linked(links, Get(slot), r.t)
          && hit == if r.hit.Node? then Some(r.hit.r) else None
      ensures Only(slot, Ranges(t))
      decreases t
    {
      var iter := Get(slot);
      hit, asserted := None, false;
      if iter.None? {
      } else if iter.value.Has(key) {
        var root, ok := Pop(slot, p, t);
        hit := Some(root);
      } else {
        LocateStep(t, key, p);
        PartsDisjoint(t, p);
        if p.level == 0 {
          asserted := true;
        } else if key < p.semi {
          hit, asserted := Remove(MinOf(iter.value), key, WalkMin(p), t.min);
          if !asserted { MinRelinked(old(links), links, Ranges(t.min), t, RemoveAt(t.min, key, WalkMin(p)).t); }
        } else {
          hit, asserted := Remove(MaxOf(iter.value), key, WalkMax(p), t.max);
          if !asserted { MaxRelinked(old(links), links, Ranges(t.max), t, RemoveAt(t.max, key, WalkMax(p)).t); }
        }
      }
    }
  }
}
