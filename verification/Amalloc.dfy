/** The hybrid allocator: small blocks on the stack, large ones on the heap, and a tag byte below
    every pointer from which the release decides what to do. The model is a flat memory of bytes
    with the client, the heap and the stack interleaved in any order. */
module Amalloc {
  import opened Basics

  const ALIGN := 8

  /** The build: release or debug, kernel or user space, 64-bit or 32-bit words. */
  datatype Config = Config(ndebug: bool, kernel: bool, wide: bool) {
    function Max(): nat { if kernel then 256 else 4096 }
    function Space(): nat { if wide then 0x1_0000_0000_0000_0000 else 0x1_0000_0000 }
    function KeyAlloca(): byte { if ndebug then 0 else 0x7c }
    function KeyMalloc(): byte { if ndebug then 1 else 0xb3 }

    function Key(storage: Storage): byte {
      if storage.Heap? then KeyMalloc() else KeyAlloca()
    }

    /** The release test: "not the stack key" in release builds, "the heap key" in debug ones. */
    predicate MustFree(key: byte) {
      if ndebug then key != KeyAlloca() else key == KeyMalloc()
    }

    /** The assertion that debug builds make before the test. */
    predicate AssertsOk(key: byte) {
      ndebug || key == KeyAlloca() || key == KeyMalloc()
    }
  }

  datatype Storage = Stack | Heap

  /** A live block of the underlying heap or of a stack frame. */
  datatype Block = Block(size: nat, storage: Storage, frame: nat)

  /** The calls of the underlying heap, the ones that it refused included. */
  datatype Event = Allocated(base: int) | Refused(size: nat) | Freed(base: int)

  /** `live` maps the pointers that the client holds and has not released to their sizes. */
  datatype State = State(mem: seq<byte>, blocks: map<int, Block>, live: map<int, nat>, frame: nat, log: seq<Event>)

  datatype Kind = Auto | OnStack | OnHeap | NoFail

  /** What happens next. An allocation carries what the heap and the stack would answer to it,
      and the bytes that a fresh block happens to hold. */
  datatype Op =
    | Alloc(kind: Kind, zero: bool, s: nat, heap: Option<int>, stack: int, junk: seq<byte>)
    | Write(p: int, i: nat, b: byte)
    | Free(p: int)
    | Enter
    | Leave

  // ---- One allocation -----------------------------------------------------------------------

  predicate WantsHeap(cfg: Config, kind: Kind, s: nat) {
    kind.OnHeap? || (!kind.OnStack? && s + ALIGN > cfg.Max())
  }

  /** Where the block ends up, if anywhere. */
  function Placement(cfg: Config, op: Op): Option<(Storage, int)>
    requires op.Alloc?
  {
    if !WantsHeap(cfg, op.kind, op.s) then Some((Stack, op.stack))
    else if op.heap.Some? then Some((Heap, op.heap.value))
    else if op.kind.NoFail? then Some((Stack, op.stack))
    else None
  }

  /** The calls of the underlying heap once an allocation is through. */
  function LogAfter(cfg: Config, log: seq<Event>, op: Op): seq<Event>
    requires op.Alloc?
  {
    if !WantsHeap(cfg, op.kind, op.s) then log
    else log + [if op.heap.Some? then Allocated(op.heap.value) else Refused(op.s + ALIGN)]
  }

  /** The byte with which the payload of a stack block is filled, if it is. The two no-fail forms
      have their fillers the wrong way round. */
  function StackFill(cfg: Config, kind: Kind, zero: bool): Option<byte> {
    if kind.NoFail? != zero then Some(0)
    else if cfg.ndebug then None
    else Some(0xcd)
  }

  function InitialByte(cfg: Config, op: Op, storage: Storage, i: nat): byte
    requires op.Alloc? && i < |op.junk|
  {
    if storage.Heap? then (if op.zero then 0 else op.junk[i])
    else
      var fill := StackFill(cfg, op.kind, op.zero);
      if i >= ALIGN && fill.Some? then fill.value else op.junk[i]
  }

  /** The bytes of the block when the client gets it: the tag first, the payload from ALIGN on. */
  function BlockBytes(cfg: Config, op: Op, storage: Storage): (bytes: seq<byte>)
    requires op.Alloc?
    ensures |bytes| == |op.junk|
  {
    seq(|op.junk|, i requires 0 <= i < |op.junk| =>
      if i == 0 then cfg.Key(storage) else InitialByte(cfg, op, storage, i))
  }

  function Splice(mem: seq<byte>, base: int, bytes: seq<byte>): (m: seq<byte>)
    ensures |m| == |mem|
  {
    seq(|mem|, i requires 0 <= i < |mem| => if base <= i < base + |bytes| then bytes[i - base] else mem[i])
  }

  // ---- The machine --------------------------------------------------------------------------

  /** What the environment and the client may do. Fresh blocks come from unused memory. The client
      writes into payloads it holds and releases each pointer once. */
  ghost predicate Legal(cfg: Config, st: State, op: Op) {
    match op
    case Alloc(kind, zero, s, heap, stack, junk) =>
      && s + ALIGN < cfg.Space()
      && |junk| == s + ALIGN
      && var at := Placement(cfg, op); at.Some? ==> Vacant(st, at.value.1, s + ALIGN)
    case Write(p, i, b) => p in st.live && i < st.live[p]
    case Free(p) => p in st.live
    case Enter => true
    case Leave => st.frame > 0
  }

  ghost predicate Vacant(st: State, base: int, n: nat) {
    && 0 < base && base + n <= |st.mem|
    && forall b :: b in st.blocks ==> base + n <= b || b + st.blocks[b].size <= base
  }

  function Step(cfg: Config, st: State, op: Op): State {
    match op
    case Alloc(kind, zero, s, heap, stack, junk) =>
      var at := Placement(cfg, op);
      var log := LogAfter(cfg, st.log, op);
      if at.None? then st.(log := log)
      else
        var (storage, base) := at.value;
        st.(mem := Splice(st.mem, base, BlockBytes(cfg, op, storage)),
            blocks := st.blocks[base := Block(s + ALIGN, storage, st.frame)],
            live := st.live[base + ALIGN := s],
            log := log)
    case Write(p, i, b) => st.(mem := Splice(st.mem, p + i, [b]))
    case Free(p) =>
      var base := p - ALIGN;
      var released := st.(live := st.live - {p});
      if 0 <= base < |st.mem| && cfg.MustFree(st.mem[base]) then
        released.(blocks := st.blocks - {base}, log := st.log + [Freed(base)])
      else released
    case Enter => st.(frame := st.frame + 1)
    case Leave =>
      if st.frame == 0 then st else
      var blocks := map b | b in st.blocks && (st.blocks[b].storage.Heap? || st.blocks[b].frame != st.frame)
                        :: st.blocks[b];
      st.(blocks := blocks, live := map p | p in st.live && p - ALIGN in blocks :: st.live[p], frame := st.frame - 1)
  }

  /** The pointer that an allocation returns; 0 is the null pointer. */
  function Returned(cfg: Config, op: Op): int
    requires op.Alloc?
  {
    var at := Placement(cfg, op);
    if at.None? then 0 else at.value.1 + ALIGN
  }

  function Run(cfg: Config, st: State, ops: seq<Op>): State
    decreases |ops|
  {
    if ops == [] then st else Run(cfg, Step(cfg, st, ops[0]), ops[1..])
  }

  ghost predicate LegalRun(cfg: Config, st: State, ops: seq<Op>)
    decreases |ops|
  {
    ops != [] ==> Legal(cfg, st, ops[0]) && LegalRun(cfg, Step(cfg, st, ops[0]), ops[1..])
  }

  // ---- The invariant ------------------------------------------------------------------------

  ghost predicate BlocksInside(st: State) {
    forall b :: b in st.blocks ==>
      && 0 < b && st.blocks[b].size >= ALIGN && b + st.blocks[b].size <= |st.mem|
      && (st.blocks[b].storage.Stack? ==> st.blocks[b].frame <= st.frame)
  }

  ghost predicate BlocksApart(st: State) {
    forall a, b :: a in st.blocks && b in st.blocks && a < b ==> a + st.blocks[a].size <= b
  }

  /** Every pointer the client holds is the payload of a live block, and its tag tells truly
      where that block lives. */
  ghost predicate LiveOk(cfg: Config, st: State) {
    forall p :: p in st.live ==> Tagged(cfg, st, p)
  }

  ghost predicate Tagged(cfg: Config, st: State, p: int)
    requires p in st.live
  {
    var base := p - ALIGN;
    && base in st.blocks && 0 <= base < |st.mem|
    && st.blocks[base].size == st.live[p] + ALIGN
    && st.mem[base] == cfg.Key(st.blocks[base].storage)
  }

  ghost predicate NoLeak(st: State) {
    forall b :: b in st.blocks && st.blocks[b].storage.Heap? ==> b + ALIGN in st.live
  }

  ghost function HeapBases(blocks: map<int, Block>): set<int> {
    set b | b in blocks && blocks[b].storage.Heap?
  }

  lemma HeapBasesInsert(blocks: map<int, Block>, base: int, block: Block)
    requires base !in blocks
    ensures block.storage.Heap? ==> HeapBases(blocks[base := block]) == HeapBases(blocks) + {base}
    ensures block.storage.Stack? ==> HeapBases(blocks[base := block]) == HeapBases(blocks)
  {
  }

  /** Replays the calls of the underlying heap. The replay breaks when a block is freed that is
      not allocated at that point. */
  ghost function Outstanding(log: seq<Event>): Option<set<int>> {
    if log == [] then Some({}) else
    var before := Outstanding(log[..|log| - 1]);
    if before.None? then None else
    match log[|log| - 1]
    case Allocated(b) => if b in before.value then None else Some(before.value + {b})
    case Refused(_) => before
    case Freed(b) => if b in before.value then Some(before.value - {b}) else None
  }

  ghost predicate Inv(cfg: Config, st: State) {
    && |st.mem| == cfg.Space()
    && BlocksInside(st) && BlocksApart(st) && LiveOk(cfg, st) && NoLeak(st)
    && Outstanding(st.log) == Some(HeapBases(st.blocks))
  }

  lemma OutstandingAppend(log: seq<Event>, e: Event)
    ensures
      Outstanding(log + [e]) ==
      var before := Outstanding(log);
      if before.None? then None else
      match e
      case Allocated(b) => if b in before.value then None else Some(before.value + {b})
      case Refused(_) => before
      case Freed(b) => if b in before.value then Some(before.value - {b}) else None
  {
    assert (log + [e])[..|log + [e]| - 1] == log;
  }

  lemma AllocatedLog(log: seq<Event>, blocks: map<int, Block>, base: int, block: Block)
    requires Outstanding(log) == Some(HeapBases(blocks)) && base !in blocks
    ensures
      Outstanding(if block.storage.Heap? then log + [Allocated(base)] else log)
      == Some(HeapBases(blocks[base := block]))
  {
    HeapBasesInsert(blocks, base, block);
    OutstandingAppend(log, Allocated(base));
  }

  lemma RefusedLog(log: seq<Event>, size: nat)
    ensures Outstanding(log + [Refused(size)]) == Outstanding(log)
  {
    OutstandingAppend(log, Refused(size));
  }

  lemma FreedLog(log: seq<Event>, blocks: map<int, Block>, base: int)
    requires Outstanding(log) == Some(HeapBases(blocks)) && base in blocks && blocks[base].storage.Heap?
    ensures Outstanding(log + [Freed(base)]) == Some(HeapBases(blocks - {base}))
  {
    OutstandingAppend(log, Freed(base));
    assert HeapBases(blocks - {base}) == HeapBases(blocks) - {base};
  }

  /** Bytes outside a spliced stretch stay. */
  lemma SpliceOutside(mem: seq<byte>, base: int, bytes: seq<byte>, lo: int, hi: int)
    requires 0 <= lo <= hi <= |mem| && (hi <= base || base + |bytes| <= lo)
    ensures Splice(mem, base, bytes)[lo..hi] == mem[lo..hi]
  {
  }

  lemma AllocKeepsBlocks(cfg: Config, st: State, op: Op)
    requires BlocksInside(st) && BlocksApart(st) && op.Alloc? && Legal(cfg, st, op)
    ensures var st' := Step(cfg, st, op); BlocksInside(st') && BlocksApart(st')
  {
  }

  lemma AllocKeepsTags(cfg: Config, st: State, op: Op, p: int)
    requires BlocksInside(st) && LiveOk(cfg, st) && op.Alloc? && Legal(cfg, st, op)
    requires p in Step(cfg, st, op).live
    ensures Tagged(cfg, Step(cfg, st, op), p)
  {
    var at := Placement(cfg, op);
    if at.None? || p != at.value.1 + ALIGN {
      assert Tagged(cfg, st, p);
    }
  }

  lemma AllocKeepsLog(cfg: Config, st: State, op: Op)
    requires BlocksInside(st) && Outstanding(st.log) == Some(HeapBases(st.blocks)) && op.Alloc? && Legal(cfg, st, op)
    ensures var st' := Step(cfg, st, op); Outstanding(st'.log) == Some(HeapBases(st'.blocks))
  {
    var at := Placement(cfg, op);
    RefusedLog(st.log, op.s + ALIGN);
    if at.Some? {
      var (storage, base) := at.value;
      assert base !in st.blocks;
      AllocatedLog(st.log, st.blocks, base, Block(op.s + ALIGN, storage, st.frame));
    }
  }

  lemma AllocKeepsInv(cfg: Config, st: State, op: Op)
    requires Inv(cfg, st) && op.Alloc? && Legal(cfg, st, op)
    ensures Inv(cfg, Step(cfg, st, op))
  {
    AllocKeepsBlocks(cfg, st, op);
    AllocKeepsLog(cfg, st, op);
    forall p | p in Step(cfg, st, op).live ensures Tagged(cfg, Step(cfg, st, op), p) {
      AllocKeepsTags(cfg, st, op, p);
    }
  }

  lemma WriteKeepsInv(cfg: Config, st: State, op: Op)
    requires Inv(cfg, st) && op.Write? && Legal(cfg, st, op)
    ensures Inv(cfg, Step(cfg, st, op))
  {
    var st' := Step(cfg, st, op);
    assert Tagged(cfg, st, op.p);
    forall p | p in st'.live ensures Tagged(cfg, st', p) {
      assert Tagged(cfg, st, p);
    }
    assert HeapBases(st'.blocks) == HeapBases(st.blocks);
  }

  /** Releasing a pointer reaches the underlying heap exactly when its block lives there. */
  lemma FreeDecides(cfg: Config, st: State, p: int)
    requires LiveOk(cfg, st) && p in st.live
    ensures
      var key := st.mem[p - ALIGN];
      && cfg.AssertsOk(key)
      && (cfg.MustFree(key) <==> st.blocks[p - ALIGN].storage.Heap?)
      && (key == cfg.KeyMalloc() <==> key != cfg.KeyAlloca())
  {
    assert Tagged(cfg, st, p);
  }

  /** A release gives a heap block back, once, and leaves a stack block to its frame. */
  lemma ReleasesExactly(cfg: Config, st: State, op: Op)
    requires LiveOk(cfg, st) && op.Free? && Legal(cfg, st, op)
    ensures
      var st', base := Step(cfg, st, op), op.p - 8;
      && base in st.blocks
      && st'.live == st.live - {op.p} && st'.mem == st.mem && st'.frame == st.frame
      && (st.blocks[base].storage.Heap? ==> st'.blocks == st.blocks - {base} && st'.log == st.log + [Freed(base)])
      && (st.blocks[base].storage.Stack? ==> st'.blocks == st.blocks && st'.log == st.log)
  {
    assert Tagged(cfg, st, op.p);
    FreeDecides(cfg, st, op.p);
  }

  lemma FreeKeepsTags(cfg: Config, st: State, op: Op, p: int)
    requires Inv(cfg, st) && op.Free? && Legal(cfg, st, op)
    requires p in Step(cfg, st, op).live
    ensures Tagged(cfg, Step(cfg, st, op), p)
  {
    assert p != op.p && Tagged(cfg, st, p) && Tagged(cfg, st, op.p);
  }

  lemma FreeKeepsLog(cfg: Config, st: State, op: Op)
    requires LiveOk(cfg, st) && Outstanding(st.log) == Some(HeapBases(st.blocks)) && op.Free? && Legal(cfg, st, op)
    ensures var st' := Step(cfg, st, op); Outstanding(st'.log) == Some(HeapBases(st'.blocks))
  {
    var st', base := Step(cfg, st, op), op.p - ALIGN;
    assert base in st.blocks && 0 <= base < |st.mem|
           && (cfg.MustFree(st.mem[base]) <==> st.blocks[base].storage.Heap?) by {
      assert Tagged(cfg, st, op.p);
      FreeDecides(cfg, st, op.p);
    }
    if st.blocks[base].storage.Heap? {
      assert st'.blocks == st.blocks - {base} && st'.log == st.log + [Freed(base)];
      FreedLog(st.log, st.blocks, base);
    } else {
      assert st'.blocks == st.blocks && st'.log == st.log;
    }
  }

  lemma FreeKeepsNoLeak(cfg: Config, st: State, op: Op)
    requires LiveOk(cfg, st) && NoLeak(st) && op.Free? && Legal(cfg, st, op)
    ensures NoLeak(Step(cfg, st, op))
  {
    assert Tagged(cfg, st, op.p);
    FreeDecides(cfg, st, op.p);
  }

  lemma FreeKeepsInv(cfg: Config, st: State, op: Op)
    requires Inv(cfg, st) && op.Free? && Legal(cfg, st, op)
    ensures Inv(cfg, Step(cfg, st, op))
  {
    FreeKeepsLog(cfg, st, op);
    FreeKeepsNoLeak(cfg, st, op);
    forall p | p in Step(cfg, st, op).live ensures Tagged(cfg, Step(cfg, st, op), p) {
      FreeKeepsTags(cfg, st, op, p);
    }
  }

  lemma LeaveKeepsTags(cfg: Config, st: State, op: Op, p: int)
    requires LiveOk(cfg, st) && op.Leave? && p in Step(cfg, st, op).live
    ensures Tagged(cfg, Step(cfg, st, op), p)
  {
    assert Tagged(cfg, st, p);
  }

  lemma LeaveKeepsBlocks(cfg: Config, st: State, op: Op)
    requires BlocksInside(st) && BlocksApart(st) && NoLeak(st) && op.Leave? && st.frame > 0
    ensures var st' := Step(cfg, st, op);
            BlocksInside(st') && BlocksApart(st') && NoLeak(st') && HeapBases(st'.blocks) == HeapBases(st.blocks)
  {
  }

  lemma LeaveKeepsInv(cfg: Config, st: State, op: Op)
    requires Inv(cfg, st) && op.Leave? && Legal(cfg, st, op)
    ensures Inv(cfg, Step(cfg, st, op))
  {
    LeaveKeepsBlocks(cfg, st, op);
    forall p | p in Step(cfg, st, op).live ensures Tagged(cfg, Step(cfg, st, op), p) {
      LeaveKeepsTags(cfg, st, op, p);
    }
  }

  lemma StepKeepsInv(cfg: Config, st: State, op: Op)
    requires Inv(cfg, st) && Legal(cfg, st, op)
    ensures Inv(cfg, Step(cfg, st, op))
  {
    match op
    case Alloc(_, _, _, _, _, _) => AllocKeepsInv(cfg, st, op);
    case Write(_, _, _) => WriteKeepsInv(cfg, st, op);
    case Free(_) => FreeKeepsInv(cfg, st, op);
    case Leave => LeaveKeepsInv(cfg, st, op);
    case Enter => assert HeapBases(Step(cfg, st, op).blocks) == HeapBases(st.blocks);
  }

  lemma {:induction false} RunKeepsInv(cfg: Config, st: State, ops: seq<Op>)
    requires Inv(cfg, st) && LegalRun(cfg, st, ops)
    ensures Inv(cfg, Run(cfg, st, ops))
    decreases |ops|
  {
    if ops != [] {
      StepKeepsInv(cfg, st, ops[0]);
      RunKeepsInv(cfg, Step(cfg, st, ops[0]), ops[1..]);
    }
  }

  // ---- Safety of every run ------------------------------------------------------------------

  ghost predicate Init(cfg: Config, st: State) {
    |st.mem| == cfg.Space() && st.blocks == map[] && st.live == map[] && st.log == []
  }

  /** The blocks below the pointers that carry the heap key. */
  ghost function TaggedBases(cfg: Config, st: State): set<int> {
    set p | p in st.live && 0 <= p - ALIGN < |st.mem| && st.mem[p - ALIGN] == cfg.KeyMalloc() :: p - ALIGN
  }

  /** Over every run, the underlying heap is asked to free only what it has allocated and not yet
      freed, and what it still holds are the blocks of the heap-tagged pointers that the client
      has not released. */
  lemma HeapCallsAreSound(cfg: Config, st: State, ops: seq<Op>)
    requires Init(cfg, st) && LegalRun(cfg, st, ops)
    ensures var end := Run(cfg, st, ops); Outstanding(end.log) == Some(TaggedBases(cfg, end))
  {
    assert HeapBases(st.blocks) == {};
    RunKeepsInv(cfg, st, ops);
    HeapBlocksAreTagged(cfg, Run(cfg, st, ops));
  }

  lemma HeapBlocksAreTagged(cfg: Config, st: State)
    requires LiveOk(cfg, st) && NoLeak(st)
    ensures HeapBases(st.blocks) == TaggedBases(cfg, st)
  {
    forall b | b in HeapBases(st.blocks) ensures b in TaggedBases(cfg, st) {
      assert Tagged(cfg, st, b + ALIGN);
    }
    forall p | p in st.live ensures Tagged(cfg, st, p) {
    }
  }

  /** What a replay that goes through means: each block freed was allocated earlier, and not freed
      since. */
  lemma {:induction false} FreedWasAllocated(log: seq<Event>, i: nat, b: int) returns (j: nat)
    requires Outstanding(log).Some? && i < |log| && log[i] == Freed(b)
    ensures j < i && log[j] == Allocated(b) && Freed(b) !in log[j..i]
  {
    OutstandingPrefix(log, i + 1);
    assert log[..i + 1][..i] == log[..i];
    j := OutstandingIsAllocated(log[..i], b);
  }

  lemma {:induction false} OutstandingPrefix(log: seq<Event>, n: nat)
    requires Outstanding(log).Some? && n <= |log|
    ensures Outstanding(log[..n]).Some?
    decreases |log|
  {
    if n == |log| {
      assert log[..n] == log;
    } else {
      assert log[..|log| - 1][..n] == log[..n];
      OutstandingPrefix(log[..|log| - 1], n);
    }
  }

  lemma {:induction false} OutstandingIsAllocated(log: seq<Event>, b: int) returns (j: nat)
    requires Outstanding(log).Some? && b in Outstanding(log).value
    ensures j < |log| && log[j] == Allocated(b) && Freed(b) !in log[j..]
    decreases |log|
  {
    var n := |log| - 1;
    if log[n] == Allocated(b) {
      j := n;
    } else {
      j := OutstandingIsAllocated(log[..n], b);
      assert log[j..] == log[..n][j..] + [log[n]];
    }
  }

  /** The client's view of two machines, which is all but the bytes. */
  ghost predicate SameShape(a: State, b: State) {
    |a.mem| == |b.mem| && a.blocks == b.blocks && a.live == b.live && a.frame == b.frame && a.log == b.log
  }

  /** Debug and release builds decide alike: the same run makes the same calls of the underlying
      heap under both tag encodings and both release tests. */
  lemma {:induction false} DebugAndReleaseAgree(debug: Config, release: Config, a: State, b: State, ops: seq<Op>)
    requires !debug.ndebug && release == debug.(ndebug := true)
    requires Inv(debug, a) && Inv(release, b) && SameShape(a, b) && LegalRun(debug, a, ops)
    ensures LegalRun(release, b, ops)
    ensures SameShape(Run(debug, a, ops), Run(release, b, ops))
    decreases |ops|
  {
    if ops != [] {
      var op := ops[0];
      assert Legal(release, b, op) by {
        if op.Alloc? { assert Placement(debug, op) == Placement(release, op); }
      }
      StepKeepsInv(debug, a, op);
      StepKeepsInv(release, b, op);
      StepKeepsShape(debug, release, a, b, op);
      DebugAndReleaseAgree(debug, release, Step(debug, a, op), Step(release, b, op), ops[1..]);
    }
  }

  lemma StepKeepsShape(debug: Config, release: Config, a: State, b: State, op: Op)
    requires !debug.ndebug && release == debug.(ndebug := true)
    requires LiveOk(debug, a) && LiveOk(release, b) && SameShape(a, b) && Legal(debug, a, op)
    ensures SameShape(Step(debug, a, op), Step(release, b, op))
  {
    if op.Free? {
      assert Tagged(debug, a, op.p) && Tagged(release, b, op.p);
      FreeDecides(debug, a, op.p);
      FreeDecides(release, b, op.p);
    } else if op.Alloc? {
      assert Placement(debug, op) == Placement(release, op);
    }
  }

  // ---- Payloads are separate buffers --------------------------------------------------------

  /** A client's buffer in a memory where every allocation is an object of its own. */
  datatype Buffer = Buffer(bytes: seq<byte>, storage: Storage, frame: nat)

  ghost predicate InBounds(st: State, p: int) {
    p in st.live && p - ALIGN in st.blocks && 0 <= p && p + st.live[p] <= |st.mem|
  }

  ghost function View(st: State, p: int): Buffer
    requires InBounds(st, p)
  {
    Buffer(st.mem[p..p + st.live[p]], st.blocks[p - ALIGN].storage, st.blocks[p - ALIGN].frame)
  }

  ghost function Buffers(st: State): map<int, Buffer> {
    map p | p in st.live && InBounds(st, p) :: View(st, p)
  }

  lemma LiveInBounds(cfg: Config, st: State, p: int)
    requires BlocksInside(st) && LiveOk(cfg, st) && p in st.live
    ensures InBounds(st, p)
  {
    assert Tagged(cfg, st, p);
  }

  ghost function BufferStep(cfg: Config, bufs: map<int, Buffer>, frame: nat, op: Op): map<int, Buffer> {
    match op
    case Alloc(_, _, _, _, _, junk) =>
      var at := Placement(cfg, op);
      if at.None? || |junk| < ALIGN then bufs
      else bufs[at.value.1 + ALIGN := Buffer(BlockBytes(cfg, op, at.value.0)[ALIGN..], at.value.0, frame)]
    case Write(p, i, b) =>
      if p in bufs && i < |bufs[p].bytes| then bufs[p := bufs[p].(bytes := bufs[p].bytes[i := b])] else bufs
    case Free(p) => bufs - {p}
    case Enter => bufs
    case Leave => map p | p in bufs && !(bufs[p].storage.Stack? && bufs[p].frame == frame) :: bufs[p]
  }

  lemma FreshPayload(cfg: Config, st: State, op: Op)
    requires op.Alloc? && Legal(cfg, st, op) && Placement(cfg, op).Some?
    ensures
      var (storage, base) := Placement(cfg, op).value;
      var p := base + ALIGN;
      && InBounds(Step(cfg, st, op), p)
      && View(Step(cfg, st, op), p) == Buffer(BlockBytes(cfg, op, storage)[ALIGN..], storage, st.frame)
  {
    var (storage, base) := Placement(cfg, op).value;
    var p := base + ALIGN;
    assert Step(cfg, st, op).mem[p..p + op.s] == BlockBytes(cfg, op, storage)[ALIGN..];
  }

  lemma OldPayload(cfg: Config, st: State, op: Op, p: int)
    requires op.Alloc? && Legal(cfg, st, op) && Placement(cfg, op).Some?
    requires InBounds(st, p) && st.blocks[p - ALIGN].size == st.live[p] + ALIGN
    requires p != Placement(cfg, op).value.1 + ALIGN
    ensures InBounds(Step(cfg, st, op), p) && View(Step(cfg, st, op), p) == View(st, p)
  {
    var (storage, base) := Placement(cfg, op).value;
    SpliceOutside(st.mem, base, BlockBytes(cfg, op, storage), p, p + st.live[p]);
  }

  lemma SpliceInside(mem: seq<byte>, lo: int, hi: int, i: nat, b: byte)
    requires 0 <= lo <= lo + i < hi <= |mem|
    ensures Splice(mem, lo + i, [b])[lo..hi] == mem[lo..hi][i := b]
  {
  }

  lemma WriteSeparates(cfg: Config, st: State, op: Op, p: int)
    requires op.Write? && InBounds(st, op.p) && op.i < st.live[op.p] && InBounds(st, p)
    requires p < op.p ==> p + st.live[p] <= op.p
    requires op.p < p ==> op.p + st.live[op.p] <= p
    ensures InBounds(Step(cfg, st, op), p)
    ensures
      View(Step(cfg, st, op), p) ==
      if p == op.p then View(st, p).(bytes := View(st, p).bytes[op.i := op.b]) else View(st, p)
  {
    if p == op.p {
      SpliceInside(st.mem, p, p + st.live[p], op.i, op.b);
    } else {
      SpliceOutside(st.mem, op.p + op.i, [op.b], p, p + st.live[p]);
    }
  }

  lemma PayloadsApart(cfg: Config, st: State, p: int, q: int)
    requires BlocksApart(st) && LiveOk(cfg, st) && p in st.live && q in st.live && p < q
    ensures p + st.live[p] <= q
  {
    assert Tagged(cfg, st, p) && Tagged(cfg, st, q);
  }

  lemma AllocView(cfg: Config, st: State, op: Op, p: int)
    requires BlocksInside(st) && LiveOk(cfg, st) && op.Alloc? && Legal(cfg, st, op) && Placement(cfg, op).Some?
    requires p in Step(cfg, st, op).live
    ensures
      var st', (storage, base) := Step(cfg, st, op), Placement(cfg, op).value;
      && InBounds(st', p)
      && (p != base + ALIGN ==> InBounds(st, p) && View(st', p) == View(st, p))
      && (p == base + ALIGN ==> View(st', p) == Buffer(BlockBytes(cfg, op, storage)[ALIGN..], storage, st.frame))
  {
    if p == Placement(cfg, op).value.1 + ALIGN {
      FreshPayload(cfg, st, op);
    } else {
      assert Tagged(cfg, st, p);
      LiveInBounds(cfg, st, p);
      OldPayload(cfg, st, op, p);
    }
  }

  lemma AllocRefines(cfg: Config, st: State, op: Op)
    requires BlocksInside(st) && LiveOk(cfg, st) && op.Alloc? && Legal(cfg, st, op)
    ensures Buffers(Step(cfg, st, op)) == BufferStep(cfg, Buffers(st), st.frame, op)
  {
    var st', at := Step(cfg, st, op), Placement(cfg, op);
    if at.None? {
      LogIsNoPayload(st, st');
    } else {
      var (storage, base) := at.value;
      var payload := Buffer(BlockBytes(cfg, op, storage)[ALIGN..], storage, st.frame);
      forall p | p in st'.live
        ensures InBounds(st', p) && (p != base + ALIGN ==> InBounds(st, p) && View(st', p) == View(st, p))
        ensures p == base + ALIGN ==> View(st', p) == payload
      {
        AllocView(cfg, st, op, p);
      }
      assert Buffers(st') == Buffers(st)[base + ALIGN := payload];
    }
  }

  lemma LogIsNoPayload(st: State, st': State)
    requires st' == st.(log := st'.log)
    ensures Buffers(st') == Buffers(st)
  {
    forall p ensures InBounds(st', p) <==> InBounds(st, p) {}
  }

  lemma WriteRefines(cfg: Config, st: State, op: Op)
    requires BlocksInside(st) && BlocksApart(st) && LiveOk(cfg, st) && op.Write? && Legal(cfg, st, op)
    ensures Buffers(Step(cfg, st, op)) == BufferStep(cfg, Buffers(st), st.frame, op)
  {
    LiveInBounds(cfg, st, op.p);
    forall p | p in st.live
      ensures InBounds(st, p) && InBounds(Step(cfg, st, op), p)
      ensures View(Step(cfg, st, op), p) ==
              if p == op.p then View(st, p).(bytes := View(st, p).bytes[op.i := op.b]) else View(st, p)
    {
      LiveInBounds(cfg, st, p);
      if p < op.p { PayloadsApart(cfg, st, p, op.p); }
      if op.p < p { PayloadsApart(cfg, st, op.p, p); }
      WriteSeparates(cfg, st, op, p);
    }
  }

  lemma FreeRefines(cfg: Config, st: State, op: Op)
    requires op.Free? && forall p :: p in st.live ==> InBounds(st, p)
    ensures Buffers(Step(cfg, st, op)) == BufferStep(cfg, Buffers(st), st.frame, op)
  {
    var st' := Step(cfg, st, op);
    assert st'.live == st.live - {op.p};
    forall p | p in st'.live ensures InBounds(st', p) && View(st', p) == View(st, p) {
      assert InBounds(st, p);
    }
  }

  lemma LeaveRefines(cfg: Config, st: State, op: Op)
    requires op.Leave? && st.frame > 0 && forall p :: p in st.live ==> InBounds(st, p)
    ensures Buffers(Step(cfg, st, op)) == BufferStep(cfg, Buffers(st), st.frame, op)
  {
    var st' := Step(cfg, st, op);
    forall p | p in st'.live ensures InBounds(st', p) && View(st', p) == View(st, p) {
      assert InBounds(st, p);
    }
  }

  /** One step of the flat memory is one step of the separate buffers: allocating, writing and
      releasing never touch another payload, although tags and payloads share one memory. */
  lemma StepRefinesBuffers(cfg: Config, st: State, op: Op)
    requires Inv(cfg, st) && Legal(cfg, st, op)
    ensures Buffers(Step(cfg, st, op)) == BufferStep(cfg, Buffers(st), st.frame, op)
  {
    forall p | p in st.live ensures InBounds(st, p) { LiveInBounds(cfg, st, p); }
    match op
    case Alloc(_, _, _, _, _, _) => AllocRefines(cfg, st, op);
    case Write(_, _, _) => WriteRefines(cfg, st, op);
    case Free(_) => FreeRefines(cfg, st, op);
    case Enter => EnterRefines(cfg, st, op);
    case Leave => LeaveRefines(cfg, st, op);
  }

  lemma EnterRefines(cfg: Config, st: State, op: Op)
    requires op.Enter?
    ensures Buffers(Step(cfg, st, op)) == BufferStep(cfg, Buffers(st), st.frame, op)
  {
    var st' := Step(cfg, st, op);
    forall p | p in st.live ensures InBounds(st', p) <==> InBounds(st, p) {}
  }

  function FrameAfter(frame: nat, op: Op): nat {
    if op.Enter? then frame + 1 else if op.Leave? && frame > 0 then frame - 1 else frame
  }

  ghost function BufferRun(cfg: Config, bufs: map<int, Buffer>, frame: nat, ops: seq<Op>): map<int, Buffer>
    decreases |ops|
  {
    if ops == [] then bufs
    else BufferRun(cfg, BufferStep(cfg, bufs, frame, ops[0]), FrameAfter(frame, ops[0]), ops[1..])
  }

  lemma NextOfRun(cfg: Config, st: State, op: Op) returns (st': State)
    requires Inv(cfg, st) && Legal(cfg, st, op)
    ensures st' == Step(cfg, st, op) && Inv(cfg, st') && st'.frame == FrameAfter(st.frame, op)
    ensures Buffers(st') == BufferStep(cfg, Buffers(st), st.frame, op)
  {
    StepKeepsInv(cfg, st, op);
    StepRefinesBuffers(cfg, st, op);
    st' := Step(cfg, st, op);
  }

  /** Over every run the client's payloads are what they would be as separate objects. */
  lemma {:induction false} RunRefinesBuffers(cfg: Config, st: State, ops: seq<Op>)
    requires Inv(cfg, st) && LegalRun(cfg, st, ops)
    ensures Buffers(Run(cfg, st, ops)) == BufferRun(cfg, Buffers(st), st.frame, ops)
    decreases |ops|
  {
    if ops != [] {
      var op, rest := ops[0], ops[1..];
      var st' := NextOfRun(cfg, st, op);
      RunRefinesBuffers(cfg, st', rest);
    }
  }

  // ---- Initial contents ---------------------------------------------------------------------

  ghost predicate PayloadZero(st: State, p: int)
    requires InBounds(st, p)
  {
    forall b :: b in View(st, p).bytes ==> b == 0
  }

  /** Every zeroing form hands out a payload of zeros on both storages, except that the no-fail
      one does so on the stack only when there is nothing to zero, or when a release build finds
      zeros there by chance. */
  lemma CallocZeroes(cfg: Config, st: State, op: Op)
    requires op.Alloc? && op.zero && Legal(cfg, st, op) && Placement(cfg, op).Some?
    ensures InBounds(Step(cfg, st, op), Returned(cfg, op))
    ensures
      PayloadZero(Step(cfg, st, op), Returned(cfg, op)) <==>
      || !op.kind.NoFail?
      || Placement(cfg, op).value.0.Heap?
      || op.s == 0
      || (cfg.ndebug && forall b :: b in op.junk[ALIGN..] ==> b == 0)
  {
    var (storage, base) := Placement(cfg, op).value;
    var payload := BlockBytes(cfg, op, storage)[ALIGN..];
    FreshPayload(cfg, st, op);
    if op.kind.NoFail? && storage.Stack? {
      if cfg.ndebug {
        assert payload == op.junk[ALIGN..];
      } else if op.s > 0 {
        assert payload[0] == 0xcd && payload[0] in payload;
      }
    }
  }

  /** The plain no-fail form, of all things, zeroes what it takes from the stack. */
  lemma NoFailMallocZeroes(cfg: Config, st: State, op: Op)
    requires op.Alloc? && !op.zero && op.kind.NoFail? && Legal(cfg, st, op)
    ensures Returned(cfg, op) != 0 && InBounds(Step(cfg, st, op), Returned(cfg, op))
    ensures Placement(cfg, op).value.0.Stack? ==> PayloadZero(Step(cfg, st, op), Returned(cfg, op))
  {
    var storage := Placement(cfg, op).value.0;
    FreshPayload(cfg, st, op);
    if storage.Stack? {
      var payload := BlockBytes(cfg, op, storage)[ALIGN..];
      assert forall i :: 0 <= i < |payload| ==> payload[i] == 0;
      assert View(Step(cfg, st, op), Returned(cfg, op)).bytes == payload;
    }
  }

  // ---- Stack consumption --------------------------------------------------------------------

  function StackUse(cfg: Config, op: Op): nat {
    if op.Alloc? && Placement(cfg, op).Some? && Placement(cfg, op).value.0.Stack? then op.s + ALIGN else 0
  }

  function TotalStackUse(cfg: Config, ops: seq<Op>): nat {
    if ops == [] then 0 else StackUse(cfg, ops[0]) + TotalStackUse(cfg, ops[1..])
  }

  function Allocations(ops: seq<Op>): nat {
    if ops == [] then 0 else (if ops[0].Alloc? then 1 else 0) + Allocations(ops[1..])
  }

  /** What an allocation does. Small requests take the stack and never ask the heap; larger ones ask
      it, once. The _stack and _heap forms do the one and the other whatever the size. Where the heap
      refuses, the no-fail forms fall back on the stack and the others return null. */
  lemma AllocationsExactly(cfg: Config, st: State, op: Op)
    requires op.Alloc? && Legal(cfg, st, op)
    ensures
      var st', limit := Step(cfg, st, op), if cfg.kernel then 256 else 4096;
      var asks := op.kind == OnHeap || (op.kind != OnStack && op.s + 8 > limit);
      var onStack := !asks || (op.heap.None? && op.kind == NoFail);
      && st'.log == (if !asks then st.log
                     else st.log + [if op.heap.Some? then Allocated(op.heap.value) else Refused(op.s + 8)])
      && st'.frame == st.frame
      && (onStack ==> Gets(cfg, st, st', op, op.stack, Stack))
      && (!onStack && op.heap.Some? ==> Gets(cfg, st, st', op, op.heap.value, Heap))
      && (!onStack && op.heap.None? ==>
            Returned(cfg, op) == 0 && st'.mem == st.mem && st'.blocks == st.blocks && st'.live == st.live)
  {
    PlacementExactly(cfg, st.log, op);
    if Placement(cfg, op).Some? { PlacedGets(cfg, st, op); }
  }

  lemma PlacementExactly(cfg: Config, log: seq<Event>, op: Op)
    requires op.Alloc?
    ensures
      var limit := if cfg.kernel then 256 else 4096;
      var asks := op.kind == OnHeap || (op.kind != OnStack && op.s + 8 > limit);
      && LogAfter(cfg, log, op) == (if !asks then log
                                    else log + [if op.heap.Some? then Allocated(op.heap.value) else Refused(op.s + 8)])
      && Placement(cfg, op) == (if asks && op.heap.Some? then Some((Heap, op.heap.value))
                                else if asks && op.kind != NoFail then None
                                else Some((Stack, op.stack)))
  {
  }

  lemma PlacedGets(cfg: Config, st: State, op: Op)
    requires op.Alloc? && Legal(cfg, st, op) && Placement(cfg, op).Some?
    ensures
      var (storage, base) := Placement(cfg, op).value;
      Gets(cfg, st, Step(cfg, st, op), op, base, storage)
  {
    FreshBytes(cfg, st, op);
  }

  /** The block that the client gets, with its tag 8 bytes below the pointer. */
  ghost predicate Gets(cfg: Config, st: State, st': State, op: Op, base: int, storage: Storage)
    requires op.Alloc?
  {
    && Returned(cfg, op) == base + 8
    && st'.blocks == st.blocks[base := Block(op.s + 8, storage, st.frame)]
    && st'.live == st.live[base + 8 := op.s]
    && |st'.mem| == |st.mem| && 0 < base && base + |op.junk| <= |st'.mem| && |op.junk| == op.s + 8
    && st'.mem[base] == (match storage
                         case Stack => if cfg.ndebug then 0 else 0x7c
                         case Heap => if cfg.ndebug then 1 else 0xb3)
    && forall i :: 8 <= i < |op.junk| ==> st'.mem[base + i] == PayloadByte(cfg, op, storage, op.junk[i])
  }

  /** A byte of the payload, given what happened to be there: zeros from the zeroing forms and, on
      the stack, from the plain no-fail one instead of the zeroing no-fail one; the debug pattern
      where a debug build would leave it to chance. */
  function PayloadByte(cfg: Config, op: Op, storage: Storage, was: byte): byte
    requires op.Alloc?
  {
    match storage
    case Heap => if op.zero then 0 else was
    case Stack =>
      if (op.zero && op.kind != NoFail) || (!op.zero && op.kind == NoFail) then 0
      else if cfg.ndebug then was else 0xcd
  }

  lemma FreshBytes(cfg: Config, st: State, op: Op)
    requires op.Alloc? && Legal(cfg, st, op) && Placement(cfg, op).Some?
    ensures
      var st', (storage, base) := Step(cfg, st, op), Placement(cfg, op).value;
      && st'.mem[base] == cfg.Key(storage)
      && forall i :: 8 <= i < |op.junk| ==> st'.mem[base + i] == PayloadByte(cfg, op, storage, op.junk[i])
  {
    var (storage, base) := Placement(cfg, op).value;
    var bytes := BlockBytes(cfg, op, storage);
    forall i | 8 <= i < |op.junk|
      ensures Step(cfg, st, op).mem[base + i] == PayloadByte(cfg, op, storage, op.junk[i])
    {
      assert Step(cfg, st, op).mem[base + i] == bytes[i];
    }
  }

  /** A call takes more than the limit from the stack exactly when it insists on the stack, or
      may not fail and the heap has just refused. */
  lemma OverLimitOnlyAsLastResort(cfg: Config, op: Op)
    requires op.Alloc?
    ensures StackUse(cfg, op) > cfg.Max() <==>
            op.s + ALIGN > cfg.Max() && (op.kind.OnStack? || (op.kind.NoFail? && op.heap.None?))
  {
  }

  lemma {:induction false} StackUseBounded(cfg: Config, ops: seq<Op>)
    requires forall op :: op in ops && op.Alloc? ==> !op.kind.OnStack? && (op.kind.NoFail? ==> op.heap.Some?)
    ensures TotalStackUse(cfg, ops) <= Allocations(ops) * cfg.Max()
  {
    if ops != [] {
      StackUseBounded(cfg, ops[1..]);
      if ops[0].Alloc? { OverLimitOnlyAsLastResort(cfg, ops[0]); }
    }
  }
}
